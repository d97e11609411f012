/**
 * The add-item form of app/add-item/page.tsx: upload checks, the
 * compression threshold and resize rule, the form state and its handlers,
 * and saving a new item to the store.
 */
module AddItemPage {
  import opened Results
  import opened Items
  import opened Store

  /** Uploads larger than 10 MiB are refused. */
  const MaxUploadSize: nat := 10 * 1024 * 1024

  /** Images whose estimated decoded size is under 500 KiB are kept as they are. */
  const CompressionThreshold: nat := 500 * 1024

  /** Bounding box of a re-encoded image, in pixels. */
  const MaxWidth: real := 1200.0
  const MaxHeight: real := 1200.0

  /** The selected file as the browser reports it: MIME type and size in bytes. */
  datatype UploadFile = UploadFile(mimeType: string, size: nat)

  /** How `handleImageUpload` disposes of a selection; only `Accepted` is read. */
  datatype UploadVerdict = NoFile | NotAnImage | TooLarge | Accepted

  /** The guards at the top of `handleImageUpload`, in their order. */
  function CheckUpload(file: Option<UploadFile>): (v: UploadVerdict)
    ensures v == Accepted <==> file.Some? && "image/" <= file.value.mimeType && file.value.size <= MaxUploadSize
    ensures v == NoFile <==> file.None?
    ensures v == NotAnImage <==> file.Some? && !("image/" <= file.value.mimeType)
    ensures v == TooLarge <==> file.Some? && "image/" <= file.value.mimeType && file.value.size > MaxUploadSize
  {
    match file
    case None => NoFile
    case Some(f) =>
      if !("image/" <= f.mimeType) then NotAnImage
      else if f.size > MaxUploadSize then TooLarge
      else Accepted
  }

  /** The 10 MiB limit is inclusive: exactly 10 MiB passes, one byte more does not. */
  lemma UploadLimitInclusive(mimeType: string)
    requires "image/" <= mimeType
    ensures CheckUpload(Some(UploadFile(mimeType, 10485760))) == Accepted
    ensures CheckUpload(Some(UploadFile(mimeType, 10485761))) == TooLarge
  {
  }

  /**
   * `base64.length * 3 / 4 < 500 * 1024`, the estimate of the decoded size,
   * compared exactly.
   */
  predicate SkipsCompression(base64: string) {
    3 * |base64| < 4 * CompressionThreshold
  }

  /** The cut-off in characters: 682666 are kept as they are, 682667 are compressed. */
  lemma CompressionCutoff(base64: string)
    ensures SkipsCompression(base64) <==> |base64| <= 682666
  {
  }

  /**
   * `compressBase64Image`: a small image is returned unchanged; a large one
   * is whatever the canvas re-encoding resolves with (`reencoded`, which is
   * the original itself when decoding fails or no 2D context exists).
   */
  function CompressBase64Image(base64: string, reencoded: string): (r: string)
    ensures SkipsCompression(base64) ==> r == base64
    ensures !SkipsCompression(base64) ==> r == reencoded
  {
    if SkipsCompression(base64) then base64 else reencoded
  }

  /** Multiplying by a non-negative factor keeps an inequality. */
  lemma ScaleMonotone(x: real, y: real, c: real)
    requires x <= y && 0.0 <= c
    ensures x * c <= y * c
  {
    assert (y - x) * c >= 0.0;
  }

  /** A positive factor can be cancelled from both sides of an inequality. */
  lemma CancelPositive(x: real, y: real, b: real)
    requires 0.0 < b && x * b <= y * b
    ensures x <= y
  {
    assert (y - x) * b >= 0.0;
  }

  /** Scaling the shorter side `a` by `m / b`, where `b` is the longer side and exceeds `m`. */
  lemma ScaleDown(a: real, b: real, m: real)
    requires 0.0 <= a <= b && 0.0 < m < b
    ensures 0.0 <= (a * m) / b <= m && (a * m) / b <= a
    ensures ((a * m) / b) * b == m * a
  {
    var q := (a * m) / b;
    assert q * b == a * m;
    ScaleMonotone(a, b, m);
    assert q * b <= m * b;
    CancelPositive(q, m, b);
    ScaleMonotone(m, b, a);
    assert q * b <= a * b;
    CancelPositive(q, a, b);
    ScaleMonotone(0.0, a, m);
    assert 0.0 * b <= q * b;
    CancelPositive(0.0, q, b);
  }

  /**
   * The canvas size chosen for an image of `w` by `h` pixels: the longer
   * side is brought down to 1200 and the other scaled in proportion; an
   * image within 1200 by 1200 keeps its size.
   */
  method FitWithin(w: nat, h: nat) returns (width: real, height: real)
    ensures 0.0 <= width <= MaxWidth && 0.0 <= height <= MaxHeight
    ensures width * (h as real) == height * (w as real)
    ensures w as real <= MaxWidth && h as real <= MaxHeight ==> width == w as real && height == h as real
    ensures w as real > MaxWidth || h as real > MaxHeight ==> width == MaxWidth || height == MaxHeight
    ensures width <= w as real && height <= h as real
  {
    width := w as real;
    height := h as real;
    if width > height {
      if width > MaxWidth {
        ScaleDown(height, width, MaxWidth);
        height := (height * MaxWidth) / width;
        width := MaxWidth;
        assert width * (h as real) == height * (w as real);
      } else {
        assert width * (h as real) == height * (w as real);
      }
    } else {
      if height > MaxHeight {
        ScaleDown(width, height, MaxHeight);
        width := (width * MaxHeight) / height;
        height := MaxHeight;
        assert width * (h as real) == height * (w as real);
      } else {
        assert width * (h as real) == height * (w as real);
      }
    }
  }

  /** The form state: a wardrobe item without `id` and `createdAt`. */
  datatype FormData = FormData(season: Season, category: Category, description: string, imageBase64: string)

  /** The initial form, restored after a save or a confirmed cancel. */
  const DefaultForm := FormData(Winter, Blouses, "", "")

  /** A value chosen in the season or the category select. */
  datatype SelectChange = SeasonChange(season: Season) | CategoryChange(category: Category)

  /** The item `handleSubmit` builds; `id` and `createdAt` come from the clock. */
  function NewItem(form: FormData, id: string, createdAt: int): WardrobeItem {
    WardrobeItem(id, form.season, form.category, form.description, form.imageBase64, createdAt)
  }

  /** How `handleSubmit` ends, which decides the alert shown. */
  datatype SubmitOutcome = MissingImage | Saved | SaveFailed(error: DBError)

  /** The `AddItem` component: its form state and handlers. */
  class AddItem {
    const db: WardrobeDB
    var formData: FormData
    var imagePreview: Option<string>

    constructor (db: WardrobeDB)
      ensures this.db == db && formData == DefaultForm && imagePreview == None
    {
      this.db := db;
      formData := DefaultForm;
      imagePreview := None;
    }

    /** `handleInputChange` from the description textarea (its `name` is `description`). */
    method HandleInputChange(value: string)
      modifies this`formData
      ensures formData.description == value
      ensures formData.season == old(formData.season) && formData.category == old(formData.category)
      ensures formData.imageBase64 == old(formData.imageBase64)
    {
      formData := formData.(description := value);
    }

    /** `handleSelectChange` from the season or the category select. */
    method HandleSelectChange(change: SelectChange)
      modifies this`formData
      ensures formData.season == if change.SeasonChange? then change.season else old(formData.season)
      ensures formData.category == if change.CategoryChange? then change.category else old(formData.category)
      ensures formData.description == old(formData.description)
      ensures formData.imageBase64 == old(formData.imageBase64)
    {
      match change
      case SeasonChange(s) => formData := formData.(season := s);
      case CategoryChange(c) => formData := formData.(category := c);
    }

    /**
     * `handleImageUpload`: `dataUrl` is what the FileReader produced and
     * `reencoded` what the canvas re-encoding would resolve with. A refused
     * selection changes nothing; an accepted one is previewed as read, and
     * the form keeps the compressed image, replacing the original only when
     * the two differ.
     */
    method HandleImageUpload(file: Option<UploadFile>, dataUrl: string, reencoded: string)
      modifies this`formData, this`imagePreview
      ensures CheckUpload(file) != Accepted ==> formData == old(formData) && imagePreview == old(imagePreview)
      ensures CheckUpload(file) == Accepted ==> imagePreview == Some(dataUrl)
      ensures CheckUpload(file) == Accepted ==>
        formData == old(formData).(imageBase64 := CompressBase64Image(dataUrl, reencoded))
      ensures CheckUpload(file) == Accepted && SkipsCompression(dataUrl) ==> formData.imageBase64 == dataUrl
    {
      if CheckUpload(file) != Accepted {
        return;
      }
      imagePreview := Some(dataUrl);
      formData := formData.(imageBase64 := dataUrl);
      var compressed := CompressBase64Image(dataUrl, reencoded);
      if compressed != dataUrl {
        formData := formData.(imageBase64 := compressed);
      }
    }

    /**
     * `handleSubmit`: without an image nothing happens; otherwise the item
     * built from the form is added to the store and, when that succeeds, the
     * form is reset. A failed add leaves the form for another try.
     */
    method HandleSubmit(id: string, createdAt: int, engineFails: bool) returns (outcome: SubmitOutcome)
      requires db.Valid()
      modifies this`formData, this`imagePreview, db
      ensures db.Valid()
      ensures old(formData.imageBase64) == "" ==>
        outcome == MissingImage && db.records == old(db.records)
      ensures outcome == MissingImage <==> old(formData.imageBase64) == ""
      ensures outcome == Saved <==> old(formData.imageBase64) != "" && !engineFails && id !in old(db.records)
      ensures outcome == Saved ==> db.records == old(db.records)[id := NewItem(old(formData), id, createdAt)]
      ensures outcome == Saved ==> formData == DefaultForm && imagePreview == None
      ensures outcome != Saved ==> formData == old(formData) && imagePreview == old(imagePreview) && db.records == old(db.records)
      ensures outcome.SaveFailed? ==> outcome.error == if engineFails then EngineError else ConstraintError
    {
      if formData.imageBase64 == "" {
        return MissingImage;
      }
      var newItem := NewItem(formData, id, createdAt);
      var r := db.AddItem(newItem, engineFails);
      if r.Err? {
        return SaveFailed(r.error);
      }
      formData := DefaultForm;
      imagePreview := None;
      outcome := Saved;
    }

    /** `handleCancel`: a confirmed cancel resets the form, a refused one does nothing. */
    method HandleCancel(confirmed: bool)
      modifies this`formData, this`imagePreview
      ensures formData == if confirmed then DefaultForm else old(formData)
      ensures imagePreview == if confirmed then None else old(imagePreview)
    {
      if confirmed {
        formData := DefaultForm;
        imagePreview := None;
      }
    }
  }

  /**
   * Round trip of a save: once the new item is stored, the store's listing
   * holds it exactly once, every field as the form and the clock gave it.
   */
  lemma SavedItemReadsBack(m: Records, form: FormData, id: string, createdAt: int, listing: seq<WardrobeItem>)
    requires KeyedById(m) && id !in m
    requires ListsInKeyOrder(listing, m[id := NewItem(form, id, createdAt)])
    ensures exists i :: 0 <= i < |listing| && listing[i].id == id
    ensures forall i :: 0 <= i < |listing| && listing[i].id == id ==>
      && listing[i].season == form.season && listing[i].category == form.category
      && listing[i].description == form.description && listing[i].imageBase64 == form.imageBase64
      && listing[i].createdAt == createdAt
    ensures forall i, j :: 0 <= i < j < |listing| ==> listing[i].id != id || listing[j].id != id
  {
    var stored := m[id := NewItem(form, id, createdAt)];
    assert id in stored;
    ListedIdsDistinct(listing, stored);
  }
}
