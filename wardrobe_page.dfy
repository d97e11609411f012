/**
 * The wardrobe listing of app/page.tsx: the component state, loading from
 * the store, filtering by season and category, sorting by creation time,
 * deleting, and the options offered by the two filter selects.
 */
module WardrobePage {
  import opened Results
  import opened Items
  import opened Sequences
  import opened Chronology
  import opened Store

  /** A filter select's value: the `'all'` wildcard or one value. */
  datatype Choice<T> = All | Only(value: T)

  predicate Matches(item: WardrobeItem, season: Choice<Season>, category: Choice<Category>) {
    && (season.Only? ==> item.season == season.value)
    && (category.Only? ==> item.category == category.value)
  }

  function MatchesSelection(season: Choice<Season>, category: Choice<Category>): WardrobeItem -> bool {
    item => Matches(item, season, category)
  }

  /** The items both selects let through, in list order. */
  function Matching(items: seq<WardrobeItem>, season: Choice<Season>, category: Choice<Category>): seq<WardrobeItem> {
    Keep(items, MatchesSelection(season, category))
  }

  /**
   * The filtering half of `filterItems`: a copy of `items`, filtered by the
   * season and then by the category, each only when it is not `'all'`.
   */
  method ApplySelections(items: seq<WardrobeItem>, season: Choice<Season>, category: Choice<Category>)
    returns (filtered: seq<WardrobeItem>)
    ensures filtered == Matching(items, season, category)
  {
    ghost var matches := MatchesSelection(season, category);
    filtered := items;
    if season.Only? {
      var bySeason := (item: WardrobeItem) => item.season == season.value;
      filtered := Keep(filtered, bySeason);
      if category.Only? {
        var byCategory := (item: WardrobeItem) => item.category == category.value;
        filtered := Keep(filtered, byCategory);
        KeepTwice(items, bySeason, byCategory, matches);
      } else {
        KeepSameVerdicts(items, bySeason, matches);
      }
    } else if category.Only? {
      var byCategory := (item: WardrobeItem) => item.category == category.value;
      filtered := Keep(filtered, byCategory);
      KeepSameVerdicts(items, byCategory, matches);
    } else {
      KeepAllTrue(items, matches);
    }
  }

  /**
   * `filterItems`: the selected items, sorted in place by creation time in
   * the chosen direction.
   */
  method FilterAndSort(items: seq<WardrobeItem>, season: Choice<Season>, category: Choice<Category>, sortBy: SortOrder)
    returns (filtered: seq<WardrobeItem>)
    ensures filtered == StableSort(Matching(items, season, category), sortBy)
    ensures SortedBy(filtered, sortBy)
    ensures forall x :: x in filtered ==> Matches(x, season, category)
    ensures forall x :: multiset(filtered)[x] == if Matches(x, season, category) then multiset(items)[x] else 0
    ensures season.All? && category.All? ==> multiset(filtered) == multiset(items)
    ensures |filtered| <= |items|
  {
    filtered := ApplySelections(items, season, category);
    ghost var matching := filtered;
    var a := new WardrobeItem[|filtered|](k requires 0 <= k < |filtered| => filtered[k]);
    assert a[..] == matching;
    SortInPlace(a, sortBy);
    filtered := a[..];
    SortedSelection(items, season, category, sortBy);
  }

  /** What the sorted selection holds, whatever computes it. */
  lemma SortedSelection(items: seq<WardrobeItem>, season: Choice<Season>, category: Choice<Category>, sortBy: SortOrder)
    ensures SortedBy(StableSort(Matching(items, season, category), sortBy), sortBy)
    ensures forall x :: x in StableSort(Matching(items, season, category), sortBy) ==> Matches(x, season, category)
    ensures forall x :: multiset(StableSort(Matching(items, season, category), sortBy))[x] ==
                        if Matches(x, season, category) then multiset(items)[x] else 0
    ensures season.All? && category.All? ==> multiset(StableSort(Matching(items, season, category), sortBy)) == multiset(items)
    ensures |StableSort(Matching(items, season, category), sortBy)| <= |items|
  {
    var matching := Matching(items, season, category);
    var r := StableSort(matching, sortBy);
    StableSortSorted(matching, sortBy);
    StableSortPermutation(matching, sortBy);
    forall x | x in r ensures Matches(x, season, category) {
      assert x in multiset(matching);
    }
    assert |r| == |multiset(r)| == |multiset(matching)| == |matching|;
  }

  function HasOtherId(id: string): WardrobeItem -> bool {
    (item: WardrobeItem) => item.id != id
  }

  /** `items.filter(item => item.id !== id)`: the list without the deleted id. */
  function Without(items: seq<WardrobeItem>, id: string): (r: seq<WardrobeItem>)
    ensures forall k :: 0 <= k < |r| ==> r[k].id != id
    ensures forall x :: multiset(r)[x] == if x.id != id then multiset(items)[x] else 0
  {
    Keep(items, HasOtherId(id))
  }

  /** Removing by id keeps the remaining items in their order. */
  lemma WithoutKeepsOrder(a: seq<WardrobeItem>, b: seq<WardrobeItem>, id: string)
    ensures Without(a + b, id) == Without(a, id) + Without(b, id)
  {
    KeepAppend(a, b, HasOtherId(id));
  }

  function Wrapped<T>(values: seq<T>): (r: seq<Choice<T>>)
    ensures |r| == |values| && forall k :: 0 <= k < |r| ==> r[k] == Only(values[k])
  {
    seq(|values|, k requires 0 <= k < |values| => Only(values[k]))
  }

  /**
   * The options of a filter select: `['all', ...new Set(values)]`, each
   * value once.
   */
  function FilterOptions<T(==,!new)>(values: seq<T>): (r: seq<Choice<T>>)
    ensures |r| >= 1 && r[0] == All
    ensures forall i :: 1 <= i < |r| ==> r[i].Only? && r[i].value in values
    ensures forall v :: Only(v) in r <==> v in values
    ensures forall i, j :: 0 <= i < j < |r| ==> r[i] != r[j]
  {
    var d := Dedup(values);
    var r := [All] + Wrapped(d);
    assert forall i :: 1 <= i < |r| ==> r[i] == Only(d[i - 1]);
    assert forall v :: v in d ==> Only(v) in r by {
      forall v | v in d ensures Only(v) in r {
        var k :| 0 <= k < |d| && d[k] == v;
        assert r[k + 1] == Only(v);
      }
    }
    r
  }

  /** The options follow the order in which their values first occur. */
  lemma FilterOptionsOrder<T(!new)>(values: seq<T>)
    ensures forall i, j :: 1 <= i < j < |FilterOptions(values)| ==>
      IndexOf(values, FilterOptions(values)[i].value) < IndexOf(values, FilterOptions(values)[j].value)
  {
    var d := Dedup(values);
    DedupFirstOccurrenceOrder(values);
    assert forall i :: 1 <= i < |FilterOptions(values)| ==> FilterOptions(values)[i] == Only(d[i - 1]);
  }

  function Seasons(items: seq<WardrobeItem>): seq<Season> {
    seq(|items|, k requires 0 <= k < |items| => items[k].season)
  }

  function Categories(items: seq<WardrobeItem>): seq<Category> {
    seq(|items|, k requires 0 <= k < |items| => items[k].category)
  }

  /** `uniqueSeasons`: `'all'`, then each season some item has, once. */
  function UniqueSeasons(items: seq<WardrobeItem>): (r: seq<Choice<Season>>)
    ensures |r| >= 1 && r[0] == All
    ensures forall s :: Only(s) in r <==> exists k :: 0 <= k < |items| && items[k].season == s
    ensures forall i, j :: 0 <= i < j < |r| ==> r[i] != r[j]
  {
    var seasons := Seasons(items);
    assert forall k :: 0 <= k < |items| ==> seasons[k] == items[k].season;
    assert forall s :: s in seasons <==> exists k :: 0 <= k < |items| && items[k].season == s by {
      forall s | s in seasons ensures exists k :: 0 <= k < |items| && items[k].season == s {
        var k :| 0 <= k < |seasons| && seasons[k] == s;
      }
    }
    FilterOptions(seasons)
  }

  /** `uniqueCategories`: `'all'`, then each category some item has, once. */
  function UniqueCategories(items: seq<WardrobeItem>): (r: seq<Choice<Category>>)
    ensures |r| >= 1 && r[0] == All
    ensures forall c :: Only(c) in r <==> exists k :: 0 <= k < |items| && items[k].category == c
    ensures forall i, j :: 0 <= i < j < |r| ==> r[i] != r[j]
  {
    var categories := Categories(items);
    assert forall k :: 0 <= k < |items| ==> categories[k] == items[k].category;
    assert forall c :: c in categories <==> exists k :: 0 <= k < |items| && items[k].category == c by {
      forall c | c in categories ensures exists k :: 0 <= k < |items| && items[k].category == c {
        var k :| 0 <= k < |categories| && categories[k] == c;
      }
    }
    FilterOptions(categories)
  }

  /** The `Wardrobe` component: its state hooks and handlers. */
  class Wardrobe {
    const db: WardrobeDB
    var items: seq<WardrobeItem>
    var filteredItems: seq<WardrobeItem>
    var loading: bool
    var selectedSeason: Choice<Season>
    var selectedCategory: Choice<Category>
    var sortBy: SortOrder
    var deletingId: Option<string>

    /** The initial `useState` values. */
    constructor (db: WardrobeDB)
      ensures this.db == db && items == [] && filteredItems == [] && loading
      ensures selectedSeason == All && selectedCategory == All && sortBy == Newest && deletingId == None
    {
      this.db := db;
      items, filteredItems, loading := [], [], true;
      selectedSeason, selectedCategory, sortBy, deletingId := All, All, Newest, None;
    }

    /**
     * `loadItems`: read every record and show them newest first; on a failed
     * read the lists stay as they were.
     */
    method LoadItems(engineFails: bool)
      requires db.Valid()
      modifies this`items, this`filteredItems, this`loading
      ensures !loading
      ensures engineFails ==> items == old(items) && filteredItems == old(filteredItems)
      ensures !engineFails ==> SortedBy(items, Newest) && filteredItems == items
      ensures !engineFails ==> |items| == |db.records| && forall x :: x in items <==> x in db.records.Values
      ensures !engineFails ==> exists listed :: ListsInKeyOrder(listed, db.records) && items == StableSort(listed, Newest)
    {
      loading := true;
      var r := db.GetAllItems(engineFails);
      if r.Ok? {
        var allItems := r.value;
        var a := new WardrobeItem[|allItems|](k requires 0 <= k < |allItems| => allItems[k]);
        assert a[..] == allItems;
        SortInPlace(a, Newest);
        items := a[..];
        filteredItems := items;
        StableSortSorted(allItems, Newest);
        StableSortPermutation(allItems, Newest);
        ListedExactlyTheValues(allItems, db.records);
        assert |items| == |multiset(items)| == |multiset(allItems)|;
        assert forall x :: x in items <==> x in multiset(allItems);
        assert ListsInKeyOrder(allItems, db.records) && items == StableSort(allItems, Newest);
      }
      loading := false;
    }

    /** `filterItems`, run by the effect whenever the list or a selection changes. */
    method FilterItems()
      modifies this`filteredItems
      ensures filteredItems == StableSort(Matching(items, selectedSeason, selectedCategory), sortBy)
      ensures |filteredItems| <= |items|
    {
      filteredItems := FilterAndSort(items, selectedSeason, selectedCategory, sortBy);
    }

    /**
     * `handleDeleteItem`: ask, delete from the store, then drop the item from
     * the list. A refused confirmation or a failed delete leaves the list.
     */
    method HandleDeleteItem(id: string, confirmed: bool, engineFails: bool)
      requires db.Valid()
      modifies this`items, this`deletingId, db
      ensures db.Valid()
      ensures !confirmed ==> items == old(items) && deletingId == old(deletingId) && db.records == old(db.records)
      ensures confirmed ==> deletingId == None
      ensures confirmed ==> db.records == if engineFails then old(db.records) else old(db.records) - {id}
      ensures items == if confirmed && !engineFails then Without(old(items), id) else old(items)
    {
      if !confirmed {
        return;
      }
      deletingId := Some(id);
      var r := db.DeleteItem(id, engineFails);
      if r.Ok? {
        items := Without(items, id);
      }
      deletingId := None;
    }
  }
}
