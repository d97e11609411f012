# Wardrobe catalog: item store, listing and add-item rules in Dafny

This project models the logic of a browser-only wardrobe catalog. Users add
clothing items (photo, season, category, description) and browse, filter and
delete them. Everything is kept in the browser's IndexedDB.

Three parts of the application are modelled:

- **The item store** (`lib/indexedDB.ts`, module `Store`). Class `WardrobeDB` holds the
  object store `items` as a `map<string, WardrobeItem>`. Its invariant is
  that every record sits under its own `id` (the key path). There is one
  method per operation: `AddItem`, `GetAllItems`, `DeleteItem`, `GetCount`
  and `ClearAll`. They follow the Indexed Database API 3.0:
  - `add` never overwrites, and a taken key rejects with `ConstraintError`.
  - `delete` of an absent key succeeds.
  - `getAll` lists the records in ascending key order.
  - `count` and `clear` act on the whole store.

  Any other engine failure is a parameter (`engineFails`). It rejects the
  promise and changes nothing.
- **The listing page** (`app/page.tsx`, modules `WardrobePage`, `Chronology` and
  `Sequences`).
  - Season and category selection uses `'all'` as a wildcard.
  - Sorting by `createdAt` is newest-first or oldest-first, with JavaScript's
    stable `Array.prototype.sort`. It is modelled as an in-place insertion
    sort on an array, proved equal to a stable-sort specification.
  - Deleting removes the item from the in-memory list.
  - The select options are de-duplicated, keeping first-occurrence order.
  - Class `Wardrobe` holds the component's state hooks.
- **The add-item page** (`app/add-item/page.tsx`, module `AddItemPage`).
  - Upload checks: an `image/` MIME prefix and a 10 MiB cap.
  - The 500 KiB threshold below which an image is not compressed.
  - The rule that fits a resized image within 1200×1200, over exact reals.
  - Class `AddItem` holds the form state. Its handlers change a field, take an
    upload, submit and cancel.

`createdAt` is an integer number of milliseconds. The clock (`id`,
`createdAt`), user confirmation, the FileReader result and the canvas
re-encoding are method parameters.

The store's `getAll()` returns records in ascending key order, and
`GetAllItems` promises that. The store passes on the engine's
`ConstraintError` and its other failures, modelled as `ConstraintError` and
`EngineError`.

## Model

| member | source | states |
|---|---|---|
| `Store.WardrobeDB.constructor` | lib/indexedDB.ts:14-21 | The freshly created `items` store is empty and satisfies the key-path invariant |
| `Store.WardrobeDB.AddItem` | lib/indexedDB.ts:36-53 | Succeeds exactly when the engine does not fail and `item.id` is new. It then inserts that record under `item.id`, resolves with the id and keeps the invariant. A taken id rejects with ConstraintError and an engine failure with EngineError; both leave the records unchanged |
| `Store.WardrobeDB.GetAllItems` | lib/indexedDB.ts:56-72 | Without engine failure, lists every stored record exactly once, unchanged, in ascending key order, and writes nothing |
| `Store.WardrobeDB.DeleteItem` | lib/indexedDB.ts:75-92 | Without engine failure, resolves `true` whether or not the key was present. Afterwards the key is gone and every other record is untouched |
| `Store.WardrobeDB.GetCount` | lib/indexedDB.ts:95-112 | Without engine failure, resolves with the number of stored records |
| `Store.WardrobeDB.ClearAll` | lib/indexedDB.ts:115-132 | Without engine failure the store is empty afterwards; on failure it is unchanged |
| `Store.KeyLess` | lib/indexedDB.ts:62 | The order in which `getAll` walks string keys: lexicographic, a proper prefix first (over characters; see Left out) |
| `Store.LeastKey` | lib/indexedDB.ts:62 | Returns a key of the set that is below every other key in IndexedDB string-key order |
| `Store.KeyLessTransitive` | lib/indexedDB.ts:62 | The key order used by `getAll` is transitive |
| `Store.KeyLessTotal` | lib/indexedDB.ts:62 | Any two distinct keys are ordered one way or the other |
| `Store.ListedIdsDistinct` | lib/indexedDB.ts:62 | A key-ordered listing never lists the same id twice |
| `Store.ListedExactlyTheValues` | lib/indexedDB.ts:62-65 | An item is in the listing exactly when it is a stored record |
| `Store.ListingOfEmptyStore` | lib/indexedDB.ts:122 | After `clear`, the only possible listing is empty |
| `Store.CountAfterAdd` | lib/indexedDB.ts:43 | A successful add grows the count by one |
| `Store.CountAfterDelete` | lib/indexedDB.ts:82 | Deleting a present id shrinks the count by one; deleting an absent id leaves it |
| `Store.DeleteIdempotent` | lib/indexedDB.ts:82-86 | Deleting the same id twice leaves the same records as deleting it once |
| `Store.AddThenDeleteRestores` | lib/indexedDB.ts:36-92 | Adding a new id and then deleting it restores the prior records |
| `Store.IndexedFieldsNeedNotBeUnique` | lib/indexedDB.ts:15-21 | Only the id is unique: two records that share season, category and creation time can both be stored when their ids differ |
| `Sequences.Keep` | app/page.tsx:101 | `filter` yields only elements satisfying the predicate, at most as many as the input. Each satisfying element occurs as often as in the input, so none is dropped |
| `Sequences.KeepAppend` | app/page.tsx:132 | Filtering distributes over concatenation, so relative order is preserved |
| `Sequences.KeepTwice` | app/page.tsx:100-106 | Filtering by season and then by category equals one filter by both |
| `Sequences.Dedup` | app/page.tsx:145 | A value is in the de-duplicated list exactly when it occurs in the input, and no value appears twice |
| `Sequences.DedupFirstOccurrenceOrder` | app/page.tsx:145 | De-duplicated values keep the order of their first occurrence in the input |
| `Chronology.Rank` | app/page.tsx:108-114 | The comparator's sort key: minus `createdAt` for newest-first, `createdAt` for oldest-first, so the comparator returns `Rank(a) - Rank(b)` |
| `Chronology.StableSortSorted` | app/page.tsx:108-114 | The sort result is ordered by `Rank`, so newest-first or oldest-first by `createdAt` |
| `Chronology.StableSortPermutation` | app/page.tsx:108-114 | The sort result is a permutation of its input |
| `Chronology.SortedByCreatedAt` | app/page.tsx:109-113 | In a newest-first list `createdAt` never increases, and in an oldest-first list it never decreases |
| `Chronology.InsertAt` | app/page.tsx:108-114 | Inserting an item places it after every item it does not strictly precede and before those it does, which makes the sort stable |
| `Chronology.InsertInPlace` | app/page.tsx:108-114 | Shifting `a[i]` left into the sorted prefix leaves the prefix equal to the stable insertion of that item, and the rest of the array untouched |
| `Chronology.SortInPlace` | app/page.tsx:108-114 | Sorting the array in place leaves exactly the stable sort of its old contents |
| `WardrobePage.Matches` | app/page.tsx:99-105 | An item passes the selections when its season equals the selected season unless that is `'all'`, and likewise its category |
| `WardrobePage.ApplySelections` | app/page.tsx:98-106 | The season filter, then the category filter (each skipped for `'all'`), yield exactly the items matching both selections, in list order |
| `WardrobePage.FilterAndSort` | app/page.tsx:97-117 | The result is the matching items, stably sorted. It is sorted in the chosen direction, and every shown item has the selected season and category. Each matching item appears as often as in the input, so none is dropped. With both selections `'all'` it is a permutation of the whole list. It is never longer than the list |
| `WardrobePage.Without` | app/page.tsx:132 | No remaining item has the deleted id, and every other item keeps its multiplicity |
| `WardrobePage.WithoutKeepsOrder` | app/page.tsx:132 | Removing by id preserves the order of the remaining items |
| `WardrobePage.FilterOptions` | app/page.tsx:145-146 | The options start with `'all'`. Each value occurring in the input then appears exactly once, and nothing else |
| `WardrobePage.FilterOptionsOrder` | app/page.tsx:145-146 | The options after `'all'` follow the order in which their values first occur |
| `WardrobePage.UniqueSeasons` | app/page.tsx:145 | Starts with `'all'`, and offers a season exactly when some item has it, without repeats |
| `WardrobePage.UniqueCategories` | app/page.tsx:146 | Starts with `'all'`, and offers a category exactly when some item has it, without repeats |
| `WardrobePage.Wardrobe.constructor` | app/page.tsx:58-66 | Initial state: empty lists, loading, both selections `'all'`, newest-first, nothing being deleted |
| `WardrobePage.Wardrobe.LoadItems` | app/page.tsx:78-95 | On success the list is the stable newest-first sort of the store's key-ordered listing, so items with equal `createdAt` keep ascending id order; it holds exactly the stored records and the filtered list equals it. On failure both lists are unchanged. Loading ends false either way |
| `WardrobePage.Wardrobe.FilterItems` | app/page.tsx:74-117 | The filtered list becomes the stably sorted matching items of the current selections; only it changes |
| `WardrobePage.Wardrobe.HandleDeleteItem` | app/page.tsx:120-143 | A refused confirmation changes nothing. A confirmed delete removes the id from the store unless the engine fails. The in-memory list loses every entry with that id (order kept) only when the delete succeeded; otherwise it is unchanged. `deletingId` is cleared afterwards |
| `AddItemPage.CheckUpload` | app/add-item/page.tsx:143-154 | A selection is accepted exactly when a file is present, its MIME type starts with `image/` and its size is at most 10·1024·1024 bytes. Otherwise the first failed check is reported |
| `AddItemPage.UploadLimitInclusive` | app/add-item/page.tsx:151 | A file of exactly 10 MiB is accepted and one byte more is refused |
| `AddItemPage.SkipsCompression` | app/add-item/page.tsx:54-55 | An image is left uncompressed when its estimated size `len·3/4` is under 500·1024 bytes, compared exactly |
| `AddItemPage.CompressionCutoff` | app/add-item/page.tsx:54-55 | Compression is skipped for a data URL of at most 682666 characters, where the size estimate `3·len/4` is under 500 KiB, and for no longer one |
| `AddItemPage.CompressBase64Image` | app/add-item/page.tsx:52-57 | An image under the threshold is returned unchanged; any other image yields the re-encoded image |
| `AddItemPage.FitWithin` | app/add-item/page.tsx:66-83 | The chosen size fits in 1200×1200 and keeps the aspect ratio. It never enlarges, leaves an image already within bounds unchanged, and caps an oversize image's longer side at exactly 1200 |
| `AddItemPage.NewItem` | app/add-item/page.tsx:200-207 | The stored item takes season, category, description and image from the form, and `id` and `createdAt` from the clock |
| `AddItemPage.AddItem.constructor` | app/add-item/page.tsx:37-46 | The form starts at the defaults {winter, blouses, '', ''} with no preview |
| `AddItemPage.AddItem.HandleInputChange` | app/add-item/page.tsx:127-133 | Only the description changes |
| `AddItemPage.AddItem.HandleSelectChange` | app/add-item/page.tsx:135-140 | Only the selected field (season or category) changes |
| `AddItemPage.AddItem.HandleImageUpload` | app/add-item/page.tsx:142-187 | A refused selection changes nothing. An accepted one is previewed as read, and the form's image becomes the compressed image (the original when it is under the threshold). No other field changes |
| `AddItemPage.AddItem.HandleSubmit` | app/add-item/page.tsx:189-234 | Without an image it makes no store call and changes nothing. Otherwise it stores the item built from the form with the clock's `id` and `createdAt`, and on success resets the form to the defaults. A duplicate id or engine failure leaves the form and store unchanged and reports which error occurred |
| `AddItemPage.AddItem.HandleCancel` | app/add-item/page.tsx:236-251 | A confirmed cancel restores the default form and clears the preview; a refused one changes nothing |
| `AddItemPage.SavedItemReadsBack` | app/add-item/page.tsx:200-210 | After a save, the store's listing holds the new id exactly once. Its season, category, description, image and creation time are those of the form and the clock |

## Left out

- The IndexedDB connection lifecycle is not modelled: `indexedDB.open`, the
  `onupgradeneeded`/`onsuccess`/`onerror` events, re-opening on every call,
  and initialization errors. The constructor stands for a first open that
  creates the empty store. The schema constants and index definitions are
  recorded as data.
- Promises, `await` and any interleaving of operations are not modelled. Each
  store call is one atomic step. The model also ignores a compression that
  finishes after the user has already submitted.
- React effect scheduling is not modelled. `Wardrobe.FilterItems` is the
  effect's body and callers invoke it explicitly after the list or a
  selection changes. The setters `setSelectedSeason`, `setSelectedCategory`
  and `setSortBy` are plain assignments and are not modelled separately.
- The `uploading` busy flag is not modelled. It only enables and disables
  controls.
- The file input's `value = ''` reset after a save or a confirmed cancel is
  not modelled. It clears the chosen file so that the same file can be
  picked again; the model has no file-input state.
- AddItemPage.AddItem.HandleImageUpload: a FileReader read error is not
  modelled. There `reader.result` is `null`, and the preview and the form's
  image become `null`. The read result is a `string` parameter, which cannot
  be `null`.
- Rendering is not modelled: JSX, labels, `alert`, `window.confirm` (a
  boolean parameter), `formatDate`, the counts shown on the page, and
  `console` logging.
- `createdAt` is an integer. ISO-8601 formatting and parsing are not
  modelled, including the NaN an unparsable date would give.
- Store.KeyLess: compares Dafny characters (Unicode scalar values), not
  UTF-16 code units as IndexedDB does. The two orders differ only for strings
  mixing astral characters with U+E000–U+FFFF, which the numeric ids never do.
- AddItemPage.CompressBase64Image: the re-encoded image of a large input is
  a parameter. FileReader, image decoding, the canvas,
  `toDataURL('image/jpeg', 0.7)` and the fallbacks in `simpleCompress` are
  browser I/O. The model does not tie that image to `FitWithin`'s dimensions.
- AddItemPage.FitWithin: computes over exact reals. It does not model
  floating-point rounding or the canvas truncating fractional sizes to
  integers.
- AddItemPage.AddItem.HandleSelectChange: `handleSelectChange` accepts any
  key of the item type. The model covers only the two calls the page makes,
  with season and category values from their selects.
- `handleImageUpload`'s `catch` branch is not modelled. The FileReader
  promise only resolves and `simpleCompress` catches its own errors, so that
  branch is never reached.
- app/filter/page.tsx is not part of this model. It is a static form with no
  state or handlers.
