/**
 * The item store of lib/indexedDB.ts: one IndexedDB object store `items`
 * whose records are wardrobe items keyed in-line by their `id`.
 *
 * The store is modelled by its contents, a map from key to record. The
 * engine's own failures (quota, an unavailable or blocked database, an
 * aborted transaction) cannot be predicted from that state, so every
 * operation takes `engineFails`: when it is set the request's error event
 * fires, the promise rejects and, the transaction being atomic, nothing
 * changes.
 */
module Store {
  import opened Results
  import opened Items

  // Schema created by `init` when the database is first opened or upgraded.
  const DatabaseName := "WardrobeDB"
  const StoreName := "items"
  const SchemaVersion := 1

  datatype IndexSpec = IndexSpec(name: string, keyPath: string, unique: bool)

  datatype StoreSchema = StoreSchema(keyPath: string, autoIncrement: bool, indexes: seq<IndexSpec>)

  const ItemsSchema := StoreSchema("id", false, [
    IndexSpec("season", "season", false),
    IndexSpec("category", "category", false),
    IndexSpec("createdAt", "createdAt", false)])

  /** `ConstraintError` is the DOMException of a no-overwrite add on a taken key. */
  datatype DBError = ConstraintError | EngineError

  type Records = map<string, WardrobeItem>

  /** The key path is `id`: every record sits under its own `id`. */
  predicate KeyedById(m: Records) {
    forall k :: k in m ==> m[k].id == k
  }

  /**
   * IndexedDB's comparison of two string keys, lexicographic with a proper
   * prefix sorting first. It compares Dafny characters (Unicode scalar
   * values), where IndexedDB compares UTF-16 code units.
   */
  predicate KeyLess(a: string, b: string) {
    if a == [] then b != []
    else b != [] && (a[0] < b[0] || (a[0] == b[0] && KeyLess(a[1..], b[1..])))
  }

  lemma {:induction false} KeyLessIrreflexive(a: string)
    ensures !KeyLess(a, a)
  {
    if a != [] {
      KeyLessIrreflexive(a[1..]);
    }
  }

  lemma {:induction false} KeyLessTransitive(a: string, b: string, c: string)
    requires KeyLess(a, b) && KeyLess(b, c)
    ensures KeyLess(a, c)
  {
    if a != [] && a[0] == b[0] && b[0] == c[0] {
      KeyLessTransitive(a[1..], b[1..], c[1..]);
    }
  }

  lemma {:induction false} KeyLessTotal(a: string, b: string)
    requires a != b
    ensures KeyLess(a, b) || KeyLess(b, a)
  {
    if a != [] && b != [] && a[0] == b[0] {
      assert a == [a[0]] + a[1..] && b == [b[0]] + b[1..];
      KeyLessTotal(a[1..], b[1..]);
    }
  }

  /**
   * `s` is what `getAll()` yields for the records `m`: every record exactly
   * once, as stored, in ascending key order.
   */
  ghost predicate ListsInKeyOrder(s: seq<WardrobeItem>, m: Records) {
    && |s| == |m|
    && (forall i :: 0 <= i < |s| ==> s[i].id in m && m[s[i].id] == s[i])
    && (forall k :: k in m ==> exists i :: 0 <= i < |s| && s[i].id == k)
    && (forall i, j :: 0 <= i < j < |s| ==> KeyLess(s[i].id, s[j].id))
  }

  /**
   * Part way through the cursor walk: `listed` holds, in ascending key order,
   * the records of every key not in `remaining`, and each of them sorts
   * before every key still to come.
   */
  ghost predicate ListedSoFar(listed: seq<WardrobeItem>, remaining: set<string>, m: Records) {
    && remaining <= m.Keys
    && |listed| + |remaining| == |m|
    && (forall i :: 0 <= i < |listed| ==> listed[i].id in m && m[listed[i].id] == listed[i] && listed[i].id !in remaining)
    && (forall k :: k in m ==> k in remaining || exists i :: 0 <= i < |listed| && listed[i].id == k)
    && (forall i, j :: 0 <= i < j < |listed| ==> KeyLess(listed[i].id, listed[j].id))
    && (forall i, k :: 0 <= i < |listed| && k in remaining ==> KeyLess(listed[i].id, k))
  }

  /** Moving the least remaining key to the end of the listing keeps the walk's invariant. */
  lemma ListedSoFarStep(listed: seq<WardrobeItem>, remaining: set<string>, m: Records, k: string)
    requires KeyedById(m)
    requires ListedSoFar(listed, remaining, m)
    requires k in remaining && forall k' :: k' in remaining && k' != k ==> KeyLess(k, k')
    ensures ListedSoFar(listed + [m[k]], remaining - {k}, m)
  {
    var next := listed + [m[k]];
    var rest := remaining - {k};
    assert |rest| == |remaining| - 1;
    StepKeepsRecords(listed, remaining, m, k);
    StepKeepsKeys(listed, remaining, m, k);
    StepKeepsOrder(listed, remaining, m, k);
  }

  /** After the step every listed item is still a stored record whose key is no longer remaining. */
  lemma StepKeepsRecords(listed: seq<WardrobeItem>, remaining: set<string>, m: Records, k: string)
    requires KeyedById(m) && k in remaining && remaining <= m.Keys
    requires forall i :: 0 <= i < |listed| ==> listed[i].id in m && m[listed[i].id] == listed[i] && listed[i].id !in remaining
    ensures var next := listed + [m[k]];
      forall i :: 0 <= i < |next| ==> next[i].id in m && m[next[i].id] == next[i] && next[i].id !in remaining - {k}
  {
    var next := listed + [m[k]];
    forall i | 0 <= i < |next|
      ensures next[i].id in m && m[next[i].id] == next[i] && next[i].id !in remaining - {k}
    {
      if i < |listed| {
        assert next[i] == listed[i];
      }
    }
  }

  /** After the step every stored key is still either remaining or listed. */
  lemma StepKeepsKeys(listed: seq<WardrobeItem>, remaining: set<string>, m: Records, k: string)
    requires KeyedById(m) && k in remaining && remaining <= m.Keys
    requires forall k' :: k' in m ==> k' in remaining || exists i :: 0 <= i < |listed| && listed[i].id == k'
    ensures var next := listed + [m[k]];
      forall k' :: k' in m ==> k' in remaining - {k} || exists i :: 0 <= i < |next| && next[i].id == k'
  {
    var next := listed + [m[k]];
    forall k' | k' in m
      ensures k' in remaining - {k} || exists i :: 0 <= i < |next| && next[i].id == k'
    {
      if k' == k {
        assert next[|listed|].id == k';
      } else if k' !in remaining {
        var i :| 0 <= i < |listed| && listed[i].id == k';
        assert next[i].id == k';
      }
    }
  }

  /** After the step the listing still ascends and still precedes every remaining key. */
  lemma StepKeepsOrder(listed: seq<WardrobeItem>, remaining: set<string>, m: Records, k: string)
    requires KeyedById(m) && k in remaining && remaining <= m.Keys
    requires forall i, j :: 0 <= i < j < |listed| ==> KeyLess(listed[i].id, listed[j].id)
    requires forall i, k' :: 0 <= i < |listed| && k' in remaining ==> KeyLess(listed[i].id, k')
    requires forall k' :: k' in remaining && k' != k ==> KeyLess(k, k')
    ensures var next := listed + [m[k]];
      && (forall i, j :: 0 <= i < j < |next| ==> KeyLess(next[i].id, next[j].id))
      && (forall i, k' :: 0 <= i < |next| && k' in remaining - {k} ==> KeyLess(next[i].id, k'))
  {
    var next := listed + [m[k]];
    forall i, j | 0 <= i < j < |next|
      ensures KeyLess(next[i].id, next[j].id)
    {
      assert next[i] == listed[i];
      if j < |listed| {
        assert next[j] == listed[j];
      }
    }
    forall i, k' | 0 <= i < |next| && k' in remaining - {k}
      ensures KeyLess(next[i].id, k')
    {
      if i < |listed| {
        assert next[i] == listed[i];
      }
    }
  }

  /** The smallest key of a non-empty key set. */
  method LeastKey(keys: set<string>) returns (k: string)
    requires keys != {}
    ensures k in keys
    ensures forall k' :: k' in keys && k' != k ==> KeyLess(k, k')
  {
    k :| k in keys;
    var rest := keys - {k};
    while rest != {}
      invariant rest <= keys && k in keys && k !in rest
      invariant forall k' :: k' in keys && k' !in rest && k' != k ==> KeyLess(k, k')
      decreases rest
    {
      var c :| c in rest;
      if KeyLess(c, k) {
        forall k' | k' in keys && k' !in rest && k' != k
          ensures KeyLess(c, k')
        {
          KeyLessTransitive(c, k, k');
        }
        k := c;
      } else {
        KeyLessTotal(c, k);
      }
      rest := rest - {c};
    }
  }

  class WardrobeDB {
    var records: Records

    ghost predicate Valid()
      reads this
    {
      KeyedById(records)
    }

    /** `init` on a fresh profile: the upgrade step creates the empty `items` store. */
    constructor ()
      ensures Valid() && records == map[]
    {
      records := map[];
    }

    /**
     * `addItem`: `store.add(item)`, the no-overwrite storage operation. A
     * taken key rejects with ConstraintError; otherwise the record is
     * inserted under `item.id` and the promise resolves with that key.
     */
    method AddItem(item: WardrobeItem, engineFails: bool) returns (r: Result<string, DBError>)
      requires Valid()
      modifies this
      ensures Valid()
      ensures r.Ok? <==> !engineFails && item.id !in old(records)
      ensures r.Ok? ==> r.value == item.id && records == old(records)[item.id := item]
      ensures r.Err? ==> records == old(records)
      ensures r.Err? ==> r.error == if engineFails then EngineError else ConstraintError
    {
      if engineFails {
        r := Err(EngineError);
      } else if item.id in records {
        r := Err(ConstraintError);
      } else {
        records := records[item.id := item];
        r := Ok(item.id);
      }
    }

    /** `getAllItems`: `store.getAll()` in a read-only transaction. */
    method GetAllItems(engineFails: bool) returns (r: Result<seq<WardrobeItem>, DBError>)
      requires Valid()
      ensures engineFails ==> r == Err(EngineError)
      ensures !engineFails ==> r.Ok? && ListsInKeyOrder(r.value, records)
    {
      if engineFails {
        return Err(EngineError);
      }
      var remaining := records.Keys;
      var listed: seq<WardrobeItem> := [];
      while remaining != {}
        invariant ListedSoFar(listed, remaining, records)
        decreases remaining
      {
        var k := LeastKey(remaining);
        ListedSoFarStep(listed, remaining, records, k);
        listed := listed + [records[k]];
        remaining := remaining - {k};
      }
      r := Ok(listed);
    }

    /** `deleteItem`: `store.delete(id)`; an absent key is not an error. */
    method DeleteItem(id: string, engineFails: bool) returns (r: Result<bool, DBError>)
      requires Valid()
      modifies this
      ensures Valid()
      ensures r == if engineFails then Err(EngineError) else Ok(true)
      ensures records == if engineFails then old(records) else old(records) - {id}
    {
      if engineFails {
        r := Err(EngineError);
      } else {
        records := records - {id};
        r := Ok(true);
      }
    }

    /** `getCount`: `store.count()` over the whole key range. */
    method GetCount(engineFails: bool) returns (r: Result<nat, DBError>)
      requires Valid()
      ensures r == if engineFails then Err(EngineError) else Ok(|records|)
    {
      if engineFails {
        r := Err(EngineError);
      } else {
        r := Ok(|records|);
      }
    }

    /** `clearAll`: `store.clear()` removes every record. */
    method ClearAll(engineFails: bool) returns (r: Result<(), DBError>)
      requires Valid()
      modifies this
      ensures Valid()
      ensures r == if engineFails then Err(EngineError) else Ok(())
      ensures records == if engineFails then old(records) else map[]
    {
      if engineFails {
        r := Err(EngineError);
      } else {
        records := map[];
        r := Ok(());
      }
    }
  }

  /** A successful add grows the count by one. */
  lemma CountAfterAdd(m: Records, item: WardrobeItem)
    requires item.id !in m
    ensures |m[item.id := item]| == |m| + 1
  {
  }

  /** Deleting a present key shrinks the count by one; an absent key leaves it. */
  lemma CountAfterDelete(m: Records, id: string)
    ensures |m - {id}| == if id in m then |m| - 1 else |m|
  {
    assert (m - {id}).Keys == m.Keys - {id};
  }

  /** Deleting twice leaves what deleting once leaves. */
  lemma DeleteIdempotent(m: Records, id: string)
    ensures (m - {id}) - {id} == m - {id}
  {
  }

  /** Adding a fresh key and deleting it restores the prior contents. */
  lemma AddThenDeleteRestores(m: Records, item: WardrobeItem)
    requires item.id !in m
    ensures m[item.id := item] - {item.id} == m
  {
  }

  /**
   * Only the primary key is unique: records sharing season, category and
   * creation time may coexist as long as their ids differ.
   */
  lemma IndexedFieldsNeedNotBeUnique(m: Records, a: WardrobeItem, b: WardrobeItem)
    requires KeyedById(m) && a.id !in m && b.id !in m && a.id != b.id
    requires a.season == b.season && a.category == b.category && a.createdAt == b.createdAt
    ensures b.id !in m[a.id := a]
    ensures KeyedById(m[a.id := a][b.id := b]) && |m[a.id := a][b.id := b]| == |m| + 2
  {
  }

  /** After `clearAll`, `getAll()` can only yield the empty list. */
  lemma ListingOfEmptyStore(s: seq<WardrobeItem>)
    requires ListsInKeyOrder(s, map[])
    ensures s == []
  {
  }

  /** Listing order is strict, so no record is listed twice. */
  lemma ListedIdsDistinct(s: seq<WardrobeItem>, m: Records)
    requires ListsInKeyOrder(s, m)
    ensures forall i, j :: 0 <= i < j < |s| ==> s[i].id != s[j].id
  {
    forall i, j | 0 <= i < j < |s| ensures s[i].id != s[j].id {
      KeyLessIrreflexive(s[i].id);
    }
  }

  /** A key-ordered listing holds exactly the stored records. */
  lemma ListedExactlyTheValues(s: seq<WardrobeItem>, m: Records)
    requires ListsInKeyOrder(s, m)
    ensures forall x :: x in s <==> x in m.Values
  {
    forall x | x in m.Values ensures x in s {
      var k :| k in m && m[k] == x;
      var i :| 0 <= i < |s| && s[i].id == k;
    }
  }
}
