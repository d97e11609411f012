/**
 * Ordering by creation time, as app/page.tsx sorts with
 * `Array.prototype.sort` and a comparator subtracting `getTime()` values.
 * That sort is stable, so among items of equal `createdAt` the input order
 * survives; the specification below is the stable insertion sort.
 */
module Chronology {
  import opened Items

  datatype SortOrder = Newest | Oldest

  /**
   * The comparator returns `Rank(a) - Rank(b)`: `b.createdAt - a.createdAt`
   * for newest-first, `a.createdAt - b.createdAt` for oldest-first.
   */
  function Rank(item: WardrobeItem, order: SortOrder): int {
    if order == Newest then -item.createdAt else item.createdAt
  }

  predicate SortedBy(s: seq<WardrobeItem>, order: SortOrder) {
    forall i, j :: 0 <= i < j < |s| ==> Rank(s[i], order) <= Rank(s[j], order)
  }

  /** `x` placed after every element it does not strictly precede. */
  function Insert(s: seq<WardrobeItem>, x: WardrobeItem, order: SortOrder): seq<WardrobeItem>
    decreases |s|
  {
    if s == [] then [x]
    else
      var init, last := s[..|s| - 1], s[|s| - 1];
      if Rank(x, order) < Rank(last, order) then Insert(init, x, order) + [last]
      else s + [x]
  }

  /** The result of the stable sort by creation time. */
  function StableSort(s: seq<WardrobeItem>, order: SortOrder): seq<WardrobeItem> {
    if s == [] then []
    else Insert(StableSort(s[..|s| - 1], order), s[|s| - 1], order)
  }

  /** Insertion adds exactly `x`. */
  lemma {:induction false} InsertPermutation(s: seq<WardrobeItem>, x: WardrobeItem, order: SortOrder)
    ensures multiset(Insert(s, x, order)) == multiset(s) + multiset{x}
    decreases |s|
  {
    if s != [] {
      var init, last := s[..|s| - 1], s[|s| - 1];
      assert s == init + [last];
      InsertPermutation(init, x, order);
    }
  }

  /** Sorting neither drops nor duplicates an item: the result is a permutation. */
  lemma {:induction false} StableSortPermutation(s: seq<WardrobeItem>, order: SortOrder)
    ensures multiset(StableSort(s, order)) == multiset(s)
  {
    if s != [] {
      assert s == s[..|s| - 1] + [s[|s| - 1]];
      StableSortPermutation(s[..|s| - 1], order);
      InsertPermutation(StableSort(s[..|s| - 1], order), s[|s| - 1], order);
    }
  }

  lemma {:induction false} InsertSorted(s: seq<WardrobeItem>, x: WardrobeItem, order: SortOrder)
    requires SortedBy(s, order)
    ensures SortedBy(Insert(s, x, order), order)
    decreases |s|
  {
    if s != [] {
      var init, last := s[..|s| - 1], s[|s| - 1];
      assert s == init + [last];
      if Rank(x, order) < Rank(last, order) {
        var t := Insert(init, x, order);
        assert Insert(s, x, order) == t + [last];
        InsertSorted(init, x, order);
        InsertPermutation(init, x, order);
        forall i | 0 <= i < |t| ensures Rank(t[i], order) <= Rank(last, order) {
          assert t[i] in multiset(t);
          if t[i] != x {
            assert t[i] in init;
          }
        }
        AppendSorted(t, last, order);
      } else {
        assert Insert(s, x, order) == s + [x];
        AppendSorted(s, x, order);
      }
    }
  }

  /** Appending an item no earlier than all others keeps a list sorted. */
  lemma AppendSorted(s: seq<WardrobeItem>, x: WardrobeItem, order: SortOrder)
    requires SortedBy(s, order)
    requires forall i :: 0 <= i < |s| ==> Rank(s[i], order) <= Rank(x, order)
    ensures SortedBy(s + [x], order)
  {
  }

  /** Sorting yields a list ordered by creation time. */
  lemma {:induction false} StableSortSorted(s: seq<WardrobeItem>, order: SortOrder)
    ensures SortedBy(StableSort(s, order), order)
  {
    if s != [] {
      StableSortSorted(s[..|s| - 1], order);
      InsertSorted(StableSort(s[..|s| - 1], order), s[|s| - 1], order);
    }
  }

  /** The order in `createdAt` terms: descending for newest-first, ascending for oldest-first. */
  lemma SortedByCreatedAt(s: seq<WardrobeItem>, order: SortOrder, i: int, j: int)
    requires SortedBy(s, order) && 0 <= i < j < |s|
    ensures order == Newest ==> s[i].createdAt >= s[j].createdAt
    ensures order == Oldest ==> s[i].createdAt <= s[j].createdAt
  {
  }

  /**
   * Insert puts `x` at the position `j` that follows every item it does not
   * strictly precede and comes before the items it does.
   */
  lemma {:induction false} InsertAt(s: seq<WardrobeItem>, x: WardrobeItem, order: SortOrder, j: nat)
    requires j <= |s|
    requires j == 0 || Rank(s[j - 1], order) <= Rank(x, order)
    requires forall k :: j <= k < |s| ==> Rank(x, order) < Rank(s[k], order)
    ensures Insert(s, x, order) == s[..j] + [x] + s[j..]
    decreases |s|
  {
    if j < |s| {
      var init := s[..|s| - 1];
      assert Insert(s, x, order) == Insert(init, x, order) + [s[|s| - 1]];
      InsertAt(init, x, order, j);
      assert init[..j] == s[..j];
      assert s[j..] == init[j..] + [s[|s| - 1]];
    } else {
      assert s[..j] == s;
    }
  }

  /** A list that is `s` with `x` slotted in at position `j`. */
  lemma Shifted(b: seq<WardrobeItem>, s: seq<WardrobeItem>, x: WardrobeItem, j: nat)
    requires j <= |s| && |b| == |s| + 1 && b[j] == x
    requires forall k :: 0 <= k < j ==> b[k] == s[k]
    requires forall k :: j < k < |b| ==> b[k] == s[k - 1]
    ensures b == s[..j] + [x] + s[j..]
  {
  }

  /** Shifts `a[i]` left into the sorted prefix `a[..i]`. */
  method InsertInPlace(a: array<WardrobeItem>, i: nat, order: SortOrder)
    requires i < a.Length
    modifies a
    ensures a[..i + 1] == Insert(old(a[..i]), old(a[i]), order)
    ensures a[i + 1..] == old(a[i + 1..])
  {
    ghost var sorted := a[..i];
    var x := a[i];
    var j := i;
    while j > 0 && Rank(x, order) < Rank(a[j - 1], order)
      invariant 0 <= j <= i
      invariant forall k :: 0 <= k < j ==> a[k] == sorted[k]
      invariant forall k :: j < k <= i ==> a[k] == sorted[k - 1]
      invariant forall k :: i < k < a.Length ==> a[k] == old(a[k])
      invariant forall k :: j <= k < i ==> Rank(x, order) < Rank(sorted[k], order)
    {
      a[j] := a[j - 1];
      j := j - 1;
    }
    InsertAt(sorted, x, order, j);
    a[j] := x;
    Shifted(a[..i + 1], sorted, x, j);
  }

  /** `array.sort(comparator)`: an in-place stable insertion sort. */
  method SortInPlace(a: array<WardrobeItem>, order: SortOrder)
    modifies a
    ensures a[..] == StableSort(old(a[..]), order)
  {
    ghost var original := a[..];
    var i := 0;
    while i < a.Length
      invariant 0 <= i <= a.Length
      invariant a[..i] == StableSort(original[..i], order)
      invariant a[i..] == original[i..]
    {
      assert original[..i + 1][..i] == original[..i];
      InsertInPlace(a, i, order);
      i := i + 1;
    }
    assert original[..a.Length] == original;
  }
}
