/**
 * The JavaScript array idioms the pages rely on: `Array.prototype.filter`
 * and de-duplication through an insertion-ordered `Set`.
 */
module Sequences {

  /** `s.filter(p)`: the elements of `s` that satisfy `p`, in their original order. */
  function Keep<T(!new)>(s: seq<T>, p: T -> bool): (r: seq<T>)
    ensures |r| <= |s|
    ensures forall i :: 0 <= i < |r| ==> p(r[i])
    ensures forall x :: multiset(r)[x] == if p(x) then multiset(s)[x] else 0
  {
    if s == [] then []
    else
      assert s == [s[0]] + s[1..];
      (if p(s[0]) then [s[0]] else []) + Keep(s[1..], p)
  }

  /** Concatenation is associative; stated apart so that no filter facts are in scope. */
  lemma AppendAssociates<T>(x: seq<T>, y: seq<T>, z: seq<T>)
    ensures x + (y + z) == (x + y) + z
  {
  }

  /** Filtering keeps relative order: it distributes over concatenation. */
  lemma {:induction false} KeepAppend<T(!new)>(a: seq<T>, b: seq<T>, p: T -> bool)
    ensures Keep(a + b, p) == Keep(a, p) + Keep(b, p)
  {
    if a == [] {
      assert a + b == b;
    } else {
      var head := if p(a[0]) then [a[0]] else [];
      assert (a + b)[0] == a[0];
      assert (a + b)[1..] == a[1..] + b;
      assert Keep(a + b, p) == head + Keep(a[1..] + b, p);
      assert Keep(a, p) == head + Keep(a[1..], p);
      KeepAppend(a[1..], b, p);
      AppendAssociates(head, Keep(a[1..], p), Keep(b, p));
    }
  }

  /** Only the verdicts of the predicate matter, not how it is written. */
  lemma {:induction false} KeepSameVerdicts<T(!new)>(s: seq<T>, p: T -> bool, q: T -> bool)
    requires forall x :: p(x) == q(x)
    ensures Keep(s, p) == Keep(s, q)
  {
    if s != [] {
      KeepSameVerdicts(s[1..], p, q);
    }
  }

  /** Two successive filters are one filter by the conjunction. */
  lemma {:induction false} KeepTwice<T(!new)>(s: seq<T>, p: T -> bool, q: T -> bool, both: T -> bool)
    requires forall x :: both(x) == (p(x) && q(x))
    ensures Keep(Keep(s, p), q) == Keep(s, both)
  {
    if s != [] {
      var head := if p(s[0]) then [s[0]] else [];
      assert Keep(s, p) == head + Keep(s[1..], p);
      KeepAppend(head, Keep(s[1..], p), q);
      assert Keep(head, q) == if both(s[0]) then [s[0]] else [];
      KeepTwice(s[1..], p, q, both);
    }
  }

  /** A filter whose predicate holds of every element returns its input. */
  lemma {:induction false} KeepAllTrue<T(!new)>(s: seq<T>, p: T -> bool)
    requires forall i :: 0 <= i < |s| ==> p(s[i])
    ensures Keep(s, p) == s
  {
    if s != [] {
      KeepAllTrue(s[1..], p);
      assert s == [s[0]] + s[1..];
    }
  }

  /** Position of the first occurrence of `x` in `s`. */
  function IndexOf<T(==)>(s: seq<T>, x: T): (i: nat)
    requires x in s
    ensures i < |s| && s[i] == x
    ensures forall j :: 0 <= j < i ==> s[j] != x
  {
    if s[0] == x then 0 else 1 + IndexOf(s[1..], x)
  }

  /**
   * `[...new Set(s)]`: each value of `s` once, in the order of its first
   * occurrence (a JavaScript Set iterates in insertion order and ignores
   * re-insertions).
   */
  function Dedup<T(==,!new)>(s: seq<T>): (r: seq<T>)
    ensures forall x :: x in r <==> x in s
    ensures forall i, j :: 0 <= i < j < |r| ==> r[i] != r[j]
  {
    if s == [] then []
    else
      var d := Dedup(s[..|s| - 1]);
      var last := s[|s| - 1];
      assert s == s[..|s| - 1] + [last];
      if last in d then d else d + [last]
  }

  lemma IndexOfInPrefix<T>(p: seq<T>, y: T, z: T)
    requires z in p
    ensures IndexOf(p + [y], z) == IndexOf(p, z)
  {
    var s := p + [y];
    assert forall j :: 0 <= j < |p| ==> s[j] == p[j];
    assert s[IndexOf(p, z)] == z;
  }

  lemma IndexOfAppended<T>(p: seq<T>, y: T)
    requires y !in p
    ensures IndexOf(p + [y], y) == |p|
  {
    var s := p + [y];
    assert forall j :: 0 <= j < |p| ==> s[j] == p[j];
    assert s[|p|] == y;
  }

  /** The de-duplicated values appear in the order of their first occurrence in `s`. */
  lemma {:induction false} DedupFirstOccurrenceOrder<T(!new)>(s: seq<T>)
    ensures forall i, j :: 0 <= i < j < |Dedup(s)| ==> IndexOf(s, Dedup(s)[i]) < IndexOf(s, Dedup(s)[j])
  {
    if s != [] {
      var p, y := s[..|s| - 1], s[|s| - 1];
      assert s == p + [y];
      var d := Dedup(p);
      DedupFirstOccurrenceOrder(p);
      forall z | z in d ensures IndexOf(s, z) == IndexOf(p, z) {
        IndexOfInPrefix(p, y, z);
      }
      if y !in d {
        IndexOfAppended(p, y);
        assert Dedup(s) == d + [y];
      }
    }
  }
}
