/**
 * `Array.prototype.sort` with a comparator. The language guarantees a stable sort,
 * and for a consistent comparator every stable sort produces the same sequence, so
 * the sort is specified by a stable insertion sort: `gt(a, b)` holds when the
 * comparator returns a positive number for `(a, b)`, that is, when `a` must come after `b`.
 */
module Sorting {
  import opened Seqs

  /** Inserts `x` after every element of `s` that does not belong after it. */
  function Insert<T>(s: seq<T>, x: T, gt: (T, T) -> bool): (r: seq<T>)
    ensures |r| == |s| + 1
  {
    if s == [] then [x]
    else
      assert s == s[..|s| - 1] + [s[|s| - 1]];
      if gt(s[|s| - 1], x) then Insert(s[..|s| - 1], x, gt) + [s[|s| - 1]]
      else s + [x]
  }

  /** The sorted sequence: elements inserted one by one, left to right. */
  function SortBy<T>(s: seq<T>, gt: (T, T) -> bool): (r: seq<T>)
    ensures |r| == |s|
  {
    if s == [] then []
    else
      Insert(SortBy(s[..|s| - 1], gt), s[|s| - 1], gt)
  }

  lemma {:induction false} InsertPermutation<T>(s: seq<T>, x: T, gt: (T, T) -> bool)
    ensures multiset(Insert(s, x, gt)) == multiset(s) + multiset{x}
    decreases |s|
  {
    if s != [] {
      var init, last := s[..|s| - 1], s[|s| - 1];
      assert s == init + [last];
      if gt(last, x) {
        InsertPermutation(init, x, gt);
      }
    }
  }

  /** The sort only reorders: its output is a permutation of its input. */
  lemma {:induction false} SortByPermutation<T>(s: seq<T>, gt: (T, T) -> bool)
    ensures multiset(SortBy(s, gt)) == multiset(s)
    decreases |s|
  {
    if s != [] {
      var init, last := s[..|s| - 1], s[|s| - 1];
      assert s == init + [last];
      SortByPermutation(init, gt);
      InsertPermutation(SortBy(init, gt), last, gt);
    }
  }

  /** What a comparator must be for the sort to be well defined: a strict weak order. */
  ghost predicate StrictWeakOrder<T(!new)>(gt: (T, T) -> bool)
  {
    && (forall a :: !gt(a, a))
    && (forall a, b, c :: gt(a, b) && gt(b, c) ==> gt(a, c))
    && (forall a, b, c :: !gt(a, b) && !gt(b, c) ==> !gt(a, c))
  }

  /** No element is followed by one it belongs after. */
  ghost predicate SortedBy<T>(s: seq<T>, gt: (T, T) -> bool)
  {
    forall i, j :: 0 <= i < j < |s| ==> !gt(s[i], s[j])
  }

  /** `x` and `y` compare as equal (the comparator returns 0 both ways). */
  function EquivTo<T>(gt: (T, T) -> bool, y: T): T -> bool
  {
    x => !gt(x, y) && !gt(y, x)
  }

  lemma {:induction false} InsertSorted<T(!new)>(s: seq<T>, x: T, gt: (T, T) -> bool)
    requires StrictWeakOrder(gt) && SortedBy(s, gt)
    ensures SortedBy(Insert(s, x, gt), gt)
    decreases |s|
  {
    if s != [] {
      var init, last := s[..|s| - 1], s[|s| - 1];
      if gt(last, x) {
        InsertSorted(init, x, gt);
        InsertPermutation(init, x, gt);
        var u := Insert(init, x, gt);
        forall e | e in u ensures !gt(e, last) {
          assert e in multiset(u);
          if e != x {
            assert e in multiset(init);
            var k :| 0 <= k < |init| && init[k] == e;
            assert s[k] == e;
          }
        }
      } else {
        forall i | 0 <= i < |s| ensures !gt(s[i], x) {
          if i < |s| - 1 {
            assert !gt(s[i], last);
          }
        }
      }
    }
  }

  /** The sort puts its output in order. */
  lemma {:induction false} SortBySorted<T(!new)>(s: seq<T>, gt: (T, T) -> bool)
    requires StrictWeakOrder(gt)
    ensures SortedBy(SortBy(s, gt), gt)
    decreases |s|
  {
    if s != [] {
      SortBySorted(s[..|s| - 1], gt);
      InsertSorted(SortBy(s[..|s| - 1], gt), s[|s| - 1], gt);
    }
  }

  lemma {:induction false} InsertStable<T(!new)>(s: seq<T>, x: T, gt: (T, T) -> bool, y: T)
    requires StrictWeakOrder(gt)
    ensures Filter(Insert(s, x, gt), EquivTo(gt, y)) == Filter(s + [x], EquivTo(gt, y))
    decreases |s|
  {
    var eq := EquivTo(gt, y);
    if s != [] {
      var init, last := s[..|s| - 1], s[|s| - 1];
      assert s == init + [last];
      if gt(last, x) {
        InsertStable(init, x, gt, y);
        FilterConcat(Insert(init, x, gt), [last], eq);
        FilterConcat(init + [x], [last], eq);
        FilterConcat(init, [x], eq);
        FilterConcat(init, [last], eq);
        FilterConcat(s, [x], eq);
        if eq(x) {
          assert !eq(last);
        }
        assert Filter(Insert(s, x, gt), eq) == Filter(init, eq) + Filter([x], eq) + Filter([last], eq);
        assert Filter(s + [x], eq) == Filter(init, eq) + Filter([last], eq) + Filter([x], eq);
      }
    }
  }

  /**
   * The sort is stable: for every `y`, the elements comparing equal to `y` come out
   * in the order they went in.
   */
  lemma {:induction false} SortByStable<T(!new)>(s: seq<T>, gt: (T, T) -> bool, y: T)
    requires StrictWeakOrder(gt)
    ensures Filter(SortBy(s, gt), EquivTo(gt, y)) == Filter(s, EquivTo(gt, y))
    decreases |s|
  {
    if s != [] {
      var init, last := s[..|s| - 1], s[|s| - 1];
      var eq := EquivTo(gt, y);
      var sorted := SortBy(init, gt);
      assert SortBy(s, gt) == Insert(sorted, last, gt);
      SortByStable(init, gt, y);
      InsertStable(sorted, last, gt, y);
      FilterConcat(sorted, [last], eq);
      FilterConcat(init, [last], eq);
      assert s == init + [last];
    }
  }

  /** One step of insertion: the element at `j - 1` belongs after `x`, so `x` goes before it. */
  lemma InsertShift<T>(s: seq<T>, j: nat, x: T, gt: (T, T) -> bool)
    requires 0 < j <= |s| && gt(s[j - 1], x)
    ensures Insert(s[..j], x, gt) + s[j..] == Insert(s[..j - 1], x, gt) + s[j - 1..]
  {
    assert s[..j][..j - 1] == s[..j - 1];
    assert s[j - 1..] == [s[j - 1]] + s[j..];
  }

  /** The element at `j - 1`, if any, does not belong after `x`: `x` goes at `j`. */
  lemma InsertStop<T>(s: seq<T>, j: nat, x: T, gt: (T, T) -> bool)
    requires j <= |s| && (j == 0 || !gt(s[j - 1], x))
    ensures Insert(s[..j], x, gt) + s[j..] == s[..j] + [x] + s[j..]
  {
  }

  /** Moves `a[i]` leftwards past every element of `a[..i]` it belongs before. */
  method InsertAt<T>(a: array<T>, i: nat, gt: (T, T) -> bool)
    requires i < a.Length
    modifies a
    ensures a[..i + 1] == Insert(old(a[..i]), old(a[i]), gt)
    ensures a[i + 1..] == old(a[i + 1..])
  {
    var x := a[i];
    ghost var s := a[..i];
    var j := i;
    assert s[..j] == s && s[j..] == [];
    while j > 0 && gt(a[j - 1], x)
      invariant 0 <= j <= i
      invariant forall k :: 0 <= k < j ==> a[k] == s[k]
      invariant forall k :: j < k <= i ==> a[k] == s[k - 1]
      invariant forall k :: i < k < a.Length ==> a[k] == old(a[k])
      invariant Insert(s, x, gt) == Insert(s[..j], x, gt) + s[j..]
    {
      InsertShift(s, j, x, gt);
      a[j] := a[j - 1];
      j := j - 1;
    }
    InsertStop(s, j, x, gt);
    a[j] := x;
    assert a[..i + 1] == s[..j] + [x] + s[j..];
  }

  /** Sorting one more element of the input inserts it into the sorted prefix. */
  lemma SortByStep<T>(s: seq<T>, i: nat, gt: (T, T) -> bool)
    requires i < |s|
    ensures SortBy(s[..i + 1], gt) == Insert(SortBy(s[..i], gt), s[i], gt)
  {
    assert s[..i + 1][..i] == s[..i];
  }

  /** `result.sort(cmp)` on an array: an insertion sort, in place. */
  method SortInPlace<T>(a: array<T>, gt: (T, T) -> bool)
    modifies a
    ensures a[..] == SortBy(old(a[..]), gt)
  {
    ghost var orig := a[..];
    var i := 0;
    while i < a.Length
      invariant 0 <= i <= a.Length
      invariant a[..i] == SortBy(orig[..i], gt)
      invariant a[i..] == orig[i..]
    {
      ghost var before := a[..];
      InsertAt(a, i, gt);
      SortByStep(orig, i, gt);
      assert before[..i] == SortBy(orig[..i], gt) && before[i] == orig[i];
      assert a[i + 1..] == before[i + 1..] == orig[i + 1..];
      i := i + 1;
    }
    assert orig[..a.Length] == orig;
  }
}
