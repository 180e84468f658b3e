/**
 * Sequence operations the dashboard uses through JavaScript arrays: `filter`,
 * `slice(0, n)` and the insertion-ordered de-duplication of `[...new Set(xs)]`,
 * with the counting facts the statistics and reports rest on.
 */
module Seqs {

  /** `xs.filter(p)`: the elements of `s` satisfying `p`, in their original order. */
  function Filter<T>(s: seq<T>, p: T -> bool): (r: seq<T>)
    ensures |r| <= |s|
  {
    if s == [] then [] else (if p(s[0]) then [s[0]] else []) + Filter(s[1..], p)
  }

  /** An element survives a filter exactly when it is in the input and satisfies the predicate. */
  lemma {:induction false} FilterMembership<T>(s: seq<T>, p: T -> bool, x: T)
    ensures x in Filter(s, p) <==> x in s && p(x)
    decreases |s|
  {
    if s != [] {
      FilterMembership(s[1..], p, x);
      assert s == [s[0]] + s[1..];
    }
  }

  /** A filter never invents or duplicates elements. */
  lemma {:induction false} FilterSubMultiset<T>(s: seq<T>, p: T -> bool)
    ensures multiset(Filter(s, p)) <= multiset(s)
    decreases |s|
  {
    if s != [] {
      FilterSubMultiset(s[1..], p);
      assert s == [s[0]] + s[1..];
    }
  }

  /** `xs.slice(0, n)`. */
  function Take<T>(s: seq<T>, n: nat): (r: seq<T>)
    ensures |r| == if |s| < n then |s| else n
    ensures r == s[..|r|]
  {
    if |s| < n then s else s[..n]
  }

  /** 1 for true, 0 for false: the contribution of one element to a `filter(...).length`. */
  function Ind(b: bool): nat
  {
    if b then 1 else 0
  }

  lemma {:induction false} FilterConcat<T>(a: seq<T>, b: seq<T>, p: T -> bool)
    ensures Filter(a + b, p) == Filter(a, p) + Filter(b, p)
    decreases |a|
  {
    if a == [] {
      assert a + b == b;
    } else {
      var head := if p(a[0]) then [a[0]] else [];
      assert Filter(a + b, p) == head + Filter(a[1..] + b, p) by {
        assert (a + b)[0] == a[0];
        assert (a + b)[1..] == a[1..] + b;
      }
      FilterConcat(a[1..], b, p);
      assert head + (Filter(a[1..], p) + Filter(b, p)) == (head + Filter(a[1..], p)) + Filter(b, p);
    }
  }

  /** Two successive filters are one filter by the conjunction. */
  lemma {:induction false} FilterFilter<T>(s: seq<T>, p: T -> bool, q: T -> bool, pq: T -> bool)
    requires forall x :: pq(x) == (p(x) && q(x))
    ensures Filter(Filter(s, p), q) == Filter(s, pq)
    decreases |s|
  {
    if s != [] {
      FilterFilter(s[1..], p, q, pq);
      var head := if p(s[0]) then [s[0]] else [];
      FilterConcat(head, Filter(s[1..], p), q);
    }
  }

  /** Filters by predicates that agree everywhere give the same sequence. */
  lemma {:induction false} FilterExt<T>(s: seq<T>, p: T -> bool, q: T -> bool)
    requires forall x :: p(x) == q(x)
    ensures Filter(s, p) == Filter(s, q)
    decreases |s|
  {
    if s != [] {
      FilterExt(s[1..], p, q);
    }
  }

  /** A filter by a predicate every element meets keeps the whole sequence. */
  lemma {:induction false} FilterAll<T>(s: seq<T>, p: T -> bool)
    requires forall x :: x in s ==> p(x)
    ensures Filter(s, p) == s
    decreases |s|
  {
    if s != [] {
      assert forall x :: x in s[1..] ==> x in s;
      FilterAll(s[1..], p);
    }
  }

  /** A filter by a predicate no element meets keeps nothing. */
  lemma {:induction false} FilterNone<T>(s: seq<T>, p: T -> bool)
    requires forall x :: x in s ==> !p(x)
    ensures Filter(s, p) == []
    decreases |s|
  {
    if s != [] {
      assert forall x :: x in s[1..] ==> x in s;
      FilterNone(s[1..], p);
    }
  }

  /** A filter by a weaker predicate keeps at least as many elements. */
  lemma {:induction false} FilterMonotone<T>(s: seq<T>, p: T -> bool, q: T -> bool)
    requires forall x :: p(x) ==> q(x)
    ensures |Filter(s, p)| <= |Filter(s, q)|
    decreases |s|
  {
    if s != [] {
      FilterMonotone(s[1..], p, q);
    }
  }

  /** Counts by three predicates that never hold together add up to at most the length. */
  lemma {:induction false} FilterDisjointCounts<T>(s: seq<T>, p: T -> bool, q: T -> bool, r: T -> bool)
    requires forall x :: Ind(p(x)) + Ind(q(x)) + Ind(r(x)) <= 1
    ensures |Filter(s, p)| + |Filter(s, q)| + |Filter(s, r)| <= |s|
    decreases |s|
  {
    if s != [] {
      FilterDisjointCounts(s[1..], p, q, r);
      assert Ind(p(s[0])) + Ind(q(s[0])) + Ind(r(s[0])) <= 1;
    }
  }

  /** Counts by four predicates of which exactly one holds add up to the length. */
  lemma {:induction false} FilterPartitionCounts<T>(s: seq<T>, p: T -> bool, q: T -> bool, r: T -> bool, t: T -> bool)
    requires forall x :: Ind(p(x)) + Ind(q(x)) + Ind(r(x)) + Ind(t(x)) == 1
    ensures |Filter(s, p)| + |Filter(s, q)| + |Filter(s, r)| + |Filter(s, t)| == |s|
    decreases |s|
  {
    if s != [] {
      FilterPartitionCounts(s[1..], p, q, r, t);
      assert Ind(p(s[0])) + Ind(q(s[0])) + Ind(r(s[0])) + Ind(t(s[0])) == 1;
    }
  }

  /** A filter keeps, then drops: the two counts add up to the length. */
  lemma {:induction false} FilterComplementCounts<T>(s: seq<T>, p: T -> bool, q: T -> bool)
    requires forall x :: q(x) == !p(x)
    ensures |Filter(s, p)| + |Filter(s, q)| == |s|
    decreases |s|
  {
    if s != [] {
      FilterComplementCounts(s[1..], p, q);
    }
  }

  /** Filtering a sequence with one element taken out, at position `j`. */
  lemma {:induction false} FilterRemoveAt<T>(t: seq<T>, j: nat, p: T -> bool)
    requires j < |t|
    ensures multiset(Filter(t, p)) == multiset(Filter([t[j]], p)) + multiset(Filter(t[..j] + t[j + 1..], p))
  {
    var a, x, b := t[..j], t[j], t[j + 1..];
    assert t == (a + [x]) + b;
    FilterConcat(a + [x], b, p);
    FilterConcat(a, [x], p);
    FilterConcat(a, b, p);
    var fa, fx, fb := Filter(a, p), Filter([x], p), Filter(b, p);
    assert Filter(t, p) == fa + fx + fb;
    assert multiset(fa + fx + fb) == multiset(fa) + multiset(fx) + multiset(fb);
    assert multiset(fa + fb) == multiset(fa) + multiset(fb);
  }

  /** What a filter keeps depends only on the multiset of its input, not on the order. */
  lemma {:induction false} FilterPermutation<T>(s: seq<T>, t: seq<T>, p: T -> bool)
    requires multiset(s) == multiset(t)
    ensures multiset(Filter(s, p)) == multiset(Filter(t, p))
    ensures |Filter(s, p)| == |Filter(t, p)|
    decreases |s|
  {
    if s == [] {
      assert |t| == |multiset(t)| == 0;
    } else {
      var x := s[0];
      assert x in multiset(s);
      var j :| 0 <= j < |t| && t[j] == x;
      var rest := t[..j] + t[j + 1..];
      assert multiset(s[1..]) == multiset(rest) by {
        var a, b := t[..j], t[j + 1..];
        assert s == [x] + s[1..];
        assert multiset(s) == multiset{x} + multiset(s[1..]);
        assert t == a + [x] + b;
        assert multiset(t) == multiset(a) + multiset{x} + multiset(b);
        assert multiset(rest) == multiset(a) + multiset(b);
        assert multiset(s[1..]) == multiset(s) - multiset{x};
        assert multiset(rest) == multiset(t) - multiset{x};
      }
      FilterPermutation(s[1..], rest, p);
      FilterRemoveAt(t, j, p);
      FilterConcat([x], s[1..], p);
      assert s == [x] + s[1..];
    }
    assert |Filter(s, p)| == |multiset(Filter(s, p))|;
    assert |Filter(t, p)| == |multiset(Filter(t, p))|;
  }

  /** `r` occurs in `s` in order, possibly with gaps. */
  ghost predicate IsSubseq<T>(r: seq<T>, s: seq<T>)
    decreases |s|
  {
    r == [] || (s != [] && ((r[0] == s[0] && IsSubseq(r[1..], s[1..])) || IsSubseq(r, s[1..])))
  }

  lemma {:induction false} FilterIsSubseq<T>(s: seq<T>, p: T -> bool)
    ensures IsSubseq(Filter(s, p), s)
    decreases |s|
  {
    if s != [] {
      FilterIsSubseq(s[1..], p);
      var r := Filter(s, p);
      if p(s[0]) {
        assert r[0] == s[0] && r[1..] == Filter(s[1..], p);
      } else {
        assert r == Filter(s[1..], p);
      }
    }
  }

  lemma {:induction false} PrefixIsSubseq<T>(s: seq<T>, n: nat)
    requires n <= |s|
    ensures IsSubseq(s[..n], s)
    decreases |s|
  {
    if n > 0 {
      assert s[..n][0] == s[0] && s[..n][1..] == s[1..][..n - 1];
      PrefixIsSubseq(s[1..], n - 1);
    }
  }

  lemma {:induction false} SubseqTransitive<T>(a: seq<T>, b: seq<T>, c: seq<T>)
    requires IsSubseq(a, b) && IsSubseq(b, c)
    ensures IsSubseq(a, c)
    decreases |c|
  {
    if a != [] {
      if IsSubseq(b, c[1..]) {
        SubseqTransitive(a, b, c[1..]);
      } else if IsSubseq(a, b[1..]) {
        SubseqTransitive(a, b[1..], c[1..]);
      } else {
        SubseqTransitive(a[1..], b[1..], c[1..]);
      }
    }
  }

  /** No element occurs twice. */
  predicate Distinct<T(==)>(s: seq<T>)
  {
    forall i, j :: 0 <= i < j < |s| ==> s[i] != s[j]
  }

  /**
   * `[...new Set(s)]`: each element once, at the place of its first occurrence.
   * Defined from the end of `s`, the way a loop appends to it.
   */
  function Dedup<T(==)>(s: seq<T>): (r: seq<T>)
    ensures forall i :: 0 <= i < |r| ==> r[i] in s
    ensures Distinct(r)
  {
    if s == [] then []
    else
      var d := Dedup(s[..|s| - 1]);
      var x := s[|s| - 1];
      if x in d then d else d + [x]
  }

  lemma {:induction false} DedupMembership<T>(s: seq<T>, x: T)
    ensures x in Dedup(s) <==> x in s
    decreases |s|
  {
    if s != [] {
      var init := s[..|s| - 1];
      DedupMembership(init, x);
      DedupMembership(init, s[|s| - 1]);
      assert s == init + [s[|s| - 1]];
    }
  }

  /** One more element extends the deduplicated sequence exactly when it is new. */
  lemma DedupStep<T>(vs: seq<T>, v: T)
    ensures Dedup(vs + [v]) == if v in vs then Dedup(vs) else Dedup(vs) + [v]
  {
    assert (vs + [v])[..|vs|] == vs;
    DedupMembership(vs, v);
  }

  /** Position of the first occurrence of `x` in `s`. */
  function FirstIndex<T(==)>(s: seq<T>, x: T): (k: nat)
    requires x in s
    ensures k < |s| && s[k] == x && x !in s[..k]
  {
    if s[0] == x then 0 else 1 + FirstIndex(s[1..], x)
  }

  lemma {:induction false} FirstIndexExtend<T>(s: seq<T>, y: T, x: T)
    requires x in s
    ensures x in s + [y] && FirstIndex(s + [y], x) == FirstIndex(s, x)
    decreases |s|
  {
    assert (s + [y])[0] == s[0];
    if s[0] != x {
      assert (s + [y])[1..] == s[1..] + [y];
      FirstIndexExtend(s[1..], y, x);
    }
  }

  /** The de-duplicated elements come in the order of their first occurrences. */
  lemma {:induction false} DedupFirstOccurrenceOrder<T>(s: seq<T>)
    ensures forall i, j :: 0 <= i < j < |Dedup(s)| ==> FirstIndex(s, Dedup(s)[i]) < FirstIndex(s, Dedup(s)[j])
    decreases |s|
  {
    if s != [] {
      var init := s[..|s| - 1];
      var x := s[|s| - 1];
      assert s == init + [x];
      DedupFirstOccurrenceOrder(init);
      var d := Dedup(init);
      forall y | y in d ensures FirstIndex(s, y) == FirstIndex(init, y) {
        FirstIndexExtend(init, x, y);
      }
      if x !in d {
        DedupMembership(init, x);
        assert x !in init;
        assert forall m :: 0 <= m < |init| ==> s[m] == init[m] && s[m] != x;
        assert FirstIndex(s, x) == |init|;
      }
    }
  }

  /** In a sequence without repetitions every element occurs once. */
  lemma {:induction false} DistinctOnce<T>(s: seq<T>, x: T)
    requires Distinct(s)
    ensures multiset(s)[x] <= 1
    decreases |s|
  {
    if s != [] {
      assert s == [s[0]] + s[1..];
      DistinctOnce(s[1..], x);
      if x == s[0] {
        assert x !in s[1..];
      }
    }
  }

  /** Reordering a sequence without repetitions cannot create one. */
  lemma DistinctPermutation<T>(s: seq<T>, t: seq<T>)
    requires Distinct(s) && multiset(s) == multiset(t)
    ensures Distinct(t)
  {
    forall i, j | 0 <= i < j < |t| ensures t[i] != t[j] {
      if t[i] == t[j] {
        assert t == t[..j] + t[j..];
        assert t[i] in multiset(t[..j]) && t[j] in multiset(t[j..]);
        assert multiset(t)[t[i]] >= 2;
        DistinctOnce(s, t[i]);
      }
    }
  }

  /** A sequence without repetitions has as many elements as its set. */
  lemma {:induction false} DistinctCardinality<T>(s: seq<T>)
    requires Distinct(s)
    ensures |set x | x in s| == |s|
    decreases |s|
  {
    if s != [] {
      var init := s[..|s| - 1];
      var x := s[|s| - 1];
      assert s == init + [x];
      DistinctCardinality(init);
      assert x !in init;
      assert (set y | y in s) == (set y | y in init) + {x};
    }
  }

  /** `[...new Set(s)].length` is the number of distinct values in `s`. */
  lemma DedupCardinality<T>(s: seq<T>)
    ensures |Dedup(s)| == |set x | x in s|
  {
    DistinctCardinality(Dedup(s));
    forall x ensures x in Dedup(s) <==> x in s {
      DedupMembership(s, x);
    }
    assert (set x | x in Dedup(s)) == (set x | x in s);
  }
}
