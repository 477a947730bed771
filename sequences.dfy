/** Facts about sequences used by the gather, filter and group-by operations. */
module Sequences {

  /** No element occurs twice. */
  predicate Distinct<T(==)>(s: seq<T>)
  {
    forall i, j :: 0 <= i < j < |s| ==> s[i] != s[j]
  }

  /** The elements of `s` as a set. */
  function Elements<T>(s: seq<T>): set<T>
  {
    set x | x in s
  }

  /** In a duplicate-free sequence every value occurs at most once. */
  lemma {:induction false} DistinctCount<T>(s: seq<T>, v: T)
    requires Distinct(s)
    ensures multiset(s)[v] == if v in s then 1 else 0
  {
    if |s| > 0 {
      var init := s[..|s| - 1];
      assert s == init + [s[|s| - 1]];
      assert Distinct(init);
      DistinctCount(init, v);
      if v == s[|s| - 1] {
        assert v !in init;
      }
    }
  }

  /** A duplicate-free sequence is as long as its set of elements is large. */
  lemma {:induction false} DistinctCardinality<T>(s: seq<T>)
    requires Distinct(s)
    ensures |Elements(s)| == |s|
  {
    if |s| > 0 {
      var init := s[..|s| - 1];
      var last := s[|s| - 1];
      assert s == init + [last];
      assert Distinct(init);
      DistinctCardinality(init);
      assert last !in init;
      assert Elements(s) == Elements(init) + {last};
    }
  }

  /** Every index in `idx` addresses an element of a sequence of length `n`. */
  predicate InRange(idx: seq<nat>, n: nat)
  {
    forall j :: 0 <= j < |idx| ==> idx[j] < n
  }

  /** The elements of `vs` at the positions `idx`, in the order of `idx`. */
  function Gather<T>(vs: seq<T>, idx: seq<nat>): (r: seq<T>)
    requires InRange(idx, |vs|)
    ensures |r| == |idx|
    ensures forall j :: 0 <= j < |idx| ==> r[j] == vs[idx[j]]
  {
    if |idx| == 0 then [] else [vs[idx[0]]] + Gather(vs, idx[1..])
  }

  lemma GatherAppend<T>(vs: seq<T>, a: seq<nat>, b: seq<nat>)
    requires InRange(a, |vs|) && InRange(b, |vs|)
    ensures InRange(a + b, |vs|)
    ensures Gather(vs, a + b) == Gather(vs, a) + Gather(vs, b)
  {
    assert InRange(a + b, |vs|);
    assert Gather(vs, a + b) == Gather(vs, a) + Gather(vs, b);
  }

  /** Removing the element at position `k` removes one occurrence of it. */
  lemma RemoveAt<T>(b: seq<T>, k: nat)
    requires k < |b|
    ensures multiset(b[..k] + b[k + 1..]) == multiset(b) - multiset{b[k]}
  {
    assert b == b[..k] + [b[k]] + b[k + 1..];
  }

  /** A sequence of indices cut around position `k`, each piece still in range. */
  lemma SplitAt(b: seq<nat>, k: nat, n: nat)
    requires InRange(b, n) && k < |b|
    ensures b == b[..k] + [b[k]] + b[k + 1..]
    ensures InRange(b[..k], n) && InRange([b[k]], n) && InRange(b[k + 1..], n)
  {
    assert b == b[..k] + [b[k]] + b[k + 1..];
  }

  /** Gathering along `b` splits around position `k`. */
  lemma GatherSplit<T>(vs: seq<T>, b: seq<nat>, k: nat)
    requires InRange(b, |vs|) && k < |b|
    ensures InRange(b[..k], |vs|) && InRange(b[k + 1..], |vs|)
    ensures Gather(vs, b) == Gather(vs, b[..k]) + [vs[b[k]]] + Gather(vs, b[k + 1..])
  {
    var left, mid, right := b[..k], [b[k]], b[k + 1..];
    SplitAt(b, k, |vs|);
    GatherAppend(vs, left, mid);
    GatherAppend(vs, left + mid, right);
    assert Gather(vs, mid) == [vs[b[k]]];
  }

  /** The inductive step of GatherPermutation: matching the first index of `a` with position `k` of `b`. */
  lemma GatherMatchFirst<T>(vs: seq<T>, a: seq<nat>, b: seq<nat>, k: nat)
    requires InRange(a, |vs|) && InRange(b, |vs|)
    requires 0 < |a| && k < |b| && a[0] == b[k]
    requires InRange(b[..k] + b[k + 1..], |vs|)
    requires multiset(Gather(vs, a[1..])) == multiset(Gather(vs, b[..k] + b[k + 1..]))
    ensures multiset(Gather(vs, a)) == multiset(Gather(vs, b))
  {
    var left, right := b[..k], b[k + 1..];
    GatherSplit(vs, b, k);
    GatherAppend(vs, left, right);
    assert Gather(vs, a) == [vs[a[0]]] + Gather(vs, a[1..]);
  }

  lemma RemoveAtInRange(b: seq<nat>, k: nat, n: nat)
    requires InRange(b, n) && k < |b|
    ensures InRange(b[..k] + b[k + 1..], n)
  {
    var rest := b[..k] + b[k + 1..];
    forall j | 0 <= j < |rest| ensures rest[j] < n {
      if j < k {
        assert rest[j] == b[j];
      } else {
        assert rest[j] == b[j + 1];
      }
    }
  }

  /** Gathering along two permutations of one index sequence gives permutations of one another. */
  lemma {:induction false} GatherPermutation<T>(vs: seq<T>, a: seq<nat>, b: seq<nat>)
    requires InRange(a, |vs|) && InRange(b, |vs|)
    requires multiset(a) == multiset(b)
    ensures multiset(Gather(vs, a)) == multiset(Gather(vs, b))
  {
    if |a| == 0 {
      assert |b| == |multiset(b)| == 0;
    } else {
      assert a[0] in multiset(b);
      var k :| 0 <= k < |b| && b[k] == a[0];
      var rest := b[..k] + b[k + 1..];
      RemoveAt(b, k);
      assert multiset(a[1..]) == multiset(rest) by {
        assert a == [a[0]] + a[1..];
      }
      RemoveAtInRange(b, k, |vs|);
      GatherPermutation(vs, a[1..], rest);
      GatherMatchFirst(vs, a, b, k);
    }
  }

  /** The positions 0, 1, ..., n - 1. */
  function Range(n: nat): (r: seq<nat>)
    ensures |r| == n
    ensures forall i :: 0 <= i < n ==> r[i] == i
  {
    seq(n, i requires 0 <= i < n => i)
  }

  /** Gathering every position in order gives the sequence back. */
  lemma GatherRange<T>(vs: seq<T>)
    ensures InRange(Range(|vs|), |vs|)
    ensures Gather(vs, Range(|vs|)) == vs
  {
  }

  /** Positions below `k` address the same elements in `vs` and in its prefix of length `k`. */
  lemma GatherPrefix<T>(vs: seq<T>, k: nat, idx: seq<nat>)
    requires k <= |vs| && InRange(idx, k)
    ensures InRange(idx, |vs|)
    ensures Gather(vs, idx) == Gather(vs[..k], idx)
  {
  }

  /** A strictly increasing sequence of positions has no duplicates. */
  lemma AscendingDistinct(s: seq<nat>)
    requires forall j, k :: 0 <= j < k < |s| ==> s[j] < s[k]
    ensures Distinct(s)
  {
  }

  lemma MultisetSnoc<T>(s: seq<T>)
    requires 0 < |s|
    ensures multiset(s) == multiset(s[..|s| - 1]) + multiset{s[|s| - 1]}
  {
    assert s == s[..|s| - 1] + [s[|s| - 1]];
  }
}
