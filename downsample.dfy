/** Uniform down-sampling: keep every k-th entry, starting with the first. */
module Downsample {
  import opened Vectors
  import opened Sequences
  import opened Clouds
  import opened Selection

  /** The positions `start`, `start + k`, `start + 2k`, ... below `n`. */
  function Stride(start: nat, n: nat, k: nat): (r: seq<nat>)
    requires 0 < k
    ensures InRange(r, n)
    ensures forall j :: 0 <= j < |r| ==> r[j] == start + j * k
    ensures n <= start ==> r == []
    decreases n - start
  {
    if n <= start then []
    else
      var rest := Stride(start + k, n, k);
      assert forall j :: 0 < j <= |rest| ==> start + j * k == start + k + (j - 1) * k;
      [start] + rest
  }

  /** A stride holds ceil((n - start) / k) positions, stated without division. */
  lemma {:induction false} StrideLength(start: nat, n: nat, k: nat)
    requires 0 < k && start < n
    ensures (|Stride(start, n, k)| - 1) * k < n - start <= |Stride(start, n, k)| * k
    decreases n - start
  {
    var m := |Stride(start + k, n, k)|;
    assert |Stride(start, n, k)| == m + 1;
    if start + k < n {
      StrideLength(start + k, n, k);
      assert (m + 1) * k == m * k + k && m * k == (m - 1) * k + k;
    }
  }

  /** Strides are strictly increasing. */
  lemma StrideAscending(start: nat, n: nat, k: nat)
    requires 0 < k
    ensures forall i, j :: 0 <= i < j < |Stride(start, n, k)| ==> Stride(start, n, k)[i] < Stride(start, n, k)[j]
  {
    var r := Stride(start, n, k);
    forall i, j | 0 <= i < j < |r| ensures r[i] < r[j] {
      MulLess(i, j, k);
    }
  }

  /** With a positive factor, multiplication preserves and reflects strict order. */
  lemma MulLess(a: nat, b: nat, k: nat)
    requires 0 < k
    ensures a < b <==> a * k < b * k
  {
    assert b * k - a * k == (b - a) * k;
  }

  /**
   * UniformDownSample: the entries at positions 0, k, 2k, ... with their paired normals and
   * colors; a sampling rate of 0 is rejected.
   */
  function UniformDownSample(c: Cloud, k: nat): (r: Result<Cloud>)
    ensures r.Err? <==> k == 0
    ensures r.Err? ==> r.error == InvalidArgument
    ensures r.Ok? ==> WellFormed(r.value)
    ensures r.Ok? ==> forall j :: 0 <= j < |r.value.points| ==>
              j * k < |c.points| && r.value.points[j] == c.points[j * k]
    ensures r.Ok? && |c.normals| == |c.points| ==>
              |r.value.normals| == |r.value.points| &&
              forall j :: 0 <= j < |r.value.points| ==> r.value.normals[j] == c.normals[j * k]
    ensures r.Ok? && |c.normals| != |c.points| ==> r.value.normals == []
    ensures r.Ok? && |c.colors| == |c.points| ==>
              |r.value.colors| == |r.value.points| &&
              forall j :: 0 <= j < |r.value.points| ==> r.value.colors[j] == c.colors[j * k]
    ensures r.Ok? && |c.colors| != |c.points| ==> r.value.colors == []
  {
    if k == 0 then Err(InvalidArgument)
    else
      var idx := Stride(0, |c.points|, k);
      var r := SubCloud(c, idx);
      assert SelectByIndex(c, idx, false) == Ok(r);
      forall j | 0 <= j < |r.points|
        ensures j * k < |c.points| && r.points[j] == c.points[j * k]
      {
        assert idx[j] == j * k;
      }
      SelectByIndex(c, idx, false)
  }

  /** The output has one point per stride position. */
  lemma UniformLength(c: Cloud, k: nat)
    requires 0 < k
    ensures UniformDownSample(c, k).Ok?
    ensures |UniformDownSample(c, k).value.points| == |Stride(0, |c.points|, k)|
  {
    assert UniformDownSample(c, k) == Ok(SubCloud(c, Stride(0, |c.points|, k)));
  }

  /** The output has exactly ceil(N / k) points. */
  lemma UniformCount(c: Cloud, k: nat)
    requires 0 < k
    ensures UniformDownSample(c, k).Ok?
    ensures |UniformDownSample(c, k).value.points| == (|c.points| + k - 1) / k
  {
    UniformLength(c, k);
    StrideCount(|c.points|, k);
  }

  /** Arithmetic core of UniformCount: the stride from 0 has ceil(n / k) positions. */
  lemma StrideCount(n: nat, k: nat)
    requires 0 < k
    ensures |Stride(0, n, k)| == (n + k - 1) / k
  {
    var m := |Stride(0, n, k)|;
    if n == 0 {
      assert (k - 1) / k == 0;
    } else {
      StrideLength(0, n, k);
      assert (m - 1) * k == m * k - k;
      DivOfRange(n + k - 1, m, k);
    }
  }

  /** Division recovers the quotient from any value in [q * k, q * k + k). */
  lemma DivOfRange(x: nat, q: nat, k: nat)
    requires 0 < k && q * k <= x < q * k + k
    ensures x / k == q
  {
    var d := x / k;
    assert d * k <= x < d * k + k;
    assert (q + 1) * k == q * k + k && (d + 1) * k == d * k + k;
    MulLess(d, q + 1, k);
    MulLess(q, d + 1, k);
  }

  /** Every position below n that is a multiple of k appears in the stride from 0, at i / k. */
  lemma StrideHits(n: nat, k: nat, i: nat)
    requires 0 < k && i < n && i % k == 0
    ensures i / k < |Stride(0, n, k)| && (i / k) * k == i
  {
    var m := |Stride(0, n, k)|;
    StrideLength(0, n, k);
    var q := i / k;
    assert q * k == i;
    MulLess(q, m, k);
  }

  /** Only multiples of k are of the form j * k. */
  lemma MultipleMod(j: nat, k: nat)
    requires 0 < k
    ensures (j * k) % k == 0
  {
    DivOfRange(j * k, j, k);
  }

  /** Every entry at a multiple of k is kept, at position i / k; no other position is kept. */
  lemma UniformKeepsMultiples(c: Cloud, k: nat, i: nat)
    requires 0 < k && i < |c.points|
    ensures UniformDownSample(c, k).Ok?
    ensures i % k == 0 ==> i / k < |UniformDownSample(c, k).value.points| &&
                           UniformDownSample(c, k).value.points[i / k] == c.points[i]
    ensures i % k != 0 ==> forall j :: 0 <= j < |UniformDownSample(c, k).value.points| ==> j * k != i
  {
    UniformLength(c, k);
    var r := UniformDownSample(c, k).value;
    if i % k == 0 {
      StrideHits(|c.points|, k, i);
    } else {
      forall j | 0 <= j < |r.points| ensures j * k != i {
        MultipleMod(j, k);
      }
    }
  }

  /** Down-sampling never invents or duplicates points: the output is a sub-multiset of the input. */
  lemma UniformSubMultiset(c: Cloud, k: nat)
    requires 0 < k
    ensures UniformDownSample(c, k).Ok?
    ensures multiset(UniformDownSample(c, k).value.points) <= multiset(c.points)
  {
    var idx := Stride(0, |c.points|, k);
    StrideAscending(0, |c.points|, k);
    AscendingDistinct(idx);
    assert UniformDownSample(c, k) == SelectByIndex(c, idx, false);
    SelectPartition(c, idx);
  }
}
