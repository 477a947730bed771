/** Index-based selection and the inclusive axis-aligned box filter. */
module Selection {
  import opened Vectors
  import opened Sequences
  import opened Clouds

  /** The positions below `n` that `idx` does not name, in ascending order. */
  function ComplementIndices(n: nat, idx: seq<nat>): (r: seq<nat>)
    ensures InRange(r, n)
    ensures forall j, k :: 0 <= j < k < |r| ==> r[j] < r[k]
    ensures forall i: nat :: i in r <==> i < n && i !in idx
  {
    if n == 0 then []
    else ComplementIndices(n - 1, idx) + (if n - 1 in idx then [] else [n - 1])
  }

  /**
   * SelectByIndex: the entries at `idx`, in the order of `idx`; with `invert`, the entries
   * NOT at `idx`, in their original order. An index past the last point is an error.
   */
  function SelectByIndex(c: Cloud, idx: seq<nat>, invert: bool): (r: Result<Cloud>)
    ensures r.Err? <==> exists j :: 0 <= j < |idx| && |c.points| <= idx[j]
    ensures r.Err? ==> r.error == IndexOutOfRange
    ensures r.Ok? ==> WellFormed(r.value)
    ensures r.Ok? ==> var pos := Positions(|c.points|, idx, invert);
              |r.value.points| == |pos| &&
              forall j :: 0 <= j < |pos| ==> r.value.points[j] == c.points[pos[j]]
    ensures r.Ok? && |c.normals| == |c.points| ==> var pos := Positions(|c.points|, idx, invert);
              |r.value.normals| == |pos| &&
              forall j :: 0 <= j < |pos| ==> r.value.normals[j] == c.normals[pos[j]]
    ensures r.Ok? && |c.normals| != |c.points| ==> r.value.normals == []
    ensures r.Ok? && |c.colors| == |c.points| ==> var pos := Positions(|c.points|, idx, invert);
              |r.value.colors| == |pos| &&
              forall j :: 0 <= j < |pos| ==> r.value.colors[j] == c.colors[pos[j]]
    ensures r.Ok? && |c.colors| != |c.points| ==> r.value.colors == []
    ensures r.Ok? && invert ==> forall q :: q in r.value.points <==> OutsideSelection(c.points, idx, q)
  {
    if !InRange(idx, |c.points|) then Err(IndexOutOfRange)
    else if invert then
      var rest := ComplementIndices(|c.points|, idx);
      ComplementMembership(c.points, idx);
      Ok(SubCloud(c, rest))
    else Ok(SubCloud(c, idx))
  }

  /** The positions a selection keeps: `idx` itself, or its complement in ascending order. */
  function Positions(n: nat, idx: seq<nat>, invert: bool): seq<nat>
  {
    if invert then ComplementIndices(n, idx) else idx
  }

  /** `q` is the point at some position that `idx` does not name. */
  predicate OutsideSelection(ps: seq<Vec3>, idx: seq<nat>, q: Vec3)
  {
    exists i: nat :: i < |ps| && i !in idx && ps[i] == q
  }

  lemma ComplementMembership(ps: seq<Vec3>, idx: seq<nat>)
    ensures forall q :: q in Gather(ps, ComplementIndices(|ps|, idx)) <==> OutsideSelection(ps, idx, q)
  {
    var rest := ComplementIndices(|ps|, idx);
    var g := Gather(ps, rest);
    forall q | q in g
      ensures OutsideSelection(ps, idx, q)
    {
      var j :| 0 <= j < |g| && g[j] == q;
      var i: nat := rest[j];
      assert i in rest;
    }
    forall q | OutsideSelection(ps, idx, q)
      ensures q in g
    {
      var i: nat :| i < |ps| && i !in idx && ps[i] == q;
      assert i in rest;
      var j :| 0 <= j < |rest| && rest[j] == i;
      assert g[j] == q;
    }
  }

  /** Selecting along a reordering of the same indices selects the same points, up to order. */
  lemma SelectOrderIrrelevant(c: Cloud, idx: seq<nat>, idx': seq<nat>)
    requires multiset(idx) == multiset(idx')
    requires SelectByIndex(c, idx, false).Ok?
    ensures SelectByIndex(c, idx', false).Ok?
    ensures multiset(SelectByIndex(c, idx, false).value.points)
         == multiset(SelectByIndex(c, idx', false).value.points)
  {
    assert InRange(idx', |c.points|) by {
      forall j | 0 <= j < |idx'| ensures idx'[j] < |c.points| {
        assert idx'[j] in multiset(idx);
      }
    }
    GatherPermutation(c.points, idx, idx');
  }

  /**
   * With duplicate-free, in-range indices, the selected points and the points of the inverted
   * selection together are the input points: none lost, none repeated.
   */
  lemma SelectPartition(c: Cloud, idx: seq<nat>)
    requires Distinct(idx)
    requires SelectByIndex(c, idx, false).Ok?
    ensures SelectByIndex(c, idx, true).Ok?
    ensures multiset(SelectByIndex(c, idx, false).value.points)
          + multiset(SelectByIndex(c, idx, true).value.points)
         == multiset(c.points)
  {
    var n := |c.points|;
    var rest := ComplementIndices(n, idx);
    AscendingDistinct(rest);
    assert multiset(idx + rest) == multiset(Range(n)) by {
      forall v: nat
        ensures multiset(idx + rest)[v] == multiset(Range(n))[v]
      {
        DistinctCount(idx, v);
        DistinctCount(rest, v);
        DistinctCount(Range(n), v);
        assert v in idx ==> v < n;
        assert v in Range(n) <==> v < n by {
          if v < n {
            assert Range(n)[v] == v;
          }
        }
      }
    }
    GatherAppend(c.points, idx, rest);
    GatherRange(c.points);
    GatherPermutation(c.points, idx + rest, Range(n));
  }

  /** An axis-aligned bounding box given by its min and max corners. */
  datatype Box = Box(minBound: Vec3, maxBound: Vec3)

  /** `p` lies in `b`, bounds included, on every axis. */
  predicate Contains(b: Box, p: Vec3)
  {
    LessEq(b.minBound, p) && LessEq(p, b.maxBound)
  }

  /** The positions of the points of `ps` that lie in `b`, in ascending order. */
  function IndicesInBox(ps: seq<Vec3>, b: Box): (r: seq<nat>)
    ensures InRange(r, |ps|) && |r| <= |ps|
    ensures forall j, k :: 0 <= j < k < |r| ==> r[j] < r[k]
    ensures forall i: nat :: i in r <==> i < |ps| && Contains(b, ps[i])
  {
    if |ps| == 0 then []
    else
      var n := |ps| - 1;
      IndicesInBox(ps[..n], b) + (if Contains(b, ps[n]) then [n] else [])
  }

  /** Crop: the entries whose point lies in `b`, in their original order. */
  function Crop(c: Cloud, b: Box): (r: Cloud)
    ensures WellFormed(r)
    ensures |r.points| <= |c.points|
    ensures var pos := IndicesInBox(c.points, b);
            |r.points| == |pos| && forall j :: 0 <= j < |pos| ==> r.points[j] == c.points[pos[j]]
    ensures |c.normals| == |c.points| ==> var pos := IndicesInBox(c.points, b);
              |r.normals| == |pos| && forall j :: 0 <= j < |pos| ==> r.normals[j] == c.normals[pos[j]]
    ensures |c.normals| != |c.points| ==> r.normals == []
    ensures |c.colors| == |c.points| ==> var pos := IndicesInBox(c.points, b);
              |r.colors| == |pos| && forall j :: 0 <= j < |pos| ==> r.colors[j] == c.colors[pos[j]]
    ensures |c.colors| != |c.points| ==> r.colors == []
    ensures forall j :: 0 <= j < |r.points| ==> Contains(b, r.points[j])
    ensures forall i :: 0 <= i < |c.points| && Contains(b, c.points[i]) ==> c.points[i] in r.points
  {
    var idx := IndicesInBox(c.points, b);
    var r := SubCloud(c, idx);
    forall j | 0 <= j < |r.points| ensures Contains(b, r.points[j]) {
      assert idx[j] in idx;
    }
    forall i | 0 <= i < |c.points| && Contains(b, c.points[i])
      ensures c.points[i] in r.points
    {
      var j :| 0 <= j < |idx| && idx[j] == i;
      assert r.points[j] == c.points[i];
    }
    r
  }

  /** The points of `ps` that lie in `b`, in order: a reference definition of what Crop keeps. */
  function PointsInBox(ps: seq<Vec3>, b: Box): (r: seq<Vec3>)
    ensures |r| <= |ps|
  {
    if |ps| == 0 then []
    else
      var n := |ps| - 1;
      PointsInBox(ps[..n], b) + (if Contains(b, ps[n]) then [ps[n]] else [])
  }

  /** Gathering the in-box positions yields the reference filter. */
  lemma {:induction false} GatherInBox(ps: seq<Vec3>, b: Box)
    ensures Gather(ps, IndicesInBox(ps, b)) == PointsInBox(ps, b)
  {
    if |ps| > 0 {
      var n := |ps| - 1;
      var front := IndicesInBox(ps[..n], b);
      var tail: seq<nat> := if Contains(b, ps[n]) then [n] else [];
      var last := if Contains(b, ps[n]) then [ps[n]] else [];
      assert IndicesInBox(ps, b) == front + tail;
      assert PointsInBox(ps, b) == PointsInBox(ps[..n], b) + last;
      GatherInBox(ps[..n], b);
      GatherPrefix(ps, n, front);
      GatherAppend(ps, front, tail);
      assert Gather(ps, tail) == last;
    }
  }

  /** The filter keeps each in-box value as often as it occurs, and no other value. */
  lemma {:induction false} PointsInBoxCount(ps: seq<Vec3>, b: Box, q: Vec3)
    ensures multiset(PointsInBox(ps, b))[q] == if Contains(b, q) then multiset(ps)[q] else 0
  {
    if |ps| > 0 {
      var n := |ps| - 1;
      PointsInBoxCount(ps[..n], b, q);
      MultisetSnoc(ps);
      assert ps == ps[..n] + [ps[n]];
    }
  }

  /** Crop keeps exactly the points inside the box, each as often as it occurs in the input. */
  lemma CropMultiset(c: Cloud, b: Box, q: Vec3)
    ensures multiset(Crop(c, b).points)[q] == if Contains(b, q) then multiset(c.points)[q] else 0
  {
    var idx := IndicesInBox(c.points, b);
    assert Crop(c, b).points == Gather(c.points, idx);
    GatherInBox(c.points, b);
    PointsInBoxCount(c.points, b, q);
  }
}
