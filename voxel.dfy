/** Voxel-grid down-sampling: one output entry per occupied cell, the mean of its entries. */
module Voxels {
  import opened Vectors
  import opened Sequences
  import opened Normals
  import opened Bounds
  import opened Clouds

  /** The integer grid coordinates of a voxel. */
  datatype Key = Key(i: int, j: int, k: int)

  /** Coordinate `a` of a key (0, 1, 2 for the x, y, z axes). */
  function KeyAt(key: Key, a: nat): int
    requires a < 3
  {
    if a == 0 then key.i else if a == 1 then key.j else key.k
  }

  /** Where cell `c` begins along an axis whose grid starts at `o` with cell edge `size`. */
  function CellStart(o: real, c: int, size: real): real
  {
    o + (c as real) * size
  }

  /** The cell index of coordinate `x` along one axis of a grid starting at `o` with cell edge `size`. */
  function Cell(x: real, o: real, size: real): (c: int)
    requires 0.0 < size
    ensures CellStart(o, c, size) <= x < CellStart(o, c, size) + size
  {
    var t := (x - o) / size;
    CellBounds(x - o, size, t.Floor as real);
    t.Floor
  }

  /** Scaling the floor bounds of `d / size` by `size` gives the cell's extent. */
  lemma CellBounds(d: real, size: real, lo: real)
    requires 0.0 < size
    requires lo <= d / size < lo + 1.0
    ensures lo * size <= d < lo * size + size
  {
    var t := d / size;
    ScaleBetween(lo, t, lo + 1.0, size);
    assert t * size == d;
    assert (lo + 1.0) * size == lo * size + size;
  }

  /** Multiplying by a positive factor keeps a value between its bounds. */
  lemma ScaleBetween(lo: real, t: real, hi: real, s: real)
    requires 0.0 < s && lo <= t < hi
    ensures lo * s <= t * s < hi * s
  {
    assert t * s - lo * s == (t - lo) * s;
    assert hi * s - t * s == (hi - t) * s;
  }

  lemma LessOfMul(a: real, b: real, s: real)
    requires 0.0 < s && a * s < b * s
    ensures a < b
  {
    assert b * s - a * s == (b - a) * s;
  }

  /** Two cells whose extents share a coordinate are each below the other's successor. */
  lemma ExtentsOverlap(d: real, size: real, a: real, b: real)
    requires 0.0 < size
    requires a * size <= d < a * size + size
    requires b * size <= d < b * size + size
    ensures a < b + 1.0 && b < a + 1.0
  {
    var sa, sb := a * size, b * size;
    assert (a + 1.0) * size == sa + size;
    assert (b + 1.0) * size == sb + size;
    assert sa <= d < sb + size;
    assert sb <= d < sa + size;
    LessOfMul(a, b + 1.0, size);
    LessOfMul(b, a + 1.0, size);
  }

  /** A coordinate in the extent of cell `c` has cell index `c`: the inverse of Cell's contract. */
  lemma CellOf(x: real, o: real, size: real, c: int)
    requires 0.0 < size
    requires CellStart(o, c, size) <= x < CellStart(o, c, size) + size
    ensures Cell(x, o, size) == c
  {
    var f := Cell(x, o, size);
    ExtentsOverlap(x - o, size, f as real, c as real);
  }

  /** The voxel of point `p` in the grid anchored at `origin`. */
  function VoxelKey(p: Vec3, origin: Vec3, size: real): Key
    requires 0.0 < size
  {
    Key(Cell(p.x, origin.x, size), Cell(p.y, origin.y, size), Cell(p.z, origin.z, size))
  }

  lemma KeyAtVoxel(p: Vec3, origin: Vec3, size: real, a: nat)
    requires 0.0 < size && a < 3
    ensures KeyAt(VoxelKey(p, origin, size), a) == Cell(At(p, a), At(origin, a), size)
  {
  }

  /** With origin at or below every point, every cell index is non-negative. */
  lemma CellNonNegative(x: real, o: real, size: real)
    requires 0.0 < size && o <= x
    ensures 0 <= Cell(x, o, size)
  {
    var c := Cell(x, o, size);
    var cr := c as real;
    assert 0.0 < (cr + 1.0) * size by {
      assert (cr + 1.0) * size == cr * size + size;
    }
    LessOfMul(0.0, cr + 1.0, size);
  }

  /** The voxel of each point, position by position. */
  function KeysOf(ps: seq<Vec3>, origin: Vec3, size: real): (r: seq<Key>)
    requires 0.0 < size
    ensures |r| == |ps|
  {
    seq(|ps|, i requires 0 <= i < |ps| => VoxelKey(ps[i], origin, size))
  }

  /** The distinct values of `s` in order of first occurrence. */
  function Dedup(s: seq<Key>): (r: seq<Key>)
    ensures Distinct(r)
    ensures forall x :: x in r <==> x in s
    ensures |r| <= |s|
  {
    if |s| == 0 then []
    else
      var n := |s| - 1;
      var d := Dedup(s[..n]);
      assert forall x :: x in s <==> x in s[..n] || x == s[n] by {
        assert s == s[..n] + [s[n]];
      }
      if s[n] in d then d else d + [s[n]]
  }

  /** A sequence without repetitions is its own de-duplication. */
  lemma {:induction false} DedupOfDistinct(s: seq<Key>)
    requires Distinct(s)
    ensures Dedup(s) == s
  {
    if |s| > 0 {
      var n := |s| - 1;
      DedupOfDistinct(s[..n]);
      assert s[n] !in s[..n];
      assert s == s[..n] + [s[n]];
    }
  }

  /** The sum of the entries of `vs` whose key is `key`. */
  function GroupSum(vs: seq<Vec3>, keys: seq<Key>, key: Key): Vec3
    requires |vs| == |keys|
  {
    if |vs| == 0 then Zero
    else
      var n := |vs| - 1;
      var s := GroupSum(vs[..n], keys[..n], key);
      if keys[n] == key then Add(s, vs[n]) else s
  }

  /** A sum of `n` vectors divided by their number. */
  function Average(sum: Vec3, n: nat): Vec3
    requires 0 < n
  {
    Scale(sum, 1.0 / (n as real))
  }

  /** The mean of the entries of `vs` whose key is `key`. */
  function Mean(vs: seq<Vec3>, keys: seq<Key>, key: Key): Vec3
    requires |vs| == |keys| && key in keys
  {
    assert key in multiset(keys);
    Average(GroupSum(vs, keys, key), multiset(keys)[key])
  }

  /** The mean of each group in `occupied`, in that order. */
  function Means(vs: seq<Vec3>, keys: seq<Key>, occupied: seq<Key>): (r: seq<Vec3>)
    requires |vs| == |keys| && forall key :: key in occupied ==> key in keys
    ensures |r| == |occupied|
  {
    seq(|occupied|, j requires 0 <= j < |occupied| => Mean(vs, keys, occupied[j]))
  }

  /**
   * VoxelDownSample: the grid is anchored at the cloud's minimum bound with cell edge `size`;
   * each occupied voxel, in order of first occurrence, yields the mean of its points, the
   * normalized mean of its normals and the mean of its colors (the attributes only when paired
   * with the points). A non-positive size is rejected.
   */
  function VoxelDownSample(c: Cloud, size: real, sqrt: real -> real): (r: Result<Cloud>)
    requires IsSqrt(sqrt)
    ensures r.Err? <==> size <= 0.0
    ensures r.Err? ==> r.error == InvalidArgument
    ensures r.Ok? ==> WellFormed(r.value) && |r.value.points| <= |c.points|
    ensures r.Ok? ==> (|r.value.points| == 0 <==> |c.points| == 0)
    ensures r.Ok? && 0 < |c.points| ==>
              (|r.value.normals| == |r.value.points| <==> |c.normals| == |c.points|) &&
              (|r.value.colors| == |r.value.points| <==> |c.colors| == |c.points|)
  {
    if size <= 0.0 then Err(InvalidArgument)
    else
      var keys := KeysOf(c.points, MinBound(c.points), size);
      var occupied := Dedup(keys);
      assert 0 < |c.points| ==> keys[0] in occupied;
      var points := Means(c.points, keys, occupied);
      var normals := if |c.normals| == |c.points| then NormalizeAll(Means(c.normals, keys, occupied), sqrt) else [];
      var colors := if |c.colors| == |c.points| then Means(c.colors, keys, occupied) else [];
      Ok(Cloud(points, normals, colors))
  }

  /** The keys of the grid VoxelDownSample lays over `c`. */
  function GridKeys(c: Cloud, size: real): seq<Key>
    requires 0.0 < size
  {
    KeysOf(c.points, MinBound(c.points), size)
  }

  /** One output point per distinct occupied voxel. */
  lemma VoxelCount(c: Cloud, size: real, sqrt: real -> real)
    requires IsSqrt(sqrt) && 0.0 < size
    ensures VoxelDownSample(c, size, sqrt).Ok?
    ensures |VoxelDownSample(c, size, sqrt).value.points| == |Elements(GridKeys(c, size))|
  {
    var keys := GridKeys(c, size);
    var occupied := Dedup(keys);
    DistinctCardinality(occupied);
    assert Elements(occupied) == Elements(keys);
  }

  /** Voxel coordinates are never negative, since the grid starts at the minimum bound. */
  lemma GridKeysNonNegative(c: Cloud, size: real, i: nat)
    requires 0.0 < size && i < |c.points|
    ensures 0 <= GridKeys(c, size)[i].i && 0 <= GridKeys(c, size)[i].j && 0 <= GridKeys(c, size)[i].k
  {
    var o := MinBound(c.points);
    var p := c.points[i];
    assert LessEq(o, p);
    CellNonNegative(p.x, o.x, size);
    CellNonNegative(p.y, o.y, size);
    CellNonNegative(p.z, o.z, size);
  }

  /** `n` copies of `x` added up: multiplication by a count, kept linear for the solver. */
  function Times(n: nat, x: real): real
  {
    if n == 0 then 0.0 else Times(n - 1, x) + x
  }

  lemma {:induction false} TimesIsProduct(n: nat, x: real)
    ensures Times(n, x) == (n as real) * x
  {
    if n > 0 {
      TimesIsProduct(n - 1, x);
      assert (n as real) * x == ((n - 1) as real) * x + x;
    }
  }

  /** If every member of a group lies in [lo, hi) on axis `a`, the group's sum lies in [n lo, n hi). */
  lemma {:induction false} GroupSumBounds(vs: seq<Vec3>, keys: seq<Key>, key: Key, a: nat, lo: real, hi: real)
    requires |vs| == |keys| && a < 3
    requires forall i :: 0 <= i < |vs| && keys[i] == key ==> lo <= At(vs[i], a) < hi
    ensures Times(multiset(keys)[key], lo) <= At(GroupSum(vs, keys, key), a)
    ensures key in keys ==> At(GroupSum(vs, keys, key), a) < Times(multiset(keys)[key], hi)
  {
    if |vs| > 0 {
      var n := |vs| - 1;
      GroupSumBounds(vs[..n], keys[..n], key, a, lo, hi);
      MultisetSnoc(keys);
      assert keys == keys[..n] + [keys[n]];
      var m := multiset(keys[..n])[key];
      if keys[n] == key {
        assert multiset(keys)[key] == m + 1;
        AtAdd(GroupSum(vs[..n], keys[..n], key), vs[n], a);
        if m == 0 {
          GroupSumAbsent(vs[..n], keys[..n], key);
        }
      } else {
        assert multiset(keys)[key] == m;
        assert key in keys ==> key in keys[..n];
      }
    }
  }

  /** A key no entry carries has an empty group, whose sum is zero. */
  lemma {:induction false} GroupSumAbsent(vs: seq<Vec3>, keys: seq<Key>, key: Key)
    requires |vs| == |keys| && key !in keys
    ensures GroupSum(vs, keys, key) == Zero
  {
    if |vs| > 0 {
      var n := |vs| - 1;
      assert key !in keys[..n];
      GroupSumAbsent(vs[..n], keys[..n], key);
    }
  }

  lemma AtAdd(u: Vec3, v: Vec3, a: nat)
    requires a < 3
    ensures At(Add(u, v), a) == At(u, a) + At(v, a)
  {
  }

  /** Dividing a sum in [n lo, n hi) by its positive count n gives a mean in [lo, hi). */
  lemma MeanBetween(sum: real, n: real, lo: real, hi: real)
    requires 0.0 < n && n * lo <= sum < n * hi
    ensures lo <= (1.0 / n) * sum < hi
  {
    var q := (1.0 / n) * sum;
    assert q * n == sum;
    assert lo * n <= q * n < hi * n;
    LeqOfMul(lo, q, n);
    LessOfMul(q, hi, n);
  }

  lemma LeqOfMul(a: real, b: real, s: real)
    requires 0.0 < s && a * s <= b * s
    ensures a <= b
  {
    assert b * s - a * s == (b - a) * s;
  }

  /** A point in voxel `key` lies in that voxel's cell on axis `a`. */
  lemma MemberBounds(p: Vec3, origin: Vec3, size: real, key: Key, a: nat)
    requires 0.0 < size && a < 3 && VoxelKey(p, origin, size) == key
    ensures CellStart(At(origin, a), KeyAt(key, a), size) <= At(p, a)
              < CellStart(At(origin, a), KeyAt(key, a), size) + size
  {
    KeyAtVoxel(p, origin, size, a);
  }

  /** On each axis, the average of a sum is the sum's coordinate over the count. */
  lemma AverageAt(sum: Vec3, n: nat, a: nat)
    requires 0 < n && a < 3
    ensures At(Average(sum, n), a) == (1.0 / (n as real)) * At(sum, a)
  {
  }

  /** If every member of a group lies in [lo, hi) on axis `a`, so does the group's mean. */
  lemma MeanBounds(vs: seq<Vec3>, keys: seq<Key>, key: Key, a: nat, lo: real, hi: real)
    requires |vs| == |keys| && key in keys && a < 3
    requires forall i :: 0 <= i < |vs| && keys[i] == key ==> lo <= At(vs[i], a) < hi
    ensures lo <= At(Mean(vs, keys, key), a) < hi
  {
    GroupSumBounds(vs, keys, key, a, lo, hi);
    assert key in multiset(keys);
    AverageBounds(GroupSum(vs, keys, key), multiset(keys)[key], a, lo, hi);
  }

  /** A sum of `n` values in [lo, hi), divided by `n`, lies in [lo, hi). */
  lemma AverageBounds(g: Vec3, cnt: nat, a: nat, lo: real, hi: real)
    requires 0 < cnt && a < 3
    requires Times(cnt, lo) <= At(g, a) < Times(cnt, hi)
    ensures lo <= At(Average(g, cnt), a) < hi
  {
    TimesIsProduct(cnt, lo);
    TimesIsProduct(cnt, hi);
    var n := cnt as real;
    assert n * lo <= At(g, a) < n * hi;
    AverageAt(g, cnt, a);
    MeanBetween(At(g, a), n, lo, hi);
  }

  /** On each axis, the mean of a voxel's points falls in that voxel's cell. */
  lemma MeanCell(vs: seq<Vec3>, origin: Vec3, size: real, key: Key, a: nat)
    requires 0.0 < size && a < 3
    requires key in KeysOf(vs, origin, size)
    ensures Cell(At(Mean(vs, KeysOf(vs, origin, size), key), a), At(origin, a), size) == KeyAt(key, a)
  {
    MeanInCellExtent(vs, origin, size, key, a);
    CellOf(At(Mean(vs, KeysOf(vs, origin, size), key), a), At(origin, a), size, KeyAt(key, a));
  }

  /** The mean of voxel `key`'s points lies within that voxel's extent on axis `a`. */
  lemma MeanInCellExtent(vs: seq<Vec3>, origin: Vec3, size: real, key: Key, a: nat)
    requires 0.0 < size && a < 3
    requires key in KeysOf(vs, origin, size)
    ensures CellStart(At(origin, a), KeyAt(key, a), size) <= At(Mean(vs, KeysOf(vs, origin, size), key), a)
    ensures At(Mean(vs, KeysOf(vs, origin, size), key), a) < CellStart(At(origin, a), KeyAt(key, a), size) + size
  {
    var lo := CellStart(At(origin, a), KeyAt(key, a), size);
    MembersInCell(vs, origin, size, key, a);
    MeanBounds(vs, KeysOf(vs, origin, size), key, a, lo, lo + size);
  }

  /** Every point of voxel `key` lies in that voxel's cell on axis `a`. */
  lemma MembersInCell(vs: seq<Vec3>, origin: Vec3, size: real, key: Key, a: nat)
    requires 0.0 < size && a < 3
    ensures forall i :: 0 <= i < |vs| && KeysOf(vs, origin, size)[i] == key ==>
              CellStart(At(origin, a), KeyAt(key, a), size) <= At(vs[i], a)
              < CellStart(At(origin, a), KeyAt(key, a), size) + size
  {
    forall i | 0 <= i < |vs| && KeysOf(vs, origin, size)[i] == key
      ensures CellStart(At(origin, a), KeyAt(key, a), size) <= At(vs[i], a)
              < CellStart(At(origin, a), KeyAt(key, a), size) + size
    {
      MemberBounds(vs[i], origin, size, key, a);
    }
  }

  /** The mean of a voxel's points lies in that voxel. */
  lemma MeanInVoxel(vs: seq<Vec3>, origin: Vec3, size: real, key: Key)
    requires 0.0 < size
    requires key in KeysOf(vs, origin, size)
    ensures VoxelKey(Mean(vs, KeysOf(vs, origin, size), key), origin, size) == key
  {
    var m := Mean(vs, KeysOf(vs, origin, size), key);
    MeanCell(vs, origin, size, key, 0);
    MeanCell(vs, origin, size, key, 1);
    MeanCell(vs, origin, size, key, 2);
    KeyAtVoxel(m, origin, size, 0);
    KeyAtVoxel(m, origin, size, 1);
    KeyAtVoxel(m, origin, size, 2);
  }

  /**
   * Every output point lies in a voxel occupied by the input, distinct outputs lie in distinct
   * voxels, and each output point is less than one voxel edge away, on every axis, from every
   * input point it was averaged from.
   */
  lemma VoxelOutputInVoxel(c: Cloud, size: real, sqrt: real -> real, j: nat)
    requires IsSqrt(sqrt) && 0.0 < size
    requires VoxelDownSample(c, size, sqrt).Ok? && j < |VoxelDownSample(c, size, sqrt).value.points|
    ensures VoxelKey(VoxelDownSample(c, size, sqrt).value.points[j], MinBound(c.points), size) in GridKeys(c, size)
    ensures forall j' :: 0 <= j' < |VoxelDownSample(c, size, sqrt).value.points| && j' != j ==>
              VoxelKey(VoxelDownSample(c, size, sqrt).value.points[j'], MinBound(c.points), size)
              != VoxelKey(VoxelDownSample(c, size, sqrt).value.points[j], MinBound(c.points), size)
    ensures forall i, a: nat ::
              (0 <= i < |c.points| && a < 3 &&
               GridKeys(c, size)[i] == VoxelKey(VoxelDownSample(c, size, sqrt).value.points[j], MinBound(c.points), size)) ==>
              -size < At(VoxelDownSample(c, size, sqrt).value.points[j], a) - At(c.points[i], a) < size
  {
    var origin := MinBound(c.points);
    var keys := GridKeys(c, size);
    var occupied := Dedup(keys);
    var out := VoxelDownSample(c, size, sqrt).value.points;
    forall j' | 0 <= j' < |out|
      ensures VoxelKey(out[j'], origin, size) == occupied[j']
    {
      MeanInVoxel(c.points, origin, size, occupied[j']);
    }
    forall i, a: nat | 0 <= i < |c.points| && a < 3 && keys[i] == VoxelKey(out[j], origin, size)
      ensures -size < At(out[j], a) - At(c.points[i], a) < size
    {
      KeyAtVoxel(out[j], origin, size, a);
      KeyAtVoxel(c.points[i], origin, size, a);
    }
  }

  /**
   * Each output entry is the average of one occupied voxel: its point is the mean of the voxel's
   * points, and its normal and color are the normalized mean of the voxel's normals and the mean of
   * its colors, when those are paired with the points.
   */
  lemma VoxelMeans(c: Cloud, size: real, sqrt: real -> real, j: nat)
    requires IsSqrt(sqrt) && 0.0 < size
    requires VoxelDownSample(c, size, sqrt).Ok? && j < |VoxelDownSample(c, size, sqrt).value.points|
    ensures var r := VoxelDownSample(c, size, sqrt).value;
            var key := VoxelKey(r.points[j], MinBound(c.points), size);
            && key in GridKeys(c, size)
            && r.points[j] == Mean(c.points, GridKeys(c, size), key)
            && (|c.normals| == |c.points| ==> r.normals[j] == Normalize(Mean(c.normals, GridKeys(c, size), key), sqrt))
            && (|c.colors| == |c.points| ==> r.colors[j] == Mean(c.colors, GridKeys(c, size), key))
  {
    var origin := MinBound(c.points);
    var keys := GridKeys(c, size);
    var occupied := Dedup(keys);
    MeanInVoxel(c.points, origin, size, occupied[j]);
  }

  /** In a key sequence without repetitions, each entry's group is that entry alone. */
  lemma {:induction false} GroupSumSingle(vs: seq<Vec3>, keys: seq<Key>, j: nat)
    requires |vs| == |keys| && Distinct(keys) && j < |vs|
    ensures GroupSum(vs, keys, keys[j]) == vs[j]
  {
    var n := |vs| - 1;
    if j == n {
      assert keys[n] !in keys[..n];
      GroupSumAbsent(vs[..n], keys[..n], keys[n]);
    } else {
      assert keys[..n][j] == keys[j];
      GroupSumSingle(vs[..n], keys[..n], j);
    }
  }

  /** ... and so its mean is the entry itself. */
  lemma MeanSingle(vs: seq<Vec3>, keys: seq<Key>, j: nat)
    requires |vs| == |keys| && Distinct(keys) && j < |vs|
    ensures Mean(vs, keys, keys[j]) == vs[j]
  {
    GroupSumSingle(vs, keys, j);
    DistinctCount(keys, keys[j]);
    assert Mean(vs, keys, keys[j]) == Average(vs[j], 1);
  }

  /** Over keys without repetitions, the per-group means are the entries themselves. */
  lemma MeansOfDistinct(vs: seq<Vec3>, keys: seq<Key>)
    requires |vs| == |keys| && Distinct(keys)
    ensures Means(vs, keys, keys) == vs
  {
    forall j | 0 <= j < |vs| ensures Means(vs, keys, keys)[j] == vs[j] {
      MeanSingle(vs, keys, j);
    }
  }

  /**
   * When no two points share a voxel, down-sampling changes nothing but the normals, which come
   * out normalized.
   */
  lemma VoxelDistinctIdentity(c: Cloud, size: real, sqrt: real -> real)
    requires IsSqrt(sqrt) && 0.0 < size
    requires Distinct(GridKeys(c, size))
    ensures VoxelDownSample(c, size, sqrt).Ok?
    ensures VoxelDownSample(c, size, sqrt).value.points == c.points
    ensures |c.normals| == |c.points| ==> VoxelDownSample(c, size, sqrt).value.normals == NormalizeAll(c.normals, sqrt)
    ensures |c.colors| == |c.points| ==> VoxelDownSample(c, size, sqrt).value.colors == c.colors
  {
    var keys := GridKeys(c, size);
    DedupOfDistinct(keys);
    MeansOfDistinct(c.points, keys);
    if |c.normals| == |c.points| {
      MeansOfDistinct(c.normals, keys);
    }
    if |c.colors| == |c.points| {
      MeansOfDistinct(c.colors, keys);
    }
  }
}
