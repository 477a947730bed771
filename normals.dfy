/** Per-normal operations: rescaling to unit length and sign alignment with a direction. */
module Normals {
  import opened Vectors

  /**
   * Rescales `n` to unit length, keeping its direction. As with Eigen's `normalize()`, a
   * vector whose squared length is zero is left as it is. The square root is a parameter.
   */
  function Normalize(n: Vec3, sqrt: real -> real): (r: Vec3)
    requires IsSqrt(sqrt)
    ensures SqNorm(n) == 0.0 ==> r == n
    ensures SqNorm(n) != 0.0 ==> SqNorm(r) == 1.0 && Cross(n, r) == Zero && 0.0 < Dot(n, r)
  {
    var sq := SqNorm(n);
    if sq == 0.0 then n
    else
      ScaledToUnit(n, sqrt);
      Scale(n, 1.0 / sqrt(sq))
  }

  /** Dividing by the length gives a unit vector pointing the same way. */
  lemma ScaledToUnit(n: Vec3, sqrt: real -> real)
    requires IsSqrt(sqrt)
    requires SqNorm(n) != 0.0
    ensures SqNorm(Scale(n, 1.0 / sqrt(SqNorm(n)))) == 1.0
    ensures Cross(n, Scale(n, 1.0 / sqrt(SqNorm(n)))) == Zero
    ensures 0.0 < Dot(n, Scale(n, 1.0 / sqrt(SqNorm(n))))
  {
    var sq := SqNorm(n);
    SqNormNonNegative(n);
    assert 0.0 < sq;
    var len := sqrt(sq);
    assert 0.0 <= len && len * len == sq;
    assert len != 0.0;
    var t := 1.0 / len;
    assert 0.0 < t;
    assert t * len == 1.0;
    SqNormScale(n, t);
    calc {
      t * t * sq;
      t * t * (len * len);
      (t * len) * (t * len);
      1.0;
    }
    assert Dot(n, Scale(n, t)) == t * sq;
    assert 0.0 < t * sq;
  }

  /** A unit vector is its own normalization. */
  lemma UnitIsNormalized(n: Vec3, sqrt: real -> real)
    requires IsSqrt(sqrt)
    requires SqNorm(n) == 1.0
    ensures Normalize(n, sqrt) == n
  {
    var s := sqrt(1.0);
    assert 0.0 <= s && s * s == 1.0;
    assert Normalize(n, sqrt) == Scale(n, 1.0 / 1.0);
  }

  /** NormalizeNormals applied twice gives what it gave once. */
  lemma NormalizeIdempotent(n: Vec3, sqrt: real -> real)
    requires IsSqrt(sqrt)
    ensures Normalize(Normalize(n, sqrt), sqrt) == Normalize(n, sqrt)
  {
    if SqNorm(n) != 0.0 {
      UnitIsNormalized(Normalize(n, sqrt), sqrt);
    }
  }

  /** Flips `n` when it points away from `d`, as OrientNormalsToAlignWithDirection does per point. */
  function Orient(n: Vec3, d: Vec3): (r: Vec3)
    ensures r == n || r == Neg(n)
    ensures 0.0 <= Dot(r, d)
    ensures r == n <==> 0.0 <= Dot(n, d) || n == Zero
  {
    if Dot(n, d) < 0.0 then Neg(n) else n
  }

  /** The normals of a cloud, each rescaled to unit length. */
  function NormalizeAll(ns: seq<Vec3>, sqrt: real -> real): (r: seq<Vec3>)
    requires IsSqrt(sqrt)
    ensures |r| == |ns|
    ensures forall i :: 0 <= i < |ns| && SqNorm(ns[i]) != 0.0 ==>
              SqNorm(r[i]) == 1.0 && Cross(ns[i], r[i]) == Zero && 0.0 < Dot(ns[i], r[i])
    ensures forall i :: 0 <= i < |ns| && SqNorm(ns[i]) == 0.0 ==> r[i] == ns[i]
  {
    seq(|ns|, i requires 0 <= i < |ns| => Normalize(ns[i], sqrt))
  }

  lemma NormalizeAllIdempotent(ns: seq<Vec3>, sqrt: real -> real)
    requires IsSqrt(sqrt)
    ensures NormalizeAll(NormalizeAll(ns, sqrt), sqrt) == NormalizeAll(ns, sqrt)
  {
    forall i | 0 <= i < |ns| {
      NormalizeIdempotent(ns[i], sqrt);
    }
  }

  /** The normals of a cloud, each flipped to the side of `d`. */
  function OrientAll(ns: seq<Vec3>, d: Vec3): (r: seq<Vec3>)
    ensures |r| == |ns|
    ensures forall i :: 0 <= i < |ns| ==> r[i] == ns[i] || r[i] == Neg(ns[i])
    ensures forall i :: 0 <= i < |ns| ==> 0.0 <= Dot(r[i], d)
    ensures forall i :: 0 <= i < |ns| && 0.0 <= Dot(ns[i], d) ==> r[i] == ns[i]
  {
    seq(|ns|, i requires 0 <= i < |ns| => Orient(ns[i], d))
  }
}
