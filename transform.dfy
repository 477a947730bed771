/** The 4x4 transformation applied to points (with perspective division) and to normals (linear part only). */
module Transformation {
  import opened Vectors

  datatype Vec4 = Vec4(x: real, y: real, z: real, w: real)

  /** A 4x4 matrix, stored by rows. */
  datatype Mat4 = Mat4(r0: Vec4, r1: Vec4, r2: Vec4, r3: Vec4)

  function Dot4(u: Vec4, v: Vec4): real { u.x * v.x + u.y * v.y + u.z * v.z + u.w * v.w }

  /** The matrix-vector product `m * v`. */
  function Apply(m: Mat4, v: Vec4): Vec4
  {
    Vec4(Dot4(m.r0, v), Dot4(m.r1, v), Dot4(m.r2, v), Dot4(m.r3, v))
  }

  function Transpose(m: Mat4): Mat4
  {
    Mat4(Vec4(m.r0.x, m.r1.x, m.r2.x, m.r3.x),
         Vec4(m.r0.y, m.r1.y, m.r2.y, m.r3.y),
         Vec4(m.r0.z, m.r1.z, m.r2.z, m.r3.z),
         Vec4(m.r0.w, m.r1.w, m.r2.w, m.r3.w))
  }

  /** The matrix product `a * b`: row i of the product is row i of `a` times `b`. */
  function Mul(a: Mat4, b: Mat4): Mat4
  {
    var bt := Transpose(b);
    Mat4(Apply(bt, a.r0), Apply(bt, a.r1), Apply(bt, a.r2), Apply(bt, a.r3))
  }

  /** The homogeneous coordinates [p; 1] of a point. */
  function Homogeneous(p: Vec3): Vec4 { Vec4(p.x, p.y, p.z, 1.0) }

  /** The last coordinate of `m * [p; 1]`, by which the transformed point is divided. */
  function HomW(m: Mat4, p: Vec3): real { Dot4(m.r3, Homogeneous(p)) }

  /** A point: `m * [p; 1]` projected back to three dimensions by dividing by its last coordinate. */
  function TransformPoint(m: Mat4, p: Vec3): Vec3
    requires HomW(m, p) != 0.0
  {
    Project(Apply(m, Homogeneous(p)))
  }

  /** Back from homogeneous coordinates: divide by the last coordinate. */
  function Project(v: Vec4): Vec3
    requires v.w != 0.0
  {
    Vec3(v.x / v.w, v.y / v.w, v.z / v.w)
  }

  /** A normal: the top-left 3x3 block of `m` times `n`; no translation, no division, no rescaling. */
  function TransformNormal(m: Mat4, n: Vec3): Vec3
  {
    Vec3(m.r0.x * n.x + m.r0.y * n.y + m.r0.z * n.z,
         m.r1.x * n.x + m.r1.y * n.y + m.r1.z * n.z,
         m.r2.x * n.x + m.r2.y * n.y + m.r2.z * n.z)
  }

  /** The translation column of `m`. */
  function Translation(m: Mat4): Vec3 { Vec3(m.r0.w, m.r1.w, m.r2.w) }

  /** `m` has no projective part: its last row is (0, 0, 0, 1). */
  predicate IsAffine(m: Mat4) { m.r3 == Vec4(0.0, 0.0, 0.0, 1.0) }

  /** Every point of `ps` has a non-zero homogeneous coordinate under `m`. */
  predicate Projectable(m: Mat4, ps: seq<Vec3>)
  {
    forall i :: 0 <= i < |ps| ==> HomW(m, ps[i]) != 0.0
  }

  function TransformPoints(m: Mat4, ps: seq<Vec3>): (r: seq<Vec3>)
    requires Projectable(m, ps)
    ensures |r| == |ps|
    ensures forall i :: 0 <= i < |ps| ==> r[i] == TransformPoint(m, ps[i])
  {
    seq(|ps|, i requires 0 <= i < |ps| && Projectable(m, ps) => TransformPoint(m, ps[i]))
  }

  function TransformNormals(m: Mat4, ns: seq<Vec3>): (r: seq<Vec3>)
    ensures |r| == |ns|
    ensures forall i :: 0 <= i < |ns| ==> r[i] == TransformNormal(m, ns[i])
  {
    seq(|ns|, i requires 0 <= i < |ns| => TransformNormal(m, ns[i]))
  }

  lemma Distribute(c: real, a: real, b: real, d: real, e: real)
    ensures c * (a + b + d + e) == c * a + c * b + c * d + c * e
  {
  }

  /** The sum over i, j of row_i * b_ij * v_j, the common expansion of both sides of RowAssociative. */
  function TripleSum(row: Vec4, b: Mat4, v: Vec4): real
  {
    row.x * b.r0.x * v.x + row.x * b.r0.y * v.y +
      row.x * b.r0.z * v.z + row.x * b.r0.w * v.w +
      row.y * b.r1.x * v.x + row.y * b.r1.y * v.y +
      row.y * b.r1.z * v.z + row.y * b.r1.w * v.w +
      row.z * b.r2.x * v.x + row.z * b.r2.y * v.y +
      row.z * b.r2.z * v.z + row.z * b.r2.w * v.w +
      row.w * b.r3.x * v.x + row.w * b.r3.y * v.y +
      row.w * b.r3.z * v.z + row.w * b.r3.w * v.w
  }

  lemma ExpandColumns(row: Vec4, b: Mat4, v: Vec4)
    ensures Dot4(Apply(Transpose(b), row), v) == TripleSum(row, b, v)
  {
    Distribute(v.x, b.r0.x * row.x, b.r1.x * row.y, b.r2.x * row.z, b.r3.x * row.w);
    Distribute(v.y, b.r0.y * row.x, b.r1.y * row.y, b.r2.y * row.z, b.r3.y * row.w);
    Distribute(v.z, b.r0.z * row.x, b.r1.z * row.y, b.r2.z * row.z, b.r3.z * row.w);
    Distribute(v.w, b.r0.w * row.x, b.r1.w * row.y, b.r2.w * row.z, b.r3.w * row.w);
    Reassociate(v.x, b.r0.x, row.x);
    Reassociate(v.y, b.r0.y, row.x);
    Reassociate(v.z, b.r0.z, row.x);
    Reassociate(v.w, b.r0.w, row.x);
    Reassociate(v.x, b.r1.x, row.y);
    Reassociate(v.y, b.r1.y, row.y);
    Reassociate(v.z, b.r1.z, row.y);
    Reassociate(v.w, b.r1.w, row.y);
    Reassociate(v.x, b.r2.x, row.z);
    Reassociate(v.y, b.r2.y, row.z);
    Reassociate(v.z, b.r2.z, row.z);
    Reassociate(v.w, b.r2.w, row.z);
    Reassociate(v.x, b.r3.x, row.w);
    Reassociate(v.y, b.r3.y, row.w);
    Reassociate(v.z, b.r3.z, row.w);
    Reassociate(v.w, b.r3.w, row.w);
  }

  lemma ExpandRows(row: Vec4, b: Mat4, v: Vec4)
    ensures Dot4(row, Apply(b, v)) == TripleSum(row, b, v)
  {
    Distribute(row.x, b.r0.x * v.x, b.r0.y * v.y, b.r0.z * v.z, b.r0.w * v.w);
    Distribute(row.y, b.r1.x * v.x, b.r1.y * v.y, b.r1.z * v.z, b.r1.w * v.w);
    Distribute(row.z, b.r2.x * v.x, b.r2.y * v.y, b.r2.z * v.z, b.r2.w * v.w);
    Distribute(row.w, b.r3.x * v.x, b.r3.y * v.y, b.r3.z * v.z, b.r3.w * v.w);
    Regroup(row.x, b.r0.x, v.x);
    Regroup(row.x, b.r0.y, v.y);
    Regroup(row.x, b.r0.z, v.z);
    Regroup(row.x, b.r0.w, v.w);
    Regroup(row.y, b.r1.x, v.x);
    Regroup(row.y, b.r1.y, v.y);
    Regroup(row.y, b.r1.z, v.z);
    Regroup(row.y, b.r1.w, v.w);
    Regroup(row.z, b.r2.x, v.x);
    Regroup(row.z, b.r2.y, v.y);
    Regroup(row.z, b.r2.z, v.z);
    Regroup(row.z, b.r2.w, v.w);
    Regroup(row.w, b.r3.x, v.x);
    Regroup(row.w, b.r3.y, v.y);
    Regroup(row.w, b.r3.z, v.z);
    Regroup(row.w, b.r3.w, v.w);
  }

  lemma Reassociate(c: real, m: real, a: real)
    ensures c * (m * a) == a * m * c
  {
  }

  lemma Regroup(a: real, m: real, c: real)
    ensures a * (m * c) == a * m * c
  {
  }

  /** Row `row` of a product `row * b`, applied to `v`, is `row` applied to `b * v`. */
  lemma RowAssociative(row: Vec4, b: Mat4, v: Vec4)
    ensures Dot4(Apply(Transpose(b), row), v) == Dot4(row, Apply(b, v))
  {
    ExpandColumns(row, b, v);
    ExpandRows(row, b, v);
  }

  /** The product of matrices acts as the composition of their actions. */
  lemma ApplyMul(a: Mat4, b: Mat4, v: Vec4)
    ensures Apply(Mul(a, b), v) == Apply(a, Apply(b, v))
  {
    RowAssociative(a.r0, b, v);
    RowAssociative(a.r1, b, v);
    RowAssociative(a.r2, b, v);
    RowAssociative(a.r3, b, v);
  }

  /** A matrix applied to `t * v` gives `t` times the matrix applied to `v`. */
  lemma ApplyScale(m: Mat4, v: Vec4, t: real)
    ensures Apply(m, ScaleVec4(v, t)) == ScaleVec4(Apply(m, v), t)
  {
    RowScale(m.r0, v, t);
    RowScale(m.r1, v, t);
    RowScale(m.r2, v, t);
    RowScale(m.r3, v, t);
  }

  lemma RowScale(row: Vec4, v: Vec4, t: real)
    ensures Dot4(row, ScaleVec4(v, t)) == t * Dot4(row, v)
  {
    Distribute(t, row.x * v.x, row.y * v.y, row.z * v.z, row.w * v.w);
    Commute(row.x, t, v.x);
    Commute(row.y, t, v.y);
    Commute(row.z, t, v.z);
    Commute(row.w, t, v.w);
  }

  lemma Commute(a: real, t: real, c: real)
    ensures a * (t * c) == t * (a * c)
  {
  }

  function ScaleVec4(v: Vec4, t: real): Vec4 { Vec4(t * v.x, t * v.y, t * v.z, t * v.w) }

  lemma DivideIsScale(a: real, w: real)
    requires w != 0.0
    ensures a / w == (1.0 / w) * a
  {
  }

  /**
   * The transformed point is the transformed normal of the same vector plus the translation,
   * divided by the homogeneous coordinate (the relation between the Transform fixture's
   * points and normals, which start out equal).
   */
  lemma PointIsNormalPlusTranslation(m: Mat4, p: Vec3)
    requires HomW(m, p) != 0.0
    ensures TransformPoint(m, p) == Scale(Add(TransformNormal(m, p), Translation(m)), 1.0 / HomW(m, p))
  {
    var w := HomW(m, p);
    var v := Apply(m, Homogeneous(p));
    var n := TransformNormal(m, p);
    assert v.w == w;
    assert v.x == n.x + m.r0.w * 1.0 && v.y == n.y + m.r1.w * 1.0 && v.z == n.z + m.r2.w * 1.0;
    assert Add(n, Translation(m)) == Vec3(v.x, v.y, v.z);
    DivideIsScale(v.x, w);
    DivideIsScale(v.y, w);
    DivideIsScale(v.z, w);
  }

  /** Transforming a point by `m1` and then by `m2` is transforming it once by `m2 * m1`. */
  lemma TransformPointCompose(m1: Mat4, m2: Mat4, p: Vec3)
    requires HomW(m1, p) != 0.0
    requires HomW(m2, TransformPoint(m1, p)) != 0.0
    ensures HomW(Mul(m2, m1), p) != 0.0
    ensures TransformPoint(m2, TransformPoint(m1, p)) == TransformPoint(Mul(m2, m1), p)
  {
    var v := Apply(m1, Homogeneous(p));
    var t := 1.0 / v.w;
    HomogeneousOfProject(v);
    ApplyScale(m2, v, t);
    ApplyMul(m2, m1, Homogeneous(p));
    ProjectScaled(Apply(m2, v), t);
  }

  /** Returning to homogeneous coordinates after projecting divides by the last coordinate. */
  lemma HomogeneousOfProject(v: Vec4)
    requires v.w != 0.0
    ensures Homogeneous(Project(v)) == ScaleVec4(v, 1.0 / v.w)
  {
    DivideIsScale(v.x, v.w);
    DivideIsScale(v.y, v.w);
    DivideIsScale(v.z, v.w);
    UnitQuotient(v.w);
  }

  /** Projection ignores a common non-zero factor. */
  lemma ProjectScaled(u: Vec4, t: real)
    requires t * u.w != 0.0
    ensures u.w != 0.0
    ensures Project(ScaleVec4(u, t)) == Project(u)
  {
    QuotientScale(u.x, u.w, t);
    QuotientScale(u.y, u.w, t);
    QuotientScale(u.z, u.w, t);
  }

  lemma UnitQuotient(w: real)
    requires w != 0.0
    ensures (1.0 / w) * w == 1.0
  {
  }

  lemma QuotientScale(a: real, b: real, t: real)
    requires t * b != 0.0
    ensures b != 0.0
    ensures (t * a) / (t * b) == a / b
  {
  }

  /** For an affine first transformation, normals compose the same way. */
  lemma TransformNormalCompose(m1: Mat4, m2: Mat4, n: Vec3)
    requires IsAffine(m1)
    ensures TransformNormal(m2, TransformNormal(m1, n)) == TransformNormal(Mul(m2, m1), n)
  {
    var h := Direction(n);
    var t := TransformNormal(m1, n);
    NormalIsApply(m1, n);
    assert Apply(m1, h) == Direction(t);
    ApplyMul(m2, m1, h);
    NormalIsApply(m2, t);
    NormalIsApply(Mul(m2, m1), n);
  }

  /** A direction in homogeneous coordinates: last coordinate 0, so translation does not act on it. */
  function Direction(n: Vec3): Vec4 { Vec4(n.x, n.y, n.z, 0.0) }

  /** Transforming a normal is applying the whole matrix to it as a direction and dropping w. */
  lemma NormalIsApply(m: Mat4, n: Vec3)
    ensures TransformNormal(m, n) == Vec3(Apply(m, Direction(n)).x, Apply(m, Direction(n)).y, Apply(m, Direction(n)).z)
    ensures Apply(m, Direction(n)).w == m.r3.x * n.x + m.r3.y * n.y + m.r3.z * n.z
  {
  }

  /** Transform composes on whole point sequences. */
  lemma TransformPointsCompose(m1: Mat4, m2: Mat4, ps: seq<Vec3>)
    requires Projectable(m1, ps)
    requires Projectable(m2, TransformPoints(m1, ps))
    ensures Projectable(Mul(m2, m1), ps)
    ensures TransformPoints(m2, TransformPoints(m1, ps)) == TransformPoints(Mul(m2, m1), ps)
  {
    forall i | 0 <= i < |ps|
      ensures HomW(Mul(m2, m1), ps[i]) != 0.0 &&
              TransformPoint(m2, TransformPoint(m1, ps[i])) == TransformPoint(Mul(m2, m1), ps[i])
    {
      assert TransformPoints(m1, ps)[i] == TransformPoint(m1, ps[i]);
      TransformPointCompose(m1, m2, ps[i]);
    }
  }

  /** Transform composes on whole normal sequences when the first transformation is affine. */
  lemma TransformNormalsCompose(m1: Mat4, m2: Mat4, ns: seq<Vec3>)
    requires IsAffine(m1)
    ensures TransformNormals(m2, TransformNormals(m1, ns)) == TransformNormals(Mul(m2, m1), ns)
  {
    forall i | 0 <= i < |ns| {
      TransformNormalCompose(m1, m2, ns[i]);
    }
  }
}
