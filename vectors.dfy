/** Exact 3-vectors: the coordinates of points, normals and colors. */
module Vectors {

  /** A 3-vector with real coordinates (the source's single-precision floats, idealised). */
  datatype Vec3 = Vec3(x: real, y: real, z: real)

  const Zero := Vec3(0.0, 0.0, 0.0)

  /** Coordinate `a` of `v` (0 is x, 1 is y, 2 is z). */
  function At(v: Vec3, a: nat): real
    requires a < 3
  {
    if a == 0 then v.x else if a == 1 then v.y else v.z
  }

  function Add(u: Vec3, v: Vec3): Vec3 { Vec3(u.x + v.x, u.y + v.y, u.z + v.z) }

  function Scale(v: Vec3, t: real): Vec3 { Vec3(t * v.x, t * v.y, t * v.z) }

  function Neg(v: Vec3): Vec3 { Vec3(-v.x, -v.y, -v.z) }

  function Dot(u: Vec3, v: Vec3): real { u.x * v.x + u.y * v.y + u.z * v.z }

  function Cross(u: Vec3, v: Vec3): Vec3
  {
    Vec3(u.y * v.z - u.z * v.y, u.z * v.x - u.x * v.z, u.x * v.y - u.y * v.x)
  }

  /** The squared Euclidean length. */
  function SqNorm(v: Vec3): real { Dot(v, v) }

  /** Component-wise minimum and maximum, the steps of the bound reductions. */
  function MinV(u: Vec3, v: Vec3): Vec3
  {
    Vec3(if u.x <= v.x then u.x else v.x,
         if u.y <= v.y then u.y else v.y,
         if u.z <= v.z then u.z else v.z)
  }

  function MaxV(u: Vec3, v: Vec3): Vec3
  {
    Vec3(if u.x >= v.x then u.x else v.x,
         if u.y >= v.y then u.y else v.y,
         if u.z >= v.z then u.z else v.z)
  }

  /** `u` is below or equal to `v` on every axis. */
  predicate LessEq(u: Vec3, v: Vec3)
  {
    u.x <= v.x && u.y <= v.y && u.z <= v.z
  }

  /** `sqrt` is the non-negative square root on the non-negative reals. */
  ghost predicate IsSqrt(sqrt: real -> real)
  {
    forall r :: 0.0 <= r ==> 0.0 <= sqrt(r) && sqrt(r) * sqrt(r) == r
  }

  /** A squared length is never negative. */
  lemma SqNormNonNegative(v: Vec3)
    ensures 0.0 <= SqNorm(v)
  {
    SquareNonNegative(v.x);
    SquareNonNegative(v.y);
    SquareNonNegative(v.z);
  }

  lemma SquareNonNegative(r: real)
    ensures 0.0 <= r * r
  {
    if r < 0.0 {
      assert r * r == (-r) * (-r);
    }
  }

  lemma SqNormScale(v: Vec3, t: real)
    ensures SqNorm(Scale(v, t)) == t * t * SqNorm(v)
  {
  }
}
