/** The mutable point cloud: three attribute sequences and the operations that rewrite them in place. */
module Geometry {
  import opened Vectors
  import opened Normals
  import opened Bounds
  import opened Transformation
  import opened Clouds

  /**
   * A point cloud owning its points, normals and colors. Normals and colors may be set
   * independently of the points; the operations that build a new cloud pair them up.
   */
  class PointCloud {
    var points: seq<Vec3>
    var normals: seq<Vec3>
    var colors: seq<Vec3>

    /** A new cloud holds no points, normals or colors. */
    constructor ()
      ensures points == [] && normals == [] && colors == []
      ensures IsEmpty() && !HasPoints() && !HasNormals() && !HasColors()
      ensures GetMinBound() == Zero && GetMaxBound() == Zero
    {
      points := [];
      normals := [];
      colors := [];
    }

    /** The cloud holds no points. */
    predicate IsEmpty()
      reads this
    {
      |points| == 0
    }

    /** The cloud holds at least one point. */
    predicate HasPoints()
      reads this
    {
      0 < |points|
    }

    /** Normals are present: the list is non-empty. */
    predicate HasNormals()
      reads this
    {
      0 < |normals|
    }

    /** Colors are present: the list is non-empty. */
    predicate HasColors()
      reads this
    {
      0 < |colors|
    }

    /** The component-wise minimum of the points; the zero vector when there are none. */
    function GetMinBound(): (r: Vec3)
      reads this
      ensures IsEmpty() ==> r == Zero
      ensures forall i :: 0 <= i < |points| ==> LessEq(r, points[i])
    {
      MinBound(points)
    }

    /** The component-wise maximum of the points; the zero vector when there are none. */
    function GetMaxBound(): (r: Vec3)
      reads this
      ensures IsEmpty() ==> r == Zero
      ensures forall i :: 0 <= i < |points| ==> LessEq(points[i], r)
    {
      MaxBound(points)
    }

    method SetPoints(ps: seq<Vec3>)
      modifies this
      ensures points == ps && normals == old(normals) && colors == old(colors)
      ensures IsEmpty() <==> |ps| == 0
      ensures HasPoints() <==> 0 < |ps|
    {
      points := ps;
    }

    method SetNormals(ns: seq<Vec3>)
      modifies this
      ensures normals == ns && points == old(points) && colors == old(colors)
      ensures HasNormals() <==> 0 < |ns|
    {
      normals := ns;
    }

    method SetColors(cs: seq<Vec3>)
      modifies this
      ensures colors == cs && points == old(points) && normals == old(normals)
      ensures HasColors() <==> 0 < |cs|
    {
      colors := cs;
    }

    /** Empties all three attributes. */
    method Clear()
      modifies this
      ensures points == [] && normals == [] && colors == []
      ensures IsEmpty() && !HasPoints() && !HasNormals() && !HasColors()
      ensures GetMinBound() == Zero && GetMaxBound() == Zero
    {
      points := [];
      normals := [];
      colors := [];
    }

    /**
     * Applies `m` to every point as a projective map (divide by the homogeneous coordinate)
     * and its upper-left 3x3 block to every normal; colors are untouched.
     */
    method Transform(m: Mat4)
      requires Projectable(m, points)
      modifies this
      ensures points == TransformPoints(m, old(points))
      ensures normals == TransformNormals(m, old(normals))
      ensures colors == old(colors)
    {
      var i := 0;
      while i < |points|
        invariant 0 <= i <= |points| == |old(points)|
        invariant forall j :: 0 <= j < i ==> points[j] == TransformPoint(m, old(points)[j])
        invariant points[i..] == old(points)[i..]
        invariant normals == old(normals) && colors == old(colors)
      {
        assert points[i] == old(points)[i];
        points := points[i := TransformPoint(m, points[i])];
        i := i + 1;
      }
      i := 0;
      while i < |normals|
        invariant 0 <= i <= |normals| == |old(normals)|
        invariant forall j :: 0 <= j < i ==> normals[j] == TransformNormal(m, old(normals)[j])
        invariant normals[i..] == old(normals)[i..]
        invariant points == TransformPoints(m, old(points)) && colors == old(colors)
      {
        assert normals[i] == old(normals)[i];
        normals := normals[i := TransformNormal(m, normals[i])];
        i := i + 1;
      }
    }

    /** Rescales every non-zero normal to unit length, keeping its direction; zero normals stay. */
    method NormalizeNormals(sqrt: real -> real)
      requires IsSqrt(sqrt)
      modifies this
      ensures normals == NormalizeAll(old(normals), sqrt)
      ensures forall i :: 0 <= i < |normals| && SqNorm(old(normals)[i]) != 0.0 ==>
                SqNorm(normals[i]) == 1.0 && Cross(old(normals)[i], normals[i]) == Zero
      ensures points == old(points) && colors == old(colors)
    {
      var i := 0;
      while i < |normals|
        invariant 0 <= i <= |normals| == |old(normals)|
        invariant forall j :: 0 <= j < i ==> normals[j] == Normalize(old(normals)[j], sqrt)
        invariant normals[i..] == old(normals)[i..]
        invariant points == old(points) && colors == old(colors)
      {
        assert normals[i] == old(normals)[i];
        normals := normals[i := Normalize(normals[i], sqrt)];
        i := i + 1;
      }
    }

    /** Negates every normal pointing away from `d`, so that all of them face it. */
    method OrientNormalsToAlignWithDirection(d: Vec3)
      modifies this
      ensures normals == OrientAll(old(normals), d)
      ensures forall i :: 0 <= i < |normals| ==> 0.0 <= Dot(normals[i], d)
      ensures forall i :: 0 <= i < |normals| ==> normals[i] == old(normals)[i] || normals[i] == Neg(old(normals)[i])
      ensures points == old(points) && colors == old(colors)
    {
      var i := 0;
      while i < |normals|
        invariant 0 <= i <= |normals| == |old(normals)|
        invariant forall j :: 0 <= j < i ==> normals[j] == Orient(old(normals)[j], d)
        invariant normals[i..] == old(normals)[i..]
        invariant points == old(points) && colors == old(colors)
      {
        assert normals[i] == old(normals)[i];
        normals := normals[i := Orient(normals[i], d)];
        i := i + 1;
      }
    }
  }
}
