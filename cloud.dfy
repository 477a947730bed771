/** A point cloud as a value, the input and output of the operations that build a new cloud. */
module Clouds {
  import opened Vectors
  import opened Sequences

  /** Points with per-point normals and colors; an attribute is present when it is non-empty. */
  datatype Cloud = Cloud(points: seq<Vec3>, normals: seq<Vec3>, colors: seq<Vec3>)

  datatype Error = InvalidArgument | IndexOutOfRange

  datatype Result<T> = Ok(value: T) | Err(error: Error)

  /** Normals and colors are each either absent or index-aligned with the points. */
  predicate WellFormed(c: Cloud)
  {
    && (|c.normals| == 0 || |c.normals| == |c.points|)
    && (|c.colors| == 0 || |c.colors| == |c.points|)
  }

  /** `attr` gathered along `idx` when it is paired with the `n` points; dropped otherwise. */
  function Carry(attr: seq<Vec3>, n: nat, idx: seq<nat>): seq<Vec3>
    requires InRange(idx, n)
  {
    if |attr| == n then Gather(attr, idx) else []
  }

  /**
   * The cloud made of the entries of `c` at positions `idx`: its points, and its normals and
   * colors where they are paired with the points.
   */
  function SubCloud(c: Cloud, idx: seq<nat>): (r: Cloud)
    requires InRange(idx, |c.points|)
    ensures WellFormed(r)
    ensures |r.points| == |idx|
    ensures forall j :: 0 <= j < |idx| ==> r.points[j] == c.points[idx[j]]
    ensures |c.normals| == |c.points| ==>
              |r.normals| == |idx| && forall j :: 0 <= j < |idx| ==> r.normals[j] == c.normals[idx[j]]
    ensures |c.normals| != |c.points| ==> r.normals == []
    ensures |c.colors| == |c.points| ==>
              |r.colors| == |idx| && forall j :: 0 <= j < |idx| ==> r.colors[j] == c.colors[idx[j]]
    ensures |c.colors| != |c.points| ==> r.colors == []
  {
    var n := |c.points|;
    Cloud(Gather(c.points, idx), Carry(c.normals, n, idx), Carry(c.colors, n, idx))
  }
}
