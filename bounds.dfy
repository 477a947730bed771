/** The axis-aligned bounds of a point sequence: component-wise min and max reductions. */
module Bounds {
  import opened Vectors

  /** The component-wise minimum of `ps`; the zero vector when `ps` is empty. */
  function MinBound(ps: seq<Vec3>): (r: Vec3)
    ensures |ps| == 0 ==> r == Zero
    ensures forall i :: 0 <= i < |ps| ==> LessEq(r, ps[i])
  {
    if |ps| == 0 then Zero
    else if |ps| == 1 then ps[0]
    else MinV(ps[0], MinBound(ps[1..]))
  }

  /** The component-wise maximum of `ps`; the zero vector when `ps` is empty. */
  function MaxBound(ps: seq<Vec3>): (r: Vec3)
    ensures |ps| == 0 ==> r == Zero
    ensures forall i :: 0 <= i < |ps| ==> LessEq(ps[i], r)
  {
    if |ps| == 0 then Zero
    else if |ps| == 1 then ps[0]
    else MaxV(ps[0], MaxBound(ps[1..]))
  }

  /** Each coordinate of the minimum bound is the coordinate of some point. */
  lemma {:induction false} MinBoundAttained(ps: seq<Vec3>, a: nat) returns (i: nat)
    requires 0 < |ps| && a < 3
    ensures i < |ps| && At(MinBound(ps), a) == At(ps[i], a)
  {
    if |ps| == 1 {
      i := 0;
    } else {
      var j := MinBoundAttained(ps[1..], a);
      i := if At(MinBound(ps), a) == At(ps[0], a) then 0 else j + 1;
    }
  }

  /** Each coordinate of the maximum bound is the coordinate of some point. */
  lemma {:induction false} MaxBoundAttained(ps: seq<Vec3>, a: nat) returns (i: nat)
    requires 0 < |ps| && a < 3
    ensures i < |ps| && At(MaxBound(ps), a) == At(ps[i], a)
  {
    if |ps| == 1 {
      i := 0;
    } else {
      var j := MaxBoundAttained(ps[1..], a);
      i := if At(MaxBound(ps), a) == At(ps[0], a) then 0 else j + 1;
    }
  }

  /** The bounds are tight: no smaller box contains every point. */
  lemma BoundsAreTight(ps: seq<Vec3>, lo: Vec3, hi: Vec3)
    requires forall i :: 0 <= i < |ps| ==> LessEq(lo, ps[i]) && LessEq(ps[i], hi)
    requires 0 < |ps|
    ensures LessEq(lo, MinBound(ps)) && LessEq(MaxBound(ps), hi)
  {
    var ix := MinBoundAttained(ps, 0);
    var iy := MinBoundAttained(ps, 1);
    var iz := MinBoundAttained(ps, 2);
    var jx := MaxBoundAttained(ps, 0);
    var jy := MaxBoundAttained(ps, 1);
    var jz := MaxBoundAttained(ps, 2);
  }
}
