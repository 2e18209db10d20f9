/** The clipping session: the per-point `Side` label array of the clipped mesh, created
    all far, ANDed with the labels of each clip and reset to all far before an interactive
    re-clip. */
module Session {
  import opened Results
  import opened Numbering
  import opened Anchors
  import opened Resolver
  import opened Labels

  /** What the geometry library reports for one cutting plane. */
  datatype Geometry = Geometry(
    cells0: nat,                                // cells on raw side 0 of the naive clip
    cells1: nat,                                // cells on raw side 1 of the naive clip
    dists0: seq<real>,                          // per raw side-0 body, least distance to the origin
    dists1: seq<real>,                          // per raw side-1 body, least distance to the origin
    merged: (nat, nat) -> nat,                  // bodies found after merging sections i and j
    regionPoints: seq<nat> -> nat,              // points of the merged, cleaned region of some sections
    nearest: (seq<nat>, seq<nat>, nat) -> nat)  // union index nearest to mesh point p, given near and far ids

  /** The reports the clip relies on: a region made of at least one section has points, and
      a nearest-neighbour query into a non-empty union answers an index of that union. */
  ghost predicate Sound(geo: Geometry)
  {
    (forall ids :: |ids| > 0 ==> geo.regionPoints(ids) > 0) &&
    (forall near, far, p ::
       geo.regionPoints(near) + geo.regionPoints(far) > 0 ==>
       geo.nearest(near, far, p) < geo.regionPoints(near) + geo.regionPoints(far))
  }

  /** The labels of the both-sides branch for `n` mesh points: a point is far exactly when
      its nearest union point lies in the far region. */
  function Projected(geo: Geometry, part: Partition, n: nat): (r: seq<bool>)
    requires Sound(geo) && |part.near| > 0
    ensures |r| == n
    ensures forall q :: 0 <= q < n ==>
      (r[q] <==> geo.nearest(part.near, part.far, q) >= geo.regionPoints(part.near))
  {
    var nNear := geo.regionPoints(part.near);
    var nFar := geo.regionPoints(part.far);
    var ndx := seq(n, q requires 0 <= q < n => geo.nearest(part.near, part.far, q));
    ProjectFar(nNear, nFar, ndx);
    Project(SideArr(nNear, nFar), ndx)
  }

  /** The `side_array` a clip computes for `n` mesh points, or the error it raises. */
  function ClipLabels(geo: Geometry, n: nat): (r: Result<seq<bool>, ClipError>)
    requires Sound(geo)
    ensures r.Ok? ==> |r.value| == n
    ensures r == Err(NoCells) <==> geo.cells0 == 0 && geo.cells1 == 0
    ensures geo.cells0 > 0 && geo.cells1 == 0 ==> r == Ok(Uniform(n, false))
    ensures geo.cells0 == 0 && geo.cells1 > 0 ==> r == Ok(Uniform(n, true))
    ensures geo.cells0 > 0 && geo.cells1 > 0 ==>
      var res := Resolve(Sections(geo.dists0, geo.dists1), geo.merged);
      (res.Err? ==> r == Err(res.error)) &&
      (res.Ok? ==> r.Ok? && forall q :: 0 <= q < n ==>
         (r.value[q] <==> geo.nearest(res.value.near, res.value.far, q) >= geo.regionPoints(res.value.near)))
  {
    if geo.cells0 > 0 && geo.cells1 > 0 then
      var res := Resolve(Sections(geo.dists0, geo.dists1), geo.merged);
      if res.Err? then Err(res.error) else Ok(Projected(geo, res.value, n))
    else
      var f := Fallback(n, geo.cells0, geo.cells1);
      if f.None? then Err(NoCells) else Ok(f.value)
  }

  lemma ClipFails(geo: Geometry, n: nat)
    requires Sound(geo) && geo.cells0 > 0 && geo.cells1 > 0
    requires Resolve(Sections(geo.dists0, geo.dists1), geo.merged).Err?
    ensures ClipLabels(geo, n) == Err(Resolve(Sections(geo.dists0, geo.dists1), geo.merged).error)
  {
  }

  lemma ClipSucceeds(geo: Geometry, n: nat, part: Partition)
    requires Sound(geo) && geo.cells0 > 0 && geo.cells1 > 0
    requires Resolve(Sections(geo.dists0, geo.dists1), geo.merged) == Ok(part)
    ensures |part.near| > 0
    ensures ClipLabels(geo, n) == Ok(Projected(geo, part, n))
  {
  }

  /** The both-sides branch and the fallback of `clip`, up to the `side_array` they leave. */
  method SideArray(geo: Geometry, n: nat) returns (r: Result<seq<bool>, ClipError>)
    requires Sound(geo)
    ensures r == ClipLabels(geo, n)
  {
    if geo.cells0 > 0 && geo.cells1 > 0 {
      var res := NearFar(geo.dists0, geo.dists1, geo.merged);
      if res.Err? {
        ClipFails(geo, n);
        return Err(res.error);
      }
      ClipSucceeds(geo, n, res.value);
      r := Ok(Projected(geo, res.value, n));
    } else if geo.cells0 > 0 {
      r := Ok(Uniform(n, false));
    } else if geo.cells1 > 0 {
      r := Ok(Uniform(n, true));
    } else {
      r := Err(NoCells);
    }
  }

  class TubeClipper {
    /** `clipped.point_arrays['Side']`: `true` marks a far point, `false` a near one. */
    var side: array<bool>

    /** The session starts with every mesh point far. */
    constructor (nPoints: nat)
      ensures fresh(side)
      ensures side[..] == Uniform(nPoints, true)
    {
      side := new bool[nPoints](_ => true);
    }

    /** The reset at the start of `_update`: every point far again. */
    method Reset()
      modifies side
      ensures side[..] == Uniform(side.Length, true)
    {
      for i := 0 to side.Length
        invariant forall j :: 0 <= j < i ==> side[j]
      {
        side[i] := true;
      }
    }

    /** `Side = logical_and(Side, sideArray)`, point by point. */
    method AndIn(sideArray: seq<bool>)
      requires |sideArray| == side.Length
      modifies side
      ensures side[..] == Conj(old(side[..]), sideArray)
    {
      for i := 0 to side.Length
        invariant forall j :: 0 <= j < i ==> side[j] == (old(side[j]) && sideArray[j])
        invariant forall j :: i <= j < side.Length ==> side[j] == old(side[j])
      {
        side[i] := side[i] && sideArray[i];
      }
    }

    /** `clip`: compute the labels of the plane and AND them into the session; when the
        Python code raises, report the error and leave the session as it was. */
    method Clip(geo: Geometry) returns (err: Option<ClipError>)
      requires Sound(geo)
      modifies side
      ensures ClipLabels(geo, side.Length).Ok? ==>
        err.None? && side[..] == Conj(old(side[..]), ClipLabels(geo, side.Length).value)
      ensures ClipLabels(geo, side.Length).Err? ==>
        err == Some(ClipLabels(geo, side.Length).error) && side[..] == old(side[..])
    {
      var res := SideArray(geo, side.Length);
      if res.Err? {
        return Some(res.error);
      }
      AndIn(res.value);
      err := None;
    }

    /** `_update`: reset every point to far, then clip; on success the session holds exactly
        the clip's labels. */
    method Update(geo: Geometry) returns (err: Option<ClipError>)
      requires Sound(geo)
      modifies side
      ensures ClipLabels(geo, side.Length).Ok? ==>
        err.None? && side[..] == ClipLabels(geo, side.Length).value
      ensures ClipLabels(geo, side.Length).Err? ==>
        err == Some(ClipLabels(geo, side.Length).error) && side[..] == Uniform(side.Length, true)
    {
      Reset();
      err := Clip(geo);
      if err.None? {
        ConjUnit(ClipLabels(geo, side.Length).value);
      }
    }
  }
}
