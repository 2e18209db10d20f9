/** The per-point labels of a clip: `false` marks a point on the near side, `true` a point
    on the far side. Covers the projection of the near/far split onto the mesh points, the
    uniform labels of a plane that leaves cells on one raw side only, and the pointwise AND
    that merges a clip's labels into the session's. */
module Labels {
  import opened Results

  /** `side_arr`: one label per point of the near region followed by one per point of the
      far region. */
  function SideArr(nNear: nat, nFar: nat): (r: seq<bool>)
    ensures |r| == nNear + nFar
    ensures forall i :: 0 <= i < |r| ==> (r[i] <==> i >= nNear)
  {
    Uniform(nNear, false) + Uniform(nFar, true)
  }

  /** `side_arr[ndx]`: the label of each mesh point is the label of the union point its
      nearest-neighbour query returned. */
  function Project(sideArr: seq<bool>, ndx: seq<nat>): (r: seq<bool>)
    requires forall p :: 0 <= p < |ndx| ==> ndx[p] < |sideArr|
    ensures |r| == |ndx|
  {
    seq(|ndx|, p requires 0 <= p < |ndx| => sideArr[ndx[p]])
  }

  /** A projected label is `true` exactly when the point's nearest union point lies in the
      far region. */
  lemma ProjectFar(nNear: nat, nFar: nat, ndx: seq<nat>)
    requires forall p :: 0 <= p < |ndx| ==> ndx[p] < nNear + nFar
    ensures |Project(SideArr(nNear, nFar), ndx)| == |ndx|
    ensures forall p :: 0 <= p < |ndx| ==> (Project(SideArr(nNear, nFar), ndx)[p] <==> ndx[p] >= nNear)
  {
  }

  /** `n` copies of `b`: `np.zeros` or `np.ones`. */
  function Uniform(n: nat, b: bool): seq<bool>
  {
    seq(n, _ => b)
  }

  /** The labels when the plane does not leave cells on both raw sides: all near when raw
      side 0 has cells, else all far when raw side 1 has cells, else none at all (the
      Python code then reads an unbound `side_array`). */
  function Fallback(n: nat, cells0: nat, cells1: nat): (r: Option<seq<bool>>)
    ensures r.None? <==> cells0 == 0 && cells1 == 0
    ensures r.Some? ==> |r.value| == n
    ensures r.Some? ==> forall i :: 0 <= i < n ==> (r.value[i] <==> cells0 == 0)
  {
    if cells0 > 0 then Some(Uniform(n, false))
    else if cells1 > 0 then Some(Uniform(n, true))
    else None
  }

  /** `np.logical_and` of two equally long label arrays. */
  function Conj(a: seq<bool>, b: seq<bool>): (r: seq<bool>)
    requires |a| == |b|
    ensures |r| == |a|
  {
    seq(|a|, i requires 0 <= i < |a| => a[i] && b[i])
  }

  /** The points labelled far. */
  function FarPoints(a: seq<bool>): set<nat>
  {
    set i: nat | i < |a| && a[i]
  }

  /** After the AND a point is far exactly when both inputs call it far: a near (`false`)
      point stays near and the far points never grow. */
  lemma ConjMeet(a: seq<bool>, b: seq<bool>)
    requires |a| == |b|
    ensures FarPoints(Conj(a, b)) == FarPoints(a) * FarPoints(b)
    ensures FarPoints(Conj(a, b)) <= FarPoints(a)
    ensures forall i :: 0 <= i < |a| && !a[i] ==> !Conj(a, b)[i]
  {
  }

  /** All-true is the unit of the AND on both sides: the first clip after the constructor or
      a reset yields its own labels, and an all-far clip leaves the array unchanged. */
  lemma ConjUnit(a: seq<bool>)
    ensures Conj(Uniform(|a|, true), a) == a
    ensures Conj(a, Uniform(|a|, true)) == a
  {
  }

  /** All-false absorbs: a clip whose plane leaves cells on raw side 0 only marks every
      point near. */
  lemma ConjZero(a: seq<bool>)
    ensures Conj(a, Uniform(|a|, false)) == Uniform(|a|, false)
  {
  }

  /** The session array after a series of clips, each ANDing in its labels. */
  function Accumulate(init: seq<bool>, clips: seq<seq<bool>>): (r: seq<bool>)
    requires forall k :: 0 <= k < |clips| ==> |clips[k]| == |init|
    ensures |r| == |init|
    decreases |clips|
  {
    if clips == [] then init
    else Conj(Accumulate(init, clips[..|clips| - 1]), clips[|clips| - 1])
  }

  /** After any series of clips a point is far exactly when it started far and every clip
      labelled it far; so the far points only ever shrink. */
  lemma {:induction false} AccumulateFar(init: seq<bool>, clips: seq<seq<bool>>)
    requires forall k :: 0 <= k < |clips| ==> |clips[k]| == |init|
    ensures forall i :: 0 <= i < |init| ==>
      (Accumulate(init, clips)[i] <==> init[i] && forall k :: 0 <= k < |clips| ==> clips[k][i])
    ensures FarPoints(Accumulate(init, clips)) <= FarPoints(init)
    decreases |clips|
  {
    if clips != [] {
      var front := clips[..|clips| - 1];
      AccumulateFar(init, front);
      forall i | 0 <= i < |init|
        ensures Accumulate(init, clips)[i] <==> init[i] && forall k :: 0 <= k < |clips| ==> clips[k][i]
      {
        assert forall k :: 0 <= k < |front| ==> front[k] == clips[k];
      }
    }
  }
}
