/** Numbering of the bodies produced by the naive plane split (TubeClipper.clip). */
module Numbering {

  /** One connected body of a raw side: the raw side it came from (0 behind the plane,
      1 in front of it), its identifier, and the least distance from the reference point
      to any of its points (the geometry that yields that distance is not modelled). */
  datatype Body = Body(side: nat, id: nat, dist: real)

  /** The bodies of one raw side, in the order the split listed them, tagged with `side`
      and numbered consecutively from `start`. */
  function Numbered(dists: seq<real>, side: nat, start: nat): (r: seq<Body>)
    ensures |r| == |dists|
    decreases |dists|
  {
    if dists == [] then []
    else Numbered(dists[..|dists| - 1], side, start) + [Body(side, start + |dists| - 1, dists[|dists| - 1])]
  }

  /** The section list: side-0 bodies first, then side-1 bodies, with one running counter. */
  function Sections(dists0: seq<real>, dists1: seq<real>): (r: seq<Body>)
    ensures |r| == |dists0| + |dists1|
  {
    Numbered(dists0, 0, 0) + Numbered(dists1, 1, |dists0|)
  }

  lemma {:induction false} NumberedAt(dists: seq<real>, side: nat, start: nat, k: nat)
    requires k < |dists|
    ensures Numbered(dists, side, start)[k] == Body(side, start + k, dists[k])
    decreases |dists|
  {
    if k < |dists| - 1 {
      NumberedAt(dists[..|dists| - 1], side, start, k);
    }
  }

  /** Every body's identifier is its index in the section list. */
  predicate WellNumbered(sections: seq<Body>)
  {
    forall i :: 0 <= i < |sections| ==> sections[i].id == i
  }

  /** Every body's identifier is its index in the section list; side-0 bodies occupy the
      first |dists0| places and side-1 bodies the rest, each carrying its own distance. */
  lemma SectionsNumbered(dists0: seq<real>, dists1: seq<real>)
    ensures WellNumbered(Sections(dists0, dists1))
    ensures var s := Sections(dists0, dists1);
      forall i :: 0 <= i < |s| ==>
        s[i].id == i &&
        s[i].side == (if i < |dists0| then 0 else 1) &&
        s[i].dist == (if i < |dists0| then dists0[i] else dists1[i - |dists0|])
  {
    var s := Sections(dists0, dists1);
    forall i | 0 <= i < |s|
      ensures s[i].id == i && s[i].side == (if i < |dists0| then 0 else 1)
      ensures s[i].dist == (if i < |dists0| then dists0[i] else dists1[i - |dists0|])
    {
      if i < |dists0| {
        NumberedAt(dists0, 0, 0, i);
      } else {
        NumberedAt(dists1, 1, |dists0|, i - |dists0|);
      }
    }
  }

  /** Every side-0 identifier is below every side-1 identifier. */
  lemma SideZeroFirst(dists0: seq<real>, dists1: seq<real>)
    ensures var s := Sections(dists0, dists1);
      forall i, j :: 0 <= i < |s| && 0 <= j < |s| && s[i].side == 0 && s[j].side == 1 ==> s[i].id < s[j].id
  {
    SectionsNumbered(dists0, dists1);
  }

  /** The two numbering loops: the side-0 bodies are tagged in order, the side-1 bodies are
      tagged and appended, and one counter supplies the identifiers. */
  method NumberBodies(dists0: seq<real>, dists1: seq<real>) returns (sections: seq<Body>)
    ensures sections == Sections(dists0, dists1)
  {
    sections := [];
    var id: nat := 0;
    for i := 0 to |dists0|
      invariant id == i
      invariant sections == Numbered(dists0[..i], 0, 0)
    {
      assert dists0[..i + 1][..i] == dists0[..i];
      sections := sections + [Body(0, id, dists0[i])];
      id := id + 1;
    }
    assert dists0[..|dists0|] == dists0;
    ghost var front: seq<Body> := [];
    for i := 0 to |dists1|
      invariant id == |dists0| + i
      invariant front == Numbered(dists1[..i], 1, |dists0|)
      invariant sections == Numbered(dists0, 0, 0) + front
    {
      assert dists1[..i + 1][..i] == dists1[..i];
      front := front + [Body(1, id, dists1[i])];
      sections := sections + [Body(1, id, dists1[i])];
      id := id + 1;
    }
    assert dists1[..|dists1|] == dists1;
  }
}
