/** Choice of `root` and `nearest_far_side`: on each raw side, the first body whose least
    distance to the reference point is smallest (np.argmin over that side's bodies). */
module Anchors {
  import opened Results
  import opened Numbering

  /** The bodies of `sections` that came from raw side `side`, in section order. */
  function OnSide(sections: seq<Body>, side: nat): (r: seq<Body>)
    ensures forall b :: b in r ==> b in sections && b.side == side
    decreases |sections|
  {
    if sections == [] then []
    else
      var last := sections[|sections| - 1];
      OnSide(sections[..|sections| - 1], side) + (if last.side == side then [last] else [])
  }

  function Dists(bodies: seq<Body>): seq<real>
  {
    seq(|bodies|, i requires 0 <= i < |bodies| => bodies[i].dist)
  }

  /** np.argmin: the first index holding the least value. */
  function FirstArgMin(ds: seq<real>): (k: nat)
    requires |ds| > 0
    ensures k < |ds|
    ensures forall j :: 0 <= j < |ds| ==> ds[k] <= ds[j]
    ensures forall j :: 0 <= j < k ==> ds[k] < ds[j]
    decreases |ds|
  {
    if |ds| == 1 then 0
    else
      var k := FirstArgMin(ds[..|ds| - 1]);
      if ds[|ds| - 1] < ds[k] then |ds| - 1 else k
  }

  /** The filter keeps every section of the requested side, and nothing else. */
  lemma {:induction false} OnSideExact(sections: seq<Body>, side: nat)
    ensures forall b :: b in OnSide(sections, side) <==> b in sections && b.side == side
    decreases |sections|
  {
    if sections != [] {
      var init := sections[..|sections| - 1];
      OnSideExact(init, side);
      assert sections == init + [sections[|sections| - 1]];
    }
  }

  /** The identifier of the first body of least distance, or None for no bodies. */
  function NearestId(bodies: seq<Body>): Option<nat>
  {
    if bodies == [] then None else Some(bodies[FirstArgMin(Dists(bodies))].id)
  }

  /** The identifier of the anchor body of raw side `side`, or None where `clip` raises
      because np.argmin is given an empty list. */
  function Anchor(sections: seq<Body>, side: nat): (r: Option<nat>)
    ensures r.None? <==> OnSide(sections, side) == []
  {
    NearestId(OnSide(sections, side))
  }

  /** A side has no anchor exactly when no section is on it; otherwise the anchor is the
      identifier of a section of that side whose least distance to the reference point is
      least among the sections of that side. */
  lemma AnchorIsLeast(sections: seq<Body>, side: nat)
    ensures Anchor(sections, side).None? <==> forall i :: 0 <= i < |sections| ==> sections[i].side != side
    ensures Anchor(sections, side).Some? ==>
            exists i :: 0 <= i < |sections| && sections[i].side == side &&
                        sections[i].id == Anchor(sections, side).value &&
                        forall j :: 0 <= j < |sections| && sections[j].side == side ==>
                                      sections[i].dist <= sections[j].dist
  {
    var bodies := OnSide(sections, side);
    OnSideExact(sections, side);
    if bodies == [] {
      forall i | 0 <= i < |sections| ensures sections[i].side != side {
        assert sections[i] in sections;
      }
      return;
    }
    var k := FirstArgMin(Dists(bodies));
    assert bodies[k] in sections;
    var i :| 0 <= i < |sections| && sections[i] == bodies[k];
    forall j | 0 <= j < |sections| && sections[j].side == side
      ensures sections[i].dist <= sections[j].dist
    {
      assert sections[j] in bodies;
      var m :| 0 <= m < |bodies| && bodies[m] == sections[j];
      assert Dists(bodies)[k] <= Dists(bodies)[m];
    }
  }

  /** In a well-numbered section list the two anchors are distinct section indices. */
  lemma AnchorsApart(sections: seq<Body>, root: nat, nearestFar: nat)
    requires WellNumbered(sections)
    requires Anchor(sections, 0) == Some(root) && Anchor(sections, 1) == Some(nearestFar)
    ensures root != nearestFar && root < |sections| && nearestFar < |sections|
  {
    AnchorIsLeast(sections, 0);
    AnchorIsLeast(sections, 1);
  }

  lemma {:induction false} OnSideConcat(a: seq<Body>, b: seq<Body>, side: nat)
    ensures OnSide(a + b, side) == OnSide(a, side) + OnSide(b, side)
    decreases |b|
  {
    if b != [] {
      assert (a + b)[..|a + b| - 1] == a + b[..|b| - 1];
      OnSideConcat(a, b[..|b| - 1], side);
    } else {
      assert a + b == a;
    }
  }

  lemma {:induction false} OnSideNumbered(dists: seq<real>, side: nat, start: nat, other: nat)
    requires other != side
    ensures OnSide(Numbered(dists, side, start), side) == Numbered(dists, side, start)
    ensures OnSide(Numbered(dists, side, start), other) == []
    decreases |dists|
  {
    if dists != [] {
      var n := Numbered(dists, side, start);
      assert n[..|n| - 1] == Numbered(dists[..|dists| - 1], side, start);
      OnSideNumbered(dists[..|dists| - 1], side, start, other);
    }
  }

  lemma DistsNumbered(dists: seq<real>, side: nat, start: nat)
    ensures Dists(Numbered(dists, side, start)) == dists
  {
    forall k | 0 <= k < |dists| ensures Numbered(dists, side, start)[k].dist == dists[k] {
      NumberedAt(dists, side, start, k);
    }
  }

  lemma NearestIdNumbered(dists: seq<real>, side: nat, start: nat)
    ensures NearestId(Numbered(dists, side, start)) == if dists == [] then None else Some(start + FirstArgMin(dists))
  {
    if dists != [] {
      DistsNumbered(dists, side, start);
      NumberedAt(dists, side, start, FirstArgMin(dists));
    }
  }

  /** Filtering the section list by side gives back the bodies of that side, numbered. */
  lemma OnSideOfSections(dists0: seq<real>, dists1: seq<real>)
    ensures OnSide(Sections(dists0, dists1), 0) == Numbered(dists0, 0, 0)
    ensures OnSide(Sections(dists0, dists1), 1) == Numbered(dists1, 1, |dists0|)
  {
    var n0, n1 := Numbered(dists0, 0, 0), Numbered(dists1, 1, |dists0|);
    OnSideNumbered(dists0, 0, 0, 1);
    OnSideNumbered(dists1, 1, |dists0|, 0);
    OnSideConcat(n0, n1, 0);
    OnSideConcat(n0, n1, 1);
    assert n0 + [] == n0;
    assert [] + n1 == n1;
  }

  lemma AnchorOfSection(dists0: seq<real>, dists1: seq<real>, side: nat, dists: seq<real>, start: nat)
    requires OnSide(Sections(dists0, dists1), side) == Numbered(dists, side, start)
    ensures Anchor(Sections(dists0, dists1), side) == if dists == [] then None else Some(start + FirstArgMin(dists))
  {
    NearestIdNumbered(dists, side, start);
  }

  /** Anchor selection over the numbered sections: `root` is the first side-0 body of least
      distance, `nearest_far_side` is |dists0| plus the first side-1 body of least distance,
      each side fails exactly when it has no bodies, and `root` < `nearest_far_side`. */
  lemma AnchorsOfSections(dists0: seq<real>, dists1: seq<real>)
    ensures Anchor(Sections(dists0, dists1), 0).Some? <==> |dists0| > 0
    ensures Anchor(Sections(dists0, dists1), 1).Some? <==> |dists1| > 0
    ensures |dists0| > 0 ==> Anchor(Sections(dists0, dists1), 0).value == FirstArgMin(dists0)
    ensures |dists1| > 0 ==> Anchor(Sections(dists0, dists1), 1).value == |dists0| + FirstArgMin(dists1)
  {
    OnSideOfSections(dists0, dists1);
    AnchorOfSection(dists0, dists1, 0, dists0, 0);
    AnchorOfSection(dists0, dists1, 1, dists1, |dists0|);
  }

  /** `root` always precedes `nearest_far_side`. */
  lemma RootBeforeNearestFar(dists0: seq<real>, dists1: seq<real>)
    requires |dists0| > 0 && |dists1| > 0
    ensures Anchor(Sections(dists0, dists1), 0).Some? && Anchor(Sections(dists0, dists1), 1).Some?
    ensures Anchor(Sections(dists0, dists1), 0).value < Anchor(Sections(dists0, dists1), 1).value
  {
    AnchorsOfSections(dists0, dists1);
  }
}
