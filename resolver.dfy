/** The whole near/far decision of TubeClipper.clip for a plane that leaves cells on both
    raw sides: number the bodies, pick `root` and `nearest_far_side`, build the adjacency
    graph, cut it at `nearest_far_side`, and take `root`'s component as the near ids and
    `nearest_far_side` plus every other component as the far ids. */
module Resolver {
  import opened Results
  import opened Numbering
  import opened Anchors
  import opened Adjacency
  import opened Graphs
  import opened Connectivity

  /** The ways a clip fails; each is an exception raised by the Python code before the
      session labels are touched. */
  datatype ClipError =
    | NoCells                    // neither raw side has a cell, so no label array is computed
    | NoBodies(side: nat)        // a raw side split into no bodies: argmin of an empty list
    | NotANode(id: nat)          // `remove_node` of a `nearest_far_side` that no edge named
    | NearSideUnbound(root: nat) // no residual component holds `root`

  /** The near and far id lists. */
  datatype Partition = Partition(near: seq<nat>, far: seq<nat>)

  /** Two sections are adjacent when the test on the pair, taken in increasing order, passes. */
  predicate Adjacent(merged: (nat, nat) -> nat, x: nat, y: nat)
  {
    (x < y && Touching(merged, x, y)) || (y < x && Touching(merged, y, x))
  }

  /** Some other of the n sections is adjacent to `x`. */
  predicate HasNeighbour(merged: (nat, nat) -> nat, n: nat, x: nat)
  {
    exists y :: 0 <= y < n && Adjacent(merged, x, y)
  }

  /** The node list of the graph built from `adj` once `cut` is removed. */
  function ResidualNodes(adj: seq<Edge>, cut: nat): seq<nat>
  {
    Drop(NodesOf(adj), {cut})
  }

  /** The edges of the graph built from `adj` once `cut` is removed. */
  function ResidualEdges(adj: seq<Edge>, cut: nat): set<Edge>
  {
    Unlinked(EdgeSet(adj), cut)
  }

  /** The components of the graph built from `adj` once `cut` is removed, in the order they
      are found: they list only nodes of the graph, and never `cut`. */
  function ResidualComponents(adj: seq<Edge>, cut: nat): (r: seq<seq<nat>>)
    ensures forall k, x :: 0 <= k < |r| && x in r[k] ==> x in NodesOf(adj) && x != cut
  {
    var order := ResidualNodes(adj, cut);
    Components(order, ResidualEdges(adj, cut), Elems(order))
  }

  /** Concatenation of a list of lists. */
  function Flatten(comps: seq<seq<nat>>): (r: seq<nat>)
    ensures forall x :: x in r <==> exists k :: 0 <= k < |comps| && x in comps[k]
    decreases |comps|
  {
    if comps == [] then []
    else
      assert forall k :: 1 <= k < |comps| ==> comps[1..][k - 1] == comps[k];
      comps[0] + Flatten(comps[1..])
  }

  /** The components other than the one at `nearSide`, in order. */
  function Others(comps: seq<seq<nat>>, nearSide: nat): (r: seq<seq<nat>>)
    requires nearSide < |comps|
    ensures |r| == |comps| - 1
    ensures forall j :: 0 <= j < |r| ==> r[j] == comps[if j < nearSide then j else j + 1]
  {
    comps[..nearSide] + comps[nearSide + 1..]
  }

  /** The far id list: `nearest_far_side`, then, when there is more than one component, the
      nodes of every component other than the near one. */
  function FarIds(comps: seq<seq<nat>>, nearSide: nat, nearestFar: nat): (r: seq<nat>)
    requires nearSide < |comps|
    ensures |r| > 0 && r[0] == nearestFar
    ensures |comps| == 1 ==> r == [nearestFar]
  {
    [nearestFar] + (if |comps| > 1 then Flatten(Others(comps, nearSide)) else [])
  }

  /** The graph stage: remove `nearestFar` (failing when it is not a node), find the
      component that holds `root` (failing when none does) and list the near and far ids.
      It fails only in those two ways; on success `root` is near and the far list starts
      with `nearestFar`. */
  function Cut(adj: seq<Edge>, root: nat, nearestFar: nat): (r: Result<Partition, ClipError>)
    ensures r.Err? ==> r.error == NotANode(nearestFar) || r.error == NearSideUnbound(root)
    ensures r.Ok? ==> root in r.value.near && |r.value.far| > 0 && r.value.far[0] == nearestFar
  {
    if nearestFar !in NodesOf(adj) then Err(NotANode(nearestFar))
    else
      var comps := ResidualComponents(adj, nearestFar);
      var nearSide := LastContaining(comps, root);
      if nearSide.None? then Err(NearSideUnbound(root))
      else Ok(Partition(comps[nearSide.value], FarIds(comps, nearSide.value, nearestFar)))
  }

  /** What a successful cut is made of. */
  lemma CutOk(adj: seq<Edge>, root: nat, nearestFar: nat, p: Partition, comps: seq<seq<nat>>)
    requires Cut(adj, root, nearestFar) == Ok(p)
    requires comps == ResidualComponents(adj, nearestFar)
    ensures nearestFar in NodesOf(adj)
    ensures LastContaining(comps, root).Some?
    ensures p.near == comps[LastContaining(comps, root).value]
    ensures p.far == FarIds(comps, LastContaining(comps, root).value, nearestFar)
  {
  }

  /** The decision procedure, given per-body least distances on each raw side and the merge
      test over section ids. A success needs an anchor on each side, puts `root` near and
      starts the far list with `nearest_far_side`. */
  function Resolve(sections: seq<Body>, merged: (nat, nat) -> nat): (r: Result<Partition, ClipError>)
    ensures r.Ok? ==> Anchor(sections, 0).Some? && Anchor(sections, 1).Some?
    ensures r.Ok? ==> Anchor(sections, 0).value in r.value.near &&
                      |r.value.far| > 0 && r.value.far[0] == Anchor(sections, 1).value
  {
    var root := Anchor(sections, 0);
    var nearestFar := Anchor(sections, 1);
    if root.None? then Err(NoBodies(0))
    else if nearestFar.None? then Err(NoBodies(1))
    else Cut(EdgeList(merged, |sections|), root.value, nearestFar.value)
  }

  /** A node of the graph is exactly a section with a neighbour. */
  lemma NodeIffNeighbour(merged: (nat, nat) -> nat, n: nat, x: nat)
    ensures x in NodesOf(EdgeList(merged, n)) <==> x < n && HasNeighbour(merged, n, x)
  {
    var adj := EdgeList(merged, n);
    NodesOfExact(adj);
    EdgeListExact(merged, n);
    if x in NodesOf(adj) {
      var e :| e in adj && (e.0 == x || e.1 == x);
      if e.0 == x {
        assert Adjacent(merged, x, e.1);
      } else {
        assert Adjacent(merged, x, e.0);
      }
    }
    if x < n && HasNeighbour(merged, n, x) {
      var y :| 0 <= y < n && Adjacent(merged, x, y);
      if x < y {
        assert (x, y) in adj;
      } else {
        assert (y, x) in adj;
      }
    }
  }

  /** When the lists are distinct and share no member, so does their concatenation. */
  lemma {:induction false} FlattenDistinct(comps: seq<seq<nat>>)
    requires forall k :: 0 <= k < |comps| ==> Distinct(comps[k])
    requires forall j, k, x :: 0 <= j < |comps| && 0 <= k < |comps| && x in comps[j] && x in comps[k] ==> j == k
    ensures Distinct(Flatten(comps))
    decreases |comps|
  {
    if comps != [] {
      var tail := comps[1..];
      forall j, k, x | 0 <= j < |tail| && 0 <= k < |tail| && x in tail[j] && x in tail[k] ensures j == k {
        assert x in comps[j + 1] && x in comps[k + 1];
      }
      FlattenDistinct(tail);
      var a, b := comps[0], Flatten(tail);
      forall i, j | 0 <= i < j < |a + b| ensures (a + b)[i] != (a + b)[j] {
        if j < |a| {
          assert (a + b)[i] == a[i] && (a + b)[j] == a[j];
        } else if i >= |a| {
          assert (a + b)[i] == b[i - |a|] && (a + b)[j] == b[j - |a|];
        } else {
          var x := (a + b)[i];
          assert x in a;
          if x == (a + b)[j] {
            assert x in b;
            var k :| 0 <= k < |tail| && x in tail[k];
          }
        }
      }
    }
  }

  /** The graph stage fails exactly when `nearestFar` is not a node, or when `root` is not
      a node of the cut graph. */
  lemma CutErrors(adj: seq<Edge>, root: nat, nearestFar: nat)
    requires root != nearestFar
    ensures Cut(adj, root, nearestFar) == Err(NotANode(nearestFar)) <==> nearestFar !in NodesOf(adj)
    ensures Cut(adj, root, nearestFar) == Err(NearSideUnbound(root)) <==>
      nearestFar in NodesOf(adj) && root !in NodesOf(adj)
    ensures Cut(adj, root, nearestFar).Err? <==>
      nearestFar !in NodesOf(adj) || root !in NodesOf(adj)
  {
    if nearestFar in NodesOf(adj) {
      var order := ResidualNodes(adj, nearestFar);
      var comps := ResidualComponents(adj, nearestFar);
      ComponentsCover(order, ResidualEdges(adj, nearestFar), Elems(order), comps);
      assert root in order <==> root in NodesOf(adj);
      if root in order {
        var k :| 0 <= k < |comps| && root in comps[k];
      }
    }
  }

  /** A raw side with no bodies fails the procedure, side 0 first, exactly as the
      first np.argmin of `clip` over an empty list raises. */
  lemma {:induction false} ResolveNoBodies(dists0: seq<real>, dists1: seq<real>, merged: (nat, nat) -> nat)
    ensures Resolve(Sections(dists0, dists1), merged) == Err(NoBodies(0)) <==> |dists0| == 0
    ensures Resolve(Sections(dists0, dists1), merged) == Err(NoBodies(1)) <==> |dists0| > 0 && |dists1| == 0
  {
    AnchorsOfSections(dists0, dists1);
  }

  /** Once both anchors exist, the procedure is the cut of the adjacency graph of all
      sections at `nearestFar`, kept from `root`. */
  lemma ResolveAt(sections: seq<Body>, merged: (nat, nat) -> nat, root: nat, nearestFar: nat)
    requires Anchor(sections, 0) == Some(root) && Anchor(sections, 1) == Some(nearestFar)
    ensures Resolve(sections, merged) == Cut(EdgeList(merged, |sections|), root, nearestFar)
  {
  }

  /** Cutting the adjacency graph of n sections fails exactly when `nearestFar` has no
      neighbour or, failing that, when `root` has none. */
  lemma AdjacencyCutErrors(merged: (nat, nat) -> nat, n: nat, root: nat, nearestFar: nat)
    requires root != nearestFar
    ensures Cut(EdgeList(merged, n), root, nearestFar) == Err(NotANode(nearestFar)) <==>
      !HasNeighbour(merged, n, nearestFar) || nearestFar >= n
    ensures Cut(EdgeList(merged, n), root, nearestFar) == Err(NearSideUnbound(root)) <==>
      nearestFar < n && HasNeighbour(merged, n, nearestFar) && !(root < n && HasNeighbour(merged, n, root))
    ensures Cut(EdgeList(merged, n), root, nearestFar).Ok? <==>
      nearestFar < n && HasNeighbour(merged, n, nearestFar) && root < n && HasNeighbour(merged, n, root)
  {
    NodeIffNeighbour(merged, n, nearestFar);
    NodeIffNeighbour(merged, n, root);
    CutErrors(EdgeList(merged, n), root, nearestFar);
  }

  /** With bodies on both raw sides, the procedure fails exactly when `nearest_far_side` has
      no neighbour (remove_node of a node no edge named) or, failing that, when `root` has
      none (no residual component holds it); otherwise it succeeds. */
  lemma ResolveCutErrors(sections: seq<Body>, merged: (nat, nat) -> nat, root: nat, nearestFar: nat)
    requires WellNumbered(sections)
    requires Anchor(sections, 0) == Some(root) && Anchor(sections, 1) == Some(nearestFar)
    ensures Resolve(sections, merged) == Err(NotANode(nearestFar)) <==>
      !HasNeighbour(merged, |sections|, nearestFar)
    ensures Resolve(sections, merged) == Err(NearSideUnbound(root)) <==>
      HasNeighbour(merged, |sections|, nearestFar) && !HasNeighbour(merged, |sections|, root)
    ensures Resolve(sections, merged).Ok? <==>
      HasNeighbour(merged, |sections|, nearestFar) && HasNeighbour(merged, |sections|, root)
  {
    AnchorsApart(sections, root, nearestFar);
    ResolveAt(sections, merged, root, nearestFar);
    AdjacencyCutErrors(merged, |sections|, root, nearestFar);
  }

  /** The near list of a successful cut is the component of `root`: it holds `root` and
      exactly the nodes a walk from `root` reaches in the cut graph. */
  lemma CutNear(adj: seq<Edge>, root: nat, nearestFar: nat, p: Partition)
    requires Cut(adj, root, nearestFar) == Ok(p)
    ensures root in p.near
    ensures forall v :: v in p.near <==>
      Reaches(ResidualEdges(adj, nearestFar), Elems(ResidualNodes(adj, nearestFar)), root, v)
  {
    var order := ResidualNodes(adj, nearestFar);
    var edges := ResidualEdges(adj, nearestFar);
    var comps := ResidualComponents(adj, nearestFar);
    CutOk(adj, root, nearestFar, p, comps);
    ComponentsAreClosures(order, edges, Elems(order), comps);
    var k := LastContaining(comps, root).value;
    assert root in comps[k];
    assert Elems(comps[k]) == Closure(edges, Elems(order), {root});
    forall v ensures v in p.near <==> Reaches(edges, Elems(order), root, v) {
      ClosureIsReachable(edges, Elems(order), root, v);
    }
  }

  /** The far list is `nearestFar` and the members of every component other than the near one. */
  lemma FarMembers(comps: seq<seq<nat>>, k: nat, nearestFar: nat)
    requires k < |comps|
    ensures forall x :: x in FarIds(comps, k, nearestFar) <==>
      (x == nearestFar || exists j :: 0 <= j < |comps| && j != k && x in comps[j])
  {
    var others := Others(comps, k);
    forall x ensures x in FarIds(comps, k, nearestFar) <==> (x == nearestFar || exists j :: 0 <= j < |comps| && j != k && x in comps[j]) {
      if x in FarIds(comps, k, nearestFar) && x != nearestFar {
        var j :| 0 <= j < |others| && x in others[j];
        assert x in comps[if j < k then j else j + 1];
      }
      if exists j :: 0 <= j < |comps| && j != k && x in comps[j] {
        var j :| 0 <= j < |comps| && j != k && x in comps[j];
        assert x in others[if j < k then j else j - 1];
      }
    }
  }

  /** The far list repeats no id when the components are distinct, share no member and do
      not hold `nearestFar`. */
  lemma FarDistinct(comps: seq<seq<nat>>, k: nat, nearestFar: nat)
    requires k < |comps|
    requires forall j :: 0 <= j < |comps| ==> Distinct(comps[j]) && nearestFar !in comps[j]
    requires forall i, j, x :: 0 <= i < |comps| && 0 <= j < |comps| && x in comps[i] && x in comps[j] ==> i == j
    ensures Distinct(FarIds(comps, k, nearestFar))
  {
    var others := Others(comps, k);
    forall a, b, x | 0 <= a < |others| && 0 <= b < |others| && x in others[a] && x in others[b] ensures a == b {
      assert x in comps[if a < k then a else a + 1] && x in comps[if b < k then b else b + 1];
    }
    FlattenDistinct(others);
    var tail := if |comps| > 1 then Flatten(others) else [];
    assert FarIds(comps, k, nearestFar) == [nearestFar] + tail;
    forall x | x in tail ensures x != nearestFar {
      var j :| 0 <= j < |others| && x in others[j];
      assert x in comps[if j < k then j else j + 1];
    }
    DistinctCons(nearestFar, tail);
  }

  lemma DistinctCons(x: nat, s: seq<nat>)
    requires x !in s && Distinct(s)
    ensures Distinct([x] + s)
  {
    forall i, j | 0 <= i < j < |[x] + s| ensures ([x] + s)[i] != ([x] + s)[j] {
      assert ([x] + s)[j] == s[j - 1];
      if i > 0 {
        assert ([x] + s)[i] == s[i - 1];
      }
    }
  }

  /** Splitting a partition of `order` into one component and the rest, with `nearestFar`
      put in front of the rest, leaves no id on both sides and loses none. */
  lemma SplitAt(order: seq<nat>, comps: seq<seq<nat>>, k: nat, nearestFar: nat)
    requires k < |comps| && nearestFar !in order
    requires forall x :: x in order <==> exists j :: 0 <= j < |comps| && x in comps[j]
    requires forall i, j, x :: 0 <= i < |comps| && 0 <= j < |comps| && x in comps[i] && x in comps[j] ==> i == j
    ensures forall x :: x in comps[k] ==> x !in FarIds(comps, k, nearestFar)
    ensures forall x :: x in comps[k] || x in FarIds(comps, k, nearestFar) <==> x in order || x == nearestFar
  {
    FarMembers(comps, k, nearestFar);
    forall x | x in comps[k] ensures x !in FarIds(comps, k, nearestFar) {
      assert x in order;
    }
  }

  /** The far list of a successful cut starts with `nearestFar`; no id is in both lists, and
      together they hold exactly the nodes of the graph. */
  lemma CutCovers(adj: seq<Edge>, root: nat, nearestFar: nat, p: Partition)
    requires Cut(adj, root, nearestFar) == Ok(p)
    ensures |p.far| > 0 && p.far[0] == nearestFar
    ensures forall x :: x in p.near ==> x !in p.far
    ensures forall x :: x in p.near || x in p.far <==> x in NodesOf(adj)
  {
    var order := ResidualNodes(adj, nearestFar);
    var edges := ResidualEdges(adj, nearestFar);
    var comps := ResidualComponents(adj, nearestFar);
    CutOk(adj, root, nearestFar, p, comps);
    ComponentsPartition(order, edges, Elems(order), comps);
    var k := LastContaining(comps, root).value;
    FarMembers(comps, k, nearestFar);
    SplitAt(order, comps, k, nearestFar);
  }

  /** Neither list of a successful cut repeats an id. */
  lemma CutDistinct(adj: seq<Edge>, root: nat, nearestFar: nat, p: Partition)
    requires Cut(adj, root, nearestFar) == Ok(p)
    ensures Distinct(p.near) && Distinct(p.far)
  {
    NodesOfExact(adj);
    DropDistinct(NodesOf(adj), {nearestFar});
    var order := ResidualNodes(adj, nearestFar);
    var edges := ResidualEdges(adj, nearestFar);
    var comps := ResidualComponents(adj, nearestFar);
    CutOk(adj, root, nearestFar, p, comps);
    ComponentsPartition(order, edges, Elems(order), comps);
    FarDistinct(comps, LastContaining(comps, root).value, nearestFar);
  }

  /** The near and far lists of a resolved clip: the far list starts with
      `nearest_far_side`; the near list holds `root` and exactly the sections a walk from
      `root` reaches once `nearest_far_side` is removed; no id is in both lists or twice in
      one; and together they hold exactly the sections that have a neighbour, so a section
      without one is in neither. */
  lemma ResolvedPartition(sections: seq<Body>, merged: (nat, nat) -> nat, root: nat, nearestFar: nat, p: Partition)
    requires Anchor(sections, 0) == Some(root) && Anchor(sections, 1) == Some(nearestFar)
    requires Resolve(sections, merged) == Ok(p)
    ensures |p.far| > 0 && p.far[0] == nearestFar
    ensures root in p.near
    ensures forall v :: v in p.near <==>
      Reaches(ResidualEdges(EdgeList(merged, |sections|), nearestFar),
              Elems(ResidualNodes(EdgeList(merged, |sections|), nearestFar)), root, v)
    ensures forall x :: x in p.near ==> x !in p.far
    ensures forall x: nat :: x in p.near || x in p.far <==> x < |sections| && HasNeighbour(merged, |sections|, x)
    ensures Distinct(p.near) && Distinct(p.far)
  {
    var n := |sections|;
    var adj := EdgeList(merged, n);
    ResolveAt(sections, merged, root, nearestFar);
    CutNear(adj, root, nearestFar, p);
    CutCovers(adj, root, nearestFar, p);
    CutDistinct(adj, root, nearestFar, p);
    forall x: nat ensures x in p.near || x in p.far <==> x < n && HasNeighbour(merged, n, x) {
      NodeIffNeighbour(merged, n, x);
    }
  }

  /** The single-crossing case: one body on each raw side and the two adjacent give
      near = [root] and far = [nearest_far_side]. */
  lemma SingleCrossing(d0: real, d1: real, merged: (nat, nat) -> nat)
    requires Touching(merged, 0, 1)
    ensures Resolve(Sections([d0], [d1]), merged) == Ok(Partition([0], [1]))
  {
    AnchorsOfSections([d0], [d1]);
    ResolveAt(Sections([d0], [d1]), merged, 0, 1);
    assert EdgeList(merged, 2) == [(0, 1)] by {
      assert Row(merged, 0, 2) == [(0, 1)];
      assert Row(merged, 1, 2) == [];
      assert RowsBefore(merged, 2, 1) == [(0, 1)];
    }
    CutOneEdge();
  }

  lemma CutOneEdge()
    ensures Cut([(0, 1)], 0, 1) == Ok(Partition([0], [1]))
  {
    var adj: seq<Edge> := [(0, 1)];
    assert adj[..0] == [];
    assert NodesOf(adj) == [0, 1];
    var order := ResidualNodes(adj, 1);
    assert Drop([1], {1}) == [];
    assert order == [0];
    var edges := ResidualEdges(adj, 1);
    assert edges == {};
    var c := Closure(edges, {0}, {0});
    assert c == {0};
    assert Keep(order, c) == [0];
    assert Drop(order, c) == [];
    assert Components([], edges, {0}) == [];
    assert ResidualComponents(adj, 1) == [[0]];
    assert LastContaining([[0]], 0) == Some(0);
    assert FarIds([[0]], 0, 1) == [1];
  }

  /** The steps of the both-sides branch of `clip` in order: number the bodies, take the
      anchors, collect the adjacent pairs, build the graph, remove `nearest_far_side`, list
      the components, find `near_side` and assemble the far ids. */
  method NearFar(dists0: seq<real>, dists1: seq<real>, merged: (nat, nat) -> nat) returns (r: Result<Partition, ClipError>)
    ensures r == Resolve(Sections(dists0, dists1), merged)
  {
    var sections := NumberBodies(dists0, dists1);
    var root := Anchor(sections, 0);
    var nearestFar := Anchor(sections, 1);
    if root.None? {
      return Err(NoBodies(0));
    }
    if nearestFar.None? {
      return Err(NoBodies(1));
    }
    var adj := AdjacencyPairs(merged, |sections|);
    var g := BuildGraph(adj);
    var ok := g.RemoveNode(nearestFar.value);
    if !ok {
      return Err(NotANode(nearestFar.value));
    }
    var comps := Components(g.nodes, g.edges, Elems(g.nodes));
    assert comps == ResidualComponents(adj, nearestFar.value);
    var nearSide := FindNearSide(comps, root.value);
    if nearSide.None? {
      return Err(NearSideUnbound(root.value));
    }
    r := Ok(Partition(comps[nearSide.value], FarIds(comps, nearSide.value, nearestFar.value)));
  }
}
