/** Connected components of the cut graph, and the search for the component that holds
    `root` (TubeClipper.clip). A component is grown from a start node by adding neighbours
    until nothing changes; it is then the least set that holds the start node and that no
    edge leaves, which is also the set of nodes a walk from the start node can reach. */
module Connectivity {
  import opened Results
  import opened Adjacency
  import opened Graphs

  /** No edge leads from `d` to a node of `nodes` outside `d`. */
  predicate Closed(edges: set<Edge>, nodes: set<nat>, d: set<nat>)
  {
    forall u, v :: u in d && v in nodes && Linked(edges, u, v) ==> v in d
  }

  /** The nodes one edge away from `r`. */
  function Frontier(edges: set<Edge>, nodes: set<nat>, r: set<nat>): set<nat>
  {
    set v | v in nodes && exists u :: u in r && Linked(edges, u, v)
  }

  lemma ProperSubsetSmaller(a: set<nat>, b: set<nat>)
    requires a < b
    ensures |a| < |b|
  {
    assert !(b <= a);
    var x :| x in b && x !in a;
    var d := b - a;
    assert b == a + d && a * d == {};
    assert x in d;
  }

  /** The nodes reachable from `r`: grow `r` by its frontier until it stops growing. */
  function Closure(edges: set<Edge>, nodes: set<nat>, r: set<nat>): (c: set<nat>)
    requires r <= nodes
    ensures r <= c <= nodes
    ensures Closed(edges, nodes, c)
    decreases |nodes - r|
  {
    var next := r + Frontier(edges, nodes, r);
    if next == r then r
    else
      ProperSubsetSmaller(nodes - next, nodes - r);
      Closure(edges, nodes, next)
  }

  /** Every closed set that holds `r` holds its closure. */
  lemma {:induction false} ClosureLeast(edges: set<Edge>, nodes: set<nat>, r: set<nat>, d: set<nat>)
    requires r <= nodes && r <= d && Closed(edges, nodes, d)
    ensures Closure(edges, nodes, r) <= d
    decreases |nodes - r|
  {
    var next := r + Frontier(edges, nodes, r);
    if next != r {
      ProperSubsetSmaller(nodes - next, nodes - r);
      ClosureLeast(edges, nodes, next, d);
    }
  }

  /** The graph is undirected, so the rest of a closed set is closed too. */
  lemma ComplementClosed(edges: set<Edge>, nodes: set<nat>, d: set<nat>)
    requires Closed(edges, nodes, d)
    ensures Closed(edges, nodes, nodes - d)
  {
    forall u, v | u in nodes - d && v in nodes && Linked(edges, u, v) ensures v in nodes - d {
      assert Linked(edges, v, u);
    }
  }

  /** Any member of a component grows the same component. */
  lemma SameComponent(edges: set<Edge>, nodes: set<nat>, s: nat, x: nat)
    requires s in nodes && x in Closure(edges, nodes, {s})
    ensures Closure(edges, nodes, {x}) == Closure(edges, nodes, {s})
  {
    var c := Closure(edges, nodes, {s});
    var k := Closure(edges, nodes, {x});
    ClosureLeast(edges, nodes, {x}, c);
    if s !in k {
      ComplementClosed(edges, nodes, k);
      ClosureLeast(edges, nodes, {s}, nodes - k);
      assert false;
    }
    ClosureLeast(edges, nodes, {s}, k);
  }

  /** A walk through `nodes` along edges. */
  ghost predicate Walk(edges: set<Edge>, nodes: set<nat>, p: seq<nat>)
  {
    |p| > 0 &&
    (forall i :: 0 <= i < |p| ==> p[i] in nodes) &&
    (forall i :: 0 < i < |p| ==> Linked(edges, p[i - 1], p[i]))
  }

  /** Some walk leads from `s` to `v`. */
  ghost predicate Reaches(edges: set<Edge>, nodes: set<nat>, s: nat, v: nat)
  {
    exists p :: Walk(edges, nodes, p) && p[0] == s && p[|p| - 1] == v
  }

  lemma {:induction false} WalkStaysInside(edges: set<Edge>, nodes: set<nat>, d: set<nat>, p: seq<nat>)
    requires Closed(edges, nodes, d) && Walk(edges, nodes, p) && p[0] in d
    ensures p[|p| - 1] in d
    decreases |p|
  {
    if |p| > 1 {
      var q := p[..|p| - 1];
      assert Walk(edges, nodes, q) by {
        assert forall i :: 0 <= i < |q| ==> q[i] == p[i];
      }
      WalkStaysInside(edges, nodes, d, q);
      assert Linked(edges, p[|p| - 2], p[|p| - 1]);
    }
  }

  /** A node is in the component grown from `s` exactly when a walk leads from `s` to it. */
  lemma ClosureIsReachable(edges: set<Edge>, nodes: set<nat>, s: nat, v: nat)
    requires s in nodes
    ensures v in Closure(edges, nodes, {s}) <==> Reaches(edges, nodes, s, v)
  {
    var c := Closure(edges, nodes, {s});
    if v in c {
      var d := set x | x in nodes && Reaches(edges, nodes, s, x);
      forall u, w | u in d && w in nodes && Linked(edges, u, w) ensures w in d {
        var p :| Walk(edges, nodes, p) && p[0] == s && p[|p| - 1] == u;
        var q := p + [w];
        assert Walk(edges, nodes, q) by {
          assert forall i :: 0 <= i < |p| ==> q[i] == p[i];
        }
        assert q[0] == s && q[|q| - 1] == w;
      }
      assert Walk(edges, nodes, [s]);
      ClosureLeast(edges, nodes, {s}, d);
    }
    if Reaches(edges, nodes, s, v) {
      var p :| Walk(edges, nodes, p) && p[0] == s && p[|p| - 1] == v;
      WalkStaysInside(edges, nodes, c, p);
    }
  }

  /** `nx.connected_components`: nodes are visited in graph order and each node not yet seen
      starts a new component, grown over the whole graph. A component lists its nodes in
      graph order. */
  function Components(order: seq<nat>, edges: set<Edge>, nodes: set<nat>): (comps: seq<seq<nat>>)
    requires Elems(order) <= nodes
    ensures forall k, x :: 0 <= k < |comps| && x in comps[k] ==> x in order
    decreases |order|
  {
    if order == [] then []
    else
      var c := Closure(edges, nodes, {order[0]});
      [Keep(order, c)] + Components(Drop(order, c), edges, nodes)
  }

  /** The components split the node list: every node lies in exactly one component, and a
      component lists no node twice when the node list does not. */
  lemma {:induction false} ComponentsPartition(order: seq<nat>, edges: set<Edge>, nodes: set<nat>, comps: seq<seq<nat>>)
    requires Elems(order) <= nodes
    requires comps == Components(order, edges, nodes)
    ensures forall x :: x in order <==> exists k :: 0 <= k < |comps| && x in comps[k]
    ensures forall j, k, x :: 0 <= j < |comps| && 0 <= k < |comps| && x in comps[j] && x in comps[k] ==> j == k
    ensures Distinct(order) ==> forall k :: 0 <= k < |comps| ==> Distinct(comps[k])
  {
    ComponentsCover(order, edges, nodes, comps);
    ComponentsDisjoint(order, edges, nodes, comps);
    if Distinct(order) {
      ComponentsDistinct(order, edges, nodes, comps);
    }
  }

  lemma {:induction false} ComponentsCover(order: seq<nat>, edges: set<Edge>, nodes: set<nat>, comps: seq<seq<nat>>)
    requires Elems(order) <= nodes
    requires comps == Components(order, edges, nodes)
    ensures forall x :: x in order ==> exists k :: 0 <= k < |comps| && x in comps[k]
    decreases |order|
  {
    if order != [] {
      var c := Closure(edges, nodes, {order[0]});
      var rest := Drop(order, c);
      var later := Components(rest, edges, nodes);
      ComponentsCover(rest, edges, nodes, later);
      assert comps == [Keep(order, c)] + later;
      forall x | x in order ensures exists k :: 0 <= k < |comps| && x in comps[k] {
        if x in c {
          assert x in comps[0];
        } else {
          var k :| 0 <= k < |later| && x in later[k];
          assert x in comps[k + 1];
        }
      }
    }
  }

  lemma {:induction false} ComponentsDisjoint(order: seq<nat>, edges: set<Edge>, nodes: set<nat>, comps: seq<seq<nat>>)
    requires Elems(order) <= nodes
    requires comps == Components(order, edges, nodes)
    ensures forall j, k, x :: 0 <= j < |comps| && 0 <= k < |comps| && x in comps[j] && x in comps[k] ==> j == k
    decreases |order|
  {
    if order != [] {
      var c := Closure(edges, nodes, {order[0]});
      var rest := Drop(order, c);
      var later := Components(rest, edges, nodes);
      ComponentsDisjoint(rest, edges, nodes, later);
      assert comps == [Keep(order, c)] + later;
      forall j, k, x | 0 <= j < |comps| && 0 <= k < |comps| && x in comps[j] && x in comps[k] ensures j == k {
        if j > 0 && k > 0 {
          assert x in later[j - 1] && x in later[k - 1];
        }
      }
    }
  }

  lemma {:induction false} ComponentsDistinct(order: seq<nat>, edges: set<Edge>, nodes: set<nat>, comps: seq<seq<nat>>)
    requires Elems(order) <= nodes
    requires comps == Components(order, edges, nodes)
    requires Distinct(order)
    ensures forall k :: 0 <= k < |comps| ==> Distinct(comps[k])
    decreases |order|
  {
    if order != [] {
      var c := Closure(edges, nodes, {order[0]});
      var rest := Drop(order, c);
      var later := Components(rest, edges, nodes);
      KeepDistinct(order, c);
      DropDistinct(order, c);
      ComponentsDistinct(rest, edges, nodes, later);
      assert comps == [Keep(order, c)] + later;
      forall k | 0 <= k < |comps| ensures Distinct(comps[k]) {
        if k > 0 {
          assert comps[k] == later[k - 1];
        }
      }
    }
  }

  /** When no edge leaves the nodes already taken, each component is the whole component
      grown from any of its members. */
  lemma {:induction false} ComponentsAreClosures(order: seq<nat>, edges: set<Edge>, nodes: set<nat>, comps: seq<seq<nat>>)
    requires Elems(order) <= nodes
    requires Closed(edges, nodes, nodes - Elems(order))
    requires comps == Components(order, edges, nodes)
    ensures forall k, x :: 0 <= k < |comps| && x in comps[k] ==> Elems(comps[k]) == Closure(edges, nodes, {x})
    decreases |order|
  {
    if order != [] {
      var c := Closure(edges, nodes, {order[0]});
      var rest := Drop(order, c);
      var taken := nodes - Elems(order);
      ComplementClosed(edges, nodes, taken);
      ClosureLeast(edges, nodes, {order[0]}, nodes - taken);
      assert Elems(Keep(order, c)) == c;
      assert nodes - Elems(rest) == taken + c;
      ComponentsAreClosures(rest, edges, nodes, Components(rest, edges, nodes));
      assert comps == [Keep(order, c)] + Components(rest, edges, nodes);
      forall k, x | 0 <= k < |comps| && x in comps[k] ensures Elems(comps[k]) == Closure(edges, nodes, {x}) {
        if k == 0 {
          SameComponent(edges, nodes, order[0], x);
        } else {
          assert comps[k] == Components(rest, edges, nodes)[k - 1];
        }
      }
    }
  }

  /** The index of the last component holding `x`, or None when no component holds it. */
  function LastContaining(comps: seq<seq<nat>>, x: nat): (r: Option<nat>)
    ensures r.None? <==> forall k :: 0 <= k < |comps| ==> x !in comps[k]
    ensures r.Some? ==> r.value < |comps| && x in comps[r.value]
    ensures r.Some? ==> forall j :: r.value < j < |comps| ==> x !in comps[j]
    decreases |comps|
  {
    if comps == [] then None
    else if x in comps[|comps| - 1] then Some(|comps| - 1)
    else LastContaining(comps[..|comps| - 1], x)
  }

  /** The loop that sets `near_side` to each component index holding `root`; it stays unset
      when none does. */
  method FindNearSide(comps: seq<seq<nat>>, root: nat) returns (nearSide: Option<nat>)
    ensures nearSide == LastContaining(comps, root)
  {
    nearSide := None;
    for sdx := 0 to |comps|
      invariant nearSide == LastContaining(comps[..sdx], root)
    {
      assert comps[..sdx + 1][..sdx] == comps[..sdx];
      if root in comps[sdx] {
        nearSide := Some(sdx);
      }
    }
    assert comps[..|comps|] == comps;
  }
}
