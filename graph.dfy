/** The undirected graph built from `adj` and cut at `nearest_far_side` (TubeClipper.clip).
    The graph keeps its nodes in insertion order, as networkx does;
    a node exists only once some edge has named it. */
module Graphs {
  import opened Adjacency

  /** No value occurs twice. */
  predicate Distinct(s: seq<nat>)
  {
    forall i, j :: 0 <= i < j < |s| ==> s[i] != s[j]
  }

  /** The set of elements of `s`. */
  function Elems(s: seq<nat>): set<nat>
  {
    set x | x in s
  }

  /** The elements of `s` that lie in `c`, in order. */
  function Keep(s: seq<nat>, c: set<nat>): (r: seq<nat>)
    ensures |r| <= |s|
    ensures forall x :: x in r <==> x in s && x in c
    decreases |s|
  {
    if s == [] then []
    else (if s[0] in c then [s[0]] else []) + Keep(s[1..], c)
  }

  /** The elements of `s` that lie outside `c`, in order. */
  function Drop(s: seq<nat>, c: set<nat>): (r: seq<nat>)
    ensures |r| <= |s|
    ensures forall x :: x in r <==> x in s && x !in c
    decreases |s|
  {
    if s == [] then []
    else (if s[0] in c then [] else [s[0]]) + Drop(s[1..], c)
  }

  lemma {:induction false} KeepDistinct(s: seq<nat>, c: set<nat>)
    requires Distinct(s)
    ensures Distinct(Keep(s, c))
    decreases |s|
  {
    if s != [] {
      KeepDistinct(s[1..], c);
      var head: seq<nat> := if s[0] in c then [s[0]] else [];
      var tail := Keep(s[1..], c);
      assert s[0] !in s[1..];
      forall i, j | 0 <= i < j < |head + tail| ensures (head + tail)[i] != (head + tail)[j] {
        if i >= |head| {
          assert (head + tail)[i] == tail[i - |head|] && (head + tail)[j] == tail[j - |head|];
        } else {
          assert (head + tail)[j] in tail;
        }
      }
    }
  }

  lemma {:induction false} DropDistinct(s: seq<nat>, c: set<nat>)
    requires Distinct(s)
    ensures Distinct(Drop(s, c))
    decreases |s|
  {
    if s != [] {
      DropDistinct(s[1..], c);
      var head: seq<nat> := if s[0] in c then [] else [s[0]];
      var tail := Drop(s[1..], c);
      assert s[0] !in s[1..];
      forall i, j | 0 <= i < j < |head + tail| ensures (head + tail)[i] != (head + tail)[j] {
        if i >= |head| {
          assert (head + tail)[i] == tail[i - |head|] && (head + tail)[j] == tail[j - |head|];
        } else {
          assert (head + tail)[j] in tail;
        }
      }
    }
  }

  /** Undirected adjacency: an edge joins its endpoints in both directions. */
  predicate Linked(edges: set<Edge>, u: nat, v: nat)
  {
    (u, v) in edges || (v, u) in edges
  }

  /** `x` is named by some pair of `adj`. */
  predicate Endpoint(adj: seq<Edge>, x: nat)
  {
    exists e :: e in adj && (e.0 == x || e.1 == x)
  }

  /** A node joins the node list the first time it is added. */
  function AddNode(nodes: seq<nat>, x: nat): (r: seq<nat>)
    ensures forall y :: y in r <==> y in nodes || y == x
  {
    if x in nodes then nodes else nodes + [x]
  }

  /** The node list after `add_edge` has been called on every pair of `adj` in turn. */
  function NodesOf(adj: seq<Edge>): (r: seq<nat>)
    ensures |r| <= 2 * |adj|
    decreases |adj|
  {
    if adj == [] then []
    else
      var e := adj[|adj| - 1];
      AddNode(AddNode(NodesOf(adj[..|adj| - 1]), e.0), e.1)
  }

  /** The edge set after `add_edge` has been called on every pair of `adj`. */
  function EdgeSet(adj: seq<Edge>): set<Edge>
  {
    set e | e in adj
  }

  /** The edges left once node `x` is removed: those not incident to `x`. */
  function Unlinked(edges: set<Edge>, x: nat): set<Edge>
  {
    set e | e in edges && e.0 != x && e.1 != x
  }

  /** The nodes of the graph are exactly the endpoints of its edges, each listed once. */
  lemma {:induction false} NodesOfExact(adj: seq<Edge>)
    ensures forall x :: x in NodesOf(adj) <==> Endpoint(adj, x)
    ensures Distinct(NodesOf(adj))
    decreases |adj|
  {
    if adj != [] {
      var init, e := adj[..|adj| - 1], adj[|adj| - 1];
      assert adj == init + [e];
      NodesOfExact(init);
      var mid := AddNode(NodesOf(init), e.0);
      assert Distinct(mid);
      forall x ensures x in NodesOf(adj) <==> Endpoint(adj, x) {
        if Endpoint(init, x) {
          var f :| f in init && (f.0 == x || f.1 == x);
          assert f in adj;
        }
        if Endpoint(adj, x) && x != e.0 && x != e.1 {
          var f :| f in adj && (f.0 == x || f.1 == x);
          assert f in init;
        }
      }
    }
  }

  /** The graph library's undirected graph: nodes in insertion order and a set of edges. */
  class Graph {
    var nodes: seq<nat>
    var edges: set<Edge>

    constructor ()
      ensures nodes == [] && edges == {}
    {
      nodes := [];
      edges := {};
    }

    /** `add_edge`: adds the endpoints that are new, then the edge. */
    method AddEdge(u: nat, v: nat)
      modifies this
      ensures nodes == AddNode(AddNode(old(nodes), u), v)
      ensures edges == old(edges) + {(u, v)}
    {
      if u !in nodes {
        nodes := nodes + [u];
      }
      if v !in nodes {
        nodes := nodes + [v];
      }
      edges := edges + {(u, v)};
    }

    /** `remove_node`: fails (ok == false, nothing changed) when `x` is not a node; otherwise
        deletes `x` and every edge incident to it, and nothing else. */
    method RemoveNode(x: nat) returns (ok: bool)
      modifies this
      ensures ok <==> x in old(nodes)
      ensures ok ==> nodes == Drop(old(nodes), {x}) && edges == Unlinked(old(edges), x)
      ensures !ok ==> nodes == old(nodes) && edges == old(edges)
    {
      if x !in nodes {
        return false;
      }
      nodes := Drop(nodes, {x});
      edges := Unlinked(edges, x);
      ok := true;
    }
  }

  lemma NodesOfAppend(adj: seq<Edge>, e: Edge)
    ensures NodesOf(adj + [e]) == AddNode(AddNode(NodesOf(adj), e.0), e.1)
  {
    assert (adj + [e])[..|adj|] == adj;
  }

  lemma EdgeSetAppend(adj: seq<Edge>, e: Edge)
    ensures EdgeSet(adj + [e]) == EdgeSet(adj) + {e}
  {
    assert forall f :: f in adj + [e] <==> f in adj || f == e;
  }

  /** `G = Graph()` followed by `add_edge` on every pair of `adj`. */
  method BuildGraph(adj: seq<Edge>) returns (g: Graph)
    ensures fresh(g)
    ensures g.nodes == NodesOf(adj) && g.edges == EdgeSet(adj)
  {
    g := new Graph();
    for i := 0 to |adj|
      invariant g.nodes == NodesOf(adj[..i])
      invariant g.edges == EdgeSet(adj[..i])
    {
      assert adj[..i + 1] == adj[..i] + [adj[i]];
      NodesOfAppend(adj[..i], adj[i]);
      EdgeSetAppend(adj[..i], adj[i]);
      g.AddEdge(adj[i].0, adj[i].1);
    }
    assert adj[..|adj|] == adj;
  }
}
