/** The pairwise adjacency test over all sections (TubeClipper.clip): every unordered pair of
    sections is merged once and the pair is kept when the merge splits back into one body. */
module Adjacency {
  /** A pair of section identifiers. */
  type Edge = (nat, nat)

  /** The adjacency test: `merged(i, j)` is the number of bodies the merge of sections i and j
      splits into (the geometry behind it is not modelled). */
  predicate Touching(merged: (nat, nat) -> nat, i: nat, j: nat)
  {
    merged(i, j) == 1
  }

  /** The pairs (i, k), i < k < j, that pass the test, in increasing k: what the inner loop has
      appended for row i once it reaches j. */
  function Row(merged: (nat, nat) -> nat, i: nat, j: nat): seq<Edge>
    decreases j
  {
    if j <= i + 1 then []
    else Row(merged, i, j - 1) + (if Touching(merged, i, j - 1) then [(i, j - 1)] else [])
  }

  /** The pairs appended once the outer loop has completed rows 0 .. i-1 over n sections. */
  function RowsBefore(merged: (nat, nat) -> nat, n: nat, i: nat): seq<Edge>
    decreases i
  {
    if i == 0 then [] else RowsBefore(merged, n, i - 1) + Row(merged, i - 1, n)
  }

  /** The list `adj` over n sections: a pair is in it exactly when it is an increasing pair
      of section ids below n that passes the test. */
  function EdgeList(merged: (nat, nat) -> nat, n: nat): (r: seq<Edge>)
    ensures forall e :: e in r <==> e.0 < e.1 < n && Touching(merged, e.0, e.1)
  {
    RowsBeforeMembers(merged, n, n);
    RowsBefore(merged, n, n)
  }

  /** Strict lexicographic order on pairs, the order in which the loops visit them. */
  predicate Before(e: Edge, f: Edge)
  {
    e.0 < f.0 || (e.0 == f.0 && e.1 < f.1)
  }

  lemma {:induction false} RowMembers(merged: (nat, nat) -> nat, i: nat, j: nat)
    ensures forall e :: e in Row(merged, i, j) <==> e.0 == i && i < e.1 < j && Touching(merged, i, e.1)
    ensures forall a, b :: 0 <= a < b < |Row(merged, i, j)| ==> Row(merged, i, j)[a].1 < Row(merged, i, j)[b].1
    decreases j
  {
    if j > i + 1 {
      RowMembers(merged, i, j - 1);
      var p := Row(merged, i, j - 1);
      var r := Row(merged, i, j);
      forall a, b | 0 <= a < b < |r| ensures r[a].1 < r[b].1 {
        if b < |p| {
          assert r[a] == p[a] && r[b] == p[b];
        } else {
          assert r[a] == p[a] && r[a] in p;
        }
      }
    }
  }

  lemma {:induction false} RowsBeforeMembers(merged: (nat, nat) -> nat, n: nat, i: nat)
    ensures forall e :: e in RowsBefore(merged, n, i) <==> e.0 < i && e.0 < e.1 < n && Touching(merged, e.0, e.1)
    ensures forall a, b :: 0 <= a < b < |RowsBefore(merged, n, i)| ==>
      Before(RowsBefore(merged, n, i)[a], RowsBefore(merged, n, i)[b])
    decreases i
  {
    if i > 0 {
      RowsBeforeMembers(merged, n, i - 1);
      RowMembers(merged, i - 1, n);
      var p, q := RowsBefore(merged, n, i - 1), Row(merged, i - 1, n);
      var r := p + q;
      forall a, b | 0 <= a < b < |r| ensures Before(r[a], r[b]) {
        if b < |p| {
          assert r[a] == p[a] && r[b] == p[b];
        } else if a < |p| {
          assert r[a] in p && r[b] in q;
        } else {
          assert r[a] == q[a - |p|] && r[b] == q[b - |p|];
        }
      }
    }
  }

  /** `adj` holds each passing pair once, in the order the loops visit them: no pair twice
      and no pair in both orientations. */
  lemma EdgeListExact(merged: (nat, nat) -> nat, n: nat)
    ensures forall a, b :: 0 <= a < b < |EdgeList(merged, n)| ==> Before(EdgeList(merged, n)[a], EdgeList(merged, n)[b])
    ensures forall a, b :: 0 <= a < |EdgeList(merged, n)| && 0 <= b < |EdgeList(merged, n)| && a != b ==>
      EdgeList(merged, n)[a] != EdgeList(merged, n)[b]
  {
    RowsBeforeMembers(merged, n, n);
    var r := EdgeList(merged, n);
    forall a, b | 0 <= a < |r| && 0 <= b < |r| && a != b ensures r[a] != r[b] {
      if a < b { assert Before(r[a], r[b]); } else { assert Before(r[b], r[a]); }
    }
  }

  /** The two nested loops that build `adj`. */
  method AdjacencyPairs(merged: (nat, nat) -> nat, n: nat) returns (adj: seq<Edge>)
    ensures adj == EdgeList(merged, n)
  {
    adj := [];
    for idx := 0 to n
      invariant adj == RowsBefore(merged, n, idx)
    {
      for jdx := idx + 1 to n
        invariant adj == RowsBefore(merged, n, idx) + Row(merged, idx, jdx)
      {
        if merged(idx, jdx) == 1 {
          adj := adj + [(idx, jdx)];
        }
      }
    }
  }
}
