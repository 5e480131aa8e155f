/** The two causal checks over one set of objects: by position and index, and by content id. */
module CausalAgreement {
  import opened Octets
  import opened Graphs
  import opened CausalGraph
  import Merge
  import MergeOrder

  /** The objects without their ordering positions. */
  function Unplaced(nodes: seq<CausalNode>): (r: seq<Merge.Node>)
    ensures |r| == |nodes|
  {
    seq(|nodes|, i requires 0 <= i < |nodes| => Merge.Node(nodes[i].id, nodes[i].causes))
  }

  ghost predicate DistinctIds(nodes: seq<CausalNode>) { Distinct(Merge.Ids(Unplaced(nodes))) }

  lemma IndexExact(nodes: seq<CausalNode>, i: nat)
    requires DistinctIds(nodes) && i < |nodes|
    ensures IndexOf(nodes)[nodes[i].id] == i
  {
    var j := IndexOf(nodes)[nodes[i].id];
    var ids := Merge.Ids(Unplaced(nodes));
    assert ids[i] == nodes[i].id && ids[j] == nodes[j].id;
  }

  /** An edge between indices is a present cause between their ids. */
  lemma EdgeIsCause(nodes: seq<CausalNode>, i: nat, j: nat)
    requires DistinctIds(nodes) && i < |nodes| && j < |nodes|
    ensures var t := Merge.CauseTable(Unplaced(nodes));
            && nodes[i].id in t
            && (Edge(Edges(nodes), i, j) <==> nodes[j].id in t[nodes[i].id])
  {
    var plain := Unplaced(nodes);
    var idx := IndexOf(nodes);
    assert Merge.Ids(plain)[i] == nodes[i].id && Merge.Ids(plain)[j] == nodes[j].id;
    MergeOrder.ListedAt(plain, i);
    IndexExact(nodes, j);
    hide IndexOf, Merge.Listed;
    assert plain[i].id == nodes[i].id && plain[i].causes == nodes[i].causes;
    assert forall c :: c in idx && idx[c] == j ==> c == nodes[j].id;
  }

  /** For objects with distinct ids the two graphs have cycles together. */
  lemma CyclesAgree(nodes: seq<CausalNode>)
    requires DistinctIds(nodes)
    ensures Acyclic(Depends(Edges(nodes))) <==>
            Acyclic(MergeOrder.CausesIn(Merge.CauseTable(Unplaced(nodes))))
  {
    hide Edges, Merge.CauseTable, Acyclic, Edge;
    var g, t := Edges(nodes), Merge.CauseTable(Unplaced(nodes));
    var idOf: nat -> Bytes := (i: nat) => if i < |nodes| then nodes[i].id else [];
    var idx := IndexOf(nodes);
    var indexOf: Bytes -> nat := (x: Bytes) => if x in idx then idx[x] else 0;
    forall i: nat, j: nat | Depends(g)(i, j) ensures MergeOrder.CausesIn(t)(idOf(i), idOf(j)) {
      EdgeInGraph(g, i, j);
      EdgeIsCause(nodes, i, j);
    }
    forall x, y | MergeOrder.CausesIn(t)(x, y) ensures Depends(g)(indexOf(x), indexOf(y)) {
      CauseHasIndex(nodes, x, y);
      EdgeIsCause(nodes, idx[x], idx[y]);
    }
    if Acyclic(MergeOrder.CausesIn(t)) { AcyclicMaps(Depends(g), MergeOrder.CausesIn(t), idOf); }
    if Acyclic(Depends(g)) { AcyclicMaps(MergeOrder.CausesIn(t), Depends(g), indexOf); }
  }

  lemma EdgeInGraph(g: Graph, i: nat, j: nat)
    requires InRange(g) && Edge(g, i, j)
    ensures i < |g| && j < |g|
  {
    var q :| 0 <= q < |g[i]| && g[i][q] == j;
  }

  lemma CauseHasIndex(nodes: seq<CausalNode>, x: Bytes, y: Bytes)
    requires MergeOrder.CausesIn(Merge.CauseTable(Unplaced(nodes)))(x, y)
    ensures x in IndexOf(nodes) && y in IndexOf(nodes)
  {
    hide Merge.Listed, IndexOf;
    var ids := Merge.Ids(Unplaced(nodes));
    assert x in ids && y in ids;
    var i :| 0 <= i < |ids| && ids[i] == x;
    var j :| 0 <= j < |ids| && ids[j] == y;
    assert nodes[i].id in IndexOf(nodes) && nodes[j].id in IndexOf(nodes);
  }

  /** Objects with distinct ids are merged exactly when the graph the causal check searches has no cycle
      and no present cause is listed twice. */
  lemma MergeAgreesExactly(nodes: seq<CausalNode>)
    requires DistinctIds(nodes)
    ensures var t := Merge.CauseTable(Unplaced(nodes));
            Merge.Merged(Unplaced(nodes)).Some? <==>
            Acyclic(Depends(Edges(nodes))) && forall x :: x in t ==> Distinct(t[x])
  {
    hide Acyclic, Edges, Merge.CauseTable, Merge.Merged;
    CyclesAgree(nodes);
    MergeOrder.MergeSucceedsExactly(Unplaced(nodes));
  }
}
