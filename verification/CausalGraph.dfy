/** The offline causal check, a three-colour depth-first search, and the topological order. */
module CausalGraph {
  import opened Octets
  import opened SortedSets
  import opened Graphs

  /** An object: its content id, its causes' content ids and its ordering position. */
  datatype CausalNode = CausalNode(id: Bytes, causes: seq<Bytes>, position: nat)

  /** For each node the indices of its present causes, repeats included. */
  type Graph = seq<seq<nat>>

  predicate InRange(g: Graph) { forall i, q :: 0 <= i < |g| && 0 <= q < |g[i]| ==> g[i][q] < |g| }

  ghost predicate Edge(g: Graph, i: nat, j: nat) { i < |g| && j in g[i] }

  /** Where each id is found; the last node with an id counts. */
  function IndexOf(nodes: seq<CausalNode>): (idx: map<Bytes, nat>)
    ensures forall x :: x in idx ==> idx[x] < |nodes| && nodes[idx[x]].id == x
    ensures forall i :: 0 <= i < |nodes| ==> nodes[i].id in idx
  {
    if nodes == [] then map[]
    else
      var n := |nodes| - 1;
      IndexOf(nodes[..n])[nodes[n].id := n]
  }

  lemma {:induction false} IndexLast(nodes: seq<CausalNode>, i: nat)
    requires i < |nodes| && forall k :: i < k < |nodes| ==> nodes[k].id != nodes[i].id
    ensures nodes[i].id in IndexOf(nodes) && IndexOf(nodes)[nodes[i].id] == i
  {
    hide IndexOf;
    var n := |nodes| - 1;
    IndexStep(nodes);
    var most := nodes[..n];
    if i < n {
      assert most[i].id != nodes[n].id && forall k :: i < k < n ==> most[k].id != most[i].id;
      IndexLast(most, i);
    }
  }

  lemma IndexStep(nodes: seq<CausalNode>)
    requires nodes != []
    ensures var n := |nodes| - 1; IndexOf(nodes) == IndexOf(nodes[..n])[nodes[n].id := n]
  {}

  function Present(causes: seq<Bytes>, idx: map<Bytes, nat>): (js: seq<nat>)
    ensures forall j :: j in js <==> exists c :: c in causes && c in idx && idx[c] == j
  {
    if causes == [] then []
    else
      var n := |causes| - 1;
      assert causes == causes[..n] + [causes[n]];
      Present(causes[..n], idx) + if causes[n] in idx then [idx[causes[n]]] else []
  }

  /** Causes that are not in the set are external references and give no edge. */
  function Edges(nodes: seq<CausalNode>): (g: Graph)
    ensures |g| == |nodes| && InRange(g)
  {
    var idx := IndexOf(nodes);
    var g := seq(|nodes|, i requires 0 <= i < |nodes| => Present(nodes[i].causes, idx));
    assert InRange(g) by {
      forall i, q | 0 <= i < |g| && 0 <= q < |g[i]| ensures g[i][q] < |g| { assert g[i][q] in g[i]; }
    }
    g
  }

  // ---- Cycles and settled orders -------------------------------------------------------------------------

  /** From a node to its present causes. */
  ghost function Depends(g: Graph): Relation<nat> { (i: nat, j: nat) => Edge(g, i, j) }

  /** No index twice, and every cause of an element is strictly before it. */
  ghost predicate Settled(g: Graph, order: seq<nat>) {
    Distinct(order) && (forall i :: i in order ==> i < |g|) && Backward(Depends(g), order)
  }

  ghost predicate Complete(g: Graph, order: seq<nat>) { forall i: nat :: i < |g| ==> i in order }

  lemma SettledMore(g: Graph, order: seq<nat>, i: nat)
    requires Settled(g, order) && i < |g| && i !in order && forall c :: Edge(g, i, c) ==> c in order
    ensures Settled(g, order + [i])
  {
    var more := order + [i];
    forall k, c | 0 <= k < |more| && Edge(g, more[k], c) ensures c in more[..k] {
      assert more[..k] == order[..k];
    }
  }

  /** A graph that can be settled completely has no cycle. */
  lemma SettledIsAcyclic(g: Graph, order: seq<nat>)
    requires Settled(g, order) && Complete(g, order)
    ensures Acyclic(Depends(g))
  {
    BackwardIsAcyclic(Depends(g), order);
  }

  // ---- The search ------------------------------------------------------------------------------------------

  datatype Color = White | Gray | Black

  /** Gray nodes are those on the path being searched, black ones are settled. */
  ghost predicate Searching(g: Graph, color: seq<Color>, path: seq<nat>, settled: seq<nat>) {
    && |color| == |g| && Walk(Depends(g), path) && Settled(g, settled)
    && (forall i :: i in path ==> i < |g|)
    && (forall i: nat :: i < |g| ==> (color[i] == Gray <==> i in path))
    && (forall i: nat :: i < |g| ==> (color[i] == Black <==> i in settled))
  }

  lemma Enter(g: Graph, color: seq<Color>, path: seq<nat>, settled: seq<nat>, i: nat)
    requires Searching(g, color, path, settled) && i < |g| && color[i] == White
    requires path != [] ==> Edge(g, path[|path| - 1], i)
    ensures Searching(g, color[i := Gray], path + [i], settled)
  {
    hide Settled;
    WalkMore(Depends(g), path, i);
  }

  lemma Leave(g: Graph, color: seq<Color>, path: seq<nat>, settled: seq<nat>, i: nat)
    requires Searching(g, color, path + [i], settled) && i < |g| && i !in path
    requires forall c :: Edge(g, i, c) ==> c in settled
    ensures Searching(g, color[i := Black], path, settled + [i])
  {
    assert forall x :: x in path + [i] <==> x in path || x == i;
    assert forall x :: x in settled + [i] <==> x in settled || x == i;
    SettledMore(g, settled, i);
    hide Settled;
    forall k | 0 <= k < |path| - 1 ensures Edge(g, path[k], path[k + 1]) {
      assert Edge(g, (path + [i])[k], (path + [i])[k + 1]);
    }
  }

  ghost function Whites(color: seq<Color>): set<nat> { set i | i in Upto(|color|) && color[i] == White }

  /** Searches everything below a white node. Either a cycle is found, or the node and all it
      depends on become black and the path is as it was. */
  method HasCycle(g: Graph, color: array<Color>, i: nat, ghost path: seq<nat>, ghost settled: seq<nat>)
    returns (found: bool, ghost after: seq<nat>)
    requires InRange(g) && color.Length == |g| && i < |g| && color[i] == White
    requires Searching(g, color[..], path, settled) && (path != [] ==> Edge(g, path[|path| - 1], i))
    modifies color
    ensures found ==> !Acyclic(Depends(g))
    ensures !found ==> Searching(g, color[..], path, after) && settled <= after && i in after
    decreases Whites(color[..])
  {
    hide Walk, Settled, Acyclic, Edge;
    Enter(g, color[..], path, settled, i);
    ghost var before := color[..];
    color[i] := Gray;
    assert color[..] == before[i := Gray];
    ghost var here := path + [i];
    after := settled;
    for q := 0 to |g[i]|
      invariant Searching(g, color[..], here, after) && settled <= after
      invariant forall m :: 0 <= m < q ==> g[i][m] in after
    {
      var j := g[i][q];
      OnEdge(g, i, q);
      if color[j] == Gray {
        ghost var p :| 0 <= p < |here| && here[p] == j;
        Closes(Depends(g), here, p, j);
        return true, after;
      }
      if color[j] == White {
        FewerWhites(g, before, color[..], path, settled, i, after);
        found, after := HasCycle(g, color, j, here, after);
        if found { return true, after; }
      }
    }
    AllEdges(g, i, after);
    ghost var last := color[..];
    Leave(g, last, path, after, i);
    color[i] := Black;
    assert color[..] == last[i := Black];
    after := after + [i];
    return false, after;
  }

  lemma OnEdge(g: Graph, i: nat, q: nat)
    requires i < |g| && q < |g[i]|
    ensures Edge(g, i, g[i][q])
  {}

  lemma AllEdges(g: Graph, i: nat, settled: seq<nat>)
    requires i < |g| && forall m :: 0 <= m < |g[i]| ==> g[i][m] in settled
    ensures forall c :: Edge(g, i, c) ==> c in settled
  {}

  lemma FewerWhites(g: Graph, before: seq<Color>, now: seq<Color>, path: seq<nat>, settled: seq<nat>, i: nat,
                    after: seq<nat>)
    requires Searching(g, before, path, settled) && i < |g| && before[i] == White
    requires Searching(g, now, path + [i], after) && settled <= after
    ensures Whites(now) < Whites(before)
  {
    hide Walk, Settled;
    assert forall x :: x in path + [i] <==> x in path || x == i;
    assert i in Whites(before) && i !in Whites(now);
  }

  // ---- The causal check -----------------------------------------------------------------------------------

  /** No object names a cause at a later position than its own. */
  ghost predicate NoFutureCause(nodes: seq<CausalNode>) {
    forall i: nat, j: nat :: Edge(Edges(nodes), i, j) ==> nodes[j].position <= nodes[i].position
  }

  method CheckPositions(nodes: seq<CausalNode>, g: Graph) returns (ok: bool)
    requires g == Edges(nodes)
    ensures ok <==> NoFutureCause(nodes)
  {
    hide Edges;
    for i := 0 to |nodes|
      invariant forall a, q :: 0 <= a < i && 0 <= q < |g[a]| ==> nodes[g[a][q]].position <= nodes[a].position
    {
      for q := 0 to |g[i]|
        invariant forall m :: 0 <= m < q ==> nodes[g[i][m]].position <= nodes[i].position
      {
        if nodes[g[i][q]].position > nodes[i].position {
          OnEdge(g, i, q);
          return false;
        }
      }
    }
    return true;
  }

  /** Accepts exactly the sets without a future cause and without a cycle. */
  method VerifyCausal(nodes: seq<CausalNode>) returns (ok: bool, ghost settled: seq<nat>)
    ensures ok <==> NoFutureCause(nodes) && Acyclic(Depends(Edges(nodes)))
    ensures ok ==> Settled(Edges(nodes), settled) && Complete(Edges(nodes), settled)
  {
    hide Edges, Acyclic, Settled, NoFutureCause, Walk;
    var g := Edges(nodes);
    settled := [];
    ok := CheckPositions(nodes, g);
    if !ok { return false, settled; }
    var color := new Color[|nodes|](_ => White);
    NothingSettled(g, color[..]);
    for i := 0 to |nodes|
      invariant color.Length == |nodes| && Searching(g, color[..], [], settled)
      invariant forall j :: 0 <= j < i ==> j in settled
    {
      if color[i] == White {
        var found;
        found, settled := HasCycle(g, color, i, [], settled);
        if found { return false, settled; }
      }
    }
    SettledIsAcyclic(g, settled);
    return true, settled;
  }

  lemma NothingSettled(g: Graph, color: seq<Color>)
    requires |color| == |g| && forall i :: 0 <= i < |g| ==> color[i] == White
    ensures Searching(g, color, [], [])
  {}

  // ---- The order ----------------------------------------------------------------------------------------------

  /** How many listed causes are not done yet. */
  ghost function Waiting(causes: seq<nat>, done: set<nat>): nat {
    if causes == [] then 0
    else Waiting(causes[..|causes| - 1], done) + if causes[|causes| - 1] in done then 0 else 1
  }

  lemma {:induction false} WaitingNone(causes: seq<nat>, done: set<nat>)
    ensures Waiting(causes, done) == 0 <==> forall c :: c in causes ==> c in done
    ensures done == {} ==> Waiting(causes, done) == |causes|
  {
    if causes != [] {
      var n := |causes| - 1;
      assert causes == causes[..n] + [causes[n]];
      WaitingNone(causes[..n], done);
    }
  }

  lemma {:induction false} WaitingStep(causes: seq<nat>, done: set<nat>, pick: nat)
    requires pick !in done
    ensures Waiting(causes, done + {pick}) == Waiting(causes, done) - multiset(causes)[pick]
  {
    if causes != [] {
      var n := |causes| - 1;
      assert causes == causes[..n] + [causes[n]];
      WaitingStep(causes[..n], done, pick);
    }
  }

  /** effects lists i under j once for every time i lists j. */
  ghost predicate Mirrored(g: Graph, effects: seq<seq<nat>>) {
    && |effects| == |g|
    && (forall j :: 0 <= j < |g| ==> forall e :: e in effects[j] ==> e < |g|)
    && (forall i: nat, j: nat :: i < |g| && j < |g| ==> multiset(effects[j])[i] == multiset(g[i])[j])
  }

  lemma EffectsInGraph(g: Graph, effects: seq<seq<nat>>, j: nat)
    requires Mirrored(g, effects) && j < |g|
    ensures |effects| == |g| && forall e :: e in effects[j] ==> e < |g|
  {}

  ghost predicate MirroredUpto(g: Graph, effects: seq<seq<nat>>, i: nat, q: nat)
    requires i < |g| && q <= |g[i]|
  {
    && |effects| == |g|
    && (forall j :: 0 <= j < |g| ==> forall e :: e in effects[j] ==> e <= i)
    && (forall a: nat, j: nat :: a < i && j < |g| ==> multiset(effects[j])[a] == multiset(g[a])[j])
    && (forall j: nat :: j < |g| ==> multiset(effects[j])[i] == multiset(g[i][..q])[j])
  }

  lemma MirrorOne(g: Graph, effects: seq<seq<nat>>, i: nat, q: nat)
    requires InRange(g) && i < |g| && q < |g[i]| && MirroredUpto(g, effects, i, q)
    ensures var j := g[i][q]; MirroredUpto(g, effects[j := effects[j] + [i]], i, q + 1)
  {
    var j := g[i][q];
    var next := effects[j := effects[j] + [i]];
    assert g[i][..q + 1] == g[i][..q] + [j];
    forall a: nat, b: nat | a < i && b < |g| ensures multiset(next[b])[a] == multiset(g[a])[b] {}
    forall b: nat | b < |g| ensures multiset(next[b])[i] == multiset(g[i][..q + 1])[b] {}
  }

  lemma MirrorRow(g: Graph, effects: seq<seq<nat>>, i: nat)
    requires i < |g| && MirroredUpto(g, effects, i, |g[i]|)
    ensures i + 1 < |g| ==> MirroredUpto(g, effects, i + 1, 0)
    ensures i + 1 == |g| ==> Mirrored(g, effects)
  {
    assert g[i][..|g[i]|] == g[i];
    if i + 1 < |g| {
      assert g[i + 1][..0] == [];
      forall j: nat | j < |g| ensures multiset(effects[j])[i + 1] == 0 {
        assert i + 1 !in effects[j];
      }
    }
  }

  method CountCauses(g: Graph) returns (indeg: array<int>, effects: seq<seq<nat>>)
    requires InRange(g)
    ensures fresh(indeg) && indeg.Length == |g| && forall i :: 0 <= i < |g| ==> indeg[i] == |g[i]|
    ensures Mirrored(g, effects)
  {
    hide MirroredUpto, Mirrored;
    indeg := new int[|g|](_ => 0);
    effects := seq(|g|, _ => []);
    MirrorStart(g, effects);
    for i := 0 to |g|
      invariant |effects| == |g|
      invariant forall a :: 0 <= a < |g| ==> indeg[a] == if a < i then |g[a]| else 0
      invariant if i < |g| then MirroredUpto(g, effects, i, 0) else Mirrored(g, effects)
    {
      for q := 0 to |g[i]|
        invariant |effects| == |g| && MirroredUpto(g, effects, i, q)
        invariant forall a :: 0 <= a < |g| ==> indeg[a] == if a < i then |g[a]| else if a == i then q else 0
      {
        var j := g[i][q];
        MirrorOne(g, effects, i, q);
        effects := effects[j := effects[j] + [i]];
        indeg[i] := indeg[i] + 1;
      }
      MirrorRow(g, effects, i);
    }
  }

  lemma MirrorStart(g: Graph, effects: seq<seq<nat>>)
    requires |effects| == |g| && forall j :: 0 <= j < |g| ==> effects[j] == []
    ensures if 0 < |g| then MirroredUpto(g, effects, 0, 0) else Mirrored(g, effects)
  {
    if 0 < |g| { assert g[0][..0] == []; }
  }

  /** Not placed yet, and every present cause placed. */
  ghost predicate Ready(g: Graph, placed: seq<nat>, i: nat) {
    i < |g| && i !in placed && forall c :: Edge(g, i, c) ==> c in placed
  }

  /** i goes before j: at a lower position, or at the same one with a lower index. */
  predicate Sooner(nodes: seq<CausalNode>, i: nat, j: nat)
    requires i < |nodes| && j < |nodes|
  {
    nodes[i].position < nodes[j].position || (nodes[i].position == nodes[j].position && i <= j)
  }

  ghost predicate Picks(nodes: seq<CausalNode>, placed: seq<nat>, i: nat) {
    && Ready(Edges(nodes), placed, i)
    && forall j: nat :: Ready(Edges(nodes), placed, j) ==> Sooner(nodes, i, j)
  }

  /** Every element is the soonest ready one at its place. */
  ghost predicate Greedy(nodes: seq<CausalNode>, order: seq<nat>) {
    forall k :: 0 <= k < |order| ==> Picks(nodes, order[..k], order[k])
  }

  lemma PicksReady(nodes: seq<CausalNode>, placed: seq<nat>, i: nat)
    requires Picks(nodes, placed, i)
    ensures i < |nodes| && i !in placed
  {
    ReadyInGraph(Edges(nodes), placed, i);
  }

  lemma NothingPlaced(nodes: seq<CausalNode>)
    ensures Greedy(nodes, []) && Settled(Edges(nodes), [])
  {}

  lemma GreedyMore(nodes: seq<CausalNode>, order: seq<nat>, i: nat)
    requires Greedy(nodes, order) && Settled(Edges(nodes), order) && Picks(nodes, order, i)
    ensures Greedy(nodes, order + [i]) && Settled(Edges(nodes), order + [i])
  {
    hide Edges, Settled;
    var more := order + [i];
    SettledMore(Edges(nodes), order, i);
    hide Picks;
    forall k | 0 <= k < |more| ensures Picks(nodes, more[..k], more[k]) {
      assert more[..k] == order[..k];
      assert k == |order| ==> order[..k] == order;
    }
  }

  /** While something is left to place, the least settled of it is ready. */
  lemma {:induction false} FirstLeft(g: Graph, settled: seq<nat>, placed: seq<nat>, k: nat) returns (i: nat)
    requires Settled(g, settled) && k <= |settled|
    requires forall j :: 0 <= j < k ==> settled[j] in placed
    requires exists j: nat :: k <= j < |settled| && settled[j] !in placed
    ensures Ready(g, placed, i)
    decreases |settled| - k
  {
    if settled[k] in placed {
      i := FirstLeft(g, settled, placed, k + 1);
    } else {
      i := settled[k];
      assert i in settled;
      forall c | Edge(g, i, c) ensures c in placed { assert c in settled[..k]; }
    }
  }

  lemma SomethingReady(g: Graph, settled: seq<nat>, placed: seq<nat>) returns (i: nat)
    requires Settled(g, settled) && Complete(g, settled) && |placed| < |g|
    ensures Ready(g, placed, i)
  {
    SetSize(placed);
    var left := Upto(|g|) - Elements(placed);
    LeftOver(Upto(|g|), Elements(placed));
    var x :| x in left;
    assert x in settled;
    var j :| 0 <= j < |settled| && settled[j] == x;
    assert settled[j] !in placed;
    i := FirstLeft(g, settled, placed, 0);
  }

  method PickReady(nodes: seq<CausalNode>, g: Graph, indeg: array<int>, done: array<bool>, ghost placed: seq<nat>)
    returns (pick: Option<nat>)
    requires g == Edges(nodes) && indeg.Length == done.Length == |nodes|
    requires forall i: nat :: i < |nodes| ==> (!done[i] && indeg[i] == 0 <==> Ready(g, placed, i))
    ensures pick.Some? ==> Picks(nodes, placed, pick.value)
    ensures pick.None? ==> forall i: nat :: !Ready(g, placed, i)
  {
    hide Edges, Ready, Edge;
    pick := None;
    for i := 0 to |nodes|
      invariant pick.Some? ==> pick.value < i && Ready(g, placed, pick.value)
      invariant pick.Some? ==> forall j: nat :: j < i && Ready(g, placed, j) ==> Sooner(nodes, pick.value, j)
      invariant pick.None? ==> forall j: nat :: j < i ==> !Ready(g, placed, j)
    {
      if done[i] || indeg[i] != 0 { continue; }
      if pick.None? || nodes[i].position < nodes[pick.value].position { pick := Some(i); }
    }
    forall j: nat | Ready(g, placed, j) ensures j < |nodes| { ReadyInGraph(g, placed, j); }
  }

  lemma ReadyInGraph(g: Graph, placed: seq<nat>, i: nat)
    requires Ready(g, placed, i)
    ensures i < |g| && i !in placed
  {}

  /** The counters say how many causes each node still waits for. */
  ghost predicate Counting(g: Graph, indeg: seq<int>, done: seq<bool>, placed: seq<nat>) {
    && |indeg| == |done| == |g|
    && (forall i: nat :: i < |g| ==> (done[i] <==> i in placed))
    && (forall i: nat :: i < |g| ==> indeg[i] == Waiting(g[i], Elements(placed)))
  }

  lemma CountingMeansReady(g: Graph, indeg: seq<int>, done: seq<bool>, placed: seq<nat>, i: nat)
    requires Counting(g, indeg, done, placed) && i < |g|
    ensures !done[i] && indeg[i] == 0 <==> Ready(g, placed, i)
  {
    WaitingNone(g[i], Elements(placed));
  }

  lemma CountingStep(g: Graph, indeg: seq<int>, done: seq<bool>, placed: seq<nat>, pick: nat,
                     effects: seq<seq<nat>>, next: seq<int>)
    requires Counting(g, indeg, done, placed) && pick < |g| && pick !in placed && Mirrored(g, effects)
    requires |next| == |g| && forall i: nat :: i < |g| ==> next[i] == indeg[i] - multiset(effects[pick])[i]
    ensures Counting(g, next, done[pick := true], placed + [pick])
  {
    assert Elements(placed + [pick]) == Elements(placed) + {pick};
    forall i: nat | i < |g| ensures next[i] == Waiting(g[i], Elements(placed + [pick])) {
      WaitingStep(g[i], Elements(placed), pick);
    }
  }

  lemma CountingStarts(g: Graph, indeg: seq<int>, done: seq<bool>)
    requires |indeg| == |done| == |g|
    requires forall i :: 0 <= i < |g| ==> indeg[i] == |g[i]| && !done[i]
    ensures Counting(g, indeg, done, [])
  {
    assert Elements<nat>([]) == {};
    forall i: nat | i < |g| ensures indeg[i] == Waiting(g[i], {}) { WaitingNone(g[i], {}); }
  }

  method Release(indeg: array<int>, effects: seq<nat>)
    requires forall e :: e in effects ==> e < indeg.Length
    modifies indeg
    ensures forall i: nat :: i < indeg.Length ==> indeg[i] == old(indeg[i]) - multiset(effects)[i]
  {
    for q := 0 to |effects|
      invariant forall i: nat :: i < indeg.Length ==> indeg[i] == old(indeg[i]) - multiset(effects[..q])[i]
    {
      assert effects[..q + 1] == effects[..q] + [effects[q]];
      assert effects[q] in effects;
      indeg[effects[q]] := indeg[effects[q]] - 1;
    }
    assert effects[..|effects|] == effects;
  }

  ghost predicate IdsOf(nodes: seq<CausalNode>, placed: seq<nat>, ids: seq<Bytes>) {
    |ids| == |placed| && forall k :: 0 <= k < |ids| ==> placed[k] < |nodes| && ids[k] == nodes[placed[k]].id
  }

  /** Returns the ids in an order in which no object precedes a cause and positions never decrease;
      ties go to the lower index. It fails exactly where the causal check does: the branch that finds
      nothing ready is never taken. */
  method TopoOrder(nodes: seq<CausalNode>) returns (order: Option<seq<Bytes>>, ghost placed: seq<nat>)
    ensures order.Some? <==> NoFutureCause(nodes) && Acyclic(Depends(Edges(nodes)))
    ensures order.Some? ==> IdsOf(nodes, placed, order.value)
    ensures order.Some? ==> |placed| == |nodes| && Settled(Edges(nodes), placed) && Greedy(nodes, placed)
  {
    hide Edges, Acyclic, Settled, NoFutureCause, Complete, Greedy, Picks, Ready, Counting, Mirrored;
    placed := [];
    var ok, settled := VerifyCausal(nodes);
    if !ok { return None, placed; }
    var g := Edges(nodes);
    var indeg, effects := CountCauses(g);
    var done := new bool[|nodes|](_ => false);
    var ids: seq<Bytes> := [];
    CountingStarts(g, indeg[..], done[..]);
    NothingPlaced(nodes);
    while |ids| < |nodes|
      invariant indeg.Length == done.Length == |nodes| && fresh(indeg) && fresh(done)
      invariant Counting(g, indeg[..], done[..], placed)
      invariant IdsOf(nodes, placed, ids) && |ids| <= |nodes|
      invariant Settled(g, placed) && Greedy(nodes, placed)
      decreases |nodes| - |ids|
    {
      forall i: nat | i < |nodes| ensures !done[i] && indeg[i] == 0 <==> Ready(g, placed, i) {
        CountingMeansReady(g, indeg[..], done[..], placed, i);
      }
      ghost var ready := SomethingReady(g, settled, placed);
      var found := PickReady(nodes, g, indeg, done, placed);
      if found.None? { return None, placed; }
      var pick := found.value;
      PicksReady(nodes, placed, pick);
      GreedyMore(nodes, placed, pick);
      ghost var counts, marks := indeg[..], done[..];
      ids := ids + [nodes[pick].id];
      EffectsInGraph(g, effects, pick);
      Release(indeg, effects[pick]);
      done[pick] := true;
      CountingStep(g, counts, marks, placed, pick, effects, indeg[..]);
      assert done[..] == marks[pick := true];
      placed := placed + [pick];
    }
    return Some(ids), placed;
  }

  // ---- What the order is ---------------------------------------------------------------------------------------

  /** The total order never contradicts the positions: they ascend along it. */
  lemma {:induction false} PositionsAscend(nodes: seq<CausalNode>, order: seq<nat>, i: nat, j: nat)
    requires NoFutureCause(nodes) && Settled(Edges(nodes), order) && Greedy(nodes, order) && i <= j < |order|
    ensures order[i] < |nodes| && order[j] < |nodes| && nodes[order[i]].position <= nodes[order[j]].position
    decreases j - i
  {
    hide Edges;
    assert order[i] in order && order[j] in order;
    if i < j {
      PositionsAscend(nodes, order, i, j - 1);
      var g, p, q := Edges(nodes), order[j - 1], order[j];
      assert Picks(nodes, order[..j - 1], p);
      if !Edge(g, q, p) {
        forall c | Edge(g, q, c) ensures c in order[..j - 1] {
          assert c in order[..j] && order[..j] == order[..j - 1] + [p];
        }
        assert q !in order[..j - 1];
        assert Ready(g, order[..j - 1], q);
      }
    }
  }

  /** The order is reproducible: at most one list of all indices is greedy. */
  lemma {:induction false} OrderUnique(nodes: seq<CausalNode>, a: seq<nat>, b: seq<nat>, n: nat)
    requires Greedy(nodes, a) && Greedy(nodes, b) && n <= |a| && n <= |b|
    ensures a[..n] == b[..n]
  {
    hide Edges, Ready;
    if n > 0 {
      OrderUnique(nodes, a, b, n - 1);
      assert Picks(nodes, a[..n - 1], a[n - 1]) && Picks(nodes, b[..n - 1], b[n - 1]);
      assert a[..n] == a[..n - 1] + [a[n - 1]] && b[..n] == b[..n - 1] + [b[n - 1]];
    }
  }

  /** Objects without causes come in the order of position, and of index where positions are equal. */
  lemma TiesByIndex(nodes: seq<CausalNode>, order: seq<nat>, i: nat, j: nat)
    requires Greedy(nodes, order) && Settled(Edges(nodes), order) && i < j < |order|
    requires forall k :: 0 <= k < |nodes| ==> nodes[k].causes == []
    ensures order[i] < |nodes| && order[j] < |nodes|
    ensures nodes[order[i]].position < nodes[order[j]].position
            || (nodes[order[i]].position == nodes[order[j]].position && order[i] < order[j])
  {
    var g := Edges(nodes);
    assert order[i] in order && order[j] in order;
    assert Picks(nodes, order[..i], order[i]);
    forall c ensures !Edge(g, order[j], c) {
      assert g[order[j]] == Present([], IndexOf(nodes));
    }
    assert order[j] !in order[..i];
    assert Ready(g, order[..i], order[j]);
  }
}
