/** What the causal merge computes: when it succeeds, and that its order depends only on the set
    of objects and is the least causally valid one. */
module MergeOrder {
  import opened Octets
  import opened Graphs
  import opened SortedSets
  import opened Merge

  // ---- Causal validity ---------------------------------------------------------------------------------

  /** Position of the last occurrence of each id. */
  function Positions(order: seq<Bytes>): (pos: map<Bytes, nat>)
    ensures forall x :: x in pos <==> x in order
    ensures forall x :: x in pos ==> pos[x] < |order| && order[pos[x]] == x
  {
    if order == [] then map[]
    else
      var n := |order| - 1;
      assert order == order[..n] + [order[n]];
      Positions(order[..n])[order[n] := n]
  }

  /** A repeated id counts where it comes last. */
  lemma {:induction false} PositionsLast(order: seq<Bytes>, x: Bytes)
    requires x in order
    ensures forall k :: Positions(order)[x] < k < |order| ==> order[k] != x
  {
    var n := |order| - 1;
    assert order == order[..n] + [order[n]];
    if order[n] != x { PositionsLast(order[..n], x); }
  }

  /** No object comes before one of its causes that the order also holds. */
  ghost predicate CausallyValid(order: seq<Bytes>, nodes: seq<Node>) {
    forall i, c :: i in order && i in Listed(nodes) && c in Listed(nodes)[i] && c in order ==>
      Positions(order)[c] <= Positions(order)[i]
  }

  method CheckCausallyValid(order: seq<Bytes>, nodes: seq<Node>) returns (ok: bool)
    requires forall i :: i in order ==> i in Ids(nodes)
    ensures ok <==> CausallyValid(order, nodes)
  {
    hide Positions, Listed;
    var pos, causes := Positions(order), Listed(nodes);
    for k := 0 to |order|
      invariant forall j :: 0 <= j < k ==> CausesBefore(causes[order[j]], pos, pos[order[j]])
    {
      var i := order[k];
      var fine := CheckCauses(causes[i], pos, pos[i]);
      if !fine {
        assert i in order;
        return false;
      }
    }
    forall i | i in order ensures CausesBefore(causes[i], pos, pos[i]) {
      var j :| 0 <= j < |order| && order[j] == i;
    }
    return true;
  }

  ghost predicate CausesBefore(listed: seq<Bytes>, pos: map<Bytes, nat>, at: nat) {
    forall c :: c in listed && c in pos ==> pos[c] <= at
  }

  method CheckCauses(listed: seq<Bytes>, pos: map<Bytes, nat>, at: nat) returns (fine: bool)
    ensures fine <==> CausesBefore(listed, pos, at)
  {
    for m := 0 to |listed|
      invariant forall n :: 0 <= n < m && listed[n] in pos ==> pos[listed[n]] <= at
    {
      if listed[m] in pos && pos[listed[m]] > at {
        assert listed[m] in listed;
        return false;
      }
    }
    return true;
  }

  // ---- Orders that respect a table ------------------------------------------------------------------------

  ghost predicate OrderOf(order: seq<Bytes>, t: Table) {
    Distinct(order) && forall x :: x in order <==> x in t
  }

  /** From an object to its present causes. */
  function CausesIn(t: Table): Relation<Bytes> { (x, c) => x in t && c in t[x] }

  /** Every object's causes are strictly before it. */
  ghost predicate Respects(order: seq<Bytes>, t: Table) { Backward(CausesIn(t), order) }

  /** Each element is the least ready one at its place. */
  ghost predicate Greedy(order: seq<Bytes>, t: Table, from: nat) {
    forall k :: from <= k < |order| ==> IsLeast(Bytewise(), order[k], Ready(t, Elements(order[..k])))
  }

  lemma {:induction false} LinearizeGreedy(t: Table, n: nat, emitted: seq<Bytes>)
    requires |emitted| <= n && Linearize(t, n, emitted).Some?
    ensures var order := Linearize(t, n, emitted).value;
            |order| == n && emitted <= order && Greedy(order, t, |emitted|)
    decreases n - |emitted|
  {
    hide Ready, IsLeast;
    if |emitted| < n {
      var ready := Ready(t, Elements(emitted));
      var next := emitted + [Minimum(ready)];
      LinearizeGreedy(t, n, next);
      var order := Linearize(t, n, next).value;
      forall k | |emitted| <= k < |order| ensures IsLeast(Bytewise(), order[k], Ready(t, Elements(order[..k]))) {
        if k == |emitted| { assert order[..k] == emitted && order[k] == next[k]; }
      }
    }
  }

  /** Distinct ids: the table has one entry per node. */
  lemma TableSize(nodes: seq<Node>)
    requires Distinct(Ids(nodes))
    ensures |CauseTable(nodes)| == |nodes|
  {
    hide Listed;
    SetSize(Ids(nodes));
    assert CauseTable(nodes).Keys == set x | x in Ids(nodes);
  }

  lemma GreedyIsOrder(order: seq<Bytes>, t: Table)
    requires Greedy(order, t, 0) && |order| == |t|
    ensures OrderOf(order, t) && Respects(order, t) && forall x :: x in t ==> Distinct(t[x])
  {
    assert forall k :: 0 <= k < |order| ==> order[k] in t && order[k] !in order[..k] by {
      forall k | 0 <= k < |order| ensures order[k] in t && order[k] !in order[..k] {
        assert IsLeast(Bytewise(), order[k], Ready(t, Elements(order[..k])));
      }
    }
    forall i, j | 0 <= i < j < |order| ensures order[i] != order[j] { assert order[..j][i] == order[i]; }
    SetSize(order);
    assert Elements(order) <= t.Keys;
    SameSize(Elements(order), t.Keys);
    forall x | x in order <==> x in Elements(order) {}
    forall x | x in t ensures Distinct(t[x]) {
      assert x in Elements(order);
      var k :| 0 <= k < |order| && order[k] == x;
      assert IsLeast(Bytewise(), order[k], Ready(t, Elements(order[..k])));
    }
    forall k, c | 0 <= k < |order| && order[k] in t && c in t[order[k]] ensures c in order[..k] {
      assert IsLeast(Bytewise(), order[k], Ready(t, Elements(order[..k])));
      assert c in Elements(order[..k]);
    }
  }

  /** The merge's order, all its facts together. */
  lemma MergedFacts(nodes: seq<Node>)
    requires Merged(nodes).Some?
    ensures var order, t := Merged(nodes).value, CauseTable(nodes);
            && Distinct(Ids(nodes)) && Greedy(order, t, 0) && OrderOf(order, t) && Respects(order, t)
            && |order| == |t| == |nodes| && forall x :: x in t ==> Distinct(t[x])
  {
    hide CauseTable, Greedy, Linearize;
    var t := CauseTable(nodes);
    TableSize(nodes);
    LinearizeGreedy(t, |nodes|, []);
    GreedyIsOrder(Merged(nodes).value, t);
  }

  // ---- Cycles ---------------------------------------------------------------------------------------------------

  lemma OrderedIsAcyclic(order: seq<Bytes>, t: Table)
    requires OrderOf(order, t) && Respects(order, t)
    ensures Acyclic(CausesIn(t))
  {
    BackwardIsAcyclic(CausesIn(t), order);
  }

  ghost predicate Closed(t: Table) { forall x, c :: x in t && c in t[x] ==> c in t }

  lemma {:induction false} LinearizeSucceeds(t: Table, n: nat, emitted: seq<Bytes>)
    requires Acyclic(CausesIn(t)) && Closed(t) && n == |t| && forall x :: x in t ==> Distinct(t[x])
    requires Distinct(emitted) && Elements(emitted) <= t.Keys
    ensures Linearize(t, n, emitted).Some?
    decreases n - |emitted|
  {
    if |emitted| < n {
      var done := Elements(emitted);
      SetSize(emitted);
      var stuck := t.Keys - done;
      LeftOver(t.Keys, done);
      if Ready(t, done) == {} {
        forall x | x in stuck ensures DependsIn(CausesIn(t), x, stuck) {
          assert x !in Ready(t, done);
          var c :| c in t[x] && c !in done;
          assert c in stuck && CausesIn(t)(x, c);
        }
        StuckHasCycle(CausesIn(t), stuck);
      } else {
        var pick := Minimum(Ready(t, done));
        assert pick in Ready(t, done);
        assert pick !in emitted && Elements(emitted + [pick]) == done + {pick};
        LinearizeSucceeds(t, n, emitted + [pick]);
      }
    }
  }

  lemma TableClosed(nodes: seq<Node>)
    ensures Closed(CauseTable(nodes))
  {
    hide Listed;
  }

  // ---- Main theorems ------------------------------------------------------------------------------------------------

  /** The merge succeeds exactly when ids are distinct, no present cause is listed twice and the
      present causes have no cycle; otherwise the source finds no ready object and fails. */
  lemma MergeSucceedsExactly(nodes: seq<Node>)
    ensures Merged(nodes).Some? <==>
            && Distinct(Ids(nodes))
            && (forall x :: x in CauseTable(nodes) ==> Distinct(CauseTable(nodes)[x]))
            && Acyclic(CausesIn(CauseTable(nodes)))
  {
    hide CauseTable, Linearize, Acyclic, Greedy;
    var t := CauseTable(nodes);
    if Merged(nodes).Some? {
      MergedFacts(nodes);
      OrderedIsAcyclic(Merged(nodes).value, t);
    }
    if Distinct(Ids(nodes)) && (forall x :: x in t ==> Distinct(t[x])) && Acyclic(CausesIn(t)) {
      TableSize(nodes);
      TableClosed(nodes);
      LinearizeSucceeds(t, |nodes|, []);
    }
  }

  lemma PositionsExact(order: seq<Bytes>, k: nat)
    requires Distinct(order) && k < |order|
    ensures Positions(order)[order[k]] == k
  {
    var p := Positions(order)[order[k]];
    assert order[p] == order[k];
  }

  lemma TableMeaning(nodes: seq<Node>, i: Bytes, c: Bytes)
    requires i in Ids(nodes)
    ensures i in CauseTable(nodes) && i in Listed(nodes)
    ensures c in CauseTable(nodes)[i] <==> c in Listed(nodes)[i] && c in Ids(nodes)
  {
    hide Listed;
  }

  /** The merge depends only on the objects: any permutation of the input gives the same result,
      failures included. */
  lemma MergeOrderIndependent(a: seq<Node>, b: seq<Node>)
    requires multiset(a) == multiset(b)
    ensures Merged(a) == Merged(b)
  {
    hide CauseTable, Listed, Linearize;
    assert |a| == |multiset(a)| == |multiset(b)| == |b|;
    SameIds(a, b);
    SameDistinct(Ids(a), Ids(b));
    if Distinct(Ids(a)) { SameTable(a, b); }
  }

  lemma SameIds(a: seq<Node>, b: seq<Node>)
    requires multiset(a) == multiset(b)
    ensures forall n :: n in a <==> n in b
    ensures forall x :: x in Ids(a) <==> x in Ids(b)
  {
    forall n ensures n in a <==> n in b {
      assert n in multiset(a) <==> n in a;
      assert n in multiset(b) <==> n in b;
    }
    forall x ensures x in Ids(a) <==> x in Ids(b) {
      if x in Ids(a) { IdCarries(a, b, x); }
      if x in Ids(b) { IdCarries(b, a, x); }
    }
  }

  lemma IdCarries(a: seq<Node>, b: seq<Node>, x: Bytes)
    requires (forall n :: n in a ==> n in b) && x in Ids(a)
    ensures x in Ids(b)
  {
    var i :| 0 <= i < |a| && Ids(a)[i] == x;
    assert a[i] in b;
    var j :| 0 <= j < |b| && b[j] == a[i];
    assert Ids(b)[j] == x;
  }

  lemma SameDistinct(s: seq<Bytes>, t: seq<Bytes>)
    requires |s| == |t| && forall x :: x in s <==> x in t
    ensures Distinct(s) <==> Distinct(t)
  {
    SetSize(s);
    SetSize(t);
    assert (set x | x in s) == set x | x in t;
  }

  lemma {:induction false} ListedAt(nodes: seq<Node>, i: nat)
    requires Distinct(Ids(nodes)) && i < |nodes|
    ensures nodes[i].id in Listed(nodes) && Listed(nodes)[nodes[i].id] == nodes[i].causes
  {
    var n := |nodes| - 1;
    if i < n {
      var most := nodes[..n];
      assert forall j :: 0 <= j < n ==> Ids(most)[j] == Ids(nodes)[j];
      ListedAt(most, i);
      assert Ids(nodes)[i] != Ids(nodes)[n];
    }
  }

  lemma {:induction false} PresentSame(cs: seq<Bytes>, ids: seq<Bytes>, ids': seq<Bytes>)
    requires forall x :: x in ids <==> x in ids'
    ensures OnlyPresent(cs, ids) == OnlyPresent(cs, ids')
  {
    if cs != [] { PresentSame(cs[1..], ids, ids'); }
  }

  lemma SameTable(a: seq<Node>, b: seq<Node>)
    requires Distinct(Ids(a)) && Distinct(Ids(b))
    requires forall n :: n in a <==> n in b
    requires forall x :: x in Ids(a) <==> x in Ids(b)
    ensures CauseTable(a) == CauseTable(b)
  {
    hide Listed;
    forall x | x in Ids(a) ensures x in Listed(b) && CauseTable(a)[x] == CauseTable(b)[x] {
      var i :| 0 <= i < |a| && Ids(a)[i] == x;
      assert a[i] in b;
      var j :| 0 <= j < |b| && b[j] == a[i];
      ListedAt(a, i);
      ListedAt(b, j);
      PresentSame(a[i].causes, Ids(a), Ids(b));
    }
    assert CauseTable(a).Keys == CauseTable(b).Keys;
  }

  ghost function Together(parts: seq<seq<Node>>): seq<Node> {
    if parts == [] then [] else parts[0] + Together(parts[1..])
  }

  /** However the objects are split across authorities, reconciling the parts gives one order. */
  lemma SplitIndependent(parts: seq<seq<Node>>, nodes: seq<Node>)
    requires multiset(Together(parts)) == multiset(nodes)
    ensures Merged(Together(parts)) == Merged(nodes)
  {
    hide Merged;
    MergeOrderIndependent(Together(parts), nodes);
  }

  /** Lexicographic order on lists of ids. */
  ghost predicate Before(a: seq<Bytes>, b: seq<Bytes>) {
    exists k :: 0 <= k < |a| && k < |b| && a[..k] == b[..k] && Less(a[k], b[k])
  }

  /** Every id once, accepted by the causal check. */
  ghost predicate ValidOrder(order: seq<Bytes>, nodes: seq<Node>) {
    Distinct(order) && (forall x :: x in order <==> x in Ids(nodes)) && CausallyValid(order, nodes)
  }

  /** Among all causally valid orders of the same ids, the merge gives the least. */
  lemma MergeIsLeast(nodes: seq<Node>, other: seq<Bytes>)
    requires Merged(nodes).Some? && ValidOrder(other, nodes)
    ensures Merged(nodes).value == other || Before(Merged(nodes).value, other)
  {
    hide Merged, CauseTable, Listed;
    MergedFacts(nodes);
    var order, t := Merged(nodes).value, CauseTable(nodes);
    SetSize(order);
    SetSize(other);
    assert (set x | x in order) == set x | x in other;
    if order != other {
      var k := FirstDifference(order, other);
      ValidNextIsReady(nodes, order, other, k);
      assert IsLeast(Bytewise(), order[k], Ready(t, Elements(order[..k])));
    }
  }

  lemma {:induction false} FirstDifference(a: seq<Bytes>, b: seq<Bytes>) returns (k: nat)
    requires |a| == |b| && a != b
    ensures k < |a| && a[..k] == b[..k] && a[k] != b[k]
  {
    if a[0] != b[0] {
      k := 0;
    } else {
      assert a == [a[0]] + a[1..] && b == [b[0]] + b[1..];
      var rest := FirstDifference(a[1..], b[1..]);
      k := rest + 1;
      assert a[..k] == [a[0]] + a[1..][..rest] && b[..k] == [b[0]] + b[1..][..rest];
    }
  }

  lemma EarlierByPosition(order: seq<Bytes>, k: nat, c: Bytes)
    requires Distinct(order) && k < |order| && c in order
    ensures c in order[..k] <==> c != order[k] && Positions(order)[c] <= Positions(order)[order[k]]
  {
    hide Positions;
    var j :| 0 <= j < |order| && order[j] == c;
    PositionsExact(order, k);
    PositionsExact(order, j);
    if j < k { assert order[..k][j] == c; }
  }

  lemma ListedBefore(nodes: seq<Node>, order: seq<Bytes>, k: nat, c: Bytes)
    requires Distinct(order) && (forall x :: x in order <==> x in Ids(nodes))
    requires k < |order| && order[k] in CauseTable(nodes) && c in CauseTable(nodes)[order[k]]
    ensures c in order && order[k] in Listed(nodes) && c in Listed(nodes)[order[k]]
    ensures c in order[..k] <==> c != order[k] && Positions(order)[c] <= Positions(order)[order[k]]
  {
    hide CauseTable, Listed, Positions, Distinct;
    assert order[k] in order;
    TableMeaning(nodes, order[k], c);
    EarlierByPosition(order, k, c);
  }

  /** The causal check lets an object be its own cause, and nothing else: a list of all ids puts every
      present cause strictly first exactly when the check accepts it and no object lists itself. */
  lemma StrictExactly(nodes: seq<Node>, order: seq<Bytes>)
    requires Distinct(order) && (forall x :: x in order <==> x in Ids(nodes))
    ensures Respects(order, CauseTable(nodes)) <==>
            CausallyValid(order, nodes) && forall x :: x in CauseTable(nodes) ==> x !in CauseTable(nodes)[x]
  {
    hide Listed, Positions, CauseTable;
    var t := CauseTable(nodes);
    if Respects(order, t) {
      forall i, c | i in order && i in Listed(nodes) && c in Listed(nodes)[i] && c in order
        ensures Positions(order)[c] <= Positions(order)[i]
      {
        var k :| 0 <= k < |order| && order[k] == i;
        TableMeaning(nodes, i, c);
        ListedBefore(nodes, order, k, c);
      }
      forall x | x in t ensures x !in t[x] {
        assert x in order;
        var k :| 0 <= k < |order| && order[k] == x;
        assert x !in order[..k];
      }
    }
    if CausallyValid(order, nodes) && forall x :: x in t ==> x !in t[x] {
      forall k, c | 0 <= k < |order| && order[k] in t && c in t[order[k]] ensures c in order[..k] {
        ListedBefore(nodes, order, k, c);
        assert order[k] in order;
      }
    }
  }

  /** The result holds every id once and is accepted by the causal check. */
  lemma MergeCorrect(nodes: seq<Node>)
    requires Merged(nodes).Some?
    ensures ValidOrder(Merged(nodes).value, nodes)
  {
    hide Merged, Greedy, CauseTable, CausallyValid, Respects;
    MergedFacts(nodes);
    var order := Merged(nodes).value;
    assert forall x :: x in CauseTable(nodes) <==> x in Ids(nodes);
    StrictExactly(nodes, order);
  }

  /** Where a valid order leaves the merge's order, its next id was ready too. */
  lemma ValidNextIsReady(nodes: seq<Node>, order: seq<Bytes>, other: seq<Bytes>, k: nat)
    requires Merged(nodes) == Some(order) && ValidOrder(other, nodes)
    requires k < |order| && k < |other| && order[..k] == other[..k]
    ensures other[k] in Ready(CauseTable(nodes), Elements(order[..k]))
  {
    hide Merged, Greedy, Listed, CauseTable, CausallyValid, Acyclic;
    MergedFacts(nodes);
    var t, x := CauseTable(nodes), other[k];
    assert x in other;
    StrictExactly(nodes, order);
    StrictExactly(nodes, other);
    assert x !in other[..k];
  }

  /** The verify event: a claimed order is accepted when recomputation agrees. */
  ghost predicate Verified(nodes: seq<Node>, claimed: seq<Bytes>) { Merged(nodes) == Some(claimed) }

  lemma BeforeAsymmetric(a: seq<Bytes>, b: seq<Bytes>)
    requires Before(a, b)
    ensures !Before(b, a)
  {
    hide Less;
    var k :| 0 <= k < |a| && k < |b| && a[..k] == b[..k] && Less(a[k], b[k]);
    LessTotal(a[k], b[k]);
    LessTotal(a[k], a[k]);
    forall j | 0 <= j < |a| && j < |b| && Less(b[j], a[j]) ensures a[..j] != b[..j] {
      LessTotal(a[j], a[j]);
    }
  }

  /** Where the merge succeeds, exactly one order is accepted: the valid one that no valid order
      precedes; where it fails, none is. */
  lemma VerifiedExactly(nodes: seq<Node>, claimed: seq<Bytes>)
    ensures Verified(nodes, claimed) <==>
            && Merged(nodes).Some? && ValidOrder(claimed, nodes)
            && forall other :: ValidOrder(other, nodes) ==> !Before(other, claimed)
  {
    hide Merged, ValidOrder, Before;
    if Merged(nodes).Some? {
      var order := Merged(nodes).value;
      MergeCorrect(nodes);
      forall other | ValidOrder(other, nodes) ensures !Before(other, order) {
        MergeIsLeast(nodes, other);
        if Before(order, other) { BeforeAsymmetric(order, other); } else { NotBeforeItself(order); }
      }
      if ValidOrder(claimed, nodes) { MergeIsLeast(nodes, claimed); }
    }
  }

  lemma NotBeforeItself(a: seq<Bytes>)
    ensures !Before(a, a)
  {
    if Before(a, a) { BeforeAsymmetric(a, a); }
  }

  /** A cause listed twice leaves its effect waiting for ever, although an accepted order exists. */
  lemma RepeatedCauseFails()
    ensures var nodes := [Node([1], []), Node([2], [[1], [1]])];
            Merged(nodes) == None && CausallyValid([[1], [2]], nodes)
  {
    hide Linearize, Merged, Acyclic, Listed, OnlyPresent, Positions;
    var nodes := [Node([1], []), Node([2], [[1], [1]])];
    ListedPair(nodes[0], nodes[1]);
    assert Ids(nodes) == [[1], [2]];
    TwoPresent([1], Ids(nodes));
    var t := CauseTable(nodes);
    assert [2] in t && t[[2]] == [[1], [1]];
    assert !Distinct(t[[2]]) by { assert t[[2]][0] == t[[2]][1]; }
    MergeSucceedsExactly(nodes);
    var order: seq<Bytes> := [[1], [2]];
    PositionsExact(order, 0);
    PositionsExact(order, 1);
  }

  /** An object that names itself as a cause passes the causal check but cannot be merged. */
  lemma SelfCauseFails()
    ensures var nodes := [Node([1], [[1]])]; Merged(nodes) == None && CausallyValid([[1]], nodes)
  {
    hide Linearize, Merged, Acyclic, OnlyPresent, Positions, CauseTable;
    var nodes := [Node([1], [[1]])];
    assert Ids(nodes) == [[1]] && nodes[..0] == [];
    assert Listed(nodes) == map[[1] := [[1]]];
    TableMeaning(nodes, [1], [1]);
    Closes(CausesIn(CauseTable(nodes)), [[1]], 0, [1]);
    MergeSucceedsExactly(nodes);
  }

  lemma ListedPair(a: Node, b: Node)
    requires a.id != b.id
    ensures Listed([a, b]) == map[a.id := a.causes, b.id := b.causes]
  {
    assert [a, b][..1] == [a] && [a][..0] == [];
  }

  lemma TwoPresent(c: Bytes, ids: seq<Bytes>)
    requires c in ids
    ensures OnlyPresent([c, c], ids) == [c, c]
  {
    assert [c, c][1..] == [c] && [c][1..] == [];
    assert OnlyPresent([c], ids) == [c] + OnlyPresent([], ids) == [c];
  }
}
