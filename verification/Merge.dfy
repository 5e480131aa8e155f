/** The deterministic causal merge: Kahn's algorithm with a content-id tie-break. */
module Merge {
  import opened Octets
  import opened SortedSets

  /** An object: its content id and the content ids of its causes. */
  datatype Node = Node(id: Bytes, causes: seq<Bytes>)

  /** Present causes of each present id. */
  type Table = map<Bytes, seq<Bytes>>

  function Ids(nodes: seq<Node>): (ids: seq<Bytes>)
    ensures |ids| == |nodes| && forall i :: 0 <= i < |ids| ==> ids[i] == nodes[i].id
  {
    seq(|nodes|, i requires 0 <= i < |nodes| => nodes[i].id)
  }

  /** The causes listed for each id; a later node with the same id replaces an earlier one. */
  function Listed(nodes: seq<Node>): (t: Table)
    ensures forall x :: x in t <==> x in Ids(nodes)
  {
    if nodes == [] then map[]
    else
      var n := |nodes| - 1;
      assert Ids(nodes) == Ids(nodes[..n]) + [nodes[n].id];
      Listed(nodes[..n])[nodes[n].id := nodes[n].causes]
  }

  /** The causes listed for an id are those of the last node that has it. */
  lemma {:induction false} ListedLast(nodes: seq<Node>, i: nat)
    requires i < |nodes| && forall k :: i < k < |nodes| ==> nodes[k].id != nodes[i].id
    ensures nodes[i].id in Ids(nodes) && Listed(nodes)[nodes[i].id] == nodes[i].causes
  {
    hide Listed;
    assert Ids(nodes)[i] == nodes[i].id;
    var n := |nodes| - 1;
    ListedStep(nodes);
    var most := nodes[..n];
    if i < n {
      assert most[i].id != nodes[n].id && forall k :: i < k < n ==> most[k].id != most[i].id;
      ListedLast(most, i);
    }
  }

  lemma ListedStep(nodes: seq<Node>)
    requires nodes != []
    ensures var n := |nodes| - 1; Listed(nodes) == Listed(nodes[..n])[nodes[n].id := nodes[n].causes]
  {}

  function OnlyPresent(cs: seq<Bytes>, ids: seq<Bytes>): (r: seq<Bytes>)
    ensures forall c :: c in r <==> c in cs && c in ids
  {
    if cs == [] then [] else (if cs[0] in ids then [cs[0]] else []) + OnlyPresent(cs[1..], ids)
  }

  /** Only present causes constrain. */
  function CauseTable(nodes: seq<Node>): (t: Table)
    ensures t.Keys == Listed(nodes).Keys
  {
    map x | x in Listed(nodes) :: OnlyPresent(Listed(nodes)[x], Ids(nodes))
  }

  // ---- The least ready id ------------------------------------------------------------------------------

  function Least(s: seq<Bytes>): (m: Bytes)
    requires s != []
    ensures m in s && forall x :: x in s ==> x == m || Less(m, x)
  {
    if |s| == 1 then s[0]
    else
      var rest := Least(s[1..]);
      assert s == [s[0]] + s[1..];
      LessTotal(s[0], rest);
      if Less(rest, s[0]) then rest
      else
        assert forall x :: x in s[1..] && Less(s[0], rest) && Less(rest, x) ==> Less(s[0], x) by {
          forall x | x in s[1..] && Less(s[0], rest) && Less(rest, x) ensures Less(s[0], x) {
            LessTransitive(s[0], rest, x);
          }
        }
        s[0]
  }

  ghost function Minimum(s: set<Bytes>): (m: Bytes)
    requires s != {}
    ensures IsLeast(Bytewise(), m, s)
  {
    BytewiseTotal();
    LeastOf(Bytewise(), s)
  }

  // ---- The merge ------------------------------------------------------------------------------------------

  /** Ids not yet emitted whose causes, listed once each, have all been emitted. */
  ghost function Ready(t: Table, done: set<Bytes>): set<Bytes> {
    set x | x in t && x !in done && Distinct(t[x]) && forall c :: c in t[x] ==> c in done
  }

  /** Emit the least ready id until n are out; None when nothing is ready (the source fails there). */
  ghost function Linearize(t: Table, n: nat, emitted: seq<Bytes>): Option<seq<Bytes>>
    decreases n - |emitted|
  {
    if |emitted| >= n then Some(emitted)
    else
      var ready := Ready(t, Elements(emitted));
      if ready == {} then None else Linearize(t, n, emitted + [Minimum(ready)])
  }

  ghost function Merged(nodes: seq<Node>): Option<seq<Bytes>> {
    if Distinct(Ids(nodes)) then Linearize(CauseTable(nodes), |nodes|, []) else None
  }

  // ---- The loop, with its indegree counters -------------------------------------------------------------------

  /** How many listed causes remain, counting a repeated cause until it could never reach zero. */
  ghost function Remaining(cs: seq<Bytes>, done: set<Bytes>): int { |cs| - |set c | c in cs && c in done| }

  lemma RemainingZero(cs: seq<Bytes>, done: set<Bytes>)
    ensures Remaining(cs, done) == 0 <==> Distinct(cs) && forall c :: c in cs ==> c in done
  {
    SetSize(cs);
    var all, some := set c | c in cs, set c | c in cs && c in done;
    SubsetSize(some, all);
    if Remaining(cs, done) == 0 {
      assert |some| == |all|;
      SameSize(some, all);
      forall c | c in cs ensures c in done { assert c in all; }
    }
    if forall c :: c in cs ==> c in done { assert some == all; }
  }

  lemma RemainingStep(cs: seq<Bytes>, done: set<Bytes>, pick: Bytes)
    requires pick !in done
    ensures Remaining(cs, done + {pick}) == Remaining(cs, done) - if pick in cs then 1 else 0
  {
    var before, after := set c | c in cs && c in done, set c | c in cs && c in done + {pick};
    assert after == if pick in cs then before + {pick} else before;
  }

  method ReadyList(ids: seq<Bytes>, done: set<Bytes>, indeg: map<Bytes, int>) returns (ready: seq<Bytes>)
    requires forall i :: i in ids ==> i in indeg
    ensures forall x :: x in ready <==> x in ids && x !in done && indeg[x] == 0
  {
    ready := [];
    for k := 0 to |ids|
      invariant forall x :: x in ready <==> x in ids[..k] && x !in done && indeg[x] == 0
    {
      assert ids[..k + 1] == ids[..k] + [ids[k]];
      if ids[k] !in done && indeg[ids[k]] == 0 { ready := ready + [ids[k]]; }
    }
    assert ids[..|ids|] == ids;
  }

  /** Decrement once per listed id; with distinct ids that is once per remaining effect of pick. */
  method Release(ids: seq<Bytes>, causes: Table, done: set<Bytes>, pick: Bytes, indeg: map<Bytes, int>)
    returns (next: map<Bytes, int>)
    requires forall i :: i in ids ==> i in indeg && i in causes
    ensures next.Keys == indeg.Keys
    ensures Distinct(ids) ==>
              forall x :: x in ids && x !in done ==> next[x] == indeg[x] - if pick in causes[x] then 1 else 0
  {
    next := indeg;
    for k := 0 to |ids|
      invariant next.Keys == indeg.Keys
      invariant Distinct(ids) ==> forall j :: 0 <= j < |ids| && ids[j] !in done ==>
                  next[ids[j]] == indeg[ids[j]] - if j < k && pick in causes[ids[j]] then 1 else 0
    {
      if ids[k] !in done && pick in causes[ids[k]] { next := next[ids[k] := next[ids[k]] - 1]; }
    }
  }

  /** The ready ids by counters are the ready ids by meaning. */
  lemma ReadyByCounters(t: Table, done: set<Bytes>, indeg: map<Bytes, int>, ready: set<Bytes>)
    requires indeg.Keys == t.Keys
    requires forall x :: x in t && x !in done ==> indeg[x] == Remaining(t[x], done)
    requires ready == set x | x in t && x !in done && indeg[x] == 0
    ensures ready == Ready(t, done)
  {
    forall x | x in t && x !in done ensures x in ready <==> x in Ready(t, done) { RemainingZero(t[x], done); }
  }

  /** The loop invariant: the state so far leads to the same result as the whole input. */
  ghost predicate Running(nodes: seq<Node>, emitted: seq<Bytes>, done: set<Bytes>, indeg: map<Bytes, int>) {
    var t := CauseTable(nodes);
    && done == Elements(emitted) && |done| == |emitted| && done <= t.Keys && indeg.Keys == t.Keys
    && (Distinct(Ids(nodes)) ==>
          && Merged(nodes) == Linearize(t, |nodes|, emitted)
          && forall x :: x in t && x !in done ==> indeg[x] == Remaining(t[x], done))
  }

  ghost function ReadyNow(t: Table, done: set<Bytes>, indeg: map<Bytes, int>): set<Bytes>
    requires indeg.Keys == t.Keys
  {
    set x | x in t && x !in done && indeg[x] == 0
  }

  lemma StartsRunning(nodes: seq<Node>, indeg: map<Bytes, int>)
    requires indeg.Keys == CauseTable(nodes).Keys
    requires forall x :: x in indeg ==> indeg[x] == |CauseTable(nodes)[x]|
    ensures Running(nodes, [], {}, indeg)
  {
    hide CauseTable, Linearize;
    var t := CauseTable(nodes);
    forall x | x in t ensures Remaining(t[x], {}) == |t[x]| { assert (set c | c in t[x] && c in {}) == {}; }
  }

  lemma StuckIsNone(nodes: seq<Node>, emitted: seq<Bytes>, done: set<Bytes>, indeg: map<Bytes, int>)
    requires Running(nodes, emitted, done, indeg) && |emitted| < |nodes|
    requires ReadyNow(CauseTable(nodes), done, indeg) == {}
    ensures Merged(nodes) == None
  {
    hide CauseTable, Ready, Remaining;
    if Distinct(Ids(nodes)) { ReadyByCounters(CauseTable(nodes), done, indeg, {}); }
  }

  lemma StepRuns(nodes: seq<Node>, emitted: seq<Bytes>, done: set<Bytes>, indeg: map<Bytes, int>,
                 pick: Bytes, next: map<Bytes, int>)
    requires Running(nodes, emitted, done, indeg) && |emitted| < |nodes|
    requires IsLeast(Bytewise(), pick, ReadyNow(CauseTable(nodes), done, indeg))
    requires next.Keys == indeg.Keys
    requires Distinct(Ids(nodes)) ==>
               forall x :: x in indeg && x !in done + {pick} ==>
                 next[x] == indeg[x] - if pick in CauseTable(nodes)[x] then 1 else 0
    ensures Running(nodes, emitted + [pick], done + {pick}, next)
  {
    hide CauseTable, Ready, Remaining, Merged;
    var t := CauseTable(nodes);
    assert Elements(emitted + [pick]) == done + {pick};
    if Distinct(Ids(nodes)) {
      ReadyByCounters(t, done, indeg, ReadyNow(t, done, indeg));
      BytewiseTotal();
      LeastUnique(Bytewise(), pick, Minimum(Ready(t, done)), Ready(t, done));
      forall x | x in t && x !in done + {pick} ensures next[x] == Remaining(t[x], done + {pick}) {
        RemainingStep(t[x], done, pick);
      }
    }
  }

  method Reconcile(nodes: seq<Node>) returns (order: Option<seq<Bytes>>)
    ensures order == Merged(nodes)
  {
    hide Less, Listed, CauseTable, Linearize, Merged, Running;
    var ids, causes := Ids(nodes), CauseTable(nodes);
    var indeg := map x | x in causes :: |causes[x]|;
    var emitted: seq<Bytes>, done: set<Bytes> := [], {};
    StartsRunning(nodes, indeg);
    while |emitted| < |ids|
      invariant Running(nodes, emitted, done, indeg) && indeg.Keys == causes.Keys
      decreases |ids| - |emitted|
    {
      var ready := ReadyList(ids, done, indeg);
      assert forall x :: x in ready <==> x in ReadyNow(causes, done, indeg);
      if ready == [] {
        assert ReadyNow(causes, done, indeg) == {};
        StuckIsNone(nodes, emitted, done, indeg);
        return None;
      }
      var pick := Least(ready);
      var next := Release(ids, causes, done + {pick}, pick, indeg);
      StepRuns(nodes, emitted, done, indeg, pick, next);
      done, emitted, indeg := done + {pick}, emitted + [pick], next;
    }
    Finished(nodes, emitted, done, indeg);
    return Some(emitted);
  }

  lemma Finished(nodes: seq<Node>, emitted: seq<Bytes>, done: set<Bytes>, indeg: map<Bytes, int>)
    requires Running(nodes, emitted, done, indeg) && |emitted| >= |nodes|
    ensures Merged(nodes) == Some(emitted)
  {
    hide Merged, CauseTable, Remaining;
    DistinctBySize(Ids(nodes), CauseTable(nodes).Keys, done);
  }

  /** Emitting as many distinct present ids as were listed shows that no id was listed twice. */
  lemma DistinctBySize(ids: seq<Bytes>, keys: set<Bytes>, done: set<Bytes>)
    requires forall x :: x in keys <==> x in ids
    requires done <= keys && |done| >= |ids|
    ensures Distinct(ids)
  {
    SetSize(ids);
    assert keys == set x | x in ids;
    SubsetSize(done, keys);
  }
}
