/** The single-use consume ledger: approvals, the hash-chained log, replay and whole runs. */
module Ledger {
  import opened Octets
  import opened Cbor
  import opened Records
  import opened HashChain
  import opened Payloads
  import opened LedgerRecords

  datatype Approval = Approval(approves: Blob, approver: Text, grant: u64, nonce: Blob, notAfter: u64)

  /** A record of the log, with the entry it is read as. */
  datatype Logged = Logged(raw: Bytes, entry: LedgerEntry)

  /** One request to consume: the approval, its signature, the arguments' content id presented,
      the ordering position's time, the effect the action needs and the consumer. */
  datatype Attempt = Attempt(approval: Approval, sig: Bytes, presented: Bytes, posTime: u64, required: u64,
                             consumer: Text)

  datatype Reason =
    BadSignature | ApprovalMismatch | ApprovalExpired | ApprovalRequired | AlreadyConsumed | OutOfRange

  datatype Outcome = Consumed(entry: LedgerEntry) | Refused(reason: Reason)

  /** What the ledger cannot compute itself: the digest, and signature verification by approver. */
  datatype World = World(h: Hash, verify: (Text, Bytes, Bytes) -> bool)

  const DESTRUCTIVE: int := 3

  // ---- Bodies --------------------------------------------------------------------------------------

  function ApprovalFields(a: Approval): (fs: seq<Value>)
    ensures Fields(fs)
  {
    [Bstr(a.approves), Tstr(a.approver), Int(a.grant), Bstr(a.nonce), Int(a.notAfter)]
  }

  function ApprovalBody(a: Approval): Bytes { RecordBytes(ApprovalFields(a)) }

  function ApprovalId(h: Hash, a: Approval): (id: Blob) { ContentId(h, ApprovalBody(a)) }

  /** {1: approves, 2: approver, 3: grant, 4: nonce, 5: not_after}. */
  lemma ApprovalBodyCarries(a: Approval)
    ensures var raw := ApprovalBody(a);
            && Carries(raw, 1, Bstr(a.approves)) && Carries(raw, 2, Tstr(a.approver)) && Carries(raw, 3, Int(a.grant))
            && Carries(raw, 4, Bstr(a.nonce)) && Carries(raw, 5, Int(a.notAfter)) && |DecodeMap(raw).value| == 5
  {
    hide RecordBytes, DecodeMap, Carries;
    BodyCarries(ApprovalFields(a));
  }

  function Written(e: LedgerEntry): Logged { Logged(EntryBody(e), e) }

  /** The chain runs over the records as they stand in the log. */
  function Entries(): Kind<Logged> {
    Kind((r: Logged) => r.raw, (r: Logged) => r.entry.seqNo as int, (r: Logged) => r.entry.prev)
  }

  /** An approval id names one approval, or two approval bodies collide. */
  lemma ApprovalIdBinds(h: Hash, a: Approval, b: Approval)
    requires ApprovalId(h, a) == ApprovalId(h, b)
    ensures a == b || Collision(h, {ApprovalBody(a), ApprovalBody(b)})
  {
    hide RecordBytes;
    assert ApprovalId(h, a)[2..] == h(ApprovalBody(a)) && ApprovalId(h, b)[2..] == h(ApprovalBody(b));
    if ApprovalBody(a) == ApprovalBody(b) {
      var fs, gs := ApprovalFields(a), ApprovalFields(b);
      RecordInjective(fs, gs);
      assert fs[0] == gs[0] && fs[1] == gs[1] && fs[2] == gs[2] && fs[3] == gs[3] && fs[4] == gs[4];
    }
  }

  // ---- One attempt -----------------------------------------------------------------------------------

  /** The checks made before the ledger is consulted, in the order in which they decide. */
  function Screen(w: World, a: Attempt): Option<Reason> {
    if !w.verify(a.approval.approver, ApprovalBody(a.approval), a.sig) then Some(BadSignature)
    else if a.approval.approves != a.presented then Some(ApprovalMismatch)
    else if a.posTime > a.approval.notAfter then Some(ApprovalExpired)
    else if a.approval.grant > DESTRUCTIVE || a.required > a.approval.grant then Some(ApprovalRequired)
    else None
  }

  ghost predicate Holds(log: seq<Logged>, id: Bytes) { exists r :: r in log && r.entry.approvalId == id }

  ghost function NextEntry(h: Hash, log: seq<Logged>, id: Blob, consumer: Text): LedgerEntry
    requires |log| < U64
  {
    LedgerEntry(|log|, HeadAfter(h, Entries(), GENESIS, log), id, consumer)
  }

  /** The compare-and-set: the first consumer of an id wins. */
  ghost function Admit(h: Hash, log: seq<Logged>, id: Blob, consumer: Text): Outcome {
    if Holds(log, id) then Refused(AlreadyConsumed)
    else if |log| >= U64 then Refused(OutOfRange)
    else Consumed(NextEntry(h, log, id, consumer))
  }

  ghost function Decide(w: World, log: seq<Logged>, a: Attempt): Outcome {
    match Screen(w, a)
    case Some(reason) => Refused(reason)
    case None => Admit(w.h, log, ApprovalId(w.h, a.approval), a.consumer)
  }

  ghost function LogAfter(log: seq<Logged>, o: Outcome): seq<Logged> {
    if o.Consumed? then log + [Written(o.entry)] else log
  }

  ghost predicate ReadAsLogged(log: seq<Logged>) { forall r :: r in log ==> Parse(r.raw) == Some(r.entry) }

  ghost predicate SpentOnce(log: seq<Logged>) {
    forall i, j :: 0 <= i < j < |log| ==> log[i].entry.approvalId != log[j].entry.approvalId
  }

  /** The invariant of the ledger: the records are what they are read as, well linked from genesis,
      and every id is consumed once. */
  ghost predicate Sound(h: Hash, log: seq<Logged>) {
    ReadAsLogged(log) && Linked(h, Entries(), GENESIS, log) && SpentOnce(log)
  }

  lemma AdmitSound(h: Hash, log: seq<Logged>, id: Blob, consumer: Text)
    requires Sound(h, log)
    ensures Sound(h, LogAfter(log, Admit(h, log, id, consumer)))
  {
    hide EntryBody, Parse;
    if Admit(h, log, id, consumer).Consumed? {
      var e := NextEntry(h, log, id, consumer);
      EntryRoundTrip(e);
      LinkedAppend(h, Entries(), GENESIS, log, Written(e));
    }
  }

  // ---- The ledger object --------------------------------------------------------------------------------

  /** Where each id was consumed: the map the ledger keeps beside its log. */
  ghost function Index(log: seq<Logged>): (m: map<Bytes, nat>)
    ensures forall id :: id in m <==> Holds(log, id)
  {
    if log == [] then map[]
    else
      var n := |log| - 1;
      assert log == log[..n] + [log[n]];
      Index(log[..n])[log[n].entry.approvalId := n]
  }

  lemma IndexAppend(log: seq<Logged>, r: Logged)
    ensures Index(log + [r]) == Index(log)[r.entry.approvalId := |log|]
  {
    assert (log + [r])[..|log|] == log;
  }

  class ConsumeLedger {
    const w: World
    var consumed: map<Bytes, nat>
    var head: Digest
    var next: nat
    var wal: seq<Logged>

    /** The in-memory state is the one the write-ahead log determines. */
    ghost predicate Mirrors()
      reads this
    {
      consumed == Index(wal) && next == |wal| && head == HeadAfter(w.h, Entries(), GENESIS, wal)
    }

    ghost predicate Valid()
      reads this
    {
      Sound(w.h, wal) && Mirrors()
    }

    constructor (w: World)
      ensures Valid() && wal == [] && this.w == w
    {
      this.w, consumed, head, next, wal := w, map[], GENESIS, 0, [];
    }

    /** The new state is the old one with the admitted entry, or the old one. */
    method Consume(id: Blob, consumer: Text) returns (o: Outcome)
      requires Valid()
      modifies this
      ensures Valid()
      ensures o == Admit(w.h, old(wal), id, consumer) && wal == LogAfter(old(wal), o)
    {
      hide EntryBody, Sound, Index, Holds;
      AdmitSound(w.h, wal, id, consumer);
      if id in consumed { return Refused(AlreadyConsumed); }
      if next >= U64 { return Refused(OutOfRange); }
      var e := LedgerEntry(next, head, id, consumer);
      IndexAppend(wal, Written(e));
      wal := wal + [Written(e)];
      consumed := consumed[id := next];
      head := w.h(EntryBody(e));
      next := next + 1;
      return Consumed(e);
    }

    method ConsumeApproval(a: Attempt) returns (o: Outcome)
      requires Valid()
      modifies this
      ensures Valid()
      ensures o == Decide(w, old(wal), a) && wal == LogAfter(old(wal), o)
    {
      hide Sound, Index;
      var refused := Screen(w, a);
      if refused.Some? { return Refused(refused.value); }
      o := Consume(ApprovalId(w.h, a.approval), a.consumer);
    }

    /** Reopening: read the records of a write-ahead log back. Records that do not parse and chain
        are refused and the ledger left as it was. Records that do restore the state they determine,
        and that state is a valid one exactly when no id is spent twice. */
    method Replay(records: seq<Bytes>) returns (ok: bool)
      requires Valid()
      modifies this
      ensures ok <==> Chained(w.h, records)
      ensures ok ==> Parses(records) && wal == ReadAs(records) && Mirrors()
      ensures ok ==> (Valid() <==> SpentOnce(wal))
      ensures !ok ==> Valid() && wal == old(wal)
    {
      hide Index, Linked, Parse;
      var log, seen, chain;
      ok, log, seen, chain := ReadLog(w.h, records);
      if ok { consumed, head, next, wal := seen, chain, |records|, log; }
    }
  }

  ghost predicate Parses(records: seq<Bytes>) { forall i :: 0 <= i < |records| ==> Parse(records[i]).Some? }

  ghost function ReadAs(records: seq<Bytes>): (log: seq<Logged>)
    requires Parses(records)
    ensures |log| == |records| && ReadAsLogged(log)
  {
    seq(|records|, i requires 0 <= i < |records| => Logged(records[i], Parse(records[i]).value))
  }

  /** Every record is read as an entry, and the entries link the records from genesis. */
  ghost predicate Chained(h: Hash, records: seq<Bytes>) {
    Parses(records) && Linked(h, Entries(), GENESIS, ReadAs(records))
  }

  method ReadLog(h: Hash, records: seq<Bytes>)
    returns (ok: bool, log: seq<Logged>, seen: map<Bytes, nat>, chain: Digest)
    ensures ok <==> Chained(h, records)
    ensures ok ==> Parses(records) && log == ReadAs(records)
    ensures ok ==> seen == Index(log) && chain == HeadAfter(h, Entries(), GENESIS, log)
  {
    hide Index, Parse;
    log, seen, chain := [], map[], GENESIS;
    EmptyIndex();
    for i := 0 to |records|
      invariant |log| == i
      invariant forall j :: 0 <= j < i ==> log[j].raw == records[j] && Parse(records[j]) == Some(log[j].entry)
      invariant Linked(h, Entries(), GENESIS, log)
      invariant chain == HeadAfter(h, Entries(), GENESIS, log) && seen == Index(log)
    {
      var parsed := ParseEntry(records[i]);
      if parsed.None? { return false, log, seen, chain; }
      var e := parsed.value;
      if e.seqNo != i || e.prev != chain {
        NotChained(h, records, log, e);
        return false, log, seen, chain;
      }
      var r := Logged(records[i], e);
      IndexAppend(log, r);
      LinkedAppend(h, Entries(), GENESIS, log, r);
      log := log + [r];
      seen := seen[e.approvalId := i];
      chain := h(records[i]);
    }
    assert Parses(records) && log == ReadAs(records);
    return true, log, seen, chain;
  }

  lemma NotChained(h: Hash, records: seq<Bytes>, log: seq<Logged>, e: LedgerEntry)
    requires |log| < |records| && Parse(records[|log|]) == Some(e)
    requires forall j :: 0 <= j < |log| ==> log[j].raw == records[j] && Parse(records[j]) == Some(log[j].entry)
    requires e.seqNo != |log| || e.prev != HeadAfter(h, Entries(), GENESIS, log)
    ensures !Chained(h, records)
  {
    hide Parse;
    if Parses(records) {
      var all := ReadAs(records);
      assert all[..|log|] == log;
      assert !LinkedAt(h, Entries(), GENESIS, all, |log|);
    }
  }

  /** What a sound ledger wrote is read back as the same log. */
  lemma ReopenRestores(h: Hash, log: seq<Logged>, records: seq<Bytes>)
    requires Sound(h, log) && |records| == |log|
    requires forall i :: 0 <= i < |log| ==> records[i] == log[i].raw
    ensures Chained(h, records) && ReadAs(records) == log
  {
    hide Parse;
    forall i | 0 <= i < |records| ensures Parse(records[i]) == Some(log[i].entry) { assert log[i] in log; }
    assert ReadAs(records) == log;
  }

  lemma EmptyIndex()
    ensures Index([]) == map[]
  {}

  // ---- Whole runs -------------------------------------------------------------------------------------------

  /** The log and the outcomes after a sequence of attempts. */
  ghost function Run(w: World, log: seq<Logged>, attempts: seq<Attempt>): (r: (seq<Logged>, seq<Outcome>))
    ensures |r.1| == |attempts|
    decreases |attempts|
  {
    if attempts == [] then (log, [])
    else
      var o := Decide(w, log, attempts[0]);
      var rest := Run(w, LogAfter(log, o), attempts[1..]);
      (rest.0, [o] + rest.1)
  }

  ghost function Accepted(os: seq<Outcome>): seq<Logged> {
    if os == [] then [] else (if os[0].Consumed? then [Written(os[0].entry)] else []) + Accepted(os[1..])
  }

  /** Safety over every run: the log stays sound, and it is exactly the accepted entries in order. */
  lemma {:induction false} RunSound(w: World, log: seq<Logged>, attempts: seq<Attempt>)
    requires Sound(w.h, log)
    ensures var (final, os) := Run(w, log, attempts);
            Sound(w.h, final) && final == log + Accepted(os)
    decreases |attempts|
  {
    hide Sound, Admit, Screen, ApprovalId, Run, Accepted;
    RunUnfold(w, log, attempts);
    if attempts == [] {
      assert log + [] == log;
    } else {
      var a, o := attempts[0], Decide(w, log, attempts[0]);
      if Screen(w, a).None? { AdmitSound(w.h, log, ApprovalId(w.h, a.approval), a.consumer); }
      RunSound(w, LogAfter(log, o), attempts[1..]);
      var os := Run(w, LogAfter(log, o), attempts[1..]).1;
      AcceptedCons(o, os);
      assert log + Accepted([o] + os) == LogAfter(log, o) + Accepted(os);
    }
  }

  lemma RunUnfold(w: World, log: seq<Logged>, attempts: seq<Attempt>)
    ensures attempts == [] ==> Run(w, log, attempts) == (log, []) && Accepted([]) == []
    ensures attempts != [] ==>
              var o := Decide(w, log, attempts[0]);
              var rest := Run(w, LogAfter(log, o), attempts[1..]);
              Run(w, log, attempts) == (rest.0, [o] + rest.1)
  {
    hide Decide;
  }

  lemma AcceptedCons(o: Outcome, os: seq<Outcome>)
    ensures Accepted([o] + os) == (if o.Consumed? then [Written(o.entry)] else []) + Accepted(os)
  {
    assert ([o] + os)[1..] == os;
  }

  ghost function Successful(attempts: seq<Attempt>, os: seq<Outcome>): seq<Attempt>
    requires |attempts| == |os|
  {
    if os == [] then []
    else (if os[0].Consumed? then [attempts[0]] else []) + Successful(attempts[1..], os[1..])
  }

  ghost function Successes(os: seq<Outcome>): seq<Outcome> {
    if os == [] then [] else (if os[0].Consumed? then [os[0]] else []) + Successes(os[1..])
  }

  /** A refusal leaves no trace: replaying only the successful attempts gives the same log and
      the same accepted outcomes. */
  lemma {:induction false} RefusalsLeaveNoTrace(w: World, log: seq<Logged>, attempts: seq<Attempt>)
    ensures var (final, os) := Run(w, log, attempts);
            Run(w, log, Successful(attempts, os)) == (final, Successes(os))
    decreases |attempts|
  {
    if attempts != [] {
      hide Decide;
      var o := Decide(w, log, attempts[0]);
      var rest := Run(w, LogAfter(log, o), attempts[1..]);
      var os := [o] + rest.1;
      RefusalsLeaveNoTrace(w, LogAfter(log, o), attempts[1..]);
      assert os[1..] == rest.1;
      var kept := Successful(attempts[1..], rest.1);
      if o.Consumed? {
        assert Successful(attempts, os) == [attempts[0]] + kept;
        assert ([attempts[0]] + kept)[1..] == kept;
      } else {
        assert Successful(attempts, os) == [] + kept == kept;
        assert Successes(os) == [] + Successes(rest.1) == Successes(rest.1);
      }
    }
  }

  ghost predicate Passes(w: World, a: Attempt) { Screen(w, a).None? }

  /** One of the first j attempts passed with this approval id. */
  ghost predicate Taken(w: World, attempts: seq<Attempt>, j: nat, id: Bytes)
    requires j <= |attempts|
  {
    exists i :: 0 <= i < j && Passes(w, attempts[i]) && ApprovalId(w.h, attempts[i].approval) == id
  }

  /** First passing attempt wins: over a run from an empty ledger, an attempt consumes exactly when
      it is signed, names the arguments presented, is unexpired and covers the effect, and no
      earlier such attempt names its approval; a later one is refused AlreadyConsumed. A mismatch
      is reported whatever the time or the ledger, and expiry even of a consumed approval. */
  lemma FirstPassingWins(w: World, attempts: seq<Attempt>, j: nat)
    requires j < |attempts| <= U64
    ensures var a, o := attempts[j], Run(w, [], attempts).1[j];
            var signed := w.verify(a.approval.approver, ApprovalBody(a.approval), a.sig);
            var matches := a.approval.approves == a.presented;
            var unexpired := a.posTime <= a.approval.notAfter;
            var covered := a.required <= a.approval.grant <= 3;
            var taken := Taken(w, attempts, j, ApprovalId(w.h, a.approval));
            && (Passes(w, a) <==> signed && matches && unexpired && covered)
            && (!signed <==> o == Refused(BadSignature))
            && (signed && !matches <==> o == Refused(ApprovalMismatch))
            && (signed && matches && !unexpired <==> o == Refused(ApprovalExpired))
            && (signed && matches && unexpired && !covered <==> o == Refused(ApprovalRequired))
            && (Passes(w, a) && taken <==> o == Refused(AlreadyConsumed))
            && (Passes(w, a) && !taken <==> o.Consumed?)
            && (o.Consumed? ==> o.entry.approvalId == ApprovalId(w.h, a.approval) && o.entry.consumer == a.consumer)
  {
    hide ApprovalId, ApprovalBody;
    RunAt(w, [], attempts, j);
    var before := Run(w, [], attempts[..j]).0;
    HeldExactly(w, attempts[..j]);
    RunLength(w, [], attempts[..j]);
    var id := ApprovalId(w.h, attempts[j].approval);
    TakenPrefix(w, attempts, j, id);
    hide Run, Holds, Taken;
    assert Run(w, [], attempts).1[j] == Decide(w, before, attempts[j]);
  }

  lemma TakenPrefix(w: World, attempts: seq<Attempt>, j: nat, id: Bytes)
    requires j <= |attempts|
    ensures Taken(w, attempts[..j], j, id) <==> Taken(w, attempts, j, id)
  {
    hide Passes, ApprovalId;
    assert forall i :: 0 <= i < j ==> attempts[..j][i] == attempts[i];
    if i :| 0 <= i < j && Passes(w, attempts[i]) && ApprovalId(w.h, attempts[i].approval) == id {
      assert Passes(w, attempts[..j][i]);
    }
  }

  /** The outcome at j is decided on the log left by the attempts before it. */
  lemma {:induction false} RunAt(w: World, log: seq<Logged>, attempts: seq<Attempt>, j: nat)
    requires j < |attempts|
    ensures Run(w, log, attempts).1[j] == Decide(w, Run(w, log, attempts[..j]).0, attempts[j])
    decreases |attempts|
  {
    hide Decide;
    if j > 0 {
      RunAt(w, LogAfter(log, Decide(w, log, attempts[0])), attempts[1..], j - 1);
      assert attempts[..j][1..] == attempts[1..][..j - 1];
    }
  }

  lemma {:induction false} RunAppend(w: World, log: seq<Logged>, attempts: seq<Attempt>, a: Attempt)
    ensures Run(w, log, attempts + [a]).0
            == LogAfter(Run(w, log, attempts).0, Decide(w, Run(w, log, attempts).0, a))
    decreases |attempts|
  {
    hide Decide;
    if attempts == [] {
      assert attempts + [a] == [a];
    } else {
      RunAppend(w, LogAfter(log, Decide(w, log, attempts[0])), attempts[1..], a);
      assert (attempts + [a])[1..] == attempts[1..] + [a];
    }
  }

  lemma {:induction false} RunLength(w: World, log: seq<Logged>, attempts: seq<Attempt>)
    ensures |Run(w, log, attempts).0| <= |log| + |attempts|
    decreases |attempts|
  {
    hide Decide;
    if attempts != [] { RunLength(w, LogAfter(log, Decide(w, log, attempts[0])), attempts[1..]); }
  }

  /** The ids held after a run are exactly those of the attempts that passed the screen. */
  lemma {:induction false} HeldExactly(w: World, attempts: seq<Attempt>)
    requires |attempts| <= U64
    ensures forall id :: Holds(Run(w, [], attempts).0, id) <==> Taken(w, attempts, |attempts|, id)
    decreases |attempts|
  {
    hide Screen, ApprovalId, Run;
    if attempts == [] {
      EmptyRun(w);
    } else {
      hide Holds, Taken;
      var n := |attempts| - 1;
      var most, a := attempts[..n], attempts[n];
      assert attempts == most + [a];
      HeldExactly(w, most);
      RunAppend(w, [], most, a);
      RunLength(w, [], most);
      var log := Run(w, [], most).0;
      RecordHolds(log, Decide(w, log, a));
      forall id ensures Holds(Run(w, [], attempts).0, id) <==> Taken(w, attempts, |attempts|, id) {
        LastAttempt(w, most, a, id);
      }
    }
  }

  lemma EmptyRun(w: World)
    ensures Run(w, [], []) == ([], [])
  {}

  lemma RecordHolds(log: seq<Logged>, o: Outcome)
    ensures forall id :: Holds(LogAfter(log, o), id) <==> Holds(log, id) || (o.Consumed? && o.entry.approvalId == id)
  {
    if o.Consumed? {
      var more := log + [Written(o.entry)];
      forall id ensures Holds(more, id) <==> Holds(log, id) || o.entry.approvalId == id {
        assert Written(o.entry) in more;
        if Holds(log, id) { var r :| r in log && r.entry.approvalId == id; assert r in more; }
      }
    }
  }

  lemma LastAttempt(w: World, most: seq<Attempt>, a: Attempt, id: Bytes)
    ensures Taken(w, most + [a], |most| + 1, id)
            <==> Taken(w, most, |most|, id) || (Passes(w, a) && ApprovalId(w.h, a.approval) == id)
  {
    hide Passes, ApprovalId;
    var all := most + [a];
    assert all[|most|] == a;
    assert forall i :: 0 <= i < |most| ==> all[i] == most[i];
    if i :| 0 <= i < |most| && Passes(w, most[i]) && ApprovalId(w.h, most[i].approval) == id {
      assert Passes(w, all[i]) && ApprovalId(w.h, all[i].approval) == id;
    }
  }

  /** Logs with one final head are one log, octet for octet, or two records collide. */
  lemma LogBinding(h: Hash, a: seq<Logged>, b: seq<Logged>)
    requires a != [] && b != [] && Sound(h, a) && Sound(h, b)
    requires HeadAfter(h, Entries(), GENESIS, a) == HeadAfter(h, Entries(), GENESIS, b)
    ensures a == b || Collision(h, Bodies(Entries(), a) + Bodies(Entries(), b))
  {
    hide Parse;
    assert Faithful(Entries(), a, b);
    ChainBinding(h, Entries(), GENESIS, a, GENESIS, b);
  }

  /** Replay checks links and positions only: a log that spends one id twice still chains, so it is
      read back although no run writes it. */
  lemma ReplayAdmitsReuse(h: Hash, id: Blob, consumer: Text) returns (records: seq<Bytes>)
    ensures Chained(h, records) && |records| == 2 && !SpentOnce(ReadAs(records))
    ensures ReadAs(records)[0].entry.approvalId == id && ReadAs(records)[1].entry.approvalId == id
  {
    hide EntryBody, Parse;
    var one := Written(NextEntry(h, [], id, consumer));
    LinkedAppend(h, Entries(), GENESIS, [], one);
    assert [] + [one] == [one];
    var two := Written(NextEntry(h, [one], id, consumer));
    LinkedAppend(h, Entries(), GENESIS, [one], two);
    EntryRoundTrip(one.entry);
    EntryRoundTrip(two.entry);
    records := [one.raw, two.raw];
    var log := ReadAs(records);
    assert log == [one] + [two];
    assert log[0].entry.approvalId == log[1].entry.approvalId;
  }

  /** A first record without an approval id and a consumer is read back, as spending the empty id. */
  lemma ReplayAdmitsIncomplete(h: Hash)
    ensures var raw := RecordBytes([Int(0), Bstr(GENESIS)]);
            Chained(h, [raw]) && ReadAs([raw])[0].entry == LedgerEntry(0, GENESIS, [], [])
  {
    hide RecordBytes, Parse;
    var e := LedgerEntry(0, GENESIS, [], []);
    assert EntryFields(e)[..2] == [Int(0), Bstr(GENESIS)];
    PrefixParses(e, 2);
  }
}
