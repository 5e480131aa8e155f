/** Flow continuations: a hash chain anchored in a FlowOpen, checkpoints and the commit. */
module Continuation {
  import opened Octets
  import opened Cbor
  import opened Records
  import opened HashChain
  import opened Payloads

  datatype FlowOpen = FlowOpen(flowId: Blob, ceiling: u64, approvals: seq<Blob>)

  datatype Link = Link(flowOpenId: Blob, seqNo: u64, effect: u64, payloadId: Blob, prev: Blob)

  datatype Step = Step(effect: u64, payloadId: Blob)

  datatype Checkpoint = Checkpoint(flowOpenId: Blob, throughSeq: u64, head: Blob)

  datatype FlowCommit = FlowCommit(flowOpenId: Blob, finalHead: Blob)

  datatype Fault =
    RangeError | WrongFlow | SeqGap | AboveCeiling | ChainBroken | GapDetected | SignatureInvalid | Malformed
    | CommitMismatch

  /** Signature verification under the flow's key: payload octets, then signature octets. */
  type Verifier = (Bytes, Bytes) -> bool

  datatype Outcome<+T> = Accept(value: T) | Reject(fault: Fault)

  const DESTRUCTIVE: int := 3

  // ---- Bodies -------------------------------------------------------------------------------------

  /** A FlowOpen whose approvals fit a CBOR array. */
  predicate Encodable(o: FlowOpen) { |o.approvals| < U64 }

  function OpenFields(o: FlowOpen): (fs: seq<Value>)
    requires Encodable(o)
    ensures Fields(fs) && |fs| == 3
  {
    var list := Arr(seq(|o.approvals|, i requires 0 <= i < |o.approvals| => Bstr(o.approvals[i])));
    assert Plain(list);
    [Bstr(o.flowId), Int(o.ceiling), list]
  }

  function OpenBody(o: FlowOpen): Bytes
    requires Encodable(o)
  {
    RecordBytes(OpenFields(o))
  }

  function LinkFields(c: Link): (fs: seq<Value>)
    ensures Fields(fs) && |fs| == 5
  {
    [Bstr(c.flowOpenId), Int(c.seqNo), Int(c.effect), Bstr(c.payloadId), Bstr(c.prev)]
  }

  function LinkBody(c: Link): Bytes { RecordBytes(LinkFields(c)) }

  function CommitFields(c: FlowCommit): (fs: seq<Value>)
    ensures Fields(fs)
  {
    [Bstr(c.flowOpenId), Bstr(c.finalHead)]
  }

  function CommitBody(c: FlowCommit): Bytes { RecordBytes(CommitFields(c)) }

  /** {1: flow_id, 2: effect_ceiling, 3: approvals[]}. */
  lemma OpenBodyCarries(o: FlowOpen)
    requires Encodable(o)
    ensures var raw := OpenBody(o);
            && Carries(raw, 1, Bstr(o.flowId)) && Carries(raw, 2, Int(o.ceiling)) && |DecodeMap(raw).value| == 3
            && exists items :: Carries(raw, 3, Arr(items)) && |items| == |o.approvals|
                               && forall i :: 0 <= i < |items| ==> items[i] == Bstr(o.approvals[i])
  {
    hide RecordBytes, DecodeMap, Carries;
    BodyCarries(OpenFields(o));
    assert Carries(OpenBody(o), 3, Arr(OpenFields(o)[2].items));
  }

  /** {1: flow_open_id, 2: seq, 3: effect, 4: payload_id, 5: prev}. */
  lemma LinkBodyCarries(c: Link)
    ensures var raw := LinkBody(c);
            && Carries(raw, 1, Bstr(c.flowOpenId)) && Carries(raw, 2, Int(c.seqNo)) && Carries(raw, 3, Int(c.effect))
            && Carries(raw, 4, Bstr(c.payloadId)) && Carries(raw, 5, Bstr(c.prev)) && |DecodeMap(raw).value| == 5
  {
    hide RecordBytes, DecodeMap, Carries;
    BodyCarries(LinkFields(c));
  }

  /** {1: flow_open_id, 2: final_head}. */
  lemma CommitBodyCarries(c: FlowCommit)
    ensures var raw := CommitBody(c);
            && Carries(raw, 1, Bstr(c.flowOpenId)) && Carries(raw, 2, Bstr(c.finalHead)) && |DecodeMap(raw).value| == 2
  {
    hide RecordBytes, DecodeMap, Carries;
    BodyCarries(CommitFields(c));
  }

  function Links(): Kind<Link> {
    Kind((c: Link) => LinkBody(c), (c: Link) => c.seqNo as int, (c: Link) => c.prev)
  }

  lemma OpenBodyInjective(o: FlowOpen, p: FlowOpen)
    requires Encodable(o) && Encodable(p) && OpenBody(o) == OpenBody(p)
    ensures o == p
  {
    hide RecordBytes;
    RecordInjective(OpenFields(o), OpenFields(p));
    var fs, gs := OpenFields(o), OpenFields(p);
    assert fs[0] == gs[0] && fs[1] == gs[1] && fs[2] == gs[2];
    assert fs[2].items == gs[2].items;
    forall i | 0 <= i < |o.approvals| ensures o.approvals[i] == p.approvals[i] {
      assert fs[2].items[i] == gs[2].items[i];
    }
  }

  lemma LinkBodyInjective(c: Link, d: Link)
    requires LinkBody(c) == LinkBody(d)
    ensures c == d
  {
    hide RecordBytes;
    RecordInjective(LinkFields(c), LinkFields(d));
    var fs, gs := LinkFields(c), LinkFields(d);
    assert fs[0] == gs[0] && fs[1] == gs[1] && fs[2] == gs[2] && fs[3] == gs[3] && fs[4] == gs[4];
  }

  /** A FlowOpen has three fields and a link five, so no body is both. */
  lemma OpenIsNoLink(o: FlowOpen, c: Link)
    requires Encodable(o)
    ensures OpenBody(o) != LinkBody(c)
  {
    hide RecordBytes;
    if OpenBody(o) == LinkBody(c) { RecordInjective(OpenFields(o), LinkFields(c)); }
  }

  // ---- Verification -------------------------------------------------------------------------------

  /** The order of these checks is the order in which a fault is named. */
  function CheckLink(c: Link, openId: Bytes, prevHead: Bytes, expected: nat, ceiling: int): Option<Fault> {
    if ceiling > DESTRUCTIVE || c.effect > DESTRUCTIVE then Some(RangeError)
    else if c.flowOpenId != openId then Some(WrongFlow)
    else if c.seqNo != expected then Some(SeqGap)
    else if c.effect > ceiling then Some(AboveCeiling)
    else if c.prev != prevHead then Some(ChainBroken)
    else None
  }

  /** A flow that delivers what its FlowOpen authorised: every link belongs to it, stays at or
      below the ceiling and extends the chain anchored in the FlowOpen's head. */
  ghost predicate ValidFlow(h: Hash, o: FlowOpen, links: seq<Link>)
    requires Encodable(o)
  {
    && o.ceiling <= 3
    && (forall i :: 0 <= i < |links| ==>
          links[i].flowOpenId == ContentId(h, OpenBody(o)) && links[i].effect <= o.ceiling)
    && Linked(h, Links(), h(OpenBody(o)), links)
  }

  ghost function FlowHead(h: Hash, o: FlowOpen, links: seq<Link>): Digest
    requires Encodable(o)
  {
    HeadAfter(h, Links(), h(OpenBody(o)), links)
  }

  /** What is wrong with link i, when nothing is before it. Each case excludes those listed before it. */
  ghost predicate LinkFault(h: Hash, o: FlowOpen, links: seq<Link>, i: nat, fault: Fault)
    requires Encodable(o) && i < |links|
  {
    var c := links[i];
    var ours := c.flowOpenId == ContentId(h, OpenBody(o));
    match fault
    case RangeError => c.effect > 3
    case WrongFlow => c.effect <= 3 && !ours
    case SeqGap => c.effect <= 3 && ours && c.seqNo != i
    case AboveCeiling => c.effect <= 3 && ours && c.seqNo == i && o.ceiling < c.effect
    case ChainBroken => c.effect <= o.ceiling && ours && c.seqNo == i && c.prev != FlowHead(h, o, links[..i])
    case _ => false
  }

  /** The first thing wrong with a flow: its ceiling, or the first faulty link's first fault. */
  ghost predicate FlowFault(h: Hash, o: FlowOpen, links: seq<Link>, fault: Fault)
    requires Encodable(o)
  {
    if o.ceiling > 3 then fault == RangeError
    else exists i :: 0 <= i < |links| && ValidFlow(h, o, links[..i]) && LinkFault(h, o, links, i, fault)
  }

  method VerifyFlow(h: Hash, o: FlowOpen, links: seq<Link>) returns (r: Outcome<Digest>)
    requires Encodable(o)
    ensures r.Accept? <==> ValidFlow(h, o, links)
    ensures r.Accept? ==> r.value == FlowHead(h, o, links)
    ensures r.Reject? ==> FlowFault(h, o, links, r.fault)
  {
    hide OpenBody, LinkBody;
    if o.ceiling > DESTRUCTIVE { return Reject(RangeError); }
    var id, prev := ContentId(h, OpenBody(o)), h(OpenBody(o));
    for i := 0 to |links|
      invariant ValidFlow(h, o, links[..i])
      invariant prev == FlowHead(h, o, links[..i])
    {
      var fault := CheckLink(links[i], id, prev, i, o.ceiling);
      if fault.Some? {
        BrokenLink(h, o, links, i);
        return Reject(fault.value);
      }
      LinkedAppend(h, Links(), h(OpenBody(o)), links[..i], links[i]);
      assert links[..i + 1] == links[..i] + [links[i]];
      prev := h(LinkBody(links[i]));
    }
    assert links[..|links|] == links;
    return Accept(prev);
  }

  lemma BrokenLink(h: Hash, o: FlowOpen, links: seq<Link>, i: nat)
    requires Encodable(o) && i < |links| && o.ceiling <= DESTRUCTIVE
    requires CheckLink(links[i], ContentId(h, OpenBody(o)), FlowHead(h, o, links[..i]), i, o.ceiling).Some?
    ensures !ValidFlow(h, o, links)
  {
    hide OpenBody, LinkBody;
    assert ValidFlow(h, o, links) ==> LinkedAt(h, Links(), h(OpenBody(o)), links, i);
  }

  /** Building: thread prev through the steps and append each link. The chain is always well
      linked; the flow is valid exactly when the ceiling is an effect and no step exceeds it. */
  method BuildFlow(h: Hash, o: FlowOpen, steps: seq<Step>) returns (links: seq<Link>, finalHead: Digest)
    requires Encodable(o) && |steps| <= U64
    ensures Linked(h, Links(), h(OpenBody(o)), links) && finalHead == FlowHead(h, o, links)
    ensures |links| == |steps|
    ensures forall i :: 0 <= i < |steps| ==> Step(links[i].effect, links[i].payloadId) == steps[i]
    ensures ValidFlow(h, o, links) <==>
            o.ceiling <= 3 && forall i :: 0 <= i < |steps| ==> steps[i].effect <= o.ceiling
  {
    hide OpenBody, LinkBody;
    links, finalHead := [], h(OpenBody(o));
    for i := 0 to |steps|
      invariant |links| == i
      invariant Linked(h, Links(), h(OpenBody(o)), links) && finalHead == FlowHead(h, o, links)
      invariant forall j :: 0 <= j < i ==> links[j].flowOpenId == ContentId(h, OpenBody(o))
      invariant forall j :: 0 <= j < i ==> Step(links[j].effect, links[j].payloadId) == steps[j]
    {
      var c := Link(ContentId(h, OpenBody(o)), i, steps[i].effect, steps[i].payloadId, finalHead);
      LinkedAppend(h, Links(), h(OpenBody(o)), links, c);
      links, finalHead := links + [c], h(LinkBody(c));
    }
    assert forall i :: 0 <= i < |steps| ==> steps[i].effect == links[i].effect;
  }

  /** A checkpoint is accepted exactly for the whole prefix it names; the largest 64-bit
      position is refused although its length would wrap to zero. */
  method VerifyCheckpoint(h: Hash, cp: Checkpoint, o: FlowOpen, prefix: seq<Link>) returns (fault: Option<Fault>)
    requires Encodable(o)
    ensures fault == None <==>
            && cp.flowOpenId == ContentId(h, OpenBody(o)) && |prefix| == cp.throughSeq + 1 && |prefix| < U64
            && ValidFlow(h, o, prefix) && cp.head == FlowHead(h, o, prefix)
    ensures fault.Some? ==> fault.value == if cp.flowOpenId != ContentId(h, OpenBody(o)) then WrongFlow else GapDetected
  {
    hide OpenBody, LinkBody;
    if cp.flowOpenId != ContentId(h, OpenBody(o)) { return Some(WrongFlow); }
    if cp.throughSeq == U64 - 1 { return Some(GapDetected); }
    if |prefix| != cp.throughSeq + 1 { return Some(GapDetected); }
    var r := VerifyFlow(h, o, prefix);
    if r.Reject? || cp.head != r.value { return Some(GapDetected); }
    return None;
  }

  ghost predicate Commits(h: Hash, fc: FlowCommit, o: FlowOpen, links: seq<Link>)
    requires Encodable(o)
  {
    && fc.flowOpenId == ContentId(h, OpenBody(o))
    && ValidFlow(h, o, links) && fc.finalHead == FlowHead(h, o, links)
  }

  // ---- The commit's payload -------------------------------------------------------------------------

  /** A byte-string field of a decoded map; the range test refuses nothing decoded. */
  function BlobAt(ps: seq<Pair>, k: int): Option<Blob> {
    var found := ValueAt(ps, k);
    if found.Some? && found.value.Bstr? && Plain(found.value) then Some(found.value.octets) else None
  }

  /** Fields 1 and 2; whatever else the map holds is passed over. */
  function ParseCommit(payload: Bytes): Option<FlowCommit> {
    var ps := DecodeMap(payload);
    if ps.None? then None
    else
      var openId, head := BlobAt(ps.value, 1), BlobAt(ps.value, 2);
      if openId.Some? && head.Some? then Some(FlowCommit(openId.value, head.value)) else None
  }

  lemma BlobAtExactly(ps: seq<Pair>, k: int, b: Blob)
    requires Pair(Int(k), Bstr(b)) in ps && forall q :: q in ps && q.key == Int(k) ==> q.val == Bstr(b)
    ensures BlobAt(ps, k) == Some(b)
  {
    ValueAtExactly(ps, k, Bstr(b));
  }

  /** A body that starts with a commit's two fields is read as the commit, whatever follows. */
  lemma CommitPayloadReads(c: FlowCommit, more: seq<Value>)
    requires Fields(CommitFields(c) + more)
    ensures ParseCommit(RecordBytes(CommitFields(c) + more)) == Some(c)
  {
    hide DecodeMap, RecordBytes, BlobAt;
    var fs := CommitFields(c) + more;
    RecordDecodes(fs);
    var ps, qs := Record(fs).pairs, DecodeMap(RecordBytes(fs)).value;
    assert ps[0] == Pair(Int(1), fs[0]) && ps[1] == Pair(Int(2), fs[1]);
    assert ps[0] in qs && ps[1] in qs;
    BlobAtExactly(qs, 1, c.flowOpenId);
    BlobAtExactly(qs, 2, c.finalHead);
  }

  /** A commit's body is read back as the commit. */
  lemma CommitRoundTrip(c: FlowCommit)
    ensures ParseCommit(CommitBody(c)) == Some(c)
  {
    hide ParseCommit, RecordBytes;
    assert CommitFields(c) + [] == CommitFields(c);
    CommitPayloadReads(c, []);
  }

  /** A payload is read exactly when it decodes to a map with byte strings under 1 and 2, and it is
      the body of the commit read exactly when it holds nothing else. */
  lemma CommitPayloadExactly(payload: Bytes)
    ensures ParseCommit(payload).Some? <==>
            && DecodeMap(payload).Some?
            && (exists b: Bytes :: Pair(Int(1), Bstr(b)) in DecodeMap(payload).value)
            && (exists b: Bytes :: Pair(Int(2), Bstr(b)) in DecodeMap(payload).value)
    ensures ParseCommit(payload).Some? ==>
              (payload == CommitBody(ParseCommit(payload).value) <==> |DecodeMap(payload).value| == 2)
  {
    hide DecodeMap, RecordBytes, BlobAt, Encode;
    if DecodeMap(payload).Some? {
      DecodedMap(payload);
      var qs := DecodeMap(payload).value;
      BlobFound(payload, 1);
      BlobFound(payload, 2);
      if ParseCommit(payload).Some? {
        var fs := CommitFields(ParseCommit(payload).value);
        RecordDecodes(fs);
        if |qs| == 2 { BodyOfFields(qs, fs); }
      }
    }
  }

  lemma BlobFound(payload: Bytes, k: int)
    requires DecodeMap(payload).Some?
    ensures var qs := DecodeMap(payload).value;
            && (BlobAt(qs, k).Some? <==> exists b: Bytes :: Pair(Int(k), Bstr(b)) in qs)
            && (BlobAt(qs, k).Some? ==> Pair(Int(k), Bstr(BlobAt(qs, k).value)) in qs)
  {
    hide DecodeMap, Encode;
    DecodedMap(payload);
    var qs := DecodeMap(payload).value;
    if b: Bytes :| Pair(Int(k), Bstr(b)) in qs {
      forall q | q in qs && q.key == Int(k) ensures q.val == Bstr(b) { OneValue(qs, q, Pair(Int(k), Bstr(b))); }
      ValueAtExactly(qs, k, Bstr(b));
      assert Plain(Pair(Int(k), Bstr(b)).val);
    }
  }

  /** The signature over the payload is checked first, then its form, then the FlowOpen it names, then
      the delivered flow, then the head. */
  method VerifyCommit(h: Hash, verify: Verifier, payload: Bytes, sig: Bytes, o: FlowOpen, links: seq<Link>)
    returns (r: Outcome<FlowCommit>)
    requires Encodable(o)
    ensures r.Accept? <==>
            verify(payload, sig) && ParseCommit(payload).Some? && Commits(h, ParseCommit(payload).value, o, links)
    ensures r.Accept? ==> ParseCommit(payload) == Some(r.value)
    ensures r.Reject? ==>
              if !verify(payload, sig) then r.fault == SignatureInvalid
              else if ParseCommit(payload).None? then r.fault == Malformed
              else if ParseCommit(payload).value.flowOpenId != ContentId(h, OpenBody(o)) then r.fault == WrongFlow
              else if ValidFlow(h, o, links) then r.fault == CommitMismatch
              else FlowFault(h, o, links, r.fault)
  {
    hide OpenBody, LinkBody, ParseCommit;
    if !verify(payload, sig) { return Reject(SignatureInvalid); }
    var parsed := ParseCommit(payload);
    if parsed.None? { return Reject(Malformed); }
    var fc := parsed.value;
    if fc.flowOpenId != ContentId(h, OpenBody(o)) { return Reject(WrongFlow); }
    var head := VerifyFlow(h, o, links);
    if head.Reject? { return Reject(head.fault); }
    if fc.finalHead != head.value { return Reject(CommitMismatch); }
    return Accept(fc);
  }

  // ---- What one head, and so one signature, binds ------------------------------------------------------

  ghost function FlowBodies(o: FlowOpen, links: seq<Link>): set<Bytes>
    requires Encodable(o)
  {
    {OpenBody(o)} + Bodies(Links(), links)
  }

  /** One final head binds the FlowOpen and every link, for flows of any length (zero included),
      or two of the bodies collide. */
  lemma FlowBinding(h: Hash, o: FlowOpen, a: seq<Link>, p: FlowOpen, b: seq<Link>)
    requires Encodable(o) && Encodable(p)
    requires ValidFlow(h, o, a) && ValidFlow(h, p, b)
    requires FlowHead(h, o, a) == FlowHead(h, p, b)
    ensures (o == p && a == b) || Collision(h, FlowBodies(o, a) + FlowBodies(p, b))
  {
    hide OpenBody, LinkBody;
    var inputs := FlowBodies(o, a) + FlowBodies(p, b);
    if !Collision(h, inputs) {
      if a == [] && b == [] {
        SameOpen(h, o, p, inputs);
      } else if a == [] {
        OpenNotLink(h, o, b[|b| - 1], inputs);
      } else if b == [] {
        OpenNotLink(h, p, a[|a| - 1], inputs);
      } else {
        forall x, y | x in a && y in b && Links().body(x) == Links().body(y) ensures x == y {
          LinkBodyInjective(x, y);
        }
        ChainsAgree(h, Links(), h(OpenBody(o)), a, h(OpenBody(p)), b, inputs);
        SameOpen(h, o, p, inputs);
      }
    }
  }

  lemma SameOpen(h: Hash, o: FlowOpen, p: FlowOpen, inputs: set<Bytes>)
    requires Encodable(o) && Encodable(p) && !Collision(h, inputs)
    requires OpenBody(o) in inputs && OpenBody(p) in inputs && h(OpenBody(o)) == h(OpenBody(p))
    ensures o == p
  {
    hide OpenBody;
    NoCollision(h, inputs, OpenBody(o), OpenBody(p));
    OpenBodyInjective(o, p);
  }

  lemma OpenNotLink(h: Hash, o: FlowOpen, c: Link, inputs: set<Bytes>)
    requires Encodable(o) && !Collision(h, inputs)
    requires OpenBody(o) in inputs && LinkBody(c) in inputs
    ensures h(OpenBody(o)) != h(LinkBody(c))
  {
    hide OpenBody, LinkBody;
    OpenIsNoLink(o, c);
    DistinctDigests(h, inputs, OpenBody(o), LinkBody(c));
  }

  lemma CommitBodyInjective(c: FlowCommit, d: FlowCommit)
    requires CommitBody(c) == CommitBody(d)
    ensures c == d
  {
    hide RecordBytes;
    var fs, gs := CommitFields(c), CommitFields(d);
    RecordInjective(fs, gs);
    assert fs[0] == gs[0] && fs[1] == gs[1];
  }

  /** The commit's one signature covers one FlowOpen and one ordered sequence: commits with one body
      bind the same of both. */
  lemma CommitBinding(h: Hash, c: FlowCommit, o: FlowOpen, a: seq<Link>, d: FlowCommit, p: FlowOpen, b: seq<Link>)
    requires Encodable(o) && Encodable(p) && Commits(h, c, o, a) && Commits(h, d, p, b)
    requires CommitBody(c) == CommitBody(d)
    ensures (o == p && a == b) || Collision(h, FlowBodies(o, a) + FlowBodies(p, b))
  {
    hide OpenBody, LinkBody, CommitBody;
    CommitBodyInjective(c, d);
    FlowBinding(h, o, a, p, b);
  }

  /** Omitting, repeating or reordering links of a valid flow is detected with no assumption on
      the hash: what still verifies is a prefix. */
  lemma GapDetection(h: Hash, o: FlowOpen, links: seq<Link>, delivered: seq<Link>)
    requires Encodable(o) && ValidFlow(h, o, links) && ValidFlow(h, o, delivered)
    requires forall c :: c in delivered ==> c in links
    ensures delivered <= links
  {
    hide OpenBody, LinkBody;
    RearrangedIsPrefix(h, Links(), h(OpenBody(o)), links, h(OpenBody(o)), delivered);
  }

  /** A link replayed under another FlowOpen is refused unless the two FlowOpen bodies collide. */
  lemma ReplayRefused(h: Hash, o: FlowOpen, p: FlowOpen, links: seq<Link>)
    requires Encodable(o) && Encodable(p) && o != p && links != []
    requires ValidFlow(h, o, links)
    ensures !ValidFlow(h, p, links) || Collision(h, {OpenBody(o), OpenBody(p)})
  {
    hide OpenBody, LinkBody;
    if ValidFlow(h, p, links) && !Collision(h, {OpenBody(o), OpenBody(p)}) {
      var id, id' := ContentId(h, OpenBody(o)), ContentId(h, OpenBody(p));
      assert links[0].flowOpenId == id && links[0].flowOpenId == id';
      assert id[2..] == h(OpenBody(o)) && id'[2..] == h(OpenBody(p));
      SameOpen(h, o, p, {OpenBody(o), OpenBody(p)});
    }
  }
}
