/** The audit receipt chain and the equivocation auditor. */
module Audit {
  import opened Octets
  import opened Cbor
  import opened Records
  import opened HashChain
  import opened Payloads

  datatype Receipt = Receipt(prev: Blob, obj: Blob, seqNo: u64, at: u64)

  /** A receipt with its authority's signature over the receipt's body. */
  datatype Signed = Signed(receipt: Receipt, sig: Bytes)

  datatype Fault = ChainBroken | ReceiptUnsigned | Equivocation | ForkProofInvalid

  /** Signature verification under the authority's key: body octets, then signature octets. */
  type Verifier = (Bytes, Bytes) -> bool

  function ReceiptFields(r: Receipt): (fs: seq<Value>)
    ensures Fields(fs)
  {
    [Bstr(r.prev), Bstr(r.obj), Int(r.seqNo), Int(r.at)]
  }

  function ReceiptBody(r: Receipt): Bytes { RecordBytes(ReceiptFields(r)) }

  /** What is signed and hashed for a receipt: {1: prev, 2: obj, 3: seq, 4: at}. */
  lemma ReceiptBodyCarries(r: Receipt)
    ensures var raw := ReceiptBody(r);
            && Carries(raw, 1, Bstr(r.prev)) && Carries(raw, 2, Bstr(r.obj))
            && Carries(raw, 3, Int(r.seqNo)) && Carries(raw, 4, Int(r.at)) && |DecodeMap(raw).value| == 4
  {
    hide RecordBytes, DecodeMap, Carries;
    BodyCarries(ReceiptFields(r));
  }

  function Receipts(): Kind<Receipt> {
    Kind((r: Receipt) => ReceiptBody(r), (r: Receipt) => r.seqNo as int, (r: Receipt) => r.prev)
  }

  lemma ReceiptBodyInjective(r: Receipt, s: Receipt)
    requires ReceiptBody(r) == ReceiptBody(s)
    ensures r == s
  {
    hide RecordBytes;
    RecordInjective(ReceiptFields(r), ReceiptFields(s));
    assert ReceiptFields(r)[0] == ReceiptFields(s)[0] && ReceiptFields(r)[1] == ReceiptFields(s)[1];
    assert ReceiptFields(r)[2] == ReceiptFields(s)[2] && ReceiptFields(r)[3] == ReceiptFields(s)[3];
  }

  // ---- Chain verification ----------------------------------------------------------------------

  ghost predicate SignedAt(receipts: seq<Receipt>, sigs: seq<Bytes>, verify: Verifier, i: nat)
    requires i < |receipts| == |sigs|
  {
    verify(ReceiptBody(receipts[i]), sigs[i])
  }

  ghost predicate GoodAt(h: Hash, receipts: seq<Receipt>, sigs: seq<Bytes>, verify: Verifier, i: nat)
    requires i < |receipts| == |sigs|
  {
    LinkedAt(h, Receipts(), GENESIS, receipts, i) && SignedAt(receipts, sigs, verify, i)
  }

  /** Checks links and signatures in order; the first bad receipt decides the fault, and a bad
      link is reported before a bad signature. */
  method VerifyChain(h: Hash, receipts: seq<Receipt>, sigs: seq<Bytes>, verify: Verifier)
    returns (fault: Option<Fault>)
    ensures |receipts| != |sigs| ==> fault == Some(ChainBroken)
    ensures |receipts| == |sigs| ==>
              (fault == None <==>
               Linked(h, Receipts(), GENESIS, receipts)
               && forall i :: 0 <= i < |receipts| ==> SignedAt(receipts, sigs, verify, i))
    ensures |receipts| == |sigs| && fault.Some? ==>
              exists i :: 0 <= i < |receipts|
                && (forall j :: 0 <= j < i ==> GoodAt(h, receipts, sigs, verify, j))
                && !GoodAt(h, receipts, sigs, verify, i)
                && fault.value == if LinkedAt(h, Receipts(), GENESIS, receipts, i) then ReceiptUnsigned else ChainBroken
  {
    hide ReceiptBody;
    if |receipts| != |sigs| { return Some(ChainBroken); }
    var head: Digest := GENESIS;
    for i := 0 to |receipts|
      invariant head == HeadAfter(h, Receipts(), GENESIS, receipts[..i])
      invariant forall j :: 0 <= j < i ==> GoodAt(h, receipts, sigs, verify, j)
    {
      var r := receipts[i];
      if r.seqNo != i || r.prev != head {
        assert !GoodAt(h, receipts, sigs, verify, i);
        return Some(ChainBroken);
      }
      if !verify(ReceiptBody(r), sigs[i]) {
        assert LinkedAt(h, Receipts(), GENESIS, receipts, i) && !GoodAt(h, receipts, sigs, verify, i);
        return Some(ReceiptUnsigned);
      }
      head := h(ReceiptBody(r));
      assert receipts[..i + 1] == receipts[..i] + [r];
    }
    forall i | 0 <= i < |receipts|
      ensures LinkedAt(h, Receipts(), GENESIS, receipts, i) && SignedAt(receipts, sigs, verify, i)
    {
      assert GoodAt(h, receipts, sigs, verify, i);
    }
    return None;
  }

  /** Two receipt chains that verify from genesis to the same head are the same chain, or two
      receipt bodies collide. */
  lemma ReceiptChainBinding(h: Hash, a: seq<Receipt>, b: seq<Receipt>)
    requires a != [] && b != []
    requires Linked(h, Receipts(), GENESIS, a) && Linked(h, Receipts(), GENESIS, b)
    requires HeadAfter(h, Receipts(), GENESIS, a) == HeadAfter(h, Receipts(), GENESIS, b)
    ensures a == b || Collision(h, Bodies(Receipts(), a) + Bodies(Receipts(), b))
  {
    hide ReceiptBody;
    forall x, y | x in a && y in b && Receipts().body(x) == Receipts().body(y) ensures x == y {
      ReceiptBodyInjective(x, y);
    }
    ChainBinding(h, Receipts(), GENESIS, a, GENESIS, b);
  }

  // ---- Ordering authority ------------------------------------------------------------------------

  /** The receipt that extends a chain. */
  ghost function NextReceipt(h: Hash, issued: seq<Receipt>, obj: Blob, at: u64): Receipt
    requires |issued| < U64
  {
    Receipt(HeadAfter(h, Receipts(), GENESIS, issued), obj, |issued|, at)
  }

  /** An ordering authority: appends signed receipts over object ids. */
  class Authority {
    const h: Hash
    const sign: Bytes -> Option<Bytes>
    var head: Digest
    var next: nat
    ghost var issued: seq<Receipt>

    ghost predicate Valid()
      reads this
    {
      && Linked(h, Receipts(), GENESIS, issued)
      && head == HeadAfter(h, Receipts(), GENESIS, issued)
      && next == |issued|
    }

    constructor (h: Hash, sign: Bytes -> Option<Bytes>)
      ensures Valid() && issued == [] && this.h == h && this.sign == sign
    {
      this.h, this.sign, head, next, issued := h, sign, GENESIS, 0, [];
    }

    /** The next receipt and the signature over its body. Where the signer fails, or the position is
        past the 64-bit range and cannot be encoded, nothing is appended. */
    method Append(obj: Blob, at: u64) returns (r: Option<Signed>)
      requires Valid()
      modifies this
      ensures Valid()
      ensures r.Some? <==> old(|issued|) < U64 && sign(ReceiptBody(NextReceipt(h, old(issued), obj, at))).Some?
      ensures r.Some? ==>
                && r.value.receipt == NextReceipt(h, old(issued), obj, at)
                && sign(ReceiptBody(r.value.receipt)) == Some(r.value.sig)
                && issued == old(issued) + [r.value.receipt]
      ensures r.None? ==> issued == old(issued)
    {
      hide ReceiptBody;
      if next >= U64 { return None; }
      var receipt := Receipt(head, obj, next, at);
      var sig := sign(ReceiptBody(receipt));
      if sig.None? { return None; }
      LinkedAppend(h, Receipts(), GENESIS, issued, receipt);
      head, next := h(ReceiptBody(receipt)), next + 1;
      issued := issued + [receipt];
      return Some(Signed(receipt, sig.value));
    }
  }

  // ---- Equivocation ----------------------------------------------------------------------------------

  /** Two receipts at one position naming different objects. */
  ghost predicate Conflict(r: Receipt, s: Receipt) { r.seqNo == s.seqNo && r.obj != s.obj }

  /** The first receipt of a list at position n. */
  ghost function FirstAt(rs: seq<Signed>, n: u64): Option<Signed> {
    if rs == [] then None
    else if rs[0].receipt.seqNo == n then Some(rs[0])
    else FirstAt(rs[1..], n)
  }

  lemma {:induction false} FirstAtMeaning(rs: seq<Signed>, i: nat)
    requires i < |rs| && forall k :: 0 <= k < i ==> rs[k].receipt.seqNo != rs[i].receipt.seqNo
    ensures FirstAt(rs, rs[i].receipt.seqNo) == Some(rs[i])
  {
    if i > 0 { FirstAtMeaning(rs[1..], i - 1); }
  }

  /** r contradicts the first receipt seen at its position. */
  ghost predicate Flagged(rs: seq<Signed>, r: Signed) {
    var first := FirstAt(rs, r.receipt.seqNo);
    first.Some? && Conflict(first.value.receipt, r.receipt)
  }

  /** Evidence of equivocation: the accused, a counter, and two signed receipts. */
  datatype ForkProof = ForkProof(signer: Bytes, extCounter: u64, a: Signed, b: Signed)

  predicate Verifies(verify: Verifier, s: Signed) { verify(ReceiptBody(s.receipt), s.sig) }

  function VerifyForkProof(verify: Verifier, fp: ForkProof): Option<Fault> {
    if fp.signer == [] then Some(ForkProofInvalid)
    else if fp.a.receipt.seqNo != fp.b.receipt.seqNo then Some(ForkProofInvalid)
    else if fp.a.receipt.obj == fp.b.receipt.obj then Some(ForkProofInvalid)
    else if !Verifies(verify, fp.a) || !Verifies(verify, fp.b) then Some(ReceiptUnsigned)
    else None
  }

  /** Observes signed receipts and reports a second object at a position already seen. */
  class Auditor {
    const verify: Verifier
    const signer: Bytes
    var extCounter: u64
    var seen: map<u64, Signed>
    ghost var accepted: seq<Signed>  // every observed receipt whose signature verified

    /** `seen` holds the first accepted receipt of each position. */
    ghost predicate Valid()
      reads this
    {
      && (forall n: u64 :: FirstAt(accepted, n) == if n in seen then Some(seen[n]) else None)
      && (forall s :: s in accepted ==> Verifies(verify, s))
    }

    constructor (verify: Verifier, signer: Bytes, extBase: u64)
      ensures Valid() && accepted == [] && this.verify == verify && this.signer == signer && extCounter == extBase
    {
      this.verify, this.signer, extCounter, seen, accepted := verify, signer, extBase, map[], [];
    }

    /** On equivocation a proof is minted from the first receipt seen there and this one, stamped with
        the current counter, which then advances (wrapping at 64 bits). Any third party accepts the
        proof exactly when the accused is named. */
    method Observe(r: Receipt, sig: Bytes) returns (fault: Option<Fault>, proof: Option<ForkProof>)
      requires Valid()
      modifies this
      ensures Valid()
      ensures accepted == if Verifies(verify, Signed(r, sig)) then old(accepted) + [Signed(r, sig)] else old(accepted)
      ensures fault == if !Verifies(verify, Signed(r, sig)) then Some(ReceiptUnsigned)
                       else if Flagged(old(accepted), Signed(r, sig)) then Some(Equivocation) else None
      ensures proof.Some? <==> fault == Some(Equivocation)
      ensures proof.Some? ==>
                && FirstAt(old(accepted), r.seqNo).Some?
                && proof.value.signer == signer && proof.value.extCounter == old(extCounter)
                && proof.value.a == FirstAt(old(accepted), r.seqNo).value && proof.value.b == Signed(r, sig)
                && (VerifyForkProof(verify, proof.value) == None <==> signer != [])
      ensures extCounter == if proof.Some? then (old(extCounter) + 1) % U64 else old(extCounter)
    {
      hide ReceiptBody, FirstAt;
      var s := Signed(r, sig);
      if !verify(ReceiptBody(r), sig) { return Some(ReceiptUnsigned), None; }
      forall n: u64 ensures FirstAt(accepted + [s], n)
                            == if FirstAt(accepted, n).Some? then FirstAt(accepted, n)
                               else if r.seqNo == n then Some(s) else None
      {
        FirstAtAppend(accepted, s, n);
      }
      FirstAtIn(accepted, r.seqNo);
      accepted := accepted + [s];
      if r.seqNo in seen {
        var earlier := seen[r.seqNo];
        if earlier.receipt.obj != r.obj {
          var fp := ForkProof(signer, extCounter, earlier, s);
          extCounter := (extCounter + 1) % U64;
          return Some(Equivocation), Some(fp);
        }
        return None, None;
      }
      seen := seen[r.seqNo := s];
      return None, None;
    }
  }

  lemma {:induction false} FirstAtAppend(rs: seq<Signed>, r: Signed, n: u64)
    ensures FirstAt(rs + [r], n) ==
            if FirstAt(rs, n).Some? then FirstAt(rs, n) else if r.receipt.seqNo == n then Some(r) else None
  {
    if rs == [] {
      assert [] + [r] == [r];
    } else {
      FirstAtAppend(rs[1..], r, n);
      assert (rs + [r])[1..] == rs[1..] + [r];
    }
  }

  lemma {:induction false} FirstAtIn(rs: seq<Signed>, n: u64)
    ensures FirstAt(rs, n).Some? ==> FirstAt(rs, n).value in rs && FirstAt(rs, n).value.receipt.seqNo == n
    ensures FirstAt(rs, n).None? ==> forall r :: r in rs ==> r.receipt.seqNo != n
  {
    if rs != [] {
      FirstAtIn(rs[1..], n);
      assert forall r :: r in rs ==> r == rs[0] || r in rs[1..];
    }
  }

  /** Once found, the first receipt at a position stays the first. */
  lemma {:induction false} FirstAtStable(rs: seq<Signed>, i: nat, j: nat, n: u64)
    requires i <= j <= |rs| && FirstAt(rs[..i], n).Some?
    ensures FirstAt(rs[..j], n) == FirstAt(rs[..i], n)
    decreases j - i
  {
    if i < j {
      FirstAtStable(rs, i, j - 1, n);
      FirstAtAppend(rs[..j - 1], rs[j - 1], n);
      assert rs[..j] == rs[..j - 1] + [rs[j - 1]];
    }
  }

  /** Detection is sound and complete: some observation is flagged exactly when two of the
      receipts contradict each other, although only first receipts are remembered. */
  lemma DetectionComplete(rs: seq<Signed>)
    ensures (exists j :: 0 <= j < |rs| && Flagged(rs[..j], rs[j]))
            <==> exists i, j :: 0 <= i < j < |rs| && Conflict(rs[i].receipt, rs[j].receipt)
  {
    hide FirstAt;
    forall j | 0 <= j < |rs| && Flagged(rs[..j], rs[j])
      ensures exists i :: 0 <= i < j && Conflict(rs[i].receipt, rs[j].receipt)
    {
      FirstAtIn(rs[..j], rs[j].receipt.seqNo);
      var f := FirstAt(rs[..j], rs[j].receipt.seqNo).value;
      var i :| 0 <= i < j && rs[..j][i] == f;
      assert Conflict(rs[i].receipt, rs[j].receipt);
    }
    forall i, j | 0 <= i < j < |rs| && Conflict(rs[i].receipt, rs[j].receipt)
      ensures Flagged(rs[..i], rs[i]) || Flagged(rs[..j], rs[j])
    {
      var n := rs[i].receipt.seqNo;
      FirstAtIn(rs[..j], n);
      assert rs[i] in rs[..j];
      if FirstAt(rs[..i], n).Some? {
        FirstAtIn(rs[..i], n);
        FirstAtStable(rs, i, j, n);
      } else {
        FirstAtAppend(rs[..i], rs[i], n);
        assert rs[..i + 1] == rs[..i] + [rs[i]];
        FirstAtStable(rs, i + 1, j, n);
      }
    }
  }

  /** The receipts of one chain never conflict, so an authority that keeps one chain cannot be
      accused from its own receipts. */
  lemma ChainNeverEquivocates(h: Hash, chain: seq<Receipt>, r: Receipt, s: Receipt)
    requires Linked(h, Receipts(), GENESIS, chain) && r in chain && s in chain
    ensures !Conflict(r, s)
  {
    var i :| 0 <= i < |chain| && chain[i] == r;
    var j :| 0 <= j < |chain| && chain[j] == s;
    assert LinkedAt(h, Receipts(), GENESIS, chain, i) && LinkedAt(h, Receipts(), GENESIS, chain, j);
  }

  /** A proof that verifies names the accused and carries two receipts signed under its key which no
      one chain holds together. */
  lemma ForkProofConvicts(h: Hash, verify: Verifier, fp: ForkProof, chain: seq<Receipt>)
    ensures VerifyForkProof(verify, fp) == None <==>
            && fp.signer != [] && fp.a.receipt.seqNo == fp.b.receipt.seqNo && fp.a.receipt.obj != fp.b.receipt.obj
            && verify(ReceiptBody(fp.a.receipt), fp.a.sig) && verify(ReceiptBody(fp.b.receipt), fp.b.sig)
    ensures VerifyForkProof(verify, fp) == Some(ReceiptUnsigned) <==>
            && fp.signer != [] && fp.a.receipt.seqNo == fp.b.receipt.seqNo && fp.a.receipt.obj != fp.b.receipt.obj
            && !(verify(ReceiptBody(fp.a.receipt), fp.a.sig) && verify(ReceiptBody(fp.b.receipt), fp.b.sig))
    ensures VerifyForkProof(verify, fp) in {None, Some(ReceiptUnsigned), Some(ForkProofInvalid)}
    ensures VerifyForkProof(verify, fp) == None && Linked(h, Receipts(), GENESIS, chain) ==>
              !(fp.a.receipt in chain && fp.b.receipt in chain)
  {
    hide ReceiptBody, Linked;
    if Linked(h, Receipts(), GENESIS, chain) && fp.a.receipt in chain && fp.b.receipt in chain {
      ChainNeverEquivocates(h, chain, fp.a.receipt, fp.b.receipt);
    }
  }
}
