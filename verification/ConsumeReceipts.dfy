/** Ledger-signed consume receipts: a double spend across a partition shows as a fork. */
module ConsumeReceipts {
  import opened Octets
  import opened Cbor
  import opened Records
  import opened HashChain
  import opened Payloads
  import opened LedgerRecords
  import opened Ledger

  /** {1: ledger, 2: approval_id, 3: position}. */
  datatype ConsumeReceipt = ConsumeReceipt(ledger: Blob, approvalId: Blob, position: u64)

  function ReceiptFields(r: ConsumeReceipt): (fs: seq<Value>)
    ensures Fields(fs)
  {
    [Bstr(r.ledger), Bstr(r.approvalId), Int(r.position)]
  }

  function ReceiptBytes(r: ConsumeReceipt): Bytes { RecordBytes(ReceiptFields(r)) }

  lemma ReceiptBytesCarry(r: ConsumeReceipt)
    ensures var raw := ReceiptBytes(r);
            && Carries(raw, 1, Bstr(r.ledger)) && Carries(raw, 2, Bstr(r.approvalId))
            && Carries(raw, 3, Int(r.position)) && |DecodeMap(raw).value| == 3
  {
    hide RecordBytes, DecodeMap, Carries;
    BodyCarries(ReceiptFields(r));
  }

  /** Same approval id, different bytes. */
  predicate IsFork(a: ConsumeReceipt, b: ConsumeReceipt) {
    a.approvalId == b.approvalId && ReceiptBytes(a) != ReceiptBytes(b)
  }

  lemma ReceiptBytesInjective(a: ConsumeReceipt, b: ConsumeReceipt)
    requires ReceiptBytes(a) == ReceiptBytes(b)
    ensures a == b
  {
    hide RecordBytes;
    var fs, gs := ReceiptFields(a), ReceiptFields(b);
    RecordInjective(fs, gs);
    assert fs[0] == gs[0] && fs[1] == gs[1] && fs[2] == gs[2];
  }

  /** The byte comparison means a conflict of ledger or of position on one approval. */
  lemma ForkMeansConflict(a: ConsumeReceipt, b: ConsumeReceipt)
    ensures IsFork(a, b) <==> a.approvalId == b.approvalId && (a.ledger != b.ledger || a.position != b.position)
    ensures IsFork(a, b) <==> IsFork(b, a)
  {
    hide ReceiptBytes;
    if ReceiptBytes(a) == ReceiptBytes(b) { ReceiptBytesInjective(a, b); }
  }

  /** The receipt a ledger signs for an entry it appended. */
  function ReceiptFor(ledger: Blob, e: LedgerEntry): ConsumeReceipt {
    ConsumeReceipt(ledger, e.approvalId, e.seqNo)
  }

  /** No two receipts from one ledger, after any run, are a fork. */
  lemma HonestLedgerNeverForks(w: World, ledger: Blob, attempts: seq<Attempt>, d: Logged, e: Logged)
    requires d in Run(w, [], attempts).0 && e in Run(w, [], attempts).0
    ensures !IsFork(ReceiptFor(ledger, d.entry), ReceiptFor(ledger, e.entry))
  {
    hide ReceiptBytes, Run, EntryBody, Linked;
    EmptySound(w.h);
    RunSound(w, [], attempts);
    var log := Run(w, [], attempts).0;
    var i :| 0 <= i < |log| && log[i] == d;
    var j :| 0 <= j < |log| && log[j] == e;
    ForkMeansConflict(ReceiptFor(ledger, d.entry), ReceiptFor(ledger, e.entry));
    if d.entry.approvalId == e.entry.approvalId { assert i == j; }
  }

  lemma EmptySound(h: Hash)
    ensures Sound(h, [])
  {}

  /** Two runs, on two ledgers or on two partitions of one, that each consumed an approval: their
      receipts prove the double spend exactly when the ledger or the assigned position differs. */
  lemma DoubleSpendProvable(w: World, l: Blob, xs: seq<Attempt>, d: Logged,
                            w': World, l': Blob, ys: seq<Attempt>, e: Logged)
    requires d in Run(w, [], xs).0 && e in Run(w', [], ys).0 && d.entry.approvalId == e.entry.approvalId
    ensures exists i :: 0 <= i < |Run(w, [], xs).0| && Run(w, [], xs).0[i] == d && d.entry.seqNo == i
    ensures exists j :: 0 <= j < |Run(w', [], ys).0| && Run(w', [], ys).0[j] == e && e.entry.seqNo == j
    ensures IsFork(ReceiptFor(l, d.entry), ReceiptFor(l', e.entry)) <==> l != l' || d.entry.seqNo != e.entry.seqNo
  {
    hide ReceiptBytes, Run;
    Positioned(w, xs, d);
    Positioned(w', ys, e);
    ForkMeansConflict(ReceiptFor(l, d.entry), ReceiptFor(l', e.entry));
  }

  /** An entry's sequence number is its position in the log. */
  lemma Positioned(w: World, attempts: seq<Attempt>, e: Logged)
    requires e in Run(w, [], attempts).0
    ensures exists i :: 0 <= i < |Run(w, [], attempts).0| && Run(w, [], attempts).0[i] == e && e.entry.seqNo == i
  {
    hide Run, EntryBody;
    EmptySound(w.h);
    RunSound(w, [], attempts);
    var log := Run(w, [], attempts).0;
    var i :| 0 <= i < |log| && log[i] == e;
    assert LinkedAt(w.h, Entries(), GENESIS, log, i);
  }
}
