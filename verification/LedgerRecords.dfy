/** The records of the ledger's log: how an entry is written, and what octets are read back as. */
module LedgerRecords {
  import opened Octets
  import opened Cbor
  import opened CborCanonical
  import opened Records
  import opened Payloads

  datatype LedgerEntry = LedgerEntry(seqNo: u64, prev: Blob, approvalId: Blob, consumer: Text)

  /** What the fields of an entry are before a record sets them. */
  const ZERO: LedgerEntry := LedgerEntry(0, [], [], [])

  function EntryFields(e: LedgerEntry): (fs: seq<Value>)
    ensures Fields(fs) && |fs| == 4
  {
    [Int(e.seqNo), Bstr(e.prev), Bstr(e.approvalId), Tstr(e.consumer)]
  }

  function EntryBody(e: LedgerEntry): Bytes { RecordBytes(EntryFields(e)) }

  /** {1: seq, 2: prev, 3: approval_id, 4: consumer}. */
  lemma EntryBodyCarries(e: LedgerEntry)
    ensures var raw := EntryBody(e);
            && Carries(raw, 1, Int(e.seqNo)) && Carries(raw, 2, Bstr(e.prev)) && Carries(raw, 3, Bstr(e.approvalId))
            && Carries(raw, 4, Tstr(e.consumer)) && |DecodeMap(raw).value| == 4
  {
    hide RecordBytes, DecodeMap, Carries;
    BodyCarries(EntryFields(e));
  }

  lemma FieldsDetermine(d: LedgerEntry, e: LedgerEntry)
    requires forall k :: 0 <= k < 4 ==> EntryFields(d)[k] == EntryFields(e)[k]
    ensures d == e
  {
    assert EntryFields(d)[0] == EntryFields(e)[0] && EntryFields(d)[1] == EntryFields(e)[1];
    assert EntryFields(d)[2] == EntryFields(e)[2] && EntryFields(d)[3] == EntryFields(e)[3];
  }

  // ---- Reading a record ------------------------------------------------------------------------------

  /** Key 1 holds an unsigned integer, 2 and 3 byte strings, 4 a text string; no other key is known. */
  predicate KindOk(p: Pair) {
    p.key.Int?
    && match p.key.i
       case 1 => p.val.Int? && p.val.i >= 0
       case 2 => p.val.Bstr?
       case 3 => p.val.Bstr?
       case 4 => p.val.Tstr?
       case _ => false
  }

  /** Of the right kind, and in range; ParsesExactly shows that the range refuses nothing. */
  predicate FieldOk(p: Pair) { KindOk(p) && Plain(p.val) }

  predicate FieldsOk(ps: seq<Pair>) { forall i :: 0 <= i < |ps| ==> FieldOk(ps[i]) }

  /** Field k of the entry read: the value found, or what it was before. */
  function FieldAt(ps: seq<Pair>, k: int): (v: Value)
    requires FieldsOk(ps) && 1 <= k <= 4
    ensures FieldOk(Pair(Int(k), v))
  {
    var found := ValueAt(ps, k);
    if found.Some? then found.value else EntryFields(ZERO)[k - 1]
  }

  function EntryOf(ps: seq<Pair>): (e: LedgerEntry)
    requires FieldsOk(ps)
    ensures forall k :: 1 <= k <= 4 ==> EntryFields(e)[k - 1] == FieldAt(ps, k)
  {
    LedgerEntry(FieldAt(ps, 1).i, FieldAt(ps, 2).octets, FieldAt(ps, 3).octets, FieldAt(ps, 4).utf8)
  }

  function Parse(raw: Bytes): Option<LedgerEntry> {
    var ps := DecodeMap(raw);
    if ps.Some? && FieldsOk(ps.value) then Some(EntryOf(ps.value)) else None
  }

  /** A record is read exactly when it decodes to a map of fields of the right kinds. */
  lemma ParsesExactly(raw: Bytes)
    ensures Parse(raw).Some? <==>
            DecodeMap(raw).Some? && forall i :: 0 <= i < |DecodeMap(raw).value| ==> KindOk(DecodeMap(raw).value[i])
  {
    hide DecodeMap, Plain;
    if DecodeMap(raw).Some? {
      DecodedMap(raw);
      var ps := DecodeMap(raw).value;
      forall i | 0 <= i < |ps| && KindOk(ps[i]) ensures FieldOk(ps[i]) { assert ps[i] in ps; }
    }
  }

  method ParseEntry(raw: Bytes) returns (r: Option<LedgerEntry>)
    ensures r == Parse(raw)
  {
    hide DecodeMap, FieldOk, ValueAt;
    var decoded := DecodeMap(raw);
    if decoded.None? { return None; }
    var ps := decoded.value;
    var e := ZERO;
    NothingSet();
    for i := 0 to |ps|
      invariant FieldsOk(ps[..i]) && e == EntryOf(ps[..i])
    {
      var p := ps[i];
      if !FieldOk(p) { return None; }
      assert ps[..i + 1] == ps[..i] + [p];
      SetOne(ps[..i], p);
      e := Updated(e, p);
    }
    assert ps[..|ps|] == ps;
    return Some(e);
  }

  function Updated(e: LedgerEntry, p: Pair): LedgerEntry
    requires FieldOk(p)
  {
    match p.key.i
    case 1 => e.(seqNo := p.val.i)
    case 2 => e.(prev := p.val.octets)
    case 3 => e.(approvalId := p.val.octets)
    case _ => e.(consumer := p.val.utf8)
  }

  lemma NothingSet()
    ensures EntryOf([]) == ZERO
  {}

  lemma SetOne(ps: seq<Pair>, p: Pair)
    requires FieldsOk(ps) && FieldOk(p)
    ensures FieldsOk(ps + [p]) && EntryOf(ps + [p]) == Updated(EntryOf(ps), p)
  {
    assert (ps + [p])[..|ps|] == ps;
  }

  // ---- What was written is read back -----------------------------------------------------------------

  /** The entry whose first n fields are those of e. */
  function Truncated(e: LedgerEntry, n: nat): LedgerEntry {
    LedgerEntry(if n >= 1 then e.seqNo else 0, if n >= 2 then e.prev else [],
                if n >= 3 then e.approvalId else [], if n >= 4 then e.consumer else [])
  }

  /** A record holding only the first n of the four fields is read as the entry with the others
      empty; with all four, writing and reading back is the identity. */
  lemma PrefixParses(e: LedgerEntry, n: nat)
    requires n <= 4
    ensures Parse(RecordBytes(EntryFields(e)[..n])) == Some(Truncated(e, n))
  {
    hide DecodeMap, RecordBytes, ValueAt;
    var fs := EntryFields(e)[..n];
    RecordDecodes(fs);
    var ps, qs := Record(fs).pairs, DecodeMap(RecordBytes(fs)).value;
    forall j | 0 <= j < |qs| ensures FieldOk(qs[j]) { assert qs[j] in ps; }
    forall k | 1 <= k <= 4 ensures FieldAt(qs, k) == EntryFields(Truncated(e, n))[k - 1] {
      if k <= n {
        assert ps[k - 1] in qs;
        ValueAtExactly(qs, k, fs[k - 1]);
      } else {
        assert forall q :: q in ps ==> q.key != Int(k);
      }
    }
    assert forall k :: 0 <= k < 4 ==> EntryFields(EntryOf(qs))[k] == FieldAt(qs, k + 1);
    FieldsDetermine(EntryOf(qs), Truncated(e, n));
  }

  /** What is written is read back. */
  lemma EntryRoundTrip(e: LedgerEntry)
    ensures Parse(EntryBody(e)) == Some(e)
  {
    hide Parse, RecordBytes;
    assert EntryFields(e)[..4] == EntryFields(e);
    PrefixParses(e, 4);
  }

  // ---- Which records are the ones written --------------------------------------------------------------

  lemma FieldReads(qs: seq<Pair>, j: nat)
    requires Encode(Map(qs)).Ok? && FieldsOk(qs) && j < |qs|
    ensures 1 <= qs[j].key.i <= 4 && FieldAt(qs, qs[j].key.i) == qs[j].val
  {
    hide Encode, ValueAt;
    var k := qs[j].key.i;
    forall q | q in qs && q.key == Int(k) ensures q.val == qs[j].val { OneValue(qs, q, qs[j]); }
    assert qs[j] == Pair(Int(k), qs[j].val);
    ValueAtExactly(qs, k, qs[j].val);
  }

  /** With four pairs every field is there, so the map is the written one up to the order of pairs. */
  lemma FourFieldsSame(qs: seq<Pair>)
    requires Encode(Map(qs)).Ok? && FieldsOk(qs) && |qs| == 4
    ensures Same(Map(qs), Record(EntryFields(EntryOf(qs))))
  {
    hide Encode, FieldAt;
    var fs := EntryFields(EntryOf(qs));
    forall j | 0 <= j < 4 ensures 1 <= qs[j].key.i <= 4 && fs[qs[j].key.i - 1] == qs[j].val { FieldReads(qs, j); }
    var p: seq<nat> := seq(4, j requires 0 <= j < 4 => qs[j].key.i - 1);
    forall i, j | 0 <= i < j < 4 ensures p[i] != p[j] { KeysDistinct(qs, i, j); }
    forall j | 0 <= j < 4 ensures SamePair(qs[j], Record(fs).pairs[p[j]]) { SameSelf(qs[j].val); }
    assert Permutation(p, 4);
  }

  /** A record that is read back is the one its entry would be written as exactly when it holds all
      four fields. */
  lemma CompleteExactly(raw: Bytes)
    requires Parse(raw).Some?
    ensures raw == EntryBody(Parse(raw).value)
            <==> |DecodeMap(raw).value| == 4
  {
    hide DecodeMap, Encode, EntryOf, FieldsOk, Same;
    var e, qs := Parse(raw).value, DecodeMap(raw).value;
    DecodedMap(raw);
    RecordDecodes(EntryFields(e));
    if |qs| == 4 {
      FourFieldsSame(qs);
      SameEncoding(Map(qs), Record(EntryFields(e)));
    }
  }
}
