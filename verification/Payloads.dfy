/** Payloads: reading the fields of a numbered body back from its octets. */
module Payloads {
  import opened Octets
  import opened Cbor
  import opened CborCanonical
  import opened Records
  import CborDecode

  /** The nesting limit of the trusted-input decoder. */
  const MAX_DEPTH: nat := 0x10_0000

  /** The pairs of the map a payload decodes to. */
  function DecodeMap(raw: Bytes): Option<seq<Pair>> {
    var r := CborDecode.Decode(raw, MAX_DEPTH);
    if r.Done? && r.value.Map? then Some(r.value.pairs) else None
  }

  /** The value of the last pair with key k; in a decoded map there is no other. */
  function ValueAt(ps: seq<Pair>, k: int): (r: Option<Value>)
    ensures r.Some? ==> Pair(Int(k), r.value) in ps
    ensures r.None? ==> forall q :: q in ps ==> q.key != Int(k)
  {
    if ps == [] then None
    else
      var n := |ps| - 1;
      assert ps == ps[..n] + [ps[n]];
      if ps[n].key == Int(k) then Some(ps[n].val) else ValueAt(ps[..n], k)
  }

  /** Whatever is decoded is in range already. */
  lemma DecodedInRange(ps: seq<Pair>, p: Pair)
    requires Encode(Map(ps)).Ok? && p in ps
    requires p.val.Bstr? || p.val.Tstr? || (p.val.Int? && p.val.i >= 0)
    ensures Plain(p.val)
  {
    hide EncodePairs;
    MapShape(ps);
    var i :| 0 <= i < |ps| && ps[i] == p;
    assert EncodePair(ps[i]).Ok? && Encode(p.val).Ok?;
    HeadAndBody(p.val);
    CborDecode.HeadNonEmpty(Major(p.val), Argument(p.val));
  }

  /** Whatever is decoded is the encoding of what was decoded, and in range. */
  lemma DecodedMap(raw: Bytes)
    requires DecodeMap(raw).Some?
    ensures Encode(Map(DecodeMap(raw).value)) == Ok(raw)
    ensures forall q :: q in DecodeMap(raw).value && (q.val.Bstr? || q.val.Tstr? || (q.val.Int? && q.val.i >= 0)) ==>
              Plain(q.val)
  {
    hide CborDecode.Decode, Encode, Plain;
    CborDecode.DecodeStrict(raw, MAX_DEPTH);
    var ps := DecodeMap(raw).value;
    forall q | q in ps && (q.val.Bstr? || q.val.Tstr? || (q.val.Int? && q.val.i >= 0)) ensures Plain(q.val) {
      DecodedInRange(ps, q);
    }
  }

  lemma RecordWithin(fs: seq<Value>)
    requires Fields(fs)
    ensures CborDecode.Within(Record(fs), MAX_DEPTH)
  {
    var ps := Record(fs).pairs;
    forall i | 0 <= i < |ps| ensures CborDecode.PairWithin(ps[i], MAX_DEPTH - 1) {
      FieldWithin(fs[i], MAX_DEPTH - 1);
    }
  }

  lemma FieldWithin(v: Value, room: int)
    requires Plain(v) && room >= 2
    ensures CborDecode.Within(v, room)
  {
    if v.Arr? {
      forall i | 0 <= i < |v.items| ensures CborDecode.Within(v.items[i], room - 1) { assert v.items[i] in v.items; }
    }
  }

  /** Every body is decoded to a map with exactly its fields. */
  lemma RecordDecodes(fs: seq<Value>)
    requires Fields(fs)
    ensures DecodeMap(RecordBytes(fs)).Some? && |DecodeMap(RecordBytes(fs)).value| == |fs|
    ensures forall q :: q in DecodeMap(RecordBytes(fs)).value <==> q in Record(fs).pairs
  {
    hide CborDecode.Decode, Encode, RecordBytes, Same;
    var raw := RecordBytes(fs);
    RecordWithin(fs);
    CborDecode.DecodeComplete(Record(fs), MAX_DEPTH);
    SameIsMap(Record(fs), CborDecode.Decode(raw, MAX_DEPTH).value);
    var ps, qs := Record(fs).pairs, DecodeMap(raw).value;
    var p := Matching(ps, qs);
    forall i | 0 <= i < |ps| ensures ps[i] == qs[p[i]] { PairAt(ps[i], qs[p[i]]); }
    forall q | q in qs ensures q in ps {
      var j: nat :| j < |qs| && qs[j] == q;
      Onto(p, |ps|, j);
      var i :| 0 <= i < |p| && p[i] == j;
      assert ps[i] == q;
    }
  }

  /** The payload is a map that holds v under the key. */
  ghost predicate Carries(raw: Bytes, key: int, v: Value) {
    DecodeMap(raw).Some? && Pair(Int(key), v) in DecodeMap(raw).value
  }

  /** Under key i a body carries its i-th field, and it carries nothing else. */
  lemma BodyCarries(fs: seq<Value>)
    requires Fields(fs)
    ensures DecodeMap(RecordBytes(fs)).Some? && |DecodeMap(RecordBytes(fs)).value| == |fs|
    ensures |fs| >= 1 ==> Carries(RecordBytes(fs), 1, fs[0])
    ensures |fs| >= 2 ==> Carries(RecordBytes(fs), 2, fs[1])
    ensures |fs| >= 3 ==> Carries(RecordBytes(fs), 3, fs[2])
    ensures |fs| >= 4 ==> Carries(RecordBytes(fs), 4, fs[3])
    ensures |fs| >= 5 ==> Carries(RecordBytes(fs), 5, fs[4])
  {
    hide DecodeMap, RecordBytes;
    RecordDecodes(fs);
    var ps := Record(fs).pairs;
    assert forall i :: 0 <= i < |fs| ==> ps[i] == Pair(Int(i + 1), fs[i]) && ps[i] in ps;
  }

  lemma SameIsMap(v: Value, w: Value)
    requires v.Map? && Same(v, w)
    ensures w.Map?
  {}

  lemma {:induction false} ValueAtExactly(ps: seq<Pair>, k: int, v: Value)
    requires Pair(Int(k), v) in ps && forall q :: q in ps && q.key == Int(k) ==> q.val == v
    ensures ValueAt(ps, k) == Some(v)
  {
    var found := ValueAt(ps, k);
    assert found.Some?;
    assert Pair(Int(k), found.value) in ps;
  }

  lemma KeysDistinct(ps: seq<Pair>, i: nat, j: nat)
    requires Encode(Map(ps)).Ok? && i < j < |ps|
    ensures ps[i].key != ps[j].key
  {
    hide Encode, EncodePairs;
    MapShape(ps);
    var es := EncodePairs(ps).value;
    assert EncodePair(ps[i]) == Ok(es[i]) && EncodePair(ps[j]) == Ok(es[j]);
    assert es[i].0 != es[j].0;
  }

  lemma OneValue(qs: seq<Pair>, p: Pair, q: Pair)
    requires Encode(Map(qs)).Ok? && p in qs && q in qs && p.key == q.key
    ensures p == q
  {
    var i: nat :| i < |qs| && qs[i] == p;
    var j: nat :| j < |qs| && qs[j] == q;
    if i < j { KeysDistinct(qs, i, j); } else if j < i { KeysDistinct(qs, j, i); }
  }

  /** A map that holds every numbered field, and no more pairs than fields, is the body of them. */
  lemma BodyOfFields(qs: seq<Pair>, fs: seq<Value>)
    requires Fields(fs) && |qs| == |fs| && forall q :: q in Record(fs).pairs ==> q in qs
    ensures Encode(Map(qs)) == Ok(RecordBytes(fs))
  {
    hide Encode;
    var ps := Record(fs).pairs;
    var p: seq<nat> := [];
    for i := 0 to |ps|
      invariant |p| == i && forall j :: 0 <= j < i ==> p[j] < |qs| && qs[p[j]] == ps[j]
    {
      assert ps[i] in qs;
      var j: nat :| j < |qs| && qs[j] == ps[i];
      p := p + [j];
    }
    forall i | 0 <= i < |ps| ensures SamePair(ps[i], qs[p[i]]) { SameSelf(fs[i]); }
    assert Permutation(p, |ps|);
    var raw := RecordBytes(fs);
    SameEncoding(Record(fs), Map(qs));
  }

  lemma SameSelf(v: Value)
    requires Plain(v)
    ensures Same(v, v)
  {
    if v.Arr? { assert forall i :: 0 <= i < |v.items| ==> v.items[i] in v.items; }
  }
}
