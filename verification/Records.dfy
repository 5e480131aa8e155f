/** Object bodies: CBOR maps with keys 1, 2, ..., n, whose bytes determine every field. */
module Records {
  import opened Octets
  import opened Cbor
  import opened CborCanonical

  type u64 = n: int | 0 <= n < U64

  type Blob = b: Bytes | |b| < U64

  type Text = b: Bytes | Utf8Valid(b) && |b| < U64 witness []

  /** Field values that occur in bodies; all of them encode. */
  predicate Plain(v: Value) {
    match v
    case Int(i) => 0 <= i < U64
    case Bstr(b) => |b| < U64
    case Tstr(b) => Utf8Valid(b) && |b| < U64
    case Arr(xs) => |xs| < U64 && forall x :: x in xs ==> x.Bstr? && |x.octets| < U64
    case _ => false
  }

  predicate Fields(fs: seq<Value>) {
    |fs| < U64 && forall i :: 0 <= i < |fs| ==> Plain(fs[i])
  }

  function Record(fs: seq<Value>): Value {
    Map(seq(|fs|, i requires 0 <= i < |fs| => Pair(Int(i + 1), fs[i])))
  }

  lemma {:induction false} BlobsEncode(xs: seq<Value>)
    requires forall x :: x in xs ==> x.Bstr? && |x.octets| < U64
    ensures EncodeItems(xs).Ok?
  {
    if xs != [] {
      assert xs[0] in xs;
      BlobsEncode(xs[1..]);
    }
  }

  lemma PlainEncodes(v: Value)
    requires Plain(v)
    ensures Encode(v).Ok?
  {
    if v.Arr? { BlobsEncode(v.items); }
  }

  lemma IntKeysDistinct(i: u64, j: u64)
    requires Encode(Int(i)) == Encode(Int(j))
    ensures i == j
  {
    Unique(Int(i), Int(j), [], []);
  }

  lemma {:induction false} PairsEncode(ps: seq<Pair>)
    requires forall i :: 0 <= i < |ps| ==> EncodePair(ps[i]).Ok?
    ensures EncodePairs(ps).Ok? && Encodes(ps, EncodePairs(ps).value)
  {
    hide EncodePair;
    if ps != [] {
      forall i | 0 <= i < |ps[1..]| ensures EncodePair(ps[1..][i]).Ok? { assert ps[1..][i] == ps[i + 1]; }
      PairsEncode(ps[1..]);
    }
    EncodePairsEach(ps, EncodePairs(ps).value);
  }

  lemma RecordEncodes(fs: seq<Value>)
    requires Fields(fs)
    ensures Encode(Record(fs)).Ok?
  {
    hide Encode, EncodePairs;
    var ps := Record(fs).pairs;
    forall i | 0 <= i < |ps| ensures EncodePair(ps[i]).Ok? {
      PlainEncodes(fs[i]);
      PlainEncodes(Int(i + 1));
    }
    PairsEncode(ps);
    var es := EncodePairs(ps).value;
    forall i, j | 0 <= i < j < |es| ensures es[i].0 != es[j].0 {
      assert EncodePair(ps[i]) == Ok(es[i]) && EncodePair(ps[j]) == Ok(es[j]);
      PlainEncodes(Int(i + 1));
      PlainEncodes(Int(j + 1));
      if es[i].0 == es[j].0 { IntKeysDistinct(i + 1, j + 1); }
    }
    MapUnfold(ps);
  }

  function RecordBytes(fs: seq<Value>): (b: Bytes)
    requires Fields(fs)
    ensures Encode(Record(fs)) == Ok(b)
  {
    RecordEncodes(fs);
    Encode(Record(fs)).value
  }

  lemma PlainSame(v: Value, w: Value)
    requires Plain(v) && Same(v, w)
    ensures v == w
  {
    if v.Arr? {
      forall i | 0 <= i < |v.items| ensures v.items[i] == w.items[i] {
        assert v.items[i] in v.items && Same(v.items[i], w.items[i]);
      }
      assert v.items == w.items;
    }
  }

  /** Bodies with equal bytes have equal fields, in number and in value. */
  lemma RecordInjective(fs: seq<Value>, gs: seq<Value>)
    requires Fields(fs) && Fields(gs) && RecordBytes(fs) == RecordBytes(gs)
    ensures fs == gs
  {
    hide Encode, RecordBytes, Same;
    EncodingCanonical(Record(fs), Record(gs));
    var ps, qs := Record(fs).pairs, Record(gs).pairs;
    var p := Matching(ps, qs);
    forall i | 0 <= i < |fs| ensures fs[i] == gs[i] {
      PairAt(ps[i], qs[p[i]]);
    }
  }

  lemma PairAt(p: Pair, q: Pair)
    requires SamePair(p, q) && Plain(p.key) && Plain(p.val)
    ensures p == q
  {
    PlainSame(p.key, q.key);
    PlainSame(p.val, q.val);
  }
}
