/** The encoder and decoder in plain terms: which values encode, to which octets, and which fault is
    named otherwise. */
module CborExact {
  import opened Octets
  import opened Cbor
  import opened CborCanonical
  import CborDecode

  // ---- Heads, octet by octet -----------------------------------------------------------------------------

  /** How many octets follow the first one. */
  function Following(n: nat): nat {
    if n <= 23 then 0 else if n <= 255 then 1 else if n <= 65535 then 2 else if n <= 0xFFFF_FFFF then 4 else 8
  }

  /** The first octet holds the major type in its top three bits, and either the argument or the code
      of how many octets follow; these are the argument, most significant octet first. */
  lemma HeadOctets(major: nat, n: nat, i: nat)
    requires major < 8 && n < U64 && i < Following(n)
    ensures EncHead(major, n).Ok? && |EncHead(major, n).value| == 1 + Following(n)
    ensures EncHead(major, n).value[Following(n) - i] == n / Pow256(i) % 256
  {
    hide EncHead, BigEndian;
    HeadForm(major, n);
    BigEndianDigit(n, Following(n), i);
  }

  lemma HeadFirst(major: nat, n: nat)
    requires major < 8 && n < U64
    ensures EncHead(major, n).Ok? && EncHead(major, n).value != []
    ensures EncHead(major, n).value[0] == 32 * major +
            if n <= 23 then n else if n <= 255 then 24 else if n <= 65535 then 25
            else if n <= 0xFFFF_FFFF then 26 else 27
  {}

  /** Major types 0 to 6, their arguments, and what follows the head of a leaf. */
  lemma MajorTypes(v: Value)
    requires Encode(v).Ok?
    ensures Encode(v).value != []
    ensures v.Int? ==> Encode(v).value[0] / 32 == if v.i >= 0 then 0 else 1
    ensures v.Bstr? ==> Encode(v).value[0] / 32 == 2 && v.octets == Encode(v).value[1 + Following(|v.octets|)..]
    ensures v.Tstr? ==> Encode(v).value[0] / 32 == 3 && v.utf8 == Encode(v).value[1 + Following(|v.utf8|)..]
    ensures v.Arr? ==> Encode(v).value[0] / 32 == 4
    ensures v.Map? ==> Encode(v).value[0] / 32 == 5
    ensures v.Tag? ==> Encode(v).value[0] / 32 == 6
  {
    hide Encode, EncHead, Body, BigEndian;
    HeadAndBody(v);
    HeadRange(Major(v), Argument(v));
    HeadFirst(Major(v), Argument(v));
    HeadForm(Major(v), Argument(v));
    LeafBody(v);
  }

  lemma HeadRange(major: nat, n: int)
    requires major < 8 && EncHead(major, n).Ok?
    ensures 0 <= n < U64
  {}

  lemma LeafBody(v: Value)
    requires Encode(v).Ok?
    ensures v.Bstr? ==> Body(v) == v.octets
    ensures v.Tstr? ==> Body(v) == v.utf8
  {}

  // ---- Which values encode ---------------------------------------------------------------------------------

  /** No booleans, arguments within 64 bits, well-formed text, and in each map no two keys that agree
      up to the order of map pairs. */
  ghost predicate Encodable(v: Value)
    decreases v, 0
  {
    match v
    case Bool(_) => false
    case Int(i) => 0 - U64 <= i < U64
    case Bstr(b) => |b| < U64
    case Tstr(b) => |b| < U64 && Utf8Valid(b)
    case Arr(xs) => |xs| < U64 && forall i :: 0 <= i < |xs| ==> Encodable(xs[i])
    case Tag(n, c) => 0 <= n < U64 && Encodable(c)
    case Map(ps) =>
      && |ps| < U64 && (forall i :: 0 <= i < |ps| ==> PairEncodable(ps[i]))
      && forall i, j :: 0 <= i < j < |ps| ==> !Same(ps[i].key, ps[j].key)
  }

  ghost predicate PairEncodable(p: Pair)
    decreases p, 1
  {
    Encodable(p.key) && Encodable(p.val)
  }

  lemma {:induction false} EncodesExactly(v: Value)
    ensures Encode(v).Ok? <==> Encodable(v)
    decreases v, 2
  {
    match v
    case Arr(xs) => ItemsExactly(xs);
    case Tag(_, c) => EncodesExactly(c);
    case Map(ps) =>
      hide Encode, Same;
      PairsExactly(ps);
      MapUnfold(ps);
      if EncodePairs(ps).Ok? {
        EncodePairsEach(ps, EncodePairs(ps).value);
        KeysExactly(ps, EncodePairs(ps).value);
      }
      MapEncodable(ps);
    case _ =>
  }

  lemma MapEncodable(ps: seq<Pair>)
    ensures Encodable(Map(ps)) <==>
            && EncHead(5, |ps|).Ok? && (forall i :: 0 <= i < |ps| ==> PairEncodable(ps[i]))
            && forall i, j :: 0 <= i < j < |ps| ==> !Same(ps[i].key, ps[j].key)
  {
    hide Same;
  }

  lemma {:induction false} ItemsExactly(xs: seq<Value>)
    ensures EncodeItems(xs).Ok? <==> forall i :: 0 <= i < |xs| ==> Encodable(xs[i])
    decreases xs, 0
  {
    hide Encode, Encodable;
    if xs != [] {
      EncodesExactly(xs[0]);
      ItemsExactly(xs[1..]);
      assert forall i :: 0 < i < |xs| ==> xs[i] == xs[1..][i - 1];
    }
  }

  lemma {:induction false} PairsExactly(ps: seq<Pair>)
    ensures EncodePairs(ps).Ok? <==> forall i :: 0 <= i < |ps| ==> PairEncodable(ps[i])
    decreases ps, 0
  {
    hide EncodePair, PairEncodable;
    if ps != [] {
      PairExactly(ps[0]);
      PairsExactly(ps[1..]);
      assert forall i :: 0 < i < |ps| ==> ps[i] == ps[1..][i - 1];
    }
  }

  lemma {:induction false} PairExactly(p: Pair)
    ensures EncodePair(p).Ok? <==> PairEncodable(p)
    decreases p, 3
  {
    hide Encode, Encodable;
    EncodesExactly(p.key);
    EncodesExactly(p.val);
  }

  lemma KeysExactly(ps: seq<Pair>, es: seq<Entry>)
    requires Encodes(ps, es)
    ensures DistinctKeys(es) <==> forall i, j :: 0 <= i < j < |ps| ==> !Same(ps[i].key, ps[j].key)
  {
    hide Encode, Same;
    forall i, j | 0 <= i < j < |ps| ensures es[i].0 == es[j].0 <==> Same(ps[i].key, ps[j].key) {
      assert EncodePair(ps[i]) == Ok(es[i]) && EncodePair(ps[j]) == Ok(es[j]);
      EncodingCanonical(ps[i].key, ps[j].key);
    }
  }

  // ---- Which fault is named --------------------------------------------------------------------------------

  /** Faults of a leaf and of a head; an array's and a map's are their first faulty part's, and a map
      is refused for a repeated key only when all its pairs encode. */
  lemma EncodeFaults(v: Value)
    ensures v.Bool? ==> Encode(v) == Err(Boolean)
    ensures v.Int? && Encode(v).Err? ==> Encode(v) == Err(ArgumentTooLarge)
    ensures v.Tstr? && !Utf8Valid(v.utf8) ==> Encode(v) == Err(InvalidText)
    ensures v.Tag? && v.number < 0 ==> Encode(v) == Err(NegativeArgument)
    ensures v.Tag? && v.number >= U64 ==> Encode(v) == Err(ArgumentTooLarge)
    ensures v.Tag? && 0 <= v.number < U64 && Encode(v.content).Err? ==> Encode(v) == Encode(v.content)
  {}

  lemma {:induction false} FirstItemFaults(xs: seq<Value>, i: nat)
    requires i < |xs| && Encode(xs[i]).Err? && forall j :: 0 <= j < i ==> Encode(xs[j]).Ok?
    ensures EncodeItems(xs).Err? && EncodeItems(xs).error == Encode(xs[i]).error
    ensures |xs| < U64 ==> Encode(Arr(xs)).Err? && Encode(Arr(xs)).error == Encode(xs[i]).error
  {
    hide EncHead;
    if i > 0 { FirstItemFaults(xs[1..], i - 1); }
    if |xs| < U64 { HeadFirst(4, |xs|); }
  }

  lemma {:induction false} FirstPairFaults(ps: seq<Pair>, i: nat)
    requires i < |ps| && EncodePair(ps[i]).Err? && forall j :: 0 <= j < i ==> EncodePair(ps[j]).Ok?
    ensures EncodePairs(ps).Err? && EncodePairs(ps).error == EncodePair(ps[i]).error
    ensures Encode(Map(ps)).Err? && Encode(Map(ps)).error == EncodePair(ps[i]).error
  {
    hide EncodePair;
    if i > 0 { FirstPairFaults(ps[1..], i - 1); }
  }

  /** Within a pair the key's fault comes first. */
  lemma PairFaults(p: Pair)
    ensures Encode(p.key).Err? ==> EncodePair(p) == Err(Encode(p.key).error)
    ensures Encode(p.key).Ok? && Encode(p.val).Err? ==> EncodePair(p) == Err(Encode(p.val).error)
  {}

  lemma RepeatedKeyFaults(ps: seq<Pair>, i: nat, j: nat)
    requires (forall k :: 0 <= k < |ps| ==> PairEncodable(ps[k])) && i < j < |ps| && Same(ps[i].key, ps[j].key)
    ensures Encode(Map(ps)) == Err(DuplicateKey)
  {
    hide EncHead, EncodePair, EncodePairs, Same, PairEncodable;
    PairsExactly(ps);
    var es := EncodePairs(ps).value;
    EncodePairsEach(ps, es);
    KeysExactly(ps, es);
  }

  /** A map of two pairs, in either order: the smaller encoded key first. */
  lemma TwoKeyMap(p: Pair, q: Pair)
    requires EncodePair(p).Ok? && EncodePair(q).Ok? && Less(EncodePair(p).value.0, EncodePair(q).value.0)
    ensures var (e, f) := (EncodePair(p).value, EncodePair(q).value);
            Encode(Map([p, q])) == Ok([0xA2] + e.0 + e.1 + f.0 + f.1) && Encode(Map([q, p])) == Encode(Map([p, q]))
  {
    hide EncodePair;
    var e, f := EncodePair(p).value, EncodePair(q).value;
    LessTotal(e.0, f.0);
    LessTotal(e.0, e.0);
    TwoEntries(p, q);
    TwoEntries(q, p);
    assert [f][1..] == [] && [e][1..] == [] && [e, f][1..] == [f] && [f, e][1..] == [e];
    assert Sort([e]) == [e] && Sort([f]) == [f];
    assert Insert(f, [e]) == [e] + Insert(f, []);
    assert Sort([e, f]) == [e, f] && Sort([f, e]) == [e, f];
    assert Flatten([f]) == f.0 + f.1 + Flatten([]);
    assert Flatten([e, f]) == e.0 + e.1 + (f.0 + f.1);
    assert EncHead(5, 2) == Ok([0xA2]);
    assert [0xA2] + (e.0 + e.1 + (f.0 + f.1)) == [0xA2] + e.0 + e.1 + f.0 + f.1;
  }

  lemma TwoEntries(p: Pair, q: Pair)
    requires EncodePair(p).Ok? && EncodePair(q).Ok?
    ensures EncodePairs([p, q]) == Ok([EncodePair(p).value, EncodePair(q).value])
  {
    hide EncodePair, EncodePairs;
    EncodePairsEach([p, q], [EncodePair(p).value, EncodePair(q).value]);
  }

  // ---- The decoder's faults ----------------------------------------------------------------------------------

  /** Two results of one parse under two limits: the lower one may refuse for depth, and differs in
      nothing else. */
  ghost predicate DepthApart<T(!new)>(low: CborDecode.Parsed<T>, high: CborDecode.Parsed<T>) {
    low == high || low == CborDecode.Fail(CborDecode.DepthExceeded)
  }

  lemma {:induction false} ItemDepth(b: Bytes, depth: nat, low: nat, high: nat)
    requires low <= high
    ensures DepthApart(CborDecode.DecodeItem(b, depth, low), CborDecode.DecodeItem(b, depth, high))
    ensures depth + |b| <= high ==>
              CborDecode.DecodeItem(b, depth, high) != CborDecode.Fail(CborDecode.DepthExceeded)
    decreases |b|, 0
  {
    hide CborDecode.DecodeBody, CborDecode.ReadArgument;
    if depth <= high && b != [] {
      var head := CborDecode.ReadArgument(b[0] % 32, b[1..]);
      ArgumentFault(b[0] % 32, b[1..]);
      if head.Done? { BodyDepth(b[0] / 32, head.value, head.rest, depth, low, high); }
    }
  }

  lemma ArgumentFault(ai: nat, b: Bytes)
    ensures CborDecode.ReadArgument(ai, b) != CborDecode.Fail(CborDecode.DepthExceeded)
    ensures CborDecode.ReadArgument(ai, b).Done? ==> |CborDecode.ReadArgument(ai, b).rest| <= |b|
  {}

  lemma {:induction false} BodyDepth(major: nat, arg: nat, b: Bytes, depth: nat, low: nat, high: nat)
    requires low <= high
    ensures DepthApart(CborDecode.DecodeBody(major, arg, b, depth, low),
                       CborDecode.DecodeBody(major, arg, b, depth, high))
    ensures depth + 1 + |b| <= high ==>
              CborDecode.DecodeBody(major, arg, b, depth, high) != CborDecode.Fail(CborDecode.DepthExceeded)
    decreases |b|, 2
  {
    hide CborDecode.DecodeItem, CborDecode.DecodeItems, CborDecode.DecodePairs, Utf8Valid;
    match major
    case 4 => if arg <= |b| { ItemsDepth(arg, b, depth + 1, low, high); }
    case 5 => if arg <= |b| / 2 { PairsDepth(arg, b, None, depth + 1, low, high); }
    case 6 => ItemDepth(b, depth + 1, low, high);
    case _ =>
  }

  lemma {:induction false} ItemsDepth(n: nat, b: Bytes, depth: nat, low: nat, high: nat)
    requires low <= high
    ensures DepthApart(CborDecode.DecodeItems(n, b, depth, low), CborDecode.DecodeItems(n, b, depth, high))
    ensures depth + |b| <= high ==>
              CborDecode.DecodeItems(n, b, depth, high) != CborDecode.Fail(CborDecode.DepthExceeded)
    decreases |b|, 1, n
  {
    hide CborDecode.DecodeItem;
    if n > 0 {
      ItemDepth(b, depth, low, high);
      var first := CborDecode.DecodeItem(b, depth, high);
      if first.Done? { ItemsDepth(n - 1, first.rest, depth, low, high); }
    }
  }

  lemma {:induction false} PairsDepth(n: nat, b: Bytes, previous: Option<Bytes>, depth: nat, low: nat, high: nat)
    requires low <= high
    ensures DepthApart(CborDecode.DecodePairs(n, b, previous, depth, low),
                       CborDecode.DecodePairs(n, b, previous, depth, high))
    ensures depth + |b| <= high ==>
              CborDecode.DecodePairs(n, b, previous, depth, high) != CborDecode.Fail(CborDecode.DepthExceeded)
    decreases |b|, 1, n
  {
    hide CborDecode.DecodeItem, Less;
    if n > 0 {
      ItemDepth(b, depth, low, high);
      var key := CborDecode.DecodeItem(b, depth, high);
      if key.Done? {
        var octets := b[..|b| - |key.rest|];
        ItemDepth(key.rest, depth, low, high);
        var val := CborDecode.DecodeItem(key.rest, depth, high);
        if val.Done? { PairsDepth(n - 1, val.rest, Some(octets), depth, low, high); }
      }
    }
  }

  /** A depth limit changes a result only by refusing for depth, and a limit beyond the input's length
      never does. */
  lemma LimitOnlyRefuses(b: Bytes, low: nat, high: nat)
    requires low <= high
    ensures CborDecode.Decode(b, low) == CborDecode.Decode(b, high)
            || CborDecode.Decode(b, low) == CborDecode.Fail(CborDecode.DepthExceeded)
    ensures |b| < high ==> CborDecode.Decode(b, high) != CborDecode.Fail(CborDecode.DepthExceeded)
  {
    hide CborDecode.DecodeItem;
    ItemDepth(b, 1, low, high);
  }

  lemma FaultIsOne(r: CborDecode.Parsed<Value>)
    requires r.Fail? && r != CborDecode.Fail(CborDecode.DepthExceeded)
    ensures r == CborDecode.Fail(CborDecode.NonCanonical)
  {
    match r.fault
    case NonCanonical =>
    case DepthExceeded =>
  }

  /** An encoding that nests too deep is refused for its depth; one that is refused under every limit
      holds an integer below -2^63 and is refused as not canonical. */
  lemma RefusalNamed(v: Value, low: nat, high: nat)
    requires Encode(v).Ok? && low <= high && |Encode(v).value| < high
    ensures !CborDecode.Within(v, low) && CborDecode.Within(v, high) ==>
              CborDecode.Decode(Encode(v).value, low) == CborDecode.Fail(CborDecode.DepthExceeded)
    ensures !CborDecode.Within(v, high) ==>
              CborDecode.Decode(Encode(v).value, high) == CborDecode.Fail(CborDecode.NonCanonical)
  {
    hide CborDecode.Decode, Encode, CborDecode.Within, Same;
    CborDecode.DecodeComplete(v, low);
    CborDecode.DecodeComplete(v, high);
    LimitOnlyRefuses(Encode(v).value, low, high);
    if CborDecode.Decode(Encode(v).value, high).Fail? { FaultIsOne(CborDecode.Decode(Encode(v).value, high)); }
  }
}
