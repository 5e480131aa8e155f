/** The strict decoder: it accepts exactly the canonical encodings, within a nesting limit. */
module CborDecode {
  import opened Octets
  import opened Cbor
  import opened CborCanonical

  datatype Fault = NonCanonical | DepthExceeded

  datatype Parsed<+T> = Done(value: T, rest: Bytes) | Fail(fault: Fault) {
    predicate IsFailure() { Fail? }
    function PropagateFailure<U>(): Parsed<U> requires Fail? { Fail(fault) }
    function Extract(): (T, Bytes) requires Done? { (value, rest) }
  }

  const INT64_MAX: int := 0x7FFF_FFFF_FFFF_FFFF

  /** The smallest argument a head of this width may carry. */
  function LeastArgument(ai: nat): nat {
    if ai == 24 then 24 else if ai == 25 then 0x100 else if ai == 26 then 0x1_0000 else 0x1_0000_0000
  }

  function ReadArgument(ai: nat, b: Bytes): (r: Parsed<nat>)
    ensures r.Done? ==> |r.rest| <= |b|
  {
    if ai < 24 then Done(ai, b)
    else if ai > 27 || |b| < HeadWidth(ai) then Fail(NonCanonical)
    else
      var n := FromBigEndian(b[..HeadWidth(ai)]);
      if n < LeastArgument(ai) then Fail(NonCanonical) else Done(n, b[HeadWidth(ai)..])
  }

  function DecodeItem(b: Bytes, depth: nat, maxDepth: nat): (r: Parsed<Value>)
    ensures r.Done? ==> |r.rest| < |b|
    decreases |b|, 0
  {
    if depth > maxDepth then Fail(DepthExceeded)
    else if b == [] then Fail(NonCanonical)
    else
      var (arg, rest) :- ReadArgument(b[0] % 32, b[1..]);
      DecodeBody(b[0] / 32, arg, rest, depth, maxDepth)
  }

  /** The item after its head: major type, argument and remaining input. */
  function DecodeBody(major: nat, arg: nat, b: Bytes, depth: nat, maxDepth: nat): (r: Parsed<Value>)
    ensures r.Done? ==> |r.rest| <= |b|
    decreases |b|, 2
  {
    match major
    case 0 => Done(Int(arg), b)
    case 1 => if arg > INT64_MAX then Fail(NonCanonical) else Done(Int(-1 - arg), b)
    case 2 => if |b| < arg then Fail(NonCanonical) else Done(Bstr(b[..arg]), b[arg..])
    case 3 =>
      if |b| < arg || !Utf8Valid(b[..arg]) then Fail(NonCanonical)
      else Done(Tstr(b[..arg]), b[arg..])
    case 4 =>
      if |b| < arg then Fail(NonCanonical)
      else var (items, rest) :- DecodeItems(arg, b, depth + 1, maxDepth); Done(Arr(items), rest)
    case 5 =>
      if arg > |b| / 2 then Fail(NonCanonical)
      else var (pairs, rest) :- DecodePairs(arg, b, None, depth + 1, maxDepth); Done(Map(pairs), rest)
    case 6 =>
      var (content, rest) :- DecodeItem(b, depth + 1, maxDepth);
      Done(Tag(arg, content), rest)
    case _ => Fail(NonCanonical)
  }

  function DecodeItems(n: nat, b: Bytes, depth: nat, maxDepth: nat): (r: Parsed<seq<Value>>)
    ensures r.Done? ==> |r.rest| <= |b|
    decreases |b|, 1
  {
    if n == 0 then Done([], b)
    else
      var (first, rest) :- DecodeItem(b, depth, maxDepth);
      var (others, tail) :- DecodeItems(n - 1, rest, depth, maxDepth);
      Done([first] + others, tail)
  }

  /** Map entries; each key must come strictly after the previous one. */
  function DecodePairs(n: nat, b: Bytes, previous: Option<Bytes>, depth: nat, maxDepth: nat): (r: Parsed<seq<Pair>>)
    ensures r.Done? ==> |r.rest| <= |b|
    decreases |b|, 1
  {
    if n == 0 then Done([], b)
    else
      var (key, rest) :- DecodeItem(b, depth, maxDepth);
      var octets := b[..|b| - |rest|];
      if previous.Some? && !Less(previous.value, octets) then Fail(NonCanonical)
      else
        var (val, more) :- DecodeItem(rest, depth, maxDepth);
        var (others, tail) :- DecodePairs(n - 1, more, Some(octets), depth, maxDepth);
        Done([Pair(key, val)] + others, tail)
  }

  function Decode(b: Bytes, maxDepth: nat): Parsed<Value> {
    var (v, rest) :- DecodeItem(b, 1, maxDepth);
    if rest != [] then Fail(NonCanonical) else Done(v, [])
  }

  // ---- The decoder as the source runs it -------------------------------------------------------------

  ghost function Continue<T>(done: seq<T>, r: Parsed<seq<T>>): Parsed<seq<T>> {
    if r.Done? then Done(done + r.value, r.rest) else r
  }

  method DecodeValue(b: Bytes, depth: nat, maxDepth: nat) returns (r: Parsed<Value>)
    ensures r == DecodeItem(b, depth, maxDepth)
    decreases |b|, 0
  {
    if depth > maxDepth { return Fail(DepthExceeded); }
    if b == [] { return Fail(NonCanonical); }
    var major := b[0] / 32;
    var head :- ReadArgument(b[0] % 32, b[1..]);
    var (arg, rest) := head;
    match major {
      case 4 =>
        if |rest| < arg { return Fail(NonCanonical); }
        var list :- DecodeArray(arg, rest, depth + 1, maxDepth);
        return Done(Arr(list.0), list.1);
      case 5 =>
        if arg > |rest| / 2 { return Fail(NonCanonical); }
        var table :- DecodeMap(arg, rest, depth + 1, maxDepth);
        return Done(Map(table.0), table.1);
      case 6 =>
        var content :- DecodeValue(rest, depth + 1, maxDepth);
        return Done(Tag(arg, content.0), content.1);
      case _ =>
        return DecodeBody(major, arg, rest, depth, maxDepth);
    }
  }

  method DecodeArray(n: nat, b: Bytes, depth: nat, maxDepth: nat) returns (r: Parsed<seq<Value>>)
    ensures r == DecodeItems(n, b, depth, maxDepth)
    decreases |b|, 1
  {
    var items: seq<Value>, cur := [], b;
    assert forall vs: seq<Value> :: items + vs == vs;
    for i := 0 to n
      invariant |cur| <= |b|
      invariant DecodeItems(n, b, depth, maxDepth) == Continue(items, DecodeItems(n - i, cur, depth, maxDepth))
    {
      var read :- DecodeValue(cur, depth, maxDepth);
      var (item, rest) := read;
      ghost var others := DecodeItems(n - i - 1, rest, depth, maxDepth);
      assert others.Done? ==> items + ([item] + others.value) == (items + [item]) + others.value;
      items, cur := items + [item], rest;
    }
    assert items + [] == items;
    return Done(items, cur);
  }

  method DecodeMap(n: nat, b: Bytes, depth: nat, maxDepth: nat) returns (r: Parsed<seq<Pair>>)
    ensures r == DecodePairs(n, b, None, depth, maxDepth)
    decreases |b|, 1
  {
    var pairs: seq<Pair>, cur := [], b;
    var previous: Option<Bytes> := None;
    hide DecodePairs, DecodeItem, Less;
    assert forall ps: seq<Pair> :: pairs + ps == ps;
    for i := 0 to n
      invariant |cur| <= |b|
      invariant DecodePairs(n, b, None, depth, maxDepth)
                == Continue(pairs, DecodePairs(n - i, cur, previous, depth, maxDepth))
    {
      DecodePairsUnfold(n - i, cur, previous, depth, maxDepth);
      var keyRead :- DecodeValue(cur, depth, maxDepth);
      var (key, rest) := keyRead;
      var octets := cur[..|cur| - |rest|];
      if previous.Some? && !Less(previous.value, octets) { return Fail(NonCanonical); }
      var valRead :- DecodeValue(rest, depth, maxDepth);
      var (val, more) := valRead;
      ghost var others := DecodePairs(n - i - 1, more, Some(octets), depth, maxDepth);
      assert others.Done? ==>
               pairs + ([Pair(key, val)] + others.value) == (pairs + [Pair(key, val)]) + others.value;
      pairs, previous, cur := pairs + [Pair(key, val)], Some(octets), more;
    }
    NoPairs(cur, previous, depth, maxDepth);
    assert pairs + [] == pairs;
    return Done(pairs, cur);
  }

  // ---- Heads -------------------------------------------------------------------------------------

  lemma {:induction false} FromBigEndianInverse(s: Bytes)
    ensures FromBigEndian(s) < Pow256(|s|)
    ensures BigEndian(FromBigEndian(s), |s|) == s
  {
    if s != [] {
      var t := s[..|s| - 1];
      FromBigEndianInverse(t);
      assert FromBigEndian(s) / 256 == FromBigEndian(t) && FromBigEndian(s) % 256 == s[|s| - 1];
    }
  }

  /** No head that carries n, in any of the five widths, is shorter than the one emitted. */
  lemma HeadShortest(major: nat, n: nat, ai: nat, octets: Bytes)
    requires major < 8 && ai < 28 && |octets| == HeadWidth(ai)
    requires n == if ai < 24 then ai else FromBigEndian(octets)
    ensures EncHead(major, n).Ok? && |EncHead(major, n).value| <= 1 + |octets|
  {
    hide EncHead, BigEndian, FromBigEndian, Pow256;
    Pow256Values();
    FromBigEndianInverse(octets);
    HeadForm(major, n);
  }

  /** An accepted argument is within the width's range, and the octets read are its digits. */
  lemma ArgumentShortest(ai: nat, b: Bytes)
    requires ai < 32 && ReadArgument(ai, b).Done?
    ensures var n := ReadArgument(ai, b).value;
            n < U64 && HeadInfo(n) == ai && BigEndian(n, HeadWidth(ai)) + ReadArgument(ai, b).rest == b
  {
    hide BigEndian, FromBigEndian, Pow256;
    Pow256Values();
    var w := HeadWidth(ai);
    if ai >= 24 {
      FromBigEndianInverse(b[..w]);
      assert b == b[..w] + b[w..];
    } else {
      assert BigEndian(ai, 0) + b == b;
    }
  }

  /** An accepted head is the shortest one for its argument. */
  lemma HeadStrict(major: nat, ai: nat, b: Bytes)
    requires major < 8 && ai < 32 && ReadArgument(ai, b).Done?
    ensures var n := ReadArgument(ai, b).value;
            EncHead(major, n).Ok? && EncHead(major, n).value + ReadArgument(ai, b).rest == [32 * major + ai] + b
  {
    hide EncHead, BigEndian, ReadArgument, HeadInfo, HeadWidth;
    ArgumentShortest(ai, b);
    var n, rest := ReadArgument(ai, b).value, ReadArgument(ai, b).rest;
    HeadForm(major, n);
    var first: Bytes := [32 * major + ai];
    assert (first + BigEndian(n, HeadWidth(ai))) + rest == first + (BigEndian(n, HeadWidth(ai)) + rest);
  }

  /** The shortest head is accepted and gives back its argument. */
  lemma HeadAccepted(major: nat, n: nat, s: Bytes)
    requires major < 8 && n < U64
    ensures EncHead(major, n).Ok?
    ensures var whole := EncHead(major, n).value + s;
            && whole != [] && whole[0] / 32 == major
            && ReadArgument(whole[0] % 32, whole[1..]) == Done(n, s)
  {
    HeadForm(major, n);
    hide EncHead, FromBigEndian, BigEndian;
    var whole := EncHead(major, n).value + s;
    var w := HeadWidth(HeadInfo(n));
    assert whole[0] == 32 * major + HeadInfo(n);
    assert whole[1..] == BigEndian(n, w) + s;
    assert whole[1..][..w] == BigEndian(n, w) && whole[1..][w..] == s;
  }

  // ---- Strictness: what is accepted is what the encoder emits ---------------------------------------

  lemma {:induction false} ItemStrict(b: Bytes, depth: nat, maxDepth: nat)
    requires DecodeItem(b, depth, maxDepth).Done?
    ensures var r := DecodeItem(b, depth, maxDepth); Encode(r.value).Ok? && Encode(r.value).value + r.rest == b
    decreases |b|, 0
  {
    hide Encode, EncHead, ReadArgument, DecodeBody, Body;
    var r := DecodeItem(b, depth, maxDepth);
    var major, head := b[0] / 32, ReadArgument(b[0] % 32, b[1..]);
    HeadStrict(major, b[0] % 32, b[1..]);
    BodyStrict(major, head.value, head.rest, depth, maxDepth);
    HeadAndBody(r.value);
    var octets := EncHead(major, head.value).value;
    assert b == [b[0]] + b[1..] == octets + head.rest == octets + (Body(r.value) + r.rest);
    assert Encode(r.value).value == octets + Body(r.value);
    assert octets + (Body(r.value) + r.rest) == (octets + Body(r.value)) + r.rest;
  }

  lemma {:induction false} BodyStrict(major: nat, arg: nat, b: Bytes, depth: nat, maxDepth: nat)
    requires major < 8 && EncHead(major, arg).Ok? && DecodeBody(major, arg, b, depth, maxDepth).Done?
    ensures var r := DecodeBody(major, arg, b, depth, maxDepth);
            && Encode(r.value).Ok? && Major(r.value) == major && Argument(r.value) == arg
            && Body(r.value) + r.rest == b
    decreases |b|, 2
  {
    hide EncHead, Utf8Valid, DecodeItems, DecodePairs, DecodeItem;
    var r := DecodeBody(major, arg, b, depth, maxDepth);
    match major
    case 4 =>
      ItemsStrict(arg, b, depth + 1, maxDepth);
      hide EncodeItems;
    case 5 =>
      PairsStrict(arg, b, None, depth + 1, maxDepth);
      hide EncodePairs, Encode, Flatten, Sort;
      MapStrict(r.value.pairs);
    case 6 =>
      ItemStrict(b, depth + 1, maxDepth);
    case _ =>
  }

  /** Entries already in ascending order are emitted as they stand. */
  lemma MapStrict(pairs: seq<Pair>)
    requires EncHead(5, |pairs|).Ok? && EncodePairs(pairs).Ok? && Ascending(EncodePairs(pairs).value)
    ensures Encode(Map(pairs)).Ok? && Body(Map(pairs)) == Flatten(EncodePairs(pairs).value)
  {
    hide EncHead, EncodePairs, Encode, Flatten, Sort;
    var es := EncodePairs(pairs).value;
    forall i, j | 0 <= i < j < |es| ensures es[i].0 != es[j].0 { LessTotal(es[i].0, es[j].0); }
    SortAscending(es);
    AscendingUnique(Sort(es), es);
    MapUnfold(pairs);
  }

  lemma {:induction false} ItemsStrict(n: nat, b: Bytes, depth: nat, maxDepth: nat)
    requires DecodeItems(n, b, depth, maxDepth).Done?
    ensures var r := DecodeItems(n, b, depth, maxDepth);
            |r.value| == n && EncodeItems(r.value).Ok? && EncodeItems(r.value).value + r.rest == b
    decreases |b|, 1
  {
    if n > 0 {
      var first := DecodeItem(b, depth, maxDepth);
      var others := DecodeItems(n - 1, first.rest, depth, maxDepth);
      assert DecodeItems(n, b, depth, maxDepth) == Done([first.value] + others.value, others.rest);
      hide Encode, DecodeItem, DecodeItems, EncodeItems;
      ItemStrict(b, depth, maxDepth);
      ItemsStrict(n - 1, first.rest, depth, maxDepth);
      ItemConsed(first.value, others.value, others.rest);
    }
  }

  lemma ItemConsed(v: Value, others: seq<Value>, rest: Bytes)
    requires Encode(v).Ok? && EncodeItems(others).Ok?
    ensures EncodeItems([v] + others).Ok?
    ensures EncodeItems([v] + others).value + rest == Encode(v).value + (EncodeItems(others).value + rest)
  {
    hide Encode;
    assert ([v] + others)[1..] == others;
  }

  lemma NoPairs(b: Bytes, previous: Option<Bytes>, depth: nat, maxDepth: nat)
    ensures DecodePairs(0, b, previous, depth, maxDepth) == Done([], b)
    ensures EncodePairs([]) == Ok([]) && Flatten([]) + b == b && Ascending([])
  {}

  lemma DecodePairsUnfold(n: nat, b: Bytes, previous: Option<Bytes>, depth: nat, maxDepth: nat)
    requires n > 0
    ensures var key := DecodeItem(b, depth, maxDepth);
            var r := DecodePairs(n, b, previous, depth, maxDepth);
            if key.Fail? then r == Fail(key.fault)
            else
              var octets := b[..|b| - |key.rest|];
              if previous.Some? && !Less(previous.value, octets) then r == Fail(NonCanonical)
              else
                var val := DecodeItem(key.rest, depth, maxDepth);
                if val.Fail? then r == Fail(val.fault)
                else
                  var others := DecodePairs(n - 1, val.rest, Some(octets), depth, maxDepth);
                  r == if others.Fail? then Fail(others.fault)
                       else Done([Pair(key.value, val.value)] + others.value, others.rest)
  {
    hide DecodeItem, Less;
  }

  lemma {:induction false} PairsStrict(n: nat, b: Bytes, previous: Option<Bytes>, depth: nat, maxDepth: nat)
    requires DecodePairs(n, b, previous, depth, maxDepth).Done?
    ensures var r := DecodePairs(n, b, previous, depth, maxDepth);
            && |r.value| == n && EncodePairs(r.value).Ok?
            && Flatten(EncodePairs(r.value).value) + r.rest == b
            && Ascending(EncodePairs(r.value).value)
            && (previous.Some? && n > 0 ==> Less(previous.value, EncodePairs(r.value).value[0].0))
    decreases |b|, 1
  {
    hide Encode, DecodeItem, DecodePairs, EncodePairs, Flatten, Ascending, Less;
    if n == 0 {
      NoPairs(b, previous, depth, maxDepth);
    } else {
      DecodePairsUnfold(n, b, previous, depth, maxDepth);
      var key := DecodeItem(b, depth, maxDepth);
      var val := DecodeItem(key.rest, depth, maxDepth);
      var octets := b[..|b| - |key.rest|];
      var others := DecodePairs(n - 1, val.rest, Some(octets), depth, maxDepth);
      ItemStrict(b, depth, maxDepth);
      ItemStrict(key.rest, depth, maxDepth);
      PairsStrict(n - 1, val.rest, Some(octets), depth, maxDepth);
      assert octets == Encode(key.value).value;
      PairConsed(Pair(key.value, val.value), others.value, others.rest);
    }
  }

  lemma PairConsed(p: Pair, others: seq<Pair>, rest: Bytes)
    requires EncodePair(p).Ok? && EncodePairs(others).Ok? && Ascending(EncodePairs(others).value)
    requires others != [] ==> Less(EncodePair(p).value.0, EncodePairs(others).value[0].0)
    ensures EncodePairs([p] + others).Ok? && Ascending(EncodePairs([p] + others).value)
    ensures EncodePairs([p] + others).value == [EncodePair(p).value] + EncodePairs(others).value
    ensures Flatten(EncodePairs([p] + others).value) + rest
            == EncodePair(p).value.0 + (EncodePair(p).value.1 + (Flatten(EncodePairs(others).value) + rest))
  {
    hide EncodePair;
    assert ([p] + others)[1..] == others;
    var e, es := EncodePair(p).value, EncodePairs(others).value;
    assert EncodePairs([p] + others).value == [e] + es;
    assert ([e] + es)[1..] == es;
    forall j | 0 <= j < |es| ensures Less(e.0, es[j].0) {
      if j > 0 { LessTransitive(e.0, es[0].0, es[j].0); }
    }
  }

  // ---- Acceptance: exactly which encodings are accepted ----------------------------------------------

  /** v nests at most `room` deep and holds no integer below -2^63. */
  ghost predicate Within(v: Value, room: int)
    decreases v, 0
  {
    && room >= 1
    && match v
       case Int(i) => i >= -1 - INT64_MAX
       case Arr(xs) => forall i :: 0 <= i < |xs| ==> Within(xs[i], room - 1)
       case Tag(_, c) => Within(c, room - 1)
       case Map(ps) => forall i :: 0 <= i < |ps| ==> PairWithin(ps[i], room - 1)
       case _ => true
  }

  ghost predicate PairWithin(p: Pair, room: int)
    decreases p, 1
  {
    Within(p.key, room) && Within(p.val, room)
  }

  /** Every encoding takes at least one octet. */
  lemma EncodingNonEmpty(v: Value)
    requires Encode(v).Ok?
    ensures Encode(v).value != []
  {
    hide Encode, EncHead, Body;
    HeadAndBody(v);
    HeadNonEmpty(Major(v), Argument(v));
  }

  lemma HeadNonEmpty(major: nat, n: int)
    requires major < 8 && EncHead(major, n).Ok?
    ensures EncHead(major, n).value != [] && 0 <= n < U64
  {}

  lemma {:induction false} ItemsLong(xs: seq<Value>)
    requires EncodeItems(xs).Ok?
    ensures |EncodeItems(xs).value| >= |xs|
  {
    if xs != [] {
      EncodingNonEmpty(xs[0]);
      hide Encode;
      ItemsLong(xs[1..]);
    }
  }

  lemma {:induction false} EntriesLong(es: seq<Entry>)
    requires forall e :: e in es ==> e.0 != [] && e.1 != []
    ensures |Flatten(es)| >= 2 * |es|
  {
    if es != [] {
      assert es[0] in es;
      EntriesLong(es[1..]);
    }
  }

  /** An encoding is accepted exactly when it nests no deeper than the limit and holds no integer
      below -2^63; the item read is the encoded value, up to the order of map pairs. */
  lemma {:induction false} ItemAccepted(v: Value, s: Bytes, depth: nat, maxDepth: nat)
    requires Encode(v).Ok?
    ensures var r := DecodeItem(Encode(v).value + s, depth, maxDepth);
            && (r.Done? <==> Within(v, maxDepth - depth + 1))
            && (r.Done? ==> Same(v, r.value) && r.rest == s)
    decreases v, 4
  {
    hide Encode, EncHead, DecodeBody, Body, Same, ReadArgument;
    var b := Encode(v).value + s;
    HeadAndBody(v);
    HeadNonEmpty(Major(v), Argument(v));
    HeadAccepted(Major(v), Argument(v), Body(v) + s);
    assert b == EncHead(Major(v), Argument(v)).value + (Body(v) + s);
    if depth <= maxDepth {
      BodyAccepted(v, s, depth, maxDepth);
      assert DecodeItem(b, depth, maxDepth) == DecodeBody(Major(v), Argument(v), Body(v) + s, depth, maxDepth);
    } else {
      NotWithin(v, maxDepth - depth + 1);
    }
    if DecodeItem(b, depth, maxDepth).Done? {
      ItemStrict(b, depth, maxDepth);
      Unique(v, DecodeItem(b, depth, maxDepth).value, s, DecodeItem(b, depth, maxDepth).rest);
    }
  }

  lemma NotWithin(v: Value, room: int)
    requires room <= 0
    ensures !Within(v, room)
  {}

  lemma {:induction false} BodyAccepted(v: Value, s: Bytes, depth: nat, maxDepth: nat)
    requires Encode(v).Ok? && depth <= maxDepth && Argument(v) >= 0
    ensures DecodeBody(Major(v), Argument(v), Body(v) + s, depth, maxDepth).Done?
            <==> Within(v, maxDepth - depth + 1)
    decreases v, 3
  {
    hide EncHead, DecodeItem, DecodeItems, DecodePairs, Same, EncodeItems, EncodePairs, Flatten, Sort;
    match v
    case Int(i) =>
    case Bstr(b) => assert (b + s)[..|b|] == b;
    case Tstr(b) => assert (b + s)[..|b|] == b;
    case Arr(xs) =>
      ItemsLong(xs);
      ItemsAccepted(xs, s, depth + 1, maxDepth);
    case Tag(_, c) => ItemAccepted(c, s, depth + 1, maxDepth);
    case Map(ps) =>
      MapAccepted(ps, s, depth, maxDepth);
  }

  lemma {:induction false} ItemsAccepted(xs: seq<Value>, s: Bytes, depth: nat, maxDepth: nat)
    requires EncodeItems(xs).Ok?
    ensures DecodeItems(|xs|, EncodeItems(xs).value + s, depth, maxDepth).Done?
            <==> forall i :: 0 <= i < |xs| ==> Within(xs[i], maxDepth - depth + 1)
    decreases xs, 0
  {
    hide Encode, DecodeItem, Same, Within;
    if xs != [] {
      var e, es := Encode(xs[0]).value, EncodeItems(xs[1..]).value;
      assert EncodeItems(xs).value + s == e + (es + s);
      ItemAccepted(xs[0], es + s, depth, maxDepth);
      ItemsAccepted(xs[1..], s, depth, maxDepth);
      var room := maxDepth - depth + 1;
      assert (forall i :: 0 <= i < |xs| ==> Within(xs[i], room)) <==>
             (Within(xs[0], room) && forall i :: 0 <= i < |xs[1..]| ==> Within(xs[1..][i], room)) by {
        assert forall i :: 0 < i < |xs| ==> xs[i] == xs[1..][i - 1];
      }
    }
  }

  /** e encodes a pair whose parts are within the limit. */
  ghost predicate EntryWithin(e: Entry, ps: seq<Pair>, room: int) {
    exists i :: 0 <= i < |ps| && EncodePair(ps[i]) == Ok(e) && PairWithin(ps[i], room)
  }

  lemma {:induction false} MapAccepted(ps: seq<Pair>, s: Bytes, depth: nat, maxDepth: nat)
    requires Encode(Map(ps)).Ok? && depth <= maxDepth
    ensures DecodeBody(5, |ps|, Body(Map(ps)) + s, depth, maxDepth).Done?
            <==> Within(Map(ps), maxDepth - depth + 1)
    decreases ps, 2
  {
    hide Encode, EncHead, DecodePairs, EncodePair, PairWithin, Flatten, Sort, EncodePairs;
    MapShape(ps);
    var es := EncodePairs(ps).value;
    var sorted := Sort(es);
    var room := maxDepth - depth;
    EntriesEncoded(ps, es);
    forall e | e in sorted ensures e.0 != [] && e.1 != [] { EntryNonEmpty(e, ps); }
    EntriesLong(sorted);
    EntriesAccepted(ps, sorted, None, s, depth + 1, maxDepth);
    WithinEntries(ps, es, room);
    assert DecodeBody(5, |ps|, Body(Map(ps)) + s, depth, maxDepth).Done?
           <==> DecodePairs(|ps|, Flatten(sorted) + s, None, depth + 1, maxDepth).Done?;
  }

  lemma EntryNonEmpty(e: Entry, ps: seq<Pair>)
    requires EncodedIn(e, ps)
    ensures e.0 != [] && e.1 != []
  {
    var i :| 0 <= i < |ps| && EncodePair(ps[i]) == Ok(e);
    hide Encode;
    EncodingNonEmpty(ps[i].key);
    EncodingNonEmpty(ps[i].val);
  }

  lemma WithinEntries(ps: seq<Pair>, es: seq<Entry>, room: int)
    requires Encodes(ps, es) && DistinctKeys(es)
    ensures (forall e :: e in Sort(es) ==> EntryWithin(e, ps, room))
            <==> forall i :: 0 <= i < |ps| ==> PairWithin(ps[i], room)
  {
    hide EncodePair, PairWithin, Sort;
    if forall e :: e in Sort(es) ==> EntryWithin(e, ps, room) {
      forall i | 0 <= i < |ps| ensures PairWithin(ps[i], room) {
        assert es[i] in Sort(es);
        var j :| 0 <= j < |ps| && EncodePair(ps[j]) == Ok(es[i]) && PairWithin(ps[j], room);
        assert es[j] == es[i];
      }
    }
    if forall i :: 0 <= i < |ps| ==> PairWithin(ps[i], room) {
      forall e | e in Sort(es) ensures EntryWithin(e, ps, room) {
        var i :| 0 <= i < |es| && es[i] == e;
        assert EncodePair(ps[i]) == Ok(e) && PairWithin(ps[i], room);
      }
    }
  }

  lemma {:induction false} EntriesAccepted(ps: seq<Pair>, es: seq<Entry>, previous: Option<Bytes>, s: Bytes,
                                           depth: nat, maxDepth: nat)
    requires Ascending(es) && forall e :: e in es ==> EncodedIn(e, ps)
    requires previous.Some? && es != [] ==> Less(previous.value, es[0].0)
    ensures DecodePairs(|es|, Flatten(es) + s, previous, depth, maxDepth).Done?
            <==> forall e :: e in es ==> EntryWithin(e, ps, maxDepth - depth + 1)
    decreases ps, 1, |es|
  {
    hide DecodeItem, DecodePairs, EncodePair, PairWithin, Flatten, Less;
    if es == [] {
      NoPairs(s, previous, depth, maxDepth);
    } else {
      var e, rest := es[0], es[1..];
      assert es == [e] + rest && e in es;
      var more := Flatten(rest) + s;
      FlattenCons(es, s);
      EntryAccepted(ps, e, more, depth, maxDepth);
      DecodePairsUnfold(|es|, Flatten(es) + s, previous, depth, maxDepth);
      EntriesAccepted(ps, rest, Some(e.0), s, depth, maxDepth);
      var b := e.0 + (e.1 + more);
      var key := DecodeItem(b, depth, maxDepth);
      if key.Done? { assert b[..|b| - |key.rest|] == e.0; }
      var room := maxDepth - depth + 1;
      assert (forall x :: x in es ==> EntryWithin(x, ps, room))
             <==> EntryWithin(e, ps, room) && forall x :: x in rest ==> EntryWithin(x, ps, room);
    }
  }

  lemma FlattenCons(es: seq<Entry>, s: Bytes)
    requires es != []
    ensures Flatten(es) + s == es[0].0 + (es[0].1 + (Flatten(es[1..]) + s))
  {}

  lemma {:induction false} EntryAccepted(ps: seq<Pair>, e: Entry, more: Bytes, depth: nat, maxDepth: nat)
    requires EncodedIn(e, ps)
    ensures var key := DecodeItem(e.0 + (e.1 + more), depth, maxDepth);
            && (key.Done? ==> key.rest == e.1 + more)
            && var val := DecodeItem(e.1 + more, depth, maxDepth);
            && (val.Done? ==> val.rest == more)
            && (key.Done? && val.Done? <==> EntryWithin(e, ps, maxDepth - depth + 1))
    decreases ps, 0
  {
    hide DecodeItem, Same, Within, Encode;
    var room := maxDepth - depth + 1;
    forall i | 0 <= i < |ps| && EncodePair(ps[i]) == Ok(e)
      ensures DecodeItem(e.0 + (e.1 + more), depth, maxDepth).Done? <==> Within(ps[i].key, room)
      ensures DecodeItem(e.1 + more, depth, maxDepth).Done? <==> Within(ps[i].val, room)
      ensures DecodeItem(e.0 + (e.1 + more), depth, maxDepth).Done? ==>
                DecodeItem(e.0 + (e.1 + more), depth, maxDepth).rest == e.1 + more
      ensures DecodeItem(e.1 + more, depth, maxDepth).Done? ==> DecodeItem(e.1 + more, depth, maxDepth).rest == more
    {
      PairAccepted(ps[i], more, depth, maxDepth);
    }
    var i :| 0 <= i < |ps| && EncodePair(ps[i]) == Ok(e);
  }

  lemma {:induction false} PairAccepted(p: Pair, more: Bytes, depth: nat, maxDepth: nat)
    requires EncodePair(p).Ok?
    ensures var e, room := EncodePair(p).value, maxDepth - depth + 1;
            var key := DecodeItem(e.0 + (e.1 + more), depth, maxDepth);
            var val := DecodeItem(e.1 + more, depth, maxDepth);
            && (key.Done? <==> Within(p.key, room)) && (key.Done? ==> key.rest == e.1 + more)
            && (val.Done? <==> Within(p.val, room)) && (val.Done? ==> val.rest == more)
    decreases p, 5
  {
    hide DecodeItem, Same, Within, Encode;
    ItemAccepted(p.key, Encode(p.val).value + more, depth, maxDepth);
    ItemAccepted(p.val, more, depth, maxDepth);
  }

  // ---- Main theorems -------------------------------------------------------------------------------------

  /** Every accepted input is the canonical encoding of the value returned. */
  lemma DecodeStrict(b: Bytes, maxDepth: nat)
    requires Decode(b, maxDepth).Done?
    ensures Encode(Decode(b, maxDepth).value) == Ok(b)
  {
    hide DecodeItem, Encode;
    ItemStrict(b, 1, maxDepth);
    var v := DecodeItem(b, 1, maxDepth).value;
    assert Encode(v).value + [] == Encode(v).value;
  }

  /** Every encoding within the limits decodes to the value encoded; outside them it is refused. */
  lemma DecodeComplete(v: Value, maxDepth: nat)
    requires Encode(v).Ok?
    ensures Decode(Encode(v).value, maxDepth).Done? <==> Within(v, maxDepth)
    ensures Within(v, maxDepth) ==> Same(v, Decode(Encode(v).value, maxDepth).value)
  {
    hide DecodeItem, Encode, Within, Same;
    ItemAccepted(v, [], 1, maxDepth);
    assert Encode(v).value + [] == Encode(v).value;
  }
}
