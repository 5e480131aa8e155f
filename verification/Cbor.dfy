/** Deterministic CBOR (RFC 8949, sections 3 and 4.2.1): the encoder every object body goes through. */
module Cbor {
  import opened Octets

  datatype Value =
    | Bool(b: bool)
    | Int(i: int)
    | Bstr(octets: Bytes)
    | Tstr(utf8: Bytes)
    | Arr(items: seq<Value>)
    | Tag(number: int, content: Value)
    | Map(pairs: seq<Pair>)

  datatype Pair = Pair(key: Value, val: Value)

  datatype Error = Boolean | NegativeArgument | ArgumentTooLarge | InvalidText | DuplicateKey

  datatype Result<+T> = Ok(value: T) | Err(error: Error) {
    predicate IsFailure() { Err? }
    function PropagateFailure<U>(): Result<U> requires Err? { Err(error) }
    function Extract(): T requires Ok? { value }
  }

  /** An encoded key with its encoded value. */
  type Entry = (Bytes, Bytes)

  // ---- Heads -----------------------------------------------------------------------------------

  function BigEndian(n: nat, width: nat): (s: Bytes)
    ensures |s| == width
  {
    if width == 0 then [] else BigEndian(n / 256, width - 1) + [n % 256]
  }

  function FromBigEndian(s: Bytes): nat {
    if s == [] then 0 else 256 * FromBigEndian(s[..|s| - 1]) + s[|s| - 1]
  }

  function Pow256(w: nat): (p: nat)
    ensures p > 0
  {
    if w == 0 then 1 else 256 * Pow256(w - 1)
  }

  lemma Pow256Values()
    ensures Pow256(1) == 0x100 && Pow256(2) == 0x1_0000 && Pow256(4) == 0x1_0000_0000 && Pow256(8) == U64
  {
    assert Pow256(4) == 256 * Pow256(3) && Pow256(3) == 256 * Pow256(2);
    assert Pow256(8) == 256 * Pow256(7) && Pow256(7) == 256 * Pow256(6);
    assert Pow256(6) == 256 * Pow256(5) && Pow256(5) == 256 * Pow256(4);
  }

  lemma {:induction false} BigEndianRoundTrip(n: nat, width: nat)
    requires n < Pow256(width)
    ensures FromBigEndian(BigEndian(n, width)) == n
  {
    if width > 0 {
      BigEndianRoundTrip(n / 256, width - 1);
      assert BigEndian(n, width)[..width - 1] == BigEndian(n / 256, width - 1);
    }
  }

  /** Octet i from the right is the i-th base-256 digit: most significant octet first. */
  lemma {:induction false} BigEndianDigit(n: nat, width: nat, i: nat)
    requires i < width
    ensures BigEndian(n, width)[width - 1 - i] == n / Pow256(i) % 256
  {
    if i > 0 {
      BigEndianDigit(n / 256, width - 1, i - 1);
      assert BigEndian(n, width)[width - 1 - i] == BigEndian(n / 256, width - 1)[width - 1 - i];
      DivideTwice(n, 256, Pow256(i - 1));
    }
  }

  /** Additional-information code of the shortest head for n, and the octets that follow it. */
  function HeadInfo(n: nat): (ai: nat)
    requires n < U64
    ensures ai < 28
  {
    if n < 24 then n else if n < 0x100 then 24 else if n < 0x1_0000 then 25
    else if n < 0x1_0000_0000 then 26 else 27
  }

  function HeadWidth(ai: nat): nat {
    if ai < 24 then 0 else if ai == 24 then 1 else if ai == 25 then 2 else if ai == 26 then 4 else 8
  }

  function EncHead(major: nat, n: int): Result<Bytes>
    requires major < 8
  {
    if n < 0 then Err(NegativeArgument)
    else if n < 24 then Ok([32 * major + n])
    else if n < 0x100 then Ok([32 * major + 24, n])
    else if n < 0x1_0000 then Ok([32 * major + 25] + BigEndian(n, 2))
    else if n < 0x1_0000_0000 then Ok([32 * major + 26] + BigEndian(n, 4))
    else if n < U64 then Ok([32 * major + 27] + BigEndian(n, 8))
    else Err(ArgumentTooLarge)
  }

  lemma HeadForm(major: nat, n: nat)
    requires major < 8 && n < U64
    ensures EncHead(major, n)
            == Ok([32 * major + HeadInfo(n)] + BigEndian(n, HeadWidth(HeadInfo(n))))
    ensures HeadWidth(HeadInfo(n)) > 0 ==>
              FromBigEndian(BigEndian(n, HeadWidth(HeadInfo(n)))) == n
  {
    Pow256Values();
    if n < 24 {
      assert [32 * major + n] == [32 * major + n] + BigEndian(n, 0);
    } else if n < 0x100 {
      assert BigEndian(n, 1) == [] + [n];
      assert HeadInfo(n) == 24 && HeadWidth(24) == 1;
      assert [32 * major + 24] + BigEndian(n, 1) == [32 * major + 24, n];
      BigEndianRoundTrip(n, 1);
    } else if n < 0x1_0000 {
      BigEndianRoundTrip(n, 2);
    } else if n < 0x1_0000_0000 {
      BigEndianRoundTrip(n, 4);
    } else {
      BigEndianRoundTrip(n, 8);
    }
  }

  /** Heads are uniquely decodable. */
  lemma HeadUnique(major: nat, n: int, major': nat, n': int, s: Bytes, t: Bytes)
    requires major < 8 && major' < 8
    requires EncHead(major, n).Ok? && EncHead(major', n').Ok?
    requires EncHead(major, n).value + s == EncHead(major', n').value + t
    ensures major == major' && n == n' && s == t
  {
    HeadForm(major, n);
    HeadForm(major', n');
    hide EncHead, BigEndian, FromBigEndian;
    var whole := EncHead(major, n).value + s;
    assert whole[0] == 32 * major + HeadInfo(n) == 32 * major' + HeadInfo(n');
    assert major == major' && HeadInfo(n) == HeadInfo(n');
    var w := HeadWidth(HeadInfo(n));
    assert whole[1..1 + w] == BigEndian(n, w) == BigEndian(n', w);
    assert whole[1 + w..] == s && whole[1 + w..] == t;
  }

  // ---- Text --------------------------------------------------------------------------------------

  predicate Continuation(b: byte) { 0x80 <= b < 0xC0 }

  /** Well-formed UTF-8 (table 3-7 of the Unicode standard); a lone surrogate has no such form. */
  predicate Utf8Valid(s: Bytes) {
    if s == [] then true
    else if s[0] < 0x80 then Utf8Valid(s[1..])
    else if 0xC2 <= s[0] < 0xE0 then |s| >= 2 && Continuation(s[1]) && Utf8Valid(s[2..])
    else if 0xE0 <= s[0] < 0xF0 then
      && |s| >= 3 && Continuation(s[1]) && Continuation(s[2])
      && (s[0] == 0xE0 ==> s[1] >= 0xA0) && (s[0] == 0xED ==> s[1] < 0xA0)
      && Utf8Valid(s[3..])
    else
      && 0xF0 <= s[0] < 0xF5
      && |s| >= 4 && Continuation(s[1]) && Continuation(s[2]) && Continuation(s[3])
      && (s[0] == 0xF0 ==> s[1] >= 0x90) && (s[0] == 0xF4 ==> s[1] < 0x90)
      && Utf8Valid(s[4..])
  }

  // ---- Sorting entries by encoded key -------------------------------------------------------------

  ghost predicate Ascending(es: seq<Entry>) {
    forall i, j :: 0 <= i < j < |es| ==> Less(es[i].0, es[j].0)
  }

  predicate DistinctKeys(es: seq<Entry>) {
    forall i, j :: 0 <= i < j < |es| ==> es[i].0 != es[j].0
  }

  function Insert(e: Entry, es: seq<Entry>): (r: seq<Entry>)
    ensures |r| == |es| + 1
    ensures forall x :: x in r <==> x == e || x in es
  {
    if es == [] then [e]
    else if Less(es[0].0, e.0) then
      assert es == [es[0]] + es[1..];
      [es[0]] + Insert(e, es[1..])
    else [e] + es
  }

  /** Bytewise ascending on the encoded key. */
  function Sort(es: seq<Entry>): (r: seq<Entry>)
    ensures |r| == |es|
    ensures forall x :: x in r <==> x in es
  {
    if es == [] then []
    else
      assert es == [es[0]] + es[1..];
      Insert(es[0], Sort(es[1..]))
  }

  lemma {:induction false} InsertAscending(e: Entry, es: seq<Entry>)
    requires Ascending(es) && forall x :: x in es ==> x.0 != e.0
    ensures Ascending(Insert(e, es))
  {
    if es != [] {
      LessTotal(es[0].0, e.0);
      if Less(es[0].0, e.0) {
        InsertAscending(e, es[1..]);
        var r := Insert(e, es[1..]);
        forall j | 0 <= j < |r| ensures Less(es[0].0, r[j].0) {
          assert r[j] in r;
          if r[j] != e { var k :| 0 <= k < |es[1..]| && es[1..][k] == r[j]; assert Less(es[0].0, es[k + 1].0); }
        }
      } else {
        forall j | 0 <= j < |es| ensures Less(e.0, es[j].0) {
          if j > 0 { LessTransitive(e.0, es[0].0, es[j].0); }
        }
      }
    }
  }

  lemma {:induction false} SortAscending(es: seq<Entry>)
    requires DistinctKeys(es)
    ensures Ascending(Sort(es))
  {
    if es != [] {
      SortAscending(es[1..]);
      InsertAscending(es[0], Sort(es[1..]));
    }
  }

  lemma {:induction false} AscendingUnique(a: seq<Entry>, b: seq<Entry>)
    requires Ascending(a) && Ascending(b) && |a| == |b|
    requires forall x :: x in a <==> x in b
    ensures a == b
  {
    if a != [] {
      assert a[0] in b;
      var j :| 0 <= j < |b| && b[j] == a[0];
      assert b[0] in a;
      var i :| 0 <= i < |a| && a[i] == b[0];
      LessTotal(a[0].0, b[0].0);
      assert a[0] == b[0];
      forall x ensures x in a[1..] <==> x in b[1..] {
        LessTotal(x.0, x.0);
        assert a == [a[0]] + a[1..] && b == [b[0]] + b[1..];
        if x in a[1..] { assert x in b && x != a[0]; }
        if x in b[1..] { assert x in a && x != b[0]; }
      }
      AscendingUnique(a[1..], b[1..]);
      assert a == [a[0]] + a[1..] && b == [b[0]] + b[1..];
    }
  }

  // ---- The encoder ---------------------------------------------------------------------------------

  function Flatten(es: seq<Entry>): Bytes {
    if es == [] then [] else es[0].0 + es[0].1 + Flatten(es[1..])
  }

  function Encode(v: Value): Result<Bytes>
    decreases v, 1
  {
    match v
    case Bool(_) => Err(Boolean)
    case Int(i) => if i < 0 then EncHead(1, -1 - i) else EncHead(0, i)
    case Bstr(b) => var head :- EncHead(2, |b|); Ok(head + b)
    case Tstr(b) =>
      if !Utf8Valid(b) then Err(InvalidText)
      else var head :- EncHead(3, |b|); Ok(head + b)
    case Arr(items) =>
      var head :- EncHead(4, |items|);
      var body :- EncodeItems(items);
      Ok(head + body)
    case Tag(number, content) =>
      var head :- EncHead(6, number);
      var body :- Encode(content);
      Ok(head + body)
    case Map(pairs) =>
      var es :- EncodePairs(pairs);
      if !DistinctKeys(es) then Err(DuplicateKey)
      else var head :- EncHead(5, |pairs|); Ok(head + Flatten(Sort(es)))
  }

  function EncodeItems(items: seq<Value>): Result<Bytes>
    decreases items, 0
  {
    if items == [] then Ok([])
    else
      var first :- Encode(items[0]);
      var rest :- EncodeItems(items[1..]);
      Ok(first + rest)
  }

  function EncodePairs(pairs: seq<Pair>): (r: Result<seq<Entry>>)
    ensures r.Ok? ==> |r.value| == |pairs|
    decreases pairs, 0
  {
    if pairs == [] then Ok([])
    else
      var first :- EncodePair(pairs[0]);
      var rest :- EncodePairs(pairs[1..]);
      Ok([first] + rest)
  }

  function EncodePair(p: Pair): Result<Entry>
    decreases p, 2
  {
    var k :- Encode(p.key);
    var v :- Encode(p.val);
    Ok((k, v))
  }

  // ---- The encoder as the source runs it -----------------------------------------------------------

  ghost function Prepend(done: Bytes, r: Result<Bytes>): Result<Bytes> {
    if r.Ok? then Ok(done + r.value) else r
  }

  ghost function PrependEntries(done: seq<Entry>, r: Result<seq<Entry>>): Result<seq<Entry>> {
    if r.Ok? then Ok(done + r.value) else r
  }

  /** `encode`: accumulates `out` in loops and sorts the encoded pairs. */
  method EncodeValue(v: Value) returns (r: Result<Bytes>)
    ensures r == Encode(v)
    decreases v, 1
  {
    match v {
      case Bool(_) => return Err(Boolean);
      case Int(i) => return if i < 0 then EncHead(1, -1 - i) else EncHead(0, i);
      case Bstr(b) => var head :- EncHead(2, |b|); return Ok(head + b);
      case Tstr(b) =>
        if !Utf8Valid(b) { return Err(InvalidText); }
        var head :- EncHead(3, |b|);
        return Ok(head + b);
      case Arr(items) =>
        var head :- EncHead(4, |items|);
        r := EncodeList(head, items);
      case Tag(number, content) =>
        var head :- EncHead(6, number);
        var body :- EncodeValue(content);
        return Ok(head + body);
      case Map(pairs) =>
        r := EncodeMap(pairs);
    }
  }

  method EncodeList(head: Bytes, items: seq<Value>) returns (r: Result<Bytes>)
    ensures r == Prepend(head, EncodeItems(items))
    decreases items, 0
  {
    var out := head;
    assert items[0..] == items;
    for i := 0 to |items|
      invariant Prepend(head, EncodeItems(items)) == Prepend(out, EncodeItems(items[i..]))
    {
      assert items[i..][0] == items[i] && items[i..][1..] == items[i + 1..];
      var item :- EncodeValue(items[i]);
      ghost var rest := EncodeItems(items[i + 1..]);
      assert rest.Ok? ==> out + (item + rest.value) == (out + item) + rest.value;
      out := out + item;
    }
    assert out + [] == out;
    return Ok(out);
  }

  method EncodeMap(pairs: seq<Pair>) returns (r: Result<Bytes>)
    ensures r == Encode(Map(pairs))
    decreases pairs, 1
  {
    hide EncodePairs, EncHead, Sort, Flatten, DistinctKeys;
    var es :- EncodeEntries(pairs);
    var repeated := HasRepeatedKey(es);
    if repeated { return Err(DuplicateKey); }
    var sorted := Sort(es);
    var head :- EncHead(5, |pairs|);
    r := Join(head, sorted);
  }

  method EncodeEntries(pairs: seq<Pair>) returns (r: Result<seq<Entry>>)
    ensures r == EncodePairs(pairs)
    decreases pairs, 0
  {
    var es: seq<Entry> := [];
    assert pairs[0..] == pairs;
    assert EncodePairs(pairs).Ok? ==> es + EncodePairs(pairs).value == EncodePairs(pairs).value;
    for i := 0 to |pairs|
      invariant EncodePairs(pairs) == PrependEntries(es, EncodePairs(pairs[i..]))
    {
      hide EncodePair;
      assert pairs[i..][0] == pairs[i] && pairs[i..][1..] == pairs[i + 1..];
      var e :- EncodeBoth(pairs[i]);
      ghost var rest := EncodePairs(pairs[i + 1..]);
      assert rest.Ok? ==> es + ([e] + rest.value) == (es + [e]) + rest.value;
      es := es + [e];
    }
    assert es + [] == es;
    return Ok(es);
  }

  /** `len(set(keys)) != len(keys)`. */
  method HasRepeatedKey(es: seq<Entry>) returns (repeated: bool)
    ensures repeated <==> !DistinctKeys(es)
  {
    var keys := seq(|es|, i requires 0 <= i < |es| => es[i].0);
    repeated := |set k | k in keys| != |keys|;
    SetSize(keys);
    assert forall i, j :: 0 <= i < j < |es| ==> (keys[i] != keys[j] <==> es[i].0 != es[j].0);
  }

  method EncodeBoth(p: Pair) returns (r: Result<Entry>)
    ensures r == EncodePair(p)
    decreases p, 2
  {
    var k :- EncodeValue(p.key);
    var v :- EncodeValue(p.val);
    return Ok((k, v));
  }

  method Join(head: Bytes, es: seq<Entry>) returns (r: Result<Bytes>)
    ensures r == Ok(head + Flatten(es))
  {
    var out := head;
    assert es[0..] == es;
    for i := 0 to |es|
      invariant head + Flatten(es) == out + Flatten(es[i..])
    {
      assert es[i..][0] == es[i] && es[i..][1..] == es[i + 1..];
      var e := es[i].0 + es[i].1;
      assert out + (e + Flatten(es[i + 1..])) == (out + e) + Flatten(es[i + 1..]);
      out := out + e;
    }
    assert out + [] == out;
    return Ok(out);
  }
}
