/** Unsigned varints, multihashes and the content-id check. */
module Multihash {
  import opened Octets

  datatype Fault =
    VarintTruncated | VarintTooLong | MultihashTruncated | MultihashOverLong | WrongMultihashCode | WrongDigestLength

  datatype Result<+T> = Ok(value: T) | Err(fault: Fault) {
    predicate IsFailure() { Err? }
    function PropagateFailure<U>(): Result<U> requires Err? { Err(fault) }
    function Extract(): T requires Ok? { value }
  }

  // ---- Varints ---------------------------------------------------------------------------------------

  function Encode(n: nat): (s: Bytes)
    ensures s != []
  {
    if n < 128 then [n] else [128 + n % 128] + Encode(n / 128)
  }

  method EncodeUvarint(n: nat) returns (out: Bytes)
    ensures out == Encode(n)
  {
    out := [];
    var m := n;
    while m >= 128
      invariant 0 <= m && out + Encode(m) == Encode(n)
      decreases m
    {
      assert out + ([128 + m % 128] + Encode(m / 128)) == (out + [128 + m % 128]) + Encode(m / 128);
      out := out + [128 + m % 128];
      m := m / 128;
    }
    out := out + [m];
  }

  /** Value and length of the varint at the start of s, of which k octets were read before. */
  function Read(s: Bytes, k: nat): (r: Result<(nat, nat)>)
    ensures r.Ok? ==> 1 <= r.value.1 <= |s|
    decreases |s|
  {
    if s == [] then Err(VarintTruncated)
    else if s[0] < 128 then Ok((s[0], 1))
    else if 7 * (k + 1) > 63 then Err(VarintTooLong)
    else
      var rest :- Read(s[1..], k + 1);
      Ok((s[0] - 128 + 128 * rest.0, rest.1 + 1))
  }

  function Decode(data: Bytes, offset: nat): Result<(nat, nat)> {
    if offset > |data| then Err(VarintTruncated)
    else
      var r :- Read(data[offset..], 0);
      Ok((r.0, offset + r.1))
  }

  function Pow128(k: nat): (p: nat)
    ensures p >= 1
  {
    if k == 0 then 1 else 128 * Pow128(k - 1)
  }

  const TWO70: nat := 0x40_0000_0000_0000_0000

  lemma Pow128Ten()
    ensures Pow128(10) == TWO70
  {
    assert Pow128(2) == 128 * 128;
    assert Pow128(4) == 128 * (128 * Pow128(2));
    assert Pow128(6) == 128 * (128 * Pow128(4));
    assert Pow128(8) == 128 * (128 * Pow128(6));
    assert Pow128(10) == 128 * (128 * Pow128(8));
  }

  /** The loop adds each payload at its shift; the bits are disjoint, so `|=` is `+`. */
  method DecodeUvarint(data: Bytes, offset: nat) returns (r: Result<(nat, nat)>)
    ensures r == Decode(data, offset)
  {
    DecodeShifted(data, offset);
    hide Pow128, Read, Shifted, Decode;
    var result, k, pos := 0, 0, offset;
    while true
      invariant pos == offset + k && result >= 0 && (pos <= |data| || k == 0)
      invariant Decode(data, offset)
                == if pos > |data| then Err(VarintTruncated) else Shifted(result, k, pos, Read(data[pos..], k))
      decreases |data| - pos
    {
      ReadStep(data, result, k, pos);
      if pos >= |data| { return Err(VarintTruncated); }
      var b := data[pos];
      pos := pos + 1;
      result := result + b % 128 * Pow128(k);
      if b < 128 { return Ok((result, pos)); }
      k := k + 1;
      if 7 * k > 63 { return Err(VarintTooLong); }
    }
  }

  lemma DecodeShifted(data: Bytes, offset: nat)
    ensures Decode(data, offset)
            == if offset > |data| then Err(VarintTruncated) else Shifted(0, 0, offset, Read(data[offset..], 0))
  {}

  /** One turn of the loop. */
  lemma ReadStep(data: Bytes, result: nat, k: nat, pos: nat)
    ensures pos == |data| ==> Shifted(result, k, pos, Read(data[pos..], k)) == Err(VarintTruncated)
    ensures pos < |data| ==>
              var b, next := data[pos], result + data[pos] % 128 * Pow128(k);
              Shifted(result, k, pos, Read(data[pos..], k)) ==
              if b < 128 then Ok((next, pos + 1))
              else if 7 * (k + 1) > 63 then Err(VarintTooLong)
              else Shifted(next, k + 1, pos + 1, Read(data[pos + 1..], k + 1))
  {
    if pos < |data| {
      assert data[pos..][1..] == data[pos + 1..];
      hide Pow128;
      if data[pos] >= 128 && 7 * (k + 1) <= 63 {
        ShiftOnce(result, k, pos, data[pos], Read(data[pos + 1..], k + 1));
      }
    }
  }

  ghost function Shifted(result: nat, k: nat, pos: nat, r: Result<(nat, nat)>): Result<(nat, nat)> {
    if r.Err? then r else Ok((result + r.value.0 * Pow128(k), pos + r.value.1))
  }

  lemma ShiftOnce(result: nat, k: nat, pos: nat, b: byte, rest: Result<(nat, nat)>)
    requires b >= 128
    ensures Shifted(result, k, pos, if rest.Err? then rest else Ok((b - 128 + 128 * rest.value.0, rest.value.1 + 1)))
            == Shifted(result + b % 128 * Pow128(k), k + 1, pos + 1, rest)
  {
    if rest.Ok? {
      var p, v := Pow128(k), rest.value.0;
      assert (b - 128 + 128 * v) * p == (b - 128) * p + v * (128 * p);
    }
  }

  lemma {:induction false} EncodeLength(n: nat, k: nat)
    ensures |Encode(n)| <= k + 1 <==> n < Pow128(k + 1)
  {
    if k == 0 {
      assert Pow128(1) == 128;
      if n >= 128 { assert |Encode(n)| == 1 + |Encode(n / 128)|; }
    } else if n < 128 {
      assert Pow128(k + 1) == 128 * Pow128(k);
    } else {
      EncodeLength(n / 128, k - 1);
      assert n < 128 * Pow128(k) <==> n / 128 < Pow128(k);
    }
  }

  /** Octet i of an encoding holds the i-th base-128 digit, least significant first, and its high bit
      says that more follow. */
  lemma {:induction false} EncodeDigits(n: nat, i: nat)
    requires i < |Encode(n)|
    ensures Encode(n)[i] % 128 == n / Pow128(i) % 128
    ensures Encode(n)[i] >= 128 <==> i < |Encode(n)| - 1
  {
    if i > 0 {
      EncodeDigits(n / 128, i - 1);
      DivideTwice(n, 128, Pow128(i - 1));
      assert Encode(n)[i] == Encode(n / 128)[i - 1];
    }
  }

  /** Whatever form is read, octet i gave the i-th base-128 digit of the value. */
  lemma {:induction false} ReadDigits(s: Bytes, k: nat, i: nat)
    requires Read(s, k).Ok? && i < Read(s, k).value.1
    ensures s[i] % 128 == Read(s, k).value.0 / Pow128(i) % 128
    decreases |s|
  {
    if i > 0 {
      ReadDigits(s[1..], k + 1, i - 1);
      var n, m := Read(s, k).value.0, Read(s[1..], k + 1).value.0;
      assert n / 128 == m;
      DivideTwice(n, 128, Pow128(i - 1));
    }
  }

  /** The reference file's own example. */
  lemma ThreeHundred()
    ensures Encode(300) == [0xAC, 0x02]
  {
    assert Encode(2) == [2];
  }

  /** Reading back an encoding followed by anything: exact within ten octets, refused beyond. */
  lemma {:induction false} ReadEncoded(n: nat, k: nat, tail: Bytes)
    requires k <= 9
    ensures Read(Encode(n) + tail, k) == if k + |Encode(n)| <= 10 then Ok((n, |Encode(n)|)) else Err(VarintTooLong)
  {
    var s := Encode(n) + tail;
    if n >= 128 {
      assert s[1..] == Encode(n / 128) + tail;
      if k < 9 { ReadEncoded(n / 128, k + 1, tail); }
    }
  }

  /** Round trip at any offset and before any trailing octets, for exactly the values below 2^70. */
  lemma VarintRoundTrip(before: Bytes, n: nat, after: Bytes)
    ensures Decode(before + Encode(n) + after, |before|) ==
            if n < TWO70 then Ok((n, |before| + |Encode(n)|)) else Err(VarintTooLong)
  {
    assert (before + Encode(n) + after)[|before|..] == Encode(n) + after;
    ReadEncoded(n, 0, after);
    EncodeLength(n, 9);
    Pow128Ten();
  }

  /** n has d as its base-128 digit of weight p, and nothing above it. */
  ghost predicate LeadingDigit(n: nat, p: nat, d: int) { p * d <= n < p * (d + 1) }

  lemma DigitShifts(n: nat, p: nat, d: int, low: nat)
    requires LeadingDigit(n, p, d) && low < 128
    ensures LeadingDigit(low + 128 * n, 128 * p, d)
  {
    assert 128 * (p * d) == (128 * p) * d && 128 * (p * (d + 1)) == (128 * p) * (d + 1);
  }

  /** Whatever octets are read: at most ten of them, and the last gives the leading base-128 digit. */
  lemma {:induction false} ReadBounds(s: Bytes, k: nat)
    requires k <= 9 && Read(s, k).Ok?
    ensures var (n, used) := Read(s, k).value;
            k + used <= 10 && s[used - 1] < 128 && LeadingDigit(n, Pow128(used - 1), s[used - 1])
    decreases |s|
  {
    hide LeadingDigit;
    if s[0] < 128 {
      DigitAlone(s[0]);
    } else {
      ReadBounds(s[1..], k + 1);
      var (m, rest) := Read(s[1..], k + 1).value;
      assert s[rest] == s[1..][rest - 1];
      DigitShifts(m, Pow128(rest - 1), s[rest], s[0] - 128);
    }
  }

  lemma DigitAlone(n: nat)
    ensures LeadingDigit(n, Pow128(0), n)
  {}

  lemma {:induction false} Pow128Grows(a: nat, b: nat)
    requires a <= b
    ensures Pow128(a) <= Pow128(b)
  {
    if a < b { Pow128Grows(a, b - 1); }
  }

  lemma Pow128Nine()
    ensures Pow128(9) == 0x8000_0000_0000_0000
  {
    Pow128Ten();
    assert Pow128(10) == 128 * Pow128(9);
  }

  /** Ten digits stay below 2^70, and below 2^64 when the leading one is 0 or 1; nine always do. */
  lemma DigitBound(n: nat, used: nat, d: int)
    requires 1 <= used <= 10 && 0 <= d < 128 && LeadingDigit(n, Pow128(used - 1), d)
    ensures n < TWO70 && (n < U64 <==> used < 10 || d <= 1)
  {
    Pow128Nine();
    if used < 10 {
      BelowNextWeight(n, used, d);
      Pow128Grows(used, 9);
      hide Pow128, LeadingDigit;
    } else {
      hide Pow128;
    }
  }

  lemma BelowNextWeight(n: nat, used: nat, d: int)
    requires 1 <= used && d < 128 && LeadingDigit(n, Pow128(used - 1), d)
    ensures n < Pow128(used)
  {
    var p := Pow128(used - 1);
    assert p * (d + 1) <= p * 128;
  }

  /** Octet e is the first one below 128. */
  ghost predicate EndsAt(s: Bytes, e: nat) {
    e < |s| && s[e] < 128 && forall i :: 0 <= i < e ==> s[i] >= 128
  }

  lemma {:induction false} ReadEnds(s: Bytes, k: nat, e: nat)
    requires k <= 9 && EndsAt(s, e)
    ensures if k + e <= 9 then Read(s, k).Ok? && Read(s, k).value.1 == e + 1 else Read(s, k) == Err(VarintTooLong)
    decreases |s|
  {
    if e > 0 && k < 9 { ReadEnds(s[1..], k + 1, e - 1); }
  }

  lemma {:induction false} EndsSomewhere(s: Bytes, k: nat)
    requires Read(s, k).Ok?
    ensures exists e: nat :: EndsAt(s, e)
    decreases |s|
  {
    if s[0] < 128 {
      assert EndsAt(s, 0);
    } else {
      EndsSomewhere(s[1..], k + 1);
      var e: nat :| EndsAt(s[1..], e);
      assert forall i :: 0 < i <= e + 1 ==> s[i] == s[1..][i - 1];
      assert EndsAt(s, e + 1);
    }
  }

  /** A varint is accepted exactly when one of the ten octets at the offset is below 128, and then it
      ends at the first such. */
  lemma AcceptedExactly(data: Bytes, offset: nat)
    ensures Decode(data, offset).Ok? <==> offset <= |data| && exists e: nat :: e < 10 && EndsAt(data[offset..], e)
    ensures forall e: nat :: offset <= |data| && e < 10 && EndsAt(data[offset..], e) ==>
              Decode(data, offset).Ok? && Decode(data, offset).value.1 == offset + e + 1
  {
    if offset <= |data| {
      var s := data[offset..];
      if Read(s, 0).Ok? {
        EndsSomewhere(s, 0);
        var e: nat :| EndsAt(s, e);
        ReadEnds(s, 0, e);
      }
      forall e: nat | e < 10 && EndsAt(s, e) ensures Read(s, 0).Ok? && Read(s, 0).value.1 == e + 1 {
        ReadEnds(s, 0, e);
      }
    }
  }

  /** The documented 64-bit bound: every accepted value is below 2^70, and it is below 2^64 exactly
      when one of the first nine octets is below 128 or the tenth is 0 or 1. */
  lemma SixtyFourBitsExactly(data: Bytes, offset: nat, e: nat)
    requires offset <= |data| && e < 10 && EndsAt(data[offset..], e)
    ensures Decode(data, offset).Ok?
    ensures var n := Decode(data, offset).value.0; n < TWO70 && (n < U64 <==> e < 9 || data[offset + 9] <= 1)
  {
    hide Read, Pow128, LeadingDigit;
    var s := data[offset..];
    ReadEnds(s, 0, e);
    ReadBounds(s, 0);
    assert s[e] == data[offset + e];
    DigitBound(Read(s, 0).value.0, e + 1, s[e]);
  }

  /** The ten octets of 2^64 are accepted. */
  lemma SixtyFiveBitsAccepted()
    ensures Decode(Encode(U64), 0) == Ok((U64, 10))
  {
    hide Read, Decode, Encode, Pow128;
    VarintRoundTrip([], U64, []);
    assert [] + Encode(U64) + [] == Encode(U64);
    Pow128Ten();
    Pow128Nine();
    EncodeLength(U64, 9);
    EncodeLength(U64, 8);
  }

  lemma {:induction false} CanonicalRead(s: Bytes, k: nat)
    requires Read(s, k).Ok?
    ensures var (n, used) := Read(s, k).value; Encode(n) == s[..used] <==> used == 1 || s[used - 1] != 0
    decreases |s|
  {
    var (n, used) := Read(s, k).value;
    if s[0] >= 128 {
      CanonicalRead(s[1..], k + 1);
      var (m, rest) := Read(s[1..], k + 1).value;
      assert n % 128 == s[0] - 128 && n / 128 == m;
      assert s[..used] == [s[0]] + s[1..][..rest];
      assert s[1..][rest - 1] == s[used - 1];
      if n < 128 {
        assert |Encode(n)| == 1;
        ZeroRead(s[1..], k + 1);
      } else {
        assert Encode(n) == [s[0]] + Encode(m);
        assert Encode(n)[1..] == Encode(m) && s[..used][1..] == s[1..][..rest];
        if rest == 1 { assert s[1..][0] == m; }
      }
    }
  }

  /** Decoding accepts padded forms: an accepted varint is the canonical one exactly when its first
      octet below 128 stands alone or is not zero. */
  lemma CanonicalExactly(data: Bytes, offset: nat, e: nat)
    requires offset <= |data| && e < 10 && EndsAt(data[offset..], e)
    ensures Decode(data, offset).Ok?
    ensures Encode(Decode(data, offset).value.0) == data[offset..offset + e + 1] <==> e == 0 || data[offset + e] != 0
  {
    hide Read, Encode;
    var s := data[offset..];
    ReadEnds(s, 0, e);
    CanonicalRead(s, 0);
    assert s[..e + 1] == data[offset..offset + e + 1] && s[e] == data[offset + e];
  }

  /** A varint of value zero ends in a zero octet. */
  lemma {:induction false} ZeroRead(s: Bytes, k: nat)
    requires Read(s, k).Ok?
    ensures Read(s, k).value.0 == 0 ==> s[Read(s, k).value.1 - 1] == 0
    decreases |s|
  {
    if s[0] >= 128 {
      ZeroRead(s[1..], k + 1);
      assert s[Read(s, k).value.1 - 1] == s[1..][Read(s[1..], k + 1).value.1 - 1];
    }
  }

  lemma PaddedZeroAccepted()
    ensures Decode([0x80, 0x00], 0) == Ok((0, 2)) && Encode(0) == [0x00]
  {
    var s: Bytes := [0x80, 0x00];
    assert s[0..] == s && s[1..] == [0x00];
    assert Read([0x00], 1) == Ok((0, 1));
  }

  // ---- Multihashes ---------------------------------------------------------------------------------------

  function EncodeMultihash(code: nat, digest: Bytes): Bytes { Encode(code) + Encode(|digest|) + digest }

  function DecodeMultihash(data: Bytes): (r: Result<(nat, nat, Bytes)>)
    ensures r.Ok? ==> r.value.1 == |r.value.2|
  {
    var first :- Decode(data, 0);
    var second :- Decode(data, first.1);
    var remaining := |data| - second.1;
    if remaining < second.0 then Err(MultihashTruncated)
    else if remaining > second.0 then Err(MultihashOverLong)
    else Ok((first.0, second.0, data[second.1..]))
  }

  /** Round trip, and no extension of an encoding is accepted. */
  lemma MultihashRoundTrip(code: nat, digest: Bytes, extra: Bytes)
    requires code < TWO70 && |digest| < TWO70
    ensures DecodeMultihash(EncodeMultihash(code, digest) + extra) ==
            if extra == [] then Ok((code, |digest|, digest)) else Err(MultihashOverLong)
  {
    hide Encode, Decode;
    var c, l := Encode(code), Encode(|digest|);
    var data := EncodeMultihash(code, digest) + extra;
    assert data == [] + c + (l + digest + extra);
    VarintRoundTrip([], code, l + digest + extra);
    assert data == c + l + (digest + extra);
    VarintRoundTrip(c, |digest|, digest + extra);
    assert data[|c| + |l|..] == digest + extra;
    assert extra == [] ==> digest + extra == digest;
  }

  lemma {:induction false} PrefixTruncated(n: nat, k: nat, p: Bytes)
    requires p < Encode(n) && k + |Encode(n)| <= 10
    ensures Read(p, k) == Err(VarintTruncated)
    decreases |p|
  {
    if p != [] {
      assert n >= 128 && p[0] == Encode(n)[0];
      assert p[1..] < Encode(n / 128);
      PrefixTruncated(n / 128, k + 1, p[1..]);
    }
  }

  /** No proper prefix of an encoding is accepted. */
  lemma MultihashPrefixRefused(code: nat, digest: Bytes, p: Bytes)
    requires code < TWO70 && |digest| < TWO70 && p < EncodeMultihash(code, digest)
    ensures DecodeMultihash(p) == Err(VarintTruncated) || DecodeMultihash(p) == Err(MultihashTruncated)
  {
    hide Encode, Read;
    var c, l := Encode(code), Encode(|digest|);
    var whole := EncodeMultihash(code, digest);
    EncodeLength(code, 9);
    EncodeLength(|digest|, 9);
    Pow128Ten();
    assert p == whole[..|p|];
    if |p| < |c| {
      assert p[0..] == p && p < c;
      PrefixTruncated(code, 0, p);
    } else {
      var rest := p[|c|..];
      assert p == [] + c + rest;
      VarintRoundTrip([], code, rest);
      if |rest| < |l| {
        assert rest < l;
        PrefixTruncated(|digest|, 0, rest);
      } else {
        var tail := rest[|l|..];
        assert p == c + l + tail;
        VarintRoundTrip(c, |digest|, tail);
      }
    }
  }

  // ---- Content ids -------------------------------------------------------------------------------------------

  const SHA2_384_CODE: nat := 0x20

  const SHA2_384_LENGTH: nat := 48

  function ValidateContentId(data: Bytes): Result<Bytes> {
    var m :- DecodeMultihash(data);
    if m.0 != SHA2_384_CODE then Err(WrongMultihashCode)
    else if m.1 != SHA2_384_LENGTH then Err(WrongDigestLength)
    else Ok(m.2)
  }

  /** A multihash is a varint, a varint that says how much follows, and that much. */
  lemma MultihashExactly(data: Bytes)
    ensures DecodeMultihash(data).Ok? <==>
            exists p: nat, q: nat, code: nat, n: nat ::
              Decode(data, 0) == Ok((code, p)) && Decode(data, p) == Ok((n, q)) && |data| == q + n
    ensures DecodeMultihash(data).Ok? ==>
              var (code, n, digest) := DecodeMultihash(data).value;
              && Decode(data, 0).Ok? && Decode(data, 0).value.0 == code
              && |digest| == n <= |data| && digest == data[|data| - n..]
  {
    hide Decode, Read;
    if DecodeMultihash(data).Ok? {
      var first := Decode(data, 0).value;
      var second := Decode(data, first.1).value;
      assert Decode(data, 0) == Ok((first.0, first.1)) && Decode(data, first.1) == Ok((second.0, second.1));
    }
  }

  /** A content id is accepted exactly when it is a multihash of code 20 (hex) and 48 octets; otherwise
      the fault is the form's, then the code's, then the length's. */
  lemma ValidatesExactly(data: Bytes)
    ensures var m, r := DecodeMultihash(data), ValidateContentId(data);
            && (r.Ok? <==> m.Ok? && m.value.0 == 0x20 && |m.value.2| == 48)
            && (r.Ok? ==> |r.value| == 48 && r.value == m.value.2)
            && (m.Err? ==> r == Err(m.fault))
            && (m.Ok? && m.value.0 != 0x20 ==> r == Err(WrongMultihashCode))
            && (m.Ok? && m.value.0 == 0x20 && |m.value.2| != 48 ==> r == Err(WrongDigestLength))
  {
    hide Decode;
  }

  /** Every framed digest validates, giving back the digest. */
  lemma ContentIdValidates(h: Hash, b: Bytes)
    ensures ValidateContentId(ContentId(h, b)) == Ok(h(b))
  {
    var d := h(b);
    assert Encode(0x20) == [0x20] && Encode(48) == [0x30];
    assert EncodeMultihash(0x20, d) + [] == ContentId(h, b);
    MultihashRoundTrip(0x20, d, []);
  }

  /** Padded varints make longer strings validate too; an accepted id is the framed digest exactly
      when it has 50 octets. */
  lemma ContentIdExactly(data: Bytes)
    requires ValidateContentId(data).Ok?
    ensures data == [0x20, 0x30] + ValidateContentId(data).value <==> |data| == 50
  {
    var d := ValidateContentId(data).value;
    var first := Decode(data, 0).value;
    var second := Decode(data, first.1).value;
    assert data[0..] == data;
    if |data| == 50 {
      assert first.1 == 1 && second.1 == 2;
      SingleOctet(data, 0);
      SingleOctet(data[1..], 0);
      assert data == [data[0], data[1]] + data[2..];
    }
  }

  lemma SingleOctet(s: Bytes, k: nat)
    requires Read(s, k).Ok? && Read(s, k).value.1 == 1
    ensures s[0] == Read(s, k).value.0
  {}

  lemma PaddedContentIdAccepted(d: Digest)
    ensures ValidateContentId([0xA0, 0x00, 0x30] + d) == Ok(d)
  {
    var data: Bytes := [0xA0, 0x00, 0x30] + d;
    assert data[0..] == data;
    assert data[1..][0] == 0x00;
    assert Read(data[1..], 1) == Ok((0, 1));
    assert Decode(data, 0) == Ok((0x20, 2));
    assert data[2..][0] == 0x30;
    assert Decode(data, 2) == Ok((48, 3));
    assert data[3..] == d;
  }
}
