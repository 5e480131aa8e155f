/** What well-formed UTF-8 is: the encodings of Unicode scalar values (RFC 3629, section 3). */
module Utf8 {
  import opened Octets
  import opened Cbor

  predicate Scalar(c: nat) { c < 0xD800 || 0xE000 <= c < 0x11_0000 }

  /** The octets of one character, from its binary digits. */
  function Character(c: nat): Bytes
    requires Scalar(c)
  {
    if c < 0x80 then [c]
    else if c < 0x800 then [0xC0 + c / 64, 0x80 + c % 64]
    else if c < 0x1_0000 then [0xE0 + c / 4096, 0x80 + c / 64 % 64, 0x80 + c % 64]
    else [0xF0 + c / 0x4_0000, 0x80 + c / 4096 % 64, 0x80 + c / 64 % 64, 0x80 + c % 64]
  }

  predicate Scalars(cs: seq<nat>) { forall i :: 0 <= i < |cs| ==> Scalar(cs[i]) }

  function TextOf(cs: seq<nat>): Bytes
    requires Scalars(cs)
  {
    if cs == [] then [] else Character(cs[0]) + TextOf(cs[1..])
  }

  lemma Digits(a: nat, x: nat, y: nat, z: nat)
    requires x < 64 && y < 64 && z < 64
    ensures var c := 0x4_0000 * a + 4096 * x + 64 * y + z;
            c / 0x4_0000 == a && c / 4096 % 64 == x && c / 64 % 64 == y && c % 64 == z
  {
    var c := 0x4_0000 * a + 4096 * x + 64 * y + z;
    assert c / 64 == 4096 * a + 64 * x + y && c / 4096 == 64 * a + x;
  }

  lemma TwoOctets(s: Bytes) returns (c: nat)
    requires |s| >= 2 && 0xC2 <= s[0] < 0xE0 && Continuation(s[1])
    ensures Scalar(c) && Character(c) == s[..2]
  {
    var lead: int, x: int := s[0], s[1];
    c := 64 * (lead - 0xC0) + (x - 0x80);
  }

  lemma ThreeOctets(s: Bytes) returns (c: nat)
    requires |s| >= 3 && 0xE0 <= s[0] < 0xF0 && Continuation(s[1]) && Continuation(s[2])
    requires (s[0] == 0xE0 ==> s[1] >= 0xA0) && (s[0] == 0xED ==> s[1] < 0xA0)
    ensures Scalar(c) && Character(c) == s[..3]
  {
    var lead: int, x: int, y: int := s[0], s[1], s[2];
    c := 4096 * (lead - 0xE0) + 64 * (x - 0x80) + (y - 0x80);
    Digits(0, lead - 0xE0, x - 0x80, y - 0x80);
  }

  lemma FourOctets(s: Bytes) returns (c: nat)
    requires |s| >= 4 && 0xF0 <= s[0] < 0xF5
    requires Continuation(s[1]) && Continuation(s[2]) && Continuation(s[3])
    requires (s[0] == 0xF0 ==> s[1] >= 0x90) && (s[0] == 0xF4 ==> s[1] < 0x90)
    ensures Scalar(c) && Character(c) == s[..4]
  {
    var lead: int, x: int, y: int, z: int := s[0], s[1], s[2], s[3];
    c := 0x4_0000 * (lead - 0xF0) + 4096 * (x - 0x80) + 64 * (y - 0x80) + (z - 0x80);
    Digits(lead - 0xF0, x - 0x80, y - 0x80, z - 0x80);
  }

  /** Reading the first character off a well-formed string. */
  lemma FirstCharacter(s: Bytes) returns (c: nat)
    requires s != [] && Utf8Valid(s)
    ensures Scalar(c) && Character(c) != [] && Character(c) <= s && Utf8Valid(s[|Character(c)|..])
  {
    if s[0] < 0x80 {
      c := s[0];
    } else if s[0] < 0xE0 {
      c := TwoOctets(s);
    } else if s[0] < 0xF0 {
      c := ThreeOctets(s);
    } else {
      c := FourOctets(s);
    }
  }

  lemma CharacterShape(c: nat)
    requires Scalar(c)
    ensures var k := Character(c);
            && 1 <= |k| <= 4 && (forall i :: 0 < i < |k| ==> Continuation(k[i]))
            && (|k| == 1 <==> k[0] < 0x80) && (|k| == 2 <==> 0xC2 <= k[0] < 0xE0)
            && (|k| == 3 <==> 0xE0 <= k[0] < 0xF0) && (|k| == 4 <==> 0xF0 <= k[0] < 0xF5)
            && (k[0] == 0xE0 ==> k[1] >= 0xA0) && (k[0] == 0xED ==> k[1] < 0xA0)
            && (k[0] == 0xF0 ==> k[1] >= 0x90) && (k[0] == 0xF4 ==> k[1] < 0x90)
  {}

  lemma CharacterValid(c: nat, rest: Bytes)
    requires Scalar(c) && Utf8Valid(rest)
    ensures Utf8Valid(Character(c) + rest)
  {
    hide Character;
    CharacterShape(c);
    var s := Character(c) + rest;
    assert s[|Character(c)|..] == rest;
  }

  /** A string is accepted as text exactly when it is the encoding of some scalar values. */
  lemma {:induction false} Utf8Exactly(s: Bytes)
    ensures Utf8Valid(s) <==> exists cs :: Scalars(cs) && TextOf(cs) == s
  {
    if Utf8Valid(s) { var cs := Characters(s); }
    if cs :| Scalars(cs) && TextOf(cs) == s { TextValid(cs); }
  }

  lemma {:induction false} Characters(s: Bytes) returns (cs: seq<nat>)
    requires Utf8Valid(s)
    ensures Scalars(cs) && TextOf(cs) == s
    decreases |s|
  {
    hide Utf8Valid, Character;
    if s == [] {
      cs := [];
    } else {
      var c := FirstCharacter(s);
      var rest := Characters(s[|Character(c)|..]);
      cs := [c] + rest;
      assert cs[1..] == rest;
      assert s == Character(c) + s[|Character(c)|..];
    }
  }

  lemma {:induction false} TextValid(cs: seq<nat>)
    requires Scalars(cs)
    ensures Utf8Valid(TextOf(cs))
  {
    if cs != [] {
      TextValid(cs[1..]);
      CharacterValid(cs[0], TextOf(cs[1..]));
    }
  }

  lemma {:induction false} Ascii(s: Bytes)
    requires forall i :: 0 <= i < |s| ==> s[i] < 0x80
    ensures Utf8Valid(s)
  {
    if s != [] { Ascii(s[1..]); }
  }
}
