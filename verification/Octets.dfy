/** Octet strings, digests and the order every other component compares them by. */
module Octets {

  type byte = b: int | 0 <= b < 256

  type Bytes = seq<byte>

  /** A SHA-384 output: exactly 48 octets. */
  type Digest = d: Bytes | |d| == 48 witness seq(48, i => 0)

  /** SHA-384 is a parameter: every theorem holds for any function to 48 octets. */
  type Hash = Bytes -> Digest

  datatype Option<+T> = None | Some(value: T)

  /** The prev link of an empty chain: 48 zero octets. */
  const GENESIS: Digest := Zeros(48)

  function Zeros(n: nat): (s: Bytes)
    ensures |s| == n && forall i :: 0 <= i < n ==> s[i] == 0
  {
    if n == 0 then [] else Zeros(n - 1) + [0]
  }

  /** A content id is the octets 20 30 and then the digest's own 48. */
  lemma ContentIdOctets(h: Hash, b: Bytes)
    ensures ContentId(h, b)[0] == 0x20 && ContentId(h, b)[1] == 0x30
    ensures forall i :: 0 <= i < 48 ==> ContentId(h, b)[i + 2] == h(b)[i]
  {}

  const U64: int := 0x1_0000_0000_0000_0000

  /** Content-id framing: multihash code 0x20, length 0x30, then the digest. */
  function ContentId(h: Hash, b: Bytes): (id: Bytes)
    ensures |id| == 50
  {
    [0x20, 0x30] + h(b)
  }

  /** Two different members of `inputs` hash to the same digest.
      `inputs` is always the finite set of strings that the computation at hand hashed, so
      the statement points at a concrete collision rather than at the existence of one. */
  ghost predicate Collision(h: Hash, inputs: set<Bytes>) {
    exists x, y :: x in inputs && y in inputs && x != y && h(x) == h(y)
  }

  lemma CollisionMonotone(h: Hash, s: set<Bytes>, t: set<Bytes>)
    requires Collision(h, s) && s <= t
    ensures Collision(h, t)
  {
    var x, y :| x in s && y in s && x != y && h(x) == h(y);
    assert x in t && y in t;
  }

  lemma NoCollision(h: Hash, s: set<Bytes>, x: Bytes, y: Bytes)
    requires !Collision(h, s) && x in s && y in s && h(x) == h(y)
    ensures x == y
  {}

  lemma DistinctDigests(h: Hash, s: set<Bytes>, x: Bytes, y: Bytes)
    requires !Collision(h, s) && x in s && y in s && x != y
    ensures h(x) != h(y)
  {}

  ghost predicate Distinct<T>(s: seq<T>) {
    forall i, j :: 0 <= i < j < |s| ==> s[i] != s[j]
  }

  /** Bytewise ascending order; a proper prefix comes first. */
  predicate Less(a: Bytes, b: Bytes) {
    if b == [] then false
    else if a == [] then true
    else a[0] < b[0] || (a[0] == b[0] && Less(a[1..], b[1..]))
  }

  /** a comes first exactly where it is a proper prefix of b, or has the smaller octet at the first
      position at which they differ. */
  ghost predicate SmallerAt(a: Bytes, b: Bytes, k: nat) {
    k <= |a| && k < |b| && a[..k] == b[..k] && (k == |a| || a[k] < b[k])
  }

  lemma {:induction false} LessMeaning(a: Bytes, b: Bytes)
    ensures Less(a, b) <==> exists k: nat :: SmallerAt(a, b, k)
  {
    if a != [] && b != [] {
      LessMeaning(a[1..], b[1..]);
      assert a == [a[0]] + a[1..] && b == [b[0]] + b[1..];
      if a[0] < b[0] {
        assert SmallerAt(a, b, 0);
      } else if a[0] == b[0] && Less(a[1..], b[1..]) {
        var k: nat :| SmallerAt(a[1..], b[1..], k);
        SmallerFurther(a, b, k);
      }
      if k: nat :| SmallerAt(a, b, k) {
        if k > 0 { SmallerNearer(a, b, k - 1); }
      }
    } else if b != [] {
      assert SmallerAt(a, b, 0);
    }
  }

  lemma SmallerFurther(a: Bytes, b: Bytes, k: nat)
    requires a != [] && b != [] && a[0] == b[0] && SmallerAt(a[1..], b[1..], k)
    ensures SmallerAt(a, b, k + 1)
  {
    assert a[..k + 1] == [a[0]] + a[1..][..k] && b[..k + 1] == [b[0]] + b[1..][..k];
  }

  lemma SmallerNearer(a: Bytes, b: Bytes, k: nat)
    requires SmallerAt(a, b, k + 1)
    ensures a[0] == b[0] && SmallerAt(a[1..], b[1..], k)
  {
    assert a[..k + 1][0] == b[..k + 1][0];
    assert a[..k + 1][1..] == a[1..][..k] && b[..k + 1][1..] == b[1..][..k];
  }

  lemma {:induction false} LessTotal(a: Bytes, b: Bytes)
    ensures Less(a, b) || a == b || Less(b, a)
    ensures !(Less(a, b) && Less(b, a))
    ensures !Less(a, a)
  {
    if a != [] && b != [] {
      LessTotal(a[1..], b[1..]);
      LessTotal(a[1..], a[1..]);
      if a[0] == b[0] && a[1..] == b[1..] {
        assert a == [a[0]] + a[1..] == [b[0]] + b[1..] == b;
      }
    } else if a != [] {
      LessTotal(a[1..], a[1..]);
    }
  }

  lemma {:induction false} LessTransitive(a: Bytes, b: Bytes, c: Bytes)
    requires Less(a, b) && Less(b, c)
    ensures Less(a, c)
  {
    if a != [] && a[0] == b[0] && b[0] == c[0] {
      LessTransitive(a[1..], b[1..], c[1..]);
    }
  }

  /** `len(set(s)) == len(s)` is the source's test for repeated elements. */
  lemma {:induction false} SetSize<T>(s: seq<T>)
    ensures |set x | x in s| <= |s|
    ensures |set x | x in s| == |s| <==> Distinct(s)
  {
    if s != [] {
      var t := s[..|s| - 1];
      var last := s[|s| - 1];
      SetSize(t);
      var whole, part := set x | x in s, set x | x in t;
      assert s == t + [last];
      assert whole == part + {last};
      if last in t {
        assert whole == part;
        var i :| 0 <= i < |t| && t[i] == last;
        assert s[i] == s[|s| - 1];
      } else {
        assert |whole| == |part| + 1;
        assert Distinct(s) <==> Distinct(t);
      }
    } else {
      assert (set x | x in s) == {};
    }
  }

  lemma DivideTwice(n: nat, b: nat, p: nat)
    requires b > 0 && p > 0
    ensures n / b / p == n / (b * p)
  {
    Positive(b, p);
    var m, u := n / b, n % b;
    var q, r := m / p, m % p;
    Remainders(m, u, q, r, b, p);
    Quotient(n, b * p, q, b * r + u);
  }

  lemma Positive(b: nat, p: nat)
    requires b > 0 && p > 0
    ensures b * p > 0
  {}

  lemma Remainders(m: nat, u: nat, q: nat, r: nat, b: nat, p: nat)
    requires m == q * p + r && u < b && r < p
    ensures b * m + u == q * (b * p) + (b * r + u) && b * r + u < b * p
  {
    assert b * (q * p + r) == b * (q * p) + b * r;
    Regroup(b, q, p);
    Below(b, r, p);
  }

  lemma Regroup(b: nat, q: nat, p: nat)
    ensures b * (q * p) == q * (b * p)
  {}

  lemma Below(b: nat, r: nat, p: nat)
    requires r < p
    ensures b * r + b <= b * p
  {
    assert b * (r + 1) <= b * p;
  }

  lemma Quotient(n: nat, d: nat, q: nat, r: nat)
    requires d > 0 && n == q * d + r && r < d
    ensures n / d == q
  {
    var e := n / d - q;
    assert n == (n / d) * d + n % d;
    assert e * d == r - n % d;
    assert e >= 1 ==> e * d >= d;
    assert e <= -1 ==> e * d <= 0 - d;
  }

  ghost function Upto(n: nat): (s: set<nat>)
    ensures |s| == n && forall x: nat :: x in s <==> x < n
  {
    if n == 0 then {} else Upto(n - 1) + {n - 1}
  }

  lemma {:induction false} SubsetSize<T>(a: set<T>, b: set<T>)
    requires a <= b
    ensures |a| <= |b|
  {
    if a != {} {
      var x :| x in a;
      SubsetSize(a - {x}, b - {x});
    }
  }

  lemma SameSize<T>(a: set<T>, b: set<T>)
    requires a <= b && |a| == |b|
    ensures a == b
  {
    if x :| x in b && x !in a { SubsetSize(a, b - {x}); }
  }

  lemma LeftOver<T>(all: set<T>, done: set<T>)
    requires |done| < |all|
    ensures all - done != {}
  {
    SubsetSize(all * done, done);
    assert all == (all - done) + all * done;
  }

  ghost predicate Permutation(p: seq<nat>, n: nat) {
    |p| == n && (forall i :: 0 <= i < n ==> p[i] < n) && Distinct(p)
  }

  /** An injection of [0, n) into itself hits every index. */
  lemma Onto(p: seq<nat>, n: nat, j: nat)
    requires Permutation(p, n) && j < n
    ensures j in p
  {
    SetSize(p);
    var hit := set x | x in p;
    if j !in hit { SubsetSize(hit, Upto(n) - {j}); }
  }

  lemma Inverse(p: seq<nat>, n: nat) returns (q: seq<nat>)
    requires Permutation(p, n)
    ensures Permutation(q, n) && forall j :: 0 <= j < n ==> p[q[j]] == j
  {
    q := [];
    while |q| < n
      invariant |q| <= n
      invariant forall j :: 0 <= j < |q| ==> q[j] < n && p[q[j]] == j
    {
      Onto(p, n, |q|);
      var i: nat :| i < n && p[i] == |q|;
      q := q + [i];
    }
    assert forall i, j :: 0 <= i < j < n ==> p[q[i]] != p[q[j]];
  }
}
