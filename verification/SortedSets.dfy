/** Sorting finite sets under a strict total order, and the uniqueness of sorted listings. */
module SortedSets {
  import opened Octets

  type Order<!T> = (T, T) -> bool

  ghost predicate StrictTotal<T(!new)>(lt: Order<T>) {
    && (forall x, y :: x == y || lt(x, y) || lt(y, x))
    && (forall x, y :: lt(x, y) ==> !lt(y, x))
    && (forall x, y, z :: lt(x, y) && lt(y, z) ==> lt(x, z))
  }

  /** Octet strings compare bytewise. */
  function Bytewise(): Order<Bytes> { (a, b) => Less(a, b) }

  lemma BytewiseTotal()
    ensures StrictTotal(Bytewise())
  {
    forall a, b ensures (a == b || Less(a, b) || Less(b, a)) && !(Less(a, b) && Less(b, a)) { LessTotal(a, b); }
    forall a, b, c | Less(a, b) && Less(b, c) ensures Less(a, c) { LessTransitive(a, b, c); }
  }

  function ByValue(): Order<int> { (a, b) => a < b }

  ghost predicate Sorted<T>(lt: Order<T>, s: seq<T>) {
    forall i, j :: 0 <= i < j < |s| ==> lt(s[i], s[j])
  }

  ghost function Elements<T>(s: seq<T>): set<T> { set x | x in s }

  lemma ElementsPrefix<T>(s: seq<T>, k: nat)
    requires k < |s|
    ensures Elements(s[..k + 1]) == Elements(s[..k]) + {s[k]}
    ensures Elements(s[..0]) == {} && s[k] in s
  {
    assert s[..k + 1] == s[..k] + [s[k]];
  }

  ghost predicate IsLeast<T>(lt: Order<T>, m: T, s: set<T>) {
    m in s && forall y :: y in s ==> y == m || lt(m, y)
  }

  lemma LeastUnique<T(!new)>(lt: Order<T>, m: T, n: T, s: set<T>)
    requires StrictTotal(lt) && IsLeast(lt, m, s) && IsLeast(lt, n, s)
    ensures m == n
  {}

  lemma {:induction false} LeastExists<T(!new)>(lt: Order<T>, s: set<T>)
    requires StrictTotal(lt) && s != {}
    ensures exists m :: IsLeast(lt, m, s)
  {
    var x :| x in s;
    if s == {x} {
      assert IsLeast(lt, x, s);
    } else {
      LeastExists(lt, s - {x});
      var m :| IsLeast(lt, m, s - {x});
      if lt(m, x) { assert IsLeast(lt, m, s); } else { assert IsLeast(lt, x, s); }
    }
  }

  ghost function LeastOf<T(!new)>(lt: Order<T>, s: set<T>): (m: T)
    requires StrictTotal(lt) && s != {}
    ensures IsLeast(lt, m, s)
  {
    LeastExists(lt, s);
    var m :| IsLeast(lt, m, s);
    m
  }

  /** The elements of s in ascending order. */
  method Listing<T(==, !new)>(lt: Order<T>, s: set<T>) returns (out: seq<T>)
    requires StrictTotal(lt)
    ensures Sorted(lt, out) && |out| == |s| && forall x :: x in out <==> x in s
  {
    var rest := s;
    out := [];
    while rest != {}
      invariant rest <= s && |out| + |rest| == |s| && Sorted(lt, out)
      invariant forall x :: x in out <==> x in s - rest
      invariant forall x, y :: x in out && y in rest ==> lt(x, y)
      decreases |rest|
    {
      LeastExists(lt, rest);
      var m :| m in rest && forall y :: y in rest ==> y == m || lt(m, y);
      rest, out := rest - {m}, out + [m];
    }
  }

  /** A sorted list is determined by its elements. */
  lemma {:induction false} SortedUnique<T(!new)>(lt: Order<T>, a: seq<T>, b: seq<T>)
    requires StrictTotal(lt) && Sorted(lt, a) && Sorted(lt, b)
    requires forall x :: x in a <==> x in b
    ensures a == b
  {
    if a == [] {
      if b != [] { NoMember(b); }
    } else {
      assert a[0] in b && b != [];
      assert b[0] in a;
      assert a[0] == b[0];
      assert a == [a[0]] + a[1..] && b == [b[0]] + b[1..];
      forall x ensures x in a[1..] <==> x in b[1..] {
        if x in a[1..] { assert x in b && lt(a[0], x); }
        if x in b[1..] { assert x in a && lt(b[0], x); }
      }
      SortedUnique(lt, a[1..], b[1..]);
    }
  }

  lemma NoMember<T>(b: seq<T>)
    requires b != []
    ensures exists x :: x in b
  {
    assert b[0] in b;
  }

  // ---- Integers ------------------------------------------------------------------------------------

  function Downward(): Order<int> { (a, b) => a > b }

  ghost function Largest(s: set<int>): (m: int)
    requires s != {}
    ensures m in s && forall k :: k in s ==> k <= m
  {
    LeastOf(Downward(), s)
  }

  lemma LargestLast(rest: seq<int>, s: set<int>)
    requires s != {} && |rest| == |s - {Largest(s)}|
    requires forall k :: k in rest <==> k in s - {Largest(s)}
    requires forall i, j :: 0 <= i < j < |rest| ==> rest[i] < rest[j]
    ensures var r := rest + [Largest(s)];
            && |r| == |s| && (forall k :: k in r <==> k in s)
            && (forall i, j :: 0 <= i < j < |r| ==> r[i] < r[j])
  {
    hide Largest;
    forall i | 0 <= i < |rest| ensures rest[i] < Largest(s) { assert rest[i] in rest; }
  }

  /** The members of a set of integers in ascending order. */
  ghost function Ascending(s: set<int>): (r: seq<int>)
    ensures |r| == |s| && forall k :: k in r <==> k in s
    ensures forall i, j :: 0 <= i < j < |r| ==> r[i] < r[j]
  {
    if s == {} then []
    else
      var rest := Ascending(s - {Largest(s)});
      LargestLast(rest, s);
      rest + [Largest(s)]
  }
}
