/** Binary trees over a list, split at the largest power of two, for any combining function.
    The tree hash, the audit path and the verifier loop are instances. */
module Pairing {
  import opened Octets

  /** A combining function: the 0x01-prefixed hash of two children. */
  type Combine<!D> = (D, D) -> D

  // ---- The split point -------------------------------------------------------------------

  predicate IsPow2(k: nat) { k == 1 || (k > 1 && k % 2 == 0 && IsPow2(k / 2)) }

  /** The largest power of two strictly below n, by halving. */
  function Split(n: nat): (k: nat)
    requires n >= 2
    ensures 1 <= k < n <= 2 * k
  {
    if n == 2 then 1 else 2 * Split((n + 1) / 2)
  }

  lemma {:induction false} SplitUnique(k: nat, n: nat)
    requires n >= 2 && IsPow2(k) && k < n <= 2 * k
    ensures k == Split(n)
  {
    if n > 2 { SplitUnique(k / 2, (n + 1) / 2); }
  }

  method LargestPow2Lt(n: nat) returns (k: nat)
    requires n >= 2
    ensures IsPow2(k) && k < n <= 2 * k
    ensures k == Split(n)
  {
    k := 1;
    while k * 2 < n
      invariant IsPow2(k) && k < n
      decreases n - k
    {
      assert (k * 2) / 2 == k;
      k := k * 2;
    }
    SplitUnique(k, n);
  }

  // ---- Root, path and the pairs combined ----------------------------------------------------

  function Root<D>(node: Combine<D>, hs: seq<D>): D
    requires |hs| >= 1
    decreases |hs|
  {
    if |hs| == 1 then hs[0]
    else var k := Split(|hs|); node(Root(node, hs[..k]), Root(node, hs[k..]))
  }

  function Path<D>(node: Combine<D>, m: nat, hs: seq<D>): seq<D>
    requires m < |hs|
    decreases |hs|
  {
    if |hs| == 1 then []
    else
      var k := Split(|hs|);
      if m < k then Path(node, m, hs[..k]) + [Root(node, hs[k..])]
      else Path(node, m - k, hs[k..]) + [Root(node, hs[..k])]
  }

  ghost function Pairs<D>(node: Combine<D>, hs: seq<D>): set<(D, D)>
    decreases |hs|
  {
    if |hs| <= 1 then {}
    else
      var k := Split(|hs|);
      {(Root(node, hs[..k]), Root(node, hs[k..]))} + Pairs(node, hs[..k]) + Pairs(node, hs[k..])
  }

  // ---- The verifier loop --------------------------------------------------------------------

  /** Shift both counters while the low bit of fn is clear and fn is not zero. */
  function Strip(fn: nat, sn: nat): (r: (nat, nat))
    ensures r.1 <= sn
  {
    if fn % 2 == 0 && fn != 0 then Strip(fn / 2, sn / 2) else (fn, sn)
  }

  /** The verifier loop from a given state, as a function of the path elements still to come. */
  function Replay<D>(node: Combine<D>, fn: nat, sn: nat, r: D, path: seq<D>): (bool, Option<D>)
    decreases |path|
  {
    if path == [] then (sn == 0, Some(r))
    else if sn == 0 then (false, None)
    else if fn % 2 == 1 || fn == sn then
      Replay(node, Strip(fn, sn).0 / 2, Strip(fn, sn).1 / 2, node(path[0], r), path[1..])
    else
      Replay(node, fn / 2, sn / 2, node(r, path[0]), path[1..])
  }

  /** The pairs the verifier combines. */
  ghost function ReplayPairs<D>(node: Combine<D>, fn: nat, sn: nat, r: D, path: seq<D>): set<(D, D)>
    decreases |path|
  {
    if path == [] || sn == 0 then {}
    else if fn % 2 == 1 || fn == sn then
      {(path[0], r)}
      + ReplayPairs(node, Strip(fn, sn).0 / 2, Strip(fn, sn).1 / 2, node(path[0], r), path[1..])
    else
      {(r, path[0])} + ReplayPairs(node, fn / 2, sn / 2, node(r, path[0]), path[1..])
  }

  /** A last node without a sibling waits: halving both counters changes nothing. */
  lemma ReplayStutter<D>(node: Combine<D>, fn: nat, r: D, path: seq<D>)
    requires fn > 0 && fn % 2 == 0
    ensures Replay(node, fn, fn, r, path) == Replay(node, fn / 2, fn / 2, r, path)
    ensures ReplayPairs(node, fn, fn, r, path) == ReplayPairs(node, fn / 2, fn / 2, r, path)
  {
    assert Strip(fn, fn) == Strip(fn / 2, fn / 2);
    assert fn / 2 > 0;
  }

  // ---- One level of pairing -------------------------------------------------------------------

  /** Pair neighbours; an unpaired last element moves up unchanged. */
  ghost function Level<D>(node: Combine<D>, hs: seq<D>): (up: seq<D>)
    ensures |up| == (|hs| + 1) / 2
  {
    if |hs| <= 1 then hs else [node(hs[0], hs[1])] + Level(node, hs[2..])
  }

  /** Element q one level up: its two children combined, or its only child. */
  lemma {:induction false} LevelAt<D>(node: Combine<D>, hs: seq<D>, q: nat)
    requires 2 * q < |hs|
    ensures Level(node, hs)[q] == if 2 * q + 1 < |hs| then node(hs[2 * q], hs[2 * q + 1]) else hs[2 * q]
  {
    if q > 0 { LevelAt(node, hs[2..], q - 1); }
  }

  lemma {:induction false} LevelAppend<D>(node: Combine<D>, a: seq<D>, b: seq<D>)
    requires |a| % 2 == 0
    ensures Level(node, a + b) == Level(node, a) + Level(node, b)
  {
    if a == [] {
      assert a + b == b;
    } else {
      LevelAppend(node, a[2..], b);
      assert (a + b)[2..] == a[2..] + b;
    }
  }

  lemma LevelSplit<D>(node: Combine<D>, hs: seq<D>)
    requires |hs| >= 3
    ensures var up := Level(node, hs); var j := Split(|up|);
            && Split(|hs|) == 2 * j
            && up[..j] == Level(node, hs[..2 * j]) && up[j..] == Level(node, hs[2 * j..])
  {
    var k := Split(|hs|);
    assert k == 2 * Split((|hs| + 1) / 2);
    hide Level, Split;
    LevelAppend(node, hs[..k], hs[k..]);
    assert hs == hs[..k] + hs[k..];
  }

  /** Splitting at the largest power of two and pairing bottom-up give the same root. */
  lemma {:induction false} RootLevel<D>(node: Combine<D>, hs: seq<D>)
    requires |hs| >= 1
    ensures Root(node, Level(node, hs)) == Root(node, hs)
    decreases |hs|
  {
    if |hs| > 2 {
      LevelSplit(node, hs);
      RootLevel(node, hs[..Split(|hs|)]);
      RootLevel(node, hs[Split(|hs|)..]);
    }
  }

  lemma {:induction false} PairsLevel<D>(node: Combine<D>, hs: seq<D>)
    ensures Pairs(node, Level(node, hs)) <= Pairs(node, hs)
    decreases |hs|
  {
    if |hs| > 2 {
      LevelSplit(node, hs);
      var k := Split(|hs|);
      RootLevel(node, hs[..k]);
      RootLevel(node, hs[k..]);
      PairsLevel(node, hs[..k]);
      PairsLevel(node, hs[k..]);
    }
  }

  lemma PairsUnfold<D>(node: Combine<D>, hs: seq<D>)
    requires |hs| >= 2
    ensures Pairs(node, hs[..Split(|hs|)]) <= Pairs(node, hs)
    ensures Pairs(node, hs[Split(|hs|)..]) <= Pairs(node, hs)
    ensures |hs| == 2 ==> (hs[0], hs[1]) in Pairs(node, hs)
  {}

  lemma {:induction false} ChildrenPaired<D>(node: Combine<D>, hs: seq<D>, q: nat)
    requires 2 * q + 1 < |hs|
    ensures (hs[2 * q], hs[2 * q + 1]) in Pairs(node, hs)
    decreases |hs|
  {
    hide Pairs, Level, Split;
    PairsUnfold(node, hs);
    if |hs| > 2 {
      LevelSplit(node, hs);
      var j := Split(|Level(node, hs)|);
      if q < j { ChildrenPaired(node, hs[..2 * j], q); } else { ChildrenPaired(node, hs[2 * j..], q - j); }
    }
  }

  /** The path of element 2q or 2q+1: its sibling if it has one, then the path one level up. */
  ghost function PathHead<D>(hs: seq<D>, q: nat, odd: bool): seq<D>
    requires 2 * q < |hs|
  {
    if odd then [hs[2 * q]] else if 2 * q + 1 < |hs| then [hs[2 * q + 1]] else []
  }

  ghost function Index(q: nat, odd: bool): nat { if odd then 2 * q + 1 else 2 * q }

  lemma PathUnfold<D>(node: Combine<D>, m: nat, hs: seq<D>)
    requires m < |hs| && |hs| >= 2
    ensures var k := Split(|hs|);
            Path(node, m, hs) == if m < k then Path(node, m, hs[..k]) + [Root(node, hs[k..])]
                                 else Path(node, m - k, hs[k..]) + [Root(node, hs[..k])]
  {}

  lemma PathLevelSmall<D>(node: Combine<D>, q: nat, odd: bool, hs: seq<D>)
    requires Index(q, odd) < |hs| <= 2
    ensures Path(node, Index(q, odd), hs) == PathHead(hs, q, odd) + Path(node, q, Level(node, hs))
  {
    if |hs| == 2 { PathUnfold(node, Index(q, odd), hs); }
  }

  lemma {:induction false} PathLevel<D>(node: Combine<D>, q: nat, odd: bool, hs: seq<D>)
    requires Index(q, odd) < |hs|
    ensures Path(node, Index(q, odd), hs) == PathHead(hs, q, odd) + Path(node, q, Level(node, hs))
    decreases |hs|
  {
    hide Path, Root, Level, Split;
    if |hs| <= 2 {
      PathLevelSmall(node, q, odd, hs);
    } else {
      LevelSplit(node, hs);
      var up := Level(node, hs);
      var j := Split(|up|);
      RootLevel(node, hs[..2 * j]);
      RootLevel(node, hs[2 * j..]);
      PathUnfold(node, Index(q, odd), hs);
      PathUnfold(node, q, up);
      if q < j { PathLevel(node, q, odd, hs[..2 * j]); } else { PathLevel(node, q - j, odd, hs[2 * j..]); }
    }
  }

  // ---- The verifier against the tree ------------------------------------------------------------

  /** The two values the verifier combines when it holds r and reads p. */
  ghost function Ordered<D>(odd: bool, r: D, p: D): (D, D) { if odd then (p, r) else (r, p) }

  /** One level of the loop: wait when there is no sibling, else combine with the next element. */
  lemma ReplayUp<D>(node: Combine<D>, q: nat, odd: bool, n: nat, r: D, path: seq<D>)
    requires Index(q, odd) < n && n >= 2
    ensures 2 * q + 1 == n ==>
              && Replay(node, Index(q, odd), n - 1, r, path) == Replay(node, q, (n + 1) / 2 - 1, r, path)
              && ReplayPairs(node, Index(q, odd), n - 1, r, path) == ReplayPairs(node, q, (n + 1) / 2 - 1, r, path)
    ensures 2 * q + 1 < n && path != [] ==>
              var c := Ordered(odd, r, path[0]);
              && Replay(node, Index(q, odd), n - 1, r, path)
                 == Replay(node, q, (n + 1) / 2 - 1, node(c.0, c.1), path[1..])
              && ReplayPairs(node, Index(q, odd), n - 1, r, path)
                 == {c} + ReplayPairs(node, q, (n + 1) / 2 - 1, node(c.0, c.1), path[1..])
  {
    if 2 * q + 1 == n { ReplayStutter(node, 2 * q, r, path); }
  }

  lemma ReplaySingle<D>(node: Combine<D>, hs: seq<D>, r: D, path: seq<D>)
    requires |hs| == 1
    ensures Replay(node, 0, 0, r, path) == if path == [] then (true, Some(r)) else (false, None)
    ensures Root(node, hs) == hs[0] && Path(node, 0, hs) == []
  {}

  /** Above one element the loop has not finished, so an empty path is refused. */
  lemma ReplayEmpty<D>(node: Combine<D>, fn: nat, sn: nat, r: D)
    ensures Replay(node, fn, sn, r, []).0 <==> sn == 0
  {}

  lemma {:induction false} ReplayComplete<D>(node: Combine<D>, q: nat, odd: bool, hs: seq<D>)
    requires Index(q, odd) < |hs|
    ensures Replay(node, Index(q, odd), |hs| - 1, hs[Index(q, odd)], Path(node, Index(q, odd), hs))
            == (true, Some(Root(node, hs)))
    decreases |hs|
  {
    hide Path, Root, Level, Split, Replay, ReplayPairs, Pairs;
    if |hs| == 1 {
      ReplaySingle(node, hs, hs[0], []);
    } else {
      var up := Level(node, hs);
      var path := Path(node, Index(q, odd), hs);
      PathLevel(node, q, odd, hs);
      RootLevel(node, hs);
      LevelAt(node, hs, q);
      ReplayUp(node, q, odd, |hs|, hs[Index(q, odd)], path);
      ReplayComplete(node, q / 2, q % 2 == 1, up);
      assert Index(q / 2, q % 2 == 1) == q;
      if 2 * q + 1 < |hs| {
        assert path[1..] == Path(node, q, up);
      } else {
        assert path == Path(node, q, up);
      }
    }
  }

  lemma {:induction false} ReplayLength<D>(node: Combine<D>, q: nat, odd: bool, hs: seq<D>, r: D, path: seq<D>)
    requires Index(q, odd) < |hs|
    ensures Replay(node, Index(q, odd), |hs| - 1, r, path).0 <==> |path| == |Path(node, Index(q, odd), hs)|
    decreases |hs|
  {
    hide Path, Root, Level, Split, Replay, ReplayPairs, Pairs;
    if |hs| == 1 {
      ReplaySingle(node, hs, r, path);
    } else {
      PathLevel(node, q, odd, hs);
      ReplayUp(node, q, odd, |hs|, r, path);
      var up := Level(node, hs);
      if 2 * q + 1 == |hs| {
        ReplayLength(node, q / 2, q % 2 == 1, up, r, path);
      } else if path == [] {
        ReplayEmpty(node, Index(q, odd), |hs| - 1, r);
      } else {
        var c := Ordered(odd, r, path[0]);
        ReplayLength(node, q / 2, q % 2 == 1, up, node(c.0, c.1), path[1..]);
      }
    }
  }

  ghost predicate Unconfused<D>(node: Combine<D>, xs: set<(D, D)>, ys: set<(D, D)>) {
    forall x, y | x in xs && y in ys && node(x.0, x.1) == node(y.0, y.1) :: x == y
  }

  /** Where combining is injective between the two sets of pairs, only the honest path replays. */
  lemma {:induction false} ReplaySound<D>(node: Combine<D>, q: nat, odd: bool, hs: seq<D>, r: D, path: seq<D>)
    requires Index(q, odd) < |hs|
    requires Replay(node, Index(q, odd), |hs| - 1, r, path) == (true, Some(Root(node, hs)))
    requires Unconfused(node, ReplayPairs(node, Index(q, odd), |hs| - 1, r, path), Pairs(node, hs))
    ensures r == hs[Index(q, odd)] && path == Path(node, Index(q, odd), hs)
    decreases |hs|
  {
    hide Path, Root, Level, Split, Replay, ReplayPairs, Pairs;
    if |hs| == 1 {
      ReplaySingle(node, hs, r, path);
    } else {
      PathLevel(node, q, odd, hs);
      RootLevel(node, hs);
      PairsLevel(node, hs);
      LevelAt(node, hs, q);
      ReplayUp(node, q, odd, |hs|, r, path);
      var up := Level(node, hs);
      if 2 * q + 1 == |hs| {
        ReplaySound(node, q / 2, q % 2 == 1, up, r, path);
      } else {
        ReplayEmpty(node, Index(q, odd), |hs| - 1, r);
        ChildrenPaired(node, hs, q);
        var c := Ordered(odd, r, path[0]);
        ReplaySound(node, q / 2, q % 2 == 1, up, node(c.0, c.1), path[1..]);
        assert c == (hs[2 * q], hs[2 * q + 1]);
        assert path == [path[0]] + path[1..];
      }
    }
  }

  // ---- What a claimed index and size say about the path ---------------------------------------------

  /** The branches the loop takes: true where the value held is the right child. */
  function Sides(fn: nat, sn: nat): seq<bool>
    decreases sn
  {
    if sn == 0 then []
    else if fn % 2 == 1 || fn == sn then [true] + Sides(Strip(fn, sn).0 / 2, Strip(fn, sn).1 / 2)
    else [false] + Sides(fn / 2, sn / 2)
  }

  /** Combine upward along given branches. */
  ghost function Fold<D>(node: Combine<D>, sides: seq<bool>, r: D, path: seq<D>): (bool, Option<D>)
    decreases |path|
  {
    if path == [] then (sides == [], Some(r))
    else if sides == [] then (false, None)
    else var c := Ordered(sides[0], r, path[0]); Fold(node, sides[1..], node(c.0, c.1), path[1..])
  }

  ghost function FoldPairs<D>(node: Combine<D>, sides: seq<bool>, r: D, path: seq<D>): set<(D, D)>
    decreases |path|
  {
    if path == [] || sides == [] then {}
    else
      var c := Ordered(sides[0], r, path[0]);
      {c} + FoldPairs(node, sides[1..], node(c.0, c.1), path[1..])
  }

  /** The counters matter to the loop only through the branches they select. */
  lemma {:induction false} ReplayIsFold<D>(node: Combine<D>, fn: nat, sn: nat, r: D, path: seq<D>)
    ensures Replay(node, fn, sn, r, path) == Fold(node, Sides(fn, sn), r, path)
    ensures ReplayPairs(node, fn, sn, r, path) == FoldPairs(node, Sides(fn, sn), r, path)
    decreases |path|
  {
    if path != [] && sn > 0 {
      var right := fn % 2 == 1 || fn == sn;
      var c := Ordered(right, r, path[0]);
      var (fn', sn') := if right then (Strip(fn, sn).0 / 2, Strip(fn, sn).1 / 2) else (fn / 2, sn / 2);
      assert Sides(fn, sn) == [right] + Sides(fn', sn');
      assert Sides(fn, sn)[1..] == Sides(fn', sn');
      ReplayIsFold(node, fn', sn', node(c.0, c.1), path[1..]);
    }
  }

  /** Whether element m of n lies in the right half at each split above it, lowest split first. */
  function Turns(m: nat, n: nat): seq<bool>
    requires m < n
    decreases n
  {
    if n == 1 then []
    else
      var k := Split(n);
      if m < k then Turns(m, k) + [false] else Turns(m - k, n - k) + [true]
  }

  ghost function TurnHead(q: nat, odd: bool, n: nat): seq<bool> {
    if odd then [true] else if 2 * q + 1 < n then [false] else []
  }

  lemma TurnsUnfold(m: nat, n: nat)
    requires m < n && n >= 2
    ensures var k := Split(n);
            Turns(m, n) == if m < k then Turns(m, k) + [false] else Turns(m - k, n - k) + [true]
  {}

  lemma SplitLevel(n: nat)
    requires n >= 3
    ensures Split(n) == 2 * Split((n + 1) / 2)
  {}

  lemma TurnsLevelSmall(q: nat, odd: bool, n: nat)
    requires Index(q, odd) < n <= 2
    ensures Turns(Index(q, odd), n) == TurnHead(q, odd, n) + Turns(q, (n + 1) / 2)
  {}

  /** The turns of element 2q or 2q+1: its own, if it has a sibling, then those one level up. */
  lemma {:induction false} TurnsLevel(q: nat, odd: bool, n: nat)
    requires Index(q, odd) < n
    ensures Turns(Index(q, odd), n) == TurnHead(q, odd, n) + Turns(q, (n + 1) / 2)
    decreases n
  {
    hide Turns, Split;
    if n <= 2 {
      TurnsLevelSmall(q, odd, n);
    } else {
      SplitLevel(n);
      var j := Split((n + 1) / 2);
      TurnsUnfold(Index(q, odd), n);
      TurnsUnfold(q, (n + 1) / 2);
      if q < j {
        TurnsLevel(q, odd, 2 * j);
        assert TurnHead(q, odd, 2 * j) == TurnHead(q, odd, n);
      } else {
        TurnsLevel(q - j, odd, n - 2 * j);
      }
    }
  }

  /** One level of the branches. */
  lemma SidesLevel(q: nat, odd: bool, n: nat)
    requires Index(q, odd) < n && n >= 2
    ensures Sides(Index(q, odd), n - 1) == TurnHead(q, odd, n) + Sides(q, (n + 1) / 2 - 1)
  {
    if !odd && 2 * q + 1 == n { assert Strip(2 * q, 2 * q) == Strip(q, q) && q > 0; }
  }

  /** The shifting loop takes the branches of the recursive splits. */
  lemma {:induction false} SidesAreTurns(q: nat, odd: bool, n: nat)
    requires Index(q, odd) < n
    ensures Sides(Index(q, odd), n - 1) == Turns(Index(q, odd), n)
    decreases n
  {
    if n > 1 {
      TurnsLevel(q, odd, n);
      SidesLevel(q, odd, n);
      SidesAreTurns(q / 2, q % 2 == 1, (n + 1) / 2);
      assert Index(q / 2, q % 2 == 1) == q;
    }
  }

  lemma SidesTurn(m: nat, n: nat)
    requires m < n
    ensures Sides(m, n - 1) == Turns(m, n)
  {
    SidesAreTurns(m / 2, m % 2 == 1, n);
    assert Index(m / 2, m % 2 == 1) == m;
  }

  lemma {:induction false} TurnsInjective(i: nat, j: nat, n: nat)
    requires i < n && j < n && Turns(i, n) == Turns(j, n)
    ensures i == j
    decreases n
  {
    if n > 1 {
      var k := Split(n);
      var s, t := Turns(i, n), Turns(j, n);
      assert s[|s| - 1] == (i >= k) && t[|t| - 1] == (j >= k);
      if i < k {
        assert s[..|s| - 1] == Turns(i, k) && t[..|t| - 1] == Turns(j, k);
        TurnsInjective(i, j, k);
      } else {
        assert s[..|s| - 1] == Turns(i - k, n - k) && t[..|t| - 1] == Turns(j - k, n - k);
        TurnsInjective(i - k, j - k, n - k);
      }
    }
  }

  /** The w elements from lo on are reached from the top of n elements by the given turns. */
  ghost predicate Located(n: nat, lo: nat, w: nat, turns: seq<bool>) {
    lo + w <= n && forall p: nat :: lo <= p < lo + w ==> Turns(p, n) == Turns(p - lo, w) + turns
  }

  lemma LocatedTop(n: nat)
    ensures Located(n, 0, n, [])
  {
    forall p: nat | p < n ensures Turns(p, n) == Turns(p - 0, n) + [] {}
  }

  lemma LocatedHalf(n: nat, lo: nat, w: nat, turns: seq<bool>, right: bool)
    requires Located(n, lo, w, turns) && w >= 2
    ensures var k := Split(w);
            if right then Located(n, lo + k, w - k, [right] + turns) else Located(n, lo, k, [right] + turns)
  {
    hide Turns, Split;
    var k := Split(w);
    var (at, size) := if right then (lo + k, w - k) else (lo, k);
    forall p: nat | at <= p < at + size ensures Turns(p, n) == Turns(p - at, size) + ([right] + turns) {
      TurnsUnfold(p - lo, w);
      assert Turns(p, n) == Turns(p - lo, w) + turns;
    }
  }
}
