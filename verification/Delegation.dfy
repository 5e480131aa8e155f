/** Multi-hop delegation: the leaf-to-root walk against the existence of an authority chain. */
module Delegation {
  import opened Octets

  datatype Grant = Grant(issuer: string, subject: string, effectCap: int, maxDepth: int,
                         notBefore: int, notAfter: int, scope: string, causes: seq<nat>)

  datatype Action = Action(signer: string, effect: int, scope: string, causes: seq<nat>)

  /** Everything a verification is judged against; `causes` are indices into `grants`. */
  datatype Setting = Setting(grants: seq<Grant>, anchors: set<string>, revoked: map<nat, int>, now: int)

  datatype Verdict =
    | Authorized | EffectNotAuthorized | ChainBroken | GrantNotYetValid | GrantExpired | GrantRevoked
    | CapExceedsParent | DelegationDepthExceeded | UntrustedChainRoot

  predicate InRange(s: Setting, causes: seq<nat>) { forall q :: 0 <= q < |causes| ==> causes[q] < |s.grants| }

  predicate Wired(s: Setting) { forall i :: 0 <= i < |s.grants| ==> InRange(s, s.grants[i].causes) }

  // ---- Scopes ------------------------------------------------------------------------------------

  /** "" is unconstrained; otherwise equal, or below on a "/" boundary. */
  predicate ScopeContained(child: string, parent: string) {
    parent == "" || (child != "" && (child == parent || parent + "/" <= child))
  }

  /** The boundary: a child is the parent itself or continues it with a "/". */
  lemma ScopeBoundary(child: string, parent: string)
    ensures ScopeContained(child, parent) <==>
            || |parent| == 0 || child == parent
            || (|child| > |parent| && child[..|parent|] == parent && child[|parent|] == '/')
  {
    if |child| > |parent| && child[..|parent|] == parent && child[|parent|] == '/' {
      assert child[..|parent| + 1] == parent + "/";
    }
    if parent + "/" <= child { assert child[..|parent|] == parent && child[|parent|] == (parent + "/")[|parent|]; }
  }

  /** The source's own table: a name that merely starts alike is not contained, nor is no scope in one. */
  lemma ScopeTable()
    ensures ScopeContained("billing/reports", "billing") && ScopeContained("billing/a/b", "billing/a")
    ensures ScopeContained("billing", "billing") && ScopeContained("billing", "") && ScopeContained("", "")
    ensures !ScopeContained("billingreports", "billing") && !ScopeContained("other", "billing")
    ensures !ScopeContained("", "billing")
  {
    var below, deeper := "billing/reports", "billing/a/b";
    assert below[..7] == "billing" && below[7] == '/' && deeper[..9] == "billing/a" && deeper[9] == '/';
    ScopeBoundary(below, "billing");
    ScopeBoundary(deeper, "billing/a");
    ScopeBoundary("billingreports", "billing");
    assert "billingreports"[7] == 'r';
    ScopeBoundary("other", "billing");
  }

  /** Containment is a partial order with "" on top. */
  lemma ScopeOrder(a: string, b: string, c: string)
    ensures ScopeContained(a, a) && ScopeContained(a, "")
    ensures ScopeContained(a, b) && ScopeContained(b, a) ==> a == b
    ensures ScopeContained(a, b) && ScopeContained(b, c) ==> ScopeContained(a, c)
    ensures ScopeContained("", a) ==> a == ""
  {
    if ScopeContained(a, b) && ScopeContained(b, c) && c != "" && a != b && b != c {
      assert c + "/" <= b && b <= b + "/" <= a;
      assert c + "/" == b[..|c| + 1] == a[..|c| + 1];
    }
  }

  // ---- Resolution of causes -------------------------------------------------------------------------

  /** The causes whose grant names `who` as subject, repeats included. */
  function Candidates(s: Setting, causes: seq<nat>, who: string): (r: seq<nat>)
    requires InRange(s, causes)
    ensures InRange(s, r)
  {
    if causes == [] then []
    else
      (if s.grants[causes[0]].subject == who then [causes[0]] else []) + Candidates(s, causes[1..], who)
  }

  ghost predicate Absent(s: Setting, causes: seq<nat>, who: string)
    requires InRange(s, causes)
  {
    forall q :: 0 <= q < |causes| ==> s.grants[causes[q]].subject != who
  }

  /** Exactly one position among the causes holds a grant to `who`, and it is grant j. */
  ghost predicate Sole(s: Setting, causes: seq<nat>, who: string, j: nat)
    requires InRange(s, causes)
  {
    exists p :: 0 <= p < |causes| && causes[p] == j && s.grants[j].subject == who
             && forall q :: 0 <= q < |causes| && q != p ==> s.grants[causes[q]].subject != who
  }

  lemma {:induction false} CandidatesMeaning(s: Setting, causes: seq<nat>, who: string)
    requires InRange(s, causes)
    ensures Candidates(s, causes, who) == [] <==> Absent(s, causes, who)
    ensures forall j: nat :: Candidates(s, causes, who) == [j] <==> Sole(s, causes, who, j)
  {
    if causes != [] {
      var first, rest := causes[0], causes[1..];
      CandidatesMeaning(s, rest, who);
      assert causes == [first] + rest;
      var mine := s.grants[first].subject == who;
      forall j: nat ensures Candidates(s, causes, who) == [j] <==> Sole(s, causes, who, j) {
        if mine {
          assert Sole(s, causes, who, j) <==> first == j && Absent(s, rest, who) by { SoleHere(s, causes, who, j); }
          assert Candidates(s, causes, who) == [first] + Candidates(s, rest, who);
          assert Candidates(s, causes, who)[0] == first;
          if Candidates(s, rest, who) == [] {
            assert Candidates(s, causes, who) == [first];
          } else {
            assert |Candidates(s, causes, who)| > 1;
          }
        } else {
          assert Sole(s, causes, who, j) <==> Sole(s, rest, who, j) by { SoleLater(s, causes, who, j); }
          assert Candidates(s, causes, who) == Candidates(s, rest, who);
        }
      }
    }
  }

  lemma SoleHere(s: Setting, causes: seq<nat>, who: string, j: nat)
    requires InRange(s, causes) && causes != [] && s.grants[causes[0]].subject == who
    ensures Sole(s, causes, who, j) <==> causes[0] == j && Absent(s, causes[1..], who)
  {
    if causes[0] == j && Absent(s, causes[1..], who) {
      forall q | 0 <= q < |causes| && q != 0 ensures s.grants[causes[q]].subject != who {
        assert causes[q] == causes[1..][q - 1];
      }
    }
  }

  lemma SoleLater(s: Setting, causes: seq<nat>, who: string, j: nat)
    requires InRange(s, causes) && causes != [] && s.grants[causes[0]].subject != who
    ensures Sole(s, causes, who, j) <==> Sole(s, causes[1..], who, j)
  {
    var rest := causes[1..];
    assert forall q :: 0 <= q < |rest| ==> rest[q] == causes[q + 1];
    if Sole(s, causes, who, j) {
      var p :| 0 <= p < |causes| && causes[p] == j && s.grants[j].subject == who
            && forall q :: 0 <= q < |causes| && q != p ==> s.grants[causes[q]].subject != who;
      assert rest[p - 1] == j;
    }
    if Sole(s, rest, who, j) {
      var p :| 0 <= p < |rest| && rest[p] == j && s.grants[j].subject == who
            && forall q :: 0 <= q < |rest| && q != p ==> s.grants[rest[q]].subject != who;
      assert causes[p + 1] == j;
      forall q | 0 <= q < |causes| && q != p + 1 ensures s.grants[causes[q]].subject != who {
        if q > 0 { assert rest[q - 1] == causes[q]; }
      }
    }
  }

  // ---- The walk ------------------------------------------------------------------------------------------

  predicate Revoked(s: Setting, gi: nat) { gi in s.revoked && s.revoked[gi] <= s.now }

  /** Steps 4 to 6: window, revocation and attenuation of what sits beneath the grant. */
  function CheckGrant(s: Setting, gi: nat, effect: int, scope: string): Option<Verdict>
    requires gi < |s.grants|
  {
    var g := s.grants[gi];
    if s.now < g.notBefore then Some(GrantNotYetValid)
    else if s.now > g.notAfter then Some(GrantExpired)
    else if Revoked(s, gi) then Some(GrantRevoked)
    else if effect > g.effectCap || !ScopeContained(scope, g.scope) then Some(CapExceedsParent)
    else None
  }

  /** The walk from grant gi upward, with both defensive guards. */
  function Walk(s: Setting, gi: nat, effect: int, scope: string, pos: nat, visited: set<nat>): Verdict
    requires Wired(s) && gi < |s.grants|
    decreases Upto(|s.grants|) - visited
  {
    if gi in visited then ChainBroken
    else
      var g := s.grants[gi];
      var check := CheckGrant(s, gi, effect, scope);
      if check.Some? then check.value
      else if pos > g.maxDepth then DelegationDepthExceeded
      else
        var parents := Candidates(s, g.causes, g.issuer);
        if |parents| > 1 then ChainBroken
        else if |parents| == 0 then if g.issuer in s.anchors then Authorized else UntrustedChainRoot
        else
          var p := s.grants[parents[0]];
          if p.maxDepth == 0 || g.maxDepth >= p.maxDepth then DelegationDepthExceeded
          else
            Walk(s, parents[0], g.effectCap, g.scope, pos + 1, visited + {gi})
  }

  function Verify(s: Setting, a: Action): Verdict
    requires Wired(s) && InRange(s, a.causes)
  {
    var leaves := Candidates(s, a.causes, a.signer);
    if |leaves| == 0 then EffectNotAuthorized
    else if |leaves| > 1 then ChainBroken
    else
      Walk(s, leaves[0], a.effect, a.scope, 0, {})
  }

  method VerifyChain(s: Setting, a: Action) returns (v: Verdict)
    requires Wired(s) && InRange(s, a.causes)
    ensures v == Verify(s, a)
  {
    hide Candidates, ScopeContained;
    var leaves := Candidates(s, a.causes, a.signer);
    if |leaves| == 0 { return EffectNotAuthorized; }
    if |leaves| > 1 { return ChainBroken; }
    var gi: nat, effect, scope, pos: nat := leaves[0], a.effect, a.scope, 0;
    var visited: set<nat> := {};
    while true
      invariant gi < |s.grants|
      invariant Verify(s, a) == Walk(s, gi, effect, scope, pos, visited)
      decreases Upto(|s.grants|) - visited
    {
      if gi in visited { return ChainBroken; }
      ghost var before := visited;
      visited := visited + {gi};
      var g := s.grants[gi];
      var check := CheckGrant(s, gi, effect, scope);
      if check.Some? { return check.value; }
      if pos > g.maxDepth { return DelegationDepthExceeded; }
      var parents := Candidates(s, g.causes, g.issuer);
      if |parents| > 1 { return ChainBroken; }
      if |parents| == 0 { return if g.issuer in s.anchors then Authorized else UntrustedChainRoot; }
      var p := s.grants[parents[0]];
      if p.maxDepth == 0 || g.maxDepth >= p.maxDepth { return DelegationDepthExceeded; }
      effect, scope, pos, gi := g.effectCap, g.scope, pos + 1, parents[0];
    }
  }

  // ---- The guards are dead ----------------------------------------------------------------------------------

  /** Grants that declare more depth than gi: what shrinks at every hop. */
  ghost function Deeper(s: Setting, gi: nat): set<nat>
    requires gi < |s.grants|
  {
    set j | j in Upto(|s.grants|) && s.grants[j].maxDepth > s.grants[gi].maxDepth
  }

  /** The walk without a visited set, without a hop count and without the zero-depth test: of the
      depth rules only the comparison of the two declared depths is left. */
  ghost function Climb(s: Setting, gi: nat, effect: int, scope: string): Verdict
    requires Wired(s) && gi < |s.grants|
    decreases Deeper(s, gi)
  {
    var g := s.grants[gi];
    var check := CheckGrant(s, gi, effect, scope);
    if check.Some? then check.value
    else
      var parents := Candidates(s, g.causes, g.issuer);
      if |parents| > 1 then ChainBroken
      else if |parents| == 0 then if g.issuer in s.anchors then Authorized else UntrustedChainRoot
      else
        var p := s.grants[parents[0]];
        if g.maxDepth >= p.maxDepth then DelegationDepthExceeded
        else
          assert parents[0] in Deeper(s, gi) && parents[0] !in Deeper(s, parents[0]);
          Climb(s, parents[0], g.effectCap, g.scope)
  }

  /** The visited grants all declare less depth than gi, and the hops made so far fit its depth. */
  ghost predicate Descended(s: Setting, gi: nat, pos: nat, visited: set<nat>)
    requires gi < |s.grants|
  {
    && pos <= s.grants[gi].maxDepth
    && forall v :: v in visited ==> v < |s.grants| && s.grants[v].maxDepth < s.grants[gi].maxDepth
  }

  ghost function Up(s: Setting, gi: nat): (up: nat)
    requires Wired(s) && gi < |s.grants| && |Candidates(s, s.grants[gi].causes, s.grants[gi].issuer)| == 1
    ensures up < |s.grants|
  {
    var parents := Candidates(s, s.grants[gi].causes, s.grants[gi].issuer);
    parents[0]
  }

  lemma UpIsDeeper(s: Setting, gi: nat, pos: nat, visited: set<nat>)
    requires Wired(s) && gi < |s.grants| && |Candidates(s, s.grants[gi].causes, s.grants[gi].issuer)| == 1
    requires s.grants[gi].maxDepth < s.grants[Up(s, gi)].maxDepth
    ensures Deeper(s, Up(s, gi)) < Deeper(s, gi)
    ensures Descended(s, gi, pos, visited) ==> Descended(s, Up(s, gi), pos + 1, visited + {gi})
  {
    var up := Up(s, gi);
    assert up in Deeper(s, gi) && up !in Deeper(s, up);
  }

  lemma {:induction false} WalkIsClimb(s: Setting, gi: nat, effect: int, scope: string, pos: nat, visited: set<nat>)
    requires Wired(s) && gi < |s.grants| && Descended(s, gi, pos, visited)
    ensures Walk(s, gi, effect, scope, pos, visited) == Climb(s, gi, effect, scope)
    decreases Deeper(s, gi)
  {
    hide Candidates, ScopeContained, CheckGrant, Deeper;
    var g := s.grants[gi];
    var parents := Candidates(s, g.causes, g.issuer);
    if |parents| == 1 && g.maxDepth < s.grants[Up(s, gi)].maxDepth {
      var up := Up(s, gi);
      UpIsDeeper(s, gi, pos, visited);
      WalkIsClimb(s, up, g.effectCap, g.scope, pos + 1, visited + {gi});
    }
  }

  /** On every grant graph, cyclic ones included, the declared-depth test alone decides: the
      verdict is that of the walk with no cycle guard, no hop count and no zero-depth test, save
      that a leaf that declares a negative depth and has no other fault is refused for its depth. */
  lemma GuardsNeverFire(s: Setting, a: Action)
    requires Wired(s) && InRange(s, a.causes)
    ensures var leaves := Candidates(s, a.causes, a.signer);
            |leaves| == 1 ==>
              Verify(s, a) ==
              if s.grants[leaves[0]].maxDepth < 0 && CheckGrant(s, leaves[0], a.effect, a.scope).None?
              then DelegationDepthExceeded
              else Climb(s, leaves[0], a.effect, a.scope)
  {
    hide Candidates, ScopeContained, CheckGrant;
    var leaves := Candidates(s, a.causes, a.signer);
    if |leaves| == 1 && s.grants[leaves[0]].maxDepth >= 0 {
      WalkIsClimb(s, leaves[0], a.effect, a.scope, 0, {});
    }
  }

  /** The one guard that can decide: a root grant of depth -1 to the actor is refused for its depth,
      and would authorise the action if it declared depth 0. */
  lemma NegativeLeafRefused(depth: int)
    requires depth <= 0
    ensures var g := Grant("root", "actor", 1, depth, 0, 9, "", []);
            var s := Setting([g], {"root"}, map[], 5);
            Verify(s, Action("actor", 1, "", [0])) == if depth < 0 then DelegationDepthExceeded else Authorized
  {
    var g := Grant("root", "actor", 1, depth, 0, 9, "", []);
    var s := Setting([g], {"root"}, map[], 5);
    assert [0][1..] == [];
    assert Candidates(s, [0], "actor") == [0] + Candidates(s, [], "actor");
  }

  // ---- Authority chains ------------------------------------------------------------------------------------------

  /** In its window and unrevoked. */
  ghost predicate Live(s: Setting, gi: nat)
    requires gi < |s.grants|
  {
    && s.grants[gi].notBefore <= s.now <= s.grants[gi].notAfter
    && (gi in s.revoked ==> s.now < s.revoked[gi])
  }

  ghost predicate Root(s: Setting, gi: nat)
    requires Wired(s) && gi < |s.grants|
  {
    Absent(s, s.grants[gi].causes, s.grants[gi].issuer) && s.grants[gi].issuer in s.anchors
  }

  /** child is granted by the subject of parent, and exceeds it in nothing. */
  ghost predicate Delegated(s: Setting, child: nat, parent: nat)
    requires Wired(s) && child < |s.grants| && parent < |s.grants|
  {
    var g, p := s.grants[child], s.grants[parent];
    && Sole(s, g.causes, g.issuer, parent)
    && g.effectCap <= p.effectCap && ScopeContained(g.scope, p.scope) && g.maxDepth < p.maxDepth
  }

  ghost predicate InGraph(s: Setting, chain: seq<nat>) { forall i :: 0 <= i < |chain| ==> chain[i] < |s.grants| }

  /** A leaf-to-root chain that authorises the action: every grant live, each delegated by the
      next, the last issued by an anchor, and the action within the first. */
  ghost predicate AuthorityChain(s: Setting, a: Action, chain: seq<nat>)
    requires Wired(s) && InRange(s, a.causes)
  {
    && chain != [] && InGraph(s, chain)
    && Sole(s, a.causes, a.signer, chain[0])
    && a.effect <= s.grants[chain[0]].effectCap && ScopeContained(a.scope, s.grants[chain[0]].scope)
    && s.grants[chain[0]].maxDepth >= 0
    && (forall i :: 0 <= i < |chain| ==> Live(s, chain[i]))
    && (forall i :: 0 <= i < |chain| - 1 ==> Delegated(s, chain[i], chain[i + 1]))
    && Root(s, chain[|chain| - 1])
  }

  /** The part of a chain from gi upward, step by step. */
  ghost predicate Upward(s: Setting, chain: seq<nat>, effect: int, scope: string)
    requires Wired(s)
    decreases |chain|
  {
    && chain != [] && chain[0] < |s.grants| && Live(s, chain[0])
    && effect <= s.grants[chain[0]].effectCap && ScopeContained(scope, s.grants[chain[0]].scope)
    && if |chain| == 1 then Root(s, chain[0])
       else
         && chain[1] < |s.grants|
         && Sole(s, s.grants[chain[0]].causes, s.grants[chain[0]].issuer, chain[1])
         && s.grants[chain[0]].maxDepth < s.grants[chain[1]].maxDepth
         && Upward(s, chain[1..], s.grants[chain[0]].effectCap, s.grants[chain[0]].scope)
  }

  lemma {:induction false} UpwardMeaning(s: Setting, chain: seq<nat>, effect: int, scope: string)
    requires Wired(s) && chain != []
    ensures Upward(s, chain, effect, scope) <==>
            && InGraph(s, chain)
            && effect <= s.grants[chain[0]].effectCap && ScopeContained(scope, s.grants[chain[0]].scope)
            && (forall i :: 0 <= i < |chain| ==> Live(s, chain[i]))
            && (forall i :: 0 <= i < |chain| - 1 ==> Delegated(s, chain[i], chain[i + 1]))
            && Root(s, chain[|chain| - 1])
    decreases |chain|
  {
    hide Live, Root, Sole, ScopeContained;
    if |chain| > 1 && chain[0] < |s.grants| {
      var rest := chain[1..];
      UpwardMeaning(s, rest, s.grants[chain[0]].effectCap, s.grants[chain[0]].scope);
      assert forall i :: 0 < i < |chain| ==> chain[i] == rest[i - 1];
      assert InGraph(s, chain) <==> InGraph(s, rest);
      if InGraph(s, chain) { ShiftedChain(s, chain); }
    }
  }

  lemma ShiftedChain(s: Setting, chain: seq<nat>)
    requires Wired(s) && |chain| > 1 && InGraph(s, chain) && InGraph(s, chain[1..])
    ensures (forall i :: 0 <= i < |chain| ==> Live(s, chain[i]))
            <==> Live(s, chain[0]) && forall i :: 0 <= i < |chain[1..]| ==> Live(s, chain[1..][i])
    ensures (forall i :: 0 <= i < |chain| - 1 ==> Delegated(s, chain[i], chain[i + 1]))
            <==> Delegated(s, chain[0], chain[1])
                 && forall i :: 0 <= i < |chain[1..]| - 1 ==> Delegated(s, chain[1..][i], chain[1..][i + 1])
  {
    hide Live, Delegated;
    var rest := chain[1..];
    assert forall i :: 0 < i < |chain| ==> chain[i] == rest[i - 1];
    if Live(s, chain[0]) && forall i :: 0 <= i < |rest| ==> Live(s, rest[i]) {
      forall i | 0 <= i < |chain| ensures Live(s, chain[i]) { if i > 0 { assert Live(s, rest[i - 1]); } }
    }
    if forall i :: 0 <= i < |chain| ==> Live(s, chain[i]) {
      forall i | 0 <= i < |rest| ensures Live(s, rest[i]) { assert Live(s, chain[i + 1]); }
    }
    if Delegated(s, chain[0], chain[1]) && forall i :: 0 <= i < |rest| - 1 ==> Delegated(s, rest[i], rest[i + 1]) {
      forall i | 0 <= i < |chain| - 1 ensures Delegated(s, chain[i], chain[i + 1]) {
        if i > 0 { assert Delegated(s, rest[i - 1], rest[i]); }
      }
    }
    if forall i :: 0 <= i < |chain| - 1 ==> Delegated(s, chain[i], chain[i + 1]) {
      forall i | 0 <= i < |rest| - 1 ensures Delegated(s, rest[i], rest[i + 1]) {
        assert Delegated(s, chain[i + 1], chain[i + 2]);
      }
    }
  }

  lemma {:induction false} ClimbFindsChain(s: Setting, gi: nat, effect: int, scope: string) returns (chain: seq<nat>)
    requires Wired(s) && gi < |s.grants| && Climb(s, gi, effect, scope) == Authorized
    ensures Upward(s, chain, effect, scope) && chain[0] == gi && CheckGrant(s, gi, effect, scope).None?
    decreases Deeper(s, gi)
  {
    hide Candidates, ScopeContained, Sole, Absent;
    var g := s.grants[gi];
    CandidatesMeaning(s, g.causes, g.issuer);
    var parents := Candidates(s, g.causes, g.issuer);
    if parents == [] {
      chain := [gi];
    } else {
      var up := Up(s, gi);
      assert parents == [up];
      assert up in Deeper(s, gi) && up !in Deeper(s, up);
      var rest := ClimbFindsChain(s, up, g.effectCap, g.scope);
      chain := [gi] + rest;
      assert chain[1..] == rest;
    }
  }

  lemma {:induction false} ChainClimbs(s: Setting, chain: seq<nat>, effect: int, scope: string)
    requires Wired(s) && Upward(s, chain, effect, scope)
    ensures Climb(s, chain[0], effect, scope) == Authorized
    decreases |chain|
  {
    hide Candidates, ScopeContained, Sole, Absent;
    var g := s.grants[chain[0]];
    CandidatesMeaning(s, g.causes, g.issuer);
    if |chain| > 1 {
      ChainClimbs(s, chain[1..], g.effectCap, g.scope);
      assert Candidates(s, g.causes, g.issuer) == [chain[1]];
    }
  }

  // ---- Main theorems --------------------------------------------------------------------------------------------

  /** Authorized exactly when an authority chain exists. */
  lemma AuthorizedIffChain(s: Setting, a: Action)
    requires Wired(s) && InRange(s, a.causes)
    ensures Verify(s, a) == Authorized <==> exists chain :: AuthorityChain(s, a, chain)
  {
    hide Climb, Walk, Upward, Candidates, Sole, Live, Delegated, Root, ScopeContained;
    CandidatesMeaning(s, a.causes, a.signer);
    GuardsNeverFire(s, a);
    var leaves := Candidates(s, a.causes, a.signer);
    if Verify(s, a) == Authorized {
      assert leaves == [leaves[0]];
      var chain := ClimbFindsChain(s, leaves[0], a.effect, a.scope);
      UpwardNonEmpty(s, chain, a.effect, a.scope);
      UpwardMeaning(s, chain, a.effect, a.scope);
      assert AuthorityChain(s, a, chain);
    }
    if chain :| AuthorityChain(s, a, chain) {
      assert leaves == [chain[0]];
      UpwardMeaning(s, chain, a.effect, a.scope);
      ChainClimbs(s, chain, a.effect, a.scope);
    }
  }

  lemma UpwardNonEmpty(s: Setting, chain: seq<nat>, effect: int, scope: string)
    requires Wired(s) && Upward(s, chain, effect, scope)
    ensures chain != []
  {}

  lemma SoleUnique(s: Setting, causes: seq<nat>, who: string, j: nat, k: nat)
    requires InRange(s, causes) && Sole(s, causes, who, j) && Sole(s, causes, who, k)
    ensures j == k
  {}

  lemma RootHasNoParent(s: Setting, gi: nat, p: nat)
    requires Wired(s) && gi < |s.grants| && p < |s.grants| && Root(s, gi)
    ensures !Delegated(s, gi, p)
  {}

  lemma {:induction false} ChainsAgreeAt(s: Setting, a: Action, c: seq<nat>, d: seq<nat>, i: nat)
    requires Wired(s) && InRange(s, a.causes) && AuthorityChain(s, a, c) && AuthorityChain(s, a, d)
    requires i < |c| && i < |d|
    ensures c[i] == d[i]
  {
    hide Sole, Live, Root, ScopeContained;
    if i == 0 {
      SoleUnique(s, a.causes, a.signer, c[0], d[0]);
    } else {
      ChainsAgreeAt(s, a, c, d, i - 1);
      assert Delegated(s, c[i - 1], c[i]) && Delegated(s, d[i - 1], d[i]);
      var g := s.grants[c[i - 1]];
      SoleUnique(s, g.causes, g.issuer, c[i], d[i]);
    }
  }

  lemma ChainNotLonger(s: Setting, a: Action, c: seq<nat>, d: seq<nat>)
    requires Wired(s) && InRange(s, a.causes) && AuthorityChain(s, a, c) && AuthorityChain(s, a, d)
    ensures |d| <= |c|
  {
    hide Sole, Live, Root, ScopeContained, Delegated;
    var n := |c|;
    if n < |d| {
      ChainsAgreeAt(s, a, c, d, n - 1);
      RootHasNoParent(s, c[n - 1], d[n]);
    }
  }

  /** There is at most one authority chain. */
  lemma ChainUnique(s: Setting, a: Action, c: seq<nat>, d: seq<nat>)
    requires Wired(s) && InRange(s, a.causes) && AuthorityChain(s, a, c) && AuthorityChain(s, a, d)
    ensures c == d
  {
    hide AuthorityChain;
    ChainNotLonger(s, a, c, d);
    ChainNotLonger(s, a, d, c);
    forall i | 0 <= i < |c| ensures c[i] == d[i] { ChainsAgreeAt(s, a, c, d, i); }
  }

  lemma {:induction false} Attenuates(s: Setting, a: Action, chain: seq<nat>, i: nat, j: nat)
    requires Wired(s) && InRange(s, a.causes) && AuthorityChain(s, a, chain)
    requires i <= j < |chain|
    ensures s.grants[chain[i]].effectCap <= s.grants[chain[j]].effectCap
    ensures ScopeContained(s.grants[chain[i]].scope, s.grants[chain[j]].scope)
    ensures s.grants[chain[j]].maxDepth >= s.grants[chain[i]].maxDepth + (j - i)
    decreases j - i
  {
    hide Sole, Live, Root, ScopeContained;
    var mine := s.grants[chain[i]].scope;
    ScopeOrder(mine, "", "");
    if i < j {
      Attenuates(s, a, chain, i, j - 1);
      assert Delegated(s, chain[j - 1], chain[j]);
      ScopeOrder(mine, s.grants[chain[j - 1]].scope, s.grants[chain[j]].scope);
    }
  }

  /** No grant in a chain, and not the action, exceeds any ancestor in effect or in scope. */
  lemma NoAmplification(s: Setting, a: Action, chain: seq<nat>, i: nat, j: nat)
    requires Wired(s) && InRange(s, a.causes) && AuthorityChain(s, a, chain)
    requires i <= j < |chain|
    ensures s.grants[chain[i]].effectCap <= s.grants[chain[j]].effectCap
    ensures ScopeContained(s.grants[chain[i]].scope, s.grants[chain[j]].scope)
    ensures a.effect <= s.grants[chain[j]].effectCap && ScopeContained(a.scope, s.grants[chain[j]].scope)
    ensures s.grants[chain[j]].maxDepth >= j
  {
    hide Sole, Live, Root, ScopeContained, Delegated;
    Attenuates(s, a, chain, i, j);
    Attenuates(s, a, chain, 0, j);
    ScopeOrder(a.scope, s.grants[chain[0]].scope, s.grants[chain[j]].scope);
  }

  /** A chain has at most one grant more than the root's declared depth. */
  lemma ChainLength(s: Setting, a: Action, chain: seq<nat>)
    requires Wired(s) && InRange(s, a.causes) && AuthorityChain(s, a, chain)
    ensures |chain| <= s.grants[chain[|chain| - 1]].maxDepth + 1
  {
    NoAmplification(s, a, chain, 0, |chain| - 1);
  }

  /** Authority is monotone: a lower effect, a contained scope, more anchors and fewer revocations
      in force keep an authorised action authorised. */
  lemma AuthorityMonotone(s: Setting, a: Action, s': Setting, a': Action)
    requires Wired(s) && InRange(s, a.causes) && Verify(s, a) == Authorized
    requires s'.grants == s.grants && s'.now == s.now && s.anchors <= s'.anchors
    requires forall gi: nat :: Revoked(s', gi) ==> Revoked(s, gi)
    requires a'.signer == a.signer && a'.causes == a.causes
    requires a'.effect <= a.effect && ScopeContained(a'.scope, a.scope)
    ensures Verify(s', a') == Authorized
  {
    hide Verify;
    AuthorizedIffChain(s, a);
    AuthorizedIffChain(s', a');
    var chain :| AuthorityChain(s, a, chain);
    ScopeOrder(a'.scope, a.scope, s.grants[chain[0]].scope);
    SameStructure(s, a, s', a', chain);
  }

  lemma SameStructure(s: Setting, a: Action, s': Setting, a': Action, chain: seq<nat>)
    requires Wired(s) && InRange(s, a.causes) && AuthorityChain(s, a, chain)
    requires s'.grants == s.grants && s'.now == s.now && s.anchors <= s'.anchors
    requires forall gi: nat :: Revoked(s', gi) ==> Revoked(s, gi)
    requires a'.signer == a.signer && a'.causes == a.causes
    requires a'.effect <= s.grants[chain[0]].effectCap && ScopeContained(a'.scope, s.grants[chain[0]].scope)
    ensures AuthorityChain(s', a', chain)
  {
    hide ScopeContained;
    assert Sole(s', a'.causes, a'.signer, chain[0]);
    forall i | 0 <= i < |chain| ensures Live(s', chain[i]) {
      assert Live(s, chain[i]) && !Revoked(s', chain[i]);
    }
    forall i | 0 <= i < |chain| - 1 ensures Delegated(s', chain[i], chain[i + 1]) {
      assert Delegated(s, chain[i], chain[i + 1]);
    }
  }

  // ---- Verdicts -----------------------------------------------------------------------------------------------------

  /** Two positions among the causes hold a grant to `who`. */
  ghost predicate Ambiguous(s: Setting, causes: seq<nat>, who: string)
    requires InRange(s, causes)
  {
    exists p, q :: 0 <= p < q < |causes| && s.grants[causes[p]].subject == who && s.grants[causes[q]].subject == who
  }

  lemma AmbiguousMeaning(s: Setting, causes: seq<nat>, who: string)
    requires InRange(s, causes)
    ensures |Candidates(s, causes, who)| > 1 <==> Ambiguous(s, causes, who)
  {
    CandidatesMeaning(s, causes, who);
    hide Candidates;
    var found := Candidates(s, causes, who);
    if |found| == 1 { assert found == [found[0]]; }
    if |found| > 1 {
      var p :| 0 <= p < |causes| && s.grants[causes[p]].subject == who;
      assert !Sole(s, causes, who, causes[p]);
      var q :| 0 <= q < |causes| && q != p && s.grants[causes[q]].subject == who;
      assert p < q || q < p;
    }
  }

  /** A chain of uniquely resolved grants from the action upward, checked or not. */
  ghost predicate Reached(s: Setting, a: Action, chain: seq<nat>)
    requires Wired(s) && InRange(s, a.causes)
  {
    && chain != [] && InGraph(s, chain) && Sole(s, a.causes, a.signer, chain[0])
    && forall i :: 0 <= i < |chain| - 1 ==>
         Sole(s, s.grants[chain[i]].causes, s.grants[chain[i]].issuer, chain[i + 1])
  }

  /** What sits directly beneath grant i of a chain. */
  ghost function Beneath(s: Setting, a: Action, chain: seq<nat>, i: nat): (int, string)
    requires InGraph(s, chain) && i < |chain|
  {
    if i == 0 then (a.effect, a.scope) else (s.grants[chain[i - 1]].effectCap, s.grants[chain[i - 1]].scope)
  }

  /** Grant i covers what sits beneath it. */
  ghost predicate Covers(s: Setting, a: Action, chain: seq<nat>, i: nat)
    requires InGraph(s, chain) && i < |chain|
  {
    var g, b := s.grants[chain[i]], Beneath(s, a, chain, i);
    b.0 <= g.effectCap && ScopeContained(b.1, g.scope)
  }

  /** Nothing is wrong with the chain below its last grant. */
  ghost predicate Cleared(s: Setting, a: Action, chain: seq<nat>)
    requires Wired(s) && InRange(s, a.causes)
  {
    && Reached(s, a, chain)
    && (|chain| > 1 ==> s.grants[chain[0]].maxDepth >= 0)
    && forall i :: 0 <= i < |chain| - 1 ==>
         Live(s, chain[i]) && Covers(s, a, chain, i) && s.grants[chain[i]].maxDepth < s.grants[chain[i + 1]].maxDepth
  }

  ghost predicate ShallowParent(s: Setting, gi: nat)
    requires Wired(s) && gi < |s.grants|
  {
    exists p :: 0 <= p < |s.grants| && Sole(s, s.grants[gi].causes, s.grants[gi].issuer, p)
             && s.grants[p].maxDepth <= s.grants[gi].maxDepth
  }

  /** What the last grant of a cleared chain comes to. Each case excludes those listed before it. */
  ghost predicate EndsIn(s: Setting, a: Action, chain: seq<nat>, v: Verdict)
    requires Wired(s) && chain != [] && InGraph(s, chain)
  {
    var n := |chain| - 1;
    var last := chain[n];
    var g := s.grants[last];
    var sound := Live(s, last) && Covers(s, a, chain, n);
    var deep := n == 0 ==> g.maxDepth >= 0;
    match v
    case GrantNotYetValid => s.now < g.notBefore
    case GrantExpired => g.notBefore <= s.now && g.notAfter < s.now
    case GrantRevoked => g.notBefore <= s.now <= g.notAfter && last in s.revoked && s.revoked[last] <= s.now
    case CapExceedsParent => Live(s, last) && !Covers(s, a, chain, n)
    case DelegationDepthExceeded => sound && (!deep || ShallowParent(s, last))
    case ChainBroken => sound && deep && Ambiguous(s, g.causes, g.issuer)
    case UntrustedChainRoot => sound && deep && Absent(s, g.causes, g.issuer) && g.issuer !in s.anchors
    case Authorized => sound && deep && Root(s, last)
    case EffectNotAuthorized => false
  }

  lemma CheckNames(s: Setting, a: Action, chain: seq<nat>)
    requires Wired(s) && chain != [] && InGraph(s, chain)
    ensures var n := |chain| - 1; var b := Beneath(s, a, chain, n); var check := CheckGrant(s, chain[n], b.0, b.1);
            && (check.None? <==> Live(s, chain[n]) && Covers(s, a, chain, n))
            && (check.Some? ==> EndsIn(s, a, chain, check.value))
            && forall v :: EndsIn(s, a, chain, v) ==>
                 if check.Some? then v == check.value
                 else v in {DelegationDepthExceeded, ChainBroken, UntrustedChainRoot, Authorized}
  {
    hide ScopeContained, Sole, Absent, Ambiguous, Beneath, ShallowParent, Root;
  }

  lemma Extended(s: Setting, a: Action, chain: seq<nat>, up: nat)
    requires Wired(s) && InRange(s, a.causes) && Cleared(s, a, chain) && up < |s.grants|
    requires var g := s.grants[chain[|chain| - 1]];
             Sole(s, g.causes, g.issuer, up) && g.maxDepth < s.grants[up].maxDepth
    requires Live(s, chain[|chain| - 1]) && Covers(s, a, chain, |chain| - 1) && s.grants[chain[0]].maxDepth >= 0
    ensures Cleared(s, a, chain + [up])
    ensures var g := s.grants[chain[|chain| - 1]]; Beneath(s, a, chain + [up], |chain|) == (g.effectCap, g.scope)
  {
    hide Sole, Live, ScopeContained;
    var more := chain + [up];
    forall i | 0 <= i < |chain|
      ensures Sole(s, s.grants[more[i]].causes, s.grants[more[i]].issuer, more[i + 1])
      ensures Live(s, more[i]) && Covers(s, a, more, i) && s.grants[more[i]].maxDepth < s.grants[more[i + 1]].maxDepth
    {
      assert Covers(s, a, chain, i) ==> Covers(s, a, more, i);
      if i < |chain| - 1 { assert Sole(s, s.grants[chain[i]].causes, s.grants[chain[i]].issuer, chain[i + 1]); }
    }
  }

  lemma {:induction false} ClimbEnds(s: Setting, a: Action, chain: seq<nat>) returns (longer: seq<nat>)
    requires Wired(s) && InRange(s, a.causes) && Cleared(s, a, chain) && s.grants[chain[0]].maxDepth >= 0
    ensures Cleared(s, a, longer)
    ensures var n := |chain| - 1; var b := Beneath(s, a, chain, n); EndsIn(s, a, longer, Climb(s, chain[n], b.0, b.1))
    decreases Deeper(s, chain[|chain| - 1])
  {
    hide Candidates, ScopeContained, CheckGrant, Sole, Absent, Ambiguous, Live, Covers, Beneath, Deeper;
    var n := |chain| - 1;
    var gi, b := chain[n], Beneath(s, a, chain, n);
    var g := s.grants[gi];
    CheckNames(s, a, chain);
    CandidatesMeaning(s, g.causes, g.issuer);
    AmbiguousMeaning(s, g.causes, g.issuer);
    var parents := Candidates(s, g.causes, g.issuer);
    longer := chain;
    if CheckGrant(s, gi, b.0, b.1).None? && |parents| == 1 {
      var up := Up(s, gi);
      assert parents == [up] && Sole(s, g.causes, g.issuer, up);
      if g.maxDepth < s.grants[up].maxDepth {
        UpIsDeeper(s, gi, 0, {});
        Extended(s, a, chain, up);
        longer := ClimbEnds(s, a, chain + [up]);
      }
    }
  }

  lemma SoleCandidate(s: Setting, causes: seq<nat>, who: string, j: nat)
    requires InRange(s, causes) && Sole(s, causes, who, j)
    ensures Candidates(s, causes, who) == [j]
  {
    CandidatesMeaning(s, causes, who);
  }

  /** Along a cleared chain the walk reaches its end, and so its verdict. */
  lemma {:induction false} ChainEnds(s: Setting, a: Action, chain: seq<nat>, v: Verdict, i: nat)
    requires Wired(s) && InRange(s, a.causes) && Cleared(s, a, chain) && EndsIn(s, a, chain, v) && i < |chain|
    requires s.grants[chain[0]].maxDepth >= 0
    ensures var b := Beneath(s, a, chain, i); Climb(s, chain[i], b.0, b.1) == v
    decreases |chain| - i
  {
    hide Candidates, ScopeContained, CheckGrant, Sole, Absent, Ambiguous, Live, Covers;
    var g, b := s.grants[chain[i]], Beneath(s, a, chain, i);
    var part := chain[..i + 1];
    PartCovers(s, a, chain, i);
    CheckNames(s, a, part);
    if i < |chain| - 1 {
      SoleCandidate(s, g.causes, g.issuer, chain[i + 1]);
      ChainEnds(s, a, chain, v, i + 1);
    } else {
      assert part == chain;
      LastEnds(s, a, chain, v);
    }
  }

  lemma PartCovers(s: Setting, a: Action, chain: seq<nat>, i: nat)
    requires InGraph(s, chain) && i < |chain|
    ensures var part := chain[..i + 1];
            Beneath(s, a, part, i) == Beneath(s, a, chain, i) && (Covers(s, a, part, i) <==> Covers(s, a, chain, i))
  {}

  lemma LastEnds(s: Setting, a: Action, chain: seq<nat>, v: Verdict)
    requires Wired(s) && chain != [] && InGraph(s, chain) && EndsIn(s, a, chain, v)
    requires s.grants[chain[0]].maxDepth >= 0
    ensures var n := |chain| - 1; var b := Beneath(s, a, chain, n); Climb(s, chain[n], b.0, b.1) == v
  {
    hide Candidates, ScopeContained, CheckGrant, Sole, Absent, Ambiguous, Live, Covers, Beneath;
    var g := s.grants[chain[|chain| - 1]];
    CheckNames(s, a, chain);
    CandidatesMeaning(s, g.causes, g.issuer);
    AmbiguousMeaning(s, g.causes, g.issuer);
    if v == DelegationDepthExceeded && ShallowParent(s, chain[|chain| - 1]) {
      var p: nat :| p < |s.grants| && Sole(s, g.causes, g.issuer, p) && s.grants[p].maxDepth <= g.maxDepth;
      SoleCandidate(s, g.causes, g.issuer, p);
    }
  }

  /** Every verdict exactly, faults in their order: no grant among the action's causes names the actor;
      or two do; or the one that does starts a chain of sole authorising grants with nothing wrong below
      its last grant, and the verdict is what that grant comes to. */
  lemma VerdictExactly(s: Setting, a: Action, v: Verdict)
    requires Wired(s) && InRange(s, a.causes)
    ensures Verify(s, a) == v <==>
            || (v == EffectNotAuthorized && Absent(s, a.causes, a.signer))
            || (v == ChainBroken && Ambiguous(s, a.causes, a.signer))
            || exists chain :: Cleared(s, a, chain) && EndsIn(s, a, chain, v)
  {
    hide Climb, Walk, Candidates, ScopeContained, CheckGrant, Sole, Absent, Ambiguous, Live, Covers, EndsIn;
    CandidatesMeaning(s, a.causes, a.signer);
    AmbiguousMeaning(s, a.causes, a.signer);
    GuardsNeverFire(s, a);
    var leaves := Candidates(s, a.causes, a.signer);
    if |leaves| == 1 {
      assert leaves == [leaves[0]];
      var end := VerdictReached(s, a, leaves[0]);
    }
    if chain :| Cleared(s, a, chain) && EndsIn(s, a, chain, v) {
      assert leaves == [chain[0]];
      VerdictFollows(s, a, chain, v);
    }
  }

  lemma VerdictReached(s: Setting, a: Action, leaf: nat) returns (chain: seq<nat>)
    requires Wired(s) && InRange(s, a.causes) && leaf < |s.grants| && Candidates(s, a.causes, a.signer) == [leaf]
    requires Sole(s, a.causes, a.signer, leaf)
    ensures Cleared(s, a, chain) && EndsIn(s, a, chain, Verify(s, a))
  {
    hide Climb, Walk, Candidates, ScopeContained, CheckGrant, Sole, Absent, Ambiguous, Live, Covers;
    GuardsNeverFire(s, a);
    chain := [leaf];
    CheckNames(s, a, chain);
    if s.grants[leaf].maxDepth >= 0 {
      chain := ClimbEnds(s, a, chain);
    } else if CheckGrant(s, leaf, a.effect, a.scope).Some? {
      ClimbChecks(s, leaf, a.effect, a.scope);
    }
  }

  lemma ClimbChecks(s: Setting, gi: nat, effect: int, scope: string)
    requires Wired(s) && gi < |s.grants| && CheckGrant(s, gi, effect, scope).Some?
    ensures Climb(s, gi, effect, scope) == CheckGrant(s, gi, effect, scope).value
  {}

  lemma VerdictFollows(s: Setting, a: Action, chain: seq<nat>, v: Verdict)
    requires Wired(s) && InRange(s, a.causes) && Cleared(s, a, chain) && EndsIn(s, a, chain, v)
    requires Candidates(s, a.causes, a.signer) == [chain[0]]
    ensures Verify(s, a) == v
  {
    hide Climb, Walk, Candidates, ScopeContained, CheckGrant, Sole, Absent, Ambiguous, Live, Covers;
    GuardsNeverFire(s, a);
    CheckNames(s, a, chain);
    if s.grants[chain[0]].maxDepth >= 0 {
      ChainEnds(s, a, chain, v, 0);
    } else {
      assert |chain| == 1 && Beneath(s, a, chain, 0) == (a.effect, a.scope);
      if CheckGrant(s, chain[0], a.effect, a.scope).Some? { ClimbChecks(s, chain[0], a.effect, a.scope); }
    }
  }
}
