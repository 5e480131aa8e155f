/** Walks, cycles and orders over any dependency relation. */
module Graphs {
  import opened Octets

  /** Holds from an object to one it depends on. */
  type Relation<!T> = (T, T) -> bool

  ghost predicate Walk<T>(edge: Relation<T>, w: seq<T>) {
    forall k :: 0 <= k < |w| - 1 ==> edge(w[k], w[k + 1])
  }

  ghost predicate Cycle<T>(edge: Relation<T>, w: seq<T>) { |w| >= 2 && Walk(edge, w) && w[0] == w[|w| - 1] }

  ghost predicate Acyclic<T(!new)>(edge: Relation<T>) { forall w :: !Cycle(edge, w) }

  /** What an element depends on is strictly before it. */
  ghost predicate Backward<T(!new)>(edge: Relation<T>, order: seq<T>) {
    forall k, c :: 0 <= k < |order| && edge(order[k], c) ==> c in order[..k]
  }

  lemma WalkTail<T>(edge: Relation<T>, w: seq<T>)
    requires w != [] && Walk(edge, w)
    ensures Walk(edge, w[1..])
  {
    forall k | 0 <= k < |w[1..]| - 1 ensures edge(w[1..][k], w[1..][k + 1]) { assert edge(w[k + 1], w[k + 2]); }
  }

  lemma WalkMore<T>(edge: Relation<T>, w: seq<T>, x: T)
    requires Walk(edge, w) && (w != [] ==> edge(w[|w| - 1], x))
    ensures Walk(edge, w + [x])
  {
    var longer := w + [x];
    forall k | 0 <= k < |longer| - 1 ensures edge(longer[k], longer[k + 1]) {
      if k < |w| - 1 { assert edge(w[k], w[k + 1]); }
    }
  }

  /** Along a walk a backward order goes strictly backwards. */
  lemma {:induction false} WalkGoesBack<T(!new)>(edge: Relation<T>, order: seq<T>, w: seq<T>, i: nat)
    requires Backward(edge, order) && Walk(edge, w) && |w| >= 2 && i < |order| && order[i] == w[0]
    ensures w[|w| - 1] in order[..i]
    decreases |w|
  {
    assert edge(w[0], w[1]);
    if |w| > 2 {
      var j :| 0 <= j < i && order[..i][j] == w[1];
      WalkTail(edge, w);
      WalkGoesBack(edge, order, w[1..], j);
      assert forall x :: x in order[..j] ==> x in order[..i];
    }
  }

  /** A relation that some list of all its objects respects has no cycle. */
  lemma BackwardIsAcyclic<T(!new)>(edge: Relation<T>, order: seq<T>)
    requires Distinct(order) && Backward(edge, order) && forall x, y :: edge(x, y) ==> x in order
    ensures Acyclic(edge)
  {
    forall w | |w| >= 2 && Walk(edge, w) ensures w[0] != w[|w| - 1] {
      assert edge(w[0], w[1]) && w[0] in order;
      var i :| 0 <= i < |order| && order[i] == w[0];
      WalkGoesBack(edge, order, w, i);
      assert forall j :: 0 <= j < i ==> order[..i][j] != order[i];
    }
  }

  /** Meeting an element of a walk again closes a cycle. */
  lemma Closes<T(!new)>(edge: Relation<T>, w: seq<T>, p: nat, x: T)
    requires p < |w| && Walk(edge, w) && w[p] == x && edge(w[|w| - 1], x)
    ensures !Acyclic(edge)
  {
    var cycle := w[p..] + [x];
    forall k | 0 <= k < |cycle| - 1 ensures edge(cycle[k], cycle[k + 1]) {
      if k < |cycle| - 2 { assert edge(w[p + k], w[p + k + 1]); }
    }
    assert Cycle(edge, cycle);
  }

  ghost predicate DependsIn<T(!new)>(edge: Relation<T>, x: T, s: set<T>) { exists c :: c in s && edge(x, c) }

  lemma OneIn<T(!new)>(edge: Relation<T>, x: T, s: set<T>) returns (c: T)
    requires DependsIn(edge, x, s)
    ensures c in s && edge(x, c)
  {
    c :| c in s && edge(x, c);
  }

  /** In a set where every member depends on a member, walks go on for ever. */
  lemma {:induction false} LongWalk<T(!new)>(edge: Relation<T>, stuck: set<T>, n: nat) returns (w: seq<T>)
    requires stuck != {} && forall x :: x in stuck ==> DependsIn(edge, x, stuck)
    ensures |w| == n + 1 && Walk(edge, w) && forall k :: 0 <= k < |w| ==> w[k] in stuck
  {
    if n == 0 {
      var x :| x in stuck;
      w := [x];
    } else {
      hide DependsIn, Walk;
      var most := LongWalk(edge, stuck, n - 1);
      assert most[n - 1] in stuck;
      var c := OneIn(edge, most[n - 1], stuck);
      WalkMore(edge, most, c);
      w := most + [c];
    }
  }

  lemma WalkPrefix<T>(edge: Relation<T>, w: seq<T>, j: nat)
    requires Walk(edge, w) && 0 < j < |w|
    ensures Walk(edge, w[..j]) && edge(w[j - 1], w[j])
  {
    assert edge(w[j - 1], w[j - 1 + 1]);
    forall k | 0 <= k < j - 1 ensures edge(w[..j][k], w[..j][k + 1]) { assert edge(w[k], w[k + 1]); }
  }

  /** A set where every member depends on a member holds a cycle. */
  lemma StuckHasCycle<T(!new)>(edge: Relation<T>, stuck: set<T>)
    requires stuck != {} && forall x :: x in stuck ==> DependsIn(edge, x, stuck)
    ensures !Acyclic(edge)
  {
    hide DependsIn, Walk, Acyclic;
    var w := LongWalk(edge, stuck, |stuck|);
    SetSize(w);
    var visited := set x | x in w;
    SubsetSize(visited, stuck);
    var i: nat, j: nat :| i < j < |w| && w[i] == w[j];
    WalkPrefix(edge, w, j);
    Closes(edge, w[..j], i, w[j]);
  }

  ghost predicate Carries<S(!new), T>(edge: Relation<S>, other: Relation<T>, f: S -> T) {
    forall x, y :: edge(x, y) ==> other(f(x), f(y))
  }

  /** A relation that maps into one without a cycle has none. */
  lemma AcyclicMaps<S(!new), T(!new)>(edge: Relation<S>, other: Relation<T>, f: S -> T)
    requires Carries(edge, other, f) && Acyclic(other)
    ensures Acyclic(edge)
  {
    forall w ensures !Cycle(edge, w) {
      if |w| >= 2 && Walk(edge, w) {
        var v := seq(|w|, k requires 0 <= k < |w| => f(w[k]));
        forall k | 0 <= k < |v| - 1 ensures other(v[k], v[k + 1]) { assert edge(w[k], w[k + 1]); }
        assert !Cycle(other, v);
      }
    }
  }
}
