/** Hash chains: positional sequence numbers, and a prev field holding the previous head. */
module HashChain {
  import opened Octets

  /** How a kind of link is read and encoded. */
  datatype Kind<!L> = Kind(body: L -> Bytes, seqOf: L -> int, prevOf: L -> Bytes)

  /** The head after `links`: the digest of the last body, or the start of the chain. */
  function HeadAfter<L>(h: Hash, kind: Kind<L>, start: Digest, links: seq<L>): Digest {
    if links == [] then start else h(kind.body(links[|links| - 1]))
  }

  ghost predicate LinkedAt<L>(h: Hash, kind: Kind<L>, start: Digest, links: seq<L>, i: nat)
    requires i < |links|
  {
    && kind.seqOf(links[i]) == i
    && kind.prevOf(links[i]) == HeadAfter(h, kind, start, links[..i])
  }

  /** Every link carries its position and the head before it. */
  ghost predicate Linked<L>(h: Hash, kind: Kind<L>, start: Digest, links: seq<L>) {
    forall i :: 0 <= i < |links| ==> LinkedAt(h, kind, start, links, i)
  }

  ghost function Bodies<L>(kind: Kind<L>, links: seq<L>): set<Bytes> {
    set x | x in links :: kind.body(x)
  }

  ghost predicate Faithful<L>(kind: Kind<L>, a: seq<L>, b: seq<L>) {
    forall x, y :: x in a && y in b && kind.body(x) == kind.body(y) ==> x == y
  }

  /** Link i by itself: its position, and the digest of the body before it, or the start. */
  ghost predicate Follows<L>(h: Hash, kind: Kind<L>, start: Digest, links: seq<L>, i: nat)
    requires i < |links|
  {
    && kind.seqOf(links[i]) == i
    && kind.prevOf(links[i]) == if i == 0 then start else h(kind.body(links[i - 1]))
  }

  lemma LinkedMeaning<L>(h: Hash, kind: Kind<L>, start: Digest, links: seq<L>)
    ensures Linked(h, kind, start, links) <==> forall i :: 0 <= i < |links| ==> Follows(h, kind, start, links, i)
  {
    forall i | 0 <= i < |links| ensures LinkedAt(h, kind, start, links, i) <==> Follows(h, kind, start, links, i) {
      assert i > 0 ==> links[..i][i - 1] == links[i - 1];
    }
  }

  lemma LinkedPrefix<L>(h: Hash, kind: Kind<L>, start: Digest, links: seq<L>, n: nat)
    requires Linked(h, kind, start, links) && n <= |links|
    ensures Linked(h, kind, start, links[..n])
  {
    forall i | 0 <= i < n ensures LinkedAt(h, kind, start, links[..n], i) {
      assert LinkedAt(h, kind, start, links, i);
      assert links[..n][..i] == links[..i];
    }
  }

  lemma LinkedAppend<L>(h: Hash, kind: Kind<L>, start: Digest, links: seq<L>, x: L)
    requires Linked(h, kind, start, links)
    requires kind.seqOf(x) == |links| && kind.prevOf(x) == HeadAfter(h, kind, start, links)
    ensures Linked(h, kind, start, links + [x])
    ensures HeadAfter(h, kind, start, links + [x]) == h(kind.body(x))
  {
    forall i | 0 <= i < |links| + 1 ensures LinkedAt(h, kind, start, links + [x], i) {
      if i < |links| {
        assert LinkedAt(h, kind, start, links, i);
        assert (links + [x])[..i] == links[..i];
      } else {
        assert (links + [x])[..i] == links;
      }
    }
  }

  /** Tamper evidence: two non-empty chains with one final head are equal link by link and
      start from one head, or two of the bodies hashed collide. */
  lemma ChainBinding<L>(h: Hash, kind: Kind<L>, s: Digest, a: seq<L>, t: Digest, b: seq<L>)
    requires a != [] && b != []
    requires Linked(h, kind, s, a) && Linked(h, kind, t, b) && Faithful(kind, a, b)
    requires HeadAfter(h, kind, s, a) == HeadAfter(h, kind, t, b)
    ensures Collision(h, Bodies(kind, a) + Bodies(kind, b)) || (a == b && s == t)
  {
    var inputs := Bodies(kind, a) + Bodies(kind, b);
    if !Collision(h, inputs) { ChainsAgree(h, kind, s, a, t, b, inputs); }
  }

  lemma {:induction false} ChainsAgree<L>(h: Hash, kind: Kind<L>, s: Digest, a: seq<L>, t: Digest, b: seq<L>,
                                          inputs: set<Bytes>)
    requires a != [] && b != []
    requires Linked(h, kind, s, a) && Linked(h, kind, t, b) && Faithful(kind, a, b)
    requires HeadAfter(h, kind, s, a) == HeadAfter(h, kind, t, b)
    requires !Collision(h, inputs) && Bodies(kind, a) + Bodies(kind, b) <= inputs
    ensures a == b && s == t
    decreases |a|
  {
    var m, n := |a| - 1, |b| - 1;
    var x, y := a[m], b[n];
    assert kind.body(x) in Bodies(kind, a) && kind.body(y) in Bodies(kind, b);
    NoCollision(h, inputs, kind.body(x), kind.body(y));
    assert x == y;
    assert LinkedAt(h, kind, s, a, m) && LinkedAt(h, kind, t, b, n);
    assert m == n && HeadAfter(h, kind, s, a[..m]) == HeadAfter(h, kind, t, b[..m]);
    if m > 0 {
      LinkedPrefix(h, kind, s, a, m);
      LinkedPrefix(h, kind, t, b, m);
      ChainsAgree(h, kind, s, a[..m], t, b[..m], inputs);
    }
    assert a == a[..m] + [x] && b == b[..m] + [y];
  }

  /** Without any assumption on the hash: links of one valid chain, rearranged, dropped or repeated,
      form a valid chain only as a prefix of it. */
  lemma RearrangedIsPrefix<L>(h: Hash, kind: Kind<L>, s: Digest, a: seq<L>, t: Digest, b: seq<L>)
    requires Linked(h, kind, s, a) && Linked(h, kind, t, b)
    requires forall x :: x in b ==> x in a
    ensures b <= a
  {
    forall i | 0 <= i < |b| ensures i < |a| && b[i] == a[i] {
      assert b[i] in a;
      var j :| 0 <= j < |a| && a[j] == b[i];
      assert LinkedAt(h, kind, s, a, j) && LinkedAt(h, kind, t, b, i);
    }
    if b != [] { var last := b[|b| - 1]; assert last == a[|b| - 1]; }
  }
}
