/** Durable identity threads: resolving a chain of co-signed key rotations, and revocation. */
module Identity {
  import opened Octets

  type SignerId = string

  /** Key derivation and signature verification, as parameters. */
  datatype Keys = Keys(signerId: Bytes -> SignerId, verify: (Bytes, Bytes, Bytes) -> bool)

  /** One rotation: the two ids, both public keys, the record octets and both signatures. */
  datatype Evidence = Evidence(prior: SignerId, successor: SignerId, priorKey: Bytes, successorKey: Bytes,
                               record: Bytes, priorSig: Bytes, successorSig: Bytes)

  datatype Thread = Thread(root: SignerId, current: SignerId, chain: seq<SignerId>)

  /** Both keys derive to the ids claimed and both signed the record. */
  predicate CoSigned(k: Keys, e: Evidence) {
    && k.signerId(e.priorKey) == e.prior && k.signerId(e.successorKey) == e.successor
    && k.verify(e.priorKey, e.record, e.priorSig) && k.verify(e.successorKey, e.record, e.successorSig)
  }

  ghost predicate Contiguous(evs: seq<Evidence>) {
    forall i :: 0 < i < |evs| ==> evs[i].prior == evs[i - 1].successor
  }

  ghost predicate KeysBound(k: Keys, evs: seq<Evidence>) {
    forall i :: 0 <= i < |evs| ==>
      k.signerId(evs[i].priorKey) == evs[i].prior && k.signerId(evs[i].successorKey) == evs[i].successor
  }

  ghost predicate BothSigned(k: Keys, evs: seq<Evidence>) {
    forall i :: 0 <= i < |evs| ==>
      && k.verify(evs[i].priorKey, evs[i].record, evs[i].priorSig)
      && k.verify(evs[i].successorKey, evs[i].record, evs[i].successorSig)
  }

  ghost predicate Resolvable(k: Keys, evs: seq<Evidence>) {
    evs != [] && Contiguous(evs) && KeysBound(k, evs) && BothSigned(k, evs)
  }

  ghost function Chain(evs: seq<Evidence>): (chain: seq<SignerId>)
    requires evs != []
    ensures |chain| == |evs| + 1 && chain[0] == evs[0].prior
    ensures forall i :: 0 <= i < |evs| ==> chain[i + 1] == evs[i].successor
  {
    [evs[0].prior] + seq(|evs|, i requires 0 <= i < |evs| => evs[i].successor)
  }

  /** None is the source's RotationUnauthorized. */
  method ResolveThread(k: Keys, evs: seq<Evidence>) returns (t: Option<Thread>)
    ensures t.Some? <==> Resolvable(k, evs)
    ensures t.Some? ==> t.value == Thread(evs[0].prior, evs[|evs| - 1].successor, Chain(evs))
  {
    if evs == [] { return None; }
    var chain, prevNew := [evs[0].prior], evs[0].prior;
    for i := 0 to |evs|
      invariant |chain| == i + 1 && chain[0] == evs[0].prior && prevNew == chain[i]
      invariant forall j :: 0 <= j < i ==> chain[j + 1] == evs[j].successor && CoSigned(k, evs[j])
      invariant forall j :: 0 < j < i ==> evs[j].prior == evs[j - 1].successor
    {
      var e := evs[i];
      if e.prior != prevNew {
        assert i > 0 && evs[i].prior != evs[i - 1].successor;
        return None;
      }
      if !CoSigned(k, e) { return None; }
      chain, prevNew := chain + [e.successor], e.successor;
    }
    assert chain == Chain(evs);
    return Some(Thread(chain[0], prevNew, chain));
  }

  lemma ContiguousConcat(a: seq<Evidence>, b: seq<Evidence>)
    requires a != [] && b != []
    ensures Contiguous(a + b) <==> Contiguous(a) && Contiguous(b) && a[|a| - 1].successor == b[0].prior
  {
    var c, n := a + b, |a|;
    assert forall i :: 0 <= i < n ==> c[i] == a[i];
    assert forall i :: 0 <= i < |b| ==> c[n + i] == b[i];
    if Contiguous(c) {
      forall i | 0 < i < |b| ensures b[i].prior == b[i - 1].successor {
        assert c[n + i].prior == c[n + i - 1].successor && c[n + (i - 1)] == b[i - 1];
      }
      assert c[n].prior == c[n - 1].successor;
    }
  }

  lemma CoSignedConcat(k: Keys, a: seq<Evidence>, b: seq<Evidence>)
    ensures KeysBound(k, a + b) <==> KeysBound(k, a) && KeysBound(k, b)
    ensures BothSigned(k, a + b) <==> BothSigned(k, a) && BothSigned(k, b)
  {
    assert forall i :: 0 <= i < |a| ==> (a + b)[i] == a[i];
    assert forall i :: 0 <= i < |b| ==> (a + b)[|a| + i] == b[i];
  }

  /** Threads compose: two evidence lists join exactly when both resolve and the first ends where
      the second begins, and the joined chain is the two chains sharing that id. */
  lemma ThreadsCompose(k: Keys, a: seq<Evidence>, b: seq<Evidence>)
    requires a != [] && b != []
    ensures Resolvable(k, a + b) <==>
            Resolvable(k, a) && Resolvable(k, b) && a[|a| - 1].successor == b[0].prior
    ensures Resolvable(k, a + b) ==> Chain(a + b) == Chain(a) + Chain(b)[1..]
  {
    ContiguousConcat(a, b);
    CoSignedConcat(k, a, b);
  }

  /** Every adjacent pair of a resolved chain is a rotation co-signed by both keys. */
  lemma AdjacentCoSigned(k: Keys, evs: seq<Evidence>, i: nat)
    requires Resolvable(k, evs) && i < |evs|
    ensures Chain(evs)[i] == evs[i].prior && Chain(evs)[i + 1] == evs[i].successor
    ensures k.signerId(evs[i].priorKey) == Chain(evs)[i] && k.signerId(evs[i].successorKey) == Chain(evs)[i + 1]
    ensures k.verify(evs[i].priorKey, evs[i].record, evs[i].priorSig)
    ensures k.verify(evs[i].successorKey, evs[i].record, evs[i].successorSig)
  {
    if i > 0 { assert evs[i].prior == evs[i - 1].successor; }
  }

  /** Attribution: exactly the ids some link names belong to the thread. */
  lemma Attributable(k: Keys, evs: seq<Evidence>, who: SignerId)
    requires Resolvable(k, evs)
    ensures who in Chain(evs) <==> exists i :: 0 <= i < |evs| && (evs[i].prior == who || evs[i].successor == who)
  {
    if who in Chain(evs) {
      var j :| 0 <= j < |Chain(evs)| && Chain(evs)[j] == who;
      if j == 0 { assert evs[0].prior == who; } else { assert evs[j - 1].successor == who; }
    }
    if i :| 0 <= i < |evs| && (evs[i].prior == who || evs[i].successor == who) {
      AdjacentCoSigned(k, evs, i);
      assert Chain(evs)[i] in Chain(evs) && Chain(evs)[i + 1] in Chain(evs);
    }
  }

  // ---- Revocation -----------------------------------------------------------------------------------

  datatype Revocation = Revocation(key: SignerId, notAfter: int)

  ghost predicate Applies(r: Revocation, key: SignerId, position: int) { r.key == key && position > r.notAfter }

  /** A key stays good at the last position its revocation allows, and no other key is touched. */
  lemma LastGoodPosition(r: Revocation, key: SignerId, position: int)
    ensures !Applies(r, key, r.notAfter) && Applies(r, r.key, r.notAfter + 1)
    ensures key != r.key ==> !Applies(r, key, position)
  {}

  /** The first revocation of the key that the position is past. */
  method RevokedAt(revocations: seq<Revocation>, key: SignerId, position: int) returns (notAfter: Option<int>)
    ensures notAfter.Some? <==> exists r :: r in revocations && Applies(r, key, position)
    ensures notAfter.Some? ==>
              exists i :: 0 <= i < |revocations| && Applies(revocations[i], key, position)
                && notAfter.value == revocations[i].notAfter
                && forall j :: 0 <= j < i ==> !Applies(revocations[j], key, position)
  {
    for i := 0 to |revocations|
      invariant forall j :: 0 <= j < i ==> !Applies(revocations[j], key, position)
    {
      var r := revocations[i];
      if r.key == key && position > r.notAfter {
        assert r in revocations && Applies(revocations[i], key, position);
        return Some(r.notAfter);
      }
    }
    return None;
  }

  /** Once revoked, revoked at every later position and whatever revocations are added. */
  lemma RevocationPermanent(rs: seq<Revocation>, more: seq<Revocation>, key: SignerId, position: int, later: int)
    requires exists r :: r in rs && Applies(r, key, position)
    requires later >= position && forall r :: r in rs ==> r in more
    ensures exists r :: r in more && Applies(r, key, later)
  {
    var r :| r in rs && Applies(r, key, position);
    assert r in more && Applies(r, key, later);
  }
}
