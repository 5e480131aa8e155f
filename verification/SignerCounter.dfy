/** Detecting duplicated counters over a set of presented objects. */
module SignerCounter {
  import opened Octets
  import opened SortedSets

  datatype Presented = Presented(signer: Bytes, counter: Option<int>, contentId: Bytes)

  datatype Finding = Finding(signer: Bytes, counter: int, ids: seq<Bytes>)

  /** The content ids a signer bound to one counter value. */
  ghost function IdsAt(objects: seq<Presented>, signer: Bytes, counter: int): set<Bytes> {
    set o | o in objects && o.signer == signer && o.counter == Some(counter) :: o.contentId
  }

  ghost predicate Lists(s: seq<Bytes>, ids: set<Bytes>) {
    Sorted(Bytewise(), s) && |s| == |ids| && forall x :: x in s <==> x in ids
  }

  ghost predicate Precedes(f: Finding, g: Finding) {
    Less(f.signer, g.signer) || (f.signer == g.signer && f.counter < g.counter)
  }

  /** The findings: ordered by signer and counter, one for each counter value bound to at least two
      distinct ids, listing all of them in order. */
  ghost predicate Detects(objects: seq<Presented>, fs: seq<Finding>) {
    && (forall i, j :: 0 <= i < j < |fs| ==> Precedes(fs[i], fs[j]))
    && (forall f :: f in fs ==> Lists(f.ids, IdsAt(objects, f.signer, f.counter)) && |f.ids| >= 2)
    && (forall signer, counter :: |IdsAt(objects, signer, counter)| >= 2 ==> Reported(fs, signer, counter))
  }

  ghost predicate Reported(fs: seq<Finding>, signer: Bytes, counter: int) {
    exists f :: f in fs && f.signer == signer && f.counter == counter
  }

  // ---- The detector ------------------------------------------------------------------------------------

  type Groups = map<Bytes, map<int, set<Bytes>>>

  ghost function At(groups: Groups, signer: Bytes, counter: int): set<Bytes> {
    if signer in groups && counter in groups[signer] then groups[signer][counter] else {}
  }

  method Group(objects: seq<Presented>) returns (groups: Groups)
    ensures forall signer, counter :: At(groups, signer, counter) == IdsAt(objects, signer, counter)
  {
    groups := map[];
    for k := 0 to |objects|
      invariant forall signer, counter :: At(groups, signer, counter) == IdsAt(objects[..k], signer, counter)
    {
      var o := objects[k];
      assert objects[..k + 1] == objects[..k] + [o];
      ghost var before := groups;
      if o.counter.Some? {
        var c := o.counter.value;
        var mine := if o.signer in groups then groups[o.signer] else map[];
        var ids := if c in mine then mine[c] else {};
        groups := groups[o.signer := mine[c := ids + {o.contentId}]];
      }
      forall signer, counter
        ensures At(groups, signer, counter) == IdsAt(objects[..k + 1], signer, counter)
      {
        IdsAppend(objects[..k], o, signer, counter);
        assert At(before, signer, counter) == IdsAt(objects[..k], signer, counter);
      }
    }
    assert objects[..|objects|] == objects;
  }

  lemma IdsAppend(objects: seq<Presented>, o: Presented, signer: Bytes, counter: int)
    ensures IdsAt(objects + [o], signer, counter) ==
            IdsAt(objects, signer, counter)
            + if o.signer == signer && o.counter == Some(counter) then {o.contentId} else {}
  {
    var all := objects + [o];
    assert forall x :: x in all <==> x in objects || x == o;
  }

  method ListIds(ids: set<Bytes>) returns (s: seq<Bytes>)
    ensures Lists(s, ids)
  {
    hide Less;
    BytewiseTotal();
    s := Listing(Bytewise(), ids);
  }

  method ListCounters(cs: set<int>) returns (s: seq<int>)
    ensures (forall i, j :: 0 <= i < j < |s| ==> s[i] < s[j]) && forall c :: c in s <==> c in cs
  {
    s := Listing(ByValue(), cs);
    assert forall i, j :: 0 <= i < j < |s| ==> ByValue()(s[i], s[j]);
  }

  /** The findings of one signer, by ascending counter. */
  method FindingsOf(signer: Bytes, counters: map<int, set<Bytes>>) returns (fs: seq<Finding>)
    ensures SignerFindings(fs, signer, counters, counters.Keys)
  {
    hide SignerFindings, Lists;
    var order := ListCounters(counters.Keys);
    fs := [];
    NoFindings(signer, counters);
    assert Elements(order[..0]) == {};
    for k := 0 to |order|
      invariant SignerFindings(fs, signer, counters, Elements(order[..k]))
    {
      var c := order[k];
      ElementsPrefix(order, k);
      var ids := ListIds(counters[c]);
      MoreFindings(fs, signer, counters, Elements(order[..k]), c, ids);
      if |ids| >= 2 { fs := fs + [Finding(signer, c, ids)]; }
    }
    assert Elements(order[..|order|]) == counters.Keys;
  }

  /** fs reports exactly the duplicated counters among `seen`, in order. */
  ghost predicate SignerFindings(fs: seq<Finding>, signer: Bytes, counters: map<int, set<Bytes>>, seen: set<int>) {
    && seen <= counters.Keys
    && (forall i, j :: 0 <= i < j < |fs| ==> fs[i].counter < fs[j].counter)
    && (forall f :: f in fs ==>
          && f.signer == signer && f.counter in seen && |f.ids| >= 2 && Lists(f.ids, counters[f.counter]))
    && (forall c :: c in seen && |counters[c]| >= 2 ==> Reported(fs, signer, c))
  }

  lemma ListsSize(s: seq<Bytes>, ids: set<Bytes>)
    requires Lists(s, ids)
    ensures |s| == |ids|
  {}

  lemma NoFindings(signer: Bytes, counters: map<int, set<Bytes>>)
    ensures SignerFindings([], signer, counters, {})
  {}

  lemma MoreFindings(fs: seq<Finding>, signer: Bytes, counters: map<int, set<Bytes>>, seen: set<int>, c: int,
                     ids: seq<Bytes>)
    requires SignerFindings(fs, signer, counters, seen) && c in counters && Lists(ids, counters[c])
    requires forall x :: x in seen ==> x < c
    ensures SignerFindings(if |ids| >= 2 then fs + [Finding(signer, c, ids)] else fs, signer, counters, seen + {c})
  {
    hide Lists;
    ListsSize(ids, counters[c]);
    if |ids| >= 2 {
      var last := Finding(signer, c, ids);
      var more := fs + [last];
      assert last in more;
      forall i, j | 0 <= i < j < |more| ensures more[i].counter < more[j].counter {
        if j == |fs| { assert fs[i] in fs; }
      }
      Grown(fs, more, signer);
    }
  }

  lemma Grown(fs: seq<Finding>, more: seq<Finding>, signer: Bytes)
    requires fs <= more
    ensures forall c :: Reported(fs, signer, c) ==> Reported(more, signer, c)
  {
    forall c | Reported(fs, signer, c) ensures Reported(more, signer, c) {
      var f :| f in fs && f.signer == signer && f.counter == c;
      var i :| 0 <= i < |fs| && fs[i] == f;
      assert more[i] == f;
    }
  }

  method Detect(objects: seq<Presented>) returns (fs: seq<Finding>)
    ensures Detects(objects, fs)
  {
    hide SignerFindings, Lists, Less, Detects;
    var groups := Group(objects);
    var signers := ListIds(groups.Keys);
    ListsMeaning(signers, groups.Keys);
    fs := [];
    NothingYet(groups);
    assert Elements(signers[..0]) == {};
    for k := 0 to |signers|
      invariant GroupFindings(fs, groups, Elements(signers[..k]))
    {
      var signer := signers[k];
      ElementsPrefix(signers, k);
      var more := FindingsOf(signer, groups[signer]);
      JoinFindings(fs, groups, Elements(signers[..k]), signer, more);
      fs := fs + more;
    }
    assert Elements(signers[..|signers|]) == groups.Keys;
    GroupsDetect(objects, groups, fs);
  }

  lemma ListsMeaning(s: seq<Bytes>, ids: set<Bytes>)
    requires Lists(s, ids)
    ensures forall i, j :: 0 <= i < j < |s| ==> Less(s[i], s[j])
    ensures forall x :: x in s <==> x in ids
  {
    hide Less;
    assert forall i, j :: 0 <= i < j < |s| ==> Bytewise()(s[i], s[j]);
  }

  ghost predicate GroupFindings(fs: seq<Finding>, groups: Groups, seen: set<Bytes>) {
    && (forall i, j :: 0 <= i < j < |fs| ==> Precedes(fs[i], fs[j]))
    && (forall f :: f in fs ==> f.signer in seen && |f.ids| >= 2 && Lists(f.ids, At(groups, f.signer, f.counter)))
    && (forall s, c :: s in seen && |At(groups, s, c)| >= 2 ==> Reported(fs, s, c))
  }

  lemma NothingYet(groups: Groups)
    ensures GroupFindings([], groups, {})
  {}

  lemma JoinFindings(fs: seq<Finding>, groups: Groups, seen: set<Bytes>, signer: Bytes, more: seq<Finding>)
    requires GroupFindings(fs, groups, seen) && signer in groups && seen <= groups.Keys
    requires SignerFindings(more, signer, groups[signer], groups[signer].Keys)
    requires forall x :: x in seen ==> Less(x, signer)
    ensures GroupFindings(fs + more, groups, seen + {signer})
  {
    hide Lists, Less;
    var all := fs + more;
    forall i, j | 0 <= i < j < |all| ensures Precedes(all[i], all[j]) {
      if j < |fs| {
        assert Precedes(fs[i], fs[j]);
      } else if i < |fs| {
        assert fs[i] in fs && more[j - |fs|] in more;
      } else {
        assert more[i - |fs|] in more && more[j - |fs|] in more;
      }
    }
    forall s, c | s in seen + {signer} && |At(groups, s, c)| >= 2 ensures Reported(all, s, c) {
      if s in seen {
        assert Reported(fs, s, c);
        var f :| f in fs && f.signer == s && f.counter == c;
        assert f in all;
      } else {
        NonEmptyGroup(groups, s, c);
        assert Reported(more, s, c);
        var f :| f in more && f.signer == s && f.counter == c;
        assert f in all;
      }
    }
  }

  lemma GroupsDetect(objects: seq<Presented>, groups: Groups, fs: seq<Finding>)
    requires GroupFindings(fs, groups, groups.Keys)
    requires forall signer, counter :: At(groups, signer, counter) == IdsAt(objects, signer, counter)
    ensures Detects(objects, fs)
  {
    hide Lists, IdsAt;
    forall signer, counter | |IdsAt(objects, signer, counter)| >= 2 ensures Reported(fs, signer, counter) {
      assert |At(groups, signer, counter)| >= 2;
      NonEmptyGroup(groups, signer, counter);
    }
  }

  lemma NonEmptyGroup(groups: Groups, signer: Bytes, counter: int)
    requires |At(groups, signer, counter)| >= 2
    ensures signer in groups && counter in groups[signer]
  {}

  // ---- What a detection means ------------------------------------------------------------------------------

  /** Sound and complete: a counter is reported exactly when two different ids share it. */
  lemma ReportedExactly(objects: seq<Presented>, fs: seq<Finding>, signer: Bytes, counter: int)
    requires Detects(objects, fs)
    ensures Reported(fs, signer, counter) <==>
            exists o, p :: o in objects && p in objects && o.contentId != p.contentId
                        && o.signer == signer && p.signer == signer
                        && o.counter == Some(counter) && p.counter == Some(counter)
  {
    hide Less, Sorted;
    var ids := IdsAt(objects, signer, counter);
    if Reported(fs, signer, counter) {
      var f :| f in fs && f.signer == signer && f.counter == counter;
      var x, y := TwoMembers(ids);
      var o :| o in objects && o.signer == signer && o.counter == Some(counter) && o.contentId == x;
      var p :| p in objects && p.signer == signer && p.counter == Some(counter) && p.contentId == y;
    }
    if o, p :| o in objects && p in objects && o.contentId != p.contentId
               && o.signer == signer && p.signer == signer
               && o.counter == Some(counter) && p.counter == Some(counter) {
      assert {o.contentId, p.contentId} <= ids;
      SubsetSize({o.contentId, p.contentId}, ids);
    }
  }

  lemma TwoMembers(s: set<Bytes>) returns (x: Bytes, y: Bytes)
    requires |s| >= 2
    ensures x in s && y in s && x != y
  {
    x :| x in s;
    assert |s - {x}| >= 1;
    y :| y in s - {x};
  }

  /** Reordering or repeating the presented objects changes nothing. */
  lemma DetectionUnchanged(a: seq<Presented>, b: seq<Presented>, fs: seq<Finding>, gs: seq<Finding>)
    requires forall o :: o in a <==> o in b
    requires Detects(a, fs) && Detects(b, gs)
    ensures fs == gs
  {
    hide Less;
    forall s, c ensures IdsAt(a, s, c) == IdsAt(b, s, c) {}
    forall f ensures f in fs <==> f in gs {
      if f in fs { SameFinding(a, fs, b, gs, f); }
      if f in gs { SameFinding(b, gs, a, fs, f); }
    }
    PrecedesTotal(fs, gs);
  }

  lemma SameFinding(a: seq<Presented>, fs: seq<Finding>, b: seq<Presented>, gs: seq<Finding>, f: Finding)
    requires Detects(a, fs) && Detects(b, gs) && f in fs
    requires IdsAt(a, f.signer, f.counter) == IdsAt(b, f.signer, f.counter)
    ensures f in gs
  {
    hide Less;
    assert Reported(gs, f.signer, f.counter);
    var g :| g in gs && g.signer == f.signer && g.counter == f.counter;
    BytewiseTotal();
    SortedUnique(Bytewise(), f.ids, g.ids);
  }

  /** Two lists ordered by signer and counter with the same findings are equal. */
  lemma {:induction false} PrecedesTotal(fs: seq<Finding>, gs: seq<Finding>)
    requires forall i, j :: 0 <= i < j < |fs| ==> Precedes(fs[i], fs[j])
    requires forall i, j :: 0 <= i < j < |gs| ==> Precedes(gs[i], gs[j])
    requires forall f :: f in fs <==> f in gs
    ensures fs == gs
  {
    hide Less;
    if fs == [] {
      if gs != [] { NoMember(gs); }
    } else {
      assert fs[0] in gs;
      assert gs[0] in fs;
      NotBoth(fs[0], gs[0]);
      assert fs[0] == gs[0];
      assert fs == [fs[0]] + fs[1..] && gs == [gs[0]] + gs[1..];
      forall f ensures f in fs[1..] <==> f in gs[1..] {
        NotBoth(f, f);
        if f in fs[1..] { assert f in gs && Precedes(fs[0], f); }
        if f in gs[1..] { assert f in fs && Precedes(gs[0], f); }
      }
      PrecedesTotal(fs[1..], gs[1..]);
    }
  }

  lemma NotBoth(f: Finding, g: Finding)
    ensures !(Precedes(f, g) && Precedes(g, f))
  {
    LessTotal(f.signer, g.signer);
    LessTotal(f.signer, f.signer);
  }

  /** Presenting more objects never withdraws a finding nor drops an id from it. */
  lemma DetectionMonotone(a: seq<Presented>, b: seq<Presented>, fs: seq<Finding>, gs: seq<Finding>, f: Finding)
    requires forall o :: o in a ==> o in b
    requires Detects(a, fs) && Detects(b, gs) && f in fs
    ensures exists g :: g in gs && g.signer == f.signer && g.counter == f.counter
                     && forall x :: x in f.ids ==> x in g.ids
  {
    hide Less, Sorted;
    var small, large := IdsAt(a, f.signer, f.counter), IdsAt(b, f.signer, f.counter);
    assert small <= large;
    SubsetSize(small, large);
    assert Reported(gs, f.signer, f.counter);
    var g :| g in gs && g.signer == f.signer && g.counter == f.counter;
    assert forall x :: x in f.ids ==> x in g.ids;
  }
}
