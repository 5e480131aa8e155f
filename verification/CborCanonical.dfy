/** The encoding is canonical and uniquely decodable: equal encodings mean equal values up to the
    order of map pairs, and no encoding is a proper prefix of another. */
module CborCanonical {
  import opened Octets
  import opened Cbor

  // ---- Equality up to the order of map pairs ---------------------------------------------------

  /** v and w agree up to reordering the pairs of maps, at every depth. */
  ghost predicate Same(v: Value, w: Value)
    decreases v, 0
  {
    match v
    case Arr(xs) =>
      && w.Arr? && |xs| == |w.items|
      && forall i :: 0 <= i < |xs| ==> Same(xs[i], w.items[i])
    case Tag(n, c) => w.Tag? && n == w.number && Same(c, w.content)
    case Map(ps) =>
      && w.Map? && |ps| == |w.pairs|
      && exists p :: Permutation(p, |ps|)
                  && forall i :: 0 <= i < |ps| ==> SamePair(ps[i], w.pairs[p[i]])
    case _ => v == w
  }

  ghost predicate SamePair(a: Pair, b: Pair)
    decreases a, 1
  {
    Same(a.key, b.key) && Same(a.val, b.val)
  }

  // ---- Entries of a map ----------------------------------------------------------------------------

  /** es lists the encodings of ps, in order. */
  ghost predicate Encodes(ps: seq<Pair>, es: seq<Entry>) {
    |ps| == |es| && forall i :: 0 <= i < |ps| ==> EncodePair(ps[i]) == Ok(es[i])
  }

  lemma {:induction false} EncodePairsEach(ps: seq<Pair>, es: seq<Entry>)
    ensures EncodePairs(ps) == Ok(es) <==> Encodes(ps, es)
  {
    if ps != [] {
      if es != [] {
        EncodePairsEach(ps[1..], es[1..]);
        assert es == [es[0]] + es[1..];
        if Encodes(ps[1..], es[1..]) && EncodePair(ps[0]) == Ok(es[0]) {
          forall i | 0 <= i < |ps| ensures EncodePair(ps[i]) == Ok(es[i]) {
            if i > 0 { assert EncodePair(ps[1..][i - 1]) == Ok(es[1..][i - 1]); }
          }
        }
        if Encodes(ps, es) {
          forall i | 0 <= i < |ps| - 1 ensures EncodePair(ps[1..][i]) == Ok(es[1..][i]) {
            assert EncodePair(ps[i + 1]) == Ok(es[i + 1]);
          }
        }
        if EncodePairs(ps) == Ok(es) {
          var rest := EncodePairs(ps[1..]).value;
          assert ([EncodePair(ps[0]).value] + rest)[1..] == rest;
        }
      }
    }
  }

  lemma MapUnfold(ps: seq<Pair>)
    ensures Encode(Map(ps)).Ok? <==>
            && EncodePairs(ps).Ok? && DistinctKeys(EncodePairs(ps).value) && EncHead(5, |ps|).Ok?
    ensures Encode(Map(ps)).Ok? ==>
              Encode(Map(ps)).value == EncHead(5, |ps|).value + Flatten(Sort(EncodePairs(ps).value))
  {
    hide EncodePairs, EncHead, Flatten, Sort, DistinctKeys;
  }

  /** What a successful map encoding is made of. */
  lemma MapShape(ps: seq<Pair>)
    requires Encode(Map(ps)).Ok?
    ensures EncodePairs(ps).Ok? && EncHead(5, |ps|).Ok?
    ensures var es := EncodePairs(ps).value;
            && Encodes(ps, es) && DistinctKeys(es) && Ascending(Sort(es))
            && Encode(Map(ps)).value == EncHead(5, |ps|).value + Flatten(Sort(es))
  {
    hide Encode, EncodePairs, EncHead, Flatten, Sort;
    MapUnfold(ps);
    var es := EncodePairs(ps).value;
    EncodePairsEach(ps, es);
    SortAscending(es);
  }

  // ---- Unique decodability -----------------------------------------------------------------------

  ghost function Major(v: Value): (major: nat)
    ensures major < 8
  {
    match v
    case Bool(_) => 7
    case Int(i) => if i < 0 then 1 else 0
    case Bstr(_) => 2
    case Tstr(_) => 3
    case Arr(_) => 4
    case Map(_) => 5
    case Tag(_, _) => 6
  }

  ghost function Argument(v: Value): int {
    match v
    case Bool(_) => 0
    case Int(i) => if i < 0 then -1 - i else i
    case Bstr(b) => |b|
    case Tstr(b) => |b|
    case Arr(xs) => |xs|
    case Map(ps) => |ps|
    case Tag(n, _) => n
  }

  ghost function Body(v: Value): Bytes
    requires Encode(v).Ok?
  {
    match v
    case Int(_) => []
    case Bstr(b) => b
    case Tstr(b) => b
    case Arr(xs) => EncodeItems(xs).value
    case Map(ps) => Flatten(Sort(EncodePairs(ps).value))
    case Tag(_, c) => Encode(c).value
  }

  lemma HeadAndBody(v: Value)
    requires Encode(v).Ok?
    ensures EncHead(Major(v), Argument(v)).Ok?
    ensures Encode(v).value == EncHead(Major(v), Argument(v)).value + Body(v)
  {
    hide EncHead;
  }

  /** Two encodings that start the same octet string are one encoding, of one value. */
  lemma {:induction false} Unique(v: Value, w: Value, s: Bytes, t: Bytes)
    requires Encode(v).Ok? && Encode(w).Ok?
    requires Encode(v).value + s == Encode(w).value + t
    ensures Same(v, w) && s == t && Encode(v) == Encode(w)
    decreases v, 3
  {
    HeadAndBody(v);
    HeadAndBody(w);
    UniqueHeads(v, w, s, t);
    UniqueBodies(v, w, s, t);
    assert (Encode(v).value + s)[..|Encode(v).value|] == Encode(v).value;
    assert (Encode(w).value + t)[..|Encode(w).value|] == Encode(w).value;
  }

  lemma UniqueHeads(v: Value, w: Value, s: Bytes, t: Bytes)
    requires Encode(v).Ok? && Encode(w).Ok?
    requires Encode(v).value + s == Encode(w).value + t
    ensures Major(v) == Major(w) && Argument(v) == Argument(w) && Body(v) + s == Body(w) + t
  {
    hide Encode, EncHead, Body, Major, Argument;
    HeadAndBody(v);
    HeadAndBody(w);
    var a, b := EncHead(Major(v), Argument(v)).value, EncHead(Major(w), Argument(w)).value;
    assert (a + Body(v)) + s == a + (Body(v) + s) && (b + Body(w)) + t == b + (Body(w) + t);
    HeadUnique(Major(v), Argument(v), Major(w), Argument(w), Body(v) + s, Body(w) + t);
  }

  lemma {:induction false} UniqueBodies(v: Value, w: Value, s: Bytes, t: Bytes)
    requires Encode(v).Ok? && Encode(w).Ok?
    requires Major(v) == Major(w) && Argument(v) == Argument(w)
    requires Body(v) + s == Body(w) + t
    ensures Same(v, w) && s == t
    decreases v, 2
  {
    match v
    case Int(i) => assert [] + s == s && [] + t == t;
    case Bstr(b) => SplitEqual(b, s, w.octets, t);
    case Tstr(b) => SplitEqual(b, s, w.utf8, t);
    case Arr(xs) => UniqueItems(xs, w.items, s, t);
    case Tag(_, c) => Unique(c, w.content, s, t);
    case Map(ps) => UniqueMaps(ps, w.pairs, s, t);
  }

  lemma SplitEqual(a: Bytes, s: Bytes, b: Bytes, t: Bytes)
    requires a + s == b + t && |a| == |b|
    ensures a == b && s == t
  {
    assert (a + s)[..|a|] == a && (b + t)[..|a|] == b;
    assert (a + s)[|a|..] == s && (b + t)[|a|..] == t;
  }

  lemma {:induction false} UniqueItems(xs: seq<Value>, ys: seq<Value>, s: Bytes, t: Bytes)
    requires |xs| == |ys| && EncodeItems(xs).Ok? && EncodeItems(ys).Ok?
    requires EncodeItems(xs).value + s == EncodeItems(ys).value + t
    ensures forall i :: 0 <= i < |xs| ==> Same(xs[i], ys[i])
    ensures s == t
    decreases xs, 0
  {
    if xs == [] {
      assert [] + s == s && [] + t == t;
    } else {
      hide Same;
      var a, a' := Encode(xs[0]).value, EncodeItems(xs[1..]).value;
      var b, b' := Encode(ys[0]).value, EncodeItems(ys[1..]).value;
      assert (a + a') + s == a + (a' + s) && (b + b') + t == b + (b' + t);
      Unique(xs[0], ys[0], a' + s, b' + t);
      UniqueItems(xs[1..], ys[1..], s, t);
      forall i | 0 <= i < |xs| ensures Same(xs[i], ys[i]) {
        if i > 0 { assert Same(xs[1..][i - 1], ys[1..][i - 1]); }
      }
    }
  }

  /** e is the encoding of one of the pairs. */
  ghost predicate EncodedIn(e: Entry, ps: seq<Pair>) {
    exists i :: 0 <= i < |ps| && EncodePair(ps[i]) == Ok(e)
  }

  lemma {:induction false} UniqueLists(ps: seq<Pair>, qs: seq<Pair>, es: seq<Entry>, fs: seq<Entry>, s: Bytes, t: Bytes)
    requires |es| == |fs| && Flatten(es) + s == Flatten(fs) + t
    requires (forall e :: e in es ==> EncodedIn(e, ps)) && (forall f :: f in fs ==> EncodedIn(f, qs))
    ensures es == fs && s == t
    decreases ps, 1, |es|
  {
    if es == [] {
      assert [] + s == s && [] + t == t;
    } else {
      assert EncodedIn(es[0], ps) && EncodedIn(fs[0], qs);
      var i :| 0 <= i < |ps| && EncodePair(ps[i]) == Ok(es[0]);
      var j :| 0 <= j < |qs| && EncodePair(qs[j]) == Ok(fs[0]);
      var es', fs' := Flatten(es[1..]) + s, Flatten(fs[1..]) + t;
      assert Flatten(es) + s == es[0].0 + (es[0].1 + es');
      assert Flatten(fs) + t == fs[0].0 + (fs[0].1 + fs');
      UniquePair(ps[i], qs[j], es', fs');
      UniqueLists(ps, qs, es[1..], fs[1..], s, t);
      assert es == [es[0]] + es[1..] && fs == [fs[0]] + fs[1..];
    }
  }

  lemma {:induction false} UniquePair(p: Pair, q: Pair, s: Bytes, t: Bytes)
    requires EncodePair(p).Ok? && EncodePair(q).Ok?
    requires var e, f := EncodePair(p).value, EncodePair(q).value; e.0 + (e.1 + s) == f.0 + (f.1 + t)
    ensures SamePair(p, q) && EncodePair(p) == EncodePair(q) && s == t
    decreases p, 4
  {
    hide Same;
    var e, f := EncodePair(p).value, EncodePair(q).value;
    Unique(p.key, q.key, e.1 + s, f.1 + t);
    Unique(p.val, q.val, s, t);
  }

  lemma {:induction false} UniqueMaps(ps: seq<Pair>, qs: seq<Pair>, s: Bytes, t: Bytes)
    requires |ps| == |qs| && Encode(Map(ps)).Ok? && Encode(Map(qs)).Ok?
    requires Body(Map(ps)) + s == Body(Map(qs)) + t
    ensures s == t && Same(Map(ps), Map(qs))
    decreases ps, 2
  {
    MapShape(ps);
    MapShape(qs);
    var es, fs := EncodePairs(ps).value, EncodePairs(qs).value;
    assert Flatten(Sort(es)) + s == Flatten(Sort(fs)) + t;
    hide Encode, Flatten, Sort, EncodePairs, EncodePair;
    EntriesEncoded(ps, es);
    EntriesEncoded(qs, fs);
    UniqueLists(ps, qs, Sort(es), Sort(fs), s, t);
    var p := Match(es, fs);
    forall i | 0 <= i < |ps| ensures SamePair(ps[i], qs[p[i]]) {
      UniquePair(ps[i], qs[p[i]], [], []);
    }
  }

  lemma EntriesEncoded(ps: seq<Pair>, es: seq<Entry>)
    requires Encodes(ps, es)
    ensures forall e :: e in Sort(es) ==> EncodedIn(e, ps)
  {
    hide EncodePair;
    forall e | e in Sort(es) ensures EncodedIn(e, ps) {
      assert e in es;
      var i :| 0 <= i < |es| && es[i] == e;
      assert EncodePair(ps[i]) == Ok(e);
    }
  }

  /** Lists with the same elements and distinct keys are permutations of one another. */
  lemma Match(es: seq<Entry>, fs: seq<Entry>) returns (p: seq<nat>)
    requires |es| == |fs| && DistinctKeys(es)
    requires forall e :: e in es ==> e in fs
    ensures Permutation(p, |es|)
    ensures forall i :: 0 <= i < |es| ==> es[i] == fs[p[i]]
  {
    p := [];
    while |p| < |es|
      invariant |p| <= |es|
      invariant forall i :: 0 <= i < |p| ==> p[i] < |fs| && es[i] == fs[p[i]]
    {
      assert es[|p|] in fs;
      var j: nat :| j < |fs| && fs[j] == es[|p|];
      p := p + [j];
    }
    assert forall i, j :: 0 <= i < j < |p| ==> es[i].0 != es[j].0;
  }

  // ---- Equal up to order implies equal encodings ----------------------------------------------------

  lemma {:induction false} SameEncoding(v: Value, w: Value)
    requires Same(v, w) && Encode(v).Ok?
    ensures Encode(w) == Encode(v)
    decreases v, 2
  {
    match v
    case Arr(xs) => SameItems(xs, w.items);
    case Tag(_, c) => SameEncoding(c, w.content);
    case Map(ps) => SameMaps(ps, w.pairs);
    case _ =>
  }

  lemma {:induction false} SameItems(xs: seq<Value>, ys: seq<Value>)
    requires |xs| == |ys| && EncodeItems(xs).Ok?
    requires forall i :: 0 <= i < |xs| ==> Same(xs[i], ys[i])
    ensures EncodeItems(ys) == EncodeItems(xs)
    decreases xs, 0
  {
    if xs != [] {
      SameEncoding(xs[0], ys[0]);
      SameItems(xs[1..], ys[1..]);
    }
  }

  lemma {:induction false} SameEntry(a: Pair, b: Pair)
    requires SamePair(a, b) && EncodePair(a).Ok?
    ensures EncodePair(b) == EncodePair(a)
    decreases a, 3
  {
    SameEncoding(a.key, b.key);
    SameEncoding(a.val, b.val);
  }

  lemma Matching(ps: seq<Pair>, qs: seq<Pair>) returns (p: seq<nat>)
    requires Same(Map(ps), Map(qs))
    ensures |ps| == |qs| && Permutation(p, |ps|)
    ensures forall i :: 0 <= i < |ps| ==> SamePair(ps[i], qs[p[i]])
  {
    hide SamePair;
    p :| Permutation(p, |ps|) && forall i :: 0 <= i < |ps| ==> SamePair(ps[i], qs[p[i]]);
  }

  lemma {:induction false} SameMaps(ps: seq<Pair>, qs: seq<Pair>)
    requires Same(Map(ps), Map(qs)) && Encode(Map(ps)).Ok?
    ensures Encode(Map(qs)) == Encode(Map(ps))
    decreases ps, 1
  {
    hide Encode, EncodePair, EncodePairs, Sort, Flatten, SamePair, Same;
    MapShape(ps);
    var es := EncodePairs(ps).value;
    var p := Matching(ps, qs);
    forall i | 0 <= i < |ps| ensures EncodePair(qs[p[i]]) == Ok(es[i]) {
      SameEntry(ps[i], qs[p[i]]);
    }
    var q := Inverse(p, |ps|);
    var fs := seq(|qs|, j requires 0 <= j < |qs| => es[q[j]]);
    forall j | 0 <= j < |qs| ensures EncodePair(qs[j]) == Ok(fs[j]) {
      assert EncodePair(qs[p[q[j]]]) == Ok(es[q[j]]);
    }
    Reassemble(ps, qs, es, fs, q);
  }

  lemma Reassemble(ps: seq<Pair>, qs: seq<Pair>, es: seq<Entry>, fs: seq<Entry>, q: seq<nat>)
    requires |ps| == |qs| && Encode(Map(ps)).Ok? && EncodePairs(ps) == Ok(es) && Encodes(qs, fs)
    requires Permutation(q, |ps|) && |es| == |ps| && forall j :: 0 <= j < |qs| ==> fs[j] == es[q[j]]
    ensures Encode(Map(qs)) == Encode(Map(ps))
  {
    hide Encode, EncodePairs, EncodePair, EncHead, Flatten, Sort;
    MapShape(ps);
    MapUnfold(ps);
    MapUnfold(qs);
    EncodePairsEach(qs, fs);
    assert DistinctKeys(fs) by {
      forall i, j | 0 <= i < j < |fs| ensures fs[i].0 != fs[j].0 { assert q[i] != q[j]; }
    }
    SortAscending(fs);
    forall x ensures x in Sort(es) <==> x in Sort(fs) {
      if x in es {
        var i: nat :| i < |es| && es[i] == x;
        Onto(q, |ps|, i);
        var j :| 0 <= j < |q| && q[j] == i;
        assert fs[j] == x;
      }
      if x in fs {
        var j :| 0 <= j < |fs| && fs[j] == x;
        assert es[q[j]] == x;
      }
    }
    AscendingUnique(Sort(es), Sort(fs));
  }

  // ---- Main theorems ----------------------------------------------------------------------------------

  /** Canonical: encodings agree exactly when the values agree up to the order of map pairs. */
  lemma EncodingCanonical(v: Value, w: Value)
    requires Encode(v).Ok? && Encode(w).Ok?
    ensures Encode(v) == Encode(w) <==> Same(v, w)
  {
    if Same(v, w) { SameEncoding(v, w); }
    if Encode(v) == Encode(w) { Unique(v, w, [], []); }
  }

  /** No encoding is a proper prefix of another. */
  lemma PrefixFree(v: Value, w: Value)
    requires Encode(v).Ok? && Encode(w).Ok? && Encode(v).value <= Encode(w).value
    ensures Encode(v) == Encode(w)
  {
    var rest := Encode(w).value[|Encode(v).value|..];
    assert Encode(v).value + rest == Encode(w).value + [];
    Unique(v, w, rest, []);
  }

  /** A map is emitted as its head and its entries in strictly ascending key order. */
  lemma MapAscending(ps: seq<Pair>) returns (es: seq<Entry>)
    requires Encode(Map(ps)).Ok?
    ensures Encode(Map(ps)).value == EncHead(5, |ps|).value + Flatten(es)
    ensures Ascending(es) && |es| == |ps|
    ensures forall e :: e in es <==> EncodedIn(e, ps)
  {
    MapShape(ps);
    var fs := EncodePairs(ps).value;
    es := Sort(fs);
    EntriesEncoded(ps, fs);
    forall e | EncodedIn(e, ps) ensures e in es {
      var i :| 0 <= i < |ps| && EncodePair(ps[i]) == Ok(e);
      assert fs[i] == e;
    }
  }
}
