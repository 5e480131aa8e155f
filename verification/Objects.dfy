/** Object bodies and their content ids: numbered fields, with field 1 (the id itself) left out. */
module Objects {
  import opened Octets
  import opened Cbor
  import opened CborCanonical
  import SortedSets

  type ObjectFields = map<int, Value>

  /** `body_map`: the fields in key order, with or without field 1. */
  ghost function BodyMap(fields: ObjectFields, includeId: bool): (v: Value)
    ensures v.Map?
  {
    var keys := SortedSets.Ascending(fields.Keys - if includeId then {} else {1});
    Map(seq(|keys|, i requires 0 <= i < |keys| =>
      assert keys[i] in keys;
      Pair(Int(keys[i]), fields[keys[i]])))
  }

  /** `content_id`: the framed digest of the body without field 1. */
  ghost function ObjectId(h: Hash, fields: ObjectFields): Result<Bytes> {
    var body :- Encode(BodyMap(fields, false));
    Ok(ContentId(h, body))
  }

  ghost predicate PairOf(p: Pair, fields: ObjectFields, includeId: bool) {
    p.key.Int? && p.key.i in fields && (includeId || p.key.i != 1) && p.val == fields[p.key.i]
  }

  /** The body holds every field but the id, and the id when asked for, in ascending order of key. */
  lemma BodyPairs(fields: ObjectFields, includeId: bool)
    ensures var ps := BodyMap(fields, includeId).pairs;
            && (forall i :: 0 <= i < |ps| ==> PairOf(ps[i], fields, includeId))
            && (forall k :: k in fields && (includeId || k != 1) ==> exists i :: 0 <= i < |ps| && ps[i].key == Int(k))
            && (forall i, j :: 0 <= i < j < |ps| ==> ps[i].key.i < ps[j].key.i)
  {
    hide SortedSets.Ascending;
    var keys := SortedSets.Ascending(fields.Keys - if includeId then {} else {1});
    var ps := BodyMap(fields, includeId).pairs;
    forall i | 0 <= i < |ps| ensures PairOf(ps[i], fields, includeId) { assert keys[i] in keys; }
    forall k | k in fields && (includeId || k != 1) ensures exists i :: 0 <= i < |ps| && ps[i].key == Int(k) {
      assert k in keys;
      var i :| 0 <= i < |keys| && keys[i] == k;
      assert ps[i].key == Int(k);
    }
  }

  /** Fields other than the id agree, up to the order of map pairs inside them. */
  ghost predicate SameFields(f: ObjectFields, g: ObjectFields) {
    && f.Keys - {1} == g.Keys - {1}
    && forall k :: k in f && k in g && k != 1 ==> Same(f[k], g[k])
  }

  lemma SameBodySameFields(f: ObjectFields, g: ObjectFields)
    requires Same(BodyMap(f, false), BodyMap(g, false))
    ensures SameFields(f, g)
  {
    hide BodyMap, Same;
    var ps, qs := BodyMap(f, false).pairs, BodyMap(g, false).pairs;
    BodyPairs(f, false);
    BodyPairs(g, false);
    var p := Matching(ps, qs);
    forall i | 0 <= i < |ps| ensures ps[i].key == qs[p[i]].key && Same(ps[i].val, qs[p[i]].val) {
      IntKeysSame(ps[i], qs[p[i]]);
    }
    forall k | k in f && k != 1 ensures k in g && Same(f[k], g[k]) {
      var i :| 0 <= i < |ps| && ps[i].key == Int(k);
      assert PairOf(ps[i], f, false) && PairOf(qs[p[i]], g, false);
    }
    forall k | k in g && k != 1 ensures k in f { KeyBack(f, g, ps, qs, p, k); }
  }

  lemma KeyBack(f: ObjectFields, g: ObjectFields, ps: seq<Pair>, qs: seq<Pair>, p: seq<nat>, k: int)
    requires |ps| == |qs| && Permutation(p, |ps|)
    requires forall i :: 0 <= i < |ps| ==> PairOf(ps[i], f, false) && ps[i].key == qs[p[i]].key
    requires exists j :: 0 <= j < |qs| && qs[j].key == Int(k)
    ensures k in f
  {
    var j: nat :| j < |qs| && qs[j].key == Int(k);
    Onto(p, |ps|, j);
    var i :| 0 <= i < |p| && p[i] == j;
    assert PairOf(ps[i], f, false);
  }

  lemma IntKeysSame(p: Pair, q: Pair)
    requires SamePair(p, q) && p.key.Int?
    ensures p.key == q.key && Same(p.val, q.val)
  {}

  lemma SameFieldsSameBody(f: ObjectFields, g: ObjectFields)
    requires SameFields(f, g)
    ensures Same(BodyMap(f, false), BodyMap(g, false))
  {
    var ps, qs := BodyMap(f, false).pairs, BodyMap(g, false).pairs;
    var keys := SortedSets.Ascending(f.Keys - {1});
    var p: seq<nat> := seq(|ps|, i requires 0 <= i < |ps| => i);
    forall i | 0 <= i < |ps| ensures SamePair(ps[i], qs[p[i]]) {
      assert keys[i] in keys;
    }
    assert Permutation(p, |ps|);
  }

  /** A content id names the fields of its object: equal ids mean equal fields or a collision of
      the two bodies, and equal fields mean equal ids. */
  lemma ObjectIdBinds(h: Hash, f: ObjectFields, g: ObjectFields)
    requires ObjectId(h, f).Ok? && ObjectId(h, g).Ok?
    ensures var x, y := Encode(BodyMap(f, false)).value, Encode(BodyMap(g, false)).value;
            && (ObjectId(h, f) == ObjectId(h, g) ==> SameFields(f, g) || Collision(h, {x, y}))
            && (SameFields(f, g) ==> ObjectId(h, f) == ObjectId(h, g))
  {
    hide Encode, BodyMap, Same;
    var x, y := Encode(BodyMap(f, false)).value, Encode(BodyMap(g, false)).value;
    EncodingCanonical(BodyMap(f, false), BodyMap(g, false));
    if SameFields(f, g) { SameFieldsSameBody(f, g); }
    if ObjectId(h, f) == ObjectId(h, g) {
      assert ContentId(h, x)[2..] == h(x) && ContentId(h, y)[2..] == h(y);
      if x == y { SameBodySameFields(f, g); }
    }
  }

  /** Self-certifying: storing the id as field 1 does not change the id. */
  lemma IdExcludesItself(h: Hash, f: ObjectFields, v: Value)
    ensures ObjectId(h, f[1 := v]) == ObjectId(h, f)
  {
    hide Encode, SortedSets.Ascending;
    assert f[1 := v].Keys - {1} == f.Keys - {1};
    assert BodyMap(f[1 := v], false) == BodyMap(f, false);
  }
}
