/** Where the registry validator's reading of the keywords is JSON Schema's, and exactly where not. */
module Conformance {
  import opened Octets
  import opened Registry

  // ---- Equality of constants -----------------------------------------------------------------------

  /** The two kinds of leaf that Python equality confuses. */
  datatype Leaf = Boolean | Bit

  predicate IsLeaf(v: Json, k: Leaf) {
    match k
    case Boolean => v.Bool?
    case Bit => Numeric(v) && (Value(v) == 0.0 || Value(v) == 1.0)
  }

  /** v holds such a leaf, at any depth. */
  predicate Somewhere(v: Json, k: Leaf)
    decreases v, 0
  {
    match v
    case Arr(xs) => exists i :: 0 <= i < |xs| && Somewhere(xs[i], k)
    case Obj(ms) => exists i :: 0 <= i < |ms| && SomewhereIn(ms[i], k)
    case _ => IsLeaf(v, k)
  }

  predicate SomewhereIn(m: Member, k: Leaf)
    decreases m, 1
  {
    Somewhere(m.value, k)
  }

  /** No boolean of one value can meet a 0 or 1 of the other. */
  predicate Apart(v: Json, w: Json) {
    && !(Somewhere(v, Boolean) && Somewhere(w, Bit))
    && !(Somewhere(v, Bit) && Somewhere(w, Boolean))
  }

  ghost predicate DistinctNames(ms: seq<Member>) {
    forall i, j :: 0 <= i < j < |ms| ==> ms[i].name != ms[j].name
  }

  /** Member names are unique in every object, as in any value a JSON reader returns. */
  ghost predicate WellFormed(v: Json)
    decreases v, 0
  {
    match v
    case Arr(xs) => forall i :: 0 <= i < |xs| ==> WellFormed(xs[i])
    case Obj(ms) => DistinctNames(ms) && forall i :: 0 <= i < |ms| ==> MemberWellFormed(ms[i])
    case _ => true
  }

  ghost predicate MemberWellFormed(m: Member)
    decreases m, 1
  {
    WellFormed(m.value)
  }

  lemma {:induction false} LookupIn(ms: seq<Member>, name: string) returns (k: nat)
    requires Lookup(ms, name).Some?
    ensures k < |ms| && ms[k].name == name && ms[k].value == Lookup(ms, name).value
  {
    if ms[0].name == name {
      k := 0;
    } else {
      k := LookupIn(ms[1..], name);
      k := k + 1;
    }
  }

  lemma LookupAt(ms: seq<Member>, k: nat)
    requires DistinctNames(ms) && k < |ms|
    ensures Lookup(ms, ms[k].name) == Some(ms[k].value)
  {
    assert Lookup(ms, ms[k].name).Some?;
    var j := LookupIn(ms, ms[k].name);
    assert j == k;
  }

  /** JSON equality implies Python equality, and the converse holds of values kept apart. */
  lemma {:induction false} EqualityAgrees(v: Json, w: Json)
    ensures JsonEq(v, w) ==> PyEq(v, w)
    ensures Apart(v, w) ==> (PyEq(v, w) <==> JsonEq(v, w))
    decreases v, 0
  {
    match v
    case Arr(xs) =>
      if w.Arr? && |xs| == |w.items| {
        forall i | 0 <= i < |xs|
          ensures JsonEq(xs[i], w.items[i]) ==> PyEq(xs[i], w.items[i])
          ensures Apart(v, w) ==> (PyEq(xs[i], w.items[i]) <==> JsonEq(xs[i], w.items[i]))
        {
          EqualityAgrees(xs[i], w.items[i]);
        }
      }
    case Obj(ms) =>
      if w.Obj? && |ms| == |w.members| {
        forall i | 0 <= i < |ms|
          ensures MemberEq(ms[i], w.members) ==> PyMemberEq(ms[i], w.members)
          ensures Apart(v, w) ==> (PyMemberEq(ms[i], w.members) <==> MemberEq(ms[i], w.members))
        {
          MemberAgrees(v, i, w);
        }
      }
    case _ =>
  }

  lemma {:induction false} MemberAgrees(v: Json, i: nat, w: Json)
    requires v.Obj? && w.Obj? && i < |v.members|
    ensures MemberEq(v.members[i], w.members) ==> PyMemberEq(v.members[i], w.members)
    ensures Apart(v, w) ==> (PyMemberEq(v.members[i], w.members) <==> MemberEq(v.members[i], w.members))
    decreases v.members[i], 1
  {
    hide Lookup;
    var m := v.members[i];
    if Lookup(w.members, m.name).Some? {
      var j := LookupIn(w.members, m.name);
      EqualityAgrees(m.value, w.members[j].value);
      assert forall k :: SomewhereIn(m, k) ==> Somewhere(v, k);
      assert forall k :: SomewhereIn(w.members[j], k) ==> Somewhere(w, k);
    }
  }

  lemma {:induction false} PyEqReflexive(v: Json)
    requires WellFormed(v)
    ensures PyEq(v, v)
    decreases v, 0
  {
    match v
    case Arr(xs) => forall i | 0 <= i < |xs| ensures PyEq(xs[i], xs[i]) { PyEqReflexive(xs[i]); }
    case Obj(ms) => forall i | 0 <= i < |ms| ensures PyMemberEq(ms[i], ms) { MemberReflexive(ms, i); }
    case _ =>
  }

  lemma {:induction false} MemberReflexive(ms: seq<Member>, i: nat)
    requires i < |ms| && DistinctNames(ms) && MemberWellFormed(ms[i])
    ensures PyMemberEq(ms[i], ms)
    decreases ms[i], 1
  {
    LookupAt(ms, i);
    PyEqReflexive(ms[i].value);
  }

  /** A boolean, or a 0 or 1, anywhere in a constant makes another value equal to it in Python only. */
  lemma {:induction false} Confused(c: Json, k: Leaf) returns (v: Json)
    requires WellFormed(c) && Somewhere(c, k)
    ensures WellFormed(v) && PyEq(v, c) && !JsonEq(v, c)
    decreases c, 0
  {
    match c
    case Arr(xs) =>
      var i :| 0 <= i < |xs| && Somewhere(xs[i], k);
      var x := Confused(xs[i], k);
      v := ConfusedArray(xs, i, x);
    case Obj(ms) =>
      var i :| 0 <= i < |ms| && SomewhereIn(ms[i], k);
      var x := ConfusedMember(ms[i], k);
      v := ConfusedObject(ms, i, x);
    case Bool(b) => v := AsNumber(b);
    case _ => v := Bool(c == Int(1) || c == Float(1.0));
  }

  lemma {:induction false} ConfusedMember(m: Member, k: Leaf) returns (x: Json)
    requires MemberWellFormed(m) && SomewhereIn(m, k)
    ensures WellFormed(x) && PyEq(x, m.value) && !JsonEq(x, m.value)
    decreases m, 1
  {
    x := Confused(m.value, k);
  }

  lemma ConfusedArray(xs: seq<Json>, i: nat, x: Json) returns (v: Json)
    requires WellFormed(Arr(xs)) && i < |xs|
    requires WellFormed(x) && PyEq(x, xs[i]) && !JsonEq(x, xs[i])
    ensures WellFormed(v) && PyEq(v, Arr(xs)) && !JsonEq(v, Arr(xs))
  {
    var ys := xs[i := x];
    v := Arr(ys);
    forall j | 0 <= j < |ys| ensures PyEq(ys[j], xs[j]) { if j != i { PyEqReflexive(xs[j]); } }
    assert !JsonEq(ys[i], xs[i]);
  }

  lemma ConfusedObject(ms: seq<Member>, i: nat, x: Json) returns (v: Json)
    requires WellFormed(Obj(ms)) && i < |ms|
    requires WellFormed(x) && PyEq(x, ms[i].value) && !JsonEq(x, ms[i].value)
    ensures WellFormed(v) && PyEq(v, Obj(ms)) && !JsonEq(v, Obj(ms))
  {
    hide Lookup;
    var ns := ms[i := Member(ms[i].name, x)];
    v := Obj(ns);
    LookupAt(ms, i);
    forall j | 0 <= j < |ns| ensures PyMemberEq(ns[j], ms) { if j != i { MemberReflexive(ms, j); } }
    assert !MemberEq(ns[i], ms);
    assert forall j :: 0 <= j < |ns| ==> MemberWellFormed(ns[j]);
  }

  /** A constant is compared as JSON Schema compares it, with every instance, exactly when it holds
      no boolean and no number equal to 0 or 1. */
  lemma ConstAgreesExactly(c: Json)
    requires WellFormed(c)
    ensures (forall v :: WellFormed(v) ==> (PyEq(v, c) <==> JsonEq(v, c)))
            <==> !Somewhere(c, Boolean) && !Somewhere(c, Bit)
  {
    if !Somewhere(c, Boolean) && !Somewhere(c, Bit) {
      forall v ensures PyEq(v, c) <==> JsonEq(v, c) { EqualityAgrees(v, c); }
    } else if Somewhere(c, Boolean) {
      var v := Confused(c, Boolean);
    } else {
      var v := Confused(c, Bit);
    }
  }

  // ---- Lists of constants ----------------------------------------------------------------------------------

  /** w is c with some booleans exchanged for their number, or some 0 or 1 for their boolean. */
  predicate Variant(w: Json, c: Json)
    decreases c, 0
  {
    match c
    case Bool(b) => w == c || w == AsNumber(b)
    case Int(i) => w == c || (IsLeaf(c, Bit) && w == Bool(i == 1))
    case Float(r) => w == c || (IsLeaf(c, Bit) && w == Bool(r == 1.0))
    case Arr(xs) => w.Arr? && |w.items| == |xs| && forall i :: 0 <= i < |xs| ==> Variant(w.items[i], xs[i])
    case Obj(ms) => w.Obj? && |w.members| == |ms| && forall i :: 0 <= i < |ms| ==> MemberVariant(w.members[i], ms[i])
    case _ => w == c
  }

  predicate MemberVariant(n: Member, m: Member)
    decreases m, 1
  {
    n.name == m.name && Variant(n.value, m.value)
  }

  lemma {:induction false} VariantMeaning(w: Json, c: Json)
    requires WellFormed(c) && Variant(w, c)
    ensures WellFormed(w) && PyEq(w, c)
    decreases c, 0
  {
    match c
    case Arr(xs) =>
      forall i | 0 <= i < |xs| ensures WellFormed(w.items[i]) && PyEq(w.items[i], xs[i]) {
        VariantMeaning(w.items[i], xs[i]);
      }
    case Obj(ms) =>
      forall i | 0 <= i < |ms|
        ensures MemberWellFormed(w.members[i]) && w.members[i].name == ms[i].name && PyMemberEq(w.members[i], ms)
      {
        MemberVariantMeaning(w.members[i], ms, i);
      }
    case _ =>
  }

  lemma {:induction false} MemberVariantMeaning(n: Member, ms: seq<Member>, i: nat)
    requires i < |ms| && DistinctNames(ms) && MemberWellFormed(ms[i]) && MemberVariant(n, ms[i])
    ensures MemberWellFormed(n) && n.name == ms[i].name && PyMemberEq(n, ms)
    decreases ms[i], 1
  {
    LookupAt(ms, i);
    VariantMeaning(n.value, ms[i].value);
  }

  lemma {:induction false} JsonEqTransitive(a: Json, b: Json, c: Json)
    requires JsonEq(a, b) && JsonEq(b, c)
    ensures JsonEq(a, c)
    decreases a, 0
  {
    match a
    case Arr(xs) =>
      forall i | 0 <= i < |xs| ensures JsonEq(xs[i], c.items[i]) { JsonEqTransitive(xs[i], b.items[i], c.items[i]); }
    case Obj(ms) =>
      forall i | 0 <= i < |ms| ensures MemberEq(ms[i], c.members) { MemberEqTransitive(ms[i], b, c); }
    case _ =>
  }

  lemma {:induction false} MemberEqTransitive(m: Member, b: Json, c: Json)
    requires b.Obj? && JsonEq(b, c) && MemberEq(m, b.members)
    ensures MemberEq(m, c.members)
    decreases m, 1
  {
    hide Lookup;
    var j := LookupIn(b.members, m.name);
    assert MemberEq(b.members[j], c.members);
    JsonEqTransitive(m.value, b.members[j].value, Lookup(c.members, m.name).value);
  }

  ghost function Names(ms: seq<Member>): seq<string> {
    seq(|ms|, i requires 0 <= i < |ms| => ms[i].name)
  }

  /** As many distinct names, all of them among the others, are all of the others. */
  lemma NamesCovered(ms: seq<Member>, others: seq<Member>, k: nat)
    requires DistinctNames(ms) && |ms| == |others| && k < |others|
    requires forall i :: 0 <= i < |ms| ==> Lookup(others, ms[i].name).Some?
    ensures Lookup(ms, others[k].name).Some?
  {
    var mine, theirs := Names(ms), Names(others);
    SetSize(mine);
    SetSize(theirs);
    var a, b := set x | x in mine, set x | x in theirs;
    forall x | x in a ensures x in b {
      var i :| 0 <= i < |mine| && mine[i] == x;
      var j := LookupIn(others, ms[i].name);
      assert theirs[j] == x;
    }
    SubsetSize(a, b);
    SameSize(a, b);
    assert theirs[k] in a;
  }

  /** Whatever Python calls equal to a constant is JSON-equal to one of its variants. */
  lemma {:induction false} NearestVariant(v: Json, c: Json) returns (w: Json)
    requires WellFormed(v) && WellFormed(c) && PyEq(v, c)
    ensures Variant(w, c) && JsonEq(v, w)
    decreases c, 0
  {
    match c
    case Arr(xs) =>
      var ws: seq<Json> := [];
      for i := 0 to |xs|
        invariant |ws| == i && forall j :: 0 <= j < i ==> Variant(ws[j], xs[j]) && JsonEq(v.items[j], ws[j])
      {
        var x := NearestVariant(v.items[i], xs[i]);
        ws := ws + [x];
      }
      w := Arr(ws);
    case Obj(ms) =>
      var ns: seq<Member> := [];
      for i := 0 to |ms|
        invariant |ns| == i && forall j :: 0 <= j < i ==> MemberVariant(ns[j], ms[j]) && Follows(v.members, ns[j])
      {
        var n := NearestMember(v.members, ms, i);
        ns := ns + [n];
      }
      w := FollowedObject(v.members, ms, ns);
    case Bool(b) => w := if v.Bool? then c else AsNumber(b);
    case _ => w := if v.Bool? then v else c;
  }

  /** The member of that name is JSON-equal. */
  ghost predicate Follows(ms: seq<Member>, n: Member) {
    Lookup(ms, n.name).Some? && JsonEq(Lookup(ms, n.name).value, n.value)
  }

  lemma {:induction false} NearestMember(vs: seq<Member>, ms: seq<Member>, i: nat) returns (n: Member)
    requires i < |ms| && |vs| == |ms| && WellFormed(Obj(vs)) && DistinctNames(ms) && MemberWellFormed(ms[i])
    requires forall j :: 0 <= j < |vs| ==> PyMemberEq(vs[j], ms)
    ensures MemberVariant(n, ms[i]) && Follows(vs, n)
    decreases ms[i], 1
  {
    NamesCovered(vs, ms, i);
    var k := LookupIn(vs, ms[i].name);
    LookupAt(ms, i);
    assert PyMemberEq(vs[k], ms) && MemberWellFormed(vs[k]);
    var x := NearestVariant(vs[k].value, ms[i].value);
    n := Member(ms[i].name, x);
  }

  lemma FollowedObject(vs: seq<Member>, ms: seq<Member>, ns: seq<Member>) returns (w: Json)
    requires DistinctNames(vs) && DistinctNames(ms) && |vs| == |ms| == |ns|
    requires forall j :: 0 <= j < |vs| ==> PyMemberEq(vs[j], ms)
    requires forall j :: 0 <= j < |ns| ==> MemberVariant(ns[j], ms[j]) && Follows(vs, ns[j])
    ensures Variant(w, Obj(ms)) && JsonEq(Obj(vs), w)
  {
    hide Lookup;
    w := Obj(ns);
    forall j | 0 <= j < |vs| ensures MemberEq(vs[j], ns) {
      assert PyMemberEq(vs[j], ms);
      var k := LookupIn(ms, vs[j].name);
      LookupAt(ns, k);
      LookupAt(vs, j);
      assert Follows(vs, ns[k]);
    }
  }

  ghost predicate InEnum(v: Json, es: seq<Json>) { exists i :: 0 <= i < |es| && PyEq(v, es[i]) }

  ghost predicate JsonInEnum(v: Json, es: seq<Json>) { exists i :: 0 <= i < |es| && JsonEq(v, es[i]) }

  /** Every variant of a listed constant is listed too. */
  ghost predicate VariantsListed(es: seq<Json>) {
    forall i, w :: 0 <= i < |es| && Variant(w, es[i]) ==> JsonInEnum(w, es)
  }

  /** A list of constants is compared as JSON Schema compares it, with every instance, exactly when it
      lists with each constant all its variants. */
  lemma EnumAgreesExactly(es: seq<Json>)
    requires forall i :: 0 <= i < |es| ==> WellFormed(es[i])
    ensures (forall v :: WellFormed(v) ==> (InEnum(v, es) <==> JsonInEnum(v, es)))
            <==> VariantsListed(es)
  {
    if forall v :: WellFormed(v) ==> (InEnum(v, es) <==> JsonInEnum(v, es)) {
      forall i, w | 0 <= i < |es| && Variant(w, es[i]) ensures JsonInEnum(w, es) { VariantMeaning(w, es[i]); }
    }
    if VariantsListed(es) {
      forall v | WellFormed(v) ensures InEnum(v, es) <==> JsonInEnum(v, es) { EnumReadsAlike(v, es); }
    }
  }

  lemma EnumReadsAlike(v: Json, es: seq<Json>)
    requires WellFormed(v) && forall i :: 0 <= i < |es| ==> WellFormed(es[i])
    requires VariantsListed(es)
    ensures InEnum(v, es) <==> JsonInEnum(v, es)
  {
    hide PyEq, JsonEq, Variant, WellFormed;
    if i :| 0 <= i < |es| && PyEq(v, es[i]) {
      var w := NearestVariant(v, es[i]);
      assert JsonInEnum(w, es);
      var j :| 0 <= j < |es| && JsonEq(w, es[j]);
      JsonEqTransitive(v, w, es[j]);
    }
    if i :| 0 <= i < |es| && JsonEq(v, es[i]) { EqualityAgrees(v, es[i]); }
  }

  /** Listing both true and 1 is such a list. */
  lemma EnumOfBothAgrees(v: Json)
    requires WellFormed(v)
    ensures InEnum(v, [Bool(true), Int(1)]) <==> JsonInEnum(v, [Bool(true), Int(1)])
  {
    var es := [Bool(true), Int(1)];
    forall i, w | 0 <= i < |es| && Variant(w, es[i]) ensures JsonInEnum(w, es) {
      if w == Bool(true) { assert JsonEq(w, es[0]); } else { assert JsonEq(w, es[1]); }
    }
    EnumAgreesExactly(es);
  }

  // ---- Types and ranges ----------------------------------------------------------------------------------

  predicate Integral(r: real) { r.Floor as real == r }

  /** JSON Schema's types: a number without a fractional part is an integer, however written. */
  predicate JsonType(v: Json, t: string) {
    TypeOk(v, t) || (t == "integer" && v.Float? && Integral(v.r))
  }

  ghost predicate TypesOk(v: Json, types: seq<string>) { exists i :: 0 <= i < |types| && TypeOk(v, types[i]) }

  ghost predicate JsonTypesOk(v: Json, types: seq<string>) {
    exists i :: 0 <= i < |types| && JsonType(v, types[i])
  }

  /** "integer" is listed, and nothing that would admit a float: not "number", no unknown name. */
  ghost predicate IntegersOnly(types: seq<string>) {
    "integer" in types
    && forall t :: t in types ==> t in {"string", "integer", "boolean", "array", "object", "null"}
  }

  lemma FloatTypes(r: real, t: string)
    ensures TypeOk(Float(r), t) <==> t !in {"string", "integer", "boolean", "array", "object", "null"}
  {}

  /** The type test is JSON Schema's exactly when it is not an integral float against integers only. */
  lemma TypesAgreeExactly(v: Json, types: seq<string>)
    ensures (TypesOk(v, types) <==> JsonTypesOk(v, types))
            <==> !(v.Float? && Integral(v.r) && IntegersOnly(types))
  {
    assert forall t :: TypeOk(v, t) ==> JsonType(v, t);
    if v.Float? && Integral(v.r) {
      forall t ensures TypeOk(v, t) <==> t !in {"string", "integer", "boolean", "array", "object", "null"} {
        FloatTypes(v.r, t);
      }
      hide TypeOk;
      if i :| 0 <= i < |types| && types[i] == "integer" { assert JsonType(v, types[i]); }
      if t :| t in types && TypeOk(v, t) { assert TypesOk(v, types); }
      assert forall i :: 0 <= i < |types| ==> types[i] in types;
    } else {
      assert forall t :: JsonType(v, t) ==> TypeOk(v, t);
    }
  }

  /** It is JSON Schema's for every instance exactly when floats are admitted or integers are not. */
  lemma TypesPortableExactly(types: seq<string>)
    ensures (forall v :: TypesOk(v, types) <==> JsonTypesOk(v, types)) <==> !IntegersOnly(types)
  {
    forall v ensures (TypesOk(v, types) <==> JsonTypesOk(v, types))
                     <==> !(v.Float? && Integral(v.r) && IntegersOnly(types))
    {
      TypesAgreeExactly(v, types);
    }
    hide TypesOk, JsonTypesOk, IntegersOnly;
    assert Integral(Float(1.0).r);
  }

  /** The bounds on a number, whole or not. */
  ghost predicate InBounds(x: real, s: Schema) {
    && (s.minimum.Some? ==> s.minimum.value <= x)
    && (s.maximum.Some? ==> x <= s.maximum.value)
  }

  /** The range test is JSON Schema's exactly when it is not a float outside the bounds. */
  lemma RangeAgreesExactly(v: Json, s: Schema)
    ensures ((v.Int? ==> RangeOk(v.i, s)) <==> (Numeric(v) ==> InBounds(Value(v), s)))
            <==> !(v.Float? && !InBounds(v.r, s))
  {}

  /** It is JSON Schema's for every instance exactly when there are no bounds. */
  lemma RangePortableExactly(s: Schema)
    ensures (forall v: Json :: (v.Int? ==> RangeOk(v.i, s)) <==> (Numeric(v) ==> InBounds(Value(v), s)))
            <==> s.minimum.None? && s.maximum.None?
  {
    if s.minimum.Some? {
      var low := Float(s.minimum.value - 1.0);
      assert !InBounds(Value(low), s);
    } else if s.maximum.Some? {
      var high := Float(s.maximum.value + 1.0);
      assert !InBounds(Value(high), s);
    }
  }

  // ---- Schemas -------------------------------------------------------------------------------------------

  /** A schema without keywords. */
  function Blank(): Schema {
    Schema(None, None, None, None, None, None, None, None, NoOneOf, None, [], false, [], None, None, None)
  }

  ghost predicate LocalConforms(find: Search, v: Json, s: Schema) {
    && (s.types.Some? ==> JsonTypesOk(v, s.types.value))
    && (s.constant.Some? ==> JsonEq(v, s.constant.value))
    && (s.enumeration.Some? ==> JsonInEnum(v, s.enumeration.value))
    && (v.Str? ==> TextOk(find, v.s, s))
    && (Numeric(v) ==> InBounds(Value(v), s))
  }

  /** The same keywords with JSON Schema's meaning; if, then and else speak of every instance. */
  ghost predicate Conforms(find: Search, v: Json, s: Schema)
    decreases s, 1
  {
    && LocalConforms(find, v, s)
    && (s.oneOf.Exactly? ==> OneConforms(find, v, s.oneOf))
    && (v.Arr? && s.items.Some? ==> forall i :: 0 <= i < |v.items| ==> Conforms(find, v.items[i], s.items.value))
    && (v.Obj? ==> NamesOk(v.members, s))
    && (v.Obj? ==> forall i :: 0 <= i < |s.properties| ==> PropertyConforms(find, v.members, s.properties[i]))
    && BranchConforms(find, v, s)
  }

  ghost predicate BranchConforms(find: Search, v: Json, s: Schema)
    decreases s, 0
  {
    s.condition.Some? ==>
      if Conforms(find, v, s.condition.value)
      then s.consequent.Some? ==> Conforms(find, v, s.consequent.value)
      else s.alternative.Some? ==> Conforms(find, v, s.alternative.value)
  }

  ghost predicate OneConforms(find: Search, v: Json, o: OneOf)
    requires o.Exactly?
    decreases o, 2
  {
    exists i :: ConformsOnly(find, v, o, i)
  }

  ghost predicate ConformsOnly(find: Search, v: Json, o: OneOf, i: int)
    requires o.Exactly?
    decreases o, 1
  {
    && 0 <= i < |o.subschemas| && Conforms(find, v, o.subschemas[i])
    && forall j :: 0 <= j < |o.subschemas| && j != i ==> !Conforms(find, v, o.subschemas[j])
  }

  ghost predicate PropertyConforms(find: Search, ms: seq<Member>, p: Property)
    decreases p, 2
  {
    Lookup(ms, p.name).Some? ==> Conforms(find, Lookup(ms, p.name).value, p.schema)
  }

  /** Reading if, then and else for objects only decides as reading them for every instance does. */
  ghost predicate ConditionalAgrees(find: Search, v: Json, s: Schema) {
    (v.Obj? ==> BranchConforms(find, v, s)) <==> BranchConforms(find, v, s)
  }

  /** It does so under every schema exactly for the instances that are objects. */
  lemma ConditionalAgreesExactly(find: Search, v: Json)
    ensures (forall s :: ConditionalAgrees(find, v, s)) <==> v.Obj?
  {
    if !v.Obj? {
      var nothing := Blank().(types := Some([]));
      var s := Blank().(condition := Some(Blank()), consequent := Some(nothing));
      assert Conforms(find, v, Blank()) && !Conforms(find, v, nothing);
      assert !ConditionalAgrees(find, v, s);
    }
  }

  ghost predicate EnumPortable(v: Json, es: seq<Json>) {
    || (forall i :: 0 <= i < |es| ==> Apart(v, es[i]))
    || (WellFormed(v) && (forall i :: 0 <= i < |es| ==> WellFormed(es[i])) && VariantsListed(es))
  }

  lemma EnumPortableAgrees(v: Json, es: seq<Json>)
    requires EnumPortable(v, es)
    ensures InEnum(v, es) <==> JsonInEnum(v, es)
  {
    hide PyEq, JsonEq, Apart, VariantsListed;
    if forall i :: 0 <= i < |es| ==> Apart(v, es[i]) {
      forall i | 0 <= i < |es| ensures PyEq(v, es[i]) <==> JsonEq(v, es[i]) { EqualityAgrees(v, es[i]); }
    } else {
      EnumReadsAlike(v, es);
    }
  }

  /** None of the departures at this value and this schema's own keywords. */
  ghost predicate LocalPortable(v: Json, s: Schema) {
    && (s.types.Some? ==> !(v.Float? && Integral(v.r) && IntegersOnly(s.types.value)))
    && (s.constant.Some? ==> Apart(v, s.constant.value))
    && (s.enumeration.Some? ==> EnumPortable(v, s.enumeration.value))
    && !(v.Float? && !InBounds(v.r, s))
    && (v.Obj? || s.condition.None? || (s.consequent.None? && s.alternative.None?))
  }

  /** None of the departures wherever the schema looks into the value. */
  ghost predicate Portable(v: Json, s: Schema)
    decreases s, 1
  {
    && LocalPortable(v, s)
    && (s.oneOf.Exactly? ==> EachPortable(v, s.oneOf))
    && (v.Arr? && s.items.Some? ==> forall i :: 0 <= i < |v.items| ==> Portable(v.items[i], s.items.value))
    && (v.Obj? ==> forall i :: 0 <= i < |s.properties| ==> PropertyPortable(v.members, s.properties[i]))
    && (v.Obj? && s.condition.Some? ==>
          && Portable(v, s.condition.value)
          && (s.consequent.Some? ==> Portable(v, s.consequent.value))
          && (s.alternative.Some? ==> Portable(v, s.alternative.value)))
  }

  ghost predicate EachPortable(v: Json, o: OneOf)
    requires o.Exactly?
    decreases o, 2
  {
    forall i :: 0 <= i < |o.subschemas| ==> Portable(v, o.subschemas[i])
  }

  ghost predicate PropertyPortable(ms: seq<Member>, p: Property)
    decreases p, 2
  {
    Lookup(ms, p.name).Some? ==> Portable(Lookup(ms, p.name).value, p.schema)
  }

  lemma LocalAgrees(find: Search, v: Json, s: Schema)
    requires LocalPortable(v, s)
    ensures LocalOk(find, v, s) <==> LocalConforms(find, v, s)
  {
    hide PyEq, JsonEq, Apart, TextOk, TypeOk, JsonType, RangeOk, InBounds;
    if s.types.Some? { TypesAgreeExactly(v, s.types.value); }
    if s.constant.Some? { EqualityAgrees(v, s.constant.value); }
    if s.enumeration.Some? { EnumPortableAgrees(v, s.enumeration.value); }
    RangeAgreesExactly(v, s);
  }

  /** Where no departure is met, the validator's reading of a schema is JSON Schema's. */
  lemma {:induction false} ReadingsAgree(find: Search, v: Json, s: Schema)
    requires Portable(v, s)
    ensures Satisfies(find, v, s) <==> Conforms(find, v, s)
    decreases s, 1
  {
    hide LocalOk, LocalConforms, OneOfOk, OneConforms, EachPortable, PropertyOk, PropertyConforms, PropertyPortable;
    SatisfiesUnfold(find, v, s);
    hide Satisfies;
    LocalAgrees(find, v, s);
    if s.oneOf.Exactly? { OneOfAgrees(find, v, s.oneOf); }
    if v.Arr? && s.items.Some? {
      forall i | 0 <= i < |v.items|
        ensures Satisfies(find, v.items[i], s.items.value) <==> Conforms(find, v.items[i], s.items.value)
      {
        ReadingsAgree(find, v.items[i], s.items.value);
      }
    }
    if v.Obj? {
      forall i | 0 <= i < |s.properties|
        ensures PropertyOk(find, v.members, s.properties[i]) <==> PropertyConforms(find, v.members, s.properties[i])
      {
        PropertyAgrees(find, v.members, s.properties[i]);
      }
      if s.condition.Some? {
        ReadingsAgree(find, v, s.condition.value);
        if s.consequent.Some? { ReadingsAgree(find, v, s.consequent.value); }
        if s.alternative.Some? { ReadingsAgree(find, v, s.alternative.value); }
      }
    }
  }

  lemma {:induction false} OneOfAgrees(find: Search, v: Json, o: OneOf)
    requires o.Exactly? && EachPortable(v, o)
    ensures OneOfOk(find, v, o) <==> OneConforms(find, v, o)
    decreases o, 2
  {
    hide Satisfies, Conforms;
    forall i | 0 <= i < |o.subschemas|
      ensures Satisfies(find, v, o.subschemas[i]) <==> Conforms(find, v, o.subschemas[i])
    {
      ReadingsAgree(find, v, o.subschemas[i]);
    }
    forall i ensures SatisfiesOnly(find, v, o, i) <==> ConformsOnly(find, v, o, i) {}
  }

  lemma {:induction false} PropertyAgrees(find: Search, ms: seq<Member>, p: Property)
    requires PropertyPortable(ms, p)
    ensures PropertyOk(find, ms, p) <==> PropertyConforms(find, ms, p)
    decreases p, 2
  {
    hide Satisfies, Conforms, Lookup;
    var found := Lookup(ms, p.name);
    if found.Some? { ReadingsAgree(find, found.value, p.schema); }
  }

  // ---- One witness for each departure --------------------------------------------------------------------

  /** The boolean true passes a const of 1. */
  lemma TrueSatisfiesConstOne(find: Search)
    ensures var s := Blank().(constant := Some(Int(1)));
            Satisfies(find, Bool(true), s) && !Conforms(find, Bool(true), s)
  {}

  /** The boolean true passes an enum of 1. */
  lemma TrueSatisfiesEnumOfOne(find: Search)
    ensures var s := Blank().(enumeration := Some([Int(1)]));
            Satisfies(find, Bool(true), s) && !Conforms(find, Bool(true), s)
  {
    assert PyEq(Bool(true), [Int(1)][0]);
  }

  /** 5.0 passes a maximum of 4. */
  lemma FloatEscapesMaximum(find: Search)
    ensures var s := Blank().(maximum := Some(4.0));
            Satisfies(find, Float(5.0), s) && !Conforms(find, Float(5.0), s)
  {}

  /** 1.0 is refused as an integer. */
  lemma IntegralFloatRefused(find: Search)
    ensures var s := Blank().(types := Some(["integer"]));
            !Satisfies(find, Float(1.0), s) && Conforms(find, Float(1.0), s)
  {
    assert JsonType(Float(1.0), ["integer"][0]);
  }

  /** then is ignored for an instance that is not an object. */
  lemma ConditionalSkipped(find: Search)
    ensures var s := Blank().(condition := Some(Blank()), consequent := Some(Blank().(types := Some(["string"]))));
            Satisfies(find, Int(5), s) && !Conforms(find, Int(5), s)
  {
    assert Conforms(find, Int(5), Blank());
    assert !Conforms(find, Int(5), Blank().(types := Some(["string"])));
  }

  /** The condition on a whole schema is not necessary: another keyword can hide a departure. */
  lemma DepartureHidden(find: Search)
    ensures var s := Blank().(types := Some(["string"]), constant := Some(Int(1)));
            !Portable(Bool(true), s) && !Satisfies(find, Bool(true), s) && !Conforms(find, Bool(true), s)
  {}
}
