/** Registry validation: the built-in JSON Schema subset validator and the duplicate-key pass. */
module Registry {
  import opened Octets

  // ---- Instances and Python equality -------------------------------------------------------------------

  datatype Json =
    | Null
    | Bool(b: bool)
    | Int(i: int)
    | Float(r: real)
    | Str(s: string)
    | Arr(items: seq<Json>)
    | Obj(members: seq<Member>)

  datatype Member = Member(name: string, value: Json)

  function Lookup(ms: seq<Member>, name: string): (r: Option<Json>)
    ensures r.Some? <==> exists k :: 0 <= k < |ms| && ms[k].name == name
  {
    if ms == [] then None
    else if ms[0].name == name then Some(ms[0].value)
    else
      var rest := Lookup(ms[1..], name);
      assert rest.Some? ==> exists k :: 0 <= k < |ms| && ms[k].name == name by {
        if k :| 0 <= k < |ms[1..]| && ms[1..][k].name == name { assert ms[k + 1].name == name; }
      }
      assert (exists k :: 0 <= k < |ms| && ms[k].name == name) ==> rest.Some? by {
        if k :| 0 <= k < |ms| && ms[k].name == name { assert ms[1..][k - 1].name == name; }
      }
      rest
  }

  predicate Numeric(v: Json) { v.Int? || v.Float? }

  function Value(v: Json): real
    requires Numeric(v)
  {
    if v.Int? then v.i as real else v.r
  }

  /** Equality of JSON values: numbers by value, objects by name. */
  predicate JsonEq(v: Json, w: Json)
    decreases v, 0
  {
    match v
    case Null => w.Null?
    case Bool(b) => w == v
    case Int(_) => Numeric(w) && Value(v) == Value(w)
    case Float(_) => Numeric(w) && Value(v) == Value(w)
    case Str(s) => w == v
    case Arr(xs) => w.Arr? && |xs| == |w.items| && forall i :: 0 <= i < |xs| ==> JsonEq(xs[i], w.items[i])
    case Obj(ms) => w.Obj? && |ms| == |w.members| && forall i :: 0 <= i < |ms| ==> MemberEq(ms[i], w.members)
  }

  predicate MemberEq(m: Member, others: seq<Member>)
    decreases m, 1
  {
    var other := Lookup(others, m.name);
    other.Some? && JsonEq(m.value, other.value)
  }

  function AsNumber(b: bool): Json { Int(if b then 1 else 0) }

  /** The source compares with Python's ==, under which True is 1 and False is 0. */
  predicate PyEq(v: Json, w: Json)
    decreases v, 0
  {
    match v
    case Null => w.Null?
    case Bool(b) => if w.Bool? then b == w.b else Numeric(w) && Value(AsNumber(b)) == Value(w)
    case Int(_) => if w.Bool? then Value(v) == Value(AsNumber(w.b)) else Numeric(w) && Value(v) == Value(w)
    case Float(_) => if w.Bool? then Value(v) == Value(AsNumber(w.b)) else Numeric(w) && Value(v) == Value(w)
    case Str(s) => w == v
    case Arr(xs) => w.Arr? && |xs| == |w.items| && forall i :: 0 <= i < |xs| ==> PyEq(xs[i], w.items[i])
    case Obj(ms) => w.Obj? && |ms| == |w.members| && forall i :: 0 <= i < |ms| ==> PyMemberEq(ms[i], w.members)
  }

  predicate PyMemberEq(m: Member, others: seq<Member>)
    decreases m, 1
  {
    var other := Lookup(others, m.name);
    other.Some? && PyEq(m.value, other.value)
  }

  /** Every boolean replaced by 0 or 1. */
  ghost function Numbered(v: Json): Json
    decreases v, 0
  {
    match v
    case Bool(b) => AsNumber(b)
    case Arr(xs) => Arr(seq(|xs|, i requires 0 <= i < |xs| => Numbered(xs[i])))
    case Obj(ms) => Obj(seq(|ms|, i requires 0 <= i < |ms| => NumberedMember(ms[i])))
    case _ => v
  }

  ghost function NumberedMember(m: Member): Member
    decreases m, 1
  {
    Member(m.name, Numbered(m.value))
  }

  lemma {:induction false} LookupNumbered(ms: seq<Member>, name: string)
    ensures Lookup(Numbered(Obj(ms)).members, name)
            == if Lookup(ms, name).Some? then Some(Numbered(Lookup(ms, name).value)) else None
  {
    hide Numbered;
    NumberedObj(ms);
    if ms != [] {
      LookupNumbered(ms[1..], name);
      NumberedObj(ms[1..]);
      var ns, rest := Numbered(Obj(ms)).members, Numbered(Obj(ms[1..])).members;
      assert ns[0] == Member(ms[0].name, Numbered(ms[0].value));
      assert ns[1..] == rest;
    }
  }

  lemma NumberedObj(ms: seq<Member>)
    ensures Numbered(Obj(ms)).Obj? && |Numbered(Obj(ms)).members| == |ms|
    ensures forall i :: 0 <= i < |ms| ==> Numbered(Obj(ms)).members[i] == Member(ms[i].name, Numbered(ms[i].value))
  {}

  lemma NumberedArr(xs: seq<Json>)
    ensures Numbered(Arr(xs)).Arr? && |Numbered(Arr(xs)).items| == |xs|
    ensures forall i :: 0 <= i < |xs| ==> Numbered(Arr(xs)).items[i] == Numbered(xs[i])
  {}

  /** Python equality is JSON equality after reading booleans as numbers. */
  lemma {:induction false} PyEqMeaning(v: Json, w: Json)
    ensures PyEq(v, w) <==> JsonEq(Numbered(v), Numbered(w))
    decreases v, 0
  {
    match v
    case Arr(xs) =>
      if w.Arr? && |xs| == |w.items| {
        NumberedArr(xs);
        NumberedArr(w.items);
        forall i | 0 <= i < |xs|
          ensures PyEq(xs[i], w.items[i]) <==> JsonEq(Numbered(v).items[i], Numbered(w).items[i])
        {
          PyEqMeaning(xs[i], w.items[i]);
        }
      }
    case Obj(ms) =>
      if w.Obj? && |ms| == |w.members| {
        NumberedObj(ms);
        NumberedObj(w.members);
        forall i | 0 <= i < |ms|
          ensures PyMemberEq(ms[i], w.members) <==> MemberEq(Numbered(v).members[i], Numbered(w).members)
        {
          PyMemberMeaning(ms[i], w.members);
        }
      }
    case _ =>
  }

  lemma {:induction false} PyMemberMeaning(m: Member, others: seq<Member>)
    ensures PyMemberEq(m, others) <==> MemberEq(Member(m.name, Numbered(m.value)), Numbered(Obj(others)).members)
    decreases m, 1
  {
    LookupNumbered(others, m.name);
    var other := Lookup(others, m.name);
    if other.Some? { PyEqMeaning(m.value, other.value); }
  }

  // ---- Schemas and what it means to satisfy one --------------------------------------------------------------

  datatype Schema = Schema(
    types: Option<seq<string>>, constant: Option<Json>, enumeration: Option<seq<Json>>,
    minLength: Option<int>, maxLength: Option<int>, pattern: Option<string>,
    minimum: Option<real>, maximum: Option<real>,
    oneOf: OneOf, items: Option<Schema>, required: seq<string>, closed: bool, properties: seq<Property>,
    condition: Option<Schema>, consequent: Option<Schema>, alternative: Option<Schema>)

  datatype OneOf = NoOneOf | Exactly(subschemas: seq<Schema>)

  datatype Property = Property(name: string, schema: Schema)

  /** `re.search(pattern, text)` found a match. */
  type Search = (string, string) -> bool

  predicate TypeOk(v: Json, t: string) {
    if t == "string" then v.Str?
    else if t == "integer" then v.Int?
    else if t == "number" then v.Int? || v.Float?
    else if t == "boolean" then v.Bool?
    else if t == "array" then v.Arr?
    else if t == "object" then v.Obj?
    else if t == "null" then v.Null?
    else true
  }

  /** The type names an instance goes by. */
  function TypeNames(v: Json): set<string> {
    match v
    case Null => {"null"}
    case Bool(_) => {"boolean"}
    case Int(_) => {"integer", "number"}
    case Float(_) => {"number"}
    case Str(_) => {"string"}
    case Arr(_) => {"array"}
    case Obj(_) => {"object"}
  }

  /** A name admits exactly the instances that go by it; a name that none goes by admits every one. */
  lemma TypeMeaning(v: Json, t: string)
    ensures TypeOk(v, t) <==>
            t in TypeNames(v) || t !in {"null", "boolean", "integer", "number", "string", "array", "object"}
  {}

  /** Keywords that look at the instance alone. */
  ghost predicate LocalOk(find: Search, v: Json, s: Schema) {
    && (s.types.Some? ==> exists i :: 0 <= i < |s.types.value| && TypeOk(v, s.types.value[i]))
    && (s.constant.Some? ==> PyEq(v, s.constant.value))
    && (s.enumeration.Some? ==> exists i :: 0 <= i < |s.enumeration.value| && PyEq(v, s.enumeration.value[i]))
    && (v.Str? ==> TextOk(find, v.s, s))
    && (v.Int? ==> RangeOk(v.i, s))
  }

  ghost predicate TextOk(find: Search, text: string, s: Schema) {
    && (s.minLength.Some? ==> s.minLength.value <= |text|)
    && (s.maxLength.Some? ==> |text| <= s.maxLength.value)
    && (s.pattern.Some? ==> find(s.pattern.value, text))
  }

  ghost predicate RangeOk(n: int, s: Schema) {
    && (s.minimum.Some? ==> s.minimum.value <= n as real)
    && (s.maximum.Some? ==> n as real <= s.maximum.value)
  }

  ghost function PropertyNames(ps: seq<Property>): set<string> { set p | p in ps :: p.name }

  ghost predicate NamesOk(ms: seq<Member>, s: Schema) {
    && (forall r :: r in s.required ==> Lookup(ms, r).Some?)
    && (s.closed ==> forall k :: 0 <= k < |ms| ==> ms[k].name in PropertyNames(s.properties))
  }

  /** The declarative reading: exactly one of oneOf; items for every element; for objects the
      required and declared properties, and then or else as the condition decides. */
  ghost predicate Satisfies(find: Search, v: Json, s: Schema)
    decreases s, 1
  {
    && LocalOk(find, v, s)
    && (s.oneOf.Exactly? ==> OneOfOk(find, v, s.oneOf))
    && (v.Arr? && s.items.Some? ==> forall i :: 0 <= i < |v.items| ==> Satisfies(find, v.items[i], s.items.value))
    && (v.Obj? ==> NamesOk(v.members, s))
    && (v.Obj? ==> forall i :: 0 <= i < |s.properties| ==> PropertyOk(find, v.members, s.properties[i]))
    && (v.Obj? && s.condition.Some? ==>
          if Satisfies(find, v, s.condition.value)
          then s.consequent.Some? ==> Satisfies(find, v, s.consequent.value)
          else s.alternative.Some? ==> Satisfies(find, v, s.alternative.value))
  }

  ghost predicate OneOfOk(find: Search, v: Json, o: OneOf)
    requires o.Exactly?
    decreases o, 2
  {
    exists i :: SatisfiesOnly(find, v, o, i)
  }

  ghost predicate SatisfiesOnly(find: Search, v: Json, o: OneOf, i: int)
    requires o.Exactly?
    decreases o, 1
  {
    && 0 <= i < |o.subschemas| && Satisfies(find, v, o.subschemas[i])
    && forall j :: 0 <= j < |o.subschemas| && j != i ==> !Satisfies(find, v, o.subschemas[j])
  }

  predicate Declared(ps: seq<Property>, name: string) { exists i :: 0 <= i < |ps| && ps[i].name == name }

  lemma DeclaredMeaning(ps: seq<Property>, name: string)
    ensures Declared(ps, name) <==> name in PropertyNames(ps)
  {
    if i :| 0 <= i < |ps| && ps[i].name == name { assert ps[i] in ps; }
    if p :| p in ps && p.name == name { var i :| 0 <= i < |ps| && ps[i] == p; }
  }

  ghost predicate PropertyOk(find: Search, ms: seq<Member>, p: Property)
    decreases p, 2
  {
    Lookup(ms, p.name).Some? ==> Satisfies(find, Lookup(ms, p.name).value, p.schema)
  }

  // ---- The validator ---------------------------------------------------------------------------------------------

  datatype Kind =
    | WrongType | WrongConst | NotInEnum | TooShort | TooLong | NoMatch | TooSmall | TooLarge
    | OneOfCount(n: nat) | MissingProperty(name: string) | ExtraProperty(name: string)

  datatype Finding = Finding(path: string, kind: Kind)

  function Decimal(n: nat): string {
    if n < 10 then ["0123456789"[n]] else Decimal(n / 10) + ["0123456789"[n % 10]]
  }

  /** The number a string of decimal digits stands for. */
  function Numeral(text: string): int {
    if text == "" then 0 else 10 * Numeral(text[..|text| - 1]) + (text[|text| - 1] as int - '0' as int)
  }

  /** Indices are written in decimal, without leading zeros. */
  lemma {:induction false} DecimalMeaning(n: nat)
    ensures Numeral(Decimal(n)) == n && Decimal(n) != ""
    ensures forall c :: c in Decimal(n) ==> '0' <= c <= '9'
    ensures n > 0 ==> Decimal(n)[0] != '0'
  {
    DigitMeaning(n % 10);
    if n < 10 {
      assert Decimal(n)[..0] == "";
    } else {
      DecimalMeaning(n / 10);
      assert Decimal(n)[..|Decimal(n)| - 1] == Decimal(n / 10);
    }
  }

  lemma DigitMeaning(d: nat)
    requires d < 10
    ensures "0123456789"[d] as int == '0' as int + d
  {}

  function AtItem(path: string, i: nat): string { path + "[" + Decimal(i) + "]" }

  function AtProperty(path: string, name: string): string { path + "/" + name }

  // ---- What each finding says -------------------------------------------------------------------------------

  ghost predicate TextFault(find: Search, text: string, s: Schema, k: Kind) {
    match k
    case TooShort => s.minLength.Some? && |text| < s.minLength.value
    case TooLong => s.maxLength.Some? && s.maxLength.value < |text|
    case NoMatch => s.pattern.Some? && !find(s.pattern.value, text)
    case _ => false
  }

  ghost predicate RangeFault(n: int, s: Schema, k: Kind) {
    match k
    case TooSmall => s.minimum.Some? && n as real < s.minimum.value
    case TooLarge => s.maximum.Some? && s.maximum.value < n as real
    case _ => false
  }

  ghost predicate LocalFault(find: Search, v: Json, s: Schema, k: Kind) {
    || (k.WrongConst? && s.constant.Some? && !PyEq(v, s.constant.value))
    || (k.NotInEnum? && s.enumeration.Some?
        && forall i :: 0 <= i < |s.enumeration.value| ==> !PyEq(v, s.enumeration.value[i]))
    || (v.Str? && TextFault(find, v.s, s, k))
    || (v.Int? && RangeFault(v.i, s, k))
  }

  ghost predicate NamesFault(ms: seq<Member>, s: Schema, k: Kind) {
    match k
    case MissingProperty(name) => name in s.required && Lookup(ms, name).None?
    case ExtraProperty(name) =>
      s.closed && (exists i :: 0 <= i < |ms| && ms[i].name == name) && name !in PropertyNames(s.properties)
    case _ => false
  }

  ghost function Verdicts(find: Search, v: Json, subschemas: seq<Schema>): seq<bool> {
    seq(|subschemas|, i requires 0 <= i < |subschemas| => Satisfies(find, v, subschemas[i]))
  }

  ghost function Trues(vs: seq<bool>): nat {
    if vs == [] then 0 else Trues(vs[..|vs| - 1]) + if vs[|vs| - 1] then 1 else 0
  }

  /** How many of the subschemas are satisfied. */
  ghost function Satisfied(find: Search, v: Json, subschemas: seq<Schema>): nat {
    Trues(Verdicts(find, v, subschemas))
  }

  ghost predicate OneOfFault(find: Search, v: Json, s: Schema, k: Kind) {
    k.OneOfCount? && s.oneOf.Exactly? && k.n == Satisfied(find, v, s.oneOf.subschemas) && k.n != 1
  }

  ghost predicate TypesPass(v: Json, s: Schema) {
    s.types.Some? ==> exists i :: 0 <= i < |s.types.value| && TypeOk(v, s.types.value[i])
  }

  /** A finding that is true of v and s at the path: a wrong type, and then nothing else; or a keyword of
      s that v fails, there; or one of an element, of a declared property, or of the branch taken. */
  ghost predicate Genuine(find: Search, v: Json, s: Schema, path: string, e: Finding)
    decreases s, 2
  {
    if !TypesPass(v, s) then e == Finding(path, WrongType)
    else
      || (e.path == path && (LocalFault(find, v, s, e.kind) || OneOfFault(find, v, s, e.kind)))
      || (v.Arr? && s.items.Some? && GenuineItem(find, v.items, s.items.value, path, e))
      || (v.Obj? && e.path == path && NamesFault(v.members, s, e.kind))
      || (v.Obj? && GenuineAmong(find, v.members, s.properties, path, e))
      || (v.Obj? && s.condition.Some? &&
            if Satisfies(find, v, s.condition.value)
            then s.consequent.Some? && Genuine(find, v, s.consequent.value, path, e)
            else s.alternative.Some? && Genuine(find, v, s.alternative.value, path, e))
  }

  ghost predicate GenuineItem(find: Search, items: seq<Json>, s: Schema, path: string, e: Finding)
    decreases s, 3
  {
    exists i: nat :: i < |items| && Genuine(find, items[i], s, AtItem(path, i), e)
  }

  ghost predicate GenuineAmong(find: Search, ms: seq<Member>, ps: seq<Property>, path: string, e: Finding)
    decreases ps, 0
  {
    exists i :: 0 <= i < |ps| && GenuineProperty(find, ms, ps[i], path, e)
  }

  ghost predicate GenuineProperty(find: Search, ms: seq<Member>, p: Property, path: string, e: Finding)
    decreases p, 3
  {
    Lookup(ms, p.name).Some? && Genuine(find, Lookup(ms, p.name).value, p.schema, AtProperty(path, p.name), e)
  }

  /** Findings are reported at or below the path given. */
  lemma {:induction false} GenuineUnder(find: Search, v: Json, s: Schema, path: string, e: Finding)
    requires Genuine(find, v, s, path, e)
    ensures path <= e.path
    decreases s, 1
  {
    hide LocalFault, OneOfFault, NamesFault, Satisfies, GenuineProperty;
    if TypesPass(v, s) {
      if v.Arr? && s.items.Some? && GenuineItem(find, v.items, s.items.value, path, e) {
        var i: nat :| i < |v.items| && Genuine(find, v.items[i], s.items.value, AtItem(path, i), e);
        GenuineUnder(find, v.items[i], s.items.value, AtItem(path, i), e);
      } else if v.Obj? && GenuineAmong(find, v.members, s.properties, path, e) {
        var i :| 0 <= i < |s.properties| && GenuineProperty(find, v.members, s.properties[i], path, e);
        PropertyUnder(find, v.members, s.properties[i], path, e);
      } else if v.Obj? && s.condition.Some? {
        var branch := if Satisfies(find, v, s.condition.value) then s.consequent else s.alternative;
        if branch.Some? && Genuine(find, v, branch.value, path, e) { GenuineUnder(find, v, branch.value, path, e); }
      }
    }
  }

  lemma {:induction false} PropertyUnder(find: Search, ms: seq<Member>, p: Property, path: string, e: Finding)
    requires GenuineProperty(find, ms, p, path, e)
    ensures path <= e.path
    decreases p, 2
  {
    GenuineUnder(find, Lookup(ms, p.name).value, p.schema, AtProperty(path, p.name), e);
  }

  // ---- The validator as the source runs it ---------------------------------------------------------------------

  method CheckLocal(find: Search, v: Json, s: Schema, path: string) returns (errs: seq<Finding>)
    requires TypesPass(v, s)
    ensures errs == [] <==> LocalOk(find, v, s)
    ensures forall e :: e in errs <==> e.path == path && LocalFault(find, v, s, e.kind)
  {
    hide PyEq, TypeOk, TextOk, RangeOk, TextFault, RangeFault;
    TextKinds(find, s);
    RangeKinds(s);
    errs := [];
    if s.constant.Some? && !PyEq(v, s.constant.value) { errs := errs + [Finding(path, WrongConst)]; }
    if s.enumeration.Some? && !(exists i :: 0 <= i < |s.enumeration.value| && PyEq(v, s.enumeration.value[i])) {
      errs := errs + [Finding(path, NotInEnum)];
    }
    if v.Str? {
      var more := CheckText(find, v.s, s, path);
      errs := errs + more;
    }
    if v.Int? {
      var more := CheckRange(v.i, s, path);
      errs := errs + more;
    }
  }

  lemma TextKinds(find: Search, s: Schema)
    ensures forall text, k :: TextFault(find, text, s, k) ==> k.TooShort? || k.TooLong? || k.NoMatch?
  {}

  lemma RangeKinds(s: Schema)
    ensures forall n, k :: RangeFault(n, s, k) ==> k.TooSmall? || k.TooLarge?
  {}

  /** The bounds are inclusive: a text of exactly the least, or the greatest, length passes. */
  lemma TextBounds(find: Search, text: string, s: Schema)
    requires s.minLength == Some(|text|) && s.maxLength == Some(|text|) && s.pattern.None?
    ensures TextOk(find, text, s) && !TextOk(find, text + ".", s) && forall c :: c + "." == text ==> !TextOk(find, c, s)
  {}

  method CheckText(find: Search, text: string, s: Schema, path: string) returns (errs: seq<Finding>)
    ensures errs == [] <==> TextOk(find, text, s)
    ensures forall e :: e in errs <==> e.path == path && TextFault(find, text, s, e.kind)
  {
    errs := [];
    if s.minLength.Some? && |text| < s.minLength.value { errs := errs + [Finding(path, TooShort)]; }
    if s.maxLength.Some? && |text| > s.maxLength.value { errs := errs + [Finding(path, TooLong)]; }
    if s.pattern.Some? && !find(s.pattern.value, text) { errs := errs + [Finding(path, NoMatch)]; }
  }

  method CheckRange(n: int, s: Schema, path: string) returns (errs: seq<Finding>)
    ensures errs == [] <==> RangeOk(n, s)
    ensures forall e :: e in errs <==> e.path == path && RangeFault(n, s, e.kind)
  {
    errs := [];
    if s.minimum.Some? && (n as real) < s.minimum.value { errs := errs + [Finding(path, TooSmall)]; }
    if s.maximum.Some? && n as real > s.maximum.value { errs := errs + [Finding(path, TooLarge)]; }
  }

  /** No finding exactly when the instance satisfies the schema, whatever the path; and the findings are
      exactly the genuine ones. */
  method Validate(find: Search, v: Json, s: Schema, path: string) returns (errs: seq<Finding>)
    ensures errs == [] <==> Satisfies(find, v, s)
    ensures forall e :: e in errs <==> Genuine(find, v, s, path, e)
    decreases s, 4
  {
    SatisfiesUnfold(find, v, s);
    GenuineUnfold(find, v, s, path);
    hide Satisfies, Genuine, LocalOk, OneOfOk, PropertyOk, LocalFault, NamesFault, GenuineItem, GenuineAmong, TypesPass;
    if s.types.Some? && !(exists i :: 0 <= i < |s.types.value| && TypeOk(v, s.types.value[i])) {
      NotLocal(find, v, s);
      return [Finding(path, WrongType)];
    }
    TypesDoPass(v, s);
    errs := CheckLocal(find, v, s, path);
    if s.oneOf.Exactly? {
      var n := CountMatches(find, v, s.oneOf, path);
      if n != 1 { errs := errs + [Finding(path, OneOfCount(n))]; }
    }
    if v.Arr? && s.items.Some? {
      var more := ValidateItems(find, v.items, s.items.value, path);
      errs := errs + more;
    }
    if v.Obj? {
      var names := CheckNames(v.members, s, path);
      var more := ValidateProperties(find, v.members, s.properties, path);
      errs := errs + names + more;
      if s.condition.Some? {
        var probe := Validate(find, v, s.condition.value, path);
        var branch := if probe == [] then s.consequent else s.alternative;
        if branch.Some? {
          var chosen := Validate(find, v, branch.value, path);
          errs := errs + chosen;
        }
      }
    }
  }

  lemma TypesDoPass(v: Json, s: Schema)
    ensures TypesPass(v, s) <==>
            !(s.types.Some? && !(exists i :: 0 <= i < |s.types.value| && TypeOk(v, s.types.value[i])))
  {}

  lemma NotLocal(find: Search, v: Json, s: Schema)
    requires s.types.Some? && !(exists i :: 0 <= i < |s.types.value| && TypeOk(v, s.types.value[i]))
    ensures !LocalOk(find, v, s) && !TypesPass(v, s)
  {}

  lemma GenuineUnfold(find: Search, v: Json, s: Schema, path: string)
    ensures forall e :: Genuine(find, v, s, path, e) <==>
              if !TypesPass(v, s) then e == Finding(path, WrongType)
              else
                || (e.path == path && (LocalFault(find, v, s, e.kind) || OneOfFault(find, v, s, e.kind)))
                || (v.Arr? && s.items.Some? && GenuineItem(find, v.items, s.items.value, path, e))
                || (v.Obj? && e.path == path && NamesFault(v.members, s, e.kind))
                || (v.Obj? && GenuineAmong(find, v.members, s.properties, path, e))
                || (v.Obj? && s.condition.Some? &&
                      if Satisfies(find, v, s.condition.value)
                      then s.consequent.Some? && Genuine(find, v, s.consequent.value, path, e)
                      else s.alternative.Some? && Genuine(find, v, s.alternative.value, path, e))
  {
    hide Satisfies, LocalFault, OneOfFault, GenuineItem, GenuineAmong, NamesFault, TypesPass;
  }

  lemma SatisfiesUnfold(find: Search, v: Json, s: Schema)
    ensures Satisfies(find, v, s) <==>
            && LocalOk(find, v, s)
            && (s.oneOf.Exactly? ==> OneOfOk(find, v, s.oneOf))
            && (v.Arr? && s.items.Some? ==>
                  forall i :: 0 <= i < |v.items| ==> Satisfies(find, v.items[i], s.items.value))
            && (v.Obj? ==> NamesOk(v.members, s))
            && (v.Obj? ==> forall i :: 0 <= i < |s.properties| ==> PropertyOk(find, v.members, s.properties[i]))
            && (v.Obj? && s.condition.Some? ==>
                  if Satisfies(find, v, s.condition.value)
                  then s.consequent.Some? ==> Satisfies(find, v, s.consequent.value)
                  else s.alternative.Some? ==> Satisfies(find, v, s.alternative.value))
  {
    hide LocalOk, OneOfOk, PropertyOk, Lookup;
  }

  method CountMatches(find: Search, v: Json, o: OneOf, path: string) returns (n: nat)
    requires o.Exactly?
    ensures n == Satisfied(find, v, o.subschemas) && (n == 1 <==> OneOfOk(find, v, o))
    decreases o, 5
  {
    hide Satisfies, Genuine, Satisfied;
    n := 0;
    NoneYet(find, v);
    assert o.subschemas[..0] == [];
    for k := 0 to |o.subschemas|
      invariant n == Satisfied(find, v, o.subschemas[..k])
    {
      LastSatisfied(find, v, o.subschemas, k);
      var errs := Validate(find, v, o.subschemas[k], path);
      if errs == [] { n := n + 1; }
    }
    assert o.subschemas[..|o.subschemas|] == o.subschemas;
    OneSatisfied(find, v, o);
  }

  lemma NoneYet(find: Search, v: Json)
    ensures Satisfied(find, v, []) == 0
  {}

  lemma LastSatisfied(find: Search, v: Json, subschemas: seq<Schema>, k: nat)
    requires k < |subschemas|
    ensures Satisfied(find, v, subschemas[..k + 1])
            == Satisfied(find, v, subschemas[..k]) + if Satisfies(find, v, subschemas[k]) then 1 else 0
  {
    hide Satisfies;
    assert Verdicts(find, v, subschemas[..k + 1])[..k] == Verdicts(find, v, subschemas[..k]);
  }

  ghost predicate TrueOnlyAt(vs: seq<bool>, i: int) {
    0 <= i < |vs| && vs[i] && forall j :: 0 <= j < |vs| && j != i ==> !vs[j]
  }

  lemma {:induction false} OneTrue(vs: seq<bool>)
    ensures Trues(vs) == 0 <==> forall i :: 0 <= i < |vs| ==> !vs[i]
    ensures Trues(vs) == 1 <==> exists i :: TrueOnlyAt(vs, i)
  {
    if vs != [] {
      var n := |vs| - 1;
      var most := vs[..n];
      OneTrue(most);
      assert forall j :: 0 <= j < n ==> most[j] == vs[j];
      if vs[n] {
        if Trues(most) == 0 { assert TrueOnlyAt(vs, n); }
      } else {
        forall i ensures TrueOnlyAt(vs, i) <==> TrueOnlyAt(most, i) {}
      }
    }
  }

  lemma VerdictsMeaning(find: Search, v: Json, o: OneOf, i: int)
    requires o.Exactly?
    ensures TrueOnlyAt(Verdicts(find, v, o.subschemas), i) <==> SatisfiesOnly(find, v, o, i)
  {
    hide Satisfies;
    var vs := Verdicts(find, v, o.subschemas);
    assert forall j :: 0 <= j < |vs| ==> vs[j] == Satisfies(find, v, o.subschemas[j]);
  }

  lemma OneSatisfied(find: Search, v: Json, o: OneOf)
    requires o.Exactly?
    ensures Satisfied(find, v, o.subschemas) == 1 <==> OneOfOk(find, v, o)
  {
    hide Satisfies, Trues, TrueOnlyAt, SatisfiesOnly, Verdicts;
    var vs := Verdicts(find, v, o.subschemas);
    OneTrue(vs);
    forall i ensures TrueOnlyAt(vs, i) <==> SatisfiesOnly(find, v, o, i) { VerdictsMeaning(find, v, o, i); }
  }

  method ValidateItems(find: Search, items: seq<Json>, s: Schema, path: string) returns (errs: seq<Finding>)
    ensures errs == [] <==> forall i :: 0 <= i < |items| ==> Satisfies(find, items[i], s)
    ensures forall e :: e in errs <==> GenuineItem(find, items, s, path, e)
    decreases s, 5
  {
    hide Satisfies, Genuine, AtItem;
    errs := [];
    for i := 0 to |items|
      invariant errs == [] <==> forall j :: 0 <= j < i ==> Satisfies(find, items[j], s)
      invariant forall e :: e in errs <==> exists j: nat :: j < i && Genuine(find, items[j], s, AtItem(path, j), e)
    {
      var more := Validate(find, items[i], s, AtItem(path, i));
      errs := errs + more;
    }
  }

  method CheckNames(ms: seq<Member>, s: Schema, path: string) returns (errs: seq<Finding>)
    ensures errs == [] <==> NamesOk(ms, s)
    ensures forall e :: e in errs <==> e.path == path && NamesFault(ms, s, e.kind)
  {
    hide Lookup, Declared, PropertyNames;
    errs := [];
    for i := 0 to |s.required|
      invariant forall e :: e in errs <==>
                  && e.path == path && e.kind.MissingProperty?
                  && e.kind.name in s.required[..i] && Lookup(ms, e.kind.name).None?
    {
      assert s.required[..i + 1] == s.required[..i] + [s.required[i]];
      if Lookup(ms, s.required[i]).None? { errs := errs + [Finding(path, MissingProperty(s.required[i]))]; }
    }
    assert s.required[..|s.required|] == s.required;
    if s.closed {
      ghost var missing := errs;
      for k := 0 to |ms|
        invariant forall e :: e in errs <==>
                    || e in missing
                    || (e.path == path && e.kind.ExtraProperty? && e.kind.name !in PropertyNames(s.properties)
                        && exists i :: 0 <= i < k && ms[i].name == e.kind.name)
      {
        DeclaredMeaning(s.properties, ms[k].name);
        if !Declared(s.properties, ms[k].name) { errs := errs + [Finding(path, ExtraProperty(ms[k].name))]; }
      }
    }
    NoNamesFault(ms, s, path, errs);
  }

  lemma NoNamesFault(ms: seq<Member>, s: Schema, path: string, errs: seq<Finding>)
    requires forall e :: e in errs <==> e.path == path && NamesFault(ms, s, e.kind)
    ensures errs == [] <==> NamesOk(ms, s)
  {
    hide Lookup, PropertyNames;
    if errs != [] { assert errs[0] in errs; }
    if r :| r in s.required && Lookup(ms, r).None? { assert Finding(path, MissingProperty(r)) in errs; }
    if s.closed {
      if k :| 0 <= k < |ms| && ms[k].name !in PropertyNames(s.properties) {
        assert Finding(path, ExtraProperty(ms[k].name)) in errs;
      }
    }
  }

  method ValidateProperties(find: Search, ms: seq<Member>, ps: seq<Property>, path: string) returns (errs: seq<Finding>)
    ensures errs == [] <==> forall i :: 0 <= i < |ps| ==> PropertyOk(find, ms, ps[i])
    ensures forall e :: e in errs <==> GenuineAmong(find, ms, ps, path, e)
    decreases ps, 1
  {
    hide Satisfies, Lookup, GenuineProperty;
    errs := [];
    for i := 0 to |ps|
      invariant errs == [] <==> forall j :: 0 <= j < i ==> PropertyOk(find, ms, ps[j])
      invariant forall e :: e in errs <==> exists j :: 0 <= j < i && GenuineProperty(find, ms, ps[j], path, e)
    {
      var more := ValidateProperty(find, ms, ps[i], path);
      errs := errs + more;
    }
  }

  method ValidateProperty(find: Search, ms: seq<Member>, p: Property, path: string) returns (errs: seq<Finding>)
    ensures errs == [] <==> PropertyOk(find, ms, p)
    ensures forall e :: e in errs <==> GenuineProperty(find, ms, p, path, e)
    decreases p, 5
  {
    hide Satisfies, Genuine, Lookup, AtProperty;
    var found := Lookup(ms, p.name);
    if found.None? { return []; }
    errs := Validate(find, found.value, p.schema, AtProperty(path, p.name));
  }

  // ---- Duplicate keys -------------------------------------------------------------------------------------------

  /** A row's cells as text. */
  type Row = map<string, string>

  function Key(row: Row, cols: seq<string>): seq<string> {
    seq(|cols|, i requires 0 <= i < |cols| => if cols[i] in row then row[cols[i]] else "")
  }

  function KeysOf(rows: seq<Row>, cols: seq<string>): (ks: seq<seq<string>>)
    ensures |ks| == |rows|
  {
    seq(|rows|, i requires 0 <= i < |rows| => Key(rows[i], cols))
  }

  function Cell(row: Row, col: string): string { if col in row then row[col] else "" }

  /** Two rows have one key exactly when they agree in every key column, an absent cell being empty. */
  lemma KeyMeaning(a: Row, b: Row, cols: seq<string>)
    ensures Key(a, cols) == Key(b, cols) <==> forall i :: 0 <= i < |cols| ==> Cell(a, cols[i]) == Cell(b, cols[i])
  {
    assert forall i :: 0 <= i < |cols| ==> Key(a, cols)[i] == Cell(a, cols[i]) && Key(b, cols)[i] == Cell(b, cols[i]);
  }

  datatype Duplicate = Duplicate(first: nat, again: nat)

  ghost predicate FirstOf(ks: seq<seq<string>>, i: nat) { i < |ks| && ks[i] !in ks[..i] }

  /** `seen` maps each key of the rows before i to its first row. */
  ghost predicate FirstRows(ks: seq<seq<string>>, i: nat, seen: map<seq<string>, nat>)
    requires i <= |ks|
  {
    && (forall k :: k in seen <==> k in ks[..i])
    && (forall k :: k in seen ==> seen[k] < i && ks[seen[k]] == k && FirstOf(ks, seen[k]))
  }

  ghost predicate ReportedAt(fs: seq<Duplicate>, j: nat) { exists f :: f in fs && f.again == j }

  /** fs reports the repeated rows before i, each once, in order, with the first row of its key. */
  ghost predicate Reports(ks: seq<seq<string>>, i: nat, fs: seq<Duplicate>)
    requires i <= |ks|
  {
    && (forall f :: f in fs ==> f.first < f.again < i && ks[f.first] == ks[f.again] && FirstOf(ks, f.first))
    && (forall j: nat :: j < i && !FirstOf(ks, j) ==> ReportedAt(fs, j))
    && (forall a, b :: 0 <= a < b < |fs| ==> fs[a].again < fs[b].again)
  }

  lemma SeeRow(ks: seq<seq<string>>, i: nat, seen: map<seq<string>, nat>)
    requires i < |ks| && FirstRows(ks, i, seen)
    ensures ks[i] in seen <==> !FirstOf(ks, i)
    ensures FirstRows(ks, i + 1, if ks[i] in seen then seen else seen[ks[i] := i])
  {
    assert ks[..i + 1] == ks[..i] + [ks[i]];
  }

  lemma ReportRow(ks: seq<seq<string>>, i: nat, seen: map<seq<string>, nat>, fs: seq<Duplicate>)
    requires i < |ks| && FirstRows(ks, i, seen) && Reports(ks, i, fs)
    ensures FirstOf(ks, i) ==> Reports(ks, i + 1, fs)
    ensures ks[i] in seen ==> Reports(ks, i + 1, fs + [Duplicate(seen[ks[i]], i)])
  {
    hide FirstOf, ReportedAt;
    if ks[i] in seen {
      var f := Duplicate(seen[ks[i]], i);
      var more := fs + [f];
      forall j: nat | j < i + 1 && !FirstOf(ks, j) ensures ReportedAt(more, j) { StillReported(fs, f, j); }
      forall a, b | 0 <= a < b < |more| ensures more[a].again < more[b].again {
        if b == |fs| { assert fs[a] in fs; }
      }
    }
  }

  lemma StillReported(fs: seq<Duplicate>, f: Duplicate, j: nat)
    requires ReportedAt(fs, j) || f.again == j
    ensures ReportedAt(fs + [f], j)
  {
    assert f in fs + [f];
    if ReportedAt(fs, j) { var g :| g in fs && g.again == j; assert g in fs + [f]; }
  }

  ghost predicate Scanned(ks: seq<seq<string>>, i: nat, seen: map<seq<string>, nat>, fs: seq<Duplicate>) {
    i <= |ks| && FirstRows(ks, i, seen) && Reports(ks, i, fs) && |fs| == i - |seen.Keys|
  }

  lemma ScanStarts(ks: seq<seq<string>>)
    ensures Scanned(ks, 0, map[], [])
  {}

  lemma ScanRow(ks: seq<seq<string>>, i: nat, seen: map<seq<string>, nat>, fs: seq<Duplicate>)
    requires Scanned(ks, i, seen, fs) && i < |ks|
    ensures ks[i] in seen ==> Scanned(ks, i + 1, seen, fs + [Duplicate(seen[ks[i]], i)])
    ensures ks[i] !in seen ==> Scanned(ks, i + 1, seen[ks[i] := i], fs)
  {
    SeeRow(ks, i, seen);
    ReportRow(ks, i, seen, fs);
    hide FirstRows, Reports, FirstOf;
    assert seen[ks[i] := i].Keys == seen.Keys + {ks[i]};
  }

  lemma ScanEnds(ks: seq<seq<string>>, seen: map<seq<string>, nat>, fs: seq<Duplicate>)
    requires Scanned(ks, |ks|, seen, fs)
    ensures |fs| == |ks| - |set k | k in ks| && Reports(ks, |ks|, fs)
  {
    hide FirstOf, Reports;
    assert ks[..|ks|] == ks;
    assert seen.Keys == set k | k in ks;
  }

  /** Each repeated row is reported once, in order, with the first row that has its key; so there
      are as many findings as rows beyond the distinct keys. */
  method FindDuplicateKeys(rows: seq<Row>, cols: seq<string>) returns (fs: seq<Duplicate>)
    ensures var ks := KeysOf(rows, cols);
            |fs| == |rows| - |set k | k in ks| && Reports(ks, |rows|, fs)
  {
    hide Scanned, Reports, KeysOf;
    var ks := KeysOf(rows, cols);
    var seen: map<seq<string>, nat> := map[];
    fs := [];
    ScanStarts(ks);
    for i := 0 to |rows|
      invariant Scanned(ks, i, seen, fs)
    {
      ScanRow(ks, i, seen, fs);
      if ks[i] in seen {
        fs := fs + [Duplicate(seen[ks[i]], i)];
      } else {
        seen := seen[ks[i] := i];
      }
    }
    ScanEnds(ks, seen, fs);
  }
}
