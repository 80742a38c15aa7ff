/** What the building blocks of the app model's schema accept, in terms of the data alone, and how their
    failures are reported. */
module AppModelMeaning {
  import opened Wrappers
  import opened AppModel
  import opened AppModelSchema

  // ---------- Types and values ----------

  function AsReal(k: int): real {
    k as real
  }

  ghost predicate IsWhole(x: real) {
    exists k :: AsReal(k) == x
  }

  /** JSON Schema's types, section 6.1.1 of Validation: an integer is a number without a fraction. */
  ghost predicate IsOfType(v: Json, t: TypeName) {
    match t
    case NullType => v.JNull?
    case BooleanType => v.JBool?
    case IntegerType => v.JNum? && IsWhole(v.number)
    case NumberType => v.JNum?
    case StringType => v.JStr?
    case ArrayType => v.JArr?
    case ObjectType => v.JObj?
  }

  lemma WholeIsFloor(x: real)
    ensures IsWhole(x) <==> x.Floor as real == x
  {
    if IsWhole(x) {
      var k :| AsReal(k) == x;
      assert x.Floor == k;
    } else {
      assert AsReal(x.Floor) != x;
    }
  }

  /** A list of types admits exactly the values of one of them, whole numbers being numbers too. */
  lemma TypesMean(types: seq<TypeName>, v: Json)
    ensures TypeAllowed(types, TypeOf(v)) <==> exists i :: 0 <= i < |types| && IsOfType(v, types[i])
  {
    if v.JNum? {
      WholeIsFloor(v.number);
    }
  }

  lemma OneTypeMeans(t: TypeName, v: Json)
    ensures TypeAllowed([t], TypeOf(v)) <==> IsOfType(v, t)
  {
    hide IsOfType, TypeAllowed, TypeOf;
    TypesMean([t], v);
    assert [t][0] == t;
  }

  /** A schema of value keywords alone accepts exactly what these allow. */
  lemma ValueMeans(d: Defs, rules: ValueRules, v: Json)
    requires WellFounded(d)
    ensures Closed(d, Value(rules)) && (Satisfies(d, Value(rules), v) <==> ValueAllowed(rules, v))
  {
    var s := Rules(rules, [], [], None, [], Unrestricted, []);
    assert PartsAllowed(d, s, v) by {
      if v.JObj? { AnythingAllowed(d, v.fields); }
    }
    assert Satisfies(d, s, v) <==> RulesHold(d, s, v);
  }

  /** The leaves of the schema: text, truth values, counts from 1 on, constants and words of a list. */
  lemma LeavesMean(d: Defs, v: Json, literal: Literal, choices: seq<string>)
    requires WellFounded(d) && choices != []
    ensures Closed(d, STRING) && (Satisfies(d, STRING, v) <==> v.JStr?)
    ensures Closed(d, BOOLEAN) && (Satisfies(d, BOOLEAN, v) <==> v.JBool?)
    ensures Closed(d, COUNT) && (Satisfies(d, COUNT, v) <==> v.JNum? && IsWhole(v.number) && v.number >= 1.0)
    ensures Closed(d, Const(literal))
            && (Satisfies(d, Const(literal), v) <==>
                if literal.Text? then v == JStr(literal.text) else v == JNum(literal.number))
    ensures Closed(d, OneOfTexts(choices)) && (Satisfies(d, OneOfTexts(choices), v) <==> v.JStr? && v.text in choices)
  {
    hide Satisfies, Closed, TypeAllowed, TypeOf;
    OneTypeMeans(StringType, v);
    OneTypeMeans(BooleanType, v);
    OneTypeMeans(IntegerType, v);
    ValueMeans(d, STRING.value, v);
    ValueMeans(d, BOOLEAN.value, v);
    ValueMeans(d, COUNT.value, v);
    ValueMeans(d, Const(literal).value, v);
    ValueMeans(d, OneOfTexts(choices).value, v);
  }

  /** A nullable schema accepts null besides. */
  lemma NullableMeans(d: Defs, s: Schema, v: Json)
    requires WellFounded(d) && Closed(d, s)
    ensures Closed(d, Nullable(s)) && (Satisfies(d, Nullable(s), v) <==> v.JNull? || Satisfies(d, s, v))
  {
    NullableClosed(d, s);
    AnyOfMeans(d, [s, OfType(NullType)], v);
    NullMeans(d, v);
    hide Satisfies, Closed;
    var options := [s, OfType(NullType)];
    assert options[0] == s && options[1] == OfType(NullType);
  }

  lemma NullMeans(d: Defs, v: Json)
    requires WellFounded(d)
    ensures Closed(d, OfType(NullType)) && (Satisfies(d, OfType(NullType), v) <==> v.JNull?)
  {
    hide Satisfies, Closed, TypeAllowed, TypeOf;
    OneTypeMeans(NullType, v);
    ValueMeans(d, OfType(NullType).value, v);
  }

  /** Alternatives accept exactly what one of them accepts. */
  lemma AnyOfMeans(d: Defs, options: seq<Schema>, v: Json)
    requires WellFounded(d) && options != [] && AllClosed(d, options)
    ensures Closed(d, AnyOf(options))
            && (Satisfies(d, AnyOf(options), v) <==>
                exists i :: 0 <= i < |options| && Satisfies(d, options[i], v))
  {
    var s := Rules(ANY_VALUE, options, [], None, [], Unrestricted, []);
    OptionsMean(d, options, v);
    assert PartsAllowed(d, s, v) by {
      if v.JObj? { AnythingAllowed(d, v.fields); }
    }
    assert Satisfies(d, s, v) <==> RulesHold(d, s, v);
  }

  // ---------- Arrays and objects ----------

  /** An array schema accepts exactly the arrays all of whose items its item schema accepts. */
  lemma ArrayMeans(d: Defs, s: Schema, v: Json)
    requires WellFounded(d) && Closed(d, s)
    ensures Closed(d, Array(s))
            && (Satisfies(d, Array(s), v) <==>
                v.JArr? && forall i :: 0 <= i < |v.items| ==> Satisfies(d, s, v.items[i]))
  {
    ArrayClosed(d, s);
    OneTypeMeans(ArrayType, v);
    var a := Rules(ANY_VALUE.(types := [ArrayType]), [], [], Some(s), [], Unrestricted, []);
    assert Satisfies(d, a, v) <==> RulesHold(d, a, v);
    assert RulesHold(d, a, v) <==> v.JArr? && PartsAllowed(d, a, v);
    if v.JArr? {
      assert PartsAllowed(d, a, v) <==> ItemsAllowed(d, s, v.items);
      hide *;
      ItemsMean(d, s, v.items);
    }
  }

  lemma {:induction false} FieldsMean(d: Defs, properties: seq<Property>, additional: Additional, fields: seq<Field>)
    requires WellFounded(d) && FieldsClosed(d, properties, additional)
    ensures FieldsAllowed(d, properties, additional, fields) <==>
            forall i :: 0 <= i < |fields| ==> FieldAllowed(d, properties, additional, fields[i])
  {
    if fields != [] {
      var n := |fields| - 1;
      FieldsMean(d, properties, additional, fields[..n]);
      assert forall i :: 0 <= i < n ==> fields[..n][i] == fields[i];
    }
  }

  /** The first property of that name has a schema that accepts the field's value. */
  ghost predicate ByProperty(d: Defs, properties: seq<Property>, field: Field)
    requires WellFounded(d) && AllPropertiesClosed(d, properties)
  {
    exists i :: 0 <= i < |properties| && properties[i].name == field.name
                && (forall j :: 0 <= j < i ==> properties[j].name != field.name)
                && Satisfies(d, properties[i].schema, field.value)
  }

  lemma FieldMeans(d: Defs, properties: seq<Property>, field: Field)
    requires WellFounded(d) && AllPropertiesClosed(d, properties)
    ensures FieldAllowed(d, properties, Forbidden, field) <==> ByProperty(d, properties, field)
  {
    hide Satisfies, Closed, WellFounded;
    var i := FindProperty(properties, field.name);
  }

  /** An object schema accepts exactly the objects that have every property not listed as optional and no
      field but those named, each with a value its property's schema accepts. */
  lemma ObjectMeans(d: Defs, properties: seq<Property>, optional: seq<string>, v: Json)
    requires WellFounded(d) && AllPropertiesClosed(d, properties)
    ensures Closed(d, Object(properties, optional))
            && (Satisfies(d, Object(properties, optional), v) <==>
                && v.JObj?
                && (forall name :: Named(properties, name) && name !in optional ==> HasField(v.fields, name))
                && (forall i :: 0 <= i < |v.fields| ==> ByProperty(d, properties, v.fields[i])))
  {
    var s := Object(properties, optional);
    ObjectClosed(d, properties, optional);
    OneTypeMeans(ObjectType, v);
    assert Satisfies(d, s, v) <==> RulesHold(d, s, v);
    assert RulesHold(d, s, v) <==> v.JObj? && PartsAllowed(d, s, v);
    if v.JObj? {
      hide Satisfies, RulesHold, Names, WellFounded, Closed;
      forall name ensures name in s.required <==> name !in optional && Named(properties, name) {
        NamesExactly(properties, optional, name);
      }
      FieldsMean(d, properties, Forbidden, v.fields);
      forall i | 0 <= i < |v.fields|
        ensures FieldAllowed(d, properties, Forbidden, v.fields[i]) <==> ByProperty(d, properties, v.fields[i])
      {
        FieldMeans(d, properties, v.fields[i]);
      }
    }
  }

  // ---------- The definition `json` ----------

  const SCALAR: Schema := Value(ANY_VALUE.(types := [StringType, NumberType, BooleanType, NullType]))
  const ANY_OBJECT: Schema := Rules(ANY_VALUE.(types := [ObjectType]), [], [], None, [], Each(Ref("json")), [])

  lemma JsonDefined()
    ensures WellFounded(DEFS) && Closed(DEFS, Ref("json")) && Closed(DEFS, JSON)
    ensures "json" in DEFS.schemas && DEFS.schemas["json"] == JSON == AnyOf([SCALAR, Array(Ref("json")), ANY_OBJECT])
    ensures Closed(DEFS, SCALAR) && Closed(DEFS, Array(Ref("json"))) && Closed(DEFS, ANY_OBJECT)
  {
    SchemaIsWellFounded();
    JsonNamed();
    JsonParts(DEFS);
    hide *;
    ReferenceMeans(DEFS, "json", JNull);
  }

  lemma JsonNamed()
    ensures "json" in DEFS.schemas && DEFS.schemas["json"] == JSON
  {
    LookUp("json");
  }

  lemma JsonParts(d: Defs)
    requires "json" in d.schemas
    ensures JSON == AnyOf([SCALAR, Array(Ref("json")), ANY_OBJECT])
    ensures Closed(d, SCALAR) && Closed(d, Array(Ref("json"))) && Closed(d, ANY_OBJECT)
  {
    ArrayClosed(d, Ref("json"));
    assert JSON.anyOf == [SCALAR, Array(Ref("json")), ANY_OBJECT];
  }

  lemma JsonByPart(v: Json)
    requires WellFounded(DEFS) && Closed(DEFS, SCALAR) && Closed(DEFS, Array(Ref("json"))) && Closed(DEFS, ANY_OBJECT)
    ensures Closed(DEFS, Ref("json"))
    ensures Satisfies(DEFS, SCALAR, v) || Satisfies(DEFS, Array(Ref("json")), v) || Satisfies(DEFS, ANY_OBJECT, v)
            ==> Satisfies(DEFS, Ref("json"), v)
  {
    JsonDefined();
    hide Satisfies, WellFounded, Closed;
    ReferenceMeans(DEFS, "json", v);
    var parts := [SCALAR, Array(Ref("json")), ANY_OBJECT];
    assert parts[0] == SCALAR && parts[1] == Array(Ref("json")) && parts[2] == ANY_OBJECT;
    assert AllClosed(DEFS, parts) by { hide *; AllThree(DEFS, parts); }
    AnyOfMeans(DEFS, parts, v);
  }

  lemma AllThree(d: Defs, options: seq<Schema>)
    requires |options| == 3 && Closed(d, options[0]) && Closed(d, options[1]) && Closed(d, options[2])
    ensures AllClosed(d, options)
  {
  }

  lemma ScalarMeans(d: Defs, v: Json)
    requires WellFounded(d)
    ensures Closed(d, SCALAR)
            && (Satisfies(d, SCALAR, v) <==> v.JStr? || v.JNum? || v.JBool? || v.JNull?)
  {
    ValueMeans(d, SCALAR.value, v);
    var types := [StringType, NumberType, BooleanType, NullType];
    TypesMean(types, v);
    hide Satisfies, Closed, TypeAllowed, TypeOf;
    assert types[0] == StringType && types[1] == NumberType && types[2] == BooleanType && types[3] == NullType;
  }

  lemma ObjectOfEach(d: Defs, v: Json)
    requires WellFounded(d) && Closed(d, ANY_OBJECT) && Closed(d, Ref("json"))
    ensures Satisfies(d, ANY_OBJECT, v) <==> v.JObj? && FieldsAllowed(d, [], Each(Ref("json")), v.fields)
  {
    OneTypeMeans(ObjectType, v);
    assert Satisfies(d, ANY_OBJECT, v) <==> RulesHold(d, ANY_OBJECT, v);
    assert RulesHold(d, ANY_OBJECT, v) <==> v.JObj? && PartsAllowed(d, ANY_OBJECT, v);
  }

  /** Every JSON value, however deep, passes for the definition `json`. */
  lemma {:induction false} EveryValueIsJson(v: Json)
    ensures WellFounded(DEFS) && Closed(DEFS, Ref("json")) && Satisfies(DEFS, Ref("json"), v)
    decreases v, 1
  {
    hide *;
    JsonDefined();
    JsonByPart(v);
    ScalarMeans(DEFS, v);
    ArrayMeans(DEFS, Ref("json"), v);
    ObjectOfEach(DEFS, v);
    match v
    case JArr(items) =>
      forall i | 0 <= i < |items| ensures Satisfies(DEFS, Ref("json"), items[i]) {
        EveryValueIsJson(items[i]);
      }
    case JObj(fields) => EveryFieldIsJson(fields);
    case _ =>
  }

  lemma {:induction false} EveryFieldIsJson(fields: seq<Field>)
    requires WellFounded(DEFS) && Closed(DEFS, Ref("json"))
    ensures FieldsAllowed(DEFS, [], Each(Ref("json")), fields)
    decreases fields, 0
  {
    if fields != [] {
      var n := |fields| - 1;
      EveryFieldIsJson(fields[..n]);
      EveryValueIsJson(fields[n].value);
      FieldOfEach(DEFS, Ref("json"), fields[n]);
      hide *;
      LastField(DEFS, Ref("json"), fields);
    }
  }

  lemma FieldOfEach(d: Defs, s: Schema, field: Field)
    requires WellFounded(d) && Closed(d, s) && Satisfies(d, s, field.value)
    ensures FieldAllowed(d, [], Each(s), field)
  {
    hide Satisfies, WellFounded, Closed;
  }

  lemma LastField(d: Defs, s: Schema, fields: seq<Field>)
    requires WellFounded(d) && Closed(d, s) && fields != []
    requires FieldsAllowed(d, [], Each(s), fields[..|fields| - 1])
    requires FieldAllowed(d, [], Each(s), fields[|fields| - 1])
    ensures FieldsAllowed(d, [], Each(s), fields)
  {
    hide Satisfies, WellFounded, Closed, FieldAllowed;
  }

  // ---------- How failures are reported ----------

  /** What a value breaks when this is reported of it. */
  ghost predicate Breaks(v: Json, reason: Reason) {
    match reason
    case MustBe(l) => v != if l.Text? then JStr(l.text) else JNum(l.number)
    case MustBeOneOf(choices) => !v.JStr? || v.text !in choices
    case MustBeType(types) => !exists i :: 0 <= i < |types| && IsOfType(v, types[i])
    case MustBeAtLeast(minimum) => v.JNum? && v.number < minimum
    case _ => false
  }

  function ByConstant(r: ValueRules): seq<Reason> {
    if r.constant.Some? then [MustBe(r.constant.value)] else []
  }

  function ByChoices(r: ValueRules): seq<Reason> {
    if r.choices != [] then [MustBeOneOf(r.choices)] else []
  }

  function ByTypes(r: ValueRules): seq<Reason> {
    if r.types != [] then [MustBeType(r.types)] else []
  }

  function ByMinimum(r: ValueRules): seq<Reason> {
    if r.minimum.Some? then [MustBeAtLeast(r.minimum.value)] else []
  }

  /** The keywords about the value itself, in the order they are tried. */
  function Keywords(r: ValueRules): seq<Reason> {
    ByConstant(r) + (ByChoices(r) + (ByTypes(r) + ByMinimum(r)))
  }

  /** The errors are the first keyword that the value breaks and no other. */
  ghost predicate FirstBroken(keywords: seq<Reason>, v: Json, path: Path, errors: seq<Error>) {
    if keywords == [] then errors == []
    else if Breaks(v, keywords[0]) then errors == [Error(path, keywords[0])]
    else FirstBroken(keywords[1..], v, path, errors)
  }

  lemma TryKeyword(keyword: seq<Reason>, rest: seq<Reason>, v: Json, path: Path, errors: seq<Error>)
    requires |keyword| <= 1
    ensures FirstBroken(keyword + rest, v, path, errors) <==>
            if keyword != [] && Breaks(v, keyword[0]) then errors == [Error(path, keyword[0])]
            else FirstBroken(rest, v, path, errors)
  {
    if keyword == [] {
      assert keyword + rest == rest;
    } else {
      assert (keyword + rest)[1..] == rest;
    }
  }

  ghost predicate Broken(keyword: seq<Reason>, v: Json) {
    keyword != [] && Breaks(v, keyword[0])
  }

  lemma CheckedInOrder(r: ValueRules, v: Json, path: Path)
    ensures CheckValue(r, v, path).errors ==
            if Broken(ByConstant(r), v) then [Error(path, ByConstant(r)[0])]
            else if Broken(ByChoices(r), v) then [Error(path, ByChoices(r)[0])]
            else if Broken(ByTypes(r), v) then [Error(path, ByTypes(r)[0])]
            else if Broken(ByMinimum(r), v) then [Error(path, ByMinimum(r)[0])]
            else []
  {
    TypesMean(r.types, v);
    hide IsOfType, TypeAllowed, TypeOf;
  }

  /** The first keyword that the value breaks, and only that, is reported, at the value's own path. */
  lemma FirstBrokenReported(r: ValueRules, v: Json, path: Path)
    ensures FirstBroken(Keywords(r), v, path, CheckValue(r, v, path).errors)
  {
    var errors := CheckValue(r, v, path).errors;
    CheckedInOrder(r, v, path);
    TryKeyword(ByMinimum(r), [], v, path, errors);
    assert ByMinimum(r) + [] == ByMinimum(r);
    hide CheckValue, FirstBroken, Breaks;
    TryKeyword(ByTypes(r), ByMinimum(r), v, path, errors);
    TryKeyword(ByChoices(r), ByTypes(r) + ByMinimum(r), v, path, errors);
    TryKeyword(ByConstant(r), ByChoices(r) + (ByTypes(r) + ByMinimum(r)), v, path, errors);
  }

  /** A value of the only type a nullable schema names, which fails it, gets that schema's own errors; any
      other value, null excepted, is said to match no shape. */
  lemma NullableReports(d: Defs, s: Schema, t: TypeName, v: Json, path: Path)
    requires WellFounded(d) && Closed(d, s) && s.Rules? && s.value.types == [t] && !Named(s.properties, "kind")
    requires !Satisfies(d, s, v) && !v.JNull? && t != NullType
    ensures Closed(d, Nullable(s))
    ensures var errors := Check(d, Nullable(s), v, path).errors;
            if TypeOf(v) == t then errors == Check(d, s, v, path).errors else errors == [Error(path, NoShape)]
  {
    NullableClosed(d, s);
    var options := [s, OfType(NullType)];
    assert options[0] == s && options[1] == OfType(NullType);
    NullMeans(d, v);
    CheckDecides(d, s, v, path);
    CheckDecides(d, OfType(NullType), v, path);
    NonePasses(d, s, OfType(NullType), v, path);
    assert Check(d, Nullable(s), v, path) == Closest(d, options, v, path);
    NullableTarget(d, s, t, v);
  }

  lemma NonePasses(d: Defs, a: Schema, b: Schema, v: Json, path: Path)
    requires WellFounded(d) && Closed(d, a) && Closed(d, b) && !Check(d, a, v, path).ok && !Check(d, b, v, path).ok
    ensures AllClosed(d, [a, b]) && Passing(d, [a, b], v, path) == 0
  {
    var options := [a, b];
    assert options[0] == a && options[1] == b && options[..1] == [a] && [a][..0] == [];
    hide Check;
    assert Passing(d, [a], v, path) == 0;
  }

  /** Options without a `kind`: the only one of the data's type is the one reported inside. */
  lemma OnlyTypeIsTarget(d: Defs, options: seq<Schema>, v: Json, i: nat)
    requires WellFounded(d) && AllClosed(d, options) && i < |options|
    requires forall j :: 0 <= j < |options| ==> !HasKind(Resolve(d, options[j])) && !SameKind(Resolve(d, options[j]), v)
    requires forall j :: 0 <= j < |options| ==> (SameType(Resolve(d, options[j]), v) <==> j == i)
    ensures Target(d, options, v) == Some(i)
  {
    hide SameKind, SameType, HasKind, Resolve, WellFounded, AllClosed;
    WhereNone(d, options, (s: Schema) => s.Rules? && SameKind(s, v));
    WhereNone(d, options, (s: Schema) => s.Rules? && HasKind(s));
    WhereOnly(d, options, (s: Schema) => s.Rules? && SameType(s, v), i);
  }

  /** When the data has neither the kind nor the type of any option, none stands out. */
  lemma NoTarget(d: Defs, options: seq<Schema>, v: Json)
    requires WellFounded(d) && AllClosed(d, options)
    requires forall j :: 0 <= j < |options| ==> !SameKind(Resolve(d, options[j]), v)
    requires forall j :: 0 <= j < |options| ==> !SameType(Resolve(d, options[j]), v)
    ensures Target(d, options, v) == None
  {
    hide SameKind, SameType, HasKind, Resolve, WellFounded, AllClosed;
    WhereNone(d, options, (s: Schema) => s.Rules? && SameKind(s, v));
    WhereNone(d, options, (s: Schema) => s.Rules? && SameType(s, v));
  }

  lemma RulesResolve(d: Defs, s: Schema)
    requires WellFounded(d) && Closed(d, s) && s.Rules?
    ensures Resolve(d, s) == s
  {
    hide WellFounded, Closed;
  }

  lemma Kindless(s: Schema, v: Json)
    requires s.Rules? && !Named(s.properties, "kind")
    ensures !HasKind(s) && !SameKind(s, v)
  {
    assert FindProperty(s.properties, "kind") == |s.properties|;
  }

  lemma NullableTarget(d: Defs, s: Schema, t: TypeName, v: Json)
    requires WellFounded(d) && Closed(d, s) && s.Rules? && s.value.types == [t] && !Named(s.properties, "kind")
    requires !v.JNull? && t != NullType && Closed(d, OfType(NullType))
    ensures AllClosed(d, [s, OfType(NullType)])
    ensures Target(d, [s, OfType(NullType)], v) == if TypeOf(v) == t then Some(0) else None
  {
    var none := OfType(NullType);
    var options := [s, none];
    assert options[0] == s && options[1] == none;
    assert !Named(none.properties, "kind");
    assert SameType(s, v) <==> TypeOf(v) == t;
    assert !SameType(none, v);
    RulesResolve(d, s);
    RulesResolve(d, none);
    Kindless(s, v);
    Kindless(none, v);
    hide SameKind, SameType, HasKind, WellFounded, Closed, Resolve, Target, TypeOf;
    if TypeOf(v) == t {
      OnlyTypeIsTarget(d, options, v, 0);
    } else {
      NoTarget(d, options, v);
    }
  }
}
