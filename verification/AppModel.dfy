/** The app-model validator: checking JSON data against a schema with references and alternatives while
    collecting errors in one shared list. */
module AppModel {
  import opened Wrappers

  datatype Json =
    | JNull
    | JBool(flag: bool)
    | JNum(number: real)
    | JStr(text: string)
    | JArr(items: seq<Json>)
    | JObj(fields: seq<Field>)

  datatype Field = Field(name: string, value: Json)

  datatype TypeName = NullType | BooleanType | IntegerType | NumberType | StringType | ArrayType | ObjectType

  /** A schema of the shapes the app model uses; `Ref` names a definition. An empty list stands for an
      absent keyword. */
  datatype Schema =
    | Ref(name: string)
    | Rules(
        value: ValueRules,
        anyOf: seq<Schema>,
        oneOf: seq<Schema>,
        items: Option<Schema>,
        properties: seq<Property>,
        additional: Additional,
        required: seq<string>)

  /** The keywords about a value itself: const, enum, type and minimum. */
  datatype ValueRules = ValueRules(
    constant: Option<Literal>, choices: seq<string>, types: seq<TypeName>, minimum: Option<real>)

  datatype Property = Property(name: string, schema: Schema)
  datatype Literal = Number(number: real) | Text(text: string)
  datatype Additional = Unrestricted | Forbidden | Each(schema: Schema)

  /** Definitions, with ranks under which no definition refers to itself without consuming data. */
  datatype Defs = Defs(schemas: map<string, Schema>, rank: map<string, nat>)

  function TypeOf(v: Json): TypeName {
    match v
    case JNull => NullType
    case JBool(_) => BooleanType
    case JNum(n) => if n.Floor as real == n then IntegerType else NumberType
    case JStr(_) => StringType
    case JArr(_) => ArrayType
    case JObj(_) => ObjectType
  }

  predicate IsLiteral(v: Json, l: Literal) {
    match l
    case Number(n) => v == JNum(n)
    case Text(t) => v == JStr(t)
  }

  /** Index of a property, |properties| when there is none of that name. */
  function FindProperty(properties: seq<Property>, name: string): (i: nat)
    ensures i <= |properties|
    ensures i < |properties| ==> properties[i].name == name
    ensures forall j :: 0 <= j < i ==> properties[j].name != name
  {
    if properties == [] || properties[0].name == name then 0 else 1 + FindProperty(properties[1..], name)
  }

  predicate HasField(fields: seq<Field>, name: string) {
    exists i :: 0 <= i < |fields| && fields[i].name == name
  }

  // ---------- Well-founded schemas ----------

  /** How many references deep a schema reaches before it looks inside the data. */
  function Height(d: Defs, s: Schema): nat
    decreases s
  {
    match s
    case Ref(n) => if n in d.rank then d.rank[n] + 1 else 0
    case Rules(_, anyOf, oneOf, _, _, _, _) =>
      var a, o := HeightAll(d, anyOf), HeightAll(d, oneOf);
      if a > o then a else o
  }

  function HeightAll(d: Defs, options: seq<Schema>): (h: nat)
    ensures forall i :: 0 <= i < |options| ==> Height(d, options[i]) <= h
    decreases options
  {
    if options == [] then 0
    else
      var last, rest := Height(d, options[|options| - 1]), HeightAll(d, options[..|options| - 1]);
      if last > rest then last else rest
  }

  /** Every reference inside is defined, and `required` comes with other object keywords. */
  predicate Closed(d: Defs, s: Schema)
    decreases s
  {
    match s
    case Ref(n) => n in d.schemas
    case Rules(_, anyOf, oneOf, items, properties, additional, required) =>
      && AllClosed(d, anyOf)
      && AllClosed(d, oneOf)
      && (items.Some? ==> Closed(d, items.value))
      && (forall i :: 0 <= i < |properties| ==> Closed(d, properties[i].schema))
      && (additional.Each? ==> Closed(d, additional.schema))
      && (required != [] ==> properties != [] || !additional.Unrestricted?)
  }

  /** The rules for properties and for additional fields are closed. */
  predicate FieldsClosed(d: Defs, properties: seq<Property>, additional: Additional) {
    && (forall i :: 0 <= i < |properties| ==> Closed(d, properties[i].schema))
    && (additional.Each? ==> Closed(d, additional.schema))
  }

  predicate AllClosed(d: Defs, options: seq<Schema>)
    decreases options
  {
    forall i :: 0 <= i < |options| ==> Closed(d, options[i])
  }

  ghost predicate WellFounded(d: Defs) {
    forall n <- d.schemas :: Closed(d, d.schemas[n]) && n in d.rank && Height(d, d.schemas[n]) <= d.rank[n]
  }

  // ---------- What satisfying a schema means ----------

  predicate TypeAllowed(types: seq<TypeName>, actual: TypeName) {
    exists i :: 0 <= i < |types| && (types[i] == actual || (types[i] == NumberType && actual == IntegerType))
  }

  predicate ValueAllowed(r: ValueRules, v: Json) {
    && (r.constant.Some? ==> IsLiteral(v, r.constant.value))
    && (r.choices != [] ==> v.JStr? && v.text in r.choices)
    && (r.types != [] ==> TypeAllowed(r.types, TypeOf(v)))
    && (r.minimum.Some? && v.JNum? ==> v.number >= r.minimum.value)
  }

  predicate Named(properties: seq<Property>, name: string) {
    exists i :: 0 <= i < |properties| && properties[i].name == name
  }

  /** JSON Schema 2020-12, keyword by keyword, each assertion on its own: sections 10.2.1.2, 10.2.1.3,
      10.3.1.2, 10.3.2.1 and 10.3.2.3 of Core, 6.1.1 to 6.1.3, 6.2.4 and 6.5.3 of Validation. */
  ghost predicate Satisfies(d: Defs, s: Schema, v: Json)
    requires WellFounded(d) && Closed(d, s)
    decreases v, Height(d, s), s, 2
  {
    if s.Ref? then Satisfies(d, d.schemas[s.name], v) else RulesHold(d, s, v)
  }

  ghost predicate RulesHold(d: Defs, s: Schema, v: Json)
    requires WellFounded(d) && Closed(d, s) && s.Rules?
    decreases v, Height(d, s), s, 1
  {
    && ValueAllowed(s.value, v)
    && (s.anyOf != [] ==> Satisfied(d, s.anyOf, v) >= 1)
    && (s.oneOf != [] ==> Satisfied(d, s.oneOf, v) == 1)
    && PartsAllowed(d, s, v)
  }

  ghost predicate PartsAllowed(d: Defs, s: Schema, v: Json)
    requires WellFounded(d) && Closed(d, s) && s.Rules?
    decreases v, Height(d, s), s, 0
  {
    && (v.JArr? && s.items.Some? ==> ItemsAllowed(d, s.items.value, v.items))
    && (v.JObj? ==> forall k <- s.required :: HasField(v.fields, k))
    && (v.JObj? ==> FieldsAllowed(d, s.properties, s.additional, v.fields))
  }

  /** How many of the options a value satisfies. */
  ghost function Satisfied(d: Defs, options: seq<Schema>, v: Json): nat
    requires WellFounded(d) && AllClosed(d, options)
    decreases v, HeightAll(d, options), options
  {
    if options == [] then 0
    else
      Satisfied(d, options[..|options| - 1], v) + if Satisfies(d, options[|options| - 1], v) then 1 else 0
  }

  ghost predicate ItemsAllowed(d: Defs, s: Schema, items: seq<Json>)
    requires WellFounded(d) && Closed(d, s)
    decreases items
  {
    items == [] || (ItemsAllowed(d, s, items[..|items| - 1]) && Satisfies(d, s, items[|items| - 1]))
  }

  ghost predicate FieldsAllowed(d: Defs, properties: seq<Property>, additional: Additional, fields: seq<Field>)
    requires WellFounded(d) && FieldsClosed(d, properties, additional)
    decreases fields
  {
    fields == [] ||
    (FieldsAllowed(d, properties, additional, fields[..|fields| - 1])
     && FieldAllowed(d, properties, additional, fields[|fields| - 1]))
  }

  /** A field satisfies the property schema of its name; without one, the rule for additional fields. */
  ghost predicate FieldAllowed(d: Defs, properties: seq<Property>, additional: Additional, field: Field)
    requires WellFounded(d) && FieldsClosed(d, properties, additional)
    decreases field
  {
    var i := FindProperty(properties, field.name);
    if i < |properties| then Satisfies(d, properties[i].schema, field.value)
    else additional.Unrestricted? || (additional.Each? && Satisfies(d, additional.schema, field.value))
  }

  // ---------- check, as a function of what it reports ----------

  datatype Segment = Key(name: string) | Index(i: nat)
  type Path = seq<Segment>

  datatype Reason =
    | MustBe(literal: Literal)
    | MustBeOneOf(choices: seq<string>)
    | MustBeType(types: seq<TypeName>)
    | MustBeAtLeast(minimum: real)
    | Ambiguous
    | NoShape
    | IsRequired
    | NotAllowed

  datatype Error = Error(path: Path, reason: Reason)

  /** What `check` returns, and what it appends to the shared list. */
  datatype Verdict = Verdict(ok: bool, errors: seq<Error>)

  function Fail(path: Path, reason: Reason): Verdict {
    Verdict(false, [Error(path, reason)])
  }

  function And(a: Verdict, b: Verdict): Verdict {
    Verdict(a.ok && b.ok, a.errors + b.errors)
  }

  const PASS: Verdict := Verdict(true, [])

  function CheckValue(r: ValueRules, v: Json, path: Path): Verdict {
    if r.constant.Some? && !IsLiteral(v, r.constant.value) then Fail(path, MustBe(r.constant.value))
    else if r.choices != [] && !(v.JStr? && v.text in r.choices) then Fail(path, MustBeOneOf(r.choices))
    else if r.types != [] && !TypeAllowed(r.types, TypeOf(v)) then Fail(path, MustBeType(r.types))
    else if r.minimum.Some? && v.JNum? && v.number < r.minimum.value then Fail(path, MustBeAtLeast(r.minimum.value))
    else PASS
  }

  function Check(d: Defs, s: Schema, v: Json, path: Path): Verdict
    requires WellFounded(d) && Closed(d, s)
    decreases v, Height(d, s), s, 2
  {
    if s.Ref? then Check(d, d.schemas[s.name], v, path) else CheckRules(d, s, v, path)
  }

  function CheckRules(d: Defs, s: Schema, v: Json, path: Path): Verdict
    requires WellFounded(d) && Closed(d, s) && s.Rules?
    decreases v, Height(d, s), s, 1, 1
  {
    if !CheckValue(s.value, v, path).ok then CheckValue(s.value, v, path)
    else if s.anyOf != [] && Passing(d, s.anyOf, v, path) == 0 then Closest(d, s.anyOf, v, path)
    else CheckOneOf(d, s, v, path)
  }

  function CheckOneOf(d: Defs, s: Schema, v: Json, path: Path): Verdict
    requires WellFounded(d) && Closed(d, s) && s.Rules?
    decreases v, Height(d, s), s, 1, 0
  {
    var matches := Passing(d, s.oneOf, v, path);
    if matches > 1 then Fail(path, Ambiguous)
    else if s.oneOf != [] && matches == 0 then Closest(d, s.oneOf, v, path)
    else CheckParts(d, s, v, path)
  }

  function CheckParts(d: Defs, s: Schema, v: Json, path: Path): Verdict
    requires WellFounded(d) && Closed(d, s) && s.Rules?
    decreases v, Height(d, s), s, 0
  {
    if v.JArr? && s.items.Some? then CheckItems(d, s.items.value, v.items, path)
    else if v.JObj? && (s.properties != [] || !s.additional.Unrestricted?) then
      And(CheckRequired(v.fields, s.required, path), CheckFields(d, s.properties, s.additional, v.fields, path))
    else PASS
  }

  /** How many options pass when tried without reporting. */
  function Passing(d: Defs, options: seq<Schema>, v: Json, path: Path): nat
    requires WellFounded(d) && AllClosed(d, options)
    decreases v, HeightAll(d, options), options
  {
    if options == [] then 0
    else
      Passing(d, options[..|options| - 1], v, path) + if Check(d, options[|options| - 1], v, path).ok then 1 else 0
  }

  function CheckItems(d: Defs, s: Schema, items: seq<Json>, path: Path): Verdict
    requires WellFounded(d) && Closed(d, s)
    decreases items
  {
    if items == [] then PASS
    else
      var i := |items| - 1;
      And(CheckItems(d, s, items[..i], path), Check(d, s, items[i], path + [Index(i)]))
  }

  function CheckRequired(fields: seq<Field>, required: seq<string>, path: Path): Verdict {
    if required == [] then PASS
    else
      var k := required[|required| - 1];
      And(CheckRequired(fields, required[..|required| - 1], path),
          if HasField(fields, k) then PASS else Fail(path + [Key(k)], IsRequired))
  }

  function CheckFields(d: Defs, properties: seq<Property>, additional: Additional, fields: seq<Field>,
                       path: Path): Verdict
    requires WellFounded(d) && FieldsClosed(d, properties, additional)
    decreases fields
  {
    if fields == [] then PASS
    else
      And(CheckFields(d, properties, additional, fields[..|fields| - 1], path),
          CheckField(d, properties, additional, fields[|fields| - 1], path))
  }

  function CheckField(d: Defs, properties: seq<Property>, additional: Additional, field: Field, path: Path): Verdict
    requires WellFounded(d) && FieldsClosed(d, properties, additional)
    decreases field
  {
    var i, at := FindProperty(properties, field.name), path + [Key(field.name)];
    if i < |properties| then Check(d, properties[i].schema, field.value, at)
    else
      match additional
      case Unrestricted => PASS
      case Forbidden => Fail(at, NotAllowed)
      case Each(schema) => Check(d, schema, field.value, at)
  }

  // ---------- closest: reporting inside the shape that was meant ----------

  function Resolve(d: Defs, s: Schema): (r: Schema)
    requires WellFounded(d) && Closed(d, s)
    ensures Closed(d, r) && r.Rules?
    ensures r == s || Height(d, r) < Height(d, s)
    decreases Height(d, s)
  {
    if s.Ref? then Resolve(d, d.schemas[s.name]) else s
  }

  function FirstField(fields: seq<Field>, name: string): Option<Json> {
    if fields == [] then None
    else if fields[0].name == name then Some(fields[0].value)
    else FirstField(fields[1..], name)
  }

  /** The resolved option has a `kind` property whose constant is the data's `kind`. */
  predicate SameKind(s: Schema, v: Json)
    requires s.Rules?
  {
    var i := FindProperty(s.properties, "kind");
    && v.JObj? && FirstField(v.fields, "kind").Some?
    && i < |s.properties| && s.properties[i].schema.Rules? && s.properties[i].schema.value.constant.Some?
    && IsLiteral(FirstField(v.fields, "kind").value, s.properties[i].schema.value.constant.value)
  }

  predicate SameType(s: Schema, v: Json)
    requires s.Rules?
  {
    TypeOf(v) in s.value.types
  }

  predicate HasKind(s: Schema)
    requires s.Rules?
  {
    Named(s.properties, "kind")
  }

  /** Positions of the options whose resolution satisfies a test. */
  function Where(d: Defs, options: seq<Schema>, test: Schema -> bool): (found: seq<nat>)
    requires WellFounded(d) && AllClosed(d, options)
    ensures forall i :: 0 <= i < |found| ==> found[i] < |options| && test(Resolve(d, options[found[i]]))
  {
    if options == [] then []
    else
      var n := |options| - 1;
      Where(d, options[..n], test) + if test(Resolve(d, options[n])) then [n] else []
  }

  /** The option to report inside, if one stands out. */
  function Target(d: Defs, options: seq<Schema>, v: Json): (target: Option<nat>)
    requires WellFounded(d) && AllClosed(d, options)
    ensures target.Some? ==> target.value < |options|
  {
    var byKind := Where(d, options, (s: Schema) => s.Rules? && SameKind(s, v));
    var byType := Where(d, options, (s: Schema) => s.Rules? && SameType(s, v));
    var kinds := Where(d, options, (s: Schema) => s.Rules? && HasKind(s));
    if |byKind| == 1 then Some(byKind[0])
    else if |byKind| == 0 && |byType| == 1 && |kinds| == 0 then Some(byType[0])
    else None
  }

  function Closest(d: Defs, options: seq<Schema>, v: Json, path: Path): Verdict
    requires WellFounded(d) && AllClosed(d, options)
    decreases v, HeightAll(d, options), options
  {
    var target := Target(d, options, v);
    if target.Some? then Verdict(false, Check(d, Resolve(d, options[target.value]), v, path).errors)
    else Fail(path, NoShape)
  }

  // ---------- The validator decides satisfaction and reports exactly its failures ----------

  ghost predicate Right(d: Defs, s: Schema, v: Json, path: Path)
    requires WellFounded(d) && Closed(d, s)
  {
    var verdict := Check(d, s, v, path);
    (verdict.ok <==> Satisfies(d, s, v)) && (verdict.ok <==> verdict.errors == [])
  }

  /** The verdict is JSON Schema satisfaction, and `false` is returned exactly when an error was appended:
      also when the failure is re-reported inside the shape that was meant. */
  lemma {:induction false} CheckDecides(d: Defs, s: Schema, v: Json, path: Path)
    requires WellFounded(d) && Closed(d, s)
    ensures Right(d, s, v, path)
    decreases v, Height(d, s), s, 2
  {
    match s
    case Ref(n) => CheckDecides(d, d.schemas[n], v, path);
    case Rules(_, anyOf, oneOf, _, _, _, _) =>
      OptionsDecide(d, anyOf, v, path);
      OptionsDecide(d, oneOf, v, path);
      PartsDecide(d, s, v, path);
      RulesRight(d, s, v, path);
  }

  ghost predicate OptionsRight(d: Defs, options: seq<Schema>, v: Json, path: Path)
    requires WellFounded(d) && AllClosed(d, options)
  {
    && Passing(d, options, v, path) == Satisfied(d, options, v)
    && (Satisfied(d, options, v) == 0 ==> !Closest(d, options, v, path).ok && Closest(d, options, v, path).errors != [])
  }

  ghost predicate PartsRight(d: Defs, s: Schema, v: Json, path: Path)
    requires WellFounded(d) && Closed(d, s) && s.Rules?
  {
    var verdict := CheckParts(d, s, v, path);
    (verdict.ok <==> PartsAllowed(d, s, v)) && (verdict.ok <==> verdict.errors == [])
  }

  lemma RulesRight(d: Defs, s: Schema, v: Json, path: Path)
    requires WellFounded(d) && Closed(d, s) && s.Rules?
    requires OptionsRight(d, s.anyOf, v, path) && OptionsRight(d, s.oneOf, v, path) && PartsRight(d, s, v, path)
    ensures Right(d, s, v, path)
  {
    assert Check(d, s, v, path) == CheckRules(d, s, v, path);
    var oneOf := CheckOneOf(d, s, v, path);
    assert oneOf.ok <==> (s.oneOf != [] ==> Satisfied(d, s.oneOf, v) == 1) && PartsAllowed(d, s, v);
    assert oneOf.ok <==> oneOf.errors == [];
    assert Satisfies(d, s, v) <==> RulesHold(d, s, v);
  }

  lemma {:induction false} OptionsDecide(d: Defs, options: seq<Schema>, v: Json, path: Path)
    requires WellFounded(d) && AllClosed(d, options)
    ensures OptionsRight(d, options, v, path)
    decreases v, HeightAll(d, options), options, 1
  {
    PassingCounts(d, options, v, path);
    if Satisfied(d, options, v) == 0 {
      ClosestReports(d, options, v, path);
    }
  }

  lemma {:induction false} PartsDecide(d: Defs, s: Schema, v: Json, path: Path)
    requires WellFounded(d) && Closed(d, s) && s.Rules?
    ensures PartsRight(d, s, v, path)
    decreases v, Height(d, s), s, 0
  {
    if v.JArr? && s.items.Some? {
      ItemsDecide(d, s.items.value, v.items, path);
    } else if v.JObj? && (s.properties != [] || !s.additional.Unrestricted?) {
      RequiredDecides(v.fields, s.required, path);
      FieldsDecide(d, s.properties, s.additional, v.fields, path);
    } else if v.JObj? {
      AnythingAllowed(d, v.fields);
    }
  }

  lemma {:induction false} AnythingAllowed(d: Defs, fields: seq<Field>)
    requires WellFounded(d)
    ensures FieldsAllowed(d, [], Unrestricted, fields)
  {
    if fields != [] {
      AnythingAllowed(d, fields[..|fields| - 1]);
    }
  }

  lemma {:induction false} PassingCounts(d: Defs, options: seq<Schema>, v: Json, path: Path)
    requires WellFounded(d) && AllClosed(d, options)
    ensures Passing(d, options, v, path) == Satisfied(d, options, v)
    decreases v, HeightAll(d, options), options, 0
  {
    if options != [] {
      CheckDecides(d, options[|options| - 1], v, path);
      PassingCounts(d, options[..|options| - 1], v, path);
    }
  }

  lemma {:induction false} NoneSatisfied(d: Defs, options: seq<Schema>, v: Json, i: nat)
    requires WellFounded(d) && AllClosed(d, options) && Satisfied(d, options, v) == 0 && i < |options|
    ensures !Satisfies(d, options[i], v)
  {
    if i < |options| - 1 {
      NoneSatisfied(d, options[..|options| - 1], v, i);
    }
  }

  lemma {:induction false} ClosestReports(d: Defs, options: seq<Schema>, v: Json, path: Path)
    requires WellFounded(d) && AllClosed(d, options) && Satisfied(d, options, v) == 0
    ensures var verdict := Closest(d, options, v, path); !verdict.ok && verdict.errors != []
    decreases v, HeightAll(d, options), options, 0
  {
    var target := Target(d, options, v);
    if target.Some? {
      var option := options[target.value];
      NoneSatisfied(d, options, v, target.value);
      ResolveMeansSame(d, option, v);
      CheckDecides(d, Resolve(d, option), v, path);
    }
  }

  lemma {:induction false} ResolveMeansSame(d: Defs, s: Schema, v: Json)
    requires WellFounded(d) && Closed(d, s)
    ensures Satisfies(d, Resolve(d, s), v) <==> Satisfies(d, s, v)
    decreases Height(d, s)
  {
    if s.Ref? {
      ResolveMeansSame(d, d.schemas[s.name], v);
    }
  }

  lemma {:induction false} ItemsDecide(d: Defs, s: Schema, items: seq<Json>, path: Path)
    requires WellFounded(d) && Closed(d, s)
    ensures var verdict := CheckItems(d, s, items, path);
            && (verdict.ok <==> ItemsAllowed(d, s, items))
            && (verdict.ok <==> verdict.errors == [])
    decreases items
  {
    if items != [] {
      var i := |items| - 1;
      ItemsDecide(d, s, items[..i], path);
      CheckDecides(d, s, items[i], path + [Index(i)]);
    }
  }

  lemma {:induction false} RequiredDecides(fields: seq<Field>, required: seq<string>, path: Path)
    ensures var verdict := CheckRequired(fields, required, path);
            && (verdict.ok <==> forall k <- required :: HasField(fields, k))
            && (verdict.ok <==> verdict.errors == [])
  {
    if required != [] {
      var init, last := required[..|required| - 1], required[|required| - 1];
      RequiredDecides(fields, init, path);
      assert required == init + [last];
    }
  }

  /** Every missing key is reported, at its path, and nothing else. */
  lemma {:induction false} RequiredReports(fields: seq<Field>, required: seq<string>, path: Path, e: Error)
    ensures e in CheckRequired(fields, required, path).errors <==>
            exists k <- required :: !HasField(fields, k) && e == Error(path + [Key(k)], IsRequired)
  {
    if required != [] {
      var init, last := required[..|required| - 1], required[|required| - 1];
      RequiredReports(fields, init, path, e);
      assert required == init + [last];
    }
  }

  /** Every error of every item is reported, and nothing else. */
  lemma {:induction false} ItemsReport(d: Defs, s: Schema, items: seq<Json>, path: Path, e: Error)
    requires WellFounded(d) && Closed(d, s)
    ensures e in CheckItems(d, s, items, path).errors <==>
            exists i :: 0 <= i < |items| && e in Check(d, s, items[i], path + [Index(i)]).errors
  {
    if items != [] {
      var n := |items| - 1;
      ItemsReport(d, s, items[..n], path, e);
      hide Check;
      assert forall i :: 0 <= i < n ==> items[..n][i] == items[i];
    }
  }

  /** Every error of every field is reported, and nothing else. */
  lemma {:induction false} FieldsReport(d: Defs, properties: seq<Property>, additional: Additional, fields: seq<Field>,
                                        path: Path, e: Error)
    requires WellFounded(d) && FieldsClosed(d, properties, additional)
    ensures e in CheckFields(d, properties, additional, fields, path).errors <==>
            exists i :: 0 <= i < |fields| && e in CheckField(d, properties, additional, fields[i], path).errors
  {
    if fields != [] {
      var n := |fields| - 1;
      FieldsReport(d, properties, additional, fields[..n], path, e);
      hide CheckField;
      assert forall i :: 0 <= i < n ==> fields[..n][i] == fields[i];
    }
  }

  lemma {:induction false} FieldsDecide(d: Defs, properties: seq<Property>, additional: Additional, fields: seq<Field>,
                                        path: Path)
    requires WellFounded(d) && FieldsClosed(d, properties, additional)
    ensures var verdict := CheckFields(d, properties, additional, fields, path);
            && (verdict.ok <==> FieldsAllowed(d, properties, additional, fields))
            && (verdict.ok <==> verdict.errors == [])
    decreases fields
  {
    if fields != [] {
      FieldsDecide(d, properties, additional, fields[..|fields| - 1], path);
      FieldDecides(d, properties, additional, fields[|fields| - 1], path);
    }
  }

  lemma {:induction false} FieldDecides(d: Defs, properties: seq<Property>, additional: Additional, field: Field,
                                        path: Path)
    requires WellFounded(d) && FieldsClosed(d, properties, additional)
    ensures var verdict := CheckField(d, properties, additional, field, path);
            && (verdict.ok <==> FieldAllowed(d, properties, additional, field))
            && (verdict.ok <==> verdict.errors == [])
    decreases field
  {
    var i, at := FindProperty(properties, field.name), path + [Key(field.name)];
    if i < |properties| {
      CheckDecides(d, properties[i].schema, field.value, at);
    } else if additional.Each? {
      CheckDecides(d, additional.schema, field.value, at);
    }
  }

  // ---------- The same in quantified form ----------

  lemma {:induction false} ItemAllowed(d: Defs, s: Schema, items: seq<Json>, i: nat)
    requires WellFounded(d) && Closed(d, s) && i < |items| && ItemsAllowed(d, s, items)
    ensures Satisfies(d, s, items[i])
  {
    if i < |items| - 1 {
      ItemAllowed(d, s, items[..|items| - 1], i);
    }
  }

  lemma {:induction false} AllItemsAllowed(d: Defs, s: Schema, items: seq<Json>)
    requires WellFounded(d) && Closed(d, s) && forall i :: 0 <= i < |items| ==> Satisfies(d, s, items[i])
    ensures ItemsAllowed(d, s, items)
  {
    if items != [] {
      AllItemsAllowed(d, s, items[..|items| - 1]);
    }
  }

  /** `items` holds exactly when every item satisfies the schema. */
  lemma ItemsMean(d: Defs, s: Schema, items: seq<Json>)
    requires WellFounded(d) && Closed(d, s)
    ensures ItemsAllowed(d, s, items) <==> forall i :: 0 <= i < |items| ==> Satisfies(d, s, items[i])
  {
    if ItemsAllowed(d, s, items) {
      forall i | 0 <= i < |items| ensures Satisfies(d, s, items[i]) {
        ItemAllowed(d, s, items, i);
      }
    }
    if forall i :: 0 <= i < |items| ==> Satisfies(d, s, items[i]) {
      AllItemsAllowed(d, s, items);
    }
  }

  lemma {:induction false} SomeSatisfied(d: Defs, options: seq<Schema>, v: Json) returns (i: nat)
    requires WellFounded(d) && AllClosed(d, options) && Satisfied(d, options, v) >= 1
    ensures i < |options| && Satisfies(d, options[i], v)
    ensures Satisfied(d, options, v) >= 2 ==> Satisfied(d, options[..i], v) >= 1
  {
    i := |options| - 1;
    if !Satisfies(d, options[i], v) {
      i := SomeSatisfied(d, options[..|options| - 1], v);
      assert options[..|options| - 1][..i] == options[..i];
    }
  }

  lemma {:induction false} CountsEach(d: Defs, options: seq<Schema>, v: Json, i: nat)
    requires WellFounded(d) && AllClosed(d, options) && i < |options| && Satisfies(d, options[i], v)
    ensures AllClosed(d, options[..i]) && Satisfied(d, options, v) >= Satisfied(d, options[..i], v) + 1
  {
    if i < |options| - 1 {
      CountsEach(d, options[..|options| - 1], v, i);
      assert options[..|options| - 1][..i] == options[..i];
    }
  }

  /** `anyOf` asks for a satisfied option, `oneOf` for one and no second. */
  lemma OptionsMean(d: Defs, options: seq<Schema>, v: Json)
    requires WellFounded(d) && AllClosed(d, options)
    ensures Satisfied(d, options, v) >= 1 <==> exists i :: 0 <= i < |options| && Satisfies(d, options[i], v)
    ensures Satisfied(d, options, v) >= 2 <==>
            exists i, j :: 0 <= i < j < |options| && Satisfies(d, options[i], v) && Satisfies(d, options[j], v)
  {
    if Satisfied(d, options, v) >= 1 {
      var j := SomeSatisfied(d, options, v);
      if Satisfied(d, options, v) >= 2 {
        var i := SomeSatisfied(d, options[..j], v);
        assert Satisfies(d, options[i], v);
      }
    }
    forall j | 0 <= j < |options| && Satisfies(d, options[j], v) ensures Satisfied(d, options, v) >= 1 {
      CountsEach(d, options, v, j);
    }
    forall i, j | 0 <= i < j < |options| && Satisfies(d, options[i], v) && Satisfies(d, options[j], v)
      ensures Satisfied(d, options, v) >= 2
    {
      CountsEach(d, options, v, j);
      CountsEach(d, options[..j], v, i);
    }
  }

  // ---------- The validator object ----------

  lemma ItemsAt(d: Defs, s: Schema, items: seq<Json>, i: nat, path: Path)
    requires WellFounded(d) && Closed(d, s) && i < |items|
    ensures var before, here := CheckItems(d, s, items[..i], path), Check(d, s, items[i], path + [Index(i)]);
            CheckItems(d, s, items[..i + 1], path) == Verdict(before.ok && here.ok, before.errors + here.errors)
  {
    assert items[..i + 1][..i] == items[..i];
    hide Check;
  }

  lemma FieldsAt(d: Defs, properties: seq<Property>, additional: Additional, fields: seq<Field>, i: nat, path: Path)
    requires WellFounded(d) && FieldsClosed(d, properties, additional) && i < |fields|
    ensures var before := CheckFields(d, properties, additional, fields[..i], path);
            var here := CheckField(d, properties, additional, fields[i], path);
            CheckFields(d, properties, additional, fields[..i + 1], path)
              == Verdict(before.ok && here.ok, before.errors + here.errors)
  {
    assert fields[..i + 1][..i] == fields[..i];
    hide CheckField;
  }

  lemma Whole<T>(s: seq<T>)
    ensures s[..|s|] == s
  {
  }

  lemma Appended(list: seq<Error>, a: seq<Error>, b: seq<Error>)
    ensures (list + a) + b == list + (a + b)
    ensures list + [] == list && [] + list == list
  {
  }

  /** One validation: the list every check appends to. */
  class Validator {
    const d: Defs
    var errors: seq<Error>

    constructor (d: Defs)
      ensures this.d == d && errors == []
    {
      this.d, errors := d, [];
    }

    method Report(path: Path, reason: Reason) returns (ok: bool)
      modifies this
      ensures !ok && errors == old(errors) + [Error(path, reason)]
    {
      errors := errors + [Error(path, reason)];
      ok := false;
    }

    method CheckSchema(s: Schema, v: Json, path: Path) returns (ok: bool)
      requires WellFounded(d) && Closed(d, s)
      modifies this
      ensures ok == Check(d, s, v, path).ok && errors == old(errors) + Check(d, s, v, path).errors
      decreases v, Height(d, s), s, 3
    {
      if s.Ref? {
        ok := CheckSchema(d.schemas[s.name], v, path);
      } else {
        ok := CheckAllRules(s, v, path);
      }
    }

    method CheckAllRules(s: Schema, v: Json, path: Path) returns (ok: bool)
      requires WellFounded(d) && Closed(d, s) && s.Rules?
      modifies this
      ensures ok == CheckRules(d, s, v, path).ok && errors == old(errors) + CheckRules(d, s, v, path).errors
      decreases v, Height(d, s), s, 2
    {
      Appended(errors, [], []);
      ok := CheckOwnValue(s.value, v, path);
      if !ok {
        return;
      }
      assert errors == old(errors);
      if s.anyOf != [] {
        var some := AnyPasses(s.anyOf, v, path);
        if !some {
          ok := ReportClosest(s.anyOf, v, path);
          return;
        }
      }
      ok := CheckExactlyOne(s, v, path);
    }

    method CheckExactlyOne(s: Schema, v: Json, path: Path) returns (ok: bool)
      requires WellFounded(d) && Closed(d, s) && s.Rules?
      modifies this
      ensures ok == CheckOneOf(d, s, v, path).ok && errors == old(errors) + CheckOneOf(d, s, v, path).errors
      decreases v, Height(d, s), s, 1, 1
    {
      var matches := CountPasses(s.oneOf, v, path);
      if matches > 1 {
        ok := Report(path, Ambiguous);
      } else if s.oneOf != [] && matches == 0 {
        ok := ReportClosest(s.oneOf, v, path);
      } else {
        ok := CheckInside(s, v, path);
      }
    }

    method CheckOwnValue(r: ValueRules, v: Json, path: Path) returns (ok: bool)
      modifies this
      ensures ok == CheckValue(r, v, path).ok && errors == old(errors) + CheckValue(r, v, path).errors
    {
      ok := true;
      if r.constant.Some? && !IsLiteral(v, r.constant.value) {
        ok := Report(path, MustBe(r.constant.value));
      } else if r.choices != [] && !(v.JStr? && v.text in r.choices) {
        ok := Report(path, MustBeOneOf(r.choices));
      } else if r.types != [] && !TypeAllowed(r.types, TypeOf(v)) {
        ok := Report(path, MustBeType(r.types));
      } else if r.minimum.Some? && v.JNum? && v.number < r.minimum.value {
        ok := Report(path, MustBeAtLeast(r.minimum.value));
      }
    }

    /** Tries an option and truncates the list back to what it was. */
    method Quiet(s: Schema, v: Json, path: Path) returns (ok: bool)
      requires WellFounded(d) && Closed(d, s)
      modifies this
      ensures ok == Check(d, s, v, path).ok && errors == old(errors)
      decreases v, Height(d, s), s, 4
    {
      var count := |errors|;
      ok := CheckSchema(s, v, path);
      errors := errors[..count];
    }

    method AnyPasses(options: seq<Schema>, v: Json, path: Path) returns (some: bool)
      requires WellFounded(d) && AllClosed(d, options)
      modifies this
      ensures some == (Passing(d, options, v, path) > 0) && errors == old(errors)
      decreases v, HeightAll(d, options), options
    {
      var i := 0;
      assert Passing(d, options[..0], v, path) == 0;
      while i < |options|
        invariant 0 <= i <= |options| && errors == old(errors)
        invariant Passing(d, options[..i], v, path) == 0
      {
        hide Passing, Check;
        PassingAt(d, options, v, path, i);
        some := Quiet(options[i], v, path);
        if some {
          PassingGrows(d, options, v, path, i + 1);
          return;
        }
        i := i + 1;
      }
      Whole(options);
      return false;
    }

    method CountPasses(options: seq<Schema>, v: Json, path: Path) returns (count: nat)
      requires WellFounded(d) && AllClosed(d, options)
      modifies this
      ensures count == Passing(d, options, v, path) && errors == old(errors)
      decreases v, HeightAll(d, options), options
    {
      count := 0;
      var i := 0;
      assert Passing(d, options[..0], v, path) == 0;
      while i < |options|
        invariant 0 <= i <= |options| && errors == old(errors)
        invariant count == Passing(d, options[..i], v, path)
      {
        hide Passing, Check;
        PassingAt(d, options, v, path, i);
        var ok := Quiet(options[i], v, path);
        if ok {
          count := count + 1;
        }
        i := i + 1;
      }
      Whole(options);
    }

    method ReportClosest(options: seq<Schema>, v: Json, path: Path) returns (ok: bool)
      requires WellFounded(d) && AllClosed(d, options)
      modifies this
      ensures !ok && errors == old(errors) + Closest(d, options, v, path).errors
      decreases v, HeightAll(d, options), options
    {
      var target := Target(d, options, v);
      if target.Some? {
        var _ := CheckSchema(Resolve(d, options[target.value]), v, path);
        return false;
      }
      ok := Report(path, NoShape);
    }

    method CheckInside(s: Schema, v: Json, path: Path) returns (ok: bool)
      requires WellFounded(d) && Closed(d, s) && s.Rules?
      modifies this
      ensures ok == CheckParts(d, s, v, path).ok && errors == old(errors) + CheckParts(d, s, v, path).errors
      decreases v, Height(d, s), s, 1, 0
    {
      if v.JArr? && s.items.Some? {
        ok := CheckEachItem(s.items.value, v.items, path);
      } else if v.JObj? && (s.properties != [] || !s.additional.Unrestricted?) {
        Appended(errors, CheckRequired(v.fields, s.required, path).errors,
                 CheckFields(d, s.properties, s.additional, v.fields, path).errors);
        var present := CheckRequiredKeys(v.fields, s.required, path);
        ok := CheckEachField(s.properties, s.additional, v.fields, path);
        ok := present && ok;
      } else {
        Appended(errors, [], []);
        ok := true;
      }
    }

    method CheckEachItem(s: Schema, items: seq<Json>, path: Path) returns (ok: bool)
      requires WellFounded(d) && Closed(d, s)
      modifies this
      ensures ok == CheckItems(d, s, items, path).ok && errors == old(errors) + CheckItems(d, s, items, path).errors
      decreases items
    {
      ok := true;
      var i := 0;
      assert CheckItems(d, s, items[..0], path) == PASS;
      Appended(errors, [], []);
      hide *;
      while i < |items|
        invariant 0 <= i <= |items|
        invariant ok == CheckItems(d, s, items[..i], path).ok
        invariant errors == old(errors) + CheckItems(d, s, items[..i], path).errors
      {
        ItemsAt(d, s, items, i, path);
        Appended(old(errors), CheckItems(d, s, items[..i], path).errors,
                 Check(d, s, items[i], path + [Index(i)]).errors);
        var one := CheckSchema(s, items[i], path + [Index(i)]);
        ok := one && ok;
        i := i + 1;
      }
      Whole(items);
    }

    method CheckRequiredKeys(fields: seq<Field>, required: seq<string>, path: Path) returns (ok: bool)
      modifies this
      ensures ok == CheckRequired(fields, required, path).ok
              && errors == old(errors) + CheckRequired(fields, required, path).errors
    {
      ok := true;
      var i := 0;
      while i < |required|
        invariant 0 <= i <= |required|
        invariant ok == CheckRequired(fields, required[..i], path).ok
        invariant errors == old(errors) + CheckRequired(fields, required[..i], path).errors
      {
        assert required[..i + 1][..i] == required[..i];
        if !HasField(fields, required[i]) {
          ok := Report(path + [Key(required[i])], IsRequired);
        }
        i := i + 1;
      }
      assert required[..|required|] == required;
    }

    method CheckEachField(properties: seq<Property>, additional: Additional, fields: seq<Field>, path: Path)
      returns (ok: bool)
      requires WellFounded(d) && FieldsClosed(d, properties, additional)
      modifies this
      ensures ok == CheckFields(d, properties, additional, fields, path).ok
      ensures errors == old(errors) + CheckFields(d, properties, additional, fields, path).errors
      decreases fields
    {
      ok := true;
      var i := 0;
      assert CheckFields(d, properties, additional, fields[..0], path) == PASS;
      Appended(errors, [], []);
      hide *;
      while i < |fields|
        invariant 0 <= i <= |fields|
        invariant ok == CheckFields(d, properties, additional, fields[..i], path).ok
        invariant errors == old(errors) + CheckFields(d, properties, additional, fields[..i], path).errors
      {
        FieldsAt(d, properties, additional, fields, i, path);
        Appended(old(errors), CheckFields(d, properties, additional, fields[..i], path).errors,
                 CheckField(d, properties, additional, fields[i], path).errors);
        var one := CheckOneField(properties, additional, fields[i], path);
        ok := one && ok;
        i := i + 1;
      }
      Whole(fields);
    }

    method CheckOneField(properties: seq<Property>, additional: Additional, field: Field, path: Path) returns (ok: bool)
      requires WellFounded(d) && FieldsClosed(d, properties, additional)
      modifies this
      ensures ok == CheckField(d, properties, additional, field, path).ok
      ensures errors == old(errors) + CheckField(d, properties, additional, field, path).errors
      decreases field
    {
      var i, at := FindProperty(properties, field.name), path + [Key(field.name)];
      if i < |properties| {
        ok := CheckSchema(properties[i].schema, field.value, at);
      } else if additional.Forbidden? {
        ok := Report(at, NotAllowed);
      } else if additional.Each? {
        ok := CheckSchema(additional.schema, field.value, at);
      } else {
        ok := true;
      }
    }
  }

  lemma PassingAt(d: Defs, options: seq<Schema>, v: Json, path: Path, i: nat)
    requires WellFounded(d) && AllClosed(d, options) && i < |options|
    ensures AllClosed(d, options[..i]) && AllClosed(d, options[..i + 1]) && Closed(d, options[i])
    ensures Passing(d, options[..i + 1], v, path)
            == Passing(d, options[..i], v, path) + if Check(d, options[i], v, path).ok then 1 else 0
  {
    PassingGrows(d, options, v, path, i);
    PassingGrows(d, options, v, path, i + 1);
    assert options[..i + 1][..i] == options[..i];
    hide Check;
  }

  lemma {:induction false} PassingGrows(d: Defs, options: seq<Schema>, v: Json, path: Path, i: nat)
    requires WellFounded(d) && AllClosed(d, options) && i <= |options|
    ensures AllClosed(d, options[..i]) && Passing(d, options[..i], v, path) <= Passing(d, options, v, path)
  {
    if i == |options| {
      assert options[..i] == options;
    } else {
      assert options[..|options| - 1][..i] == options[..i];
      PassingGrows(d, options[..|options| - 1], v, path, i);
    }
  }

  /** `validateAppModel` for any schema: valid exactly when the document satisfies it. */
  method Validate(d: Defs, s: Schema, document: Json) returns (valid: bool, errors: seq<Error>)
    requires WellFounded(d) && Closed(d, s)
    ensures valid == Satisfies(d, s, document)
    ensures errors == Check(d, s, document, []).errors && (valid <==> errors == [])
  {
    var validator := new Validator(d);
    var _ := validator.CheckSchema(s, document, []);
    errors := validator.errors;
    valid := errors == [];
    CheckDecides(d, s, document, []);
    Appended(Check(d, s, document, []).errors, [], []);
    hide *;
  }
}
