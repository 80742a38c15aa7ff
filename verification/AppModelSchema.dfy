/** The app model's own schema, and what the validator does on it. */
module AppModelSchema {
  import opened Wrappers
  import opened AppModel

  // ---------- Builders ----------

  const ANY_VALUE: ValueRules := ValueRules(None, [], [], None)

  function Value(rules: ValueRules): Schema {
    Rules(rules, [], [], None, [], Unrestricted, [])
  }

  function OfType(t: TypeName): Schema {
    Value(ANY_VALUE.(types := [t]))
  }

  function Const(l: Literal): Schema {
    Value(ANY_VALUE.(constant := Some(l)))
  }

  function OneOfTexts(choices: seq<string>): Schema {
    Value(ANY_VALUE.(choices := choices))
  }

  function AnyOf(options: seq<Schema>): Schema {
    Rules(ANY_VALUE, options, [], None, [], Unrestricted, [])
  }

  const STRING: Schema := OfType(StringType)
  const BOOLEAN: Schema := OfType(BooleanType)
  const COUNT: Schema := Value(ANY_VALUE.(types := [IntegerType], minimum := Some(1.0)))

  function Nullable(s: Schema): Schema {
    AnyOf([s, OfType(NullType)])
  }

  function Array(items: Schema): Schema {
    Rules(ANY_VALUE.(types := [ArrayType]), [], [], Some(items), [], Unrestricted, [])
  }

  function Names(properties: seq<Property>, optional: seq<string>): seq<string> {
    if properties == [] then []
    else
      var rest := Names(properties[1..], optional);
      if properties[0].name in optional then rest else [properties[0].name] + rest
  }

  /** Exactly the properties not listed as optional. */
  lemma {:induction false} NamesExactly(properties: seq<Property>, optional: seq<string>, name: string)
    ensures name in Names(properties, optional) <==> name !in optional && Named(properties, name)
  {
    if properties != [] {
      NamesExactly(properties[1..], optional, name);
      assert forall i :: 1 <= i < |properties| ==> properties[i] == properties[1..][i - 1];
      assert Named(properties, name) <==> properties[0].name == name || Named(properties[1..], name);
    }
  }

  /** An object with exactly these properties, all required but the optional ones. */
  function Object(properties: seq<Property>, optional: seq<string>): Schema {
    Rules(ANY_VALUE.(types := [ObjectType]), [], [], None, properties, Forbidden, Names(properties, optional))
  }

  // ---------- The schema ----------

  const LOCATION: Schema := Object([Property("file", STRING), Property("line", COUNT), Property("column", COUNT)], [])

  const JSON: Schema := AnyOf([
    Value(ANY_VALUE.(types := [StringType, NumberType, BooleanType, NullType])),
    Array(Ref("json")),
    Rules(ANY_VALUE.(types := [ObjectType]), [], [], None, [], Each(Ref("json")), [])])

  const ROUTE: Schema := Object([
    Property("path", STRING), Property("kind", STRING), Property("file", STRING),
    Property("className", Nullable(STRING)),
    Property("params", Array(STRING)), Property("layouts", Array(STRING)), Property("transport", Nullable(STRING)),
    Property("stateful", Nullable(BOOLEAN)), Property("ssg", Nullable(BOOLEAN))], [])

  const LAYOUT: Schema := Object([
    Property("file", STRING), Property("scope", STRING), Property("className", Nullable(STRING)),
    Property("services", Array(STRING))], [])

  const DECORATOR: Schema := Object([Property("name", STRING), Property("arguments", Array(Ref("json")))], [])

  const MEMBER: Schema := Object([
    Property("name", STRING), Property("type", STRING), Property("optional", BOOLEAN),
    Property("comment", Nullable(STRING))], [])

  const STATE: Schema := Object([
    Property("name", STRING), Property("decorator", STRING), Property("type", STRING),
    Property("initial", Nullable(STRING)),
    Property("comment", Nullable(STRING)), Property("location", Ref("location"))], [])

  const PARAMETER: Schema := Object([Property("name", STRING), Property("type", STRING), Property("optional", BOOLEAN)],
                                    [])

  const METHOD: Schema := Object([
    Property("name", STRING),
    Property("kind", OneOfTexts(["server", "client", "shared", "computed", "task", "lifecycle", "method"])),
    Property("decorators", Array(Ref("decorator"))), Property("parameters", Array(PARAMETER)),
    Property("returnType", STRING),
    Property("async", BOOLEAN), Property("static", BOOLEAN), Property("comment", Nullable(STRING)),
    Property("location", Ref("location"))], [])

  const RESOURCE: Schema := Object([
    Property("name", STRING), Property("type", STRING), Property("source", STRING),
    Property("comment", Nullable(STRING)),
    Property("location", Ref("location"))], [])

  const SERVICE: Schema := Object([Property("name", STRING), Property("service", STRING)], [])

  const PROPS: Schema := Object([Property("type", STRING), Property("members", Array(Ref("member")))], [])

  const CLASS: Schema := Object([
    Property("name", STRING), Property("kind", OneOfTexts(["page", "layout", "component", "service", "class"])),
    Property("location", Ref("location")), Property("exported", BOOLEAN), Property("extends", Nullable(STRING)),
    Property("decorators", Array(Ref("decorator"))), Property("comment", Nullable(STRING)),
    Property("props", Nullable(PROPS)),
    Property("state", Array(STATE)), Property("methods", Array(METHOD)), Property("resources", Array(RESOURCE)),
    Property("services", Array(SERVICE)), Property("render", Nullable(Array(Ref("node"))))], [])

  const EXPRESSION: Schema := Object([Property("source", STRING), Property("type", STRING)], [])

  const ATTRIBUTE: Schema := Object([
    Property("name", STRING), Property("kind", OneOfTexts(["attribute", "property", "boolean", "event", "spread"])),
    Property("value", Nullable(STRING)), Property("binding", Ref("expression")),
    Property("parts", Array(AnyOf([STRING, Ref("expression")])))], ["value", "binding", "parts"])

  const NODE: Schema := Rules(ANY_VALUE, [], SHAPES, None, [], Unrestricted, [])
  const SHAPES: seq<Schema> := [Ref("element"), Ref("component"), Ref("control"), Ref("text"), Ref("expressionNode")]

  const ELEMENT: Schema := Object([
    Property("kind", Const(Text("element"))), Property("tag", STRING),
    Property("namespace", OneOfTexts(["html", "svg", "mathml"])),
    Property("attributes", Array(Ref("attribute"))), Property("children", Array(Ref("node"))),
    Property("location", Ref("location"))], [])

  const COMPONENT: Schema := Object([
    Property("kind", Const(Text("component"))), Property("class", STRING), Property("props", Array(Ref("attribute"))),
    Property("children", Array(Ref("node"))), Property("location", Ref("location"))], [])

  const BRANCH: Schema := Object([Property("label", STRING), Property("nodes", Array(Ref("node")))], [])

  const CONTROL: Schema := Object([
    Property("kind", Const(Text("control"))),
    Property("control", OneOfTexts(["conditional", "and", "or", "when", "choose", "repeat", "map", "returns"])),
    Property("source", Nullable(STRING)), Property("parameters", Array(STRING)), Property("key", STRING),
    Property("branches", Array(BRANCH)), Property("location", Ref("location"))], ["parameters", "key"])

  const TEXT: Schema := Object([Property("kind", Const(Text("text"))), Property("text", STRING)], [])

  const EXPRESSION_NODE: Schema := Object([
    Property("kind", Const(Text("expression"))), Property("source", STRING), Property("type", STRING),
    Property("location", Ref("location"))], [])

  const NAMES: set<string> := {
    "json", "location", "route", "layout", "decorator", "member", "class", "expression", "attribute", "node",
    "element", "component", "control", "text", "expressionNode"}

  /** The schema's `$defs`. */
  function Definition(name: string): Schema {
    if name == "json" then JSON
    else if name == "location" then LOCATION
    else if name == "route" then ROUTE
    else if name == "layout" then LAYOUT
    else if name == "decorator" then DECORATOR
    else if name == "member" then MEMBER
    else if name == "class" then CLASS
    else if name == "expression" then EXPRESSION
    else if name == "attribute" then ATTRIBUTE
    else if name == "node" then NODE
    else if name == "element" then ELEMENT
    else if name == "component" then COMPONENT
    else if name == "control" then CONTROL
    else if name == "text" then TEXT
    else EXPRESSION_NODE
  }

  /** Only `node` refers to other definitions before looking inside the data. */
  const DEFS: Defs := Defs(map name <- NAMES :: Definition(name), map name <- NAMES :: if name == "node" then 1 else 0)

  const APP_MODEL: Schema := Object([
    Property("schemaVersion", Const(Number(1.0))),
    Property("generator", Object([Property("name", Const(Text("cossack"))), Property("version", STRING)], [])),
    Property("routes", Array(Ref("route"))), Property("layouts", Array(Ref("layout"))),
    Property("classes", Array(Ref("class")))], [])

  // ---------- It is well-founded ----------

  /** Every property schema is closed. */
  predicate AllPropertiesClosed(d: Defs, properties: seq<Property>) {
    forall i :: 0 <= i < |properties| ==> Closed(d, properties[i].schema)
  }

  lemma SimpleClosed(d: Defs)
    ensures Closed(d, STRING) && Closed(d, BOOLEAN) && Closed(d, COUNT)
    ensures forall l :: Closed(d, Const(l))
    ensures forall choices :: Closed(d, OneOfTexts(choices))
    ensures forall t :: Closed(d, OfType(t))
  {
  }

  lemma NullableClosed(d: Defs, s: Schema)
    requires Closed(d, s)
    ensures Closed(d, Nullable(s))
  {
    SimpleClosed(d);
  }

  lemma ArrayClosed(d: Defs, s: Schema)
    requires Closed(d, s)
    ensures Closed(d, Array(s))
  {
  }

  /** A definition fit for its rank. */
  predicate Fit(d: Defs, s: Schema, rank: nat) {
    Closed(d, s) && Height(d, s) <= rank
  }

  lemma ObjectClosed(d: Defs, properties: seq<Property>, optional: seq<string>)
    requires AllPropertiesClosed(d, properties)
    ensures Fit(d, Object(properties, optional), 0)
  {
  }

  /** The definitions the schema refers to. */
  predicate HasNames(d: Defs) {
    forall name <- NAMES :: name in d.schemas
  }

  /** Ranks that put the node shapes below `node`. */
  ghost predicate ShapesFirst(d: Defs) {
    HasNames(d) && forall n <- SHAPES :: n.name in d.rank && d.rank[n.name] == 0
  }

  lemma PartsClosed(d: Defs)
    requires HasNames(d)
    ensures Closed(d, STRING) && Closed(d, BOOLEAN) && Closed(d, COUNT)
    ensures forall l :: Closed(d, Const(l))
    ensures forall choices :: Closed(d, OneOfTexts(choices))
    ensures Closed(d, Nullable(STRING)) && Closed(d, Nullable(BOOLEAN)) && Closed(d, Array(STRING))
    ensures Closed(d, Ref("location")) && Closed(d, Ref("expression"))
    ensures Closed(d, Array(Ref("json"))) && Closed(d, Array(Ref("decorator"))) && Closed(d, Array(Ref("member")))
    ensures Closed(d, Array(Ref("attribute"))) && Closed(d, Array(Ref("node")))
  {
    SimpleClosed(d);
    NullableClosed(d, STRING);
    NullableClosed(d, BOOLEAN);
    ArrayClosed(d, STRING);
    ArrayClosed(d, Ref("json"));
    ArrayClosed(d, Ref("decorator"));
    ArrayClosed(d, Ref("member"));
    ArrayClosed(d, Ref("attribute"));
    ArrayClosed(d, Ref("node"));
  }

  lemma FlatClosed(d: Defs)
    requires HasNames(d)
    ensures Fit(d, LOCATION, 0) && Fit(d, PARAMETER, 0) && Fit(d, SERVICE, 0)
            && Fit(d, EXPRESSION, 0) && Fit(d, TEXT, 0)
  {
    PartsClosed(d);
    ObjectClosed(d, LOCATION.properties, []);
    ObjectClosed(d, PARAMETER.properties, []);
    ObjectClosed(d, SERVICE.properties, []);
    ObjectClosed(d, EXPRESSION.properties, []);
    ObjectClosed(d, TEXT.properties, []);
  }

  lemma MemberClosed(d: Defs)
    requires HasNames(d)
    ensures Fit(d, MEMBER, 0) && Fit(d, LAYOUT, 0) && Fit(d, DECORATOR, 0) && Fit(d, PROPS, 0) && Fit(d, BRANCH, 0)
  {
    PartsClosed(d);
    ObjectClosed(d, MEMBER.properties, []);
    ObjectClosed(d, LAYOUT.properties, []);
    ObjectClosed(d, DECORATOR.properties, []);
    ObjectClosed(d, PROPS.properties, []);
    ObjectClosed(d, BRANCH.properties, []);
  }

  lemma StateClosed(d: Defs)
    requires HasNames(d)
    ensures Fit(d, STATE, 0) && Fit(d, RESOURCE, 0) && Fit(d, EXPRESSION_NODE, 0)
  {
    PartsClosed(d);
    ObjectClosed(d, STATE.properties, []);
    ObjectClosed(d, RESOURCE.properties, []);
    ObjectClosed(d, EXPRESSION_NODE.properties, []);
  }

  lemma RouteClosed(d: Defs)
    requires HasNames(d)
    ensures Fit(d, ROUTE, 0)
  {
    PartsClosed(d);
    ObjectClosed(d, ROUTE.properties, []);
  }

  lemma MethodClosed(d: Defs)
    requires HasNames(d)
    ensures Closed(d, Array(METHOD))
  {
    PartsClosed(d);
    FlatClosed(d);
    ArrayClosed(d, PARAMETER);
    ObjectClosed(d, METHOD.properties, []);
    ArrayClosed(d, METHOD);
  }

  lemma ClassClosed(d: Defs)
    requires HasNames(d)
    ensures Fit(d, CLASS, 0)
  {
    PartsClosed(d);
    MethodClosed(d);
    assert Closed(d, Array(STATE)) && Closed(d, Array(RESOURCE)) by {
      StateClosed(d);
      ArrayClosed(d, STATE);
      ArrayClosed(d, RESOURCE);
    }
    assert Closed(d, Array(SERVICE)) by { FlatClosed(d); ArrayClosed(d, SERVICE); }
    assert Closed(d, Nullable(PROPS)) by { MemberClosed(d); NullableClosed(d, PROPS); }
    NullableClosed(d, Array(Ref("node")));
    ObjectClosed(d, CLASS.properties, []);
  }

  lemma AttributeClosed(d: Defs)
    requires HasNames(d)
    ensures Fit(d, ATTRIBUTE, 0)
  {
    PartsClosed(d);
    assert Closed(d, Array(AnyOf([STRING, Ref("expression")]))) by {
      ArrayClosed(d, AnyOf([STRING, Ref("expression")]));
    }
    ObjectClosed(d, ATTRIBUTE.properties, ["value", "binding", "parts"]);
  }

  lemma NodeShapesClosed(d: Defs)
    requires HasNames(d)
    ensures Fit(d, ELEMENT, 0) && Fit(d, COMPONENT, 0)
  {
    PartsClosed(d);
    ObjectClosed(d, ELEMENT.properties, []);
    ObjectClosed(d, COMPONENT.properties, []);
  }

  lemma ControlClosed(d: Defs)
    requires HasNames(d)
    ensures Fit(d, CONTROL, 0)
  {
    PartsClosed(d);
    assert Closed(d, Array(BRANCH)) by { MemberClosed(d); ArrayClosed(d, BRANCH); }
    ObjectClosed(d, CONTROL.properties, ["parameters", "key"]);
  }

  lemma JsonClosed(d: Defs)
    requires HasNames(d)
    ensures Fit(d, JSON, 0)
  {
    assert AllClosed(d, JSON.anyOf);
    HeightsAtMost(d, JSON.anyOf, 0);
  }

  lemma NodeClosed(d: Defs)
    requires ShapesFirst(d)
    ensures Fit(d, NODE, 1)
  {
    HeightsAtMost(d, SHAPES, 1);
  }

  lemma {:induction false} HeightsAtMost(d: Defs, options: seq<Schema>, h: nat)
    requires forall i :: 0 <= i < |options| ==> Height(d, options[i]) <= h
    ensures HeightAll(d, options) <= h
  {
    if options != [] {
      HeightsAtMost(d, options[..|options| - 1], h);
    }
  }

  lemma AppModelClosed(d: Defs)
    requires HasNames(d)
    ensures Closed(d, APP_MODEL)
  {
    PartsClosed(d);
    var generator := [Property("name", Const(Text("cossack"))), Property("version", STRING)];
    ObjectClosed(d, generator, []);
    ArrayClosed(d, Ref("route"));
    ArrayClosed(d, Ref("layout"));
    ArrayClosed(d, Ref("class"));
    ObjectClosed(d, APP_MODEL.properties, []);
  }

  function RankOf(name: string): nat {
    if name == "node" then 1 else 0
  }

  /** The definition of that name is closed and fits its rank. */
  ghost predicate Fits(d: Defs, name: string) {
    Fit(d, Definition(name), RankOf(name))
  }

  lemma NamedFits(d: Defs, name: string, s: Schema, rank: nat)
    requires Fit(d, s, rank) && Definition(name) == s && rank <= RankOf(name)
    ensures Fits(d, name)
  {
  }

  lemma DefinitionFits(d: Defs, name: string)
    requires ShapesFirst(d) && name in NAMES
    ensures Fits(d, name)
  {
    assert HasNames(d);
    hide Fits, Fit, Object;
    if name == "json" { JsonClosed(d); NamedFits(d, name, JSON, 0); }
    else if name == "location" { FlatClosed(d); NamedFits(d, name, LOCATION, 0); }
    else if name == "route" { RouteClosed(d); NamedFits(d, name, ROUTE, 0); }
    else if name == "layout" { MemberClosed(d); NamedFits(d, name, LAYOUT, 0); }
    else if name == "decorator" { MemberClosed(d); NamedFits(d, name, DECORATOR, 0); }
    else if name == "member" { MemberClosed(d); NamedFits(d, name, MEMBER, 0); }
    else if name == "class" { ClassClosed(d); NamedFits(d, name, CLASS, 0); }
    else if name == "expression" { FlatClosed(d); NamedFits(d, name, EXPRESSION, 0); }
    else if name == "attribute" { AttributeClosed(d); NamedFits(d, name, ATTRIBUTE, 0); }
    else if name == "node" { NodeClosed(d); NamedFits(d, name, NODE, 1); }
    else if name == "element" { NodeShapesClosed(d); NamedFits(d, name, ELEMENT, 0); }
    else if name == "component" { NodeShapesClosed(d); NamedFits(d, name, COMPONENT, 0); }
    else if name == "control" { ControlClosed(d); NamedFits(d, name, CONTROL, 0); }
    else if name == "text" { FlatClosed(d); NamedFits(d, name, TEXT, 0); }
    else { StateClosed(d); NamedFits(d, name, EXPRESSION_NODE, 0); }
  }

  lemma FitIsWellFounded(d: Defs)
    requires forall name <- d.schemas :: name in d.rank && Fit(d, d.schemas[name], d.rank[name])
    ensures WellFounded(d)
  {
  }

  lemma DefinitionsFit()
    ensures ShapesFirst(DEFS)
    ensures forall name <- DEFS.schemas :: name in DEFS.rank && Fit(DEFS, DEFS.schemas[name], DEFS.rank[name])
  {
    hide Fit, Definition;
    forall name <- DEFS.schemas ensures name in DEFS.rank && Fit(DEFS, DEFS.schemas[name], DEFS.rank[name]) {
      DefinitionFits(DEFS, name);
      assert Fits(DEFS, name);
    }
  }

  /** Validation against the app-model schema terminates and means what the schema means. */
  lemma SchemaIsWellFounded()
    ensures WellFounded(DEFS) && Closed(DEFS, APP_MODEL)
  {
    DefinitionsFit();
    hide Fit, Closed, Definition;
    FitIsWellFounded(DEFS);
    AppModelClosed(DEFS);
  }

  // ---------- A node has one shape ----------

  const KINDS: seq<string> := ["element", "component", "control", "text", "expression"]

  /** An object schema whose required `kind` is a constant. */
  predicate Tagged(s: Schema, kind: string) {
    && s.Rules? && s.value.types == [ObjectType] && s.anyOf == [] && s.oneOf == []
    && s.properties != [] && s.properties[0] == Property("kind", Const(Text(kind)))
    && "kind" in s.required
  }

  lemma {:induction false} FieldsEachAllowed(d: Defs, properties: seq<Property>, additional: Additional,
                                             fields: seq<Field>, i: nat)
    requires WellFounded(d)
    requires forall j :: 0 <= j < |properties| ==> Closed(d, properties[j].schema)
    requires additional.Each? ==> Closed(d, additional.schema)
    requires FieldsAllowed(d, properties, additional, fields) && i < |fields|
    ensures FieldAllowed(d, properties, additional, fields[i])
  {
    if i < |fields| - 1 {
      FieldsEachAllowed(d, properties, additional, fields[..|fields| - 1], i);
    }
  }

  lemma {:induction false} FirstIsField(fields: seq<Field>, name: string) returns (i: nat)
    requires HasField(fields, name)
    ensures i < |fields| && fields[i].name == name && FirstField(fields, name) == Some(fields[i].value)
  {
    var j :| 0 <= j < |fields| && fields[j].name == name;
    if fields[0].name == name {
      i := 0;
    } else {
      assert fields[1..][j - 1] == fields[j];
      i := FirstIsField(fields[1..], name);
      i := i + 1;
    }
  }

  lemma ConstantMeans(d: Defs, v: Json, text: string)
    requires WellFounded(d) && Closed(d, Const(Text(text))) && Satisfies(d, Const(Text(text)), v)
    ensures v == JStr(text)
  {
  }

  lemma TagMeans(d: Defs, s: Schema, v: Json, kind: string)
    requires WellFounded(d) && Closed(d, s) && Tagged(s, kind) && Satisfies(d, s, v)
    ensures v.JObj? && FirstField(v.fields, "kind") == Some(JStr(kind))
  {
    assert RulesHold(d, s, v);
    assert ValueAllowed(s.value, v) && PartsAllowed(d, s, v);
    assert TypeAllowed(s.value.types, ObjectType) && v.JObj?;
    assert HasField(v.fields, "kind");
    var i := FirstIsField(v.fields, "kind");
    FieldsEachAllowed(d, s.properties, s.additional, v.fields, i);
    assert FindProperty(s.properties, "kind") == 0;
    ConstantMeans(d, v.fields[i].value, kind);
  }

  lemma ReferenceTagMeans(d: Defs, s: Schema, v: Json, kind: string)
    requires WellFounded(d) && Closed(d, s) && s.Ref? && Tagged(d.schemas[s.name], kind) && Satisfies(d, s, v)
    ensures v.JObj? && FirstField(v.fields, "kind") == Some(JStr(kind))
  {
    TagMeans(d, d.schemas[s.name], v, kind);
  }

  /** Position i of the node shapes names a definition tagged with kind i. */
  ghost predicate ShapeTagged(i: nat) {
    i < |SHAPES| == |KINDS| && SHAPES[i].Ref? && SHAPES[i].name in NAMES && Tagged(Definition(SHAPES[i].name), KINDS[i])
  }

  /** Listing `kind` first and not as optional tags an object schema. */
  lemma ObjectTagged(properties: seq<Property>, optional: seq<string>, kind: string)
    requires properties != [] && properties[0] == Property("kind", Const(Text(kind))) && "kind" !in optional
    ensures Tagged(Object(properties, optional), kind)
  {
    NamesExactly(properties, optional, "kind");
    assert Named(properties, "kind") by { assert properties[0].name == "kind"; }
    hide Names;
  }

  lemma ShapesClosed()
    ensures WellFounded(DEFS) && AllClosed(DEFS, SHAPES) && Closed(DEFS, Ref("node"))
    ensures |SHAPES| == |KINDS| == 5
    ensures forall i :: 0 <= i < |SHAPES| ==> Closed(DEFS, SHAPES[i])
  {
    SchemaIsWellFounded();
    hide WellFounded;
  }

  lemma LookUp(name: string)
    requires name in NAMES
    ensures name in DEFS.schemas && DEFS.schemas[name] == Definition(name)
  {
    hide Definition;
  }

  lemma EveryShapeTagged(i: nat)
    requires i < 5
    ensures ShapeTagged(i)
  {
    hide Names, Tagged;
    ObjectTagged(ELEMENT.properties, [], "element");
    ObjectTagged(COMPONENT.properties, [], "component");
    ObjectTagged(CONTROL.properties, ["parameters", "key"], "control");
    ObjectTagged(TEXT.properties, [], "text");
    ObjectTagged(EXPRESSION_NODE.properties, [], "expression");
  }

  lemma ShapeMeansKind(v: Json, i: nat)
    requires WellFounded(DEFS) && i < |SHAPES| == |KINDS| == 5
             && Closed(DEFS, SHAPES[i]) && Satisfies(DEFS, SHAPES[i], v)
    ensures v.JObj? && FirstField(v.fields, "kind") == Some(JStr(KINDS[i]))
  {
    hide Definition, Tagged, Satisfies, Closed, WellFounded, FirstField;
    EveryShapeTagged(i);
    LookUp(SHAPES[i].name);
    ReferenceTagMeans(DEFS, SHAPES[i], v, KINDS[i]);
  }

  lemma ShapesExclude(v: Json, i: nat, j: nat)
    requires WellFounded(DEFS) && i < j < |SHAPES| == |KINDS| == 5 && Closed(DEFS, SHAPES[i]) && Closed(DEFS, SHAPES[j])
    ensures !(Satisfies(DEFS, SHAPES[i], v) && Satisfies(DEFS, SHAPES[j], v))
  {
    hide Satisfies, WellFounded, Closed;
    if Satisfies(DEFS, SHAPES[i], v) && Satisfies(DEFS, SHAPES[j], v) {
      ShapeMeansKind(v, i);
      ShapeMeansKind(v, j);
    }
  }

  lemma OneOfMeans(d: Defs, options: seq<Schema>, v: Json)
    requires WellFounded(d) && options != []
    requires Closed(d, Rules(ANY_VALUE, [], options, None, [], Unrestricted, []))
    ensures Satisfies(d, Rules(ANY_VALUE, [], options, None, [], Unrestricted, []), v) <==>
            Satisfied(d, options, v) == 1
  {
    var s := Rules(ANY_VALUE, [], options, None, [], Unrestricted, []);
    assert PartsAllowed(d, s, v) by {
      if v.JObj? { AnythingAllowed(d, v.fields); }
    }
  }

  lemma NodeDefined()
    ensures "node" in DEFS.schemas && DEFS.schemas["node"] == NODE
  {
    LookUp("node");
  }

  lemma ReferenceMeans(d: Defs, name: string, v: Json)
    requires WellFounded(d) && name in d.schemas
    ensures Closed(d, d.schemas[name]) && Closed(d, Ref(name))
            && Satisfies(d, Ref(name), v) == Satisfies(d, d.schemas[name], v)
  {
    hide RulesHold;
  }

  lemma NodeMeans(v: Json)
    requires WellFounded(DEFS)
    ensures Closed(DEFS, Ref("node")) && AllClosed(DEFS, SHAPES)
    ensures Satisfies(DEFS, Ref("node"), v) <==> Satisfied(DEFS, SHAPES, v) == 1
  {
    NodeDefined();
    assert AllClosed(DEFS, SHAPES) by { ShapesClosed(); }
    hide Satisfies, RulesHold, Closed, AllClosed, WellFounded, Definition;
    ReferenceMeans(DEFS, "node", v);
    OneOfMeans(DEFS, SHAPES, v);
  }

  /** The `oneOf` over node shapes never matches twice, whatever the data: the count the validator takes
      is at most one, so `node` accepts exactly what some shape accepts. */
  lemma NodeNeverTwice(v: Json, path: Path)
    ensures WellFounded(DEFS) && AllClosed(DEFS, SHAPES) && Closed(DEFS, Ref("node"))
    ensures Passing(DEFS, SHAPES, v, path) == Satisfied(DEFS, SHAPES, v) <= 1
    ensures Satisfies(DEFS, Ref("node"), v) <==> exists i :: 0 <= i < |SHAPES| && Satisfies(DEFS, SHAPES[i], v)
  {
    ShapesClosed();
    hide WellFounded, Closed, AllClosed, Satisfies, Satisfied, Passing;
    forall i, j | 0 <= i < j < |SHAPES|
      ensures !(Satisfies(DEFS, SHAPES[i], v) && Satisfies(DEFS, SHAPES[j], v))
    {
      ShapesExclude(v, i, j);
    }
    OptionsMean(DEFS, SHAPES, v);
    PassingCounts(DEFS, SHAPES, v, path);
    NodeMeans(v);
  }

  // ---------- A faulty node is reported inside the shape of its kind ----------

  lemma {:induction false} WhereOnly(d: Defs, options: seq<Schema>, test: Schema -> bool, i: nat)
    requires WellFounded(d) && AllClosed(d, options) && i < |options|
    requires forall j :: 0 <= j < |options| ==> (test(Resolve(d, options[j])) <==> j == i)
    ensures Where(d, options, test) == [i]
  {
    var n := |options| - 1;
    if i == n {
      WhereNone(d, options[..n], test);
    } else {
      WhereOnly(d, options[..n], test, i);
    }
  }

  lemma {:induction false} WhereNone(d: Defs, options: seq<Schema>, test: Schema -> bool)
    requires WellFounded(d) && AllClosed(d, options)
    requires forall j :: 0 <= j < |options| ==> !test(Resolve(d, options[j]))
    ensures Where(d, options, test) == []
  {
    if options != [] {
      WhereNone(d, options[..|options| - 1], test);
    }
  }

  /** The only option whose resolution has the data's `kind` is the one reported inside. */
  lemma OnlyKindIsTarget(d: Defs, options: seq<Schema>, v: Json, i: nat)
    requires WellFounded(d) && AllClosed(d, options) && i < |options|
    requires forall j :: 0 <= j < |options| ==> (SameKind(Resolve(d, options[j]), v) <==> j == i)
    ensures Target(d, options, v) == Some(i)
  {
    WhereOnly(d, options, (s: Schema) => s.Rules? && SameKind(s, v), i);
  }

  lemma TaggedSameKind(d: Defs, s: Schema, v: Json, kind: string)
    requires WellFounded(d) && Closed(d, s) && s.Ref? && Tagged(d.schemas[s.name], kind)
    ensures SameKind(Resolve(d, s), v) <==> v.JObj? && FirstField(v.fields, "kind") == Some(JStr(kind))
  {
    var r := d.schemas[s.name];
    assert Resolve(d, s) == r;
    assert FindProperty(r.properties, "kind") == 0;
  }

  lemma ShapeSameKind(v: Json, i: nat)
    requires WellFounded(DEFS) && i < |SHAPES| == |KINDS| == 5 && Closed(DEFS, SHAPES[i])
    ensures SameKind(Resolve(DEFS, SHAPES[i]), v) <==> v.JObj? && FirstField(v.fields, "kind") == Some(JStr(KINDS[i]))
  {
    hide Definition, Tagged, Closed, WellFounded, FirstField;
    EveryShapeTagged(i);
    LookUp(SHAPES[i].name);
    TaggedSameKind(DEFS, SHAPES[i], v, KINDS[i]);
  }

  lemma KindsDistinct(i: nat, j: nat)
    requires i < |KINDS| && j < |KINDS|
    ensures KINDS[i] == KINDS[j] <==> i == j
  {
    assert |KINDS[0]| == 7 && |KINDS[1]| == 9 && KINDS[2][0] == 'c' && |KINDS[3]| == 4 && KINDS[4][0] == 'e';
  }

  lemma ShapeIsTarget(v: Json, i: nat)
    requires WellFounded(DEFS) && AllClosed(DEFS, SHAPES) && i < |SHAPES| == |KINDS| == 5
    requires v.JObj? && FirstField(v.fields, "kind") == Some(JStr(KINDS[i]))
    ensures Target(DEFS, SHAPES, v) == Some(i)
  {
    hide SameKind, Resolve, Closed, WellFounded, FirstField, Definition, Target;
    forall j | 0 <= j < |SHAPES| ensures SameKind(Resolve(DEFS, SHAPES[j]), v) <==> j == i {
      ShapeSameKind(v, j);
      KindsDistinct(i, j);
    }
    OnlyKindIsTarget(DEFS, SHAPES, v, i);
  }

  /** `oneOf` without a match reports what the targeted option reports. */
  lemma ReportsTarget(d: Defs, options: seq<Schema>, v: Json, path: Path, i: nat)
    requires WellFounded(d) && i < |options|
    requires Closed(d, Rules(ANY_VALUE, [], options, None, [], Unrestricted, []))
    requires Satisfied(d, options, v) == 0 && Target(d, options, v) == Some(i)
    ensures Check(d, Rules(ANY_VALUE, [], options, None, [], Unrestricted, []), v, path)
         == Verdict(false, Check(d, Resolve(d, options[i]), v, path).errors)
  {
    PassingCounts(d, options, v, path);
    var s := Rules(ANY_VALUE, [], options, None, [], Unrestricted, []);
    assert CheckValue(s.value, v, path) == PASS;
    assert Check(d, s, v, path) == CheckOneOf(d, s, v, path) == Closest(d, options, v, path);
  }

  lemma {:induction false} ResolveChecksSame(d: Defs, s: Schema, v: Json, path: Path)
    requires WellFounded(d) && Closed(d, s)
    ensures Check(d, Resolve(d, s), v, path) == Check(d, s, v, path)
    decreases Height(d, s)
  {
    if s.Ref? {
      ResolveChecksSame(d, d.schemas[s.name], v, path);
    }
  }

  lemma OtherShapesFail(v: Json, i: nat)
    requires WellFounded(DEFS) && AllClosed(DEFS, SHAPES) && i < |SHAPES| == |KINDS| == 5
    requires v.JObj? && FirstField(v.fields, "kind") == Some(JStr(KINDS[i])) && !Satisfies(DEFS, SHAPES[i], v)
    ensures Satisfied(DEFS, SHAPES, v) == 0
  {
    hide Closed, WellFounded, Satisfies, Satisfied, Definition, FirstField;
    forall j | 0 <= j < |SHAPES| ensures !Satisfies(DEFS, SHAPES[j], v) {
      if Satisfies(DEFS, SHAPES[j], v) {
        ShapeMeansKind(v, j);
        KindsDistinct(i, j);
      }
    }
    OptionsMean(DEFS, SHAPES, v);
  }

  lemma NodeChecked(v: Json, path: Path)
    requires WellFounded(DEFS) && Closed(DEFS, Ref("node"))
    ensures Closed(DEFS, NODE) && Check(DEFS, Ref("node"), v, path) == Check(DEFS, NODE, v, path)
  {
    LookUp("node");
    hide CheckRules, Definition;
  }

  /** A value of a node kind is judged as that shape alone: same verdict, same errors, whatever the
      other shapes would say about it. */
  lemma NodeCheckedAsItsKind(v: Json, i: nat, path: Path)
    requires i < |KINDS| && v.JObj? && FirstField(v.fields, "kind") == Some(JStr(KINDS[i]))
    ensures WellFounded(DEFS) && Closed(DEFS, Ref("node")) && i < |SHAPES| && Closed(DEFS, SHAPES[i])
    ensures Check(DEFS, Ref("node"), v, path) == Check(DEFS, SHAPES[i], v, path)
  {
    ShapesClosed();
    hide Closed, WellFounded, Satisfies, Satisfied, Definition, FirstField, Check, Target, Resolve, Height;
    CheckDecides(DEFS, SHAPES[i], v, path);
    if Satisfies(DEFS, SHAPES[i], v) {
      NodeNeverTwice(v, path);
      CheckDecides(DEFS, Ref("node"), v, path);
    } else {
      OtherShapesFail(v, i);
      ShapeIsTarget(v, i);
      NodeChecked(v, path);
      ReportsTarget(DEFS, SHAPES, v, path, i);
      ResolveChecksSame(DEFS, SHAPES[i], v, path);
    }
  }
}
