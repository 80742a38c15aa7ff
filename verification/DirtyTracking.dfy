/** Snapshots of column values, their comparison, and what a column stores. */
module DirtyTracking {
  import opened Wrappers
  import Decimal

  // ---------- Values ----------

  /** A JavaScript number, as far as Object.is and JSON.stringify tell numbers apart. */
  datatype Number = Finite(value: real) | NegativeZero | NotANumber | Infinite(negative: bool)

  /** A value an entity property can hold. `Date(None)` is an invalid date, `Bytes` a Uint8Array,
      `Buffer` an ArrayBuffer. Object fields are in own-key order. */
  datatype Value =
    | Undefined
    | Null
    | Bool(flag: bool)
    | Num(number: Number)
    | Big(integer: int)
    | Str(text: string)
    | Date(time: Option<int>)
    | Bytes(bytes: seq<bv8>)
    | Buffer(bytes: seq<bv8>)
    | Arr(items: seq<Value>)
    | Obj(fields: seq<Field>)

  datatype Field = Field(name: string, value: Value)

  /** JavaScript `typeof value === "object"`, null apart. */
  predicate IsObject(v: Value) {
    v.Date? || v.Bytes? || v.Buffer? || v.Arr? || v.Obj?
  }

  // ---------- cloneValue ----------

  function Clone(v: Value): Value {
    match v
    case Buffer(_) => Obj([])  // an ArrayBuffer has no own enumerable keys
    case Arr(items) => Arr(seq(|items|, i requires 0 <= i < |items| => Clone(items[i])))
    case Obj(fields) => Obj(seq(|fields|,
                                i requires 0 <= i < |fields| => Field(fields[i].name, Clone(fields[i].value))))
    case _ => v
  }

  // ---------- JSON.stringify, up to the text of its tokens ----------

  datatype Json =
    | JNull
    | JBool(flag: bool)
    | JNum(value: real)
    | JStr(text: string)
    | JArr(items: seq<Json>)
    | JObj(fields: seq<(string, Json)>)

  /** toISOString of a finite time. */
  type Iso = int -> string

  /** False when JSON.stringify throws: a bigint anywhere inside. */
  predicate Serializable(v: Value) {
    match v
    case Big(_) => false
    case Arr(items) => forall i :: 0 <= i < |items| ==> Serializable(items[i])
    case Obj(fields) => forall i :: 0 <= i < |fields| ==> Serializable(fields[i].value)
    case _ => true
  }

  /** The JSON of a value; None for `undefined`, which objects omit and arrays write as null. */
  function ToJson(v: Value, iso: Iso): Option<Json>
    requires Serializable(v)
    decreases v, 0
  {
    match v
    case Undefined => None
    case Null => Some(JNull)
    case Bool(b) => Some(JBool(b))
    case Num(n) => Some(if n.Finite? then JNum(n.value) else if n.NegativeZero? then JNum(0.0) else JNull)
    case Str(s) => Some(JStr(s))
    case Date(t) => Some(if t.Some? then JStr(iso(t.value)) else JNull)
    case Bytes(b) => Some(JObj(seq(|b|, i requires 0 <= i < |b| => (Decimal.ToText(i), JNum(b[i] as int as real)))))
    case Buffer(_) => Some(JObj([]))
    case Arr(items) => Some(JArr(ItemsJson(items, iso)))
    case Obj(fields) => Some(JObj(FieldsJson(fields, iso)))
  }

  function ItemsJson(items: seq<Value>, iso: Iso): seq<Json>
    requires forall i :: 0 <= i < |items| ==> Serializable(items[i])
    decreases items
  {
    if items == [] then []
    else
      var head := ToJson(items[0], iso);
      [if head.Some? then head.value else JNull] + ItemsJson(items[1..], iso)
  }

  function FieldsJson(fields: seq<Field>, iso: Iso): seq<(string, Json)>
    requires forall i :: 0 <= i < |fields| ==> Serializable(fields[i].value)
    decreases fields
  {
    if fields == [] then []
    else
      var head := ToJson(fields[0].value, iso);
      (if head.Some? then [(fields[0].name, head.value)] else []) + FieldsJson(fields[1..], iso)
  }

  /** What JSON.stringify makes of everything that is not an array or a plain object. */
  lemma LeavesJson(iso: Iso, time: int, n: Number, b: seq<bv8>)
    ensures ToJson(Undefined, iso) == None && ToJson(Null, iso) == Some(JNull)
    ensures ToJson(Date(Some(time)), iso) == Some(JStr(iso(time))) && ToJson(Date(None), iso) == Some(JNull)
    ensures ToJson(Num(n), iso) ==
            Some(match n case Finite(x) => JNum(x) case NegativeZero => JNum(0.0) case _ => JNull)
    ensures ToJson(Buffer(b), iso) == Some(JObj([]))
    ensures ToJson(Bytes(b), iso).Some? && ToJson(Bytes(b), iso).value.JObj?
    ensures var fields := ToJson(Bytes(b), iso).value.fields;
            |fields| == |b| && forall i :: 0 <= i < |b| ==> fields[i] == (Decimal.ToText(i), JNum(b[i] as int as real))
  {
  }

  /** An array keeps its length, undefined items become null. */
  lemma {:induction false} ItemsJsonAt(items: seq<Value>, iso: Iso, k: nat)
    requires (forall i :: 0 <= i < |items| ==> Serializable(items[i])) && k < |items|
    ensures |ItemsJson(items, iso)| == |items|
    ensures var json := ToJson(items[k], iso); ItemsJson(items, iso)[k] == if json.Some? then json.value else JNull
    decreases |items|
  {
    hide ToJson, Serializable;
    if |items| > 1 {
      ItemsJsonAt(items[1..], iso, if k > 0 then k - 1 else 0);
    }
  }

  lemma FieldsUnfold(field: Field, rest: seq<Field>, iso: Iso)
    requires Serializable(field.value) && forall i :: 0 <= i < |rest| ==> Serializable(rest[i].value)
    ensures FieldsJson([field] + rest, iso)
            == (var json := ToJson(field.value, iso); if json.Some? then [(field.name, json.value)] else [])
               + FieldsJson(rest, iso)
    ensures FieldsJson([], iso) == []
  {
    hide ToJson, Serializable;
    assert ([field] + rest)[1..] == rest;
  }

  /** An object keeps the order of its fields and leaves out those that are undefined. */
  lemma {:induction false} FieldsJsonJoin(first: seq<Field>, second: seq<Field>, iso: Iso)
    requires forall i :: 0 <= i < |first| ==> Serializable(first[i].value)
    requires forall i :: 0 <= i < |second| ==> Serializable(second[i].value)
    ensures FieldsJson(first + second, iso) == FieldsJson(first, iso) + FieldsJson(second, iso)
    decreases |first|
  {
    hide *;
    if first == [] {
      assert first + second == second;
      NullSerializes();
      FieldsUnfold(Field("", Null), [], iso);
    } else {
      var rest := first[1..];
      FieldsJsonJoin(rest, second, iso);
      FieldsUnfold(first[0], rest + second, iso);
      FieldsUnfold(first[0], rest, iso);
      assert first == [first[0]] + rest && first + second == [first[0]] + (rest + second);
    }
  }

  lemma NullSerializes()
    ensures Serializable(Null)
  {
  }

  // ---------- equalValue ----------

  datatype Verdict = Same | Different | Throws

  function EqualValue(left: Value, right: Value, iso: Iso): Verdict {
    if left.Date? && right.Date? then
      // getTime of an invalid date is NaN, which equals nothing
      (if left.time.Some? && left.time == right.time then Same else Different)
    else if left.Bytes? && right.Bytes? then
      (if left.bytes == right.bytes then Same else Different)
    else if IsObject(left) && IsObject(right) then
      if !Serializable(left) || !Serializable(right) then Throws
      else if ToJson(left, iso) == ToJson(right, iso) then Same else Different
    else
      // Object.is
      (if left == right then Same else Different)
  }

  // ---------- The snapshot is equal to what it copies ----------

  lemma {:induction false} CloneSerializable(v: Value)
    ensures Serializable(Clone(v)) <==> Serializable(v)
  {
    match v
    case Arr(items) =>
      forall i | 0 <= i < |items| ensures Serializable(Clone(v).items[i]) <==> Serializable(items[i]) {
        CloneSerializable(items[i]);
      }
    case Obj(fields) =>
      forall i | 0 <= i < |fields| ensures Serializable(Clone(v).fields[i].value) <==> Serializable(fields[i].value) {
        CloneSerializable(fields[i].value);
      }
    case _ =>
  }

  lemma {:induction false} CloneJson(v: Value, iso: Iso)
    requires Serializable(v)
    ensures Serializable(Clone(v)) && ToJson(Clone(v), iso) == ToJson(v, iso)
    decreases v, 0
  {
    CloneSerializable(v);
    match v
    case Arr(items) => CloneItems(items, Clone(v).items, iso);
    case Obj(fields) => CloneFields(fields, Clone(v).fields, iso);
    case _ =>
  }

  lemma {:induction false} CloneItems(items: seq<Value>, copies: seq<Value>, iso: Iso)
    requires |items| == |copies|
    requires forall i :: 0 <= i < |items| ==>
             Serializable(items[i]) && Serializable(copies[i]) && copies[i] == Clone(items[i])
    ensures ItemsJson(copies, iso) == ItemsJson(items, iso)
    decreases items
  {
    if items != [] {
      CloneJson(items[0], iso);
      CloneItems(items[1..], copies[1..], iso);
    }
  }

  lemma {:induction false} CloneFields(fields: seq<Field>, copies: seq<Field>, iso: Iso)
    requires |fields| == |copies|
    requires forall i :: 0 <= i < |fields| ==>
             Serializable(fields[i].value) && Serializable(copies[i].value)
               && copies[i] == Field(fields[i].name, Clone(fields[i].value))
    ensures FieldsJson(copies, iso) == FieldsJson(fields, iso)
    decreases fields
  {
    if fields != [] {
      CloneJson(fields[0].value, iso);
      CloneFields(fields[1..], copies[1..], iso);
    }
  }

  /** Exactly when an untouched property compares equal to its own snapshot. */
  lemma CloneIsEqual(v: Value, iso: Iso)
    ensures EqualValue(v, Clone(v), iso) == Same
            <==> !(v.Date? && v.time.None?) && (IsObject(v) ==> Serializable(v))
  {
    CloneSerializable(v);
    if Serializable(v) {
      CloneJson(v, iso);
    }
  }

  predicate Primitive(v: Value) {
    v.Undefined? || v.Null? || v.Bool? || v.Num? || v.Big? || v.Str?
  }

  /** Two dates are compared by time, two byte arrays by their bytes, other pairs of objects by their JSON, which
      throws exactly if one holds a bigint; everything else is the same only as itself. */
  lemma EqualExactly(left: Value, right: Value, iso: Iso)
    ensures var byJson := !Primitive(left) && !Primitive(right)
                          && !(left.Date? && right.Date?) && !(left.Bytes? && right.Bytes?);
            var verdict := EqualValue(left, right, iso);
            && (verdict == Throws <==> byJson && !(Serializable(left) && Serializable(right)))
            && (verdict == Same <==>
                if byJson then Serializable(left) && Serializable(right) && ToJson(left, iso) == ToJson(right, iso)
                else left == right && !(left.Date? && left.time.None?))
  {
    hide ToJson, Serializable;
  }

  /** An ArrayBuffer at any depth. */
  predicate HoldsBuffer(v: Value) {
    match v
    case Buffer(_) => true
    case Arr(items) => exists i :: 0 <= i < |items| && HoldsBuffer(items[i])
    case Obj(fields) => exists i :: 0 <= i < |fields| && HoldsBuffer(fields[i].value)
    case _ => false
  }

  /** A snapshot is a faithful copy exactly of a value without ArrayBuffers; each of those is copied as `{}`. */
  lemma {:induction false} CloneExactly(v: Value)
    ensures Clone(v) == v <==> !HoldsBuffer(v)
    ensures v.Buffer? ==> Clone(v) == Obj([])
  {
    match v
    case Arr(items) =>
      forall i | 0 <= i < |items| ensures Clone(v).items[i] == items[i] <==> !HoldsBuffer(items[i]) {
        CloneExactly(items[i]);
      }
    case Obj(fields) =>
      forall i | 0 <= i < |fields| ensures Clone(v).fields[i] == fields[i] <==> !HoldsBuffer(fields[i].value) {
        CloneExactly(fields[i].value);
        assert Clone(v).fields[i] == Field(fields[i].name, Clone(fields[i].value));
      }
    case _ =>
  }

  // ---------- encodeValue ----------

  datatype LogicalType =
    | Boolean | DateTime | DateOnly | JsonType | BigInt | Decimals | Blob | Enum(allowed: seq<string>) | Other
  datatype Dialect = Sqlite | MySql | Postgres

  /** Text conversions of the JavaScript runtime. */
  datatype Runtime = Runtime(iso: Iso, text: Value -> string)

  /** What reaches the driver: a value, or text named by what it is the text of. */
  datatype Stored = Plain(value: Value) | JsonText(json: Json) | NumberText(number: Number) | BigText(integer: int)

  function Truthy(v: Value): bool {
    match v
    case Undefined | Null => false
    case Bool(b) => b
    case Num(n) => !(n.NegativeZero? || n.NotANumber? || n == Finite(0.0))
    case Big(i) => i != 0
    case Str(s) => s != ""
    case _ => true
  }

  /** What JavaScript takes for false. */
  lemma TruthyExactly(v: Value)
    ensures !Truthy(v) <==>
            || v == Undefined || v == Null || v == Bool(false) || v == Big(0) || v == Str("")
            || v == Num(Finite(0.0)) || v == Num(NegativeZero) || v == Num(NotANumber)
  {
  }

  function Slice(s: string, from: nat, to: nat): string {
    var end := if to < |s| then to else |s|;
    if from <= end then s[from..end] else ""
  }

  /** The stored form of a property value; None when encoding throws. */
  function Encode(kind: LogicalType, v: Value, dialect: Dialect, rt: Runtime): Option<Stored> {
    if v.Undefined? || v.Null? then Some(Plain(Null))
    else
      match kind
      case Boolean =>
        Some(Plain(if dialect.Sqlite? then Num(Finite(if Truthy(v) then 1.0 else 0.0)) else Bool(Truthy(v))))
      case DateTime =>
        if !v.Date? then Some(Plain(v))
        else if v.time.None? then None
        else
          var iso := rt.iso(v.time.value);
          Some(Plain(Str(if dialect.Postgres? then iso else Slice(iso, 0, 10) + " " + Slice(iso, 11, 23))))
      case DateOnly =>
        if !v.Date? then Some(Plain(v))
        else if v.time.None? then None
        else Some(Plain(Str(Slice(rt.iso(v.time.value), 0, 10))))
      case JsonType =>
        if v.Str? then Some(Plain(v))
        else if !Serializable(v) then None
        else Some(JsonText(ToJson(v, rt.iso).value))
      case BigInt => Some(if v.Big? && !dialect.Postgres? then BigText(v.integer) else Plain(v))
      case Decimals => Some(if v.Num? then NumberText(v.number) else Plain(v))
      case Blob => Some(Plain(if v.Buffer? then Bytes(v.bytes) else v))
      case Enum(allowed) => if rt.text(v) in allowed then Some(Plain(Str(rt.text(v)))) else None
      case Other => Some(Plain(v))
  }

  /** Encoding throws exactly for an invalid date in a date column, a value JSON.stringify throws for in a JSON
      column, and a text that is not allowed in an enum column. */
  lemma EncodeFailsExactly(kind: LogicalType, v: Value, dialect: Dialect, rt: Runtime)
    ensures Encode(kind, v, dialect, rt).None? <==>
            !v.Undefined? && !v.Null?
            && match kind
               case DateTime | DateOnly => v == Date(None)
               case JsonType => !Serializable(v)
               case Enum(allowed) => rt.text(v) !in allowed
               case _ => false
  {
    hide ToJson;
  }

  /** In a column of no special kind, and wherever no conversion applies, a value is stored as it is. */
  lemma StoredAsIs(kind: LogicalType, v: Value, dialect: Dialect, rt: Runtime)
    requires !v.Undefined? && !v.Null?
    ensures Encode(kind, v, dialect, rt) == Some(Plain(v)) <==>
            match kind
            case Boolean => (if dialect.Sqlite? then v == Num(Finite(1.0)) || v == Num(Finite(0.0)) else v.Bool?)
            case DateTime | DateOnly => !v.Date?
            case JsonType => v.Str?
            case BigInt => !v.Big? || dialect.Postgres?
            case Decimals => !v.Num?
            case Blob => !v.Buffer?
            case Enum(allowed) => v.Str? && rt.text(v) == v.text && v.text in allowed
            case Other => true
  {
    hide ToJson;
  }

  // ---------- decodeValue: what is stored reads back ----------

  /** A boolean column: `true`, 1, "1" and "true" are true. */
  predicate DecodedBoolean(stored: Stored) {
    stored.Plain? && (stored.value == Bool(true) || stored.value == Num(Finite(1.0))
                      || stored.value == Str("1") || stored.value == Str("true"))
  }

  /** A boolean reads back as it was, on every dialect; any other value as whether it counts as true. */
  lemma BooleanReadsBack(v: Value, dialect: Dialect, rt: Runtime)
    requires !v.Undefined? && !v.Null?
    ensures var stored := Encode(Boolean, v, dialect, rt);
            && stored.Some? && stored.value != Plain(Null)
            && (DecodedBoolean(stored.value) <==> Truthy(v))
            && (v.Bool? ==> (DecodedBoolean(stored.value) <==> v.flag))
    ensures DecodedBoolean(Plain(Str("true"))) && DecodedBoolean(Plain(Str("1")))
    ensures !DecodedBoolean(Plain(Str("false"))) && !DecodedBoolean(Plain(Str("0")))
  {
    assert "true" != "false" && "1" != "0";
  }

  function DecodedBlob(stored: Stored): Option<Value> {
    if stored.Plain? && stored.value.Buffer? then Some(Bytes(stored.value.bytes))
    else if stored.Plain? then Some(stored.value) else None
  }

  /** Bytes read back as a byte array, in whichever form they were. */
  lemma BlobReadsBack(v: Value, dialect: Dialect, rt: Runtime)
    requires v.Bytes? || v.Buffer?
    ensures var stored := Encode(Blob, v, dialect, rt);
            stored.Some? && DecodedBlob(stored.value) == Some(Bytes(v.bytes))
    ensures DecodedBlob(Plain(v)) == Some(Bytes(v.bytes))
  {
  }

  /** The text a stored timestamp is parsed from: without an offset it is taken as UTC. */
  function ParsedText(text: string): string {
    if |text| == 23 && text[10] == ' ' then text[..10] + "T" + text[11..] + "Z" else text
  }

  /** The shape toISOString gives years of four digits. */
  predicate IsIso(text: string) {
    |text| == 24 && text[10] == 'T' && text[23] == 'Z'
  }

  /** A date reads back through the very ISO text of its time, on every dialect. */
  lemma DateTimeReadsBack(time: int, dialect: Dialect, rt: Runtime)
    requires IsIso(rt.iso(time))
    ensures var stored := Encode(DateTime, Date(Some(time)), dialect, rt);
            stored.Some? && stored.value.Plain? && stored.value.value.Str?
            && ParsedText(stored.value.value.text) == rt.iso(time)
  {
    var iso := rt.iso(time);
    var text := Slice(iso, 0, 10) + " " + Slice(iso, 11, 23);
    assert text[..10] == iso[..10] && text[11..] == iso[11..23] && text[10] == ' ';
    assert iso == iso[..10] + "T" + iso[11..23] + "Z";
  }

  /** null and undefined, and nothing else, are stored as NULL in every column. */
  lemma NullStored(kind: LogicalType, v: Value, dialect: Dialect, rt: Runtime)
    ensures Encode(kind, v, dialect, rt) == Some(Plain(Null)) <==> v.Undefined? || v.Null?
  {
  }

  /** JSON.parse. */
  function Parsed(j: Json): Value {
    match j
    case JNull => Null
    case JBool(b) => Bool(b)
    case JNum(n) => Num(Finite(n))
    case JStr(s) => Str(s)
    case JArr(items) => Arr(seq(|items|, i requires 0 <= i < |items| => Parsed(items[i])))
    case JObj(fields) => Obj(seq(|fields|, i requires 0 <= i < |fields| => Field(fields[i].0, Parsed(fields[i].1))))
  }

  /** Values JSON has a form for. */
  predicate JsonLike(v: Value) {
    match v
    case Null => true
    case Bool(_) => true
    case Num(n) => n.Finite?
    case Str(_) => true
    case Arr(items) => forall i :: 0 <= i < |items| ==> JsonLike(items[i])
    case Obj(fields) => forall i :: 0 <= i < |fields| ==> JsonLike(fields[i].value)
    case _ => false
  }

  lemma {:induction false} JsonLikeSerializes(v: Value)
    requires JsonLike(v)
    ensures Serializable(v)
  {
    match v
    case Arr(items) => forall i | 0 <= i < |items| ensures Serializable(items[i]) { JsonLikeSerializes(items[i]); }
    case Obj(fields) =>
      forall i | 0 <= i < |fields| ensures Serializable(fields[i].value) { JsonLikeSerializes(fields[i].value); }
    case _ =>
  }

  /** A value JSON has a form for reads back from its JSON, whole. */
  lemma {:induction false} JsonReadsBack(v: Value, iso: Iso)
    requires JsonLike(v)
    ensures Serializable(v) && ToJson(v, iso).Some? && Parsed(ToJson(v, iso).value) == v
    decreases v, 0
  {
    JsonLikeSerializes(v);
    match v
    case Arr(items) => ItemsReadBack(items, iso);
    case Obj(fields) => FieldsReadBack(fields, iso);
    case _ =>
  }

  lemma {:induction false} ItemsReadBack(items: seq<Value>, iso: Iso)
    requires forall i :: 0 <= i < |items| ==> JsonLike(items[i]) && Serializable(items[i])
    ensures var json := ItemsJson(items, iso);
            |json| == |items| && forall i :: 0 <= i < |items| ==> Parsed(json[i]) == items[i]
    decreases items
  {
    if items != [] {
      JsonReadsBack(items[0], iso);
      ItemsReadBack(items[1..], iso);
      var rest := ItemsJson(items[1..], iso);
      assert ItemsJson(items, iso) == [ToJson(items[0], iso).value] + rest;
      assert forall i :: 1 <= i < |items| ==> items[i] == items[1..][i - 1];
    }
  }

  lemma {:induction false} FieldsReadBack(fields: seq<Field>, iso: Iso)
    requires forall i :: 0 <= i < |fields| ==> JsonLike(fields[i].value) && Serializable(fields[i].value)
    ensures var json := FieldsJson(fields, iso);
            |json| == |fields| && forall i :: 0 <= i < |fields| ==>
              json[i].0 == fields[i].name && Parsed(json[i].1) == fields[i].value
    decreases fields
  {
    if fields != [] {
      JsonReadsBack(fields[0].value, iso);
      FieldsReadBack(fields[1..], iso);
      var rest := FieldsJson(fields[1..], iso);
      assert FieldsJson(fields, iso) == [(fields[0].name, ToJson(fields[0].value, iso).value)] + rest;
      assert forall i :: 1 <= i < |fields| ==> fields[i] == fields[1..][i - 1];
    }
  }

  // ---------- A property that compares equal stores the same ----------

  /** Values that compare equal without being the same are objects with the same JSON. */
  lemma SameUnlessObjects(v: Value, snapshot: Value, iso: Iso)
    requires EqualValue(v, snapshot, iso) == Same && v != snapshot
    ensures IsObject(v) && IsObject(snapshot) && !v.Date? && !snapshot.Date?
  {
  }

  /** When a column left out of the changes would have stored what its snapshot stores: always in JSON and
      boolean columns, and else exactly when the two are the same value, both empty in a binary column, or
      give the same text in an enum column or no allowed one. */
  lemma UnchangedStoresSame(kind: LogicalType, v: Value, snapshot: Value, dialect: Dialect, rt: Runtime)
    requires EqualValue(v, snapshot, rt.iso) == Same
    ensures Encode(kind, v, dialect, rt) == Encode(kind, snapshot, dialect, rt) <==>
            match kind
            case JsonType => true
            case Boolean => true
            case Blob => v == snapshot || (Empty(v) && Empty(snapshot))
            case Enum(allowed) =>
              v == snapshot || rt.text(v) == rt.text(snapshot)
                || (rt.text(v) !in allowed && rt.text(snapshot) !in allowed)
            case _ => v == snapshot
  {
    if v != snapshot {
      SameUnlessObjects(v, snapshot, rt.iso);
      if v.Buffer? && snapshot.Bytes? { EmptyJson(snapshot.bytes, rt.iso); }
      if v.Bytes? && snapshot.Buffer? { EmptyJson(v.bytes, rt.iso); }
    }
  }

  /** No bytes, in either form. */
  predicate Empty(v: Value) {
    v == Bytes([]) || v == Buffer([])
  }

  lemma EmptyJson(bytes: seq<bv8>, iso: Iso)
    ensures ToJson(Bytes(bytes), iso) == Some(JObj([])) <==> bytes == []
  {
    assert |ToJson(Bytes(bytes), iso).value.fields| == |bytes|;
  }

  /** An enum column tells values apart by their text, the comparison by their JSON: an array of NaN becomes
      an array of null unnoticed, although their texts differ. */
  lemma EnumChangeMissed(allowed: seq<string>, dialect: Dialect, rt: Runtime)
    requires rt.text(Arr([Num(NotANumber)])) in allowed && rt.text(Arr([Null])) != rt.text(Arr([Num(NotANumber)]))
    ensures var before, now := Arr([Num(NotANumber)]), Arr([Null]);
            && EqualValue(now, Clone(before), rt.iso) == Same
            && Encode(Enum(allowed), now, dialect, rt) != Encode(Enum(allowed), before, dialect, rt)
  {
    var before, now := Arr([Num(NotANumber)]), Arr([Null]);
    assert Clone(before) == before;
    assert ItemsJson(before.items[1..], rt.iso) == [] && ItemsJson(now.items[1..], rt.iso) == [];
    assert ItemsJson(before.items, rt.iso) == [JNull] + [] && ItemsJson(now.items, rt.iso) == [JNull] + [];
  }

  predicate Blank(v: Value) {
    v.Buffer? || v == Bytes([])
  }

  /** Binary columns holding an ArrayBuffer break this: exactly the changes between values whose JSON is
      `{}` go unnoticed, so assigning a different ArrayBuffer after a save is never written. */
  lemma BinaryChangeMissedExactly(before: Value, now: Value, dialect: Dialect, rt: Runtime)
    requires (before.Bytes? || before.Buffer?) && (now.Bytes? || now.Buffer?)
    requires Encode(Blob, now, dialect, rt) != Encode(Blob, before, dialect, rt)
    ensures EqualValue(now, Clone(before), rt.iso) == Same <==> Blank(before) && Blank(now)
  {
    if now.Bytes? && now.bytes != [] {
      assert ToJson(now, rt.iso).value.fields[0].0 == Decimal.ToText(0);
    }
    if before.Bytes? && before.bytes != [] {
      assert ToJson(Clone(before), rt.iso).value.fields[0].0 == Decimal.ToText(0);
    }
    if now.Bytes? && before.Bytes? {
      assert now.bytes != before.bytes;
    }
  }

  // ---------- Comparisons chain through snapshots ----------

  /** Byte arrays are told apart by their JSON exactly as by content. */
  lemma BytesJson(a: seq<bv8>, b: seq<bv8>, iso: Iso)
    requires ToJson(Bytes(a), iso) == ToJson(Bytes(b), iso)
    ensures a == b
  {
    var x, y := ToJson(Bytes(a), iso).value.fields, ToJson(Bytes(b), iso).value.fields;
    forall i | 0 <= i < |a| ensures a[i] == b[i] {
      assert x[i].1 == JNum(a[i] as int as real) && y[i].1 == JNum(b[i] as int as real);
      assert a[i] as int as real == b[i] as int as real;
    }
  }

  lemma SameThroughSnapshots(now: Value, between: Value, first: Value, iso: Iso)
    requires EqualValue(now, Clone(between), iso) == Same
    requires EqualValue(between, Clone(first), iso) == Same
    ensures EqualValue(now, Clone(first), iso) == Same
  {
    if IsObject(now) {
      CloneSerializable(between);
      CloneSerializable(first);
      CloneJson(between, iso);
      if now.Bytes? && Clone(first).Bytes? {
        BytesJson(now.bytes, first.bytes, iso);
      }
    }
  }
}
