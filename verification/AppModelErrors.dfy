/** Where the validator's errors point. */
module AppModelErrors {
  import opened AppModel

  /** The steps lead from the value to a part of it; for a missing key, to the object that lacks it. */
  ghost predicate Leads(v: Json, steps: Path, reason: Reason)
    decreases steps
  {
    if steps == [] then !reason.IsRequired?
    else
      match steps[0]
      case Key(k) =>
        v.JObj? &&
        ((reason.IsRequired? && |steps| == 1 && !HasField(v.fields, k)) ||
         exists i :: 0 <= i < |v.fields| && v.fields[i].name == k && Leads(v.fields[i].value, steps[1..], reason))
      case Index(i) => v.JArr? && i < |v.items| && Leads(v.items[i], steps[1..], reason)
  }

  /** An error found at `path`, where `v` is. */
  ghost predicate Points(v: Json, path: Path, e: Error) {
    |path| <= |e.path| && e.path[..|path|] == path && Leads(v, e.path[|path|..], e.reason)
  }

  ghost predicate AllPoint(v: Json, path: Path, errors: seq<Error>) {
    forall i :: 0 <= i < |errors| ==> Points(v, path, errors[i])
  }

  lemma BothPoint(v: Json, path: Path, a: seq<Error>, b: seq<Error>)
    requires AllPoint(v, path, a) && AllPoint(v, path, b)
    ensures AllPoint(v, path, a + b)
  {
  }

  lemma FailPoints(v: Json, path: Path, reason: Reason)
    requires !reason.IsRequired?
    ensures AllPoint(v, path, Fail(path, reason).errors)
  {
    assert path[..|path|] == path && path[|path|..] == [];
  }

  lemma DeeperSteps(path: Path, step: Segment, e: Error)
    requires |path| < |e.path| && e.path[..|path| + 1] == path + [step]
    ensures e.path[..|path|] == path && e.path[|path|] == step && e.path[|path|..][1..] == e.path[|path| + 1..]
  {
    assert e.path[..|path|] == e.path[..|path| + 1][..|path|];
    assert e.path[|path|] == e.path[..|path| + 1][|path|];
  }

  lemma ItemPoints(v: Json, i: nat, path: Path, errors: seq<Error>)
    requires v.JArr? && i < |v.items| && AllPoint(v.items[i], path + [Index(i)], errors)
    ensures AllPoint(v, path, errors)
  {
    forall j | 0 <= j < |errors| ensures Points(v, path, errors[j]) {
      assert Points(v.items[i], path + [Index(i)], errors[j]);
      DeeperSteps(path, Index(i), errors[j]);
    }
  }

  lemma FieldPoints(v: Json, i: nat, path: Path, errors: seq<Error>)
    requires v.JObj? && i < |v.fields| && AllPoint(v.fields[i].value, path + [Key(v.fields[i].name)], errors)
    ensures AllPoint(v, path, errors)
  {
    forall j | 0 <= j < |errors| ensures Points(v, path, errors[j]) {
      assert Points(v.fields[i].value, path + [Key(v.fields[i].name)], errors[j]);
      DeeperSteps(path, Key(v.fields[i].name), errors[j]);
    }
  }

  /** Every error's path is a pointer into the document: it starts with where the check stood and leads to
      the value complained about, or, for a missing key, to the object that lacks it. */
  lemma {:induction false} ErrorsPoint(d: Defs, s: Schema, v: Json, path: Path)
    requires WellFounded(d) && Closed(d, s)
    ensures AllPoint(v, path, Check(d, s, v, path).errors)
    decreases v, Height(d, s), s, 2
  {
    if s.Ref? {
      ErrorsPoint(d, d.schemas[s.name], v, path);
    } else {
      RulesPoint(d, s, v, path);
    }
  }

  lemma ValuePoints(r: ValueRules, v: Json, path: Path)
    ensures AllPoint(v, path, CheckValue(r, v, path).errors)
  {
    var verdict := CheckValue(r, v, path);
    if verdict.errors != [] {
      FailPoints(v, path, verdict.errors[0].reason);
    }
  }

  lemma {:induction false} RulesPoint(d: Defs, s: Schema, v: Json, path: Path)
    requires WellFounded(d) && Closed(d, s) && s.Rules?
    ensures AllPoint(v, path, CheckRules(d, s, v, path).errors)
    decreases v, Height(d, s), s, 1
  {
    hide AllPoint;
    ClosestPoints(d, s.anyOf, v, path);
    ClosestPoints(d, s.oneOf, v, path);
    PartsPoint(d, s, v, path);
    hide Closest, CheckParts;
    ValuePoints(s.value, v, path);
    FailPoints(v, path, Ambiguous);
    KeywordsPoint(d, s, v, path);
  }

  /** The rules report what the first failing keyword reports. */
  lemma KeywordsPoint(d: Defs, s: Schema, v: Json, path: Path)
    requires WellFounded(d) && Closed(d, s) && s.Rules?
    requires AllPoint(v, path, CheckValue(s.value, v, path).errors) && AllPoint(v, path, Fail(path, Ambiguous).errors)
    requires AllPoint(v, path, Closest(d, s.anyOf, v, path).errors)
             && AllPoint(v, path, Closest(d, s.oneOf, v, path).errors)
    requires AllPoint(v, path, CheckParts(d, s, v, path).errors)
    ensures AllPoint(v, path, CheckRules(d, s, v, path).errors)
  {
    hide AllPoint, Closest, CheckParts, CheckValue, Passing, WellFounded, Closed;
  }

  lemma {:induction false} ClosestPoints(d: Defs, options: seq<Schema>, v: Json, path: Path)
    requires WellFounded(d) && AllClosed(d, options)
    ensures AllPoint(v, path, Closest(d, options, v, path).errors)
    decreases v, HeightAll(d, options), options
  {
    hide AllPoint;
    var target := Target(d, options, v);
    if target.Some? {
      ErrorsPoint(d, Resolve(d, options[target.value]), v, path);
    } else {
      FailPoints(v, path, NoShape);
    }
  }

  lemma {:induction false} PartsPoint(d: Defs, s: Schema, v: Json, path: Path)
    requires WellFounded(d) && Closed(d, s) && s.Rules?
    ensures AllPoint(v, path, CheckParts(d, s, v, path).errors)
    decreases v, Height(d, s), s, 0
  {
    if v.JArr? && s.items.Some? {
      ItemsPoint(d, s.items.value, v, |v.items|, path);
      assert v.items[..|v.items|] == v.items;
    } else if v.JObj? {
      RequiredPoint(v, s.required, path);
      FieldsPoint(d, s.properties, s.additional, v, |v.fields|, path);
      assert v.fields[..|v.fields|] == v.fields;
      BothPoint(v, path, CheckRequired(v.fields, s.required, path).errors,
                CheckFields(d, s.properties, s.additional, v.fields, path).errors);
    }
  }

  lemma {:induction false} ItemsPoint(d: Defs, s: Schema, v: Json, n: nat, path: Path)
    requires WellFounded(d) && Closed(d, s) && v.JArr? && n <= |v.items|
    ensures AllPoint(v, path, CheckItems(d, s, v.items[..n], path).errors)
    decreases v.items, n
  {
    if n > 0 {
      var i := n - 1;
      assert v.items[..n][..i] == v.items[..i] && v.items[..n][i] == v.items[i];
      ItemsPoint(d, s, v, i, path);
      ErrorsPoint(d, s, v.items[i], path + [Index(i)]);
      ItemPoints(v, i, path, Check(d, s, v.items[i], path + [Index(i)]).errors);
      BothPoint(v, path, CheckItems(d, s, v.items[..i], path).errors,
                Check(d, s, v.items[i], path + [Index(i)]).errors);
    }
  }

  lemma {:induction false} RequiredPoint(v: Json, required: seq<string>, path: Path)
    requires v.JObj?
    ensures AllPoint(v, path, CheckRequired(v.fields, required, path).errors)
  {
    if required != [] {
      var n := |required| - 1;
      var k := required[n];
      RequiredPoint(v, required[..n], path);
      var own := if HasField(v.fields, k) then PASS else Fail(path + [Key(k)], IsRequired);
      assert AllPoint(v, path, own.errors) by {
        assert (path + [Key(k)])[|path|..] == [Key(k)];
      }
      BothPoint(v, path, CheckRequired(v.fields, required[..n], path).errors, own.errors);
    }
  }

  lemma {:induction false} FieldsPoint(d: Defs, properties: seq<Property>, additional: Additional, v: Json, n: nat,
                                       path: Path)
    requires WellFounded(d) && v.JObj? && n <= |v.fields|
    requires forall i :: 0 <= i < |properties| ==> Closed(d, properties[i].schema)
    requires additional.Each? ==> Closed(d, additional.schema)
    ensures AllPoint(v, path, CheckFields(d, properties, additional, v.fields[..n], path).errors)
    decreases v.fields, n
  {
    if n > 0 {
      var i := n - 1;
      assert v.fields[..n][..i] == v.fields[..i] && v.fields[..n][i] == v.fields[i];
      FieldsPoint(d, properties, additional, v, i, path);
      FieldPoint(d, properties, additional, v.fields[i], path);
      FieldPoints(v, i, path, CheckField(d, properties, additional, v.fields[i], path).errors);
      BothPoint(v, path, CheckFields(d, properties, additional, v.fields[..i], path).errors,
                CheckField(d, properties, additional, v.fields[i], path).errors);
    }
  }

  lemma {:induction false} FieldPoint(d: Defs, properties: seq<Property>, additional: Additional, field: Field,
                                      path: Path)
    requires WellFounded(d) && FieldsClosed(d, properties, additional)
    ensures AllPoint(field.value, path + [Key(field.name)], CheckField(d, properties, additional, field, path).errors)
    decreases field
  {
    var i, at := FindProperty(properties, field.name), path + [Key(field.name)];
    if i < |properties| {
      ErrorsPoint(d, properties[i].schema, field.value, at);
    } else if additional.Each? {
      ErrorsPoint(d, additional.schema, field.value, at);
    } else {
      FailPoints(field.value, at, NotAllowed);
    }
  }
}
