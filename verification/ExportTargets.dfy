/** Flattening a package's nested conditional exports into rows, against the resolution it stands for
    (PACKAGE_TARGET_RESOLVE in the Node.js ESM documentation). */
module ExportTargets {
  import opened Wrappers

  /** An exports value; whether a string is a valid target is an input. `Other` is any other JSON value. */
  datatype Target = Str(text: string, valid: bool) | Null | Arr(entries: seq<Target>) | Obj(fields: seq<Field>) | Other
  datatype Field = Field(key: string, value: Target)

  datatype Condition = Key(name: string) | Fallback(index: nat)
  datatype Row = Row(conditions: seq<Condition>, target: Option<string>)
  datatype Visited = Visited(rows: seq<Row>, terminal: bool, error: bool)

  // ---------- Flattening ----------

  /** With `prune` false nothing is skipped; the program prunes. */
  function Visit(v: Target, conditions: seq<Condition>, prune: bool): Visited
    decreases v
  {
    match v
    case Str(text, valid) => Visited([Row(conditions, Some(text))], true, !valid)
    case Null => Visited([Row(conditions, None)], true, false)
    case Arr(entries) =>
      if entries == [] then Visited([Row(conditions, None)], true, false)
      else VisitEntries(entries, 0, conditions, false, prune)
    case Obj(fields) => VisitFields(fields, 0, conditions, prune)
    case Other => Visited([], false, false)
  }

  function VisitEntries(entries: seq<Target>, i: nat, conditions: seq<Condition>, error: bool, prune: bool): Visited
    requires i <= |entries|
    decreases entries, |entries| - i
  {
    if i == |entries| then Visited([], true, error)
    else
      var next := Visit(entries[i], conditions + [Fallback(i)], prune);
      if prune && next.terminal && !next.error then Visited(next.rows, true, false)
      else
        var rest := VisitEntries(entries, i + 1, conditions, next.error, prune);
        Visited(next.rows + rest.rows, true, rest.error)
  }

  function VisitFields(fields: seq<Field>, i: nat, conditions: seq<Condition>, prune: bool): Visited
    requires i <= |fields|
    decreases fields, |fields| - i
  {
    if i == |fields| then Visited([], false, false)
    else
      var next := Visit(fields[i].value, conditions + [Key(fields[i].key)], prune);
      if prune && fields[i].key == "default" && next.terminal then Visited(next.rows, true, next.error)
      else
        var rest := VisitFields(fields, i + 1, conditions, prune);
        Visited(next.rows + rest.rows, rest.terminal, rest.error)
  }

  method Flatten(v: Target, conditions: seq<Condition>) returns (r: Visited)
    ensures r == Visit(v, conditions, true)
    decreases v
  {
    match v
    case Str(text, valid) => r := Visited([Row(conditions, Some(text))], true, !valid);
    case Null => r := Visited([Row(conditions, None)], true, false);
    case Other => r := Visited([], false, false);
    case Arr(entries) =>
      if |entries| == 0 {
        return Visited([Row(conditions, None)], true, false);
      }
      var rows, error := [], false;
      ghost var whole := VisitEntries(entries, 0, conditions, false, true);
      for i := 0 to |entries|
        invariant var rest := VisitEntries(entries, i, conditions, error, true);
                  whole == Visited(rows + rest.rows, true, rest.error)
      {
        var next := Flatten(entries[i], conditions + [Fallback(i)]);
        Associates(rows, next.rows, VisitEntries(entries, i + 1, conditions, next.error, true).rows);
        rows := rows + next.rows;
        if next.terminal && !next.error {
          return Visited(rows, true, false);
        }
        error := next.error;
      }
      r := Visited(rows, true, error);
    case Obj(fields) =>
      var rows: seq<Row> := [];
      ghost var whole := VisitFields(fields, 0, conditions, true);
      for i := 0 to |fields|
        invariant var rest := VisitFields(fields, i, conditions, true);
                  whole == Visited(rows + rest.rows, rest.terminal, rest.error)
      {
        var next := Flatten(fields[i].value, conditions + [Key(fields[i].key)]);
        Associates(rows, next.rows, VisitFields(fields, i + 1, conditions, true).rows);
        rows := rows + next.rows;
        if fields[i].key == "default" && next.terminal {
          return Visited(rows, true, next.error);
        }
      }
      r := Visited(rows, false, false);
  }

  lemma Associates(a: seq<Row>, b: seq<Row>, c: seq<Row>)
    ensures (a + b) + c == a + (b + c)
  {
  }

  // ---------- Resolution ----------

  datatype Outcome = Undefined | Blocked | Resolved(text: string)

  /** What resolving the target returns under the given conditions; `exhausted` is the reading of a
      fallback array none of whose entries resolves. Neither reading suits every value: see
      `PruningExactly` and `BlockedReadingExactly`. */
  function Resolve(v: Target, enabled: set<string>, exhausted: Outcome): Outcome
    decreases v
  {
    match v
    case Str(text, _) => Resolved(text)
    case Null => Blocked
    case Arr(entries) => if entries == [] then Blocked else ResolveEntries(entries, 0, enabled, exhausted)
    case Obj(fields) => ResolveFields(fields, 0, enabled, exhausted)
    case Other => Undefined
  }

  function ResolveEntries(entries: seq<Target>, i: nat, enabled: set<string>, exhausted: Outcome): Outcome
    requires i <= |entries|
    decreases entries, |entries| - i
  {
    if i == |entries| then exhausted
    else
      var resolved := Resolve(entries[i], enabled, exhausted);
      if resolved.Undefined? then ResolveEntries(entries, i + 1, enabled, exhausted) else resolved
  }

  function ResolveFields(fields: seq<Field>, i: nat, enabled: set<string>, exhausted: Outcome): Outcome
    requires i <= |fields|
    decreases fields, |fields| - i
  {
    if i == |fields| then Undefined
    else
      var resolved := if IsEnabled(Key(fields[i].key), enabled) then Resolve(fields[i].value, enabled, exhausted)
                      else Undefined;
      if resolved.Undefined? then ResolveFields(fields, i + 1, enabled, exhausted) else resolved
  }

  predicate IsEnabled(c: Condition, enabled: set<string>) {
    c.Fallback? || c.name == "default" || c.name in enabled
  }

  predicate AllEnabled(conditions: seq<Condition>, enabled: set<string>) {
    forall c <- conditions :: IsEnabled(c, enabled)
  }

  function OutcomeOf(target: Option<string>): Outcome {
    match target
    case None => Blocked
    case Some(text) => Resolved(text)
  }

  /** What a reader of the rows takes: the first row whose conditions are all enabled. */
  function FirstRow(rows: seq<Row>, enabled: set<string>): Outcome {
    if rows == [] then Undefined
    else if AllEnabled(rows[0].conditions, enabled) then OutcomeOf(rows[0].target)
    else FirstRow(rows[1..], enabled)
  }

  lemma {:induction false} FirstRowOfBoth(a: seq<Row>, b: seq<Row>, enabled: set<string>)
    ensures FirstRow(a + b, enabled)
            == if FirstRow(a, enabled).Undefined? then FirstRow(b, enabled) else FirstRow(a, enabled)
  {
    if a == [] {
      assert a + b == b;
    } else {
      assert (a + b)[1..] == a[1..] + b;
      FirstRowOfBoth(a[1..], b, enabled);
    }
  }

  // ---------- Values with only valid or null targets ----------

  predicate Plain(v: Target) {
    match v
    case Str(_, valid) => valid
    case Null => true
    case Arr(entries) => forall e <- entries :: Plain(e)
    case Obj(fields) => forall f <- fields :: Plain(f.value)
    case Other => false
  }

  /** Resolves to something under every set of conditions. */
  predicate Total(v: Target) {
    match v
    case Str(_, _) => true
    case Null => true
    case Arr(entries) => entries == [] || exists e <- entries :: Total(e)
    case Obj(fields) => exists f <- fields :: f.key == "default" && Total(f.value)
    case Other => false
  }

  /** Claimed final by the flattening, so that what follows may be skipped. */
  predicate Terminal(v: Target) {
    match v
    case Str(_, _) => true
    case Null => true
    case Arr(_) => true
    case Obj(fields) => TerminalFrom(fields, 0)
    case Other => false
  }

  predicate TerminalFrom(fields: seq<Field>, i: nat) {
    exists j :: i <= j < |fields| && fields[j].key == "default" && Terminal(fields[j].value)
  }

  /** The walk over an array stops after this entry: it is called final and did not end in an invalid target. */
  predicate Settles(v: Target)
    decreases v, 1
  {
    Terminal(v) && !Fails(v)
  }

  /** The walk over the value ends in an invalid target: for an array, no entry settles it and the last one
      fails; for an object, the first `default` called final fails. */
  predicate Fails(v: Target)
    decreases v, 0
  {
    match v
    case Str(_, valid) => !valid
    case Null => false
    case Arr(entries) => entries != [] && (forall e <- entries :: !Settles(e)) && Fails(entries[|entries| - 1])
    case Obj(fields) =>
      exists i :: 0 <= i < |fields| && StopsAt(fields[i]) && Fails(fields[i].value)
                  && forall j :: 0 <= j < i ==> !StopsAt(fields[j])
    case Other => false
  }

  /** The walk over an object stops after this field. */
  predicate StopsAt(field: Field) {
    field.key == "default" && Terminal(field.value)
  }

  /** Wherever the flattening skips what follows, the value before it is total. */
  predicate Sound(v: Target) {
    match v
    case Arr(entries) =>
      && (forall e <- entries :: Sound(e))
      && (forall i :: 0 <= i < |entries| - 1 && Terminal(entries[i]) ==> Total(entries[i]))
    case Obj(fields) =>
      && (forall f <- fields :: Sound(f.value))
      && (forall i :: 0 <= i < |fields| - 1 && fields[i].key == "default" && Terminal(fields[i].value) ==>
          Total(fields[i].value))
    case _ => true
  }

  lemma {:induction false} TotalResolves(v: Target, enabled: set<string>)
    requires Total(v)
    ensures !Resolve(v, enabled, Undefined).Undefined?
    decreases v
  {
    match v
    case Arr(entries) =>
      if entries != [] {
        var i :| 0 <= i < |entries| && Total(entries[i]);
        TotalResolves(entries[i], enabled);
        EntriesResolve(entries, 0, i, enabled);
      }
    case Obj(fields) =>
      var i :| 0 <= i < |fields| && fields[i].key == "default" && Total(fields[i].value);
      TotalResolves(fields[i].value, enabled);
      FieldsResolve(fields, 0, i, enabled);
    case _ =>
  }

  lemma {:induction false} EntriesResolve(entries: seq<Target>, k: nat, i: nat, enabled: set<string>)
    requires k <= i < |entries| && !Resolve(entries[i], enabled, Undefined).Undefined?
    ensures !ResolveEntries(entries, k, enabled, Undefined).Undefined?
    decreases i - k
  {
    if k < i {
      EntriesResolve(entries, k + 1, i, enabled);
    }
  }

  lemma {:induction false} FieldsResolve(fields: seq<Field>, k: nat, i: nat, enabled: set<string>)
    requires k <= i < |fields| && IsEnabled(Key(fields[i].key), enabled)
             && !Resolve(fields[i].value, enabled, Undefined).Undefined?
    ensures !ResolveFields(fields, k, enabled, Undefined).Undefined?
    decreases i - k
  {
    if k < i {
      FieldsResolve(fields, k + 1, i, enabled);
    }
  }

  /** With no condition enabled, only a total value resolves. */
  lemma {:induction false} ResolvesIsTotal(v: Target)
    requires !Resolve(v, {}, Undefined).Undefined?
    ensures Total(v)
    decreases v
  {
    match v
    case Arr(entries) => if entries != [] { EntriesTotal(entries, 0); }
    case Obj(fields) => FieldsTotal(fields, 0);
    case _ =>
  }

  lemma {:induction false} EntriesTotal(entries: seq<Target>, i: nat)
    requires i <= |entries| && !ResolveEntries(entries, i, {}, Undefined).Undefined?
    ensures exists e <- entries :: Total(e)
    decreases entries, |entries| - i
  {
    if Resolve(entries[i], {}, Undefined).Undefined? {
      EntriesTotal(entries, i + 1);
    } else {
      ResolvesIsTotal(entries[i]);
    }
  }

  lemma {:induction false} FieldsTotal(fields: seq<Field>, i: nat)
    requires i <= |fields| && !ResolveFields(fields, i, {}, Undefined).Undefined?
    ensures exists f <- fields :: f.key == "default" && Total(f.value)
    decreases fields, |fields| - i
  {
    if IsEnabled(Key(fields[i].key), {}) && !Resolve(fields[i].value, {}, Undefined).Undefined? {
      ResolvesIsTotal(fields[i].value);
      assert fields[i] in fields && fields[i].key == "default";
    } else {
      FieldsTotal(fields, i + 1);
    }
  }

  /** Resolves to something, whichever conditions are enabled. */
  ghost predicate AlwaysResolves(v: Target) {
    forall enabled: set<string> :: !Resolve(v, enabled, Undefined).Undefined?
  }

  /** A value resolves under every set of conditions exactly when it is total. */
  lemma TotalExactly(v: Target)
    ensures Total(v) <==> AlwaysResolves(v)
  {
    if Total(v) {
      forall enabled: set<string> ensures !Resolve(v, enabled, Undefined).Undefined? { TotalResolves(v, enabled); }
    } else if AlwaysResolves(v) {
      assert !Resolve(v, {}, Undefined).Undefined?;
      ResolvesIsTotal(v);
    }
  }

  // ---------- Where the walk stops ----------

  /** The two marks of the walk over any value, valid or not. */
  lemma {:induction false} MarksExactly(v: Target, conditions: seq<Condition>)
    ensures var r := Visit(v, conditions, true); r.terminal == Terminal(v) && r.error == Fails(v)
    decreases v
  {
    match v
    case Arr(entries) => if entries != [] { EntriesMarksExactly(entries, 0, conditions, false); }
    case Obj(fields) => FieldsMarksExactly(fields, 0, conditions);
    case _ =>
  }

  lemma {:induction false} EntriesMarksExactly(entries: seq<Target>, i: nat, conditions: seq<Condition>, error: bool)
    requires i <= |entries|
    ensures var r := VisitEntries(entries, i, conditions, error, true);
            && r.terminal
            && (i == |entries| ==> r.error == error)
            && (i < |entries| ==> (r.error <==>
                 (forall j :: i <= j < |entries| ==> !Settles(entries[j])) && Fails(entries[|entries| - 1])))
    decreases entries, |entries| - i
  {
    if i < |entries| {
      MarksExactly(entries[i], conditions + [Fallback(i)]);
      EntriesMarksExactly(entries, i + 1, conditions, Fails(entries[i]));
      hide Visit, Fails, Terminal;
      if Settles(entries[i]) { assert i <= i < |entries|; }
    }
  }

  /** The first field at which the walk stops fails. */
  predicate FailsFrom(fields: seq<Field>, i: nat) {
    exists k :: i <= k < |fields| && StopsAt(fields[k]) && Fails(fields[k].value)
                && forall j :: i <= j < k ==> !StopsAt(fields[j])
  }

  lemma {:induction false} FieldsMarksExactly(fields: seq<Field>, i: nat, conditions: seq<Condition>)
    requires i <= |fields|
    ensures var r := VisitFields(fields, i, conditions, true);
            r.terminal == TerminalFrom(fields, i) && r.error == FailsFrom(fields, i)
    decreases fields, |fields| - i
  {
    if i < |fields| {
      MarksExactly(fields[i].value, conditions + [Key(fields[i].key)]);
      FieldsMarksExactly(fields, i + 1, conditions);
      hide Visit, Fails, Terminal;
      if !StopsAt(fields[i]) && FailsFrom(fields, i + 1) {
        var k :| i + 1 <= k < |fields| && StopsAt(fields[k]) && Fails(fields[k].value)
                 && forall j :: i + 1 <= j < k ==> !StopsAt(fields[j]);
        assert FailsFrom(fields, i);
      }
    }
  }

  // ---------- Flattening loses nothing ----------

  lemma {:induction false} PlainMarks(v: Target, conditions: seq<Condition>, prune: bool)
    requires Plain(v)
    ensures var r := Visit(v, conditions, prune); !r.error && (prune ==> r.terminal == Terminal(v))
    decreases v
  {
    match v
    case Arr(entries) => if entries != [] { EntriesMarks(entries, 0, conditions, prune); }
    case Obj(fields) => FieldsMarks(fields, 0, conditions, prune);
    case _ =>
  }

  lemma {:induction false} EntriesMarks(entries: seq<Target>, i: nat, conditions: seq<Condition>, prune: bool)
    requires i <= |entries| && forall e <- entries :: Plain(e)
    ensures var r := VisitEntries(entries, i, conditions, false, prune); !r.error && r.terminal
    decreases entries, |entries| - i
  {
    if i < |entries| {
      PlainMarks(entries[i], conditions + [Fallback(i)], prune);
      EntriesMarks(entries, i + 1, conditions, prune);
    }
  }

  lemma {:induction false} FieldsMarks(fields: seq<Field>, i: nat, conditions: seq<Condition>, prune: bool)
    requires i <= |fields| && forall f <- fields :: Plain(f.value)
    ensures var r := VisitFields(fields, i, conditions, prune);
            !r.error && (prune ==> r.terminal == TerminalFrom(fields, i))
    decreases fields, |fields| - i
  {
    if i < |fields| {
      PlainMarks(fields[i].value, conditions + [Key(fields[i].key)], prune);
      FieldsMarks(fields, i + 1, conditions, prune);
    }
  }

  lemma AllEnabledGrows(conditions: seq<Condition>, c: Condition, enabled: set<string>)
    ensures AllEnabled(conditions + [c], enabled) <==> AllEnabled(conditions, enabled) && IsEnabled(c, enabled)
  {
    if AllEnabled(conditions + [c], enabled) {
      assert c in conditions + [c];
      forall b <- conditions ensures IsEnabled(b, enabled) { assert b in conditions + [c]; }
    }
  }

  /** What the rows flattened under `conditions` select. */
  ghost predicate Selects(rows: seq<Row>, conditions: seq<Condition>, enabled: set<string>, outcome: Outcome) {
    FirstRow(rows, enabled) == if AllEnabled(conditions, enabled) then outcome else Undefined
  }

  /** Under every set of conditions, the first enabled row is what resolution returns: always for the
      complete enumeration, and for the pruned one when every skipped part follows a total value. */
  lemma {:induction false} Lossless(v: Target, conditions: seq<Condition>, enabled: set<string>, prune: bool)
    requires Plain(v) && (prune ==> Sound(v))
    ensures Selects(Visit(v, conditions, prune).rows, conditions, enabled, Resolve(v, enabled, Undefined))
    decreases v
  {
    match v
    case Arr(entries) => if entries != [] { LosslessEntries(entries, 0, conditions, enabled, prune); }
    case Obj(fields) => LosslessFields(fields, 0, conditions, enabled, prune);
    case _ =>
  }

  lemma {:induction false} LosslessEntries(entries: seq<Target>, i: nat, conditions: seq<Condition>,
                                           enabled: set<string>, prune: bool)
    requires i <= |entries| && (forall e <- entries :: Plain(e)) && (prune ==> Sound(Arr(entries)))
    ensures Selects(VisitEntries(entries, i, conditions, false, prune).rows, conditions,
                    enabled, ResolveEntries(entries, i, enabled, Undefined))
    decreases entries, |entries| - i
  {
    if i < |entries| {
      var at := conditions + [Fallback(i)];
      var next := Visit(entries[i], at, prune);
      PlainMarks(entries[i], at, prune);
      Lossless(entries[i], at, enabled, prune);
      AllEnabledGrows(conditions, Fallback(i), enabled);
      if prune && Terminal(entries[i]) {
        if i < |entries| - 1 { TotalResolves(entries[i], enabled); }
      } else {
        LosslessEntries(entries, i + 1, conditions, enabled, prune);
        FirstRowOfBoth(next.rows, VisitEntries(entries, i + 1, conditions, false, prune).rows, enabled);
      }
    }
  }

  lemma {:induction false} LosslessFields(fields: seq<Field>, i: nat, conditions: seq<Condition>, enabled: set<string>,
                                          prune: bool)
    requires i <= |fields| && (forall f <- fields :: Plain(f.value)) && (prune ==> Sound(Obj(fields)))
    ensures Selects(VisitFields(fields, i, conditions, prune).rows, conditions,
                    enabled, ResolveFields(fields, i, enabled, Undefined))
    decreases fields, |fields| - i
  {
    if i < |fields| {
      var c := Key(fields[i].key);
      var at := conditions + [c];
      var next := Visit(fields[i].value, at, prune);
      PlainMarks(fields[i].value, at, prune);
      Lossless(fields[i].value, at, enabled, prune);
      AllEnabledGrows(conditions, c, enabled);
      if prune && fields[i].key == "default" && Terminal(fields[i].value) {
        if i < |fields| - 1 { TotalResolves(fields[i].value, enabled); }
      } else {
        LosslessFields(fields, i + 1, conditions, enabled, prune);
        FirstRowOfBoth(next.rows, VisitFields(fields, i + 1, conditions, prune).rows, enabled);
      }
    }
  }

  /** The rows the program lists for a value select, under every set of conditions, what resolution returns. */
  ghost predicate Faithful(v: Target) {
    forall enabled: set<string> :: FirstRow(Visit(v, [], true).rows, enabled) == Resolve(v, enabled, Undefined)
  }

  /** Resolution that does not look past a value called final, even if nothing in it is enabled. */
  function ResolveKept(v: Target, enabled: set<string>): Outcome
    decreases v
  {
    match v
    case Str(text, _) => Resolved(text)
    case Null => Blocked
    case Arr(entries) => if entries == [] then Blocked else ResolveKeptEntries(entries, 0, enabled)
    case Obj(fields) => ResolveKeptFields(fields, 0, enabled)
    case Other => Undefined
  }

  function ResolveKeptEntries(entries: seq<Target>, i: nat, enabled: set<string>): Outcome
    requires i <= |entries|
    decreases entries, |entries| - i
  {
    if i == |entries| then Undefined
    else
      var resolved := ResolveKept(entries[i], enabled);
      if resolved.Undefined? && !Settles(entries[i]) then ResolveKeptEntries(entries, i + 1, enabled) else resolved
  }

  function ResolveKeptFields(fields: seq<Field>, i: nat, enabled: set<string>): Outcome
    requires i <= |fields|
    decreases fields, |fields| - i
  {
    if i == |fields| then Undefined
    else
      var resolved := if IsEnabled(Key(fields[i].key), enabled) then ResolveKept(fields[i].value, enabled)
                      else Undefined;
      if resolved.Undefined? && !StopsAt(fields[i])
      then ResolveKeptFields(fields, i + 1, enabled) else resolved
  }

  /** For every value: that is what the program's rows select. */
  lemma {:induction false} RowsSelectKept(v: Target, conditions: seq<Condition>, enabled: set<string>)
    ensures Selects(Visit(v, conditions, true).rows, conditions, enabled, ResolveKept(v, enabled))
    decreases v
  {
    match v
    case Arr(entries) => if entries != [] { EntryRowsSelectKept(entries, 0, conditions, enabled, false); }
    case Obj(fields) => FieldRowsSelectKept(fields, 0, conditions, enabled);
    case _ =>
  }

  lemma {:induction false} EntryRowsSelectKept(entries: seq<Target>, i: nat, conditions: seq<Condition>,
                                               enabled: set<string>, error: bool)
    requires i <= |entries|
    ensures Selects(VisitEntries(entries, i, conditions, error, true).rows, conditions,
                    enabled, ResolveKeptEntries(entries, i, enabled))
    decreases entries, |entries| - i
  {
    if i < |entries| {
      var at := conditions + [Fallback(i)];
      MarksExactly(entries[i], at);
      RowsSelectKept(entries[i], at, enabled);
      AllEnabledGrows(conditions, Fallback(i), enabled);
      if !Settles(entries[i]) {
        var failed := Fails(entries[i]);
        EntryRowsSelectKept(entries, i + 1, conditions, enabled, failed);
        FirstRowOfBoth(Visit(entries[i], at, true).rows,
                       VisitEntries(entries, i + 1, conditions, failed, true).rows, enabled);
      }
    }
  }

  lemma {:induction false} FieldRowsSelectKept(fields: seq<Field>, i: nat, conditions: seq<Condition>,
                                               enabled: set<string>)
    requires i <= |fields|
    ensures Selects(VisitFields(fields, i, conditions, true).rows, conditions,
                    enabled, ResolveKeptFields(fields, i, enabled))
    decreases fields, |fields| - i
  {
    if i < |fields| {
      var at := conditions + [Key(fields[i].key)];
      MarksExactly(fields[i].value, at);
      RowsSelectKept(fields[i].value, at, enabled);
      AllEnabledGrows(conditions, Key(fields[i].key), enabled);
      if !StopsAt(fields[i]) {
        FieldRowsSelectKept(fields, i + 1, conditions, enabled);
        FirstRowOfBoth(Visit(fields[i].value, at, true).rows,
                       VisitFields(fields, i + 1, conditions, true).rows, enabled);
      }
    }
  }

  method ExportTargets(value: Target) returns (rows: seq<Row>)
    ensures rows == Visit(value, [], true).rows
    ensures forall enabled: set<string> :: FirstRow(rows, enabled) == ResolveKept(value, enabled)
    ensures Plain(value) && Sound(value) ==> Faithful(value)
  {
    var visited := Flatten(value, []);
    rows := visited.rows;
    forall enabled: set<string> ensures FirstRow(rows, enabled) == ResolveKept(value, enabled) {
      RowsSelectKept(value, [], enabled);
    }
    if Plain(value) && Sound(value) {
      forall enabled: set<string> ensures FirstRow(rows, enabled) == Resolve(value, enabled, Undefined) {
        Lossless(value, [], enabled, true);
      }
    }
  }

  // ---------- Which rows pruning leaves out ----------

  /** The conditions a row needs: its keys other than `default`. */
  function Needs(row: Row): set<string> {
    set c <- row.conditions | c.Key? && c.name != "default" :: c.name
  }

  lemma EnabledExactly(row: Row, enabled: set<string>)
    ensures AllEnabled(row.conditions, enabled) <==> Needs(row) <= enabled
  {
    if Needs(row) <= enabled {
      forall c <- row.conditions ensures IsEnabled(c, enabled) {
        if c.Key? && c.name != "default" { assert c.name in Needs(row); }
      }
    }
  }

  /** The index of the first row whose conditions are all enabled, the number of rows if there is none. */
  function FirstAt(rows: seq<Row>, enabled: set<string>): (i: nat)
    ensures i <= |rows| && forall j :: 0 <= j < i ==> !AllEnabled(rows[j].conditions, enabled)
    ensures i < |rows| ==> AllEnabled(rows[i].conditions, enabled)
    ensures FirstRow(rows, enabled) == if i < |rows| then OutcomeOf(rows[i].target) else Undefined
  {
    if rows == [] || AllEnabled(rows[0].conditions, enabled) then 0 else 1 + FirstAt(rows[1..], enabled)
  }

  /** A row of the complete enumeration, and whether the program lists it. */
  datatype Marked = Marked(row: Row, listed: bool)

  /** The walk over everything. A walk that stops after a value leaves out all that follows. */
  function Enumerate(v: Target, conditions: seq<Condition>, listed: bool): seq<Marked>
    decreases v
  {
    match v
    case Str(text, _) => [Marked(Row(conditions, Some(text)), listed)]
    case Null => [Marked(Row(conditions, None), listed)]
    case Arr(entries) =>
      if entries == [] then [Marked(Row(conditions, None), listed)]
      else EnumerateEntries(entries, 0, conditions, listed)
    case Obj(fields) => EnumerateFields(fields, 0, conditions, listed)
    case Other => []
  }

  function EnumerateEntries(entries: seq<Target>, i: nat, conditions: seq<Condition>, listed: bool): seq<Marked>
    requires i <= |entries|
    decreases entries, |entries| - i
  {
    if i == |entries| then []
    else
      Enumerate(entries[i], conditions + [Fallback(i)], listed)
      + EnumerateEntries(entries, i + 1, conditions, listed && !Settles(entries[i]))
  }

  function EnumerateFields(fields: seq<Field>, i: nat, conditions: seq<Condition>, listed: bool): seq<Marked>
    requires i <= |fields|
    decreases fields, |fields| - i
  {
    if i == |fields| then []
    else
      Enumerate(fields[i].value, conditions + [Key(fields[i].key)], listed)
      + EnumerateFields(fields, i + 1, conditions, listed && !StopsAt(fields[i]))
  }

  function AllRows(rows: seq<Marked>): (r: seq<Row>)
    ensures |r| == |rows| && forall i :: 0 <= i < |r| ==> r[i] == rows[i].row
  {
    if rows == [] then [] else [rows[0].row] + AllRows(rows[1..])
  }

  function ListedRows(rows: seq<Marked>): seq<Row> {
    if rows == [] then [] else (if rows[0].listed then [rows[0].row] else []) + ListedRows(rows[1..])
  }

  lemma {:induction false} RowsOfBoth(a: seq<Marked>, b: seq<Marked>)
    ensures AllRows(a + b) == AllRows(a) + AllRows(b) && ListedRows(a + b) == ListedRows(a) + ListedRows(b)
  {
    if a == [] {
      assert a + b == b;
    } else {
      assert (a + b)[1..] == a[1..] + b;
      RowsOfBoth(a[1..], b);
      var first := if a[0].listed then [a[0].row] else [];
      Associates([a[0].row], AllRows(a[1..]), AllRows(b));
      Associates(first, ListedRows(a[1..]), ListedRows(b));
    }
  }

  /** The rows the marks stand for. */
  predicate Marks(marked: seq<Marked>, listed: bool, all: seq<Row>, pruned: seq<Row>) {
    AllRows(marked) == all && ListedRows(marked) == if listed then pruned else []
  }

  /** All marked rows are the complete enumeration, and the listed ones what the program lists. */
  lemma {:induction false} EnumerateMarks(v: Target, conditions: seq<Condition>, listed: bool)
    ensures Marks(Enumerate(v, conditions, listed), listed,
                  Visit(v, conditions, false).rows, Visit(v, conditions, true).rows)
    decreases v
  {
    match v
    case Arr(entries) => if entries != [] { EntriesMarked(entries, 0, conditions, listed, false, false); }
    case Obj(fields) => FieldsMarked(fields, 0, conditions, listed);
    case _ =>
  }

  lemma {:induction false} EntriesMarked(entries: seq<Target>, i: nat, conditions: seq<Condition>, listed: bool,
                                         a: bool, b: bool)
    requires i <= |entries|
    ensures Marks(EnumerateEntries(entries, i, conditions, listed), listed,
                  VisitEntries(entries, i, conditions, a, false).rows,
                  VisitEntries(entries, i, conditions, b, true).rows)
    decreases entries, |entries| - i
  {
    if i < |entries| {
      var at, later := conditions + [Fallback(i)], listed && !Settles(entries[i]);
      MarksExactly(entries[i], at);
      EnumerateMarks(entries[i], at, listed);
      EntriesMarked(entries, i + 1, conditions, later, Visit(entries[i], at, false).error, Fails(entries[i]));
      RowsOfBoth(Enumerate(entries[i], at, listed), EnumerateEntries(entries, i + 1, conditions, later));
    }
  }

  lemma {:induction false} FieldsMarked(fields: seq<Field>, i: nat, conditions: seq<Condition>, listed: bool)
    requires i <= |fields|
    ensures Marks(EnumerateFields(fields, i, conditions, listed), listed,
                  VisitFields(fields, i, conditions, false).rows, VisitFields(fields, i, conditions, true).rows)
    decreases fields, |fields| - i
  {
    if i < |fields| {
      var at, later := conditions + [Key(fields[i].key)], listed && !StopsAt(fields[i]);
      MarksExactly(fields[i].value, at);
      EnumerateMarks(fields[i].value, at, listed);
      FieldsMarked(fields, i + 1, conditions, later);
      RowsOfBoth(Enumerate(fields[i].value, at, listed), EnumerateFields(fields, i + 1, conditions, later));
    }
  }

  /** Some earlier row is enabled whenever this one is. */
  predicate CoveredAt(rows: seq<Row>, i: nat)
    requires i < |rows|
  {
    exists j :: 0 <= j < i && Needs(rows[j]) <= Needs(rows[i])
  }

  /** Every row left out has an earlier one that needs no other conditions. */
  predicate Covered(marked: seq<Marked>) {
    forall i :: 0 <= i < |marked| && !marked[i].listed ==> CoveredAt(AllRows(marked), i)
  }

  /** No row left out is ever the first enabled one. */
  ghost predicate LeftOutNeverFirst(marked: seq<Marked>) {
    forall enabled: set<string> :: FirstIsListed(marked, enabled)
  }

  predicate FirstIsListed(marked: seq<Marked>, enabled: set<string>) {
    var i := FirstAt(AllRows(marked), enabled);
    i < |marked| ==> marked[i].listed
  }

  lemma CoveredIsLater(rows: seq<Row>, i: nat, enabled: set<string>)
    requires i < |rows| && CoveredAt(rows, i) && AllEnabled(rows[i].conditions, enabled)
    ensures FirstAt(rows, enabled) < i
  {
    var j :| 0 <= j < i && Needs(rows[j]) <= Needs(rows[i]);
    EnabledExactly(rows[i], enabled);
    EnabledExactly(rows[j], enabled);
  }

  /** A row left out is never the one to choose exactly when each has an earlier one whose keys other than
      `default` are among its own. */
  lemma LeftOutExactly(marked: seq<Marked>)
    ensures LeftOutNeverFirst(marked) <==> Covered(marked)
  {
    var rows := AllRows(marked);
    if Covered(marked) {
      forall enabled: set<string> ensures FirstIsListed(marked, enabled) {
        var i := FirstAt(rows, enabled);
        if i < |rows| && CoveredAt(rows, i) { CoveredIsLater(rows, i, enabled); }
      }
    }
    if LeftOutNeverFirst(marked) {
      forall i | 0 <= i < |marked| && !marked[i].listed ensures CoveredAt(rows, i) {
        assert FirstIsListed(marked, Needs(rows[i]));
        var j := FirstAt(rows, Needs(rows[i]));
        EnabledExactly(rows[i], Needs(rows[i]));
        if j < |rows| { EnabledExactly(rows[j], Needs(rows[i])); }
      }
    }
  }

  lemma {:induction false} ListedSame(marked: seq<Marked>, enabled: set<string>)
    requires FirstIsListed(marked, enabled)
    ensures FirstRow(ListedRows(marked), enabled) == FirstRow(AllRows(marked), enabled)
  {
    if marked != [] {
      var row, rest := marked[0].row, marked[1..];
      assert AllRows(marked) == [row] + AllRows(rest);
      FirstRowOfMore(row, AllRows(rest), enabled);
      FirstRowOfMore(row, ListedRows(rest), enabled);
      if !AllEnabled(row.conditions, enabled) {
        assert AllRows(marked)[1..] == AllRows(rest)
               && FirstAt(AllRows(marked), enabled) == 1 + FirstAt(AllRows(rest), enabled);
        ListedSame(rest, enabled);
        assert [] + ListedRows(rest) == ListedRows(rest);
      }
    }
  }

  lemma FirstRowOfMore(row: Row, rest: seq<Row>, enabled: set<string>)
    ensures FirstRow([row] + rest, enabled)
            == if AllEnabled(row.conditions, enabled) then OutcomeOf(row.target) else FirstRow(rest, enabled)
  {
    assert ([row] + rest)[1..] == rest;
  }

  /** Then the program's rows select what resolution returns. */
  lemma CoveredIsFaithful(v: Target)
    requires Plain(v) && Covered(Enumerate(v, [], true))
    ensures Faithful(v)
  {
    var marked := Enumerate(v, [], true);
    LeftOutExactly(marked);
    EnumerateMarks(v, [], true);
    forall enabled: set<string> ensures FirstRow(Visit(v, [], true).rows, enabled) == Resolve(v, enabled, Undefined) {
      assert FirstIsListed(marked, enabled);
      ListedSame(marked, enabled);
      Lossless(v, [], enabled, false);
    }
  }

  // ---------- When rows select the same ----------

  /** Under the conditions that two of the rows need. */
  predicate SameForPairs(a: seq<Row>, b: seq<Row>) {
    forall x <- a + b, y <- a + b :: FirstRow(a, Needs(x) + Needs(y)) == FirstRow(b, Needs(x) + Needs(y))
  }

  ghost predicate SelectSame(a: seq<Row>, b: seq<Row>) {
    forall enabled: set<string> :: FirstRow(a, enabled) == FirstRow(b, enabled)
  }

  /** Fewer conditions that still enable the first row select it, too. */
  lemma FirstStays(rows: seq<Row>, enabled: set<string>, fewer: set<string>)
    requires fewer <= enabled
    requires var i := FirstAt(rows, enabled); i < |rows| ==> Needs(rows[i]) <= fewer
    ensures FirstRow(rows, fewer) == FirstRow(rows, enabled)
  {
    var i, k := FirstAt(rows, enabled), FirstAt(rows, fewer);
    if i < |rows| { EnabledExactly(rows[i], fewer); }
    if k < |rows| {
      EnabledExactly(rows[k], fewer);
      EnabledExactly(rows[k], enabled);
    }
  }

  /** Two lists of rows select the same under all conditions exactly when they do under each union of what
      two of the rows need. */
  lemma SameExactly(a: seq<Row>, b: seq<Row>)
    ensures SelectSame(a, b) <==> SameForPairs(a, b)
  {
    if SameForPairs(a, b) {
      forall enabled: set<string> ensures FirstRow(a, enabled) == FirstRow(b, enabled) {
        var i, j := FirstAt(a, enabled), FirstAt(b, enabled);
        if i < |a| || j < |b| {
          var x := if i < |a| then a[i] else b[j];
          var y := if j < |b| then b[j] else a[i];
          EnabledExactly(x, enabled);
          EnabledExactly(y, enabled);
          assert x in a + b && y in a + b;
          FirstStays(a, enabled, Needs(x) + Needs(y));
          FirstStays(b, enabled, Needs(x) + Needs(y));
        }
      }
    }
  }

  /** For every value with valid or null targets: the program's rows select what resolution returns under all
      conditions exactly when they select what the complete enumeration does under those finitely many. */
  lemma FaithfulExactly(v: Target)
    requires Plain(v)
    ensures Faithful(v) <==> SameForPairs(Visit(v, [], true).rows, Visit(v, [], false).rows)
  {
    SameExactly(Visit(v, [], true).rows, Visit(v, [], false).rows);
    forall enabled: set<string> ensures FirstRow(Visit(v, [], false).rows, enabled) == Resolve(v, enabled, Undefined) {
      Lossless(v, [], enabled, false);
    }
    if SelectSame(Visit(v, [], true).rows, Visit(v, [], false).rows) {
      forall enabled: set<string> ensures FirstRow(Visit(v, [], true).rows, enabled) == Resolve(v, enabled, Undefined) {
        assert FirstRow(Visit(v, [], true).rows, enabled) == FirstRow(Visit(v, [], false).rows, enabled);
      }
    }
    if Faithful(v) {
      forall enabled: set<string>
        ensures FirstRow(Visit(v, [], true).rows, enabled) == FirstRow(Visit(v, [], false).rows, enabled)
      {
        assert FirstRow(Visit(v, [], true).rows, enabled) == Resolve(v, enabled, Undefined);
      }
    }
  }

  // ---------- Two shapes ----------

  /** The value depends on this condition somewhere. */
  predicate Mentions(v: Target, key: string) {
    match v
    case Arr(entries) => exists e <- entries :: Mentions(e, key)
    case Obj(fields) => exists f <- fields :: f.key == key || Mentions(f.value, key)
    case _ => false
  }

  /** Conditions the value does not mention. */
  predicate Unrelated(v: Target, keys: set<string>) {
    forall k <- keys :: k != "default" && !Mentions(v, k)
  }

  lemma {:induction false} UnmentionedIrrelevant(v: Target, keys: set<string>)
    requires Unrelated(v, keys)
    ensures Resolve(v, keys, Undefined) == Resolve(v, {}, Undefined)
    decreases v
  {
    match v
    case Arr(entries) => UnmentionedInEntries(entries, 0, keys);
    case Obj(fields) => UnmentionedInFields(fields, 0, keys);
    case _ =>
  }

  lemma {:induction false} UnmentionedInEntries(entries: seq<Target>, i: nat, keys: set<string>)
    requires i <= |entries| && forall e <- entries :: Unrelated(e, keys)
    ensures ResolveEntries(entries, i, keys, Undefined) == ResolveEntries(entries, i, {}, Undefined)
    decreases entries, |entries| - i
  {
    if i < |entries| {
      UnmentionedIrrelevant(entries[i], keys);
      UnmentionedInEntries(entries, i + 1, keys);
    }
  }

  lemma {:induction false} UnmentionedInFields(fields: seq<Field>, i: nat, keys: set<string>)
    requires i <= |fields| && forall f <- fields :: Unrelated(f.value, keys) && (f.key in keys ==> f.key == "default")
    requires "default" !in keys
    ensures ResolveFields(fields, i, keys, Undefined) == ResolveFields(fields, i, {}, Undefined)
    decreases fields, |fields| - i
  {
    if i < |fields| {
      assert fields[i] in fields;
      UnmentionedIrrelevant(fields[i].value, keys);
      UnmentionedInFields(fields, i + 1, keys);
    }
  }

  /** When skipping is right: as an earlier fallback, or as `default` before a key it does not mention, a
      value the flattening calls final may be skipped past exactly when it always resolves. */
  lemma PruningExactly(v: Target, key: string, after: string)
    requires Plain(v) && Sound(v) && !Mentions(v, key) && key != "default"
    ensures Faithful(Arr([v, Str(after, true)])) <==> (Terminal(v) ==> Total(v))
    ensures Faithful(Obj([Field("default", v), Field(key, Str(after, true))])) <==> (Terminal(v) ==> Total(v))
  {
    if Terminal(v) && !Total(v) {
      SkippedEntryLost(v, after);
      SkippedFieldLost(v, key, after);
    } else {
      FaithfulWhenSound(Arr([v, Str(after, true)]));
      FaithfulWhenSound(Obj([Field("default", v), Field(key, Str(after, true))]));
    }
  }

  lemma SkippedEntryLost(v: Target, after: string)
    requires Plain(v) && Sound(v) && Terminal(v) && !Total(v)
    ensures !Faithful(Arr([v, Str(after, true)]))
  {
    var entries := [v, Str(after, true)];
    if !Resolve(v, {}, Undefined).Undefined? { ResolvesIsTotal(v); }
    assert ResolveEntries(entries, 1, {}, Undefined) == Resolved(after);
    assert Resolve(Arr(entries), {}, Undefined) == Resolved(after);
    PlainMarks(v, [] + [Fallback(0)], true);
    assert Visit(Arr(entries), [], true).rows == Visit(v, [] + [Fallback(0)], true).rows;
    Lossless(v, [] + [Fallback(0)], {}, true);
  }

  lemma SkippedFieldLost(v: Target, key: string, after: string)
    requires Plain(v) && Sound(v) && Terminal(v) && !Total(v) && !Mentions(v, key) && key != "default"
    ensures !Faithful(Obj([Field("default", v), Field(key, Str(after, true))]))
  {
    var fields := [Field("default", v), Field(key, Str(after, true))];
    UnmentionedIrrelevant(v, {key});
    if !Resolve(v, {}, Undefined).Undefined? { ResolvesIsTotal(v); }
    assert ResolveFields(fields, 1, {key}, Undefined) == Resolved(after);
    assert Resolve(Obj(fields), {key}, Undefined) == Resolved(after);
    PlainMarks(v, [] + [Key("default")], true);
    assert Visit(Obj(fields), [], true).rows == Visit(v, [] + [Key("default")], true).rows;
    Lossless(v, [] + [Key("default")], {key}, true);
  }

  /** A fallback array with one entry, which needs a condition. */
  function Conditional(key: string): Target {
    Arr([Obj([Field(key, Str("./a", true))])])
  }

  lemma PlainConditional(key: string)
    ensures Plain(Conditional(key)) && Sound(Conditional(key))
  {
    var o := Obj([Field(key, Str("./a", true))]);
    assert Plain(o) && Sound(o);
  }

  lemma ConditionalMeans(key: string, conditions: seq<Condition>, enabled: set<string>, exhausted: Outcome)
    requires key != "default" && key !in enabled
    ensures Resolve(Conditional(key), enabled, exhausted) == exhausted
    ensures var r := Visit(Conditional(key), conditions, true);
            r.terminal && !r.error && r.rows == [Row(conditions + [Fallback(0)] + [Key(key)], Some("./a"))]
  {
    var o := Obj([Field(key, Str("./a", true))]);
    assert ResolveFields(o.fields, 1, enabled, exhausted).Undefined?;
    assert Resolve(o, enabled, exhausted).Undefined?;
    assert ResolveEntries([o], 1, enabled, exhausted) == exhausted;
    var at := conditions + [Fallback(0)];
    var row := Row(at + [Key(key)], Some("./a"));
    assert VisitFields(o.fields, 1, at, true) == Visited([], false, false);
    assert Visit(o.fields[0].value, at + [Key(key)], true).rows == [row];
    assert VisitFields(o.fields, 0, at, true).rows == [row] + [];
    assert Visit(o, at, true) == Visited([row], false, false);
    assert VisitEntries([o], 1, conditions, false, true) == Visited([], true, false);
    assert VisitEntries([o], 0, conditions, false, true).rows == [row] + [];
  }

  /** Reading an exhausted fallback array as blocked does not help: then the rows resolve what resolution
      blocks, even where nothing is skipped. */
  lemma BlockedReadingDiffers(key: string, either: string, other: string)
    requires key != "default" && either != "default" && other != "default" && key != either && key != other
    ensures var v := Obj([Field(either, Conditional(key)), Field(other, Str("./b", true))]);
            && Plain(v) && Resolve(v, {either, other}, Blocked).Blocked?
            && FirstRow(Visit(v, [], true).rows, {either, other})
               == FirstRow(Visit(v, [], false).rows, {either, other}) == Resolved("./b")
  {
    var fields := [Field(either, Conditional(key)), Field(other, Str("./b", true))];
    var v, enabled := Obj(fields), {either, other};
    ConditionalMeans(key, [Key(either)], enabled, Blocked);
    ConditionalMeans(key, [Key(either)], enabled, Undefined);
    assert ResolveFields(fields, 1, enabled, Undefined) == Resolved("./b");
    assert Resolve(v, enabled, Undefined) == Resolved("./b");
    PlainConditional(key);
    assert Plain(v) && Sound(v);
    Lossless(v, [], enabled, true);
    Lossless(v, [], enabled, false);
  }

  lemma FaithfulWhenSound(v: Target)
    requires Plain(v) && Sound(v)
    ensures Faithful(v)
  {
    forall enabled: set<string> ensures FirstRow(Visit(v, [], true).rows, enabled) == Resolve(v, enabled, Undefined) {
      Lossless(v, [], enabled, true);
    }
  }

  // ---------- The reading that blocks ----------

  /** Every fallback array inside always resolves. */
  predicate ArraysTotal(v: Target) {
    match v
    case Arr(entries) => Total(v) && forall e <- entries :: ArraysTotal(e)
    case Obj(fields) => forall f <- fields :: ArraysTotal(f.value)
    case _ => true
  }

  /** The rows select what resolution returns when exhausted arrays block. */
  ghost predicate FaithfulBlocked(v: Target) {
    forall enabled: set<string> :: FirstRow(Visit(v, [], true).rows, enabled) == Resolve(v, enabled, Blocked)
  }

  lemma {:induction false} TerminalIsTotal(v: Target)
    requires ArraysTotal(v) && Terminal(v)
    ensures Total(v)
  {
    if v.Obj? {
      var j :| 0 <= j < |v.fields| && v.fields[j].key == "default" && Terminal(v.fields[j].value);
      assert v.fields[j] in v.fields;
      TerminalIsTotal(v.fields[j].value);
    }
  }

  lemma {:induction false} TotalArraysAreSound(v: Target)
    requires ArraysTotal(v)
    ensures Sound(v)
  {
    match v
    case Arr(entries) =>
      forall i | 0 <= i < |entries| ensures Sound(entries[i]) && (Terminal(entries[i]) ==> Total(entries[i])) {
        TotalArraysAreSound(entries[i]);
        if Terminal(entries[i]) { TerminalIsTotal(entries[i]); }
      }
    case Obj(fields) =>
      forall i | 0 <= i < |fields|
        ensures Sound(fields[i].value) && (Terminal(fields[i].value) ==> Total(fields[i].value))
      {
        assert fields[i] in fields;
        TotalArraysAreSound(fields[i].value);
        if Terminal(fields[i].value) { TerminalIsTotal(fields[i].value); }
      }
    case _ =>
  }

  /** Then nothing is ever exhausted, and the reading does not matter. */
  lemma {:induction false} ReadingsAgree(v: Target, enabled: set<string>)
    requires ArraysTotal(v)
    ensures Resolve(v, enabled, Blocked) == Resolve(v, enabled, Undefined)
    decreases v
  {
    match v
    case Arr(entries) =>
      if entries != [] {
        TotalResolves(v, enabled);
        EntryReadingsAgree(entries, 0, enabled);
      }
    case Obj(fields) => FieldReadingsAgree(fields, 0, enabled);
    case _ =>
  }

  lemma {:induction false} EntryReadingsAgree(entries: seq<Target>, i: nat, enabled: set<string>)
    requires i <= |entries| && (forall e <- entries :: ArraysTotal(e))
             && !ResolveEntries(entries, i, enabled, Undefined).Undefined?
    ensures ResolveEntries(entries, i, enabled, Blocked) == ResolveEntries(entries, i, enabled, Undefined)
    decreases entries, |entries| - i
  {
    ReadingsAgree(entries[i], enabled);
    if Resolve(entries[i], enabled, Undefined).Undefined? {
      EntryReadingsAgree(entries, i + 1, enabled);
    }
  }

  lemma {:induction false} FieldReadingsAgree(fields: seq<Field>, i: nat, enabled: set<string>)
    requires i <= |fields| && forall f <- fields :: ArraysTotal(f.value)
    ensures ResolveFields(fields, i, enabled, Blocked) == ResolveFields(fields, i, enabled, Undefined)
    decreases fields, |fields| - i
  {
    if i < |fields| {
      assert fields[i] in fields;
      ReadingsAgree(fields[i].value, enabled);
      FieldReadingsAgree(fields, i + 1, enabled);
    }
  }

  /** When every fallback array always resolves, the rows are faithful under both readings. */
  lemma BothReadingsFaithful(v: Target)
    requires Plain(v) && ArraysTotal(v)
    ensures Faithful(v) && FaithfulBlocked(v)
  {
    TotalArraysAreSound(v);
    FaithfulWhenSound(v);
    forall enabled: set<string> ensures FirstRow(Visit(v, [], true).rows, enabled) == Resolve(v, enabled, Blocked) {
      ReadingsAgree(v, enabled);
    }
  }

  /** The complete enumeration with a null row after the entries of every fallback array. */
  function BlockingRows(v: Target, conditions: seq<Condition>): seq<Row>
    decreases v
  {
    match v
    case Str(text, _) => [Row(conditions, Some(text))]
    case Null => [Row(conditions, None)]
    case Arr(entries) => BlockingEntries(entries, 0, conditions)
    case Obj(fields) => BlockingFields(fields, 0, conditions)
    case Other => []
  }

  function BlockingEntries(entries: seq<Target>, i: nat, conditions: seq<Condition>): seq<Row>
    requires i <= |entries|
    decreases entries, |entries| - i
  {
    if i == |entries| then [Row(conditions, None)]
    else BlockingRows(entries[i], conditions + [Fallback(i)]) + BlockingEntries(entries, i + 1, conditions)
  }

  function BlockingFields(fields: seq<Field>, i: nat, conditions: seq<Condition>): seq<Row>
    requires i <= |fields|
    decreases fields, |fields| - i
  {
    if i == |fields| then []
    else BlockingRows(fields[i].value, conditions + [Key(fields[i].key)]) + BlockingFields(fields, i + 1, conditions)
  }

  /** For every value, those rows select what resolution with blocking arrays returns. */
  lemma {:induction false} BlockingSelects(v: Target, conditions: seq<Condition>, enabled: set<string>)
    ensures Selects(BlockingRows(v, conditions), conditions, enabled, Resolve(v, enabled, Blocked))
    decreases v
  {
    match v
    case Arr(entries) => BlockingEntriesSelect(entries, 0, conditions, enabled);
    case Obj(fields) => BlockingFieldsSelect(fields, 0, conditions, enabled);
    case _ =>
  }

  lemma {:induction false} BlockingEntriesSelect(entries: seq<Target>, i: nat, conditions: seq<Condition>,
                                                 enabled: set<string>)
    requires i <= |entries|
    ensures Selects(BlockingEntries(entries, i, conditions), conditions,
                    enabled, ResolveEntries(entries, i, enabled, Blocked))
    decreases entries, |entries| - i
  {
    if i < |entries| {
      var at := conditions + [Fallback(i)];
      BlockingSelects(entries[i], at, enabled);
      AllEnabledGrows(conditions, Fallback(i), enabled);
      BlockingEntriesSelect(entries, i + 1, conditions, enabled);
      FirstRowOfBoth(BlockingRows(entries[i], at), BlockingEntries(entries, i + 1, conditions), enabled);
    }
  }

  lemma {:induction false} BlockingFieldsSelect(fields: seq<Field>, i: nat, conditions: seq<Condition>,
                                                enabled: set<string>)
    requires i <= |fields|
    ensures Selects(BlockingFields(fields, i, conditions), conditions,
                    enabled, ResolveFields(fields, i, enabled, Blocked))
    decreases fields, |fields| - i
  {
    if i < |fields| {
      var at := conditions + [Key(fields[i].key)];
      BlockingSelects(fields[i].value, at, enabled);
      AllEnabledGrows(conditions, Key(fields[i].key), enabled);
      BlockingFieldsSelect(fields, i + 1, conditions, enabled);
      FirstRowOfBoth(BlockingRows(fields[i].value, at), BlockingFields(fields, i + 1, conditions), enabled);
    }
  }

  /** For every value: with exhausted arrays blocking, the program's rows are faithful under all conditions
      exactly when they are under each union of what two rows need. */
  lemma BlockedReadingExactly(v: Target)
    ensures FaithfulBlocked(v) <==> SameForPairs(Visit(v, [], true).rows, BlockingRows(v, []))
  {
    SameExactly(Visit(v, [], true).rows, BlockingRows(v, []));
    forall enabled: set<string> ensures FirstRow(BlockingRows(v, []), enabled) == Resolve(v, enabled, Blocked) {
      BlockingSelects(v, [], enabled);
    }
    if SelectSame(Visit(v, [], true).rows, BlockingRows(v, [])) {
      forall enabled: set<string> ensures FirstRow(Visit(v, [], true).rows, enabled) == Resolve(v, enabled, Blocked) {
        assert FirstRow(Visit(v, [], true).rows, enabled) == FirstRow(BlockingRows(v, []), enabled);
      }
    }
    if FaithfulBlocked(v) {
      forall enabled: set<string>
        ensures FirstRow(Visit(v, [], true).rows, enabled) == FirstRow(BlockingRows(v, []), enabled)
      {
        assert FirstRow(Visit(v, [], true).rows, enabled) == Resolve(v, enabled, Blocked);
      }
    }
  }
}
