/** Saving loaded entities of one versioned row: change detection against the snapshot and the
    optimistic version check, over any interleaving of entities. */
module VersionLock {
  import opened Wrappers
  import opened DirtyTracking
  import Transactions

  /** Column options that `save` looks at. The version column is kept apart (see Entity). */
  datatype Column = Column(name: string, kind: LogicalType, update: bool, primary: bool, updateDate: bool)
  datatype Meta = Meta(columns: seq<Column>, versioned: bool, dialect: Dialect, rt: Runtime)

  ghost predicate DistinctNames(meta: Meta) {
    forall i, j :: 0 <= i < j < |meta.columns| ==> meta.columns[i].name != meta.columns[j].name
  }

  /** Columns compared with the snapshot. */
  predicate Compared(c: Column) {
    c.update && !c.primary && !c.updateDate
  }

  type Props = map<string, Value>
  type Cells = map<string, Stored>

  datatype Row = Row(cells: Cells, version: int)

  /** An entity with its state: property values, the snapshot, the version property and the snapshot's
      version (None when the version column was not loaded). */
  datatype Entity = Entity(values: Props, original: Props, version: Option<int>, originalVersion: Option<int>)

  datatype Outcome = Written | Unchanged | StaleRow | Failed

  function Get(props: Props, name: string): Value {
    if name in props then props[name] else Undefined
  }

  // ---------- save, as a function ----------

  /** The changed columns among the first ones; None when a comparison throws. */
  function Changes(meta: Meta, columns: seq<Column>, e: Entity): Option<Props> {
    if columns == [] then Some(map[])
    else
      var c := columns[|columns| - 1];
      var rest := Changes(meta, columns[..|columns| - 1], e);
      if rest.None? || !Compared(c) then rest
      else
        match EqualValue(Get(e.values, c.name), Get(e.original, c.name), meta.rt.iso)
        case Throws => None
        case Same => rest
        case Different => Some(rest.value[c.name := Get(e.values, c.name)])
  }

  /** Index of the update date column, |columns| when there is none. */
  function UpdateDate(columns: seq<Column>): (i: nat)
    ensures i <= |columns|
    ensures i < |columns| ==> columns[i].updateDate && columns[i].update
    ensures forall j :: 0 <= j < i ==> !(columns[j].updateDate && columns[j].update)
  {
    if columns == [] then 0
    else if columns[0].updateDate && columns[0].update then 0
    else 1 + UpdateDate(columns[1..])
  }

  /** The row's cells with the changed columns encoded over them; None when an encoding throws. */
  function Overwrite(meta: Meta, columns: seq<Column>, cells: Cells, changes: Props): Option<Cells> {
    if columns == [] then Some(cells)
    else
      var c := columns[|columns| - 1];
      var rest := Overwrite(meta, columns[..|columns| - 1], cells, changes);
      if rest.None? || c.name !in changes then rest
      else
        var stored := Encode(c.kind, changes[c.name], meta.dialect, meta.rt);
        if stored.None? then None else Some(rest.value[c.name := stored.value])
  }

  function Refreshed(columns: seq<Column>, values: Props): Props {
    if columns == [] then map[]
    else
      var c := columns[|columns| - 1];
      Refreshed(columns[..|columns| - 1], values)[c.name := Clone(Get(values, c.name))]
  }

  function OldVersion(e: Entity): int {
    if e.originalVersion.Some? then e.originalVersion.value else 1
  }

  /** The entity just before its UPDATE, and the columns to write. */
  function Prepared(meta: Meta, e: Entity, changes: Props, now: Value): (Entity, Props) {
    var i := UpdateDate(meta.columns);
    var dated := if i < |meta.columns| then map[meta.columns[i].name := now] else map[];
    (e.(values := e.values + dated, version := if meta.versioned then Some(OldVersion(e) + 1) else e.version),
     changes + dated)
  }

  /** Saving a loaded entity against the row with its primary key. `fault` is what the driver does with
      the UPDATE; hooks and relations are inert. */
  function Saved(meta: Meta, e: Entity, row: Row, now: Value, fault: Transactions.Fault): (Entity, Row, Outcome) {
    var changes := Changes(meta, meta.columns, e);
    if changes.None? then (e, row, Failed)
    else if changes.value == map[] then (e, row, Unchanged)
    else
      var (e1, written) := Prepared(meta, e, changes.value, now);
      Update(meta, OldVersion(e), e1, written, row, fault)
  }

  /** The UPDATE and what follows it. */
  function Update(meta: Meta, oldVersion: int, e: Entity, written: Props, row: Row, fault: Transactions.Fault): (Entity,
                  Row, Outcome)
  {
    var cells := Overwrite(meta, meta.columns, row.cells, written);
    if cells.None? || fault.Refused? then (e, row, Failed)
    else if meta.versioned && oldVersion != row.version then (e, row, if fault.Lost? then Failed else StaleRow)
    else
      var row' := Row(cells.value, if meta.versioned then oldVersion + 1 else row.version);
      if fault.Lost? then (e, row', Failed)
      else (Entity(e.values, Refreshed(meta.columns, e.values), e.version, e.version), row', Written)
  }

  // ---------- Runs over one row ----------

  /** How a stored cell reads back. */
  type Reader = (string, Stored) -> Value

  datatype Op =
    | Hydrate(id: nat, loaded: set<string>, withVersion: bool)
    | Edit(id: nat, name: string, value: Value)
    | SaveOp(id: nat, now: Value, fault: Transactions.Fault)

  /** An entity and the number of the row's content it was read from, or wrote when last saved. */
  datatype Holder = Holder(entity: Entity, basis: nat)

  /** `history` lists the past contents of the row from the start; like `basis` it only describes the run. */
  datatype Run = Run(row: Row, holders: map<nat, Holder>, history: seq<Cells>)

  function Load(meta: Meta, row: Row, read: Reader, loaded: set<string>, withVersion: bool): Entity {
    var version := if withVersion then Some(row.version) else None;
    Entity(
      map c <- meta.columns ::
        c.name := if c.name in loaded && c.name in row.cells then read(c.name, row.cells[c.name]) else Undefined,
      map c <- meta.columns | c.name in loaded && c.name in row.cells ::
        c.name := Clone(read(c.name, row.cells[c.name])),
      version, version)
  }

  function Step(meta: Meta, read: Reader, run: Run, op: Op): Run {
    match op
    case Hydrate(id, loaded, withVersion) =>
      var h := Holder(Load(meta, run.row, read, loaded, withVersion), |run.history|);
      Run(run.row, run.holders[id := h], run.history)
    case Edit(id, name, value) =>
      if id !in run.holders then run
      else
        var h := run.holders[id];
        var e := Entity(h.entity.values[name := value], h.entity.original, h.entity.version, h.entity.originalVersion);
        Run(run.row, run.holders[id := Holder(e, h.basis)], run.history)
    case SaveOp(id, now, fault) =>
      if id !in run.holders then run
      else
        var h := run.holders[id];
        var (e, row, outcome) := Saved(meta, h.entity, run.row, now, fault);
        var history := if Wrote(meta, h.entity, run.row, now, fault) then run.history + [run.row.cells]
                       else run.history;
        Run(row, run.holders[id := Holder(e, if outcome.Written? then |history| else h.basis)], history)
  }

  /** Whether this save's UPDATE changes the row, reported or not. */
  predicate Wrote(meta: Meta, e: Entity, row: Row, now: Value, fault: Transactions.Fault) {
    var changes := Changes(meta, meta.columns, e);
    && changes.Some? && changes.value != map[]
    && Overwrite(meta, meta.columns, row.cells, Prepared(meta, e, changes.value, now).1).Some?
    && !fault.Refused?
    && (meta.versioned ==> OldVersion(e) == row.version)
  }

  function Steps(meta: Meta, read: Reader, run: Run, ops: seq<Op>): Run
    decreases |ops|
  {
    if ops == [] then run
    else Step(meta, read, Steps(meta, read, run, ops[..|ops| - 1]), ops[|ops| - 1])
  }

  lemma StepsUnfold(meta: Meta, read: Reader, run: Run, ops: seq<Op>, op: Op)
    ensures Steps(meta, read, run, ops + [op]) == Step(meta, read, Steps(meta, read, run, ops), op)
    ensures Steps(meta, read, run, []) == run
  {
    assert (ops + [op])[..|ops|] == ops;
    hide Step;
  }

  /** Operations happen one after the other. */
  lemma {:induction false} StepsChain(meta: Meta, read: Reader, run: Run, first: seq<Op>, then_: seq<Op>)
    ensures Steps(meta, read, run, first + then_) == Steps(meta, read, Steps(meta, read, run, first), then_)
    decreases |then_|
  {
    hide *;
    if then_ == [] {
      assert first + then_ == first;
      StepsUnfold(meta, read, Steps(meta, read, run, first), [], Hydrate(0, {}, false));
    } else {
      var n, op := |then_| - 1, then_[|then_| - 1];
      StepsChain(meta, read, run, first, then_[..n]);
      StepsUnfold(meta, read, run, first + then_[..n], op);
      StepsUnfold(meta, read, Steps(meta, read, run, first), then_[..n], op);
      assert first + then_ == first + then_[..n] + [op] && then_ == then_[..n] + [op];
    }
  }

  function Start(row: Row): Run {
    Run(row, map[], [])
  }

  /** The row's content number i of a run: past contents, then the present one. */
  function Content(run: Run, i: nat): Cells
    requires i <= |run.history|
  {
    if i < |run.history| then run.history[i] else run.row.cells
  }

  /** A value read from a cell, or encoded into it, or one `equalValue` does not tell from those. */
  ghost predicate Tied(meta: Meta, read: Reader, c: Column, u: Value, cell: Stored) {
    exists v ::
      && (u == v || EqualValue(u, Clone(v), meta.rt.iso) == Same)
      && (v == read(c.name, cell) || Encode(c.kind, v, meta.dialect, meta.rt) == Some(cell))
  }

  /** A snapshot value that stands for a stored cell: a copy of a value tied to it. */
  ghost predicate Reflects(meta: Meta, read: Reader, c: Column, snapshot: Value, cell: Stored) {
    exists u :: snapshot == Clone(u) && Tied(meta, read, c, u, cell)
  }

  ghost predicate SnapshotOf(meta: Meta, read: Reader, e: Entity, cells: Cells) {
    forall c <- meta.columns :: Compared(c) && Get(e.original, c.name) != Undefined ==>
      c.name in cells && Reflects(meta, read, c, e.original[c.name], cells[c.name])
  }

  ghost predicate Settled(meta: Meta, read: Reader, run: Run, v0: int, h: Holder) {
    && h.basis <= |run.history|
    && (h.entity.originalVersion.Some? ==> h.entity.originalVersion.value == v0 + h.basis)
    && SnapshotOf(meta, read, h.entity, Content(run, h.basis))
  }

  /** What every step of every run keeps, for a row created at version `v0`. */
  ghost predicate Consistent(meta: Meta, read: Reader, run: Run, v0: int) {
    && run.row.version == v0 + |run.history|
    && forall id <- run.holders :: Settled(meta, read, run, v0, run.holders[id])
  }

  // ---------- What changes holds ----------

  /** What the comparison says of a column that takes part in it. */
  predicate Compares(meta: Meta, e: Entity, c: Column, verdict: Verdict) {
    Compared(c) && EqualValue(Get(e.values, c.name), Get(e.original, c.name), meta.rt.iso) == verdict
  }

  /** The changes are exactly the compared columns whose value differs from the snapshot. */
  lemma {:induction false} ChangesAre(meta: Meta, columns: seq<Column>, e: Entity)
    requires forall i, j :: 0 <= i < j < |columns| ==> columns[i].name != columns[j].name
    ensures var changes := Changes(meta, columns, e);
            changes.Some? ==> ChangesFit(meta, columns, e, changes.value)
    decreases |columns|
  {
    if columns != [] {
      var init, last := columns[..|columns| - 1], columns[|columns| - 1];
      LastIsNew(columns);
      ChangesAre(meta, init, e);
      ChangesUnfold(meta, columns, e);
      hide *;
      var rest := Changes(meta, init, e);
      if rest.Some? && !Compares(meta, e, last, Throws) {
        ChangesExtend(meta, init, last, e, rest.value);
      }
    }
  }

  lemma LastIsNew(columns: seq<Column>)
    requires columns != [] && forall i, j :: 0 <= i < j < |columns| ==> columns[i].name != columns[j].name
    ensures var init, last := columns[..|columns| - 1], columns[|columns| - 1];
            columns == init + [last] && forall d <- init :: d.name != last.name
  {
    var init, last := columns[..|columns| - 1], columns[|columns| - 1];
    forall d <- init ensures d.name != last.name {
      var j :| 0 <= j < |init| && init[j] == d;
      assert columns[j] == d;
    }
  }

  lemma ChangesUnfold(meta: Meta, columns: seq<Column>, e: Entity)
    requires columns != []
    ensures var rest, last := Changes(meta, columns[..|columns| - 1], e), columns[|columns| - 1];
            Changes(meta, columns, e)
            == if rest.None? || Compares(meta, e, last, Throws) then None
               else if Compares(meta, e, last, Different) then Some(rest.value[last.name := Get(e.values, last.name)])
               else rest
  {
    hide EqualValue, Get;
  }

  predicate ChangesFit(meta: Meta, columns: seq<Column>, e: Entity, changes: Props) {
    && (forall c <- columns :: c.name in changes <==> Compares(meta, e, c, Different))
    && (forall c <- columns :: !Compares(meta, e, c, Throws))
    && (forall name <- changes ::
          changes[name] == Get(e.values, name) && exists c <- columns :: c.name == name && Compared(c))
  }

  lemma ChangesExtend(meta: Meta, init: seq<Column>, last: Column, e: Entity, rest: Props)
    requires ChangesFit(meta, init, e, rest) && forall d <- init :: d.name != last.name
    requires !Compares(meta, e, last, Throws)
    ensures var changes := if Compares(meta, e, last, Different) then rest[last.name := Get(e.values, last.name)]
            else rest;
            ChangesFit(meta, init + [last], e, changes)
  {
    hide Compares, Get;
    var changes := if Compares(meta, e, last, Different) then rest[last.name := Get(e.values, last.name)] else rest;
    DifferentIsCompared(meta, e, last);
    forall name <- changes
      ensures changes[name] == Get(e.values, name) && exists c <- init + [last] :: c.name == name && Compared(c)
    {
      if name in rest && name != last.name {
        var c :| c in init && c.name == name && Compared(c);
        assert c in init + [last];
      } else {
        assert last in init + [last];
      }
    }
    assert last.name !in rest;
  }

  lemma DifferentIsCompared(meta: Meta, e: Entity, c: Column)
    ensures Compares(meta, e, c, Different) ==> Compared(c)
  {
  }

  lemma {:induction false} OverwriteAt(meta: Meta, columns: seq<Column>, cells: Cells, changes: Props, c: Column)
    requires Overwrite(meta, columns, cells, changes).Some?
    requires forall i, j :: 0 <= i < j < |columns| ==> columns[i].name != columns[j].name
    ensures var now := Overwrite(meta, columns, cells, changes).value;
            if c in columns && c.name in changes
            then c.name in now && Some(now[c.name]) == Encode(c.kind, changes[c.name], meta.dialect, meta.rt)
            else (forall d <- columns :: d.name != c.name) || c.name !in changes ==>
              Lookup(now, c.name) == Lookup(cells, c.name)
    decreases |columns|
  {
    if columns != [] {
      var init, last := columns[..|columns| - 1], columns[|columns| - 1];
      OverwriteAt(meta, init, cells, changes, c);
      assert columns == init + [last];
      assert forall i :: 0 <= i < |init| ==> init[i] == columns[i] && init[i].name != last.name;
      assert last in columns;
    }
  }

  function Lookup(cells: Cells, name: string): Option<Stored> {
    if name in cells then Some(cells[name]) else None
  }

  /** A write touches no compared column but the changed ones, and stores their encoding. */
  lemma WrittenCells(meta: Meta, e: Entity, row: Row, now: Value, fault: Transactions.Fault, c: Column)
    requires DistinctNames(meta) && c in meta.columns && Compared(c)
    requires Wrote(meta, e, row, now, fault)
    ensures Lookup(Saved(meta, e, row, now, fault).1.cells, c.name) == ExpectedCell(meta, e, row, c)
    ensures EqualValue(Get(e.values, c.name), Get(e.original, c.name), meta.rt.iso) != Throws
    ensures EqualValue(Get(e.values, c.name), Get(e.original, c.name), meta.rt.iso) == Different ==>
            ExpectedCell(meta, e, row, c).Some?
  {
    WrittenAt(meta, e, row, now, fault, c);
    ChangesAre(meta, meta.columns, e);
    hide Saved, Wrote, Changes;
  }

  /** The UPDATE's cells at a compared column. */
  lemma WrittenAt(meta: Meta, e: Entity, row: Row, now: Value, fault: Transactions.Fault, c: Column)
    requires DistinctNames(meta) && c in meta.columns && Compared(c)
    requires Wrote(meta, e, row, now, fault)
    ensures var changes := Changes(meta, meta.columns, e);
            && changes.Some?
            && Lookup(Saved(meta, e, row, now, fault).1.cells, c.name)
               == (if c.name in changes.value then Encode(c.kind, changes.value[c.name], meta.dialect, meta.rt)
                   else Lookup(row.cells, c.name))
            && (c.name in changes.value ==> Encode(c.kind, changes.value[c.name], meta.dialect, meta.rt).Some?)
  {
    var changes := Changes(meta, meta.columns, e).value;
    var written := Prepared(meta, e, changes, now).1;
    UpdateDateIsNot(meta, c);
    OverwriteAt(meta, meta.columns, row.cells, written, c);
    hide Changes, Overwrite, Encode;
  }

  /** What a write leaves in a compared column: the encoded value if it changed, else what was there. */
  function ExpectedCell(meta: Meta, e: Entity, row: Row, c: Column): Option<Stored> {
    if EqualValue(Get(e.values, c.name), Get(e.original, c.name), meta.rt.iso) == Same then Lookup(row.cells, c.name)
    else Encode(c.kind, Get(e.values, c.name), meta.dialect, meta.rt)
  }

  lemma UpdateDateIsNot(meta: Meta, c: Column)
    requires DistinctNames(meta) && c in meta.columns && Compared(c)
    ensures var i := UpdateDate(meta.columns); i < |meta.columns| ==> meta.columns[i].name != c.name
  {
    var j :| 0 <= j < |meta.columns| && meta.columns[j] == c;
    var i := UpdateDate(meta.columns);
    if i < |meta.columns| && i != j {
      assert meta.columns[i].name != meta.columns[j].name;
    }
  }

  // ---------- What every run keeps ----------

  lemma LoadedSnapshot(meta: Meta, row: Row, read: Reader, loaded: set<string>, withVersion: bool)
    ensures SnapshotOf(meta, read, Load(meta, row, read, loaded, withVersion), row.cells)
  {
    var e := Load(meta, row, read, loaded, withVersion);
    forall c <- meta.columns | Compared(c) && Get(e.original, c.name) != Undefined
      ensures c.name in row.cells && Reflects(meta, read, c, e.original[c.name], row.cells[c.name])
    {
      var v := read(c.name, row.cells[c.name]);
      assert e.original[c.name] == Clone(v) && v == read(c.name, row.cells[c.name]);
    }
  }

  /** After a write, the refreshed snapshot stands for the new content of the row. */
  lemma SavedSnapshot(meta: Meta, read: Reader, e: Entity, row: Row, now: Value, fault: Transactions.Fault)
    requires DistinctNames(meta) && SnapshotOf(meta, read, e, row.cells)
    requires Saved(meta, e, row, now, fault).2.Written?
    ensures SnapshotOf(meta, read, Saved(meta, e, row, now, fault).0, Saved(meta, e, row, now, fault).1.cells)
  {
    var (e', row', _) := Saved(meta, e, row, now, fault);
    forall c <- meta.columns | Compared(c) && Get(e'.original, c.name) != Undefined
      ensures c.name in row'.cells && Reflects(meta, read, c, e'.original[c.name], row'.cells[c.name])
    {
      SavedCell(meta, read, e, row, now, fault, c);
    }
  }

  lemma SavedCell(meta: Meta, read: Reader, e: Entity, row: Row, now: Value, fault: Transactions.Fault, c: Column)
    requires DistinctNames(meta) && SnapshotOf(meta, read, e, row.cells) && c in meta.columns && Compared(c)
    requires Saved(meta, e, row, now, fault).2.Written?
    requires Get(Saved(meta, e, row, now, fault).0.original, c.name) != Undefined
    ensures var (e', row', _) := Saved(meta, e, row, now, fault);
            c.name in row'.cells && Reflects(meta, read, c, e'.original[c.name], row'.cells[c.name])
  {
    var (e', row', _) := Saved(meta, e, row, now, fault);
    WrittenCells(meta, e, row, now, fault, c);
    RefreshedAt(meta, e, row, now, fault, c);
    CellOnward(meta, read, e, c, row, row'.cells);
  }

  /** `now` is the content after a write of `e` to `row`, at column `c`. */
  lemma CellOnward(meta: Meta, read: Reader, e: Entity, c: Column, row: Row, now: Cells)
    requires SnapshotOf(meta, read, e, row.cells) && c in meta.columns && Compared(c)
    requires Get(e.values, c.name) != Undefined
    requires Lookup(now, c.name) == ExpectedCell(meta, e, row, c)
    requires EqualValue(Get(e.values, c.name), Get(e.original, c.name), meta.rt.iso) != Same ==> c.name in now
    ensures c.name in now && Reflects(meta, read, c, Clone(Get(e.values, c.name)), now[c.name])
  {
    var value, snapshot := Get(e.values, c.name), Get(e.original, c.name);
    if EqualValue(value, snapshot, meta.rt.iso) == Same {
      ReflectsOnward(meta, read, c, value, snapshot, row.cells[c.name]);
    } else {
      assert Tied(meta, read, c, value, now[c.name]);
    }
  }

  lemma RefreshedAt(meta: Meta, e: Entity, row: Row, now: Value, fault: Transactions.Fault, c: Column)
    requires DistinctNames(meta) && c in meta.columns && Compared(c)
    requires Saved(meta, e, row, now, fault).2.Written?
    ensures var e' := Saved(meta, e, row, now, fault).0;
            && c.name in e'.original && e'.original[c.name] == Clone(Get(e.values, c.name))
            && Get(e'.values, c.name) == Get(e.values, c.name)
  {
    var e1 := Prepared(meta, e, Changes(meta, meta.columns, e).value, now).0;
    assert Get(e1.values, c.name) == Get(e.values, c.name) by {
      UpdateDateIsNot(meta, c);
    }
    RefreshedGet(meta.columns, e1.values, c);
  }

  lemma {:induction false} RefreshedGet(columns: seq<Column>, values: Props, c: Column)
    requires c in columns
    ensures c.name in Refreshed(columns, values) && Refreshed(columns, values)[c.name] == Clone(Get(values, c.name))
    decreases |columns|
  {
    if columns[|columns| - 1].name != c.name {
      assert columns == columns[..|columns| - 1] + [columns[|columns| - 1]];
      RefreshedGet(columns[..|columns| - 1], values, c);
    }
  }

  lemma ReflectsOnward(meta: Meta, read: Reader, c: Column, value: Value, snapshot: Value, cell: Stored)
    requires EqualValue(value, snapshot, meta.rt.iso) == Same && Reflects(meta, read, c, snapshot, cell)
    ensures Reflects(meta, read, c, Clone(value), cell)
  {
    var u :| snapshot == Clone(u) && Tied(meta, read, c, u, cell);
    TiedOnward(meta, read, c, value, u, cell);
  }

  lemma TiedOnward(meta: Meta, read: Reader, c: Column, value: Value, u: Value, cell: Stored)
    requires EqualValue(value, Clone(u), meta.rt.iso) == Same && Tied(meta, read, c, u, cell)
    ensures Tied(meta, read, c, value, cell)
  {
    var v :|
      && (u == v || EqualValue(u, Clone(v), meta.rt.iso) == Same)
      && (v == read(c.name, cell) || Encode(c.kind, v, meta.dialect, meta.rt) == Some(cell));
    if u != v {
      SameThroughSnapshots(value, u, v, meta.rt.iso);
    }
  }

  lemma StepKeeps(meta: Meta, read: Reader, run: Run, op: Op, v0: int)
    requires meta.versioned && DistinctNames(meta) && v0 >= 1
    requires Consistent(meta, read, run, v0)
    ensures Consistent(meta, read, Step(meta, read, run, op), v0)
  {
    var next := Step(meta, read, run, op);
    StepCounts(meta, read, run, op, v0);
    forall id <- next.holders ensures Settled(meta, read, next, v0, next.holders[id]) {
      if id != op.id {
        OthersSettled(meta, read, run, op, v0, id);
      } else if op.Hydrate? {
        LoadedSnapshot(meta, run.row, read, op.loaded, op.withVersion);
      } else if op.SaveOp? {
        SaveSettles(meta, read, run, op, v0);
      } else {
        EditSettles(meta, read, run, op, v0);
      }
    }
  }

  lemma StepCounts(meta: Meta, read: Reader, run: Run, op: Op, v0: int)
    requires meta.versioned && run.row.version == v0 + |run.history|
    ensures var next := Step(meta, read, run, op);
            next.row.version == v0 + |next.history| && |next.history| >= |run.history|
            && (forall i | 0 <= i <= |run.history| :: Content(next, i) == Content(run, i))
  {
  }

  lemma OthersSettled(meta: Meta, read: Reader, run: Run, op: Op, v0: int, id: nat)
    requires meta.versioned && run.row.version == v0 + |run.history|
    requires id in run.holders && id != op.id && Settled(meta, read, run, v0, run.holders[id])
    ensures var next := Step(meta, read, run, op);
            id in next.holders && Settled(meta, read, next, v0, next.holders[id])
  {
    StepCounts(meta, read, run, op, v0);
    assert Content(Step(meta, read, run, op), run.holders[id].basis) == Content(run, run.holders[id].basis);
  }

  lemma EditSettles(meta: Meta, read: Reader, run: Run, op: Op, v0: int)
    requires op.Edit? && op.id in run.holders && Settled(meta, read, run, v0, run.holders[op.id])
    ensures Settled(meta, read, Step(meta, read, run, op), v0, Step(meta, read, run, op).holders[op.id])
  {
    var h := Step(meta, read, run, op).holders[op.id];
    assert h.entity.original == run.holders[op.id].entity.original;
    assert Content(Step(meta, read, run, op), h.basis) == Content(run, h.basis);
  }

  lemma SaveSettles(meta: Meta, read: Reader, run: Run, op: Op, v0: int)
    requires meta.versioned && DistinctNames(meta) && v0 >= 1
    requires run.row.version == v0 + |run.history|
    requires op.SaveOp? && op.id in run.holders && Settled(meta, read, run, v0, run.holders[op.id])
    ensures Settled(meta, read, Step(meta, read, run, op), v0, Step(meta, read, run, op).holders[op.id])
  {
    var h, next := run.holders[op.id], Step(meta, read, run, op);
    StepCounts(meta, read, run, op, v0);
    if Saved(meta, h.entity, run.row, op.now, op.fault).2.Written? {
      SavedVersion(meta, h.entity, run.row, op.now, op.fault);
      assert Content(run, h.basis) == run.row.cells;
      SavedSnapshot(meta, read, h.entity, run.row, op.now, op.fault);
    } else {
      UnsavedState(meta, h.entity, run.row, op.now, op.fault);
      assert Content(next, h.basis) == Content(run, h.basis);
    }
  }

  lemma SavedVersion(meta: Meta, e: Entity, row: Row, now: Value, fault: Transactions.Fault)
    requires meta.versioned && Saved(meta, e, row, now, fault).2.Written?
    ensures OldVersion(e) == row.version
    ensures Saved(meta, e, row, now, fault).0.originalVersion == Some(row.version + 1)
    ensures Saved(meta, e, row, now, fault).1.version == row.version + 1
    ensures Wrote(meta, e, row, now, fault)
  {
  }

  lemma UnsavedState(meta: Meta, e: Entity, row: Row, now: Value, fault: Transactions.Fault)
    requires !Saved(meta, e, row, now, fault).2.Written?
    ensures var e' := Saved(meta, e, row, now, fault).0;
            e'.original == e.original && e'.originalVersion == e.originalVersion
  {
  }

  /** Over any interleaving of hydrates, edits and saves: the stored version is the first version plus
      the number of updates that changed the row, and every snapshot stands for the row's content at
      the version it carries. */
  lemma {:induction false} RunsKeep(meta: Meta, read: Reader, row: Row, ops: seq<Op>)
    requires meta.versioned && DistinctNames(meta) && row.version >= 1
    ensures Consistent(meta, read, Steps(meta, read, Start(row), ops), row.version)
    decreases |ops|
  {
    if ops != [] {
      RunsKeep(meta, read, row, ops[..|ops| - 1]);
      StepKeeps(meta, read, Steps(meta, read, Start(row), ops[..|ops| - 1]), ops[|ops| - 1], row.version);
    }
  }

  /** No update is lost: a save that goes through was based on the row's present content; each compared
      column is either left as it is or set to the encoded value of a real change. */
  lemma WinnerHadLatest(meta: Meta, read: Reader, run: Run, v0: int, id: nat, now: Value, c: Column)
    requires meta.versioned && DistinctNames(meta) && v0 >= 1 && Consistent(meta, read, run, v0)
    requires id in run.holders && Saved(meta, run.holders[id].entity, run.row, now, Transactions.Fine).2.Written?
    requires c in meta.columns && Compared(c)
    ensures var Holder(e, basis) := run.holders[id];
            var row' := Saved(meta, e, run.row, now, Transactions.Fine).1;
            && basis == |run.history| && SnapshotOf(meta, read, e, run.row.cells)
            && row'.version == run.row.version + 1
            && Lookup(row'.cells, c.name) == ExpectedCell(meta, e, run.row, c)
  {
    var h := run.holders[id];
    assert Settled(meta, read, run, v0, h);
    SavedVersion(meta, h.entity, run.row, now, Transactions.Fine);
    WrittenCells(meta, h.entity, run.row, now, Transactions.Fine, c);
  }

  /** A save from a snapshot that is no longer the latest writes nothing and does not return normally
      unless it has nothing to write; the snapshot stays as stale as it was. */
  lemma StaleNeverWrites(meta: Meta, read: Reader, run: Run, v0: int, id: nat, now: Value, fault: Transactions.Fault)
    requires meta.versioned && v0 >= 1 && Consistent(meta, read, run, v0)
    requires id in run.holders && run.holders[id].basis < |run.history|
    ensures var e := run.holders[id].entity;
            var (e', row', outcome) := Saved(meta, e, run.row, now, fault);
            && row' == run.row && !outcome.Written?
            && (outcome.Unchanged? <==> Changes(meta, meta.columns, e) == Some(map[]))
            && e'.original == e.original && e'.originalVersion == e.originalVersion
  {
    var e := run.holders[id].entity;
    assert Settled(meta, read, run, v0, run.holders[id]);
    assert OldVersion(e) != run.row.version;
    StaleSave(meta, e, run.row, now, fault);
    UnsavedState(meta, e, run.row, now, fault);
    UnchangedMeansNoChanges(meta, e, run.row, now, fault);
  }

  lemma StaleSave(meta: Meta, e: Entity, row: Row, now: Value, fault: Transactions.Fault)
    requires meta.versioned && OldVersion(e) != row.version
    ensures Saved(meta, e, row, now, fault).1 == row && !Saved(meta, e, row, now, fault).2.Written?
  {
  }

  /** Staleness lasts until the entity is read again: neither other entities' steps nor its own edits and
      saves, failed or repeated, bring it back. */
  lemma {:induction false} StaleStays(meta: Meta, read: Reader, run: Run, v0: int, id: nat, ops: seq<Op>)
    requires meta.versioned && DistinctNames(meta) && v0 >= 1 && Consistent(meta, read, run, v0)
    requires id in run.holders && run.holders[id].basis < |run.history|
    requires forall op <- ops :: op.Hydrate? ==> op.id != id
    ensures var later := Steps(meta, read, run, ops);
            && Consistent(meta, read, later, v0)
            && id in later.holders && later.holders[id].basis == run.holders[id].basis < |later.history|
    decreases |ops|
  {
    if ops != [] {
      var init, op := ops[..|ops| - 1], ops[|ops| - 1];
      StaleStays(meta, read, run, v0, id, init);
      var later := Steps(meta, read, run, init);
      StepKeeps(meta, read, later, op, v0);
      StepCounts(meta, read, later, op, v0);
      assert op in ops;
      if op.SaveOp? && op.id == id {
        StaleNeverWrites(meta, read, later, v0, id, op.now, op.fault);
      }
    }
  }

  // ---------- When a save writes ----------

  /** Detection fails exactly when a comparison throws. */
  lemma {:induction false} DetectionFailsExactly(meta: Meta, columns: seq<Column>, e: Entity)
    ensures Changes(meta, columns, e).None? <==> exists c <- columns :: Compares(meta, e, c, Throws)
    decreases |columns|
  {
    if columns != [] {
      var init, last := columns[..|columns| - 1], columns[|columns| - 1];
      DetectionFailsExactly(meta, init, e);
      assert columns == init + [last] && last in columns;
      hide EqualValue;
      if Changes(meta, init, e).None? {
        var c :| c in init && Compares(meta, e, c, Throws);
        assert c in columns;
      }
    }
  }

  lemma SomethingChanged(meta: Meta, e: Entity)
    requires DistinctNames(meta) && Changes(meta, meta.columns, e).Some?
    ensures Changes(meta, meta.columns, e).value != map[] <==>
            exists c <- meta.columns :: Compares(meta, e, c, Different)
  {
    ChangesAre(meta, meta.columns, e);
    var changes := Changes(meta, meta.columns, e).value;
    if changes != map[] {
      assert changes.Keys != {};
      var name :| name in changes;
      var c :| c in meta.columns && c.name == name && Compared(c);
      assert Compares(meta, e, c, Different);
    }
  }

  /** An update can be stated exactly when every value in it encodes. */
  lemma {:induction false} OverwriteExactly(meta: Meta, columns: seq<Column>, cells: Cells, changes: Props)
    ensures Overwrite(meta, columns, cells, changes).Some? <==>
            forall c <- columns :: c.name in changes ==> Encode(c.kind, changes[c.name], meta.dialect, meta.rt).Some?
    decreases |columns|
  {
    if columns != [] {
      var init, last := columns[..|columns| - 1], columns[|columns| - 1];
      OverwriteExactly(meta, init, cells, changes);
      assert columns == init + [last];
    }
  }

  /** Every changed value and the new update date can be stored. */
  predicate Encodable(meta: Meta, e: Entity, now: Value) {
    && (forall c <- meta.columns | Compares(meta, e, c, Different) ::
          Encode(c.kind, Get(e.values, c.name), meta.dialect, meta.rt).Some?)
    && var i := UpdateDate(meta.columns);
       i < |meta.columns| ==> Encode(meta.columns[i].kind, now, meta.dialect, meta.rt).Some?
  }

  /** What an UPDATE of this entity holds for a column. */
  lemma WrittenIs(meta: Meta, e: Entity, now: Value, c: Column)
    requires DistinctNames(meta) && Changes(meta, meta.columns, e).Some? && c in meta.columns
    ensures var written := Prepared(meta, e, Changes(meta, meta.columns, e).value, now).1;
            && (c.name in written <==> DateColumn(meta, c) || Compares(meta, e, c, Different))
            && (c.name in written ==> written[c.name] == if DateColumn(meta, c) then now else Get(e.values, c.name))
  {
    ChangesAre(meta, meta.columns, e);
    DateName(meta, c);
    hide Changes, Compares, Get;
  }

  lemma EncodableExactly(meta: Meta, e: Entity, now: Value, cells: Cells)
    requires DistinctNames(meta) && Changes(meta, meta.columns, e).Some?
    ensures var written := Prepared(meta, e, Changes(meta, meta.columns, e).value, now).1;
            Overwrite(meta, meta.columns, cells, written).Some? <==> Encodable(meta, e, now)
  {
    var written := Prepared(meta, e, Changes(meta, meta.columns, e).value, now).1;
    OverwriteExactly(meta, meta.columns, cells, written);
    forall c <- meta.columns
      ensures c.name in written <==> DateColumn(meta, c) || Compares(meta, e, c, Different)
      ensures c.name in written ==> written[c.name] == if DateColumn(meta, c) then now else Get(e.values, c.name)
      ensures DateColumn(meta, c) ==> !Compares(meta, e, c, Different)
    {
      WrittenIs(meta, e, now, c);
      DateName(meta, c);
    }
    hide Changes, Overwrite, Encode, Compares, Get, Prepared;
    var i := UpdateDate(meta.columns);
    if i < |meta.columns| {
      assert meta.columns[i] in meta.columns && DateColumn(meta, meta.columns[i]);
    }
  }

  predicate DateColumn(meta: Meta, c: Column) {
    var i := UpdateDate(meta.columns);
    i < |meta.columns| && meta.columns[i] == c
  }

  lemma DateName(meta: Meta, c: Column)
    requires DistinctNames(meta) && c in meta.columns
    ensures var i := UpdateDate(meta.columns);
            i < |meta.columns| ==> (meta.columns[i].name == c.name <==> DateColumn(meta, c))
    ensures DateColumn(meta, c) ==> !Compared(c)
  {
    var j :| 0 <= j < |meta.columns| && meta.columns[j] == c;
    var i := UpdateDate(meta.columns);
    if i < j {
      assert meta.columns[i].name != meta.columns[j].name;
    } else if j < i < |meta.columns| {
      assert meta.columns[j].name != meta.columns[i].name;
    }
  }

  /** The entity's snapshot is of the row's version, 1 standing for a version that was not loaded. */
  predicate UpToDate(meta: Meta, e: Entity, row: Row) {
    meta.versioned ==> row.version == if e.originalVersion.Some? then e.originalVersion.value else 1
  }

  /** The outcome of every save, by what the comparisons say, what encodes, the row and the driver: on a
      healthy driver an edited, up-to-date entity is written. */
  lemma OutcomeExactly(meta: Meta, e: Entity, row: Row, now: Value, fault: Transactions.Fault)
    requires DistinctNames(meta)
    ensures Saved(meta, e, row, now, fault).2
            == if exists c <- meta.columns :: Compares(meta, e, c, Throws) then Failed
               else if !exists c <- meta.columns :: Compares(meta, e, c, Different) then Unchanged
               else if !Encodable(meta, e, now) || !fault.Fine? then Failed
               else if UpToDate(meta, e, row) then Written else StaleRow
  {
    DetectionFailsExactly(meta, meta.columns, e);
    if Changes(meta, meta.columns, e).Some? {
      SomethingChanged(meta, e);
      EncodableExactly(meta, e, now, row.cells);
    }
    hide Changes, Overwrite, Encodable, Compares;
  }

  /** A write also stores and sets the update date, and counts the version up. */
  lemma WrittenDateAndVersion(meta: Meta, e: Entity, row: Row, now: Value, fault: Transactions.Fault, c: Column)
    requires DistinctNames(meta) && c in meta.columns && DateColumn(meta, c)
    requires Saved(meta, e, row, now, fault).2.Written?
    ensures var (e', row', _) := Saved(meta, e, row, now, fault);
            && Lookup(row'.cells, c.name) == Encode(c.kind, now, meta.dialect, meta.rt) && Get(e'.values, c.name) == now
            && row'.version == (if meta.versioned then row.version + 1 else row.version)
            && (meta.versioned ==> e'.version == e'.originalVersion == Some(row'.version))
  {
    var written := Prepared(meta, e, Changes(meta, meta.columns, e).value, now).1;
    OverwriteAt(meta, meta.columns, row.cells, written, c);
    hide Changes, Overwrite, Encode;
  }

  /** The first column marked for the update date and for updates is the one that gets it. */
  ghost predicate TakesDate(meta: Meta, c: Column) {
    exists i :: 0 <= i < |meta.columns| && meta.columns[i] == c && c.updateDate && c.update
                && forall j :: 0 <= j < i ==> !(meta.columns[j].updateDate && meta.columns[j].update)
  }

  /** A written save stores every edited column that may be updated, and no other: primary keys and columns not
      for updates keep their cells. */
  lemma WrittenExactly(meta: Meta, e: Entity, row: Row, now: Value, fault: Transactions.Fault, c: Column)
    requires DistinctNames(meta) && c in meta.columns
    requires Saved(meta, e, row, now, fault).2.Written?
    ensures var edited := c.update && !c.primary && !c.updateDate
                          && EqualValue(Get(e.values, c.name), Get(e.original, c.name), meta.rt.iso) != Same;
            Lookup(Saved(meta, e, row, now, fault).1.cells, c.name)
            == if edited then Encode(c.kind, Get(e.values, c.name), meta.dialect, meta.rt)
               else if TakesDate(meta, c) then Encode(c.kind, now, meta.dialect, meta.rt)
               else Lookup(row.cells, c.name)
  {
    var written := Prepared(meta, e, Changes(meta, meta.columns, e).value, now).1;
    OverwriteAt(meta, meta.columns, row.cells, written, c);
    WrittenIs(meta, e, now, c);
    DetectionFailsExactly(meta, meta.columns, e);
    DateExactly(meta, c);
    hide Changes, Overwrite, Encode, EqualValue, Get, DateColumn, TakesDate, DistinctNames, Prepared;
    assert !Compares(meta, e, c, Throws);
  }

  lemma DateExactly(meta: Meta, c: Column)
    requires DistinctNames(meta) && c in meta.columns
    ensures DateColumn(meta, c) <==> TakesDate(meta, c)
  {
    var i := UpdateDate(meta.columns);
    if TakesDate(meta, c) {
      var j :| 0 <= j < |meta.columns| && meta.columns[j] == c && c.updateDate && c.update
               && forall k :: 0 <= k < j ==> !(meta.columns[k].updateDate && meta.columns[k].update);
      assert i == j;
    }
  }

  /** What was saved is what is loaded, where the stored form reads back as the value. */
  lemma LoadedAfterSave(meta: Meta, read: Reader, e: Entity, row: Row, now: Value, fault: Transactions.Fault, c: Column,
                        loaded: set<string>, withVersion: bool)
    requires DistinctNames(meta) && c in meta.columns && Compares(meta, e, c, Different) && c.name in loaded
    requires Saved(meta, e, row, now, fault).2.Written?
    requires var stored := Encode(c.kind, Get(e.values, c.name), meta.dialect, meta.rt);
             stored.Some? ==> read(c.name, stored.value) == Get(e.values, c.name)
    ensures var row' := Saved(meta, e, row, now, fault).1;
            var again := Load(meta, row', read, loaded, withVersion);
            && Get(again.values, c.name) == Get(e.values, c.name)
            && Get(again.original, c.name) == Clone(Get(e.values, c.name))
            && (withVersion ==> again.version == again.originalVersion == Some(row'.version))
  {
    WrittenCells(meta, e, row, now, fault, c);
    hide Saved, Encode, EqualValue, Clone;
    LoadedAt(meta, Saved(meta, e, row, now, fault).1, read, c, loaded, withVersion);
  }

  /** A loaded column has the row's value, any other is unassigned. */
  lemma LoadedAt(meta: Meta, row: Row, read: Reader, c: Column, loaded: set<string>, withVersion: bool)
    requires c in meta.columns
    ensures var e := Load(meta, row, read, loaded, withVersion);
            if c.name in loaded && c.name in row.cells then
              Get(e.values, c.name) == read(c.name, row.cells[c.name])
              && Get(e.original, c.name) == Clone(read(c.name, row.cells[c.name]))
            else Unassigned(e, c)
  {
    var e := Load(meta, row, read, loaded, withVersion);
    assert c.name in e.values;
  }

  // ---------- Nothing to write ----------

  lemma {:induction false} NoChanges(meta: Meta, columns: seq<Column>, e: Entity)
    requires forall c <- columns :: Compared(c) ==>
             EqualValue(Get(e.values, c.name), Get(e.original, c.name), meta.rt.iso) == Same
    ensures Changes(meta, columns, e) == Some(map[])
    decreases |columns|
  {
    if columns != [] {
      assert columns[|columns| - 1] in columns;
      NoChanges(meta, columns[..|columns| - 1], e);
    }
  }

  /** A value its own snapshot compares equal to. */
  predicate SelfEqual(v: Value) {
    !(v.Date? && v.time.None?) && (IsObject(v) ==> Serializable(v))
  }

  ghost predicate CopiedSnapshot(meta: Meta, e: Entity) {
    forall c <- meta.columns :: Compared(c) ==> Get(e.original, c.name) == Clone(Get(e.values, c.name))
  }

  /** An unedited entity issues no UPDATE exactly when it holds no invalid date at the top of a compared
      column and no bigint inside an object there. */
  lemma QuietExactly(meta: Meta, e: Entity, row: Row, now: Value, fault: Transactions.Fault)
    requires DistinctNames(meta) && CopiedSnapshot(meta, e)
    ensures Saved(meta, e, row, now, fault).2.Unchanged?
            <==> forall c <- meta.columns :: Compared(c) ==> SelfEqual(Get(e.values, c.name))
  {
    forall c <- meta.columns | Compared(c)
      ensures EqualValue(Get(e.values, c.name), Get(e.original, c.name), meta.rt.iso) == Same
              <==> SelfEqual(Get(e.values, c.name))
    {
      CloneIsEqual(Get(e.values, c.name), meta.rt.iso);
    }
    NoChangesExactly(meta, e);
    UnchangedMeansNoChanges(meta, e, row, now, fault);
  }

  lemma NoChangesExactly(meta: Meta, e: Entity)
    requires DistinctNames(meta)
    ensures Changes(meta, meta.columns, e) == Some(map[])
            <==> forall c <- meta.columns ::
                   Compared(c) ==> EqualValue(Get(e.values, c.name), Get(e.original, c.name), meta.rt.iso) == Same
  {
    if forall c <- meta.columns ::
      Compared(c) ==> EqualValue(Get(e.values, c.name), Get(e.original, c.name), meta.rt.iso) == Same
    {
      NoChanges(meta, meta.columns, e);
    } else {
      ChangesAre(meta, meta.columns, e);
    }
  }

  lemma UnchangedMeansNoChanges(meta: Meta, e: Entity, row: Row, now: Value, fault: Transactions.Fault)
    ensures Saved(meta, e, row, now, fault).2.Unchanged? <==> Changes(meta, meta.columns, e) == Some(map[])
    ensures Saved(meta, e, row, now, fault).2.Unchanged? ==> Saved(meta, e, row, now, fault) == (e, row, Unchanged)
  {
  }

  /** Entities are in that state right after being loaded and right after being saved. */
  lemma CopiedAfterLoad(meta: Meta, row: Row, read: Reader, loaded: set<string>, withVersion: bool)
    ensures CopiedSnapshot(meta, Load(meta, row, read, loaded, withVersion))
  {
    var e := Load(meta, row, read, loaded, withVersion);
    forall c <- meta.columns | Compared(c) ensures Get(e.original, c.name) == Clone(Get(e.values, c.name)) {
      assert c.name in e.values;
    }
  }

  lemma CopiedAfterSave(meta: Meta, e: Entity, row: Row, now: Value, fault: Transactions.Fault)
    requires DistinctNames(meta) && Saved(meta, e, row, now, fault).2.Written?
    ensures CopiedSnapshot(meta, Saved(meta, e, row, now, fault).0)
  {
    forall c <- meta.columns | Compared(c)
      ensures Get(Saved(meta, e, row, now, fault).0.original, c.name)
              == Clone(Get(Saved(meta, e, row, now, fault).0.values, c.name))
    {
      RefreshedAt(meta, e, row, now, fault, c);
    }
  }

  /** Not loaded and not assigned, whether or not the entity was saved since. */
  predicate Unassigned(e: Entity, c: Column) {
    Get(e.values, c.name) == Undefined && Get(e.original, c.name) == Undefined
  }

  /** Columns that were not loaded and not assigned stay as they are in the row, and stay unassigned. */
  lemma UnloadedNotWritten(meta: Meta, e: Entity, row: Row, now: Value, fault: Transactions.Fault, c: Column)
    requires DistinctNames(meta) && c in meta.columns && Compared(c) && Unassigned(e, c)
    ensures Lookup(Saved(meta, e, row, now, fault).1.cells, c.name) == Lookup(row.cells, c.name)
    ensures Unassigned(Saved(meta, e, row, now, fault).0, c)
  {
    if Wrote(meta, e, row, now, fault) {
      WrittenCells(meta, e, row, now, fault, c);
      assert EqualValue(Undefined, Undefined, meta.rt.iso) == Same;
    }
    UnassignedStays(meta, e, row, now, fault, c);
    hide Unassigned, EqualValue, Changes, Overwrite;
  }

  lemma UnassignedStays(meta: Meta, e: Entity, row: Row, now: Value, fault: Transactions.Fault, c: Column)
    requires DistinctNames(meta) && c in meta.columns && Compared(c) && Unassigned(e, c)
    ensures Unassigned(Saved(meta, e, row, now, fault).0, c)
  {
    if Saved(meta, e, row, now, fault).2.Written? {
      RefreshedAt(meta, e, row, now, fault, c);
    } else {
      UpdateDateIsNot(meta, c);
    }
    hide Changes, Overwrite;
  }

  /** The operation may bring the column into the entity. */
  predicate Brings(op: Op, id: nat, c: Column) {
    match op
    case Hydrate(other, loaded, _) => other == id && c.name in loaded
    case Edit(other, name, _) => other == id && name == c.name
    case SaveOp(_, _, _) => false
  }

  predicate HeldUnassigned(run: Run, id: nat, c: Column) {
    id in run.holders ==> Unassigned(run.holders[id].entity, c)
  }

  lemma UnassignedStep(meta: Meta, read: Reader, run: Run, op: Op, id: nat, c: Column)
    requires DistinctNames(meta) && c in meta.columns && Compared(c) && HeldUnassigned(run, id, c) && !Brings(op, id, c)
    ensures HeldUnassigned(Step(meta, read, run, op), id, c)
  {
    match op
    case Hydrate(_, _, _) =>
    case Edit(_, _, _) =>
    case SaveOp(other, now, fault) =>
      if other == id && id in run.holders {
        UnloadedNotWritten(meta, run.holders[id].entity, run.row, now, fault, c);
      }
  }

  /** Over any run in which the column is neither loaded into the entity nor edited in it, through any number
      of saves of that entity and of others: the next save of the entity leaves the column's cell alone. */
  lemma {:induction false} UnloadedNeverWritten(meta: Meta, read: Reader, run: Run, ops: seq<Op>, id: nat, c: Column)
    requires DistinctNames(meta) && c in meta.columns && Compared(c) && HeldUnassigned(run, id, c)
    requires forall op <- ops :: !Brings(op, id, c)
    ensures var after := Steps(meta, read, run, ops);
            && HeldUnassigned(after, id, c)
            && forall now, fault ::
                 Lookup(Step(meta, read, after, SaveOp(id, now, fault)).row.cells, c.name)
                   == Lookup(after.row.cells, c.name)
    decreases |ops|
  {
    var after := Steps(meta, read, run, ops);
    if ops != [] {
      var init := ops[..|ops| - 1];
      UnloadedNeverWritten(meta, read, run, init, id, c);
      UnassignedStep(meta, read, Steps(meta, read, run, init), ops[|ops| - 1], id, c);
    }
    forall now, fault
      ensures Lookup(Step(meta, read, after, SaveOp(id, now, fault)).row.cells, c.name)
              == Lookup(after.row.cells, c.name)
    {
      if id in after.holders {
        UnloadedNotWritten(meta, after.holders[id].entity, after.row, now, fault, c);
      }
    }
  }

  // ---------- save, as the method it is ----------

  /** The row's table behind the driver. */
  class Table {
    var row: Row

    constructor (row: Row)
      ensures this.row == row
    {
      this.row := row;
    }

    /** UPDATE ... WHERE key AND version: None when the call throws, else the affected row count. */
    method UpdateWhere(meta: Meta, version: Option<int>, changes: Props, newVersion: Option<int>,
                       fault: Transactions.Fault)
      returns (affected: Option<nat>)
      modifies this
      ensures var cells := Overwrite(meta, meta.columns, old(row).cells, changes);
              var blocked := cells.None? || fault.Refused?;
              var miss := version.Some? && version.value != old(row).version;
              && row == (if blocked || miss then old(row)
                         else Row(cells.value, if newVersion.Some? then newVersion.value else old(row).version))
              && affected == (if blocked || fault.Lost? then None else if miss then Some(0) else Some(1))
    {
      var cells := Overwrite(meta, meta.columns, row.cells, changes);
      if cells.None? || fault.Refused? {
        return None;
      }
      if version.Some? && version.value != row.version {
        return if fault.Lost? then None else Some(0);
      }
      row := Row(cells.value, if newVersion.Some? then newVersion.value else row.version);
      return if fault.Lost? then None else Some(1);
    }
  }

  /** An entity object together with its entry in the ORM's state map. */
  class Record {
    var values: Props
    var original: Props
    var version: Option<int>
    var originalVersion: Option<int>

    constructor (e: Entity)
      ensures View() == e
    {
      values, original, version, originalVersion := e.values, e.original, e.version, e.originalVersion;
    }

    ghost function View(): Entity
      reads this
    {
      Entity(values, original, version, originalVersion)
    }

    method DetectChanges(meta: Meta) returns (changes: Option<Props>)
      ensures changes == Changes(meta, meta.columns, View())
    {
      var found: Props := map[];
      var i := 0;
      while i < |meta.columns|
        invariant 0 <= i <= |meta.columns|
        invariant Changes(meta, meta.columns[..i], View()) == Some(found)
      {
        var c := meta.columns[i];
        assert meta.columns[..i + 1][..i] == meta.columns[..i];
        if c.update && !c.primary && !c.updateDate {
          var current := Get(values, c.name);
          match EqualValue(current, Get(original, c.name), meta.rt.iso)
          case Throws =>
            ThrowsEarly(meta, meta.columns, i + 1, View());
            return None;
          case Same =>
          case Different => found := found[c.name := current];
        }
        i := i + 1;
      }
      assert meta.columns[..|meta.columns|] == meta.columns;
      return Some(found);
    }

    method RefreshSnapshot(meta: Meta)
      modifies this
      ensures values == old(values) && version == old(version)
      ensures original == Refreshed(meta.columns, values) && originalVersion == version
    {
      var copy: Props := map[];
      var i := 0;
      while i < |meta.columns|
        invariant 0 <= i <= |meta.columns|
        invariant values == old(values) && version == old(version)
        invariant copy == Refreshed(meta.columns[..i], values)
      {
        var c := meta.columns[i];
        assert meta.columns[..i + 1][..i] == meta.columns[..i];
        copy := copy[c.name := Clone(Get(values, c.name))];
        i := i + 1;
      }
      assert meta.columns[..|meta.columns|] == meta.columns;
      original, originalVersion := copy, version;
    }

    method Save(meta: Meta, table: Table, now: Value, fault: Transactions.Fault) returns (outcome: Outcome)
      modifies this, table
      ensures (View(), table.row, outcome) == Saved(meta, old(View()), old(table.row), now, fault)
    {
      var changes := DetectChanges(meta);
      if changes.None? {
        return Failed;
      }
      if changes.value == map[] {
        return Unchanged;
      }
      var oldVersion := if originalVersion.Some? then originalVersion.value else 1;
      var written := Prepare(meta, changes.value, now);
      outcome := Send(meta, oldVersion, written, table, fault);
    }

    method Prepare(meta: Meta, changes: Props, now: Value) returns (written: Props)
      modifies this
      ensures (View(), written) == Prepared(meta, old(View()), changes, now)
    {
      written := changes;
      var dateColumn := UpdateDate(meta.columns);
      if dateColumn < |meta.columns| {
        values := values[meta.columns[dateColumn].name := now];
        written := written[meta.columns[dateColumn].name := now];
      }
      var i := UpdateDate(meta.columns);
      ghost var dated := if i < |meta.columns| then map[meta.columns[i].name := now] else map[];
      assert values == old(values) + dated && written == changes + dated;
      if meta.versioned {
        version := Some((if originalVersion.Some? then originalVersion.value else 1) + 1);
      }
    }

    method Send(meta: Meta, oldVersion: int, written: Props, table: Table, fault: Transactions.Fault)
      returns (outcome: Outcome)
      modifies this, table
      ensures (View(), table.row, outcome) == Update(meta, oldVersion, old(View()), written, old(table.row), fault)
    {
      var where_ := if meta.versioned then Some(oldVersion) else None;
      var next := if meta.versioned then Some(oldVersion + 1) else None;
      var affected := table.UpdateWhere(meta, where_, written, next, fault);
      if affected.None? {
        return Failed;
      }
      if meta.versioned && affected.value == 0 {
        return StaleRow;
      }
      RefreshSnapshot(meta);
      return Written;
    }
  }

  lemma {:induction false} ThrowsEarly(meta: Meta, columns: seq<Column>, i: nat, e: Entity)
    requires i <= |columns| && Changes(meta, columns[..i], e).None?
    ensures Changes(meta, columns, e).None?
    decreases |columns|
  {
    if i == |columns| {
      assert columns[..i] == columns;
    } else {
      assert columns[..|columns| - 1][..i] == columns[..i];
      ThrowsEarly(meta, columns[..|columns| - 1], i, e);
    }
  }
}
