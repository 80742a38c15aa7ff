/** Replacing the rows of a many-to-many join table when an entity is saved. */
module JoinTables {
  import opened Wrappers
  import Transactions

  type Key = int
  datatype Row = Row(owner: Key, target: Key)

  /** The join tables by name; one that holds no rows may be absent. */
  type Tables = map<string, seq<Row>>

  function Rows(tables: Tables, table: string): seq<Row> {
    if table in tables then tables[table] else []
  }

  datatype Statement = Delete(table: string, owner: Key) | Insert(table: string, rows: seq<Row>)

  datatype Capabilities = Capabilities(transactions: bool, batch: bool, parameterLimit: nat, batchLimit: nat)

  /** What `syncJoinTables` reads off one relation of the entity: `table` when it owns a join table,
      `related` when the property holds an array, `owner` when the referenced key is set. */
  datatype Relation = Relation(table: Option<string>, cascades: bool, related: Option<seq<Key>>, owner: Option<Key>)

  predicate Active(r: Relation) {
    r.table.Some? && r.cascades && r.related.Some? && r.owner.Some?
  }

  function Binds(s: Statement): nat {
    match s
    case Delete(_, _) => 1
    case Insert(_, rows) => 2 * |rows|
  }

  function OtherOwners(rows: seq<Row>, owner: Key): seq<Row> {
    if rows == [] then []
    else (if rows[0].owner == owner then [] else [rows[0]]) + OtherOwners(rows[1..], owner)
  }

  /** The targets an owner is joined to, in row order. */
  function Targets(rows: seq<Row>, owner: Key): seq<Key> {
    if rows == [] then []
    else (if rows[0].owner == owner then [rows[0].target] else []) + Targets(rows[1..], owner)
  }

  function RowsFor(owner: Key, related: seq<Key>): (rows: seq<Row>)
    ensures |rows| == |related|
  {
    if related == [] then [] else [Row(owner, related[0])] + RowsFor(owner, related[1..])
  }

  function Apply(s: Statement, tables: Tables): Tables {
    match s
    case Delete(t, owner) => tables[t := OtherOwners(Rows(tables, t), owner)]
    case Insert(t, rows) => tables[t := Rows(tables, t) + rows]
  }

  /** The tables once an owner's rows in `table` are replaced by the related list. */
  function ReplacedTable(tables: Tables, table: string, owner: Key, related: seq<Key>): Tables {
    tables[table := OtherOwners(Rows(tables, table), owner) + RowsFor(owner, related)]
  }

  function ReplacedAll(relations: seq<Relation>, tables: Tables): Tables {
    if relations == [] then tables
    else
      var before, r := ReplacedAll(relations[..|relations| - 1], tables), relations[|relations| - 1];
      if Active(r) then ReplacedTable(before, r.table.value, r.owner.value, r.related.value) else before
  }

  /** The targets of one owner in one table after one relation is saved. */
  lemma ReplacedOne(before: Tables, r: Relation, table: string, owner: Key)
    requires Active(r)
    ensures Targets(Rows(ReplacedTable(before, r.table.value, r.owner.value, r.related.value), table), owner)
            == if r.table == Some(table) && r.owner == Some(owner) then r.related.value
               else Targets(Rows(before, table), owner)
  {
    ReplacedMeans(before, r.table.value, r.owner.value, r.related.value);
    hide Targets, Rows, ReplacedTable;
  }

  /** The list a relation asks for: it owns a table, cascades, holds an array and has a key set. */
  function AsksFor(r: Relation, table: string, owner: Key): Option<seq<Key>> {
    if r.cascades && r.table == Some(table) && r.owner == Some(owner) then r.related else None
  }

  /** The list the last relation asks for, of those that ask for this table and owner. */
  function LastAsked(relations: seq<Relation>, table: string, owner: Key): Option<seq<Key>> {
    if relations == [] then None
    else
      var asked := AsksFor(relations[|relations| - 1], table, owner);
      if asked.Some? then asked else LastAsked(relations[..|relations| - 1], table, owner)
  }

  /** What saving all relations leaves: for every table and owner the list last asked for, and what was there
      where none is. */
  lemma {:induction false} ReplacedAllMeans(relations: seq<Relation>, tables: Tables, table: string, owner: Key)
    ensures var asked := LastAsked(relations, table, owner);
            Targets(Rows(ReplacedAll(relations, tables), table), owner)
            == if asked.Some? then asked.value else Targets(Rows(tables, table), owner)
    decreases |relations|
  {
    if relations != [] {
      var n := |relations| - 1;
      ReplacedAllMeans(relations[..n], tables, table, owner);
      if Active(relations[n]) {
        ReplacedOne(ReplacedAll(relations[..n], tables), relations[n], table, owner);
      }
      hide Targets, Rows, ReplacedTable;
    }
  }

  lemma {:induction false} TargetsAppend(a: seq<Row>, b: seq<Row>, owner: Key)
    ensures Targets(a + b, owner) == Targets(a, owner) + Targets(b, owner)
  {
    if a == [] {
      assert a + b == b;
    } else {
      var head := if a[0].owner == owner then [a[0].target] else [];
      TargetsAppend(a[1..], b, owner);
      assert (a + b)[0] == a[0] && (a + b)[1..] == a[1..] + b;
      assert head + (Targets(a[1..], owner) + Targets(b, owner)) == (head + Targets(a[1..], owner)) + Targets(b, owner);
    }
  }

  lemma {:induction false} TargetsOfOthers(rows: seq<Row>, owner: Key, other: Key)
    ensures Targets(OtherOwners(rows, owner), other) == if other == owner then [] else Targets(rows, other)
  {
    if rows != [] {
      TargetsOfOthers(rows[1..], owner, other);
      var head := if rows[0].owner == owner then [] else [rows[0]];
      TargetsAppend(head, OtherOwners(rows[1..], owner), other);
    }
  }

  lemma {:induction false} TargetsOfNew(owner: Key, related: seq<Key>, other: Key)
    ensures Targets(RowsFor(owner, related), other) == if other == owner then related else []
  {
    if related != [] {
      TargetsOfNew(owner, related[1..], other);
      assert RowsFor(owner, related)[1..] == RowsFor(owner, related[1..]);
    }
  }

  /** What replacing means: the owner is joined to exactly the related list, in order; every other
      owner keeps its targets, and no other table changes. */
  lemma ReplacedMeans(tables: Tables, table: string, owner: Key, related: seq<Key>)
    ensures var now := ReplacedTable(tables, table, owner, related);
            && (forall t :: t != table ==> Rows(now, t) == Rows(tables, t))
            && (forall o :: Targets(Rows(now, table), o)
                            == if o == owner then related else Targets(Rows(tables, table), o))
  {
    var rows := Rows(tables, table);
    forall o
      ensures Targets(Rows(ReplacedTable(tables, table, owner, related), table), o)
              == if o == owner then related else Targets(rows, o)
    {
      TargetsOfOthers(rows, owner, o);
      TargetsOfNew(owner, related, o);
      TargetsAppend(OtherOwners(rows, owner), RowsFor(owner, related), o);
    }
  }

  function RowsPerStatement(caps: Capabilities): (n: nat)
    ensures n >= 1
    ensures caps.parameterLimit >= 2 ==> 2 * n <= caps.parameterLimit
    ensures caps.batchLimit >= 1 ==> n <= caps.batchLimit
    ensures 2 * (n + 1) > caps.parameterLimit || n + 1 > caps.batchLimit
  {
    var half := caps.parameterLimit / 2;
    var least := if caps.batchLimit < half then caps.batchLimit else half;
    if least > 1 then least else 1
  }

  /** A DELETE for the owner, then non-empty INSERTs of `rows` in order, on one table. */
  ghost predicate Replaces(statements: seq<Statement>, table: string, owner: Key, rows: seq<Row>) {
    && |statements| >= 1 && statements[0] == Delete(table, owner)
    && InsertsOf(statements[1..], table, rows)
  }

  ghost predicate InsertsOf(inserts: seq<Statement>, table: string, rows: seq<Row>) {
    && (forall s <- inserts :: s.Insert? && s.table == table && s.rows != [])
    && Inserted(inserts) == rows
  }

  /** All rows a list of statements inserts, in order. */
  function Inserted(statements: seq<Statement>): seq<Row> {
    if statements == [] then []
    else
      var last := statements[|statements| - 1];
      Inserted(statements[..|statements| - 1]) + if last.Insert? then last.rows else []
  }

  predicate Fits(statements: seq<Statement>, caps: Capabilities) {
    forall s <- statements :: Binds(s) <= caps.parameterLimit
  }

  /** How many INSERTs of at most `step` rows it takes. */
  function InsertCount(rows: nat, step: nat): nat
    requires step >= 1
    decreases rows
  {
    if rows == 0 then 0 else 1 + InsertCount(if rows > step then rows - step else 0, step)
  }

  /** That is as few as can hold the rows. */
  lemma {:induction false} InsertCountExactly(rows: nat, step: nat)
    requires step >= 1
    ensures var n := InsertCount(rows, step); n * step >= rows && (n > 0 ==> (n - 1) * step < rows)
    decreases rows
  {
    if rows > 0 {
      var rest := if rows > step then rows - step else 0;
      InsertCountExactly(rest, step);
      var n := InsertCount(rest, step);
      assert InsertCount(rows, step) == n + 1;
      assert (n + 1) * step == n * step + step;
      if n > 0 {
        assert n * step == (n - 1) * step + step;
      }
    }
  }

  function StatementCount(related: seq<Key>, caps: Capabilities): nat {
    1 + InsertCount(|related|, RowsPerStatement(caps))
  }

  /** The DELETE and the INSERTs for one relation; every statement stays within the parameter limit
      when the limit admits one row. */
  method BuildStatements(table: string, owner: Key, related: seq<Key>, caps: Capabilities)
    returns (statements: seq<Statement>)
    ensures Replaces(statements, table, owner, RowsFor(owner, related))
    ensures |statements| == 1 <==> related == []
    ensures |statements| == StatementCount(related, caps)
    ensures caps.parameterLimit >= 2 ==> Fits(statements, caps)
    ensures caps.parameterLimit >= 2 ==>
            forall s <- statements :: s.Insert? ==> 2 * |s.rows| <= caps.parameterLimit
  {
    statements := [Delete(table, owner)];
    var rows := RowsFor(owner, related);
    var step := RowsPerStatement(caps);
    var index := 0;
    ghost var inserts: seq<Statement> := [];
    while index < |rows|
      invariant 0 <= index
      invariant statements == [Delete(table, owner)] + inserts
      invariant InsertsOf(inserts, table, rows[..if index < |rows| then index else |rows|])
      invariant inserts == [] <==> index == 0
      invariant |inserts| + InsertCount(if index < |rows| then |rows| - index else 0, step) == InsertCount(|rows|, step)
      invariant caps.parameterLimit >= 2 ==> Fits(statements, caps)
    {
      var end := if index + step < |rows| then index + step else |rows|;
      var insert := Insert(table, rows[index..end]);
      assert rows[..index] + rows[index..end] == rows[..end];
      assert (inserts + [insert])[..|inserts|] == inserts;
      statements, inserts := statements + [insert], inserts + [insert];
      index := index + step;
    }
    assert rows[..|rows|] == rows && statements[1..] == inserts;
  }

  // ---------- Running them ----------

  type Fault = Transactions.Fault
  type Faults = nat -> Fault

  /** Tables and number of driver calls so far. */
  datatype World = World(tables: Tables, calls: nat)

  /** One statement through `executeFragment`: too many parameters are rejected before the call. */
  function Send(s: Statement, caps: Capabilities, faults: Faults, w: World): (r: (World, bool))
  {
    if Binds(s) > caps.parameterLimit then (w, false)
    else if faults(w.calls).Refused? then (World(w.tables, w.calls + 1), false)
    else (World(Apply(s, w.tables), w.calls + 1), faults(w.calls).Fine?)
  }

  function SendAll(statements: seq<Statement>, caps: Capabilities, faults: Faults, w: World): (r: (World, bool))
    decreases |statements|
  {
    if statements == [] then (w, true)
    else
      var (w1, ok) := SendAll(statements[..|statements| - 1], caps, faults, w);
      if ok then Send(statements[|statements| - 1], caps, faults, w1) else (w1, false)
  }

  function ApplyAll(statements: seq<Statement>, tables: Tables): (r: Tables)
    decreases |statements|
  {
    if statements == [] then tables
    else Apply(statements[|statements| - 1], ApplyAll(statements[..|statements| - 1], tables))
  }

  datatype Mode = Sequential | Interactive | Batch

  function ModeOf(caps: Capabilities, depth: nat, statements: nat): Mode {
    if statements < 2 || depth > 0 then Sequential
    else if caps.transactions then Interactive
    else if caps.batch then Batch
    else Sequential
  }

  /** Each mode is used only with what the driver offers: a transaction before a batch, neither inside an open
      transaction or for a lone statement. */
  lemma ModeExactly(caps: Capabilities, depth: nat, statements: nat)
    ensures ModeOf(caps, depth, statements) == Interactive <==> statements > 1 && depth == 0 && caps.transactions
    ensures ModeOf(caps, depth, statements) == Batch <==>
            statements > 1 && depth == 0 && !caps.transactions && caps.batch
  {
  }

  /** The three ways of running the statements of one relation. The driver contract: an interactive
      transaction keeps nothing unless COMMIT takes effect, a batch applies all or nothing. */
  function Perform(statements: seq<Statement>, caps: Capabilities, depth: nat, faults: Faults, w: World): (World, bool)
  {
    match ModeOf(caps, depth, |statements|)
    case Sequential => SendAll(statements, caps, faults, w)
    case Interactive => InTransaction(statements, caps, faults, w)
    case Batch => InBatch(statements, caps, faults, w)
  }

  function InTransaction(statements: seq<Statement>, caps: Capabilities, faults: Faults, w: World): (World, bool)
  {
    if !faults(w.calls).Fine? then (World(w.tables, w.calls + 1), false)
    else
      var (w1, ok) := SendAll(statements, caps, faults, World(w.tables, w.calls + 1));
      if !ok || faults(w1.calls).Refused? then (World(w.tables, w1.calls + 1), false)
      else (World(w1.tables, w1.calls + 1), faults(w1.calls).Fine?)
  }

  function InBatch(statements: seq<Statement>, caps: Capabilities, faults: Faults, w: World): (World, bool)
  {
    if |statements| > caps.batchLimit || !Fits(statements, caps) then (w, false)
    else if faults(w.calls).Refused? then (World(w.tables, w.calls + 1), false)
    else (World(ApplyAll(statements, w.tables), w.calls + 1), faults(w.calls).Fine?)
  }

  /** When a failed replacement cannot leave the table half replaced: the DELETE is all there is, or
      no transaction is open and the driver offers an interactive transaction or an atomic batch. */
  predicate Atomic(caps: Capabilities, depth: nat, related: seq<Key>) {
    related == [] || (depth == 0 && (caps.transactions || caps.batch))
  }

  ghost predicate Healthy(faults: Faults, from: nat) {
    forall n: nat :: n >= from ==> faults(n).Fine?
  }

  lemma {:induction false} SendAllApplies(statements: seq<Statement>, caps: Capabilities, faults: Faults, w: World)
    ensures var (w1, ok) := SendAll(statements, caps, faults, w);
            && w1.calls >= w.calls
            && (ok ==> w1.tables == ApplyAll(statements, w.tables))
            && (Fits(statements, caps) && Healthy(faults, w.calls) ==> ok)
    decreases |statements|
  {
    if statements != [] {
      SendAllApplies(statements[..|statements| - 1], caps, faults, w);
      assert statements[|statements| - 1] in statements;
    }
  }

  lemma {:induction false} SendAllRefused(statements: seq<Statement>, caps: Capabilities, faults: Faults, w: World)
    requires forall n: nat :: n >= w.calls ==> faults(n).Refused?
    ensures var (w1, ok) := SendAll(statements, caps, faults, w);
            w1.tables == w.tables && w1.calls >= w.calls && (ok <==> statements == [])
    decreases |statements|
  {
    if statements != [] {
      SendAllRefused(statements[..|statements| - 1], caps, faults, w);
    }
  }

  /** A driver that refuses everything changes nothing, in every mode, and the call throws. */
  lemma RefusedChangesNothing(statements: seq<Statement>, caps: Capabilities, depth: nat, faults: Faults, w: World)
    requires statements != [] && forall n: nat :: n >= w.calls ==> faults(n).Refused?
    ensures var (w1, ok) := Perform(statements, caps, depth, faults, w); w1.tables == w.tables && !ok
  {
    SendAllRefused(statements, caps, faults, w);
  }

  lemma {:induction false} ApplyInserts(inserts: seq<Statement>, table: string, tables: Tables)
    requires table in tables && forall s <- inserts :: s.Insert? && s.table == table
    ensures ApplyAll(inserts, tables) == tables[table := Rows(tables, table) + Inserted(inserts)]
    decreases |inserts|
  {
    var rows := Rows(tables, table);
    assert rows + [] == rows;
    if inserts != [] {
      var init, last := inserts[..|inserts| - 1], inserts[|inserts| - 1];
      assert last in inserts;
      ApplyInserts(init, table, tables);
      assert rows + (Inserted(init) + last.rows) == rows + Inserted(init) + last.rows;
    }
  }

  lemma {:induction false} ApplyFirst(s: Statement, rest: seq<Statement>, tables: Tables)
    ensures ApplyAll([s] + rest, tables) == ApplyAll(rest, Apply(s, tables))
    decreases |rest|
  {
    var all := [s] + rest;
    if rest == [] {
      assert all[..0] == [] && ApplyAll([], tables) == tables;
    } else {
      assert all[..|all| - 1] == [s] + rest[..|rest| - 1];
      ApplyFirst(s, rest[..|rest| - 1], tables);
    }
  }

  lemma ApplyReplaces(statements: seq<Statement>, table: string, owner: Key, rows: seq<Row>, tables: Tables)
    requires Replaces(statements, table, owner, rows)
    ensures ApplyAll(statements, tables) == tables[table := OtherOwners(Rows(tables, table), owner) + rows]
  {
    var first, inserts := statements[0], statements[1..];
    assert statements == [first] + inserts;
    ApplyInserts(inserts, table, Apply(first, tables));
    ApplyFirst(first, inserts, tables);
  }

  /** All or nothing at every failure, in the modes that promise it; and a call that returns has
      replaced the rows in every mode. */
  lemma AtomicReplacement(statements: seq<Statement>, table: string, owner: Key, related: seq<Key>,
                          caps: Capabilities, depth: nat, faults: Faults, w: World)
    requires Replaces(statements, table, owner, RowsFor(owner, related))
    ensures var (w1, ok) := Perform(statements, caps, depth, faults, w);
            var goal := ReplacedTable(w.tables, table, owner, related);
            && (ok ==> w1.tables == goal)
            && (Atomic(caps, depth, related) ==> w1.tables == w.tables || w1.tables == goal)
  {
    ApplyReplaces(statements, table, owner, RowsFor(owner, related), w.tables);
    match ModeOf(caps, depth, |statements|)
    case Sequential =>
      SendAllApplies(statements, caps, faults, w);
      if related == [] {
        InsertedSize(statements[1..]);
        LoneStatement(statements, caps, faults, w);
      }
    case Interactive => TransactionIsAtomic(statements, caps, faults, w);
    case Batch =>
  }

  lemma TransactionIsAtomic(statements: seq<Statement>, caps: Capabilities, faults: Faults, w: World)
    ensures var (w1, ok) := InTransaction(statements, caps, faults, w);
            && (w1.tables == w.tables || w1.tables == ApplyAll(statements, w.tables))
            && (ok ==> w1.tables == ApplyAll(statements, w.tables))
  {
    SendAllApplies(statements, caps, faults, World(w.tables, w.calls + 1));
  }

  lemma {:induction false} InsertedSize(inserts: seq<Statement>)
    requires forall s <- inserts :: s.Insert? && s.rows != []
    ensures |Inserted(inserts)| >= |inserts|
  {
    if inserts != [] {
      assert inserts[|inserts| - 1] in inserts;
      InsertedSize(inserts[..|inserts| - 1]);
    }
  }

  lemma LoneStatement(statements: seq<Statement>, caps: Capabilities, faults: Faults, w: World)
    requires |statements| == 1
    ensures var now := SendAll(statements, caps, faults, w).0.tables;
            now == w.tables || now == ApplyAll(statements, w.tables)
  {
    assert statements[..0] == [];
    assert SendAll([], caps, faults, w) == (w, true) && ApplyAll([], w.tables) == w.tables;
  }

  /** In the other modes an INSERT refused after the DELETE leaves the owner with no rows at all. */
  lemma HalfReplacement(statements: seq<Statement>, table: string, owner: Key, related: seq<Key>,
                        caps: Capabilities, depth: nat)
    returns (faults: Faults, w: World)
    requires Replaces(statements, table, owner, RowsFor(owner, related))
    requires caps.parameterLimit >= 1 && !Atomic(caps, depth, related)
    ensures var (w1, ok) := Perform(statements, caps, depth, faults, w);
            && !ok && w1.tables != w.tables
            && w1.tables != ReplacedTable(w.tables, table, owner, related)
            && Targets(Rows(w1.tables, table), owner) == [] != Targets(Rows(w.tables, table), owner)
  {
    faults := n => if n == 0 then Transactions.Fine else Transactions.Refused;
    var old_ := [Row(owner, 0)];
    w := World(map[table := old_], 0);
    ApplyReplaces(statements, table, owner, RowsFor(owner, related), w.tables);
    var after := World(map[table := []], 1);
    assert Apply(statements[0], w.tables) == after.tables;
    SendAllStops(statements, caps, faults, w, after);
  }

  /** Once the second call is refused, no later statement changes anything. */
  lemma {:induction false} SendAllStops(statements: seq<Statement>, caps: Capabilities, faults: Faults, w: World,
                                        after: World)
    requires |statements| >= 1
    requires Send(statements[0], caps, faults, w) == (after, true)
    requires forall n :: n >= after.calls ==> faults(n).Refused?
    ensures var (w1, ok) := SendAll(statements, caps, faults, w);
            w1.tables == after.tables && (ok <==> |statements| == 1) && w1.calls >= after.calls
    decreases |statements|
  {
    var init := statements[..|statements| - 1];
    if |statements| == 1 {
      assert init == [] && SendAll(init, caps, faults, w) == (w, true);
    } else {
      assert init[0] == statements[0];
      SendAllStops(init, caps, faults, w, after);
    }
  }

  /** Exactly when replacing one owner's rows is all-or-nothing under every failure. */
  lemma AtomicExactly(statements: seq<Statement>, table: string, owner: Key, related: seq<Key>,
                      caps: Capabilities, depth: nat)
    requires Replaces(statements, table, owner, RowsFor(owner, related)) && caps.parameterLimit >= 1
    ensures Atomic(caps, depth, related) <==>
            forall faults: Faults, w: World ::
              Perform(statements, caps, depth, faults, w).0.tables
              in {w.tables, ReplacedTable(w.tables, table, owner, related)}
  {
    if Atomic(caps, depth, related) {
      forall faults: Faults, w: World
        ensures Perform(statements, caps, depth, faults, w).0.tables
                in {w.tables, ReplacedTable(w.tables, table, owner, related)}
      {
        AtomicReplacement(statements, table, owner, related, caps, depth, faults, w);
      }
    } else {
      var faults, w := HalfReplacement(statements, table, owner, related, caps, depth);
      assert !(Perform(statements, caps, depth, faults, w).0.tables
               in {w.tables, ReplacedTable(w.tables, table, owner, related)});
    }
  }

  /** Nothing goes wrong unless the driver or a limit says so. */
  lemma ReplacementSucceeds(statements: seq<Statement>, caps: Capabilities, depth: nat, faults: Faults, w: World)
    requires Fits(statements, caps) && Healthy(faults, w.calls)
    ensures Perform(statements, caps, depth, faults, w).1
            <==> !(ModeOf(caps, depth, |statements|).Batch? && |statements| > caps.batchLimit)
  {
    match ModeOf(caps, depth, |statements|)
    case Sequential => SendAllApplies(statements, caps, faults, w);
    case Interactive =>
      var begun := World(w.tables, w.calls + 1);
      assert Healthy(faults, begun.calls);
      SendAllApplies(statements, caps, faults, begun);
      assert faults(SendAll(statements, caps, faults, begun).0.calls).Fine?;
    case Batch =>
  }

  /** The statements of one relation do not exceed what a batch takes, if they go as a batch. */
  predicate BatchTakes(caps: Capabilities, depth: nat, related: seq<Key>) {
    var n := StatementCount(related, caps);
    ModeOf(caps, depth, n).Batch? ==> n <= caps.batchLimit
  }

  lemma CallsGrow(statements: seq<Statement>, caps: Capabilities, depth: nat, faults: Faults, w: World)
    ensures Perform(statements, caps, depth, faults, w).0.calls >= w.calls
  {
    SendAllApplies(statements, caps, faults, w);
    SendAllApplies(statements, caps, faults, World(w.tables, w.calls + 1));
  }

  // ---------- The entity's relations ----------

  /** The database as the saving ORM uses it. */
  class Store {
    const caps: Capabilities
    const depth: nat
    const faults: Faults
    var tables: Tables
    var calls: nat

    constructor (caps: Capabilities, depth: nat, faults: Faults, tables: Tables)
      ensures this.caps == caps && this.depth == depth && this.faults == faults
      ensures this.tables == tables && calls == 0
    {
      this.caps, this.depth, this.faults, this.tables, calls := caps, depth, faults, tables, 0;
    }

    method Execute(s: Statement) returns (ok: bool)
      modifies this
      ensures (World(tables, calls), ok) == Send(s, caps, faults, old(World(tables, calls)))
    {
      if Binds(s) > caps.parameterLimit {
        return false;
      }
      var fault := faults(calls);
      calls := calls + 1;
      if fault.Refused? {
        return false;
      }
      tables := Apply(s, tables);
      return fault.Fine?;
    }

    method RunInOrder(statements: seq<Statement>) returns (ok: bool)
      modifies this
      ensures (World(tables, calls), ok) == SendAll(statements, caps, faults, old(World(tables, calls)))
    {
      ghost var start := World(tables, calls);
      var i := 0;
      while i < |statements|
        invariant 0 <= i <= |statements|
        invariant (World(tables, calls), true) == SendAll(statements[..i], caps, faults, start)
      {
        assert statements[..i + 1][..i] == statements[..i];
        ok := Execute(statements[i]);
        if !ok {
          StopsEarly(statements, i + 1, caps, faults, start);
          return;
        }
        i := i + 1;
      }
      assert statements[..|statements|] == statements;
      return true;
    }

    method ExecuteAtomically(statements: seq<Statement>) returns (ok: bool)
      modifies this
      ensures (World(tables, calls), ok) == Perform(statements, caps, depth, faults, old(World(tables, calls)))
    {
      if |statements| < 2 || depth > 0 {
        ok := RunInOrder(statements);
      } else if caps.transactions {
        ok := RunInTransaction(statements);
      } else if caps.batch {
        ok := RunInBatch(statements);
      } else {
        ok := RunInOrder(statements);
      }
    }

    method RunInTransaction(statements: seq<Statement>) returns (ok: bool)
      modifies this
      ensures (World(tables, calls), ok) == InTransaction(statements, caps, faults, old(World(tables, calls)))
    {
      var snapshot := tables;
      var begun := faults(calls);
      calls := calls + 1;
      if !begun.Fine? {
        return false;
      }
      ok := RunInOrder(statements);
      var commit := faults(calls);
      calls := calls + 1;
      if !ok || commit.Refused? {
        tables := snapshot;
        return false;
      }
      return commit.Fine?;
    }

    method RunInBatch(statements: seq<Statement>) returns (ok: bool)
      modifies this
      ensures (World(tables, calls), ok) == InBatch(statements, caps, faults, old(World(tables, calls)))
    {
      if |statements| > caps.batchLimit || !Fits(statements, caps) {
        return false;
      }
      var fault := faults(calls);
      calls := calls + 1;
      if fault.Refused? {
        return false;
      }
      tables := ApplyAll(statements, tables);
      return fault.Fine?;
    }

    /** Saves every active relation in turn; stops at the first that throws. Where each replacement is
        atomic the tables always show a prefix of the relations replaced, whatever fails when. */
    method SyncJoinTables(relations: seq<Relation>) returns (changed: bool, ok: bool)
      modifies this
      ensures ok ==> tables == ReplacedAll(relations, old(tables))
      ensures ok ==> (changed <==> exists r <- relations :: Active(r))
      ensures !ok && (forall r <- relations :: Active(r) ==> Atomic(caps, depth, r.related.value)) ==>
        exists k | 0 <= k <= |relations| :: tables == ReplacedAll(relations[..k], old(tables))
      ensures Healthy(faults, old(calls)) && caps.parameterLimit >= 2 ==>
        (ok <==> forall r <- relations :: Active(r) ==> BatchTakes(caps, depth, r.related.value))
    {
      changed := false;
      var i := 0;
      while i < |relations|
        invariant 0 <= i <= |relations|
        invariant tables == ReplacedAll(relations[..i], old(tables))
        invariant changed <==> exists r <- relations[..i] :: Active(r)
        invariant calls >= old(calls)
        invariant Healthy(faults, old(calls)) && caps.parameterLimit >= 2 ==>
          forall r <- relations[..i] :: Active(r) ==> BatchTakes(caps, depth, r.related.value)
      {
        var r := relations[i];
        assert relations[..i + 1][..i] == relations[..i];
        if Active(r) {
          ghost var before := World(tables, calls);
          var statements := BuildStatements(r.table.value, r.owner.value, r.related.value, caps);
          AtomicReplacement(statements, r.table.value, r.owner.value, r.related.value, caps, depth, faults, before);
          CallsGrow(statements, caps, depth, faults, before);
          if Healthy(faults, old(calls)) && caps.parameterLimit >= 2 {
            ReplacementSucceeds(statements, caps, depth, faults, before);
          }
          ok := ExecuteAtomically(statements);
          if !ok {
            assert Atomic(caps, depth, r.related.value) ==>
              tables == ReplacedAll(relations[..i], old(tables))
                || tables == ReplacedAll(relations[..i + 1], old(tables));
            return;
          }
          changed := true;
        }
        i := i + 1;
      }
      assert relations[..|relations|] == relations;
      return changed, true;
    }
  }

  lemma {:induction false} StopsEarly(statements: seq<Statement>, i: nat, caps: Capabilities, faults: Faults, w: World)
    requires i <= |statements|
    requires !SendAll(statements[..i], caps, faults, w).1
    ensures SendAll(statements, caps, faults, w) == SendAll(statements[..i], caps, faults, w)
    decreases |statements|
  {
    if i == |statements| {
      assert statements[..i] == statements;
    } else {
      assert statements[..|statements| - 1][..i] == statements[..i];
      StopsEarly(statements[..|statements| - 1], i, caps, faults, w);
    }
  }
}
