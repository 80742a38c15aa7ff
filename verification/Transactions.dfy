/** Nested ORM transactions compiled to SAVEPOINT, RELEASE and ROLLBACK TO statements on one
    connection, and their agreement with "restore the entry snapshot on failure, keep on success". */
module Transactions {

  // ---------- The server ----------

  /** What differs between servers. `replaceSameName`: SAVEPOINT drops an older savepoint of the same
      name instead of shadowing it. `releaseCutsLater`: RELEASE also drops the savepoints set later.
      `errorPoisons`: after a refused statement everything but ROLLBACK TO is refused. */
  datatype Dialect = Dialect(savepoints: bool, replaceSameName: bool, releaseCutsLater: bool, errorPoisons: bool)

  datatype Kind = Query | Begin | Release | Rollback | Commit

  /** Outcome of one driver call: `Refused` has no effect and throws, `Lost` takes effect and throws. */
  datatype Fault = Fine | Refused | Lost

  /** The n-th statement of a connection, by kind. */
  type Faults = (Kind, nat) -> Fault

  datatype Savepoint<D> = Savepoint(name: nat, data: D)

  /** Server side of an open interactive transaction. `clock` counts statements. */
  datatype Conn<D> = Conn(data: D, stack: seq<Savepoint<D>>, poisoned: bool, clock: nat)

  function RefusedConn<D>(dialect: Dialect, c: Conn<D>): Conn<D> {
    c.(clock := c.clock + 1, poisoned := c.poisoned || dialect.errorPoisons)
  }

  function LastIndex<D>(stack: seq<Savepoint<D>>, name: nat): (i: int)
    ensures -1 <= i < |stack|
    ensures i >= 0 ==> stack[i].name == name
    ensures forall j :: i < j < |stack| ==> stack[j].name != name
  {
    if stack == [] then -1
    else if stack[|stack| - 1].name == name then |stack| - 1
    else LastIndex(stack[..|stack| - 1], name)
  }

  /** The savepoints whose name is at most `depth`, in order: those of the enclosing transactions. */
  function Below<D>(stack: seq<Savepoint<D>>, depth: nat): seq<Savepoint<D>> {
    if stack == [] then []
    else
      var rest := Below(stack[..|stack| - 1], depth);
      if stack[|stack| - 1].name <= depth then rest + [stack[|stack| - 1]] else rest
  }

  function Without<D>(stack: seq<Savepoint<D>>, name: nat): seq<Savepoint<D>> {
    if stack == [] then []
    else
      var rest := Without(stack[..|stack| - 1], name);
      if stack[|stack| - 1].name != name then rest + [stack[|stack| - 1]] else rest
  }

  function DoRead<D>(dialect: Dialect, faults: Faults, c: Conn<D>): (Conn<D>, bool) {
    var fault := faults(Query, c.clock);
    if c.poisoned || fault == Refused then (RefusedConn(dialect, c), false)
    else (c.(clock := c.clock + 1), fault == Fine)
  }

  function DoWrite<D>(dialect: Dialect, faults: Faults, f: D -> D, c: Conn<D>): (Conn<D>, bool) {
    var fault := faults(Query, c.clock);
    if c.poisoned || fault == Refused then (RefusedConn(dialect, c), false)
    else (c.(data := f(c.data), clock := c.clock + 1), fault == Fine)
  }

  function DoSavepoint<D>(dialect: Dialect, faults: Faults, name: nat, c: Conn<D>): (Conn<D>, bool) {
    var fault := faults(Begin, c.clock);
    if c.poisoned || fault == Refused then (RefusedConn(dialect, c), false)
    else
      (c.(stack := Kept(dialect, c.stack, name) + [Savepoint(name, c.data)], clock := c.clock + 1), fault == Fine)
  }

  function Kept<D>(dialect: Dialect, stack: seq<Savepoint<D>>, name: nat): seq<Savepoint<D>> {
    if dialect.replaceSameName then Without(stack, name) else stack
  }

  lemma KeptIs<D>(dialect: Dialect, stack: seq<Savepoint<D>>, name: nat)
    ensures Kept(dialect, stack, name) == if dialect.replaceSameName then Without(stack, name) else stack
  {
  }

  function DoRelease<D>(dialect: Dialect, faults: Faults, name: nat, c: Conn<D>): (Conn<D>, bool) {
    var fault := faults(Release, c.clock);
    var i := LastIndex(c.stack, name);
    if c.poisoned || fault == Refused || i < 0 then (RefusedConn(dialect, c), false)
    else
      var kept := c.stack[..i] + if dialect.releaseCutsLater then [] else c.stack[i + 1..];
      (c.(stack := kept, clock := c.clock + 1), fault == Fine)
  }

  function DoRollbackTo<D>(dialect: Dialect, faults: Faults, name: nat, c: Conn<D>): (Conn<D>, bool) {
    var fault := faults(Rollback, c.clock);
    var i := LastIndex(c.stack, name);
    if fault == Refused || i < 0 then (RefusedConn(dialect, c), false)
    else (Conn(c.stack[i].data, c.stack[..i + 1], false, c.clock + 1), fault == Fine)
  }

  // ---------- The callbacks ----------

  /** A transaction callback awaited one statement at a time. `Choose` reads the data and branches;
      `Try` catches whatever its body throws; `Nested` calls `transaction` again. */
  datatype Prog<!D> =
    | Skip
    | Throw
    | Write(f: D -> D)
    | Seq(first: Prog<D>, second: Prog<D>)
    | Choose(test: D -> bool, yes: Prog<D>, no: Prog<D>)
    | Try(body: Prog<D>, handler: Prog<D>)
    | Nested(body: Prog<D>)

  /** The savepoint implementation: what the connection holds after the callback, and whether it
      returned normally. `depth` is the transaction depth of the surrounding scope. */
  function Exec<D>(dialect: Dialect, faults: Faults, p: Prog<D>, depth: nat, c: Conn<D>): (Conn<D>, bool) {
    match p
    case Skip => (c, true)
    case Throw => (c, false)
    case Write(f) => DoWrite(dialect, faults, f, c)
    case Seq(first, second) =>
      var (c1, ok) := Exec(dialect, faults, first, depth, c);
      if ok then Exec(dialect, faults, second, depth, c1) else (c1, false)
    case Choose(test, yes, no) =>
      var (c1, ok) := DoRead(dialect, faults, c);
      if !ok then (c1, false)
      else if test(c.data) then Exec(dialect, faults, yes, depth, c1) else Exec(dialect, faults, no, depth, c1)
    case Try(body, handler) =>
      var (c1, ok) := Exec(dialect, faults, body, depth, c);
      if ok then (c1, true) else Exec(dialect, faults, handler, depth, c1)
    case Nested(body) =>
      if !dialect.savepoints then (c, false)
      else
        var (c1, begun) := DoSavepoint(dialect, faults, depth + 1, c);
        if !begun then (c1, false)
        else
          var (c2, ok) := Exec(dialect, faults, body, depth + 1, c1);
          Finish(dialect, faults, depth + 1, c2, ok)
  }

  /** End of a nested transaction: RELEASE on success; ROLLBACK TO when the callback or RELEASE threw. */
  function Finish<D>(dialect: Dialect, faults: Faults, name: nat, c: Conn<D>, ok: bool): (Conn<D>, bool) {
    var (c1, released) := if ok then DoRelease(dialect, faults, name, c) else (c, false);
    if released then (c1, true) else (DoRollbackTo(dialect, faults, name, c1).0, false)
  }

  // ---------- The reference: snapshots, no savepoints ----------

  datatype Plain<D> = Plain(data: D, poisoned: bool, clock: nat)

  /** Count one statement; it goes through unless refused by the fault plan or by poisoning. */
  function Tick<D>(dialect: Dialect, faults: Faults, kind: Kind, s: Plain<D>): (Plain<D>, Fault) {
    if s.poisoned || faults(kind, s.clock) == Refused
    then (Plain(s.data, s.poisoned || dialect.errorPoisons, s.clock + 1), Refused)
    else (s.(clock := s.clock + 1), faults(kind, s.clock))
  }

  /** Documented meaning: a nested transaction that fails puts back the data it started from. */
  function Meaning<D>(dialect: Dialect, faults: Faults, p: Prog<D>, s: Plain<D>): (Plain<D>, bool) {
    match p
    case Skip => (s, true)
    case Throw => (s, false)
    case Write(f) =>
      var (s1, fault) := Tick(dialect, faults, Query, s);
      (if fault == Refused then s1 else s1.(data := f(s.data)), fault == Fine)
    case Seq(first, second) =>
      var (s1, ok) := Meaning(dialect, faults, first, s);
      if ok then Meaning(dialect, faults, second, s1) else (s1, false)
    case Choose(test, yes, no) =>
      var (s1, fault) := Tick(dialect, faults, Query, s);
      if fault != Fine then (s1, false)
      else Meaning(dialect, faults, if test(s.data) then yes else no, s1)
    case Try(body, handler) =>
      var (s1, ok) := Meaning(dialect, faults, body, s);
      if ok then (s1, true) else Meaning(dialect, faults, handler, s1)
    case Nested(body) =>
      if !dialect.savepoints then (s, false)
      else
        var (s1, begun) := Tick(dialect, faults, Begin, s);
        if begun != Fine then (s1, false)
        else
          var (s2, ok) := Meaning(dialect, faults, body, s1);
          Settle(dialect, faults, s.data, s2, ok)
  }

  function Settle<D>(dialect: Dialect, faults: Faults, entry: D, s: Plain<D>, ok: bool): (Plain<D>, bool) {
    var (s1, kept) := if ok then Tick(dialect, faults, Release, s) else (s, Refused);
    if kept == Fine then (s1, true) else (Plain(entry, false, s1.clock + 1), false)
  }

  /** A RELEASE that took effect is never reported as failed. */
  ghost predicate NoLostRelease(faults: Faults) {
    forall n: nat :: faults(Release, n) != Lost
  }

  ghost predicate NoRefusedRollback(faults: Faults) {
    forall n: nat :: faults(Rollback, n) != Refused
  }

  // ---------- Savepoint bookkeeping ----------

  lemma {:induction false} BelowAppend<D>(s: seq<Savepoint<D>>, t: seq<Savepoint<D>>, depth: nat)
    ensures Below(s + t, depth) == Below(s, depth) + Below(t, depth)
  {
    if t == [] {
      assert s + t == s;
    } else {
      assert (s + t)[..|s + t| - 1] == s + t[..|t| - 1];
      BelowAppend(s, t[..|t| - 1], depth);
    }
  }

  lemma {:induction false} BelowWithout<D>(s: seq<Savepoint<D>>, name: nat, depth: nat)
    requires depth < name
    ensures Below(Without(s, name), depth) == Below(s, depth)
  {
    if s != [] {
      var init, top := s[..|s| - 1], s[|s| - 1];
      BelowWithout(init, name, depth);
      BelowAppend(Without(init, name), [top], depth);
    }
  }

  lemma {:induction false} BelowNarrows<D>(s: seq<Savepoint<D>>, wide: nat, depth: nat)
    requires depth <= wide
    ensures Below(Below(s, wide), depth) == Below(s, depth)
  {
    if s != [] {
      var init, top := s[..|s| - 1], s[|s| - 1];
      BelowNarrows(init, wide, depth);
      BelowAppend(Below(init, wide), [top], depth);
    }
  }

  /** If `live` is the newest savepoint named at most `name`, then the statement naming it finds it,
      nothing above it belongs to an enclosing transaction, and what is under it is untouched. */
  lemma {:induction false} FindsLive<D>(stack: seq<Savepoint<D>>, name: nat, under: seq<Savepoint<D>>,
                                        live: Savepoint<D>)
    requires live.name == name && Below(stack, name) == under + [live]
    ensures var i := LastIndex(stack, name);
            i >= 0 && stack[i] == live && Below(stack[..i], name) == under && Below(stack[i + 1..], name) == []
  {
    var init, top := stack[..|stack| - 1], stack[|stack| - 1];
    if top.name <= name {
      assert top == Below(stack, name)[|under|] == (under + [live])[|under|];
      assert under == (under + [live])[..|under|] == Below(init, name);
      assert stack[|stack| - 1 + 1..] == [];
    } else {
      FindsLive(init, name, under, live);
      var i := LastIndex(init, name);
      assert stack[i + 1..] == init[i + 1..] + [top] && stack[..i] == init[..i];
      BelowAppend(init[i + 1..], [top], name);
    }
  }

  // ---------- The refinement ----------

  ghost predicate Agrees<D>(dialect: Dialect, faults: Faults, p: Prog<D>, depth: nat, c: Conn<D>) {
    var (c', ok) := Exec(dialect, faults, p, depth, c);
    (Plain(c'.data, c'.poisoned, c'.clock), ok) == Meaning(dialect, faults, p, Plain(c.data, c.poisoned, c.clock))
  }

  /** The savepoints of the enclosing transactions are left alone and, as long as no ROLLBACK TO is
      refused, the program computes what the snapshot semantics computes. */
  ghost predicate Refines<D>(dialect: Dialect, faults: Faults, p: Prog<D>, depth: nat, c: Conn<D>) {
    && Below(Exec(dialect, faults, p, depth, c).0.stack, depth) == Below(c.stack, depth)
    && (NoRefusedRollback(faults) ==> Agrees(dialect, faults, p, depth, c))
  }

  lemma StatementRefines<D>(dialect: Dialect, faults: Faults, p: Prog<D>, depth: nat, c: Conn<D>)
    requires p.Skip? || p.Throw? || p.Write?
    ensures Refines(dialect, faults, p, depth, c)
  {
  }

  lemma SeqRefines<D>(dialect: Dialect, faults: Faults, first: Prog<D>, second: Prog<D>, depth: nat, c: Conn<D>)
    requires Refines(dialect, faults, first, depth, c)
    requires Refines(dialect, faults, second, depth, Exec(dialect, faults, first, depth, c).0)
    ensures Refines(dialect, faults, Seq(first, second), depth, c)
  {
  }

  lemma ChooseRefines<D>(dialect: Dialect, faults: Faults, test: D -> bool, yes: Prog<D>, no: Prog<D>, depth: nat,
                         c: Conn<D>)
    requires Refines(dialect, faults, yes, depth, DoRead(dialect, faults, c).0)
    requires Refines(dialect, faults, no, depth, DoRead(dialect, faults, c).0)
    ensures Refines(dialect, faults, Choose(test, yes, no), depth, c)
  {
    var (c1, ok) := DoRead(dialect, faults, c);
    var (s1, fault) := Tick(dialect, faults, Query, Plain(c.data, c.poisoned, c.clock));
    assert s1 == Plain(c1.data, c1.poisoned, c1.clock) && (ok <==> fault == Fine) && c1.stack == c.stack;
    var taken := if test(c.data) then yes else no;
    assert Exec(dialect, faults, Choose(test, yes, no), depth, c)
           == if ok then Exec(dialect, faults, taken, depth, c1) else (c1, false);
    assert Meaning(dialect, faults, Choose(test, yes, no), Plain(c.data, c.poisoned, c.clock))
           == if ok then Meaning(dialect, faults, taken, s1) else (s1, false);
    hide Exec, Meaning, DoRead, Tick, Below;
  }

  lemma TryRefines<D>(dialect: Dialect, faults: Faults, body: Prog<D>, handler: Prog<D>, depth: nat, c: Conn<D>)
    requires Refines(dialect, faults, body, depth, c)
    requires Refines(dialect, faults, handler, depth, Exec(dialect, faults, body, depth, c).0)
    ensures Refines(dialect, faults, Try(body, handler), depth, c)
  {
  }

  /** A program at any depth, on any stack of leftover and shadowed savepoints, on any dialect and with
      any other statement failing at any time, computes what the snapshot semantics computes and
      leaves the savepoints of the enclosing transactions alone. */
  lemma {:induction false} SavepointsMeanSnapshots<D>(
    dialect: Dialect, faults: Faults, p: Prog<D>, depth: nat, c: Conn<D>)
    requires NoLostRelease(faults)
    ensures Below(Exec(dialect, faults, p, depth, c).0.stack, depth) == Below(c.stack, depth)
    ensures NoRefusedRollback(faults) ==> Agrees(dialect, faults, p, depth, c)
    decreases p, 0
  {
    hide Exec, Agrees, Below;
    match p
    case Seq(first, second) =>
      SavepointsMeanSnapshots(dialect, faults, first, depth, c);
      SavepointsMeanSnapshots(dialect, faults, second, depth, Exec(dialect, faults, first, depth, c).0);
      SeqRefines(dialect, faults, first, second, depth, c);
    case Choose(test, yes, no) =>
      SavepointsMeanSnapshots(dialect, faults, yes, depth, DoRead(dialect, faults, c).0);
      SavepointsMeanSnapshots(dialect, faults, no, depth, DoRead(dialect, faults, c).0);
      ChooseRefines(dialect, faults, test, yes, no, depth, c);
    case Try(body, handler) =>
      SavepointsMeanSnapshots(dialect, faults, body, depth, c);
      SavepointsMeanSnapshots(dialect, faults, handler, depth, Exec(dialect, faults, body, depth, c).0);
      TryRefines(dialect, faults, body, handler, depth, c);
    case Nested(body) => NestedStep(dialect, faults, body, depth, c);
    case _ => StatementRefines(dialect, faults, p, depth, c);
  }

  lemma SavepointAgrees<D>(dialect: Dialect, faults: Faults, name: nat, c: Conn<D>)
    ensures var (c1, begun) := DoSavepoint(dialect, faults, name, c);
            var (s1, fault) := Tick(dialect, faults, Begin, Plain(c.data, c.poisoned, c.clock));
            && s1 == Plain(c1.data, c1.poisoned, c1.clock) && (begun <==> fault == Fine)
            && (begun ==> c1.stack == Kept(dialect, c.stack, name) + [Savepoint(name, c.data)])
  {
  }

  lemma MeaningUnfolds<D>(dialect: Dialect, faults: Faults, body: Prog<D>, s: Plain<D>)
    requires dialect.savepoints && Tick(dialect, faults, Begin, s).1 == Fine
    ensures var (s2, ok) := Meaning(dialect, faults, body, Tick(dialect, faults, Begin, s).0);
            Meaning(dialect, faults, Nested(body), s) == Settle(dialect, faults, s.data, s2, ok)
  {
  }

  lemma {:induction false} NestedStep<D>(
    dialect: Dialect, faults: Faults, body: Prog<D>, depth: nat, c: Conn<D>)
    requires NoLostRelease(faults)
    ensures Below(Exec(dialect, faults, Nested(body), depth, c).0.stack, depth) == Below(c.stack, depth)
    ensures NoRefusedRollback(faults) ==> Agrees(dialect, faults, Nested(body), depth, c)
    decreases body, 1
  {
    var name, live := depth + 1, Savepoint(depth + 1, c.data);
    var (c1, begun) := DoSavepoint(dialect, faults, name, c);
    SavepointAgrees(dialect, faults, name, c);
    if dialect.savepoints && begun {
      var (c2, ok) := Exec(dialect, faults, body, name, c1);
      SavepointPushes(dialect, c.stack, live, depth);
      NestedUnfolds(dialect, faults, body, depth, c);
      MeaningUnfolds(dialect, faults, body, Plain(c.data, c.poisoned, c.clock));
      hide Exec, Meaning, Finish, Settle, Below, Kept, DoSavepoint, Tick, NoLostRelease, NoRefusedRollback;
      SavepointsMeanSnapshots(dialect, faults, body, name, c1);
      FinishAgrees(dialect, faults, c2, ok, Kept(dialect, c.stack, name), live, depth);
    } else {
      NotBegun(dialect, faults, body, depth, c);
    }
  }

  lemma NotBegun<D>(dialect: Dialect, faults: Faults, body: Prog<D>, depth: nat, c: Conn<D>)
    requires !dialect.savepoints || !DoSavepoint(dialect, faults, depth + 1, c).1
    ensures Below(Exec(dialect, faults, Nested(body), depth, c).0.stack, depth) == Below(c.stack, depth)
    ensures Agrees(dialect, faults, Nested(body), depth, c)
  {
    SavepointPushes(dialect, c.stack, Savepoint(depth + 1, c.data), depth);
  }

  lemma SavepointPushes<D>(dialect: Dialect, stack: seq<Savepoint<D>>, live: Savepoint<D>, depth: nat)
    requires live.name == depth + 1
    ensures var kept := Kept(dialect, stack, depth + 1);
            && Below(kept, depth) == Below(stack, depth) == Below(kept + [live], depth)
            && Below(kept + [live], depth + 1) == Below(kept, depth + 1) + [live]
  {
    var kept := Kept(dialect, stack, depth + 1);
    BelowWithout(stack, depth + 1, depth);
    BelowAppend(kept, [live], depth);
    BelowAppend(kept, [live], depth + 1);
  }

  /** RELEASE and ROLLBACK TO both take the stack back to what the enclosing transactions had. */
  lemma AfterNested<D>(stack: seq<Savepoint<D>>, kept: seq<Savepoint<D>>, live: Savepoint<D>, depth: nat)
    requires live.name == depth + 1 && Below(stack, depth + 1) == Below(kept, depth + 1) + [live]
    ensures var i := LastIndex(stack, depth + 1);
            && i >= 0 && stack[i] == live
            && Below(stack[..i] + [], depth) == Below(kept, depth)
            && Below(stack[..i] + stack[i + 1..], depth) == Below(kept, depth)
            && Below(stack[..i + 1], depth) == Below(kept, depth)
            && Below(stack, depth) == Below(kept, depth)
  {
    var name := depth + 1;
    FindsLive(stack, name, Below(kept, name), live);
    var i := LastIndex(stack, name);
    var under, above := stack[..i], stack[i + 1..];
    assert stack[..i + 1] == under + [live] && under + [] == under && stack == (under + [live]) + above;
    BelowAppend(under, [live], depth);
    BelowAppend(under, above, depth);
    BelowAppend(under + [live], above, depth);
    BelowNarrows(under, name, depth);
    BelowNarrows(kept, name, depth);
    BelowNarrows(above, name, depth);
  }

  lemma ReleaseAgrees<D>(dialect: Dialect, faults: Faults, c: Conn<D>,
                         kept: seq<Savepoint<D>>, live: Savepoint<D>, depth: nat)
    requires NoLostRelease(faults)
    requires live.name == depth + 1 && Below(c.stack, depth + 1) == Below(kept, depth + 1) + [live]
    ensures var (c', ok) := DoRelease(dialect, faults, depth + 1, c);
            var (s', fault) := Tick(dialect, faults, Release, Plain(c.data, c.poisoned, c.clock));
            && s' == Plain(c'.data, c'.poisoned, c'.clock) && (ok <==> fault == Fine)
            && (if ok then Below(c'.stack, depth) == Below(kept, depth) else c'.stack == c.stack)
  {
    AfterNested(c.stack, kept, live, depth);
    assert faults(Release, c.clock) != Lost;
  }

  lemma RollbackAgrees<D>(dialect: Dialect, faults: Faults, c: Conn<D>,
                          kept: seq<Savepoint<D>>, live: Savepoint<D>, depth: nat)
    requires live.name == depth + 1 && Below(c.stack, depth + 1) == Below(kept, depth + 1) + [live]
    ensures var c' := DoRollbackTo(dialect, faults, depth + 1, c).0;
            && Below(c'.stack, depth) == Below(kept, depth) && c'.clock == c.clock + 1
            && (if faults(Rollback, c.clock) == Refused then c'.data == c.data
                else c'.data == live.data && !c'.poisoned)
  {
    AfterNested(c.stack, kept, live, depth);
  }

  lemma FinishAgrees<D>(dialect: Dialect, faults: Faults, c: Conn<D>, ok: bool,
                        kept: seq<Savepoint<D>>, live: Savepoint<D>, depth: nat)
    requires NoLostRelease(faults)
    requires live.name == depth + 1 && Below(c.stack, depth + 1) == Below(kept, depth + 1) + [live]
    ensures var (c', ok') := Finish(dialect, faults, depth + 1, c, ok);
            && Below(c'.stack, depth) == Below(kept, depth)
            && (NoRefusedRollback(faults) ==>
                  (Plain(c'.data, c'.poisoned, c'.clock), ok')
                  == Settle(dialect, faults, live.data, Plain(c.data, c.poisoned, c.clock), ok))
            && (!ok ==> (c'.data == live.data <==> faults(Rollback, c.clock) != Refused || c.data == live.data))
  {
    if ok {
      var (c1, released) := DoRelease(dialect, faults, depth + 1, c);
      ReleaseAgrees(dialect, faults, c, kept, live, depth);
      if !released {
        RollbackAgrees(dialect, faults, c1, kept, live, depth);
      }
    } else {
      RollbackAgrees(dialect, faults, c, kept, live, depth);
    }
  }

  lemma NestedUnfolds<D>(dialect: Dialect, faults: Faults, body: Prog<D>, depth: nat, c: Conn<D>)
    requires dialect.savepoints && DoSavepoint(dialect, faults, depth + 1, c).1
    ensures var (c2, ok) := Exec(dialect, faults, body, depth + 1, DoSavepoint(dialect, faults, depth + 1, c).0);
            Exec(dialect, faults, Nested(body), depth, c) == Finish(dialect, faults, depth + 1, c2, ok)
  {
  }

  // ---------- Every fault of one nested transaction ----------

  lemma LastUnfolds<D>(stack: seq<Savepoint<D>>, top: Savepoint<D>, name: nat)
    ensures LastIndex(stack, name) < |stack|
    ensures LastIndex(stack + [top], name) == if top.name == name then |stack| else LastIndex(stack, name)
    ensures Below(stack + [top], name) == Below(stack, name) + if top.name <= name then [top] else []
  {
    assert (stack + [top])[..|stack|] == stack;
  }

  /** The newest savepoint of a name is the newest among those named at most that. */
  lemma {:induction false} LastOfBelow<D>(stack: seq<Savepoint<D>>, name: nat)
    ensures SameInBelow(stack, name)
  {
    hide *;
    if stack == [] {
      NoneInBelow(stack, name);
    } else {
      var n := |stack| - 1;
      LastOfBelow(stack[..n], name);
      assert stack == stack[..n] + [stack[n]];
      LastOfBelowPushed(stack[..n], stack[n], name);
    }
  }

  lemma NoneInBelow<D>(stack: seq<Savepoint<D>>, name: nat)
    requires stack == []
    ensures SameInBelow(stack, name)
  {
  }

  ghost predicate SameInBelow<D>(stack: seq<Savepoint<D>>, name: nat) {
    var i, below := LastIndex(stack, name), Below(stack, name);
    var k := LastIndex(below, name);
    && (i < 0 <==> k < 0)
    && (i >= 0 ==> k < |below| && stack[i] == below[k] && Below(stack[..i + 1], name) == below[..k + 1])
  }

  lemma LastOfBelowPushed<D>(stack: seq<Savepoint<D>>, top: Savepoint<D>, name: nat)
    requires SameInBelow(stack, name)
    ensures SameInBelow(stack + [top], name)
  {
    hide LastIndex, Below;
    var below := Below(stack, name);
    LastUnfolds(stack, top, name);
    LastUnfolds(below, top, name);
    if top.name == name {
      assert (stack + [top])[..|stack| + 1] == stack + [top] && (below + [top])[..|below| + 1] == below + [top];
    } else {
      var i, k := LastIndex(stack, name), LastIndex(below, name);
      assert below + [] == below;
      assert i >= 0 ==> (stack + [top])[..i + 1] == stack[..i + 1] && (below + [top])[..k + 1] == below[..k + 1];
    }
  }

  /** Stacks with the same savepoints up to a name agree on what a statement naming it finds. */
  lemma SameLast<D>(s: seq<Savepoint<D>>, t: seq<Savepoint<D>>, name: nat, depth: nat)
    requires Below(s, name) == Below(t, name) && depth <= name
    ensures var i, j := LastIndex(s, name), LastIndex(t, name);
            && (i < 0 <==> j < 0)
            && (i >= 0 ==> s[i] == t[j] && Below(s[..i + 1], depth) == Below(t[..j + 1], depth))
  {
    LastOfBelow(s, name);
    LastOfBelow(t, name);
    hide LastIndex, Below;
    var i, j := LastIndex(s, name), LastIndex(t, name);
    if i >= 0 {
      BelowNarrows(s[..i + 1], name, depth);
      BelowNarrows(t[..j + 1], name, depth);
    }
  }

  lemma {:induction false} WithoutHasNone<D>(stack: seq<Savepoint<D>>, name: nat)
    ensures LastIndex(Without(stack, name), name) == -1
  {
    if stack != [] {
      var rest := Without(stack[..|stack| - 1], name);
      WithoutHasNone(stack[..|stack| - 1], name);
      assert (rest + [stack[|stack| - 1]])[..|rest|] == rest;
    }
  }

  /** A RELEASE, whether it cuts later savepoints or not, leaves what was kept on entry, for the name and for
      all older ones. */
  lemma ReleaseLeaves<D>(stack: seq<Savepoint<D>>, kept: seq<Savepoint<D>>, live: Savepoint<D>, depth: nat, cuts: bool)
    requires live.name == depth + 1 && Below(stack, depth + 1) == Below(kept, depth + 1) + [live]
    ensures var at := LastIndex(stack, depth + 1);
            && at >= 0 && stack[at] == live
            && var left := stack[..at] + if cuts then [] else stack[at + 1..];
            && Below(left, depth + 1) == Below(kept, depth + 1) && Below(left, depth) == Below(kept, depth)
  {
    var name := depth + 1;
    FindsLive(stack, name, Below(kept, name), live);
    AfterNested(stack, kept, live, depth);
    var at := LastIndex(stack, name);
    hide LastIndex;
    BelowAppend(stack[..at], if cuts then [] else stack[at + 1..], name);
  }

  /** After a RELEASE took effect, what the name finds is what it would have found before SAVEPOINT. */
  lemma ReleasedFinds<D>(dialect: Dialect, stack: seq<Savepoint<D>>, entry: seq<Savepoint<D>>, live: Savepoint<D>,
                         depth: nat)
    requires live.name == depth + 1
             && Below(stack, depth + 1) == Below(Kept(dialect, entry, depth + 1), depth + 1) + [live]
    ensures var at := LastIndex(stack, depth + 1);
            && at >= 0 && stack[at] == live
            && var left := stack[..at] + if dialect.releaseCutsLater then [] else stack[at + 1..];
            var i, j := LastIndex(entry, depth + 1), LastIndex(left, depth + 1);
            && Below(left, depth) == Below(entry, depth)
            && (j >= 0 <==> !dialect.replaceSameName && i >= 0)
            && (j >= 0 ==> left[j] == entry[i] && Below(left[..j + 1], depth) == Below(entry[..i + 1], depth))
  {
    hide *;
    var name, kept := depth + 1, Kept(dialect, entry, depth + 1);
    KeptIs(dialect, entry, name);
    SavepointPushes(dialect, entry, live, depth);
    ReleaseLeaves(stack, kept, live, depth, dialect.releaseCutsLater);
    var at := LastIndex(stack, name);
    SameLast(stack[..at] + if dialect.releaseCutsLater then [] else stack[at + 1..], kept, name, depth);
    WithoutHasNone(entry, name);
  }

  /** RELEASE took effect and was reported as failed. */
  predicate LostRelease<D>(faults: Faults, returned: Conn<D>, ok: bool) {
    ok && !returned.poisoned && faults(Release, returned.clock) == Lost
  }

  /** RELEASE took effect and was reported so. */
  predicate Released<D>(faults: Faults, returned: Conn<D>, ok: bool) {
    ok && !returned.poisoned && faults(Release, returned.clock) == Fine
  }

  /** The ROLLBACK TO sent when the transaction fails goes through, if the server knows the savepoint. */
  predicate RollbackGoes<D>(faults: Faults, returned: Conn<D>, ok: bool) {
    faults(Rollback, if ok then returned.clock + 1 else returned.clock) != Refused
  }

  /** ROLLBACK TO finds a savepoint older than the transaction: its own was released unnoticed, and one of
      that name was left on the stack it began on. */
  predicate FindsOlder<D>(dialect: Dialect, faults: Faults, returned: Conn<D>, ok: bool, entry: seq<Savepoint<D>>,
                          depth: nat)
  {
    && LostRelease(faults, returned, ok) && RollbackGoes(faults, returned, ok)
    && !dialect.replaceSameName && LastIndex(entry, depth + 1) >= 0
  }

  /** How a nested transaction ends whose callback left `returned` behind. */
  predicate Ends<D(==)>(dialect: Dialect, faults: Faults, returned: Conn<D>, ok: bool, entry: seq<Savepoint<D>>,
                        data: D, depth: nat, result: (Conn<D>, bool))
  {
    var i := LastIndex(entry, depth + 1);
    && result.1 == Released(faults, returned, ok)
    && (if FindsOlder(dialect, faults, returned, ok, entry, depth) then
          result.0.data == entry[i].data && Below(result.0.stack, depth) == Below(entry[..i + 1], depth)
        else
          && Below(result.0.stack, depth) == Below(entry, depth)
          && result.0.data == if result.1 || LostRelease(faults, returned, ok) || !RollbackGoes(faults, returned, ok)
                              then returned.data else data)
  }

  lemma ThrownEnds<D>(dialect: Dialect, faults: Faults, c: Conn<D>, entry: seq<Savepoint<D>>, live: Savepoint<D>,
                      depth: nat)
    requires live.name == depth + 1
             && Below(c.stack, depth + 1) == Below(Kept(dialect, entry, depth + 1), depth + 1) + [live]
    ensures Ends(dialect, faults, c, false, entry, live.data, depth, Finish(dialect, faults, depth + 1, c, false))
  {
    AfterNested(c.stack, Kept(dialect, entry, depth + 1), live, depth);
    SavepointPushes(dialect, entry, live, depth);
    hide Below, LastIndex, Kept;
  }

  lemma RefusedReleaseEnds<D>(dialect: Dialect, faults: Faults, c: Conn<D>, entry: seq<Savepoint<D>>,
                              live: Savepoint<D>, depth: nat)
    requires live.name == depth + 1
             && Below(c.stack, depth + 1) == Below(Kept(dialect, entry, depth + 1), depth + 1) + [live]
    requires c.poisoned || faults(Release, c.clock) == Refused
    ensures Ends(dialect, faults, c, true, entry, live.data, depth, Finish(dialect, faults, depth + 1, c, true))
  {
    AfterNested(c.stack, Kept(dialect, entry, depth + 1), live, depth);
    SavepointPushes(dialect, entry, live, depth);
    hide Below, LastIndex, Kept;
  }

  lemma FinishTaken<D>(dialect: Dialect, faults: Faults, name: nat, c: Conn<D>)
    requires !c.poisoned && faults(Release, c.clock) != Refused && LastIndex(c.stack, name) >= 0
    ensures var at := LastIndex(c.stack, name);
            var left := c.stack[..at] + if dialect.releaseCutsLater then [] else c.stack[at + 1..];
            var after := c.(stack := left, clock := c.clock + 1);
            Finish(dialect, faults, name, c, true)
            == if faults(Release, c.clock) == Fine then (after, true)
               else (DoRollbackTo(dialect, faults, name, after).0, false)
  {
    hide LastIndex;
  }

  lemma FineEnds<D>(dialect: Dialect, faults: Faults, c: Conn<D>, entry: seq<Savepoint<D>>, data: D, depth: nat,
                    after: Conn<D>)
    requires !c.poisoned && faults(Release, c.clock) == Fine
    requires after.data == c.data && Below(after.stack, depth) == Below(entry, depth)
    ensures Ends(dialect, faults, c, true, entry, data, depth, (after, true))
  {
    hide Below, LastIndex;
  }

  lemma LostEnds<D>(dialect: Dialect, faults: Faults, c: Conn<D>, entry: seq<Savepoint<D>>, data: D, depth: nat,
                    after: Conn<D>)
    requires !c.poisoned && faults(Release, c.clock) == Lost && after.clock == c.clock + 1
    requires after.data == c.data && Below(after.stack, depth) == Below(entry, depth)
    requires var i, j := LastIndex(entry, depth + 1), LastIndex(after.stack, depth + 1);
             && (j >= 0 <==> !dialect.replaceSameName && i >= 0)
             && (j >= 0 ==> after.stack[j] == entry[i]
                            && Below(after.stack[..j + 1], depth) == Below(entry[..i + 1], depth))
    ensures Ends(dialect, faults, c, true, entry, data, depth,
                 (DoRollbackTo(dialect, faults, depth + 1, after).0, false))
  {
    hide Below, LastIndex;
  }

  lemma TakenReleaseEnds<D>(dialect: Dialect, faults: Faults, c: Conn<D>, entry: seq<Savepoint<D>>, live: Savepoint<D>,
                            depth: nat)
    requires live.name == depth + 1
             && Below(c.stack, depth + 1) == Below(Kept(dialect, entry, depth + 1), depth + 1) + [live]
    requires !c.poisoned && faults(Release, c.clock) != Refused
    ensures Ends(dialect, faults, c, true, entry, live.data, depth, Finish(dialect, faults, depth + 1, c, true))
  {
    hide *;
    ReleasedFinds(dialect, c.stack, entry, live, depth);
    FinishTaken(dialect, faults, depth + 1, c);
    var at := LastIndex(c.stack, depth + 1);
    var left := c.stack[..at] + if dialect.releaseCutsLater then [] else c.stack[at + 1..];
    var after := c.(stack := left, clock := c.clock + 1);
    if faults(Release, c.clock) == Fine {
      FineEnds(dialect, faults, c, entry, live.data, depth, after);
    } else {
      LostEnds(dialect, faults, c, entry, live.data, depth, after);
    }
  }

  /** With any faults, on any server and stack: a nested transaction whose callback kept the enclosing
      savepoints succeeds exactly when RELEASE did. Otherwise its entry data is restored if ROLLBACK TO goes
      through, unless RELEASE took effect unnoticed: then everything is kept, or, when the stack it began on
      held an older savepoint of its name, the data of that one comes back and the enclosing savepoints above
      that one are gone. */
  lemma NestedEnds<D>(dialect: Dialect, faults: Faults, body: Prog<D>, depth: nat, c: Conn<D>)
    requires dialect.savepoints && DoSavepoint(dialect, faults, depth + 1, c).1
    requires var c1 := DoSavepoint(dialect, faults, depth + 1, c).0;
             Below(Exec(dialect, faults, body, depth + 1, c1).0.stack, depth + 1) == Below(c1.stack, depth + 1)
    ensures var (returned, ok) := Exec(dialect, faults, body, depth + 1, DoSavepoint(dialect, faults, depth + 1, c).0);
            Ends(dialect, faults, returned, ok, c.stack, c.data, depth, Exec(dialect, faults, Nested(body), depth, c))
  {
    var live := Savepoint(depth + 1, c.data);
    var c1 := DoSavepoint(dialect, faults, depth + 1, c).0;
    var (returned, ok) := Exec(dialect, faults, body, depth + 1, c1);
    SavepointPushes(dialect, c.stack, live, depth);
    NestedUnfolds(dialect, faults, body, depth, c);
    hide Exec, Below, Ends;
    if !ok {
      ThrownEnds(dialect, faults, returned, c.stack, live, depth);
    } else if returned.poisoned || faults(Release, returned.clock) == Refused {
      RefusedReleaseEnds(dialect, faults, returned, c.stack, live, depth);
    } else {
      TakenReleaseEnds(dialect, faults, returned, c.stack, live, depth);
    }
  }

  /** Exactly when a nested transaction that failed, in its callback or in RELEASE, has put its entry data
      back. */
  lemma FailedNestedRestores<D>(dialect: Dialect, faults: Faults, body: Prog<D>, depth: nat, c: Conn<D>)
    requires dialect.savepoints && DoSavepoint(dialect, faults, depth + 1, c).1
    requires var c1 := DoSavepoint(dialect, faults, depth + 1, c).0;
             Below(Exec(dialect, faults, body, depth + 1, c1).0.stack, depth + 1) == Below(c1.stack, depth + 1)
    requires !Exec(dialect, faults, Nested(body), depth, c).1
    ensures var (returned, ok) := Exec(dialect, faults, body, depth + 1, DoSavepoint(dialect, faults, depth + 1, c).0);
            Exec(dialect, faults, Nested(body), depth, c).0.data == c.data <==>
              if FindsOlder(dialect, faults, returned, ok, c.stack, depth)
              then c.stack[LastIndex(c.stack, depth + 1)].data == c.data
              else (RollbackGoes(faults, returned, ok) && !LostRelease(faults, returned, ok)) || returned.data == c.data
  {
    NestedEnds(dialect, faults, body, depth, c);
  }

  /** A nested transaction keeps the savepoints of the enclosing ones exactly when it does not fall back to
      an older savepoint of its name that lies under one of them. */
  lemma NestedKeepsExactly<D>(dialect: Dialect, faults: Faults, body: Prog<D>, depth: nat, c: Conn<D>)
    requires dialect.savepoints && DoSavepoint(dialect, faults, depth + 1, c).1
    requires var c1 := DoSavepoint(dialect, faults, depth + 1, c).0;
             Below(Exec(dialect, faults, body, depth + 1, c1).0.stack, depth + 1) == Below(c1.stack, depth + 1)
    ensures var (returned, ok) := Exec(dialect, faults, body, depth + 1, DoSavepoint(dialect, faults, depth + 1, c).0);
            Below(Exec(dialect, faults, Nested(body), depth, c).0.stack, depth) == Below(c.stack, depth) <==>
              !FindsOlder(dialect, faults, returned, ok, c.stack, depth)
              || Below(c.stack[LastIndex(c.stack, depth + 1) + 1..], depth) == []
  {
    hide *;
    NestedEnds(dialect, faults, body, depth, c);
    var (returned, ok) := Exec(dialect, faults, body, depth + 1, DoSavepoint(dialect, faults, depth + 1, c).0);
    EndsKeeps(dialect, faults, returned, ok, c.stack, c.data, depth, Exec(dialect, faults, Nested(body), depth, c));
  }

  lemma EndsKeeps<D>(dialect: Dialect, faults: Faults, returned: Conn<D>, ok: bool, entry: seq<Savepoint<D>>,
                     data: D, depth: nat, result: (Conn<D>, bool))
    requires Ends(dialect, faults, returned, ok, entry, data, depth, result)
    ensures Below(result.0.stack, depth) == Below(entry, depth) <==>
              !FindsOlder(dialect, faults, returned, ok, entry, depth)
              || Below(entry[LastIndex(entry, depth + 1) + 1..], depth) == []
  {
    hide LastIndex, Below, Released, LostRelease, RollbackGoes;
    var i := LastIndex(entry, depth + 1);
    if i >= 0 {
      assert entry == entry[..i + 1] + entry[i + 1..];
      BelowAppend(entry[..i + 1], entry[i + 1..], depth);
    }
  }

  // ---------- Callbacks during which no RELEASE is lost ----------

  /** The fault plan with everything outside a stretch of statements going well. */
  function During(faults: Faults, from: nat, to: nat): Faults {
    (kind, n) => if from <= n < to then faults(kind, n) else Fine
  }

  lemma FinishGrows<D>(dialect: Dialect, faults: Faults, name: nat, c: Conn<D>, ok: bool)
    ensures Finish(dialect, faults, name, c, ok).0.clock >= c.clock
  {
  }

  lemma {:induction false} ClockGrows<D>(dialect: Dialect, faults: Faults, p: Prog<D>, depth: nat, c: Conn<D>)
    ensures Exec(dialect, faults, p, depth, c).0.clock >= c.clock
    decreases p
  {
    match p
    case Seq(first, second) =>
      ClockGrows(dialect, faults, first, depth, c);
      ClockGrows(dialect, faults, second, depth, Exec(dialect, faults, first, depth, c).0);
    case Choose(_, yes, no) =>
      ClockGrows(dialect, faults, yes, depth, DoRead(dialect, faults, c).0);
      ClockGrows(dialect, faults, no, depth, DoRead(dialect, faults, c).0);
    case Try(body, handler) =>
      ClockGrows(dialect, faults, body, depth, c);
      ClockGrows(dialect, faults, handler, depth, Exec(dialect, faults, body, depth, c).0);
    case Nested(body) =>
      if dialect.savepoints {
        var (c1, begun) := DoSavepoint(dialect, faults, depth + 1, c);
        if begun {
          var (c2, ok) := Exec(dialect, faults, body, depth + 1, c1);
          ClockGrows(dialect, faults, body, depth + 1, c1);
          FinishGrows(dialect, faults, depth + 1, c2, ok);
          NestedUnfolds(dialect, faults, body, depth, c);
          assert c1.clock > c.clock;
          hide Exec, Finish;
        }
      }
    case _ =>
  }

  /** A run only meets the faults of its own statements. */
  lemma {:induction false} OnlyOwnFaults<D>(dialect: Dialect, faults: Faults, p: Prog<D>, depth: nat, c: Conn<D>,
                                            from: nat, to: nat)
    requires from <= c.clock && Exec(dialect, faults, p, depth, c).0.clock <= to
    ensures Exec(dialect, During(faults, from, to), p, depth, c) == Exec(dialect, faults, p, depth, c)
    decreases p, 0
  {
    match p
    case Skip =>
    case Throw =>
    case Write(_) =>
    case Seq(first, second) =>
      var (c1, ok) := Exec(dialect, faults, first, depth, c);
      ClockGrows(dialect, faults, first, depth, c);
      ClockGrows(dialect, faults, second, depth, c1);
      OnlyOwnFaults(dialect, faults, first, depth, c, from, to);
      if ok { OnlyOwnFaults(dialect, faults, second, depth, c1, from, to); }
    case Choose(test, yes, no) =>
      var (c1, ok) := DoRead(dialect, faults, c);
      ClockGrows(dialect, faults, yes, depth, c1);
      ClockGrows(dialect, faults, no, depth, c1);
      if ok { OnlyOwnFaults(dialect, faults, if test(c.data) then yes else no, depth, c1, from, to); }
    case Try(body, handler) =>
      var (c1, ok) := Exec(dialect, faults, body, depth, c);
      ClockGrows(dialect, faults, body, depth, c);
      ClockGrows(dialect, faults, handler, depth, c1);
      OnlyOwnFaults(dialect, faults, body, depth, c, from, to);
      if !ok { OnlyOwnFaults(dialect, faults, handler, depth, c1, from, to); }
    case Nested(body) =>
      if dialect.savepoints { OnlyOwnNestedFaults(dialect, faults, body, depth, c, from, to); }
  }

  lemma OwnSavepointFault<D>(dialect: Dialect, faults: Faults, name: nat, c: Conn<D>, from: nat, to: nat)
    requires from <= c.clock < to
    ensures DoSavepoint(dialect, During(faults, from, to), name, c) == DoSavepoint(dialect, faults, name, c)
  {
  }

  lemma OwnEndingFaults<D>(dialect: Dialect, faults: Faults, name: nat, c: Conn<D>, from: nat, to: nat)
    requires from <= c.clock < to
    ensures var own := During(faults, from, to);
            && DoRelease(dialect, own, name, c) == DoRelease(dialect, faults, name, c)
            && DoRollbackTo(dialect, own, name, c) == DoRollbackTo(dialect, faults, name, c)
    ensures DoRelease(dialect, faults, name, c).0.clock == DoRollbackTo(dialect, faults, name, c).0.clock == c.clock + 1
  {
  }

  lemma EndingClocks<D>(dialect: Dialect, faults: Faults, name: nat, c: Conn<D>)
    ensures DoRelease(dialect, faults, name, c).0.clock == DoRollbackTo(dialect, faults, name, c).0.clock == c.clock + 1
  {
  }

  lemma OwnFinishFaults<D>(dialect: Dialect, faults: Faults, name: nat, c: Conn<D>, ok: bool, from: nat, to: nat)
    requires from <= c.clock && Finish(dialect, faults, name, c, ok).0.clock <= to
    ensures Finish(dialect, During(faults, from, to), name, c, ok) == Finish(dialect, faults, name, c, ok)
    ensures Finish(dialect, faults, name, c, ok).0.clock > c.clock
  {
    var (c1, released) := DoRelease(dialect, faults, name, c);
    EndingClocks(dialect, faults, name, c);
    EndingClocks(dialect, faults, name, c1);
    hide DoRelease, DoRollbackTo, During;
    OwnEndingFaults(dialect, faults, name, c, from, to);
    if ok && !released { OwnEndingFaults(dialect, faults, name, c1, from, to); }
  }

  lemma {:induction false} OnlyOwnNestedFaults<D>(dialect: Dialect, faults: Faults, body: Prog<D>, depth: nat,
                                                  c: Conn<D>, from: nat, to: nat)
    requires dialect.savepoints && from <= c.clock && Exec(dialect, faults, Nested(body), depth, c).0.clock <= to
    ensures Exec(dialect, During(faults, from, to), Nested(body), depth, c)
            == Exec(dialect, faults, Nested(body), depth, c)
    decreases body, 1
  {
    var own := During(faults, from, to);
    var (c1, begun) := DoSavepoint(dialect, faults, depth + 1, c);
    assert c1.clock == c.clock + 1;
    ClockGrows(dialect, faults, Nested(body), depth, c);
    if begun {
      var (c2, ok) := Exec(dialect, faults, body, depth + 1, c1);
      ClockGrows(dialect, faults, body, depth + 1, c1);
      NestedUnfolds(dialect, faults, body, depth, c);
      FinishGrows(dialect, faults, depth + 1, c2, ok);
      OwnSavepointFault(dialect, faults, depth + 1, c, from, to);
      hide Exec, Finish, DoSavepoint;
      OwnFinishFaults(dialect, faults, depth + 1, c2, ok, from, to);
      OnlyOwnFaults(dialect, faults, body, depth + 1, c1, from, to);
      NestedUnfolds(dialect, own, body, depth, c);
    } else {
      assert Exec(dialect, faults, Nested(body), depth, c) == (c1, false);
      OwnSavepointFault(dialect, faults, depth + 1, c, from, to);
    }
  }

  /** The condition of NestedEnds holds of every callback during which no RELEASE reply is lost. */
  lemma CallbackKeeps<D>(dialect: Dialect, faults: Faults, p: Prog<D>, depth: nat, c: Conn<D>)
    requires forall n: nat :: c.clock <= n < Exec(dialect, faults, p, depth, c).0.clock ==> faults(Release, n) != Lost
    ensures Below(Exec(dialect, faults, p, depth, c).0.stack, depth) == Below(c.stack, depth)
  {
    var to := Exec(dialect, faults, p, depth, c).0.clock;
    OnlyOwnFaults(dialect, faults, p, depth, c, c.clock, to);
    SavepointsMeanSnapshots(dialect, During(faults, c.clock, to), p, depth, c);
  }

  // Without those two conditions the agreement fails. On a server that shadows savepoints:

  const SHADOWING := Dialect(true, false, true, false)

  function RefusesRollback(kind: Kind, n: nat): Fault {
    if kind == Rollback then Refused else Fine
  }

  function LosesRelease(kind: Kind, n: nat): Fault {
    if kind == Release then Lost else Fine
  }

  /** A caught nested failure keeps its writes when ROLLBACK TO is refused. */
  lemma RefusedRollbackKeepsWrites<D>(f: D -> D, entry: D)
    requires f(entry) != entry
    ensures var p := Try(Nested(Seq(Write(f), Throw)), Skip);
            var (c, ok) := Exec(SHADOWING, RefusesRollback, p, 1, Conn(entry, [], false, 0));
            ok && c.data == f(entry)
  {
    var c0: Conn<D> := Conn(entry, [], false, 0);
    var body := Seq(Write(f), Throw);
    var c1 := DoSavepoint(SHADOWING, RefusesRollback, 2, c0).0;
    assert Exec(SHADOWING, RefusesRollback, body, 2, c1) == (c1.(data := f(entry), clock := 2), false);
    NestedUnfolds(SHADOWING, RefusesRollback, body, 1, c0);
  }

  /** A lost RELEASE reply sends ROLLBACK TO to an older savepoint of the same name, left over by an
      earlier failed sibling, and so undoes a write of the enclosing transaction. */
  lemma LostReleaseUndoesOuterWrite<D>(f: D -> D, entry: D)
    requires f(entry) != entry
    ensures var p := Seq(Try(Nested(Throw), Skip), Seq(Write(f), Try(Nested(Skip), Skip)));
            var (c, ok) := Exec(SHADOWING, LosesRelease, p, 1, Conn(entry, [], false, 0));
            ok && c.data == entry
  {
    var left := [Savepoint(2, entry)];
    var c2, c3, c6 := Conn(entry, left, false, 2), Conn(f(entry), left, false, 3), Conn(entry, left, false, 6);
    var first, last: Prog<D> := Try(Nested(Throw), Skip), Try(Nested(Skip), Skip);
    assert Exec(SHADOWING, LosesRelease, first, 1, Conn(entry, [], false, 0)) == (c2, true) by {
      FailedSiblingLeftover(entry);
    }
    assert Exec(SHADOWING, LosesRelease, last, 1, c3) == (c6, true) by {
      LostReleaseFindsLeftover(f(entry), entry);
    }
    var rest := Seq(Write(f), last);
    assert Exec(SHADOWING, LosesRelease, rest, 1, c2) == (c6, true);
  }

  lemma FailedSiblingLeftover<D>(entry: D)
    ensures Exec(SHADOWING, LosesRelease, Nested(Throw), 1, Conn(entry, [], false, 0))
            == (Conn(entry, [Savepoint(2, entry)], false, 2), false)
  {
    var c0: Conn<D>, left := Conn(entry, [], false, 0), [Savepoint(2, entry)];
    assert [] + left == left == left[..0 + 1];
    NestedUnfolds(SHADOWING, LosesRelease, Throw, 1, c0);
  }

  lemma LostReleaseFindsLeftover<D>(now: D, entry: D)
    ensures Exec(SHADOWING, LosesRelease, Nested(Skip), 1, Conn(now, [Savepoint(2, entry)], false, 3))
            == (Conn(entry, [Savepoint(2, entry)], false, 6), false)
  {
    var left := [Savepoint(2, entry)];
    var two := left + [Savepoint(2, now)];
    assert two[..1] + [] == left == left[..0 + 1];
    NestedUnfolds(SHADOWING, LosesRelease, Skip, 1, Conn(now, left, false, 3));
  }

  // ---------- The outermost transaction ----------

  /** The driver's interactive transaction around a callback at depth 1: COMMIT on success, ROLLBACK
      when the callback or COMMIT throws. A poisoned transaction is rolled back by COMMIT. */
  function Outermost<D>(dialect: Dialect, faults: Faults, p: Prog<D>, data: D): (D, bool) {
    if faults(Begin, 0) != Fine then (data, false)
    else
      var (c, ok) := Exec(dialect, faults, p, 1, Conn(data, [], false, 1));
      if !ok then (data, false)
      else
        var fault := faults(Commit, c.clock);
        (if c.poisoned || fault == Refused then data else c.data, fault == Fine)
  }

  /** All or nothing at the top: the stored data is either untouched or exactly what the snapshot
      semantics of the whole callback ends with, and it is the latter whenever the call returns
      normally on a server that does not poison. */
  lemma OutermostIsAtomic<D>(dialect: Dialect, faults: Faults, p: Prog<D>, data: D)
    requires NoLostRelease(faults) && NoRefusedRollback(faults)
    ensures var (stored, ok) := Outermost(dialect, faults, p, data);
            var (s, returned) := Meaning(dialect, faults, p, Plain(data, false, 1));
            && (stored == data || (returned && stored == s.data))
            && (ok ==> returned && (stored == s.data || s.poisoned))
            && (ok && !dialect.errorPoisons ==> stored == s.data)
            && (!returned ==> stored == data && !ok)
  {
    SavepointsMeanSnapshots(dialect, faults, p, 1, Conn(data, [], false, 1));
    if !dialect.errorPoisons {
      StaysClean(dialect, faults, p, Plain(data, false, 1));
    }
  }

  /** Exactly what is stored, and when the call returns: the callback's data exactly when the transaction
      began, the callback returned on a connection that is not poisoned, and COMMIT took effect. */
  lemma OutermostExactly<D>(dialect: Dialect, faults: Faults, p: Prog<D>, data: D)
    requires NoLostRelease(faults) && NoRefusedRollback(faults)
    ensures var (stored, ok) := Outermost(dialect, faults, p, data);
            var (s, returned) := Meaning(dialect, faults, p, Plain(data, false, 1));
            var begun := faults(Begin, 0) == Fine;
            && stored == (if begun && returned && !s.poisoned && faults(Commit, s.clock) != Refused then s.data
                          else data)
            && (ok <==> begun && returned && faults(Commit, s.clock) == Fine)
  {
    SavepointsMeanSnapshots(dialect, faults, p, 1, Conn(data, [], false, 1));
  }

  /** On a healthy driver a callback that throws nowhere is committed, with all its writes. */
  lemma HealthyCommits<D>(dialect: Dialect, faults: Faults, p: Prog<D>, data: D)
    requires dialect.savepoints && Plainly(p) && forall kind, n: nat :: faults(kind, n) == Fine
    ensures Outermost(dialect, faults, p, data) == (Written(p, data), true)
  {
    PlainlyRuns(dialect, faults, p, Plain(data, false, 1));
    OutermostExactly(dialect, faults, p, data);
    var s := Meaning(dialect, faults, p, Plain(data, false, 1)).0;
    assert faults(Begin, 0) == Fine && faults(Commit, s.clock) == Fine;
  }

  /** Without `Throw`. */
  predicate Plainly<D>(p: Prog<D>) {
    match p
    case Skip => true
    case Throw => false
    case Write(_) => true
    case Seq(first, second) => Plainly(first) && Plainly(second)
    case Choose(_, yes, no) => Plainly(yes) && Plainly(no)
    case Try(body, _) => Plainly(body)
    case Nested(body) => Plainly(body)
  }

  /** What such a callback makes of the data, with nothing in the way. */
  function Written<D>(p: Prog<D>, data: D): D
    requires Plainly(p)
  {
    match p
    case Skip => data
    case Write(f) => f(data)
    case Seq(first, second) => Written(second, Written(first, data))
    case Choose(test, yes, no) => if test(data) then Written(yes, data) else Written(no, data)
    case Try(body, _) => Written(body, data)
    case Nested(body) => Written(body, data)
  }

  lemma {:induction false} PlainlyRuns<D>(dialect: Dialect, faults: Faults, p: Prog<D>, s: Plain<D>)
    requires dialect.savepoints && Plainly(p) && !s.poisoned && forall kind, n: nat :: faults(kind, n) == Fine
    ensures var (s', ok) := Meaning(dialect, faults, p, s); ok && !s'.poisoned && s'.data == Written(p, s.data)
  {
    match p
    case Skip =>
    case Write(_) =>
    case Seq(first, second) =>
      PlainlyRuns(dialect, faults, first, s);
      PlainlyRuns(dialect, faults, second, Meaning(dialect, faults, first, s).0);
    case Choose(_, yes, no) =>
      PlainlyRuns(dialect, faults, yes, Tick(dialect, faults, Query, s).0);
      PlainlyRuns(dialect, faults, no, Tick(dialect, faults, Query, s).0);
    case Try(body, _) => PlainlyRuns(dialect, faults, body, s);
    case Nested(body) =>
      var (s1, begun) := Tick(dialect, faults, Begin, s);
      PlainlyRuns(dialect, faults, body, s1);
      var (s2, ok) := Meaning(dialect, faults, body, s1);
      assert faults(Begin, s.clock) == Fine && faults(Release, s2.clock) == Fine;
      MeaningUnfolds(dialect, faults, body, s);
  }

  lemma {:induction false} StaysClean<D>(dialect: Dialect, faults: Faults, p: Prog<D>, s: Plain<D>)
    requires !dialect.errorPoisons && !s.poisoned
    ensures !Meaning(dialect, faults, p, s).0.poisoned
  {
    match p
    case Skip =>
    case Throw =>
    case Write(_) =>
    case Seq(first, second) =>
      StaysClean(dialect, faults, first, s);
      StaysClean(dialect, faults, second, Meaning(dialect, faults, first, s).0);
    case Choose(_, yes, no) =>
      StaysClean(dialect, faults, yes, Tick(dialect, faults, Query, s).0);
      StaysClean(dialect, faults, no, Tick(dialect, faults, Query, s).0);
    case Try(body, handler) =>
      StaysClean(dialect, faults, body, s);
      StaysClean(dialect, faults, handler, Meaning(dialect, faults, body, s).0);
    case Nested(body) =>
      StaysClean(dialect, faults, body, Tick(dialect, faults, Begin, s).0);
  }

  // ---------- The connection object ----------

  /** One transaction's connection, changed in place by every statement. */
  class Connection<D> {
    const dialect: Dialect
    const faults: Faults
    var data: D
    var stack: seq<Savepoint<D>>
    var poisoned: bool
    var clock: nat

    constructor (dialect: Dialect, faults: Faults, data: D)
      ensures this.dialect == dialect && this.faults == faults
      ensures View() == Conn(data, [], false, 0)
    {
      this.dialect, this.faults, this.data := dialect, faults, data;
      stack, poisoned, clock := [], false, 0;
    }

    ghost function View(): Conn<D>
      reads this
    {
      Conn(data, stack, poisoned, clock)
    }

    method Refuse()
      modifies this
      ensures View() == RefusedConn(dialect, old(View()))
    {
      clock := clock + 1;
      poisoned := poisoned || dialect.errorPoisons;
    }

    method Query(f: D -> D) returns (ok: bool)
      modifies this
      ensures (View(), ok) == DoWrite(dialect, faults, f, old(View()))
    {
      var fault := faults(Kind.Query, clock);
      if poisoned || fault == Refused {
        Refuse();
        return false;
      }
      data, clock := f(data), clock + 1;
      return fault == Fine;
    }

    method Read() returns (ok: bool)
      modifies this
      ensures (View(), ok) == DoRead(dialect, faults, old(View()))
    {
      var fault := faults(Kind.Query, clock);
      if poisoned || fault == Refused {
        Refuse();
        return false;
      }
      clock := clock + 1;
      return fault == Fine;
    }

    method SetSavepoint(name: nat) returns (ok: bool)
      modifies this
      ensures (View(), ok) == DoSavepoint(dialect, faults, name, old(View()))
    {
      var fault := faults(Begin, clock);
      if poisoned || fault == Refused {
        Refuse();
        return false;
      }
      stack, clock := Kept(dialect, stack, name) + [Savepoint(name, data)], clock + 1;
      return fault == Fine;
    }

    method ReleaseSavepoint(name: nat) returns (ok: bool)
      modifies this
      ensures (View(), ok) == DoRelease(dialect, faults, name, old(View()))
    {
      var fault := faults(Release, clock);
      var i := LastIndex(stack, name);
      if poisoned || fault == Refused || i < 0 {
        Refuse();
        return false;
      }
      stack := stack[..i] + if dialect.releaseCutsLater then [] else stack[i + 1..];
      clock := clock + 1;
      return fault == Fine;
    }

    method RollbackTo(name: nat) returns (ok: bool)
      modifies this
      ensures (View(), ok) == DoRollbackTo(dialect, faults, name, old(View()))
    {
      var fault := faults(Rollback, clock);
      var i := LastIndex(stack, name);
      if fault == Refused || i < 0 {
        Refuse();
        return false;
      }
      data, stack, poisoned, clock := stack[i].data, stack[..i + 1], false, clock + 1;
      return fault == Fine;
    }

    /** Runs a callback in the scope of an open transaction; false when it throws. */
    method Run(p: Prog<D>, depth: nat) returns (ok: bool)
      modifies this
      ensures (View(), ok) == Exec(dialect, faults, p, depth, old(View()))
      decreases p, 0
    {
      match p
      case Skip => ok := true;
      case Throw => ok := false;
      case Write(f) => ok := Query(f);
      case Seq(first, second) =>
        ok := Run(first, depth);
        if ok { ok := Run(second, depth); }
      case Choose(test, yes, no) =>
        var read := data;
        ok := Read();
        if ok {
          if test(read) { ok := Run(yes, depth); } else { ok := Run(no, depth); }
        }
      case Try(body, handler) =>
        ok := Run(body, depth);
        if !ok { ok := Run(handler, depth); }
      case Nested(body) => ok := Transaction(body, depth);
    }

    /** A `transaction` call made at depth 1 or more. */
    method Transaction(callback: Prog<D>, depth: nat) returns (ok: bool)
      modifies this
      ensures (View(), ok) == Exec(dialect, faults, Nested(callback), depth, old(View()))
      ensures NoLostRelease(faults) && NoRefusedRollback(faults) ==>
              (Plain(data, poisoned, clock), ok)
                == Meaning(dialect, faults, Nested(callback), Plain(old(data), old(poisoned), old(clock)))
      decreases callback, 1
    {
      ghost var before := View();
      if NoLostRelease(faults) { SavepointsMeanSnapshots(dialect, faults, Nested(callback), depth, before); }
      if !dialect.savepoints {
        return false;
      }
      var begun := SetSavepoint(depth + 1);
      if !begun {
        return false;
      }
      ok := Run(callback, depth + 1);
      if ok {
        ok := ReleaseSavepoint(depth + 1);
      }
      if !ok {
        var _ := RollbackTo(depth + 1);
      }
    }
  }
}
