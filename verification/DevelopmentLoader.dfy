/** Loading a desktop application's entry while source files change under it. */
module DevelopmentLoader {
  import opened Wrappers

  /** A loaded entry, with the revisions its modules were read at. */
  datatype Entry = Entry(readAt: set<nat>)

  /** One asynchronous loading loop: before a pass, importing, or waiting for the entry's environment. */
  datatype Loop = Top | Importing(expected: nat, readAt: set<nat>) | AwaitingEnv(expected: nat, readAt: set<nat>)

  /** `loops` are all loops ever started and not ended; `loading` says whether a loop's promise is held.
      `cache`: the revisions the runner's cached modules were read at. */
  datatype State = State(
    current: Option<Entry>, loading: bool, dirty: bool, revision: nat, stopped: bool, loops: seq<Loop>, cache: set<nat>)

  const INITIAL: State := State(None, false, false, 0, false, [], {})

  datatype Change = Relevant | NativeConfiguration | Irrelevant

  datatype Event =
    | LoadCalled
    | Updated(change: Change)
    | StopCalled
    | PassBegun(i: nat)
    | SourceRead(i: nat)
    | CacheRead(i: nat, at: nat)
    | ImportEnded(i: nat, ok: bool)
    | EnvEnded(i: nat, ok: bool)

  predicate Possible(s: State, e: Event) {
    match e
    case PassBegun(i) => i < |s.loops| && s.loops[i].Top?
    case SourceRead(i) => i < |s.loops| && s.loops[i].Importing?
    case CacheRead(i, at) => i < |s.loops| && s.loops[i].Importing? && at in s.cache
    case ImportEnded(i, _) => i < |s.loops| && s.loops[i].Importing?
    case EnvEnded(i, _) => i < |s.loops| && s.loops[i].AwaitingEnv?
    case _ => true
  }

  /** A loop ends, and its `finally` forgets the promise. */
  function End(s: State, i: nat): State
    requires i < |s.loops|
  {
    s.(loading := false, loops := s.loops[..i] + s.loops[i + 1..])
  }

  function Reading(s: State, i: nat, at: nat): seq<Loop>
    requires i < |s.loops| && s.loops[i].Importing?
  {
    s.loops[i := Importing(s.loops[i].expected, s.loops[i].readAt + {at})]
  }

  function Step(s: State, e: Event): State
    requires Possible(s, e)
  {
    match e
    case LoadCalled =>
      if s.stopped || s.current.Some? || s.loading then s else s.(loading := true, loops := s.loops + [Top])
    case Updated(change) =>
      if !change.Relevant? then s else s.(current := None, dirty := true, revision := s.revision + 1)
    case StopCalled => s.(stopped := true)
    case PassBegun(i) =>
      if s.stopped then End(s, i)
      else s.(cache := if s.dirty then {} else s.cache, dirty := false,
              loops := s.loops[i := Importing(s.revision, {})])
    case SourceRead(i) => s.(cache := s.cache + {s.revision}, loops := Reading(s, i, s.revision))
    case CacheRead(i, at) => s.(loops := Reading(s, i, at))
    case ImportEnded(i, ok) =>
      if !ok then End(s, i) else s.(loops := s.loops[i := AwaitingEnv(s.loops[i].expected, s.loops[i].readAt)])
    case EnvEnded(i, ok) =>
      if !ok then End(s, i)
      else if s.loops[i].expected != s.revision then s.(loops := s.loops[i := Top])
      else End(s.(current := Some(Entry(s.loops[i].readAt))), i)
  }

  predicate Feasible(s: State, run: seq<Event>)
    decreases run
  {
    run == [] || (Possible(s, run[0]) && Feasible(Step(s, run[0]), run[1..]))
  }

  function Run(s: State, run: seq<Event>): State
    requires Feasible(s, run)
    decreases run
  {
    if run == [] then s else Run(Step(s, run[0]), run[1..])
  }

  // ---------- Invariants of every run ----------

  /** Every module was read at the present revision. */
  predicate Whole(readAt: set<nat>, revision: nat) {
    readAt <= {revision}
  }

  predicate LoopSound(s: State, l: Loop) {
    !l.Top? ==> l.expected <= s.revision && (l.expected == s.revision ==> !s.dirty && Whole(l.readAt, s.revision))
  }

  ghost predicate Inv(s: State) {
    && (s.current.Some? ==> !s.dirty && Whole(s.current.value.readAt, s.revision) && !s.loading)
    && (!s.dirty ==> Whole(s.cache, s.revision))
    && |s.loops| == (if s.loading then 1 else 0)
    && (forall i :: 0 <= i < |s.loops| ==> LoopSound(s, s.loops[i]))
  }

  lemma StepKeeps(s: State, e: Event)
    requires Inv(s) && Possible(s, e)
    ensures Inv(Step(s, e))
  {
  }

  lemma {:induction false} RunKeeps(s: State, run: seq<Event>)
    requires Inv(s) && Feasible(s, run)
    ensures Inv(Run(s, run))
    decreases run
  {
    if run != [] {
      StepKeeps(s, run[0]);
      RunKeeps(Step(s, run[0]), run[1..]);
    }
  }

  /** In every interleaving: a cached entry was imported wholly at the present revision with nothing dirty,
      and at most one loop is in flight. */
  lemma NeverStale(run: seq<Event>)
    requires Feasible(INITIAL, run)
    ensures var s := Run(INITIAL, run);
            (s.current.Some? ==> !s.dirty && s.current.value.readAt <= {s.revision}) && |s.loops| <= 1
  {
    RunKeeps(INITIAL, run);
  }

  // ---------- Loading gets there ----------

  /** After a load call something is cached, or the one loop runs, unless the loader was stopped. */
  lemma LoadStarts(s: State)
    requires Inv(s)
    ensures var t := Step(s, LoadCalled);
            && (t.stopped || t.current.Some? || |t.loops| == 1)
            && (!s.stopped && s.current.None? && !s.loading ==> t.loading && t.loops == [Top])
            && t.current == s.current && t.revision == s.revision && t.dirty == s.dirty && t.cache == s.cache
  {
  }

  /** From there one undisturbed pass, reading sources freshly, caches an entry of the present revision. */
  lemma LoadReaches(s: State)
    requires Inv(s) && !s.stopped && s.current.None? && !s.loading
    ensures var run := [LoadCalled, PassBegun(0), SourceRead(0), ImportEnded(0, true), EnvEnded(0, true)];
            Feasible(s, run) && Run(s, run).current == Some(Entry({s.revision})) && !Run(s, run).loading
  {
    var s1 := Step(s, LoadCalled);
    assert s1.loops == [Top];
    var s2 := Step(s1, PassBegun(0));
    assert s2.loops == [Importing(s.revision, {})];
    var none: set<nat> := {};
    assert none + {s.revision} == {s.revision};
    var s3 := Step(s2, SourceRead(0));
    assert s3.loops == [Importing(s.revision, {s.revision})];
    var s4 := Step(s3, ImportEnded(0, true));
    assert s4.loops == [AwaitingEnv(s.revision, {s.revision})];
    var s5 := Step(s4, EnvEnded(0, true));
    assert Possible(s1, PassBegun(0)) && Possible(s2, SourceRead(0));
    assert Possible(s3, ImportEnded(0, true)) && Possible(s4, EnvEnded(0, true));
    hide Step, Possible;
    RunMore(s4, EnvEnded(0, true), []);
    RunMore(s3, ImportEnded(0, true), [EnvEnded(0, true)]);
    RunMore(s2, SourceRead(0), [ImportEnded(0, true), EnvEnded(0, true)]);
    RunMore(s1, PassBegun(0), [SourceRead(0), ImportEnded(0, true), EnvEnded(0, true)]);
    RunMore(s, LoadCalled, [PassBegun(0), SourceRead(0), ImportEnded(0, true), EnvEnded(0, true)]);
    assert [EnvEnded(0, true)] == [EnvEnded(0, true)] + [];
    assert Run(s5, []) == s5;
  }

  lemma RunMore(s: State, e: Event, rest: seq<Event>)
    requires Possible(s, e) && Feasible(Step(s, e), rest)
    ensures Feasible(s, [e] + rest) && Run(s, [e] + rest) == Run(Step(s, e), rest)
  {
    assert ([e] + rest)[1..] == rest;
  }

  // ---------- When a pass succeeds ----------

  function Changes(run: seq<Event>): nat {
    if run == [] then 0 else (if run[0] == Updated(Relevant) then 1 else 0) + Changes(run[1..])
  }

  /** Moves no loop from one phase to the next. */
  predicate Bystander(e: Event) {
    !e.PassBegun? && !e.ImportEnded? && !e.EnvEnded?
  }

  lemma {:induction false} BystandersKeepPhase(s: State, run: seq<Event>)
    requires Inv(s) && |s.loops| == 1 && !s.loops[0].Top? && Feasible(s, run) && forall e <- run :: Bystander(e)
    ensures var t := Run(s, run);
            && Inv(t) && |t.loops| == 1 && t.loops[0].Importing? == s.loops[0].Importing?
            && t.loops[0].AwaitingEnv? == s.loops[0].AwaitingEnv?
            && t.loops[0].expected == s.loops[0].expected && t.revision == s.revision + Changes(run)
    decreases run
  {
    if run != [] {
      assert Bystander(run[0]);
      StepKeeps(s, run[0]);
      BystandersKeepPhase(Step(s, run[0]), run[1..]);
    }
  }

  /** A pass whose import and environment succeed yields an entry exactly when no relevant change arrived
      from its beginning to its end; otherwise the loop makes another pass. */
  lemma PassExactly(s: State, during: seq<Event>, later: seq<Event>)
    requires Inv(s) && s.loops == [Top] && !s.stopped
    requires (forall e <- during :: Bystander(e)) && (forall e <- later :: Bystander(e))
    requires Feasible(Step(s, PassBegun(0)), during)
    requires var imported := Run(Step(s, PassBegun(0)), during);
             && Possible(imported, ImportEnded(0, true))
             && Feasible(Step(imported, ImportEnded(0, true)), later)
    ensures var imported := Run(Step(s, PassBegun(0)), during);
            var awaited := Run(Step(imported, ImportEnded(0, true)), later);
            && Possible(awaited, EnvEnded(0, true))
            && var t := Step(awaited, EnvEnded(0, true));
            if Changes(during) + Changes(later) == 0 then t.current.Some? && t.loops == [] && !t.loading
            else t.loops == [Top]
  {
    StepKeeps(s, PassBegun(0));
    BystandersKeepPhase(Step(s, PassBegun(0)), during);
    var imported := Run(Step(s, PassBegun(0)), during);
    StepKeeps(imported, ImportEnded(0, true));
    BystandersKeepPhase(Step(imported, ImportEnded(0, true)), later);
  }

  // ---------- The loader ----------

  /** What else happens while a pass waits: a call from outside, or the next module of the import. */
  datatype Happening = LoadRequested | FileUpdated(change: Change) | StopRequested | ModuleNeeded(cachedAt: Option<nat>)

  datatype Pass = Pass(during: seq<Happening>, imported: bool, later: seq<Happening>, ready: bool)
  datatype Outcome = Loaded(entry: Entry) | Rejected | Retrying

  lemma {:induction false} Extends(s: State, run: seq<Event>, e: Event)
    requires Feasible(s, run) && Possible(Run(s, run), e)
    ensures Feasible(s, run + [e]) && Run(s, run + [e]) == Step(Run(s, run), e)
    decreases run
  {
    if run == [] {
      assert (run + [e])[1..] == [];
    } else {
      assert (run + [e])[1..] == run[1..] + [e];
      Extends(Step(s, run[0]), run[1..], e);
    }
  }

  /** A trace of everything that happened leads to this state. */
  ghost predicate Traced(trace: seq<Event>, s: State) {
    Feasible(INITIAL, trace) && Run(INITIAL, trace) == s && Inv(s)
  }

  lemma Happens(trace: seq<Event>, s: State, e: Event)
    requires Traced(trace, s) && Possible(s, e)
    ensures Traced(trace + [e], Step(s, e))
  {
    Extends(INITIAL, trace, e);
    StepKeeps(s, e);
  }

  /** Still the same pass, in the same phase. */
  predicate SamePhase(a: Loop, b: Loop) {
    !a.Top? && !b.Top? && a.Importing? == b.Importing? && a.expected == b.expected
  }

  class Loader {
    var current: Option<Entry>
    var loading: bool
    var dirty: bool
    var revision: nat
    var stopped: bool
    var loops: seq<Loop>
    var cache: set<nat>
    /** Everything that has happened. */
    ghost var trace: seq<Event>

    ghost function Now(): State
      reads this
    {
      State(current, loading, dirty, revision, stopped, loops, cache)
    }

    ghost predicate Ready()
      reads this
    {
      Traced(trace, Now())
    }

    constructor ()
      ensures Ready() && trace == []
    {
      current, loading, dirty, revision, stopped, loops, cache, trace := None, false, false, 0, false, [], {}, [];
    }

    method Load()
      requires Ready()
      modifies this
      ensures Ready() && Now() == Step(old(Now()), LoadCalled) && trace == old(trace) + [LoadCalled]
    {
      Happens(trace, Now(), LoadCalled);
      trace := trace + [LoadCalled];
      if stopped || current.Some? || loading {
        return;
      }
      loading := true;
      loops := loops + [Top];
    }

    method HotUpdate(change: Change)
      requires Ready()
      modifies this
      ensures Ready() && Now() == Step(old(Now()), Updated(change)) && trace == old(trace) + [Updated(change)]
    {
      Happens(trace, Now(), Updated(change));
      trace := trace + [Updated(change)];
      if !change.Relevant? {
        return;
      }
      current := None;
      dirty := true;
      revision := revision + 1;
    }

    method Stop()
      requires Ready()
      modifies this
      ensures Ready() && Now() == Step(old(Now()), StopCalled) && trace == old(trace) + [StopCalled]
    {
      Happens(trace, Now(), StopCalled);
      trace := trace + [StopCalled];
      stopped := true;
    }

    /** The runner takes a module from its cache, or reads its source as it is now. */
    method ReadModule(cachedAt: Option<nat>)
      requires Ready() && |loops| == 1 && loops[0].Importing?
      modifies this
      ensures Ready() && |loops| == 1 && SamePhase(old(loops)[0], loops[0])
      ensures loops[0].readAt
              == old(loops)[0].readAt
                + {if cachedAt.Some? && cachedAt.value in old(cache) then cachedAt.value else revision}
    {
      if cachedAt.Some? && cachedAt.value in cache {
        Happens(trace, Now(), CacheRead(0, cachedAt.value));
        trace := trace + [CacheRead(0, cachedAt.value)];
        loops := [Importing(loops[0].expected, loops[0].readAt + {cachedAt.value})];
      } else {
        Happens(trace, Now(), SourceRead(0));
        trace := trace + [SourceRead(0)];
        cache := cache + {revision};
        loops := [Importing(loops[0].expected, loops[0].readAt + {revision})];
      }
    }

    method Happen(h: Happening)
      requires Ready() && |loops| == 1 && !loops[0].Top?
      modifies this
      ensures Ready() && |loops| == 1 && SamePhase(old(loops)[0], loops[0])
    {
      match h
      case LoadRequested => Load();
      case FileUpdated(change) => HotUpdate(change);
      case StopRequested => Stop();
      case ModuleNeeded(cachedAt) => if loops[0].Importing? { ReadModule(cachedAt); }
    }

    /** While the loop waits. */
    method Wait(happenings: seq<Happening>)
      requires Ready() && |loops| == 1 && !loops[0].Top?
      modifies this
      ensures Ready() && |loops| == 1 && SamePhase(old(loops)[0], loops[0])
    {
      for i := 0 to |happenings|
        invariant Ready() && |loops| == 1 && SamePhase(old(loops)[0], loops[0])
      {
        Happen(happenings[i]);
      }
    }

    method BeginPass()
      requires Ready() && loops == [Top] && !stopped
      modifies this
      ensures Ready() && Now() == Step(old(Now()), PassBegun(0)) && trace == old(trace) + [PassBegun(0)]
    {
      Happens(trace, Now(), PassBegun(0));
      trace := trace + [PassBegun(0)];
      var expected := revision;
      if dirty {
        cache := {};
        dirty := false;
      }
      loops := [Importing(expected, {})];
    }

    method Fail(e: Event)
      requires Ready() && |loops| == 1 && Possible(Now(), e)
               && ((e == PassBegun(0) && stopped) || e == ImportEnded(0, false) || e == EnvEnded(0, false))
      modifies this
      ensures Ready() && Now() == Step(old(Now()), e) && trace == old(trace) + [e]
      ensures loops == [] && !loading && current == old(current)
    {
      Happens(trace, Now(), e);
      trace := trace + [e];
      loading := false;
      loops := [];
    }

    method EndImport()
      requires Ready() && |loops| == 1 && loops[0].Importing?
      modifies this
      ensures Ready() && Now() == Step(old(Now()), ImportEnded(0, true)) && trace == old(trace) + [ImportEnded(0, true)]
    {
      Happens(trace, Now(), ImportEnded(0, true));
      trace := trace + [ImportEnded(0, true)];
      loops := [AwaitingEnv(loops[0].expected, loops[0].readAt)];
    }

    method EndEnv()
      requires Ready() && |loops| == 1 && loops[0].AwaitingEnv?
      modifies this
      ensures Ready() && Now() == Step(old(Now()), EnvEnded(0, true)) && trace == old(trace) + [EnvEnded(0, true)]
    {
      Happens(trace, Now(), EnvEnded(0, true));
      trace := trace + [EnvEnded(0, true)];
      if loops[0].expected != revision {
        loops := [Top];
        return;
      }
      current := Some(Entry(loops[0].readAt));
      loading := false;
      loops := [];
    }

    /** The loading loop. `passes` says how each pass goes; the loop may still be retrying after them. An
        entry it returns is the cached one and whole at the present revision. */
    method RunLoop(passes: seq<Pass>) returns (outcome: Outcome)
      requires Ready() && loops == [Top]
      modifies this
      ensures Ready()
      ensures outcome.Loaded? ==>
              current == Some(outcome.entry) && outcome.entry.readAt <= {revision} && !dirty && loops == [] && !loading
      ensures outcome.Rejected? ==> loops == [] && !loading && current.None?
      ensures outcome.Retrying? ==> loops == [Top] && loading
    {
      var i := 0;
      while i < |passes|
        invariant Ready() && loops == [Top] && i <= |passes|
      {
        if stopped {
          Fail(PassBegun(0));
          return Rejected;
        }
        BeginPass();
        Wait(passes[i].during);
        if !passes[i].imported {
          Fail(ImportEnded(0, false));
          return Rejected;
        }
        EndImport();
        Wait(passes[i].later);
        if !passes[i].ready {
          Fail(EnvEnded(0, false));
          return Rejected;
        }
        EndEnv();
        if current.Some? {
          return Loaded(current.value);
        }
        i := i + 1;
      }
      outcome := Retrying;
    }
  }
}
