/** The supervisor that owns a command's child process and reports it as a stream of JSON envelopes. */
module JsonProcess {
  import opened Wrappers

  /** A result message as received; `ok` is absent when it is not a boolean, `event` when `data` has none. */
  datatype Result = Result(
    versioned: bool, command: string, ok: Option<bool>, diagnosticsValid: bool, event: Option<string>, body: string)

  datatype Message = Noise | ResultMessage(result: Result)

  datatype FailureCode = CommandTimeout | ShutdownTimeout | Aborted | ProcessFailed

  /** A line of output. */
  datatype Written =
    | Progress(result: Result)
    | Own(result: Result)
    | Failed(command: string, event: Option<string>, code: FailureCode)

  const EVENTS: set<string> := {"dev", "start", "studio"}

  predicate IsValid(command: string, r: Result) {
    r.versioned && r.command == command && r.ok.Some? && r.diagnosticsValid
  }

  predicate IsOngoing(command: string, r: Result) {
    command in EVENTS && (r.event == Some("started") || r.event == Some("ready"))
  }

  predicate WrittenOk(w: Written) {
    w.Own? && w.result.ok == Some(true)
  }

  datatype Event =
    | Received(message: Message)
    | SpawnError
    | SendError
    | DeadlineReached
    | Signalled
    | ShutdownReached
    | Closed(code: Option<int>)

  datatype State = State(
    terminal: Option<Result>, badProtocol: bool, deadlineExpired: bool, interrupted: bool, shutdownExpired: bool,
    deadlineSet: bool, shutdownSet: bool, output: seq<Written>, exit: Option<int>)

  const INITIAL: State := State(None, false, false, false, false, true, false, [], None)

  /** Timers fire only while set, and nothing follows the close. */
  predicate Possible(s: State, e: Event) {
    s.exit.None? && (e.DeadlineReached? ==> s.deadlineSet) && (e.ShutdownReached? ==> s.shutdownSet)
  }

  function OnMessage(command: string, s: State, m: Message): State {
    if s.deadlineExpired || s.badProtocol || m.Noise? then s
    else if !IsValid(command, m.result) || s.terminal.Some? then s.(badProtocol := true)
    else if !IsOngoing(command, m.result) then s.(terminal := Some(m.result))
    else s.(deadlineSet := false, output := s.output + [Progress(m.result)])
  }

  predicate ExitAgrees(terminal: Option<Result>, code: Option<int>) {
    terminal.Some? && code.Some? && (if terminal.value.ok == Some(true) then code.value == 0 else code.value != 0)
  }

  function OnClose(command: string, s: State, code: Option<int>): State {
    var done := s.(deadlineSet := false, shutdownSet := false);
    if !s.badProtocol && !s.deadlineExpired && ExitAgrees(s.terminal, code) then
      done.(output := s.output + [Own(s.terminal.value)], exit := code)
    else
      var failure := if s.deadlineExpired then CommandTimeout else if s.shutdownExpired then ShutdownTimeout
                     else if s.interrupted then Aborted else ProcessFailed;
      done.(output := s.output + [Failed(command, if command in EVENTS then Some("failed") else None, failure)],
            exit := Some(if s.interrupted && !s.shutdownExpired then 130 else 1))
  }

  function Step(command: string, s: State, e: Event): State {
    match e
    case Received(m) => OnMessage(command, s, m)
    case SpawnError => s.(badProtocol := true)
    case SendError => s.(badProtocol := true)
    case DeadlineReached => s.(deadlineExpired := true, deadlineSet := false)
    case Signalled => if s.interrupted then s else s.(interrupted := true, shutdownSet := true)
    case ShutdownReached => s.(shutdownExpired := true, shutdownSet := false)
    case Closed(code) => OnClose(command, s, code)
  }

  predicate Feasible(command: string, s: State, events: seq<Event>)
    decreases events
  {
    events == [] || (Possible(s, events[0]) && Feasible(command, Step(command, s, events[0]), events[1..]))
  }

  function Run(command: string, s: State, events: seq<Event>): State
    decreases events
  {
    if events == [] then s else Run(command, Step(command, s, events[0]), events[1..])
  }

  // ---------- The handlers ----------

  class Supervisor {
    const command: string
    var terminal: Option<Result>
    var badProtocol: bool
    var deadlineExpired: bool
    var interrupted: bool
    var shutdownExpired: bool
    var deadlineSet: bool
    var shutdownSet: bool
    var output: seq<Written>
    var exit: Option<int>

    ghost function Now(): State
      reads this
    {
      State(terminal, badProtocol, deadlineExpired, interrupted, shutdownExpired,
            deadlineSet, shutdownSet, output, exit)
    }

    constructor (command: string)
      ensures this.command == command && Now() == INITIAL
    {
      this.command := command;
      terminal, badProtocol, deadlineExpired, interrupted, shutdownExpired := None, false, false, false, false;
      deadlineSet, shutdownSet, output, exit := true, false, [], None;
    }

    method Receive(message: Message)
      requires Possible(Now(), Received(message))
      modifies this
      ensures Now() == Step(command, old(Now()), Received(message))
    {
      if deadlineExpired || badProtocol || message.Noise? {
        return;
      }
      var result := message.result;
      if !IsValid(command, result) || terminal.Some? {
        badProtocol := true;
        return;
      }
      var ongoing := IsOngoing(command, result);
      if !ongoing {
        terminal := Some(result);
      } else {
        deadlineSet := false;
      }
      if ongoing {
        output := output + [Progress(result)];
      }
    }

    method Break(e: Event)
      requires (e.SpawnError? || e.SendError?) && Possible(Now(), e)
      modifies this
      ensures Now() == Step(command, old(Now()), e)
    {
      badProtocol := true;
    }

    method Deadline()
      requires Possible(Now(), DeadlineReached)
      modifies this
      ensures Now() == Step(command, old(Now()), DeadlineReached)
    {
      deadlineExpired := true;
      deadlineSet := false;
    }

    method Stop()
      requires Possible(Now(), Signalled)
      modifies this
      ensures Now() == Step(command, old(Now()), Signalled)
    {
      if interrupted {
        return;
      }
      interrupted := true;
      shutdownSet := true;
    }

    method ShutdownDeadline()
      requires Possible(Now(), ShutdownReached)
      modifies this
      ensures Now() == Step(command, old(Now()), ShutdownReached)
    {
      shutdownExpired := true;
      shutdownSet := false;
    }

    method Close(code: Option<int>)
      requires Possible(Now(), Closed(code))
      modifies this
      ensures Now() == Step(command, old(Now()), Closed(code))
    {
      deadlineSet, shutdownSet := false, false;
      if !badProtocol && !deadlineExpired && ExitAgrees(terminal, code) {
        output := output + [Own(terminal.value)];
        exit := code;
        return;
      }
      var failure := if deadlineExpired then CommandTimeout else if shutdownExpired then ShutdownTimeout
                     else if interrupted then Aborted else ProcessFailed;
      output := output + [Failed(command, if command in EVENTS then Some("failed") else None, failure)];
      exit := Some(if interrupted && !shutdownExpired then 130 else 1);
    }

    /** Everything that happens to one child, ending in its close. */
    method Supervise(events: seq<Event>, code: Option<int>)
      requires Now() == INITIAL && Feasible(command, INITIAL, events + [Closed(code)])
      modifies this
      ensures Now() == Run(command, INITIAL, events + [Closed(code)])
      ensures exit.Some? && output != [] && !output[|output| - 1].Progress?
      ensures forall i :: 0 <= i < |output| - 1 ==> ProperProgress(command, output[i])
      ensures exit == Some(0) <==> WrittenOk(output[|output| - 1])
    {
      var all := events + [Closed(code)];
      OneTerminalEnvelope(command, events, code);
      assert all[0..] == all;
      for i := 0 to |all|
        invariant Feasible(command, Now(), all[i..])
        invariant Run(command, Now(), all[i..]) == Run(command, INITIAL, all)
      {
        assert all[i..][0] == all[i] && all[i..][1..] == all[i + 1..];
        match all[i]
        case Received(m) => Receive(m);
        case SpawnError => Break(SpawnError);
        case SendError => Break(SendError);
        case DeadlineReached => Deadline();
        case Signalled => Stop();
        case ShutdownReached => ShutdownDeadline();
        case Closed(c) => Close(c);
      }
      assert all[|all|..] == [];
    }
  }

  // ---------- Every run ----------

  /** A well-formed envelope of this command. */
  predicate WellFormed(command: string, r: Result) {
    r.versioned && r.command == command && r.ok.Some? && r.diagnosticsValid
  }

  /** One that says a long-running command has started or is ready. */
  predicate SaysProgress(command: string, r: Result) {
    && WellFormed(command, r) && command in {"dev", "start", "studio"}
    && (r.event == Some("started") || r.event == Some("ready"))
  }

  /** A validated envelope of a command that reports progress. */
  predicate ProperProgress(command: string, w: Written) {
    w.Progress? && SaysProgress(command, w.result)
  }

  /** Until the close, only progress has been written, and the terminal result is valid. */
  ghost predicate Inv(command: string, s: State) {
    && (forall i :: 0 <= i < |s.output| ==> ProperProgress(command, s.output[i]))
    && (s.terminal.Some? ==> IsValid(command, s.terminal.value) && !IsOngoing(command, s.terminal.value))
    && (s.shutdownExpired ==> s.interrupted) && (s.shutdownSet ==> s.interrupted)
  }

  lemma StepKeeps(command: string, s: State, e: Event)
    requires Inv(command, s) && Possible(s, e) && !e.Closed?
    ensures Inv(command, Step(command, s, e)) && Step(command, s, e).exit.None?
  {
  }

  lemma NotClosedYet(command: string, s: State, e: Event, rest: seq<Event>)
    requires Feasible(command, Step(command, s, e), rest) && rest != []
    ensures !e.Closed?
  {
    assert Possible(Step(command, s, e), rest[0]);
  }

  lemma {:induction false} RunThenClose(command: string, s: State, events: seq<Event>, code: Option<int>)
    requires Inv(command, s) && s.exit.None? && Feasible(command, s, events + [Closed(code)])
    ensures Inv(command, Run(command, s, events)) && Run(command, s, events).exit.None?
    ensures Run(command, s, events + [Closed(code)]) == OnClose(command, Run(command, s, events), code)
    decreases events
  {
    var all := events + [Closed(code)];
    if events == [] {
      assert all[1..] == [];
    } else {
      assert all[0] == events[0] && all[1..] == events[1..] + [Closed(code)];
      NotClosedYet(command, s, events[0], all[1..]);
      StepKeeps(command, s, events[0]);
      RunThenClose(command, Step(command, s, events[0]), events[1..], code);
    }
  }

  /** Whatever happens up to the close, the output is validated progress followed by exactly one terminal
      envelope, and the exit code is 0 exactly when that envelope says ok. */
  lemma OneTerminalEnvelope(command: string, events: seq<Event>, code: Option<int>)
    requires Feasible(command, INITIAL, events + [Closed(code)])
    ensures var s := Run(command, INITIAL, events + [Closed(code)]);
            && s.output != [] && !s.output[|s.output| - 1].Progress? && s.exit.Some?
            && (forall i :: 0 <= i < |s.output| - 1 ==> ProperProgress(command, s.output[i]))
            && (s.exit == Some(0) <==> WrittenOk(s.output[|s.output| - 1]))
  {
    RunThenClose(command, INITIAL, events, code);
  }

  /** Once a terminal result has arrived nothing more is written before the close. */
  lemma {:induction false} SilentAfterTerminal(command: string, s: State, events: seq<Event>)
    requires s.terminal.Some? && forall e <- events :: !e.Closed?
    ensures Run(command, s, events).output == s.output && Run(command, s, events).terminal == s.terminal
    decreases events
  {
    if events != [] {
      assert !events[0].Closed?;
      SilentAfterTerminal(command, Step(command, s, events[0]), events[1..]);
    }
  }

  /** What was written stays written. */
  lemma {:induction false} NothingRetracted(command: string, s: State, events: seq<Event>)
    ensures s.output <= Run(command, s, events).output
    decreases events
  {
    if events != [] {
      hide *;
      NothingRetracted(command, Step(command, s, events[0]), events[1..]);
      RunUnfolds(command, s, events);
      StepExtends(command, s, events[0]);
    }
  }

  lemma StepExtends(command: string, s: State, e: Event)
    ensures s.output <= Step(command, s, e).output
  {
  }

  /** The progress messages among the events, in order. */
  function Progressed(command: string, events: seq<Event>): seq<Written> {
    if events == [] then []
    else
      var rest := Progressed(command, events[1..]);
      if IsResult(events[0]) && SaysProgress(command, events[0].message.result)
      then [Progress(events[0].message.result)] + rest else rest
  }

  /** As long as nothing breaks the protocol or the deadline, exactly the progress received is written. */
  lemma {:induction false} ProgressInOrder(command: string, s: State, events: seq<Event>)
    requires forall e <- events :: !e.Closed?
    ensures var t := Run(command, s, events);
            (s.badProtocol || s.deadlineExpired ==> t.badProtocol || t.deadlineExpired)
            && (!t.badProtocol && !t.deadlineExpired ==> t.output == s.output + Progressed(command, events))
    decreases events
  {
    if events != [] {
      assert !events[0].Closed?;
      var next := Step(command, s, events[0]);
      ProgressInOrder(command, next, events[1..]);
      ProgressStep(command, s, events[0]);
      hide Run, Step;
      assert Run(command, s, events) == Run(command, next, events[1..]) by { RunUnfolds(command, s, events); }
    }
  }

  lemma RunUnfolds(command: string, s: State, events: seq<Event>)
    requires events != []
    ensures Run(command, s, events) == Run(command, Step(command, s, events[0]), events[1..])
  {
  }

  lemma ProgressStep(command: string, s: State, e: Event)
    requires !e.Closed?
    ensures var next := Step(command, s, e);
            && (s.badProtocol || s.deadlineExpired ==> next.badProtocol || next.deadlineExpired)
            && (!next.badProtocol && !next.deadlineExpired ==>
                next.output == s.output + if IsResult(e) && SaysProgress(command, e.message.result)
                                          then [Progress(e.message.result)] else [])
  {
  }

  // ---------- When the child's own result is what is reported ----------

  /** No event that spoils the protocol or ends the time. */
  predicate Calm(events: seq<Event>) {
    forall i :: 0 <= i < |events| ==> !events[i].SpawnError? && !events[i].SendError? && !events[i].DeadlineReached?
  }

  predicate IsResult(e: Event) {
    e.Received? && e.message.ResultMessage?
  }

  predicate ProgressOnly(command: string, events: seq<Event>) {
    forall i :: 0 <= i < |events| && IsResult(events[i]) ==>
      SaysProgress(command, events[i].message.result)
  }

  /** Message i is the child's only final result, valid and after valid progress; no result follows it. */
  predicate ReportedAt(command: string, events: seq<Event>, i: nat, r: Result) {
    && i < |events| && events[i] == Received(ResultMessage(r)) && WellFormed(command, r) && !SaysProgress(command, r)
    && ProgressOnly(command, events[..i])
    && (forall j :: i < j < |events| ==> !IsResult(events[j]))
  }

  ghost predicate Reported(command: string, events: seq<Event>, r: Result) {
    exists i: nat :: ReportedAt(command, events, i, r)
  }

  lemma {:induction false} RunLast(command: string, s: State, events: seq<Event>, e: Event)
    ensures Run(command, s, events + [e]) == Step(command, Run(command, s, events), e)
    decreases events
  {
    if events == [] {
      assert (events + [e])[1..] == [];
    } else {
      assert (events + [e])[1..] == events[1..] + [e];
      RunLast(command, Step(command, s, events[0]), events[1..], e);
    }
  }

  /** What the flags and the terminal result of a run say about its history. */
  ghost predicate Means(command: string, events: seq<Event>, s: State) {
    && (!s.badProtocol && !s.deadlineExpired && s.terminal.None? <==> Calm(events) && ProgressOnly(command, events))
    && (forall r :: !s.badProtocol && !s.deadlineExpired && s.terminal == Some(r) <==>
        Calm(events) && Reported(command, events, r))
  }

  lemma CalmLast(events: seq<Event>, e: Event)
    ensures Calm(events + [e]) <==> Calm(events) && !e.SpawnError? && !e.SendError? && !e.DeadlineReached?
  {
    var all := events + [e];
    assert all[|events|] == e;
    assert forall i :: 0 <= i < |events| ==> all[i] == events[i];
  }

  lemma ProgressLast(command: string, events: seq<Event>, e: Event)
    ensures ProgressOnly(command, events + [e]) <==>
            ProgressOnly(command, events)
              && (IsResult(e) ==> IsValid(command, e.message.result) && IsOngoing(command, e.message.result))
  {
    var all := events + [e];
    assert all[|events|] == e;
    assert forall i :: 0 <= i < |events| ==> all[i] == events[i];
  }

  lemma ReportedLast(command: string, events: seq<Event>, e: Event, r: Result)
    ensures Reported(command, events + [e], r) <==>
            (!IsResult(e) && Reported(command, events, r))
            || (e == Received(ResultMessage(r)) && IsValid(command, r)
                && !IsOngoing(command, r) && ProgressOnly(command, events))
  {
    var all, n := events + [e], |events|;
    assert all[n] == e && all[..n] == events;
    assert forall i :: 0 <= i < n ==> all[i] == events[i] && all[..i] == events[..i];
    if !IsResult(e) && Reported(command, events, r) {
      var i: nat :| ReportedAt(command, events, i, r);
      assert ReportedAt(command, all, i, r);
    }
    if e == Received(ResultMessage(r)) && IsValid(command, r)
      && !IsOngoing(command, r) && ProgressOnly(command, events)
    {
      assert ReportedAt(command, all, n, r);
    }
    if Reported(command, all, r) {
      var i: nat :| ReportedAt(command, all, i, r);
      if i < n {
        assert !IsResult(all[n]);
        assert ReportedAt(command, events, i, r);
      }
    }
  }

  lemma MeansStep(command: string, events: seq<Event>, s: State, e: Event)
    requires Means(command, events, s) && !e.Closed?
    ensures Means(command, events + [e], Step(command, s, e))
  {
    var t := Step(command, s, e);
    CalmLast(events, e);
    ProgressLast(command, events, e);
    hide Calm, ProgressOnly, Reported;
    forall r
      ensures !t.badProtocol && !t.deadlineExpired && t.terminal == Some(r) <==>
              Calm(events + [e]) && Reported(command, events + [e], r)
    {
      ReportedLast(command, events, e, r);
    }
  }

  lemma {:induction false} RunMeans(command: string, events: seq<Event>)
    requires forall i :: 0 <= i < |events| ==> !events[i].Closed?
    ensures Means(command, events, Run(command, INITIAL, events))
    decreases events
  {
    if events == [] {
      assert Calm(events) && ProgressOnly(command, events);
    } else {
      var n := |events| - 1;
      RunMeans(command, events[..n]);
      RunLast(command, INITIAL, events[..n], events[n]);
      assert events == events[..n] + [events[n]];
      MeansStep(command, events[..n], Run(command, INITIAL, events[..n]), events[n]);
    }
  }

  /** The child's result is passed on exactly when the run was calm, that result was its only final one,
      valid and last, and the exit code agrees with it; in every other case a failure is reported. */
  lemma OwnResultExactly(command: string, events: seq<Event>, code: Option<int>, r: Result)
    requires Feasible(command, INITIAL, events + [Closed(code)])
    ensures var s := Run(command, INITIAL, events + [Closed(code)]);
            s.output != [] && (s.output[|s.output| - 1] == Own(r) <==>
                               Calm(events) && Reported(command, events, r) && ExitAgrees(Some(r), code))
  {
    RunThenClose(command, INITIAL, events, code);
    NoneClosed(command, INITIAL, events, code);
    RunMeans(command, events);
    hide Calm, Reported, Run;
  }

  lemma {:induction false} NoneClosed(command: string, s: State, events: seq<Event>, code: Option<int>)
    requires Feasible(command, s, events + [Closed(code)])
    ensures forall i :: 0 <= i < |events| ==> !events[i].Closed?
    decreases events
  {
    if events != [] {
      var all := events + [Closed(code)];
      assert all[0] == events[0] && all[1..] == events[1..] + [Closed(code)];
      NotClosedYet(command, s, events[0], all[1..]);
      NoneClosed(command, Step(command, s, events[0]), events[1..], code);
      assert forall i :: 1 <= i < |events| ==> events[i] == events[1..][i - 1];
    }
  }

  // ---------- What a failure says ----------

  predicate Happened(events: seq<Event>, e: Event) {
    exists i :: 0 <= i < |events| && events[i] == e
  }

  lemma HappenedLast(events: seq<Event>, last: Event, e: Event)
    ensures Happened(events + [last], e) <==> Happened(events, e) || last == e
  {
    var all := events + [last];
    assert all[|events|] == last;
    assert forall i :: 0 <= i < |events| ==> all[i] == events[i];
  }

  ghost predicate FlagsMean(events: seq<Event>, s: State) {
    && (s.deadlineExpired <==> Happened(events, DeadlineReached))
    && (s.shutdownExpired <==> Happened(events, ShutdownReached))
    && (s.interrupted <==> Happened(events, Signalled))
  }

  lemma FlagsStep(command: string, events: seq<Event>, s: State, e: Event)
    requires FlagsMean(events, s)
    ensures FlagsMean(events + [e], Step(command, s, e))
  {
    HappenedLast(events, e, DeadlineReached);
    HappenedLast(events, e, ShutdownReached);
    HappenedLast(events, e, Signalled);
    hide Happened;
  }

  lemma {:induction false} RunFlags(command: string, events: seq<Event>)
    ensures FlagsMean(events, Run(command, INITIAL, events))
    decreases events
  {
    if events != [] {
      var n := |events| - 1;
      RunFlags(command, events[..n]);
      hide FlagsMean, Step;
      RunLast(command, INITIAL, events[..n], events[n]);
      assert events == events[..n] + [events[n]];
      FlagsStep(command, events[..n], Run(command, INITIAL, events[..n]), events[n]);
    }
  }

  /** The deadline runs until the first progress and no longer: after progress it can never be reached. */
  lemma {:induction false} DeadlineUntilProgress(command: string, s: State, events: seq<Event>)
    requires Feasible(command, s, events) && forall e <- events :: !e.Closed?
    requires s.deadlineSet <==> s.output == [] && !s.deadlineExpired
    ensures var t := Run(command, s, events); t.deadlineSet <==> t.output == [] && !t.deadlineExpired
    decreases events
  {
    if events != [] {
      assert !events[0].Closed?;
      DeadlineUntilProgress(command, Step(command, s, events[0]), events[1..]);
    }
  }

  /** Over whole runs: it is still set exactly if it was not reached and nothing was written. */
  lemma StartupDeadline(command: string, events: seq<Event>)
    requires Feasible(command, INITIAL, events) && forall e <- events :: !e.Closed?
    ensures var s := Run(command, INITIAL, events);
            && (s.deadlineSet <==> s.output == [] && !Happened(events, DeadlineReached))
            && (s.output != [] ==> !Possible(s, DeadlineReached))
  {
    DeadlineUntilProgress(command, INITIAL, events);
    RunFlags(command, events);
    hide Run, Happened;
  }

  /** A failure names the deadline if it passed, else the shutdown deadline, else the interruption, else the
      process; the exit code is 130 exactly for an interrupted command that stopped in time. */
  lemma FailureExactly(command: string, events: seq<Event>, code: Option<int>, failure: FailureCode)
    requires Feasible(command, INITIAL, events + [Closed(code)])
    ensures var s := Run(command, INITIAL, events + [Closed(code)]);
            s.output != [] && var last := s.output[|s.output| - 1];
            && (last.Failed? && last.code == failure ==>
                 && last.command == command && (last.event == Some("failed") <==> command in EVENTS)
                 && (failure == CommandTimeout <==> Happened(events, DeadlineReached))
                 && (failure == ShutdownTimeout <==>
                     Happened(events, ShutdownReached) && !Happened(events, DeadlineReached))
                 && (failure == Aborted <==>
                      Happened(events, Signalled) && !Happened(events, ShutdownReached)
                        && !Happened(events, DeadlineReached))
                 && s.exit == Some(if Happened(events, Signalled) && !Happened(events, ShutdownReached) then 130
                                   else 1))
            && (last.Own? ==> s.exit == code)
  {
    RunThenClose(command, INITIAL, events, code);
    RunFlags(command, events);
    hide Run, Happened;
  }
}
