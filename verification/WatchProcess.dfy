/** internal/tools/watch_process.go: the goroutines of one watched process as a step system. Every
    locked shell method is one step. */
module WatchProcess {
  import opened Text
  import opened Runs
  import opened WatchLog

  /** watchLifecycle: waiting, then RecordWatchExit, then SetExit. */
  datatype Lifecycle = AwaitingExit | ExitKnown(code: int) | ExitRecorded(code: int) | Finished(code: int)

  /** watchIdleWatchdog: between ticks, past its running check, or gone; NoWatchdog without a timeout. */
  datatype Watchdog = NoWatchdog | Ticking | PastCheck | Fired | Stopped

  /** drainWatchStderr: still scanning lines, or at the end of the stream; NoPatterns when no line can match. */
  datatype Drain = NoPatterns | Scanning | Drained

  datatype State = State(log: Log, exitCode: Option<int>, life: Lifecycle, dog: Watchdog, drain: Drain)

  datatype Step =
    | StderrMatch(pattern: string, line: string) | StderrEnds
    | ProcessExits(code: int) | RecordExit | SetExit
    | CheckRunning | StillActive | Fire(reason: string)

  function Init(idleTimeout: bool, patterns: bool): State {
    State(Appended(Log([], 0), Started, "", "", 0), None, AwaitingExit,
          if idleTimeout then Ticking else NoWatchdog, if patterns then Scanning else NoPatterns)
  }

  function Do(s: State, step: Step): Option<State> {
    match step
    case StderrMatch(pattern, line) =>
      if s.drain != Scanning then None else Some(s.(log := Appended(s.log, Error, pattern, line, 0)))
    case StderrEnds => if s.drain != Scanning then None else Some(s.(drain := Drained))
    case ProcessExits(code) => if s.life != AwaitingExit then None else Some(s.(life := ExitKnown(code)))
    case RecordExit =>
      if !s.life.ExitKnown? then None
      else Some(s.(log := Appended(s.log, Exited, "", "", s.life.code), life := ExitRecorded(s.life.code)))
    case SetExit =>
      if !s.life.ExitRecorded? then None
      else Some(s.(exitCode := Some(s.life.code), life := Finished(s.life.code)))
    case CheckRunning =>
      if s.dog != Ticking then None else Some(s.(dog := if s.exitCode.Some? then Stopped else PastCheck))
    case StillActive => if s.dog != PastCheck then None else Some(s.(dog := Ticking))
    case Fire(reason) =>
      if s.dog != PastCheck then None
      else Some(s.(log := Appended(s.log, IdleTimeout, "", reason, 0), dog := Fired))
  }

  /** How many events of a kind a history holds. */
  function Count(h: seq<Event>, kind: EventType): nat {
    if h == [] then 0 else Count(h[..|h| - 1], kind) + if h[|h| - 1].kind == kind then 1 else 0
  }

  ghost predicate ExitedWith(h: seq<Event>, code: int) {
    exists k :: 0 <= k < |h| && h[k].kind == Exited && h[k].exitCode == code
  }

  ghost predicate Inv(s: State) {
    && LogOk(s.log)
    && |s.log.history| >= 1 && s.log.history[0] == Event(1, Started, "", "", 0)
    && Count(s.log.history, Started) == 1
    && Count(s.log.history, Exited) == (if s.life.ExitRecorded? || s.life.Finished? then 1 else 0)
    && Count(s.log.history, IdleTimeout) == (if s.dog == Fired then 1 else 0)
    && (s.life.ExitRecorded? || s.life.Finished? ==> ExitedWith(s.log.history, s.life.code))
    && (if s.life.Finished? then s.exitCode == Some(s.life.code) else s.exitCode == None)
  }

  lemma AppendedFacts(l: Log, kind: EventType, pattern: string, line: string, code: int)
    requires LogOk(l)
    ensures var l' := Appended(l, kind, pattern, line, code);
      && LogOk(l') && |l'.history| == |l.history| + 1 && l.history <= l'.history
      && (forall k :: Count(l'.history, k) == Count(l.history, k) + if k == kind then 1 else 0)
      && (forall c :: ExitedWith(l.history, c) ==> ExitedWith(l'.history, c))
      && (kind == Exited ==> ExitedWith(l'.history, code))
  {
    AppendedOk(l, kind, pattern, line, code);
    var l' := Appended(l, kind, pattern, line, code);
    assert l'.history[..|l.history|] == l.history;
    assert l'.history[|l.history|] == Event(|l.history| + 1, kind, pattern, line, code);
    forall c | ExitedWith(l.history, c) ensures ExitedWith(l'.history, c) {
      var k :| 0 <= k < |l.history| && l.history[k].kind == Exited && l.history[k].exitCode == c;
      assert l'.history[k] == l.history[k];
    }
  }

  lemma InitInv(idleTimeout: bool, patterns: bool)
    ensures Inv(Init(idleTimeout, patterns))
  {
    var e := Event(1, Started, "", "", 0);
    assert [] + [e] == [e];
    assert [e][..0] == [];
    assert Count([e], Started) == 1 && Count([e], Exited) == 0 && Count([e], IdleTimeout) == 0;
  }

  lemma StepInv(s: State, step: Step, s': State)
    requires Inv(s) && Do(s, step) == Some(s')
    ensures Inv(s')
  {
    hide Count, ExitedWith, LogOk, Appended;
    match step
    case StderrMatch(pattern, line) => AppendedFacts(s.log, Error, pattern, line, 0);
    case RecordExit => AppendedFacts(s.log, Exited, "", "", s.life.code);
    case Fire(reason) => AppendedFacts(s.log, IdleTimeout, "", reason, 0);
    case _ =>
  }

  lemma RunInv(s: State, steps: seq<Step>, s': State)
    requires Inv(s) && After(Do, s, steps) == Some(s')
    ensures Inv(s')
  {
    hide Inv, Do;
    forall a, step | Inv(a) && Do(a, step).Some? ensures Inv(Do(a, step).value) {
      StepInv(a, step, Do(a, step).value);
    }
    RunKeeps(Do, Inv, s, steps, s');
  }

  /** Over every interleaving: `started` comes first, with id 1, and only there; there is at most one
      `exited` and at most one `idle_timeout`; and a visible exit code has its `exited` event. */
  lemma HistoryIsSane(idleTimeout: bool, patterns: bool, steps: seq<Step>, s: State)
    requires After(Do, Init(idleTimeout, patterns), steps) == Some(s)
    ensures LogOk(s.log) && |s.log.history| >= 1 && s.log.history[0] == Event(1, Started, "", "", 0)
    ensures Count(s.log.history, Started) == 1
    ensures Count(s.log.history, Exited) <= 1 && Count(s.log.history, IdleTimeout) <= 1
    ensures s.exitCode.Some? ==> ExitedWith(s.log.history, s.exitCode.value) && Count(s.log.history, Exited) == 1
  {
    InitInv(idleTimeout, patterns);
    RunInv(Init(idleTimeout, patterns), steps, s);
  }

  // ---- what may follow `exited` -------------------------------------------

  /** RecordWatchExit has run. */
  predicate ExitedRecorded(s: State) {
    s.life.ExitRecorded? || s.life.Finished?
  }

  /** The watchdog can still fire: it is past its running check, or will find the process running. */
  predicate MayFire(s: State) {
    s.dog == PastCheck || (s.dog == Ticking && s.exitCode == None)
  }

  /** Some continuation records another event of this kind. */
  ghost predicate CanRecord(s: State, kind: EventType) {
    exists more, s' :: After(Do, s, more) == Some(s') && Count(s'.log.history, kind) > Count(s.log.history, kind)
  }

  /** Once `exited` is recorded, an idle_timeout can still follow it exactly when the watchdog has passed
      its running check, or has yet to make it while the exit code is not visible. */
  lemma IdleTimeoutAfterExit(idleTimeout: bool, patterns: bool, steps: seq<Step>, s: State)
    requires After(Do, Init(idleTimeout, patterns), steps) == Some(s) && ExitedRecorded(s)
    ensures CanRecord(s, IdleTimeout) <==> MayFire(s)
  {
    hide Do;
    InitInv(idleTimeout, patterns);
    RunInv(Init(idleTimeout, patterns), steps, s);
    if MayFire(s) {
      FireSoon(s);
    }
    if CanRecord(s, IdleTimeout) {
      var more, s' :| After(Do, s, more) == Some(s')
        && Count(s'.log.history, IdleTimeout) > Count(s.log.history, IdleTimeout);
      RunInv(s, more, s');
      if !MayFire(s) {
        WatchdogQuiet(s, more, s');
      }
    }
  }

  /** An error can still follow `exited` exactly when the stderr goroutine is still scanning. */
  lemma ErrorAfterExit(s: State)
    requires Inv(s)
    ensures CanRecord(s, Error) <==> s.drain == Scanning
  {
    hide Inv, Count;
    if s.drain == Scanning {
      AppendedFacts(s.log, Error, "", "", 0) by { LogIsOk(s); }
      TwoSteps(Do, s, StderrMatch("", ""), StderrEnds);
    } else if CanRecord(s, Error) {
      var more, s' :| After(Do, s, more) == Some(s') && Count(s'.log.history, Error) > Count(s.log.history, Error);
      NoMoreErrors(s, more, s');
    }
  }

  /** No continuation changes the log. */
  ghost predicate LogStays(s: State) {
    forall more :: After(Do, s, more).Some? ==> After(Do, s, more).value.log == s.log
  }

  /** `exited` is the last event for good exactly when stderr is drained and the watchdog cannot fire. */
  lemma ExitedIsFinalExactly(idleTimeout: bool, patterns: bool, steps: seq<Step>, s: State)
    requires After(Do, Init(idleTimeout, patterns), steps) == Some(s) && ExitedRecorded(s)
    ensures LogStays(s) <==> s.drain != Scanning && !MayFire(s)
  {
    hide Count, Do;
    InitInv(idleTimeout, patterns);
    RunInv(Init(idleTimeout, patterns), steps, s);
    if s.drain == Scanning {
      ErrorAfterExit(s);
      var more, s' :| After(Do, s, more) == Some(s') && Count(s'.log.history, Error) > Count(s.log.history, Error);
      assert After(Do, s, more).value.log != s.log;
    } else if MayFire(s) {
      IdleTimeoutAfterExit(idleTimeout, patterns, steps, s);
      var more, s' :| After(Do, s, more) == Some(s')
        && Count(s'.log.history, IdleTimeout) > Count(s.log.history, IdleTimeout);
      assert After(Do, s, more).value.log != s.log;
    } else {
      forall more | After(Do, s, more).Some? ensures After(Do, s, more).value.log == s.log {
        Silent(s, more, After(Do, s, more).value);
      }
    }
  }

  lemma LogIsOk(s: State)
    requires Inv(s)
    ensures LogOk(s.log)
  {}

  lemma FireSoon(s: State)
    requires Inv(s) && MayFire(s)
    ensures CanRecord(s, IdleTimeout)
  {
    hide Count;
    AppendedFacts(s.log, IdleTimeout, "", "", 0);
    if s.dog == PastCheck {
      TwoSteps(Do, s, Fire(""), StderrEnds);
    } else {
      TwoSteps(Do, s, CheckRunning, Fire(""));
    }
  }

  lemma {:induction false} WatchdogQuiet(s: State, more: seq<Step>, s': State)
    requires After(Do, s, more) == Some(s') && Inv(s) && ExitedRecorded(s) && !MayFire(s)
    ensures ExitedRecorded(s') && !MayFire(s') && (s'.dog == Fired <==> s.dog == Fired)
  {
    if more != [] {
      var t := After(Do, s, more[..|more| - 1]).value;
      WatchdogQuiet(s, more[..|more| - 1], t);
    }
  }

  lemma {:induction false} NoMoreErrors(s: State, more: seq<Step>, s': State)
    requires After(Do, s, more) == Some(s') && Inv(s) && s.drain != Scanning
    ensures s'.drain != Scanning && Count(s'.log.history, Error) == Count(s.log.history, Error)
  {
    hide Count, Inv;
    if more != [] {
      var t := After(Do, s, more[..|more| - 1]).value;
      NoMoreErrors(s, more[..|more| - 1], t);
      RunInv(s, more[..|more| - 1], t);
      NotAnError(t, more[|more| - 1], s');
    }
  }

  lemma NotAnError(s: State, step: Step, s': State)
    requires Inv(s) && Do(s, step) == Some(s') && s.drain != Scanning
    ensures s'.drain != Scanning && Count(s'.log.history, Error) == Count(s.log.history, Error)
  {
    hide Count, ExitedWith, LogOk, Appended;
    match step
    case RecordExit => AppendedFacts(s.log, Exited, "", "", s.life.code);
    case Fire(reason) => AppendedFacts(s.log, IdleTimeout, "", reason, 0);
    case _ =>
  }

  lemma {:induction false} Silent(s: State, more: seq<Step>, s': State)
    requires After(Do, s, more) == Some(s') && ExitedRecorded(s) && s.drain != Scanning && !MayFire(s)
    ensures s'.log == s.log && ExitedRecorded(s') && s'.drain != Scanning && !MayFire(s')
  {
    if more != [] {
      Silent(s, more[..|more| - 1], After(Do, s, more[..|more| - 1]).value);
    }
  }

  /** `exited` need not be the last event: a watchdog past its check still records its timeout. */
  lemma ExitedIsNotAlwaysLast() returns (steps: seq<Step>, s: State)
    ensures After(Do, Init(true, true), steps) == Some(s)
    ensures s.exitCode == Some(0) && |s.log.history| == 3
    ensures s.log.history[1].kind == Exited && s.log.history[2].kind == IdleTimeout
  {
    hide After;
    steps, s := [], Init(true, true);
    NoSteps(Do, s);
    steps, s := Follow(steps, s, CheckRunning);
    steps, s := Follow(steps, s, ProcessExits(0));
    steps, s := Follow(steps, s, RecordExit);
    steps, s := Follow(steps, s, SetExit);
    steps, s := Follow(steps, s, Fire("idle"));
  }

  lemma Follow(steps: seq<Step>, s: State, step: Step) returns (steps': seq<Step>, s': State)
    requires After(Do, Init(true, true), steps) == Some(s) && Do(s, step).Some?
    ensures After(Do, Init(true, true), steps') == Some(s') && s' == Do(s, step).value
  {
    hide Do;
    Extend(Do, Init(true, true), steps, s, step);
    steps', s' := steps + [step], Do(s, step).value;
  }

  /** The recorded and the visible exit code are the one the process exited with. */
  predicate ExitsWith(s: State, code: int) {
    match s.life
    case AwaitingExit => false
    case ExitKnown(c) => c == code
    case ExitRecorded(c) => c == code
    case Finished(c) => c == code
  }

  lemma {:induction false} ExitCodeIsTheProcessOwn(idleTimeout: bool, patterns: bool, steps: seq<Step>, s: State,
      code: int)
    requires After(Do, Init(idleTimeout, patterns), steps) == Some(s) && ExitsWith(s, code)
    ensures ProcessExits(code) in steps
  {
    if steps != [] {
      var n := |steps| - 1;
      var t := After(Do, Init(idleTimeout, patterns), steps[..n]).value;
      assert steps == steps[..n] + [steps[n]];
      if steps[n] != ProcessExits(code) {
        assert ExitsWith(t, code);
        ExitCodeIsTheProcessOwn(idleTimeout, patterns, steps[..n], t, code);
      }
    }
  }

  // ---- nobody is stuck ----------------------------------------------------

  /** How far the lifecycle goroutine has to go. */
  function Remaining(life: Lifecycle): nat {
    match life
    case AwaitingExit => 3
    case ExitKnown(_) => 2
    case ExitRecorded(_) => 1
    case Finished(_) => 0
  }

  /** The lifecycle's next step. */
  function NextOf(life: Lifecycle, code: int): Step {
    match life
    case AwaitingExit => ProcessExits(code)
    case ExitKnown(_) => RecordExit
    case _ => SetExit
  }

  lemma LifeMoves(s: State, code: int)
    requires !s.life.Finished?
    ensures var step := NextOf(s.life, code);
      && Do(s, step).Some?
      && var t := Do(s, step).value;
         && Remaining(t.life) == Remaining(s.life) - 1 && t.dog == s.dog && t.drain == s.drain
         && (s.life == AwaitingExit ==> t.life == ExitKnown(code))
         && (s.life.ExitKnown? ==> t.life == ExitRecorded(s.life.code))
         && (s.life.ExitRecorded? ==> t.life == Finished(s.life.code) && t.exitCode == Some(s.life.code))
  {
    hide Appended;
  }

  lemma FinishedIsVisible(s: State)
    requires Inv(s) && s.life.Finished?
    ensures s.exitCode == Some(s.life.code)
  {}

  /** Whatever the other goroutines did, a process that exits gets its exit recorded and made visible, and
      the watchdog need not have moved for that. */
  lemma {:induction false} ExitCanBecomeVisible(s: State, code: int) returns (more: seq<Step>, s': State)
    requires Inv(s)
    ensures After(Do, s, more) == Some(s') && s'.life.Finished? && s'.exitCode == Some(s'.life.code)
    ensures s'.dog == s.dog && s'.drain == s.drain
    ensures s'.life.code == if s.life == AwaitingExit then code else s.life.code
    decreases Remaining(s.life)
  {
    hide Do, Inv, After;
    if s.life.Finished? {
      more, s' := [], s;
      NoSteps(Do, s);
      FinishedIsVisible(s);
    } else {
      var step := NextOf(s.life, code);
      LifeMoves(s, code);
      var t := Do(s, step).value;
      StepInv(s, step, t);
      var rest;
      rest, s' := ExitCanBecomeVisible(t, code);
      more := [step] + rest;
      StepThen(Do, s, step, rest);
    }
  }

  /** One round of the watchdog: it stops when the process is gone, and otherwise, when there was activity,
      waits for the next tick with nothing recorded. */
  lemma WatchdogRound(s: State)
    requires s.dog == Ticking
    ensures After(Do, s, [CheckRunning, StillActive]) == if s.exitCode.Some? then None else Some(s)
    ensures s.exitCode.Some? ==> Do(s, CheckRunning) == Some(s.(dog := Stopped))
  {
    TwoSteps(Do, s, CheckRunning, StillActive);
  }
}
