/** internal/tools/shell_registry.go: the watched shell, its bounded event log and its capped output. */
module WatchLog {
  import opened Text

  datatype EventType = Started | Error | IdleTimeout | Exited

  datatype Event = Event(id: int, kind: EventType, pattern: string, line: string, exitCode: int)

  const EVENT_CAP: nat := 1024
  const DROP: nat := EVENT_CAP / 10
  const OUTPUT_CAP: nat := 1024 * 1024

  /** The full history of a log and how much of its front has been dropped. */
  datatype Log = Log(history: seq<Event>, dropped: nat)

  ghost predicate LogOk(l: Log) {
    && l.dropped <= |l.history|
    && (forall k :: 0 <= k < |l.history| ==> l.history[k].id == k + 1)
    && |l.history| - l.dropped <= EVENT_CAP
    && (l.dropped > 0 ==> |l.history| - l.dropped > EVENT_CAP - DROP)
  }

  /** The log after one more event. */
  function Appended(l: Log, kind: EventType, pattern: string, line: string, exitCode: int): Log {
    Log(l.history + [Event(|l.history| + 1, kind, pattern, line, exitCode)],
        if |l.history| - l.dropped >= EVENT_CAP then l.dropped + DROP else l.dropped)
  }

  lemma AppendedOk(l: Log, kind: EventType, pattern: string, line: string, exitCode: int)
    requires LogOk(l)
    ensures LogOk(Appended(l, kind, pattern, line, exitCode))
  {}

  /** What appending does to the undropped tail of the history. */
  lemma AppendedTail(l: Log, tail: seq<Event>, kind: EventType, pattern: string, line: string, code: int)
    requires LogOk(l) && tail == l.history[l.dropped..]
    ensures var ev, l' := Event(|l.history| + 1, kind, pattern, line, code), Appended(l, kind, pattern, line, code);
      && LogOk(l') && l'.history == l.history + [ev]
      && l'.dropped == (if |tail| >= EVENT_CAP then l.dropped + DROP else l.dropped) <= |l'.history|
      && (if |tail| >= EVENT_CAP then tail[DROP..] else tail) + [ev] == l'.history[l'.dropped..]
  {
    AppendedOk(l, kind, pattern, line, code);
  }

  function Max(a: int, b: int): int {
    if a > b then a else b
  }

  function Min(a: int, b: int): int {
    if a < b then a else b
  }

  /** The retained events after id since. */
  function Since(l: Log, since: int): seq<Event>
    requires l.dropped <= |l.history|
  {
    l.history[Max(l.dropped, Min(since, |l.history|))..]
  }

  // ---- output buffers -----------------------------------------------------

  function AppendCapped(dst: string, src: string, alreadyTruncated: bool): (string, bool) {
    if alreadyTruncated then (dst, true)
    else
      var remaining := OUTPUT_CAP - |dst|;
      if remaining <= 0 then (dst, true)
      else if |src| <= remaining then (dst + src, false)
      else (dst + src[..remaining], true)
  }

  function Fed(chunks: seq<string>): (string, bool) {
    if chunks == [] then ("", false)
    else
      var (buf, truncated) := Fed(chunks[..|chunks| - 1]);
      AppendCapped(buf, chunks[|chunks| - 1], truncated)
  }

  /** What the code captures: its callers append no empty chunk, and then the buffer is the first
      OUTPUT_CAP bytes of the stream and the flag says exactly that bytes were lost. */
  lemma CaptureOfReads(chunks: seq<string>)
    requires forall c :: c in chunks ==> c != ""
    ensures var all := Concat(chunks);
      Fed(chunks) == (all[..Min(|all|, 0x10_0000)], |all| > 0x10_0000)
  {
    assert chunks != [] ==> chunks[|chunks| - 1] in chunks;
    CaptureExact(chunks);
    TruncatedExactly(chunks);
  }

  /** The buffer holds the first OUTPUT_CAP bytes of the stream. The truncated flag is set when bytes
      were lost, or when anything at all, even nothing, was appended to a full buffer. */
  lemma {:induction false} CaptureExact(chunks: seq<string>)
    ensures var all := Concat(chunks);
      && Fed(chunks).0 == all[..Min(|all|, OUTPUT_CAP)]
      && (Fed(chunks).1 <==> |all| > OUTPUT_CAP || (chunks != [] && |Concat(chunks[..|chunks| - 1])| >= OUTPUT_CAP))
  {
    if chunks != [] {
      CaptureExact(chunks[..|chunks| - 1]);
    }
  }

  /** With a non-empty last chunk the flag says exactly that bytes were lost. */
  lemma TruncatedExactly(chunks: seq<string>)
    requires chunks != [] ==> chunks[|chunks| - 1] != ""
    ensures Fed(chunks).1 <==> |Concat(chunks)| > OUTPUT_CAP
  {
    CaptureExact(chunks);
  }

  // ---- the shell ----------------------------------------------------------

  datatype Watch = Watch(
    patterns: seq<string -> bool>, sources: seq<string>, events: seq<Event>, nextEventID: int,
    eventsDropped: nat, lastOutputAt: int)

  /** What recording an event leaves alone. */
  ghost predicate SameSettings(w: Watch, v: Watch) {
    w.patterns == v.patterns && w.sources == v.sources && w.lastOutputAt == v.lastOutputAt
  }

  /** The index of the first pattern matching line, or |patterns|. */
  function FirstMatch(patterns: seq<string -> bool>, line: string, i: nat): (r: nat)
    requires i <= |patterns|
    ensures i <= r <= |patterns|
    ensures forall j :: i <= j < r ==> !patterns[j](line)
    ensures r < |patterns| ==> patterns[r](line)
    decreases |patterns| - i
  {
    if i == |patterns| || patterns[i](line) then i else FirstMatch(patterns, line, i + 1)
  }

  function SourceAt(sources: seq<string>, i: nat): string {
    if i < |sources| then sources[i] else ""
  }

  class BackgroundShell {
    var stdout: string
    var stdoutTruncated: bool
    var stderr: string
    var stderrTruncated: bool
    var exitCode: Option<int>
    var watch: Option<Watch>
    ghost var history: seq<Event>

    /** The events field is the undropped tail of the history. */
    ghost predicate Valid()
      reads this
    {
      watch.Some? ==>
        && LogOk(CurrentLog())
        && watch.value.events == history[watch.value.eventsDropped..]
        && watch.value.nextEventID == |history|
    }

    ghost function CurrentLog(): Log
      requires watch.Some?
      reads this
    {
      Log(history, watch.value.eventsDropped)
    }

    constructor Plain()
      ensures Valid() && watch == None && exitCode == None
      ensures stdout == stderr == "" && !stdoutTruncated && !stderrTruncated
    {
      stdout, stdoutTruncated, stderr, stderrTruncated := "", false, "", false;
      exitCode, watch, history := None, None, [];
    }

    /** NewWatchedShell: the first event is `started`, with id 1. */
    constructor Watched(patterns: seq<string -> bool>, sources: seq<string>, now: int)
      ensures Valid() && watch.Some? && exitCode == None
      ensures CurrentLog() == Appended(Log([], 0), Started, "", "", 0)
      ensures watch.value.patterns == patterns && watch.value.sources == sources && watch.value.lastOutputAt == now
      ensures stdout == stderr == "" && !stdoutTruncated && !stderrTruncated
    {
      stdout, stdoutTruncated, stderr, stderrTruncated := "", false, "", false;
      exitCode, history := None, [];
      watch := Some(Watch(patterns, sources, [], 0, 0, now));
      new;
      AppendEventLocked(Started, "", "", 0);
    }

    method AppendEventLocked(kind: EventType, pattern: string, line: string, code: int)
      requires Valid()
      modifies this`watch, this`history
      ensures Valid() && (watch.Some? <==> old(watch).Some?)
      ensures old(watch).None? ==> watch == old(watch) && history == old(history)
      ensures old(watch).Some? ==>
        && CurrentLog() == Appended(old(CurrentLog()), kind, pattern, line, code)
        && SameSettings(watch.value, old(watch).value)
    {
      if watch.None? {
        return;
      }
      hide LogOk, Appended;
      var w := watch.value;
      AppendedTail(CurrentLog(), w.events, kind, pattern, line, code);
      w := w.(nextEventID := w.nextEventID + 1);
      var ev := Event(w.nextEventID, kind, pattern, line, code);
      if |w.events| >= EVENT_CAP {
        var drop := EVENT_CAP / 10;
        if drop < 1 {
          drop := 1;
        }
        w := w.(eventsDropped := w.eventsDropped + drop, events := w.events[drop..]);
      }
      w := w.(events := w.events + [ev]);
      history := history + [ev];
      watch := Some(w);
    }

    /** The events after sinceID that are still there, and how many have been dropped so far. */
    method Events(sinceID: int) returns (out: seq<Event>, dropped: nat)
      requires Valid()
      ensures watch.None? ==> out == [] && dropped == 0
      ensures watch.Some? ==> out == Since(CurrentLog(), sinceID) && dropped == watch.value.eventsDropped
    {
      out, dropped := [], 0;
      if watch.None? {
        return;
      }
      var events := watch.value.events;
      dropped := watch.value.eventsDropped;
      for i := 0 to |events|
        invariant var from := Max(dropped, Min(sinceID, |history|)) - dropped;
          out == if i <= from then [] else events[from..i]
      {
        assert events[i] == history[dropped + i];
        if events[i].id > sinceID {
          out := out + [events[i]];
        }
      }
      assert out == events[Max(dropped, Min(sinceID, |history|)) - dropped..];
    }

    /** A stderr line: captured, and recorded once, under the first pattern that matches it. */
    method ObserveWatchLine(line: string, now: int)
      requires Valid()
      modifies this
      ensures Valid() && (watch.Some? <==> old(watch).Some?)
      ensures (stderr, stderrTruncated) == AppendCapped(old(stderr), line + "\n", old(stderrTruncated))
      ensures unchanged(`stdout) && unchanged(`stdoutTruncated) && unchanged(`exitCode)
      ensures old(watch).None? ==> history == old(history)
      ensures old(watch).Some? ==>
        var w := old(watch).value;
        var first := FirstMatch(w.patterns, line, 0);
        && watch.value.lastOutputAt == now && watch.value.patterns == w.patterns && watch.value.sources == w.sources
        && CurrentLog() == (if first == |w.patterns| then old(CurrentLog())
                            else Appended(old(CurrentLog()), Error, SourceAt(w.sources, first), line, 0))
    {
      var r := AppendCapped(stderr, line + "\n", stderrTruncated);
      stderr, stderrTruncated := r.0, r.1;
      if watch.None? {
        return;
      }
      watch := Some(watch.value.(lastOutputAt := now));
      var patterns := watch.value.patterns;
      for i := 0 to |patterns|
        invariant FirstMatch(patterns, line, 0) == FirstMatch(patterns, line, i)
        invariant Valid() && watch == Some(old(watch).value.(lastOutputAt := now)) && history == old(history)
        invariant (stderr, stderrTruncated) == AppendCapped(old(stderr), line + "\n", old(stderrTruncated))
        invariant unchanged(`stdout) && unchanged(`stdoutTruncated) && unchanged(`exitCode)
      {
        if patterns[i](line) {
          var src := "";
          if i < |watch.value.sources| {
            src := watch.value.sources[i];
          }
          AppendEventLocked(Error, src, line, 0);
          return;
        }
      }
    }

    method ObserveWatchStdout(b: string, now: int)
      requires Valid()
      modifies this`stdout, this`stdoutTruncated, this`watch
      ensures Valid() && (watch.Some? <==> old(watch).Some?)
      ensures (stdout, stdoutTruncated) == AppendCapped(old(stdout), b, old(stdoutTruncated))
      ensures old(watch).Some? && b == "" ==> watch == old(watch)
      ensures old(watch).Some? && b != "" ==> watch == Some(old(watch).value.(lastOutputAt := now))
    {
      var r := AppendCapped(stdout, b, stdoutTruncated);
      stdout, stdoutTruncated := r.0, r.1;
      if watch.Some? && |b| > 0 {
        watch := Some(watch.value.(lastOutputAt := now));
      }
    }

    method RecordWatchIdleTimeout(reason: string)
      requires Valid()
      modifies this`watch, this`history
      ensures Valid() && (watch.Some? <==> old(watch).Some?)
      ensures old(watch).None? ==> history == old(history)
      ensures old(watch).Some? ==>
        && CurrentLog() == Appended(old(CurrentLog()), IdleTimeout, "", reason, 0)
        && SameSettings(watch.value, old(watch).value)
    {
      if watch.None? {
        return;
      }
      AppendEventLocked(IdleTimeout, "", reason, 0);
    }

    method RecordWatchExit(code: int)
      requires Valid()
      modifies this`watch, this`history
      ensures Valid() && (watch.Some? <==> old(watch).Some?)
      ensures old(watch).None? ==> history == old(history)
      ensures old(watch).Some? ==>
        && CurrentLog() == Appended(old(CurrentLog()), Exited, "", "", code)
        && SameSettings(watch.value, old(watch).value)
    {
      if watch.None? {
        return;
      }
      AppendEventLocked(Exited, "", "", code);
    }

    method SetExit(code: int)
      modifies this`exitCode
      ensures exitCode == Some(code)
    {
      exitCode := Some(code);
    }
  }

  // ---- polling ------------------------------------------------------------

  datatype Op = Append(kind: EventType, pattern: string, line: string, exitCode: int) | Poll

  /** A poller passes the largest id it has seen; delivered is all it ever got, missed counts the
      events it will never get. */
  datatype Poller = Poller(since: nat, delivered: seq<Event>, missed: int)

  function Polled(l: Log, p: Poller): Poller
    requires l.dropped <= |l.history|
  {
    var out := Since(l, p.since);
    Poller(if out == [] then p.since else Max(p.since, out[|out| - 1].id),
           p.delivered + out,
           p.missed + (Max(|l.history|, p.since) - p.since - |out|))
  }

  function Steps(l: Log, p: Poller, ops: seq<Op>): (Log, Poller) {
    if ops == [] then (l, p)
    else
      var (l', p') := Steps(l, p, ops[..|ops| - 1]);
      match ops[|ops| - 1]
      case Append(kind, pattern, line, code) => (Appended(l', kind, pattern, line, code), p')
      case Poll => (l', if l'.dropped <= |l'.history| then Polled(l', p') else p')
  }

  /** Every event up to the cursor was delivered once, in order, or missed; nothing else was delivered. */
  ghost predicate PollerOk(l: Log, p: Poller) {
    && p.since <= |l.history|
    && |p.delivered| + p.missed == p.since
    && (forall i :: 0 <= i < |p.delivered| ==>
          1 <= p.delivered[i].id <= p.since && p.delivered[i] == l.history[p.delivered[i].id - 1])
    && (forall i, j :: 0 <= i < j < |p.delivered| ==> p.delivered[i].id < p.delivered[j].id)
  }

  /** out is the stretch of the history after its first `from` events, up to its end. */
  ghost predicate Rest(l: Log, from: nat, out: seq<Event>) {
    from <= |l.history| && out == l.history[from..]
  }

  lemma PollOutput(l: Log, since: nat)
    requires LogOk(l) && since <= |l.history|
    ensures Rest(l, Max(l.dropped, since), Since(l, since))
  {}

  /** Delivering the rest of the history, skipping events from the cursor up to `from`. */
  lemma DeliverRest(l: Log, p: Poller, from: nat, out: seq<Event>)
    requires LogOk(l) && PollerOk(l, p) && p.since <= from && Rest(l, from, out)
    ensures PollerOk(l, Poller(|l.history|, p.delivered + out, p.missed + (from - p.since)))
  {
    var all := p.delivered + out;
    forall i | 0 <= i < |out| ensures out[i] == l.history[from + i] && out[i].id == from + i + 1 {}
    forall i | |p.delivered| <= i < |all| ensures all[i] == out[i - |p.delivered|] {}
  }

  /** A poll delivers what is retained beyond the cursor, misses exactly what was dropped beyond it,
      and moves the cursor to the end of the history. */
  lemma PollOnce(l: Log, p: Poller)
    requires LogOk(l) && PollerOk(l, p)
    ensures PollerOk(l, Polled(l, p))
    ensures Polled(l, p).since == |l.history|
    ensures Polled(l, p).missed - p.missed == Max(0, l.dropped - p.since)
  {
    LogBounds(l);
    hide PollerOk, Since, LogOk, Polled, Rest;
    CursorBound(l, p);
    PolledCursor(l, p);
    PollOutput(l, p.since);
    DeliverRest(l, p, Max(l.dropped, p.since), Since(l, p.since));
  }

  lemma LogBounds(l: Log)
    requires LogOk(l)
    ensures l.dropped <= |l.history|
  {}

  lemma PolledCursor(l: Log, p: Poller)
    requires LogOk(l) && p.since <= |l.history|
    ensures Polled(l, p)
         == Poller(|l.history|, p.delivered + Since(l, p.since), p.missed + (Max(l.dropped, p.since) - p.since))
  {
    PollOutput(l, p.since);
    var out := Since(l, p.since);
    assert out != [] ==> out[|out| - 1] == l.history[|l.history| - 1];
  }

  lemma CursorBound(l: Log, p: Poller)
    requires PollerOk(l, p)
    ensures p.since <= |l.history| && |p.delivered| + p.missed == p.since
  {}

  lemma AppendKeepsPoller(l: Log, p: Poller, kind: EventType, pattern: string, line: string, code: int)
    requires LogOk(l) && PollerOk(l, p)
    ensures PollerOk(Appended(l, kind, pattern, line, code), p)
  {}

  /** Over every interleaving of appends and polls: ids are contiguous, the log never exceeds its cap,
      no event is delivered twice, and delivered plus missed events account for every id seen. */
  lemma {:induction false} PollingSafe(ops: seq<Op>)
    ensures var (l, p) := Steps(Log([], 0), Poller(0, [], 0), ops); LogOk(l) && PollerOk(l, p)
  {
    if ops != [] {
      var n := |ops| - 1;
      PollingSafe(ops[..n]);
      var (l, p) := Steps(Log([], 0), Poller(0, [], 0), ops[..n]);
      match ops[n]
      case Append(kind, pattern, line, code) =>
        AppendedOk(l, kind, pattern, line, code);
        AppendKeepsPoller(l, p, kind, pattern, line, code);
      case Poll =>
        PollOnce(l, p);
    }
  }

  /** A poller never more than 923 events behind, the cap of 1024 less a batch of 102, plus one,
      misses nothing. */
  lemma FrequentPollsMissNothing(ops: seq<Op>)
    ensures var (l, p) := Steps(Log([], 0), Poller(0, [], 0), ops);
      l.dropped <= |l.history|
      && (|l.history| - p.since <= 923 ==> Polled(l, p).missed == p.missed)
  {
    PollingSafe(ops);
    var (l, p) := Steps(Log([], 0), Poller(0, [], 0), ops);
    PollOnce(l, p);
  }

  // ---- what stderr leaves in the log --------------------------------------

  /** The log after a list of stderr lines. */
  function Observed(l: Log, patterns: seq<string -> bool>, sources: seq<string>, lines: seq<string>): Log {
    if lines == [] then l
    else
      var before, line := Observed(l, patterns, sources, lines[..|lines| - 1]), lines[|lines| - 1];
      var first := FirstMatch(patterns, line, 0);
      if first == |patterns| then before else Appended(before, Error, SourceAt(sources, first), line, 0)
  }

  predicate MatchesAny(patterns: seq<string -> bool>, line: string) {
    exists i :: 0 <= i < |patterns| && patterns[i](line)
  }

  function Matching(patterns: seq<string -> bool>, lines: seq<string>): set<int> {
    set k | 0 <= k < |lines| && MatchesAny(patterns, lines[k])
  }

  /** Event e reports the line under the source of pattern i, the first that matches it. */
  ghost predicate Reports(e: Event, patterns: seq<string -> bool>, sources: seq<string>, line: string) {
    e.kind == Error && e.line == line
    && exists i :: 0 <= i < |patterns| && patterns[i](line) && (forall j :: 0 <= j < i ==> !patterns[j](line))
         && e.pattern == if i < |sources| then sources[i] else ""
  }

  lemma MatchingSnoc(patterns: seq<string -> bool>, lines: seq<string>)
    requires lines != []
    ensures var n := |lines| - 1;
      Matching(patterns, lines) == Matching(patterns, lines[..n]) + if MatchesAny(patterns, lines[n]) then {n} else {}
  {
    hide MatchesAny;
  }

  lemma FirstMatchReports(patterns: seq<string -> bool>, sources: seq<string>, line: string, id: int)
    ensures var first := FirstMatch(patterns, line, 0);
      && (first == |patterns| <==> !MatchesAny(patterns, line))
      && (first < |patterns| ==>
            Reports(Event(id, Error, SourceAt(sources, first), line, 0), patterns, sources, line))
  {
    var first := FirstMatch(patterns, line, 0);
    assert first < |patterns| ==> patterns[first](line);
  }

  /** The new events are at the positions given, one for each line there. */
  ghost predicate Reported(h: seq<Event>, from: nat, patterns: seq<string -> bool>, sources: seq<string>,
    lines: seq<string>, ps: seq<int>)
  {
    && |h| == from + |ps|
    && forall k :: 0 <= k < |ps| ==> 0 <= ps[k] < |lines| && Reports(h[from + k], patterns, sources, lines[ps[k]])
  }

  lemma ReportedSnoc(h: seq<Event>, from: nat, patterns: seq<string -> bool>, sources: seq<string>,
      lines: seq<string>, ps: seq<int>)
    requires lines != [] && Reported(h, from, patterns, sources, lines[..|lines| - 1], ps)
    ensures Reported(h, from, patterns, sources, lines, ps)
    ensures forall e :: Reports(e, patterns, sources, lines[|lines| - 1]) ==>
      Reported(h + [e], from, patterns, sources, lines, ps + [|lines| - 1])
  {
    hide Reports;
    forall k | 0 <= k < |ps| ensures 0 <= ps[k] < |lines| && Reports(h[from + k], patterns, sources, lines[ps[k]]) {
      assert lines[..|lines| - 1][ps[k]] == lines[ps[k]];
    }
  }

  /** Exactly the matching lines are reported, once each, in order, each under the first pattern that
      matches it; the events already there stay. */
  lemma {:induction false} ObservedExact(l: Log, patterns: seq<string -> bool>, sources: seq<string>,
      lines: seq<string>)
    returns (ps: seq<int>)
    ensures var h := Observed(l, patterns, sources, lines).history;
      l.history <= h && InOrder(Matching(patterns, lines), ps)
      && Reported(h, |l.history|, patterns, sources, lines, ps)
  {
    ps := [];
    if lines != [] {
      var n := |lines| - 1;
      ps := ObservedExact(l, patterns, sources, lines[..n]);
      var before := Observed(l, patterns, sources, lines[..n]);
      MatchingSnoc(patterns, lines);
      FirstMatchReports(patterns, sources, lines[n], |before.history| + 1);
      ReportedSnoc(before.history, |l.history|, patterns, sources, lines, ps);
      assert forall i :: i in Matching(patterns, lines[..n]) ==> i < n;
      InOrderSnoc(Matching(patterns, lines[..n]), ps, n);
      hide Reported, Reports, InOrder, Matching, MatchesAny;
      if FirstMatch(patterns, lines[n], 0) < |patterns| {
        ps := ps + [n];
      } else {
        assert Matching(patterns, lines) == Matching(patterns, lines[..n]);
      }
    }
  }
}
