/** internal/metrics/health/tracker.go: rolling windows against the plain list of observations. */
module HealthTracker {
  import opened Text

  /** The last n values of s, or all of them. */
  function Last<T>(s: seq<T>, n: nat): seq<T> {
    if |s| <= n then s else s[|s| - n..]
  }

  lemma LastSnoc<T>(s: seq<T>, x: T, n: nat)
    requires n > 0
    ensures |s| < n ==> Last(s + [x], n) == Last(s, n) + [x]
    ensures |s| >= n ==> Last(s + [x], n) == Last(s, n)[1..] + [x]
  {}

  // ---- error rate ---------------------------------------------------------

  function Fails(outcomes: seq<bool>): nat {
    if outcomes == [] then 0 else Fails(outcomes[..|outcomes| - 1]) + if outcomes[|outcomes| - 1] then 0 else 1
  }

  lemma {:induction false} FailsConcat(a: seq<bool>, b: seq<bool>)
    ensures Fails(a + b) == Fails(a) + Fails(b)
  {
    if b == [] {
      assert a + b == a;
    } else {
      FailsConcat(a, b[..|b| - 1]);
      assert (a + b)[..|a + b| - 1] == a + b[..|b| - 1];
    }
  }

  lemma FailsOne(x: bool)
    ensures Fails([x]) == if x then 0 else 1
  {
    assert [x][..0] == [];
  }

  lemma {:induction false} FailsBound(outcomes: seq<bool>)
    ensures Fails(outcomes) <= |outcomes|
  {
    if outcomes != [] {
      FailsBound(outcomes[..|outcomes| - 1]);
    }
  }

  /** Dropping the oldest outcome takes its failure out of the count. */
  lemma FailsShift(w: seq<bool>, x: bool)
    requires w != []
    ensures Fails(w[1..] + [x]) == Fails(w) - (if w[0] then 0 else 1) + (if x then 0 else 1)
  {
    assert w == [w[0]] + w[1..];
    FailsConcat([w[0]], w[1..]);
    FailsConcat(w[1..], [x]);
    FailsOne(w[0]);
    FailsOne(x);
  }

  /** The failure rate over the last n outcomes. */
  function Rate(outcomes: seq<bool>, n: nat): real {
    var recent := Last(outcomes, n);
    if recent == [] then 0.0 else Fails(recent) as real / |recent| as real
  }

  /** The gauge's clamp. */
  function Clamp(rate: real): real {
    if rate < 0.0 then 0.0 else if rate > 1.0 then 1.0 else rate
  }

  lemma ClampNeverChangesRate(outcomes: seq<bool>, n: nat)
    ensures 0.0 <= Rate(outcomes, n) <= 1.0
    ensures Clamp(Rate(outcomes, n)) == Rate(outcomes, n)
  {
    FailsBound(Last(outcomes, n));
    RatioInUnit(Fails(Last(outcomes, n)), |Last(outcomes, n)|);
  }

  lemma RatioInUnit(a: nat, b: nat)
    requires a <= b
    ensures b > 0 ==> 0.0 <= a as real / b as real <= 1.0
  {}

  /** The outcome ring: the last outcomes in order, and the counter their failures. */
  ghost predicate ErrorRing(ring: seq<bool>, idx: nat, full: bool, count: int, outcomes: seq<bool>) {
    && idx < |ring|
    && (full <==> |outcomes| >= |ring|)
    && (if full then Unrolled(ring, idx) == Last(outcomes, |ring|) else idx == |outcomes| && ring[..idx] == outcomes)
    && count == Fails(Last(outcomes, |ring|))
  }

  lemma ErrorPush(ring: seq<bool>, idx: nat, full: bool, count: int, outcomes: seq<bool>, ok: bool)
    requires ErrorRing(ring, idx, full, count, outcomes)
    ensures ErrorRing(ring[idx := ok], Next(idx, |ring|), full || Next(idx, |ring|) == 0,
      count - (if full && !ring[idx] then 1 else 0) + (if ok then 0 else 1), outcomes + [ok])
  {
    hide Fails, Next;
    var n := |ring|;
    NextIs(idx, n);
    LastSnoc(outcomes, ok, n);
    if full {
      Rotate(ring, idx, ok);
      FailsShift(Last(outcomes, n), ok);
    } else {
      FailsConcat(outcomes, [ok]);
      FailsOne(ok);
      assert ring[idx := ok][..idx + 1] == outcomes + [ok];
      if idx + 1 == n {
        assert Unrolled(ring[idx := ok], 0) == ring[idx := ok][..n];
      }
    }
  }

  // ---- repetition ---------------------------------------------------------

  datatype Entry = Entry(hash: string, at: int)

  /** One observed call of a tool: its ring entry and the window's lower end when it was counted. */
  datatype Seen = Seen(entry: Entry, cutoff: int)

  const ZERO := Entry("", 0)

  function Entries(calls: seq<Seen>): (es: seq<Entry>)
    ensures |es| == |calls| && forall k :: 0 <= k < |calls| ==> es[k] == calls[k].entry
  {
    if calls == [] then [] else Entries(calls[..|calls| - 1]) + [calls[|calls| - 1].entry]
  }

  function Occurrences(es: seq<Entry>, hash: string, cutoff: int): nat {
    if es == [] then 0
    else
      var e := es[|es| - 1];
      Occurrences(es[..|es| - 1], hash, cutoff) + if e.hash == hash && e.at >= cutoff then 1 else 0
  }

  /** The latest call's hash occurred at least threshold times in its window, among the last size calls. */
  function Reached(calls: seq<Seen>, threshold: nat): bool {
    calls != [] &&
    var last := calls[|calls| - 1];
    Occurrences(Last(Entries(calls), 4 * threshold), last.entry.hash, last.cutoff) >= threshold
  }

  /** Whether the latest call with this hash reached the threshold. */
  function Bursting(calls: seq<Seen>, threshold: nat, hash: string): bool {
    calls != [] &&
    if calls[|calls| - 1].entry.hash == hash then Reached(calls, threshold)
    else Bursting(calls[..|calls| - 1], threshold, hash)
  }

  /** How often a hash went from below the threshold to at it. */
  function Rises(calls: seq<Seen>, threshold: nat): nat {
    if calls == [] then 0
    else
      var before := calls[..|calls| - 1];
      Rises(before, threshold)
      + if Reached(calls, threshold) && !Bursting(before, threshold, calls[|calls| - 1].entry.hash) then 1 else 0
  }

  lemma {:induction false} OccurrencesConcat(a: seq<Entry>, b: seq<Entry>, hash: string, cutoff: int)
    ensures Occurrences(a + b, hash, cutoff) == Occurrences(a, hash, cutoff) + Occurrences(b, hash, cutoff)
  {
    if b == [] {
      assert a + b == a;
    } else {
      OccurrencesConcat(a, b[..|b| - 1], hash, cutoff);
      assert (a + b)[..|a + b| - 1] == a + b[..|b| - 1];
    }
  }

  function Zeros(n: nat): (es: seq<Entry>)
    ensures |es| == n
  {
    if n == 0 then [] else Zeros(n - 1) + [ZERO]
  }

  lemma {:induction false} ZerosDoNotOccur(n: nat, hash: string, cutoff: int)
    requires hash != ""
    ensures Occurrences(Zeros(n), hash, cutoff) == 0
  {
    if n > 0 {
      ZerosDoNotOccur(n - 1, hash, cutoff);
    }
  }

  /** The slots of a ring, oldest first when idx is the oldest. */
  function Unrolled<T>(buf: seq<T>, idx: nat): seq<T>
    requires idx <= |buf|
  {
    buf[idx..] + buf[..idx]
  }

  /** A ring of size slots holding the last calls, oldest at idx once it has filled up. */
  ghost predicate RingHolds(buf: seq<Entry>, idx: nat, es: seq<Entry>) {
    if |es| < |buf| then idx == |es| && buf == es + Zeros(|buf| - |es|)
    else idx < |buf| && Unrolled(buf, idx) == Last(es, |buf|)
  }

  lemma RingOccurrences(buf: seq<Entry>, idx: nat, es: seq<Entry>, hash: string, cutoff: int)
    requires RingHolds(buf, idx, es) && hash != ""
    ensures Occurrences(buf, hash, cutoff) == Occurrences(Last(es, |buf|), hash, cutoff)
  {
    if |es| < |buf| {
      OccurrencesConcat(es, Zeros(|buf| - |es|), hash, cutoff);
      ZerosDoNotOccur(|buf| - |es|, hash, cutoff);
    } else {
      assert buf == buf[..idx] + buf[idx..];
      OccurrencesConcat(buf[..idx], buf[idx..], hash, cutoff);
      OccurrencesConcat(buf[idx..], buf[..idx], hash, cutoff);
    }
  }

  lemma {:induction false} ZerosFirst(n: nat)
    requires n > 0
    ensures Zeros(n) == [ZERO] + Zeros(n - 1)
  {
    if n > 1 {
      ZerosFirst(n - 1);
    }
  }

  function Next(idx: nat, n: nat): nat
    requires n > 0
  {
    (idx + 1) % n
  }

  lemma NextIs(idx: nat, n: nat)
    requires idx < n
    ensures Next(idx, n) == if idx + 1 == n then 0 else idx + 1
  {}

  /** Overwriting the oldest slot drops the oldest value and appends the new one. */
  lemma Rotate<T>(buf: seq<T>, idx: nat, x: T)
    requires idx < |buf|
    ensures Unrolled(buf[idx := x], Next(idx, |buf|)) == Unrolled(buf, idx)[1..] + [x]
  {
    NextIs(idx, |buf|);
    if idx + 1 == |buf| {
      assert buf[idx := x] == buf[..idx] + [x];
      assert Unrolled(buf, idx)[1..] == buf[..idx];
    } else {
      assert Unrolled(buf, idx)[1..] == buf[idx + 1..] + buf[..idx];
      assert buf[idx := x][idx + 1..] == buf[idx + 1..];
      assert buf[idx := x][..idx + 1] == buf[..idx] + [x];
    }
  }

  lemma RingJustFull(buf: seq<Entry>)
    requires buf != []
    ensures RingHolds(buf, 0, buf)
  {
    assert buf[0..] + buf[..0] == buf;
  }

  lemma OverwriteMiddle<T>(a: seq<T>, x: T, b: seq<T>, y: T)
    ensures (a + ([x] + b))[|a| := y] == a + [y] + b
  {}

  lemma NoZeros(es: seq<Entry>)
    ensures es + Zeros(0) == es
  {}

  /** A ring whose first slots are es and whose other n slots are still zero. */
  lemma RingFilled(buf: seq<Entry>, es: seq<Entry>, n: nat)
    requires es != [] && buf == es + Zeros(n)
    ensures RingHolds(buf, if n == 0 then 0 else |es|, es)
  {
    if n == 0 {
      NoZeros(es);
      RingJustFull(buf);
    } else {
      assert |buf| - |es| == n;
    }
  }

  lemma Overwritten(es: seq<Entry>, n: nat, e: Entry)
    ensures (es + Zeros(n + 1))[|es| := e] == es + [e] + Zeros(n)
  {
    hide Zeros;
    ZerosFirst(n + 1);
    OverwriteMiddle(es, ZERO, Zeros(n), e);
  }

  lemma RingGrow(buf: seq<Entry>, es: seq<Entry>, n: nat, e: Entry)
    requires buf == es + Zeros(n + 1)
    ensures RingHolds(buf[|es| := e], if n == 0 then 0 else |es| + 1, es + [e])
  {
    hide RingHolds, Zeros;
    Overwritten(es, n, e);
    RingFilled(buf[|es| := e], es + [e], n);
  }

  /** Writing the slot at idx and moving on records one more call. */
  lemma RingPush(buf: seq<Entry>, idx: nat, es: seq<Entry>, e: Entry)
    requires buf != [] && idx < |buf| && RingHolds(buf, idx, es)
    ensures RingHolds(buf[idx := e], Next(idx, |buf|), es + [e])
  {
    NextIs(idx, |buf|);
    hide Next;
    if |es| < |buf| {
      RingGrow(buf, es, |buf| - |es| - 1, e);
    } else {
      Rotate(buf, idx, e);
      LastSnoc(es, e, |buf|);
    }
  }

  // ---- the tracker --------------------------------------------------------

  datatype Config = Config(repetitionWindow: int, repetitionThreshold: int, errorRateWindow: int)

  /** The defaults: ten minutes in nanoseconds, three repeats, a hundred outcomes. */
  const DEFAULTS := Config(600_000_000_000, 3, 100)

  function Positive(v: int, default: int): int {
    if v <= 0 then default else v
  }

  class Tracker {
    const repetitionWindow: int
    const repetitionThreshold: nat
    const errBuf: array<bool>
    var errBufIdx: nat
    var errBufFull: bool
    var errCount: int
    var repBuf: map<string, seq<Entry>>
    var repBufIdx: map<string, nat>
    var repCounted: map<string, set<string>>
    // The metrics the tracker drives.
    var errorRateGauge: real
    var repetitionTotal: map<string, nat>
    // Everything ever observed.
    ghost var outcomes: seq<bool>
    ghost var seen: map<string, seq<Seen>>

    /** The ring is the last outcomes, and the counter their failures. */
    ghost predicate ErrorsValid()
      reads this, errBuf
    {
      errBuf.Length > 0 && ErrorRing(errBuf[..], errBufIdx, errBufFull, errCount, outcomes)
    }

    ghost predicate RepetitionValid()
      reads this
    {
      repetitionThreshold > 0 && ToolsOk(repBuf, repBufIdx, repCounted, seen, repetitionTotal, repetitionThreshold)
    }

    ghost function Calls(tool: string): seq<Seen>
      reads this
    {
      if tool in seen then seen[tool] else []
    }

    constructor (cfg: Config)
      ensures ErrorsValid() && RepetitionValid() && fresh(errBuf)
      ensures outcomes == [] && seen == map[] && errorRateGauge == 0.0
      ensures errBuf.Length == if cfg.errorRateWindow > 0 then cfg.errorRateWindow else 100
      ensures repetitionThreshold == if cfg.repetitionThreshold > 0 then cfg.repetitionThreshold else 3
      ensures repetitionWindow == if cfg.repetitionWindow > 0 then cfg.repetitionWindow else 600_000_000_000
    {
      repetitionWindow := Positive(cfg.repetitionWindow, DEFAULTS.repetitionWindow);
      repetitionThreshold := Positive(cfg.repetitionThreshold, DEFAULTS.repetitionThreshold);
      errBuf := new bool[Positive(cfg.errorRateWindow, DEFAULTS.errorRateWindow)];
      errBufIdx, errBufFull, errCount := 0, false, 0;
      repBuf, repBufIdx, repCounted := map[], map[], map[];
      errorRateGauge, repetitionTotal := 0.0, map[];
      outcomes, seen := [], map[];
    }

    /** After any sequence of outcomes the published rate is the failure rate of the last ones. */
    method RecordErrorOutcome(ok: bool)
      requires ErrorsValid()
      modifies this`errBufIdx, this`errBufFull, this`errCount, this`errorRateGauge, this`outcomes, errBuf
      ensures ErrorsValid()
      ensures outcomes == old(outcomes) + [ok]
      ensures errorRateGauge == Rate(outcomes, errBuf.Length)
    {
      hide ErrorRing, Rate;
      ghost var ring := errBuf[..];
      ErrorBounds(ring, errBufIdx, errBufFull, errCount, outcomes);
      ErrorPush(ring, errBufIdx, errBufFull, errCount, outcomes, ok);
      NextIs(errBufIdx, errBuf.Length);
      if errBufFull {
        if !errBuf[errBufIdx] {
          errCount := errCount - 1;
        }
      }
      errBuf[errBufIdx] := ok;
      assert errBuf[..] == ring[errBufIdx := ok];
      if !ok {
        errCount := errCount + 1;
      }
      outcomes := outcomes + [ok];
      errBufIdx := (errBufIdx + 1) % errBuf.Length;
      if !errBufFull && errBufIdx == 0 {
        errBufFull := true;
      }
      ErrorBounds(errBuf[..], errBufIdx, errBufFull, errCount, outcomes);
      var size := errBufIdx;
      if errBufFull {
        size := errBuf.Length;
      }
      var rate := 0.0;
      if size > 0 {
        rate := errCount as real / size as real;
      }
      ClampNeverChangesRate(outcomes, errBuf.Length);
      errorRateGauge := Clamp(rate);
    }

    /** One observation of a tool with the given arguments hash, at time now1; now2 is the second
        clock reading, used for the cutoff. */
    method RecordRepetition(tool: string, argsHash: string, now1: int, now2: int)
      requires RepetitionValid()
      modifies this`repBuf, this`repBufIdx, this`repCounted, this`repetitionTotal, this`seen
      ensures RepetitionValid()
      ensures argsHash == "" ==> seen == old(seen) && repetitionTotal == old(repetitionTotal)
      ensures argsHash != "" ==>
        seen == old(seen)[tool := old(Calls(tool)) + [Seen(Entry(argsHash, now1), now2 - repetitionWindow)]]
    {
      hide ToolOk, ToolsOk, Occurrences, Zeros, Total;
      if argsHash == "" {
        return;
      }
      var bufSize := repetitionThreshold * 4;
      ghost var calls := Calls(tool);
      ToolsDomain(repBuf, repBufIdx, repCounted, seen, repetitionTotal, repetitionThreshold, tool);
      FreshTool(repetitionThreshold);
      var buf, idx, counted := Zeros(bufSize), 0, {};
      if tool in repBuf {
        buf, idx, counted := repBuf[tool], repBufIdx[tool], repCounted[tool];
      }
      var total := Total(repetitionTotal, tool);
      ghost var call := Seen(Entry(argsHash, now1), now2 - repetitionWindow);
      ToolBounds(buf, idx, counted, calls, repetitionThreshold, total);
      ToolPush(buf, idx, counted, calls, repetitionThreshold, total, call);
      buf := buf[idx := Entry(argsHash, now1)];
      idx := (idx + 1) % bufSize;
      var cutoff := now2 - repetitionWindow;
      var count := CountInWindow(buf, argsHash, cutoff);
      ghost var totals, before := repetitionTotal, counted;
      if count >= repetitionThreshold && argsHash !in counted {
        counted := counted + {argsHash};
        total := total + 1;
        repetitionTotal := repetitionTotal[tool := total];
      } else if count < repetitionThreshold && argsHash in counted {
        counted := counted - {argsHash};
      }
      assert counted == if count >= repetitionThreshold then before + {argsHash} else before - {argsHash};
      ToolsUpdate(repBuf, repBufIdx, repCounted, seen, totals, repetitionThreshold, tool,
        buf, idx, counted, calls + [call], repetitionTotal, total);
      repBuf := repBuf[tool := buf];
      repBufIdx := repBufIdx[tool := idx];
      repCounted := repCounted[tool := counted];
      seen := seen[tool := calls + [call]];
    }
  }

  function Total(totals: map<string, nat>, tool: string): nat {
    if tool in totals then totals[tool] else 0
  }

  /** Every tool's share of the maps is in order, and nothing was counted for tools never seen. */
  ghost predicate ToolsOk(bufs: map<string, seq<Entry>>, idxs: map<string, nat>, counted: map<string, set<string>>,
    seen: map<string, seq<Seen>>, totals: map<string, nat>, threshold: nat)
  {
    && bufs.Keys == idxs.Keys == counted.Keys == seen.Keys
    && (forall tool :: tool in bufs ==>
          ToolOk(bufs[tool], idxs[tool], counted[tool], seen[tool], threshold, Total(totals, tool)))
    && (forall tool :: tool !in bufs ==> Total(totals, tool) == 0)
  }

  lemma ToolsDomain(bufs: map<string, seq<Entry>>, idxs: map<string, nat>, counted: map<string, set<string>>,
      seen: map<string, seq<Seen>>, totals: map<string, nat>, threshold: nat, tool: string)
    requires ToolsOk(bufs, idxs, counted, seen, totals, threshold)
    ensures tool in bufs <==> tool in seen
    ensures tool in bufs ==> tool in idxs && tool in counted
    ensures tool in bufs ==> ToolOk(bufs[tool], idxs[tool], counted[tool], seen[tool], threshold, Total(totals, tool))
    ensures tool !in bufs ==> Total(totals, tool) == 0
  {}

  lemma ToolsUpdate(bufs: map<string, seq<Entry>>, idxs: map<string, nat>, counted: map<string, set<string>>,
      seen: map<string, seq<Seen>>, totals: map<string, nat>, threshold: nat, tool: string,
      buf: seq<Entry>, idx: nat, hashes: set<string>, calls: seq<Seen>, totals': map<string, nat>, total: nat)
    requires ToolsOk(bufs, idxs, counted, seen, totals, threshold)
    requires ToolOk(buf, idx, hashes, calls, threshold, total)
    requires totals' == totals[tool := total] || (totals' == totals && total == Total(totals, tool))
    ensures ToolsOk(bufs[tool := buf], idxs[tool := idx], counted[tool := hashes], seen[tool := calls],
                    totals', threshold)
  {
    hide ToolOk;
  }

  /** One tool: its ring is its last calls, its counted set the hashes now bursting, its counter the rises. */
  ghost predicate ToolOk(buf: seq<Entry>, idx: nat, counted: set<string>, calls: seq<Seen>, threshold: nat,
      total: nat) {
    && |buf| == 4 * threshold && idx < |buf|
    && RingHolds(buf, idx, Entries(calls))
    && (forall h :: h in counted <==> Bursting(calls, threshold, h))
    && total == Rises(calls, threshold)
  }

  lemma FreshTool(threshold: nat)
    requires threshold > 0
    ensures ToolOk(Zeros(4 * threshold), 0, {}, [], threshold, 0)
  {
    assert [] + Zeros(4 * threshold) == Zeros(4 * threshold);
  }

  lemma ToolBounds(buf: seq<Entry>, idx: nat, counted: set<string>, calls: seq<Seen>, threshold: nat, total: nat)
    requires ToolOk(buf, idx, counted, calls, threshold, total)
    ensures |buf| == 4 * threshold && idx < |buf|
  {}

  /** One more call: the scan counts its hash inside the window among the tool's last calls, and the
      flag and counter follow from that count. */
  lemma ToolPush(buf: seq<Entry>, idx: nat, counted: set<string>, calls: seq<Seen>, threshold: nat, total: nat,
      call: Seen)
    requires ToolOk(buf, idx, counted, calls, threshold, total) && idx < |buf| && call.entry.hash != ""
    ensures var buf', h := buf[idx := call.entry], call.entry.hash;
      var reached := Occurrences(buf', h, call.cutoff) >= threshold;
      ToolOk(buf', Next(idx, |buf|),
             if reached then counted + {h} else counted - {h},
             calls + [call], threshold, total + if reached && h !in counted then 1 else 0)
  {
    hide RingHolds, Bursting, Rises, Reached, Occurrences, Last, Next, Zeros, Entries;
    RingPush(buf, idx, Entries(calls), call.entry);
    EntriesSnoc(calls, call);
    NextIs(idx, |buf|);
    RingOccurrences(buf[idx := call.entry], Next(idx, |buf|), Entries(calls + [call]), call.entry.hash, call.cutoff);
    Latest(calls, call, threshold);
  }

  /** The scan over the ring. */
  method CountInWindow(buf: seq<Entry>, hash: string, cutoff: int) returns (count: nat)
    ensures count == Occurrences(buf, hash, cutoff)
  {
    count := 0;
    for i := 0 to |buf|
      invariant count == Occurrences(buf[..i], hash, cutoff)
    {
      assert buf[..i + 1][..i] == buf[..i];
      if buf[i].hash == hash && buf[i].at >= cutoff {
        count := count + 1;
      }
    }
    assert buf[..|buf|] == buf;
  }

  lemma EntriesSnoc(calls: seq<Seen>, call: Seen)
    ensures Entries(calls + [call]) == Entries(calls) + [call.entry]
  {
    assert (calls + [call])[..|calls|] == calls;
  }

  /** What one more call changes: its own hash bursts exactly when it reached the threshold, every other
      hash is as before, and a rise is counted when it was not bursting already. */
  lemma Latest(calls: seq<Seen>, call: Seen, threshold: nat)
    ensures var calls' := calls + [call];
      && (Reached(calls', threshold) <==>
            Occurrences(Last(Entries(calls'), 4 * threshold), call.entry.hash, call.cutoff) >= threshold)
      && (forall h :: Bursting(calls', threshold, h)
            <==> if h == call.entry.hash then Reached(calls', threshold) else Bursting(calls, threshold, h))
      && Rises(calls', threshold) == Rises(calls, threshold)
           + if Reached(calls', threshold) && !Bursting(calls, threshold, call.entry.hash) then 1 else 0
  {
    assert (calls + [call])[..|calls|] == calls;
  }

  /** The latest call with this hash, up to call i, is call i and it reached the threshold. */
  ghost predicate LatestReached(calls: seq<Seen>, threshold: nat, hash: string, i: nat)
    requires i < |calls|
  {
    && calls[i].entry.hash == hash && Reached(calls[..i + 1], threshold)
    && forall j :: i < j < |calls| ==> calls[j].entry.hash != hash
  }

  /** The flag of a hash is set exactly when its latest call reached the threshold. */
  lemma {:induction false} BurstingExactly(calls: seq<Seen>, threshold: nat, hash: string)
    ensures Bursting(calls, threshold, hash)
      <==> exists i: nat :: i < |calls| && LatestReached(calls, threshold, hash, i)
  {
    hide Reached;
    if calls != [] {
      var n := |calls| - 1;
      var before := calls[..n];
      assert calls[..n + 1] == calls;
      if calls[n].entry.hash == hash {
        assert LatestReached(calls, threshold, hash, n) <==> Reached(calls, threshold);
      } else {
        BurstingExactly(before, threshold, hash);
        forall i: nat | i < n
          ensures LatestReached(calls, threshold, hash, i) <==> LatestReached(before, threshold, hash, i)
        {
          assert before[..i + 1] == calls[..i + 1];
          assert LatestReached(calls, threshold, hash, i) ==> calls[n].entry.hash != hash;
          assert forall j :: i < j < n ==> before[j] == calls[j];
        }
      }
    }
  }

  /** Call i reached the threshold, and the last earlier call with its hash, if any, had not. */
  ghost predicate RiseAt(calls: seq<Seen>, threshold: nat, i: nat)
    requires i < |calls|
  {
    Reached(calls[..i + 1], threshold) && !Bursting(calls[..i], threshold, calls[i].entry.hash)
  }

  ghost function RisingCalls(calls: seq<Seen>, threshold: nat): set<int> {
    set i: int | 0 <= i < |calls| && RiseAt(calls, threshold, i)
  }

  lemma RisingSnoc(calls: seq<Seen>, threshold: nat)
    requires calls != []
    ensures var n := |calls| - 1;
      RisingCalls(calls, threshold)
        == RisingCalls(calls[..n], threshold) + if RiseAt(calls, threshold, n) then {n} else {}
    ensures |calls| - 1 !in RisingCalls(calls[..|calls| - 1], threshold)
  {
    var n := |calls| - 1;
    var before := calls[..n];
    hide RiseAt;
    forall i: nat | i < n ensures RiseAt(calls, threshold, i) <==> RiseAt(before, threshold, i) {
      SameRise(calls, threshold, i);
    }
  }

  lemma SameRise(calls: seq<Seen>, threshold: nat, i: nat)
    requires i + 1 < |calls|
    ensures RiseAt(calls, threshold, i) <==> RiseAt(calls[..|calls| - 1], threshold, i)
  {
    hide Reached, Bursting;
    var before := calls[..|calls| - 1];
    assert before[..i + 1] == calls[..i + 1] && before[..i] == calls[..i];
  }

  /** The counter is the number of calls that took their hash from below the threshold to at it. */
  lemma {:induction false} RisesExactly(calls: seq<Seen>, threshold: nat)
    ensures Rises(calls, threshold) == |RisingCalls(calls, threshold)|
  {
    hide Reached, Bursting, RisingCalls;
    if calls != [] {
      var n := |calls| - 1;
      var before := calls[..n];
      RisesExactly(before, threshold);
      assert calls[..n + 1] == calls;
      RisingSnoc(calls, threshold);
    } else {
      NoRises(threshold);
    }
  }

  lemma NoRises(threshold: nat)
    ensures RisingCalls([], threshold) == {}
  {
  }

  lemma ErrorBounds(ring: seq<bool>, idx: nat, full: bool, count: int, outcomes: seq<bool>)
    requires ErrorRing(ring, idx, full, count, outcomes)
    ensures idx < |ring|
    ensures var size := if full then |ring| else idx;
      Rate(outcomes, |ring|) == if size > 0 then count as real / size as real else 0.0
  {
    assert |Last(outcomes, |ring|)| == if full then |ring| else idx;
  }

  // ---- counts as sizes of sets --------------------------------------------

  function FailedAt(outcomes: seq<bool>): set<int> {
    set i | 0 <= i < |outcomes| && !outcomes[i]
  }

  /** The failure count is the number of failed outcomes. */
  lemma {:induction false} FailsExact(outcomes: seq<bool>)
    ensures Fails(outcomes) == |FailedAt(outcomes)|
  {
    if outcomes == [] {
      assert FailedAt(outcomes) == {};
    } else {
      var n := |outcomes| - 1;
      FailsExact(outcomes[..n]);
      assert FailedAt(outcomes) == FailedAt(outcomes[..n]) + if outcomes[n] then {} else {n};
    }
  }

  /** The positions from `from` on that hold a hash inside the window. */
  function InWindow(es: seq<Entry>, from: int, hash: string, cutoff: int): set<int> {
    set i | 0 <= i < |es| && from <= i && es[i].hash == hash && es[i].at >= cutoff
  }

  lemma {:induction false} OccurrencesFrom(es: seq<Entry>, from: nat, hash: string, cutoff: int)
    requires from <= |es|
    ensures Occurrences(es[from..], hash, cutoff) == |InWindow(es, from, hash, cutoff)|
    decreases |es|
  {
    if from == |es| {
      assert InWindow(es, from, hash, cutoff) == {};
    } else {
      var n := |es| - 1;
      OccurrencesFrom(es[..n], from, hash, cutoff);
      assert es[from..][..n - from] == es[..n][from..];
      InWindowSnoc(es, from, hash, cutoff);
    }
  }

  lemma InWindowSnoc(es: seq<Entry>, from: nat, hash: string, cutoff: int)
    requires from < |es|
    ensures var n := |es| - 1;
      |InWindow(es, from, hash, cutoff)|
        == |InWindow(es[..n], from, hash, cutoff)| + if es[n].hash == hash && es[n].at >= cutoff then 1 else 0
  {
    var n := |es| - 1;
    assert InWindow(es, from, hash, cutoff)
        == InWindow(es[..n], from, hash, cutoff) + if es[n].hash == hash && es[n].at >= cutoff then {n} else {};
  }

  /** The scan counts exactly the entries of the hash that are not before the cutoff. */
  lemma OccurrencesExact(es: seq<Entry>, hash: string, cutoff: int)
    ensures Occurrences(es, hash, cutoff) == |InWindow(es, 0, hash, cutoff)|
  {
    assert es[0..] == es;
    OccurrencesFrom(es, 0, hash, cutoff);
  }

  /** The calls among the last 4 x threshold, up to call i, that have its hash and lie in its window. */
  function Repeats(calls: seq<Seen>, threshold: nat, i: int): set<int>
    requires 0 <= i < |calls|
  {
    set j | 0 <= j <= i && i - j < 4 * threshold
      && calls[j].entry.hash == calls[i].entry.hash && calls[j].entry.at >= calls[i].cutoff
  }

  /** A call reaches the threshold exactly when that many of its tool's last 4 x threshold calls, itself
      included, have its hash and lie in its window. */
  lemma ReachedExactly(calls: seq<Seen>, threshold: nat, i: nat)
    requires i < |calls|
    ensures Reached(calls[..i + 1], threshold) <==> |Repeats(calls, threshold, i)| >= threshold
  {
    hide Occurrences, Entries;
    var upTo := calls[..i + 1];
    var es, last := Entries(upTo), upTo[i];
    var from := if |es| <= 4 * threshold then 0 else |es| - 4 * threshold;
    assert es[from..] == Last(es, 4 * threshold);
    OccurrencesFrom(es, from, last.entry.hash, last.cutoff);
    SameRepeats(calls, threshold, i, es, from);
  }

  lemma SameRepeats(calls: seq<Seen>, threshold: nat, i: nat, es: seq<Entry>, from: nat)
    requires i < |calls| && es == Entries(calls[..i + 1])
    requires from == if i < 4 * threshold then 0 else i + 1 - 4 * threshold
    ensures Repeats(calls, threshold, i) == InWindow(es, from, calls[i].entry.hash, calls[i].cutoff)
  {
    hide Entries;
    forall j | 0 <= j <= i ensures es[j] == calls[j].entry {
      assert calls[..i + 1][j] == calls[j];
    }
  }

  /** Every earlier call with the hash of a call lies before its window. */
  ghost predicate Spaced(calls: seq<Seen>) {
    forall i, j :: 0 <= j < i < |calls| && calls[j].entry.hash == calls[i].entry.hash ==>
      calls[j].entry.at < calls[i].cutoff
  }

  lemma SpacedLast(calls: seq<Seen>, threshold: nat)
    requires Spaced(calls) && calls != [] && threshold >= 2
    ensures !Reached(calls, threshold)
  {
    var n := |calls| - 1;
    ReachedExactly(calls, threshold, n);
    assert calls[..n + 1] == calls;
    hide Reached;
    AtMostOne(Repeats(calls, threshold, n), n);
  }

  /** Calls that never repeat within a window are never counted. */
  lemma {:induction false} SpacedCallsNeverBurst(calls: seq<Seen>, threshold: nat)
    requires threshold >= 2 && Spaced(calls)
    ensures forall hash :: !Bursting(calls, threshold, hash)
    ensures Rises(calls, threshold) == 0
  {
    hide Reached;
    if calls != [] {
      SpacedCallsNeverBurst(calls[..|calls| - 1], threshold);
      SpacedLast(calls, threshold);
      hide Spaced;
    }
  }

  lemma AtMostOne(a: set<int>, n: int)
    requires forall j :: j in a ==> j == n
    ensures |a| <= 1
  {
    var others := a - {n};
    if others != {} {
      NonEmpty(others);
      assert false;
    }
    assert |a| <= |others| + 1;
  }

  ghost predicate Steady(calls: seq<Seen>) {
    forall i, j :: 0 <= j <= i < |calls| ==>
      calls[j].entry.hash == calls[i].entry.hash && calls[j].entry.at >= calls[i].cutoff
  }

  lemma SteadyLast(calls: seq<Seen>, threshold: nat)
    requires Steady(calls) && calls != [] && threshold > 0
    ensures Reached(calls, threshold) <==> |calls| >= threshold
  {
    var n := |calls| - 1;
    ReachedExactly(calls, threshold, n);
    assert calls[..n + 1] == calls;
    var first := if n < 4 * threshold then 0 else n - 4 * threshold + 1;
    hide Reached;
    IntervalSize(Repeats(calls, threshold, n), first, n + 1);
  }

  /** Calls that all repeat one hash inside every window are counted once, at the call that makes them
      threshold many. */
  lemma {:induction false} SteadyRepetitionCountsOnce(calls: seq<Seen>, threshold: nat)
    requires threshold > 0 && Steady(calls)
    ensures Rises(calls, threshold) == if |calls| >= threshold then 1 else 0
    ensures calls != [] ==> (Bursting(calls, threshold, calls[0].entry.hash) <==> |calls| >= threshold)
  {
    hide Reached;
    if calls != [] {
      var n := |calls| - 1;
      SteadyRepetitionCountsOnce(calls[..n], threshold);
      SteadyLast(calls, threshold);
      assert calls[n].entry.hash == calls[0].entry.hash;
      if n > 0 {
        assert calls[..n][0] == calls[0];
      } else {
        assert !Bursting(calls[..n], threshold, calls[0].entry.hash);
      }
    }
  }

  lemma {:induction false} IntervalSize(a: set<int>, lo: int, hi: int)
    requires lo <= hi && forall j :: j in a <==> lo <= j < hi
    ensures |a| == hi - lo
    decreases hi - lo
  {
    if lo == hi {
      assert forall j :: j !in a;
      assert a == {};
    } else {
      IntervalSize(a - {hi - 1}, lo, hi - 1);
    }
  }
}
