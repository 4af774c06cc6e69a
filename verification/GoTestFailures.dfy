/** internal/verify/go_test_failures.go: folding a test2json event stream into failures.
    Decoding a line into an event is left out; extracting file, message and diff from a test's
    output is the parameter describe. */
module GoTestFailures {
  import opened Text

  datatype Event = Event(action: string, pkg: string, test: string, output: string)

  datatype TestKey = TestKey(pkg: string, test: string)

  datatype Detail = Detail(file: string, line: int, message: string, diff: string)

  datatype TestFailure = TestFailure(detail: Detail, testName: string)

  const NUL: char := 0 as char

  // ---- reading the stream declaratively -----------------------------------

  function KeyOf(ev: Event): TestKey {
    TestKey(ev.pkg, ev.test)
  }

  /** The keys of the events that name a test, in stream order. */
  function NamedKeys(events: seq<Event>): seq<TestKey> {
    if events == [] then []
    else
      var ev := events[|events| - 1];
      NamedKeys(events[..|events| - 1]) + if ev.test == "" then [] else [KeyOf(ev)]
  }

  function OutputOf(ev: Event): seq<string> {
    if ev.action == "output" && ev.output != "" then [ev.output] else []
  }

  /** The non-empty outputs of one test, in stream order. */
  function Outputs(events: seq<Event>, k: TestKey): seq<string> {
    if events == [] then []
    else
      var ev := events[|events| - 1];
      Outputs(events[..|events| - 1], k) + if KeyOf(ev) == k then OutputOf(ev) else []
  }

  predicate Failed(events: seq<Event>, k: TestKey) {
    exists i :: 0 <= i < |events| && KeyOf(events[i]) == k && events[i].action == "fail"
  }

  // ---- the key sentinel ---------------------------------------------------

  function KeySentinel(k: TestKey): string {
    [NUL] + k.pkg + [NUL] + k.test
  }

  function SplitKeySentinel(s: string): TestKey {
    if s == "" || s[0] != NUL then TestKey("", "")
    else
      var t := s[1..];
      var i := Index(t, NUL);
      if i == |t| then TestKey("", "") else TestKey(t[..i], t[i + 1..])
  }

  /** The sentinel gives the key back exactly when the package name has no NUL. */
  lemma SentinelRoundTrip(k: TestKey)
    ensures SplitKeySentinel(KeySentinel(k)) == k <==> NUL !in k.pkg
  {
    var t := k.pkg + [NUL] + k.test;
    assert KeySentinel(k)[1..] == t;
    var i := Index(t, NUL);
    assert t[|k.pkg|] == NUL;
    if NUL !in k.pkg {
      IndexAt(t, NUL, |k.pkg|);
      assert t[..|k.pkg|] == k.pkg && t[|k.pkg| + 1..] == k.test;
    } else {
      var j :| 0 <= j < |k.pkg| && k.pkg[j] == NUL;
      assert t[j] == NUL;
      assert |t[..i]| < |k.pkg|;
    }
  }

  function TestName(k: TestKey): string {
    SplitKeySentinel(KeySentinel(k)).pkg + "/" + SplitKeySentinel(KeySentinel(k)).test
  }

  /** A failure is named after its package and test exactly when the package name has no NUL. */
  lemma TestNameExact(k: TestKey)
    ensures TestName(k) == k.pkg + "/" + k.test <==> NUL !in k.pkg
  {
    SentinelRoundTrip(k);
    if NUL in k.pkg {
      var t := k.pkg + [NUL] + k.test;
      assert KeySentinel(k)[1..] == t;
      var i := Index(t, NUL);
      assert t[|k.pkg|] == NUL;
      var j :| 0 <= j < |k.pkg| && k.pkg[j] == NUL;
      assert t[j] == NUL;
      assert TestName(k)[i] == '/' && (k.pkg + "/" + k.test)[i] == NUL;
    }
  }

  // ---- the fold -----------------------------------------------------------

  /** The record of one test. */
  function Record(events: seq<Event>, k: TestKey, describe: seq<string> -> Detail): TestFailure {
    TestFailure(describe(Outputs(events, k)), TestName(k))
  }

  /** The keys among ks that failed. */
  function FailedAmong(events: seq<Event>, ks: seq<TestKey>): seq<TestKey> {
    if ks == [] then []
    else
      var k := ks[|ks| - 1];
      FailedAmong(events, ks[..|ks| - 1]) + if Failed(events, k) then [k] else []
  }

  /** The failed tests, once each, in first-seen order. */
  function FailedKeys(events: seq<Event>): seq<TestKey> {
    FailedAmong(events, FirstSeen(NamedKeys(events)))
  }

  /** What ParseGoTest2JSON returns. */
  function Failures(events: seq<Event>, describe: seq<string> -> Detail): seq<TestFailure> {
    Mapped(k => Record(events, k, describe), FailedKeys(events))
  }

  class GoFailFrame {
    var outputs: seq<string>
    var failed: bool

    constructor ()
      ensures outputs == [] && !failed
    {
      outputs, failed := [], false;
    }

    /** applyEvent: only output and fail events matter. */
    method ApplyEvent(ev: Event)
      modifies this
      ensures outputs == old(outputs) + OutputOf(ev)
      ensures failed == (old(failed) || ev.action == "fail")
    {
      if ev.action == "output" {
        if ev.output != "" {
          outputs := outputs + [ev.output];
        }
      } else if ev.action == "fail" {
        failed := true;
      }
    }
  }

  /** Each key has a frame of its own, holding that key's reading of the events. */
  ghost predicate FramesRead(byKey: map<TestKey, GoFailFrame>, events: seq<Event>)
    reads byKey.Values
  {
    && (forall k :: k in byKey ==> byKey[k].outputs == Outputs(events, k) && byKey[k].failed == Failed(events, k))
    && (forall k, l :: k in byKey && l in byKey && k != l ==> byKey[k] != byKey[l])
  }

  /** The frames in first-seen order, each ending in its key's sentinel. */
  ghost predicate FramesListed(frames: seq<GoFailFrame>, events: seq<Event>)
    reads frames
  {
    var ks := FirstSeen(NamedKeys(events));
    && |frames| == |ks|
    && forall i :: 0 <= i < |ks| ==>
         frames[i].outputs == Outputs(events, ks[i]) + [KeySentinel(ks[i])] && frames[i].failed == Failed(events, ks[i])
  }

  lemma StepReading(events: seq<Event>, i: nat)
    requires i < |events|
    ensures NamedKeys(events[..i + 1])
         == NamedKeys(events[..i]) + if events[i].test == "" then [] else [KeyOf(events[i])]
    ensures forall k :: KeyOf(events[i]) != k ==> Outputs(events[..i + 1], k) == Outputs(events[..i], k)
    ensures Outputs(events[..i + 1], KeyOf(events[i])) == Outputs(events[..i], KeyOf(events[i])) + OutputOf(events[i])
    ensures forall k ::
      Failed(events[..i + 1], k) <==> Failed(events[..i], k) || (KeyOf(events[i]) == k && events[i].action == "fail")
  {
    var before, after := events[..i], events[..i + 1];
    assert after[..i] == before;
    assert after[i] == events[i];
    forall k ensures Failed(after, k) <==> Failed(before, k) || (KeyOf(events[i]) == k && events[i].action == "fail") {
      if Failed(before, k) {
        var j :| 0 <= j < |before| && KeyOf(before[j]) == k && before[j].action == "fail";
        assert after[j] == before[j];
      }
      if j :| 0 <= j < |after| && KeyOf(after[j]) == k && after[j].action == "fail" {
        assert j < i ==> after[j] == before[j];
      }
    }
  }

  lemma {:induction false} UnseenKey(events: seq<Event>, k: TestKey)
    requires k.test != "" && k !in NamedKeys(events)
    ensures Outputs(events, k) == [] && !Failed(events, k)
  {
    hide Failed;
    if events != [] {
      var n := |events| - 1;
      assert events[..n + 1] == events;
      StepReading(events, n);
      assert k in NamedKeys(events) <==> k in NamedKeys(events[..n]) || (events[n].test != "" && k == KeyOf(events[n]));
      UnseenKey(events[..n], k);
    } else {
      NothingFailed(k);
    }
  }

  lemma NothingFailed(k: TestKey)
    ensures !Failed([], k)
  {}

  lemma {:induction false} KeysAreNamed(events: seq<Event>)
    ensures forall k :: k in NamedKeys(events) ==> k.test != ""
  {
    if events != [] {
      KeysAreNamed(events[..|events| - 1]);
    }
  }

  lemma NothingRead()
    ensures FirstSeen(NamedKeys([])) == []
  {}

  lemma FirstSeenSnoc<T>(s: seq<T>, x: T)
    ensures FirstSeen(s + [x]) == if x in FirstSeen(s) then FirstSeen(s) else FirstSeen(s) + [x]
  {
    assert (s + [x])[..|s|] == s;
  }

  method ScanGoEvents(events: seq<Event>) returns (out: seq<GoFailFrame>)
    ensures FramesListed(out, events)
  {
    hide Failed, OutputOf, FirstSeen, NamedKeys, Outputs, FramesListed;
    NothingRead();
    var byKey: map<TestKey, GoFailFrame> := map[];
    var order: seq<TestKey> := [];
    for i := 0 to |events|
      invariant order == FirstSeen(NamedKeys(events[..i]))
      invariant forall k :: k in byKey <==> k in order
      invariant forall k :: k in byKey ==> fresh(byKey[k])
      invariant FramesRead(byKey, events[..i])
    {
      var ev := events[i];
      StepReading(events, i);
      FirstSeenDistinct(NamedKeys(events[..i]));
      KeysAreNamed(events[..i]);
      if ev.test == "" {
        assert NamedKeys(events[..i + 1]) == NamedKeys(events[..i]);
        continue;
      }
      var key := KeyOf(ev);
      FirstSeenSnoc(NamedKeys(events[..i]), key);
      if key !in byKey {
        UnseenKey(events[..i], key);
        var frame := new GoFailFrame();
        byKey := byKey[key := frame];
        order := order + [key];
      }
      byKey[key].ApplyEvent(ev);
    }
    assert events[..|events|] == events;
    FirstSeenDistinct(NamedKeys(events));
    out := ListFrames(byKey, order, events);
  }

  /** The second loop: the sentinel appended to each frame, and the frames in first-seen order. */
  method ListFrames(byKey: map<TestKey, GoFailFrame>, order: seq<TestKey>, events: seq<Event>)
      returns (out: seq<GoFailFrame>)
    requires NoDup(order) && forall k :: k in order ==> k in byKey
    requires order == FirstSeen(NamedKeys(events)) && FramesRead(byKey, events)
    modifies byKey.Values
    ensures FramesListed(out, events)
  {
    hide Failed, NamedKeys;
    out := [];
    for i := 0 to |order|
      invariant |out| == i && forall j :: 0 <= j < i ==> order[j] in byKey && out[j] == byKey[order[j]]
      invariant forall j :: 0 <= j < |order| ==> order[j] in byKey && byKey[order[j]].failed == Failed(events, order[j])
      invariant forall j :: 0 <= j < |order| ==>
        byKey[order[j]].outputs == Outputs(events, order[j]) + if j < i then [KeySentinel(order[j])] else []
    {
      var k := order[i];
      var frame := byKey[k];
      assert frame in byKey.Values;
      frame.outputs := frame.outputs + [KeySentinel(k)];
      out := out + [frame];
    }
  }

  // ---- frames to failures -------------------------------------------------

  /** The last output is the sentinel, the rest is the test's output. */
  function FailureOf(outputs: seq<string>, describe: seq<string> -> Detail): Option<TestFailure> {
    if outputs == [] then None
    else
      var n := |outputs| - 1;
      var k := SplitKeySentinel(outputs[n]);
      Some(TestFailure(describe(outputs[..n]), k.pkg + "/" + k.test))
  }

  method FrameToFailure(f: GoFailFrame, describe: seq<string> -> Detail) returns (r: Option<TestFailure>)
    ensures r == FailureOf(f.outputs, describe)
  {
    var n := |f.outputs|;
    if n == 0 {
      return None;
    }
    var k := SplitKeySentinel(f.outputs[n - 1]);
    var body := f.outputs[..n - 1];
    return Some(TestFailure(describe(body), k.pkg + "/" + k.test));
  }

  /** A frame closed with its key's sentinel becomes a failure described by the outputs before it, and
      named after the key exactly when the package name has no NUL. */
  lemma FailureOfClosedFrame(body: seq<string>, k: TestKey, describe: seq<string> -> Detail)
    ensures var r := FailureOf(body + [KeySentinel(k)], describe);
      r.Some? && r.value.detail == describe(body)
      && (r.value.testName == k.pkg + "/" + k.test <==> NUL !in k.pkg)
  {
    TestNameExact(k);
    assert (body + [KeySentinel(k)])[..|body|] == body;
  }

  method FramesToFailures(frames: seq<GoFailFrame>, ghost events: seq<Event>, describe: seq<string> -> Detail)
    returns (out: seq<TestFailure>)
    requires FramesListed(frames, events)
    ensures out == Failures(events, describe)
  {
    hide Failed, NamedKeys, FirstSeen, KeySentinel, SplitKeySentinel;
    ghost var ks := FirstSeen(NamedKeys(events));
    ghost var record := (k: TestKey) => Record(events, k, describe);
    out := [];
    for i := 0 to |frames|
      invariant out == Mapped(record, FailedAmong(events, ks[..i]))
    {
      var f := frames[i];
      FailedSnoc(events, ks, i, record);
      if !f.failed {
        continue;
      }
      var tf := FrameToFailure(f, describe);
      assert f.outputs[..|f.outputs| - 1] == Outputs(events, ks[i]);
      if tf.Some? {
        out := out + [tf.value];
      }
    }
    assert ks[..|ks|] == ks;
  }

  lemma FailedSnoc(events: seq<Event>, ks: seq<TestKey>, i: nat, record: TestKey -> TestFailure)
    requires i < |ks|
    ensures Mapped(record, FailedAmong(events, ks[..i + 1]))
         == Mapped(record, FailedAmong(events, ks[..i])) + if Failed(events, ks[i]) then [record(ks[i])] else []
  {
    assert ks[..i + 1][..i] == ks[..i];
    var before := FailedAmong(events, ks[..i]);
    assert (before + [ks[i]])[..|before|] == before;
  }

  /** The whole parse, after decoding. */
  method ParseGoTest2JSON(events: seq<Event>, describe: seq<string> -> Detail) returns (out: seq<TestFailure>)
    ensures out == Failures(events, describe)
  {
    var frames := ScanGoEvents(events);
    out := FramesToFailures(frames, events, describe);
  }

  // ---- what the failures are ----------------------------------------------

  lemma {:induction false} FailedAmongExact(events: seq<Event>, ks: seq<TestKey>)
    requires NoDup(ks)
    ensures NoDup(FailedAmong(events, ks))
    ensures forall k :: k in FailedAmong(events, ks) <==> k in ks && Failed(events, k)
  {
    hide Failed;
    if ks != [] {
      var n := |ks| - 1;
      FailedAmongExact(events, ks[..n]);
      assert ks == ks[..n] + [ks[n]];
      assert ks[n] !in ks[..n];
    }
  }

  /** The stream names test k before it first names test l. */
  ghost predicate SeenBefore(events: seq<Event>, k: TestKey, l: TestKey) {
    exists p :: 0 <= p < |events| && KeyOf(events[p]) == k && l !in NamedKeys(events[..p + 1])
  }

  lemma {:induction false} FailedAmongOrder(events: seq<Event>, ks: seq<TestKey>, i: nat, j: nat)
      returns (a: nat, b: nat)
    requires i < j < |FailedAmong(events, ks)|
    ensures a < b < |ks| && ks[a] == FailedAmong(events, ks)[i] && ks[b] == FailedAmong(events, ks)[j]
  {
    hide Failed;
    var n := |ks| - 1;
    var before := FailedAmong(events, ks[..n]);
    if j < |before| {
      a, b := FailedAmongOrder(events, ks[..n], i, j);
    } else {
      a := FailedAmongAt(events, ks[..n], i);
      b := n;
    }
  }

  lemma {:induction false} FailedAmongAt(events: seq<Event>, ks: seq<TestKey>, i: nat) returns (a: nat)
    requires i < |FailedAmong(events, ks)|
    ensures a < |ks| && ks[a] == FailedAmong(events, ks)[i]
  {
    hide Failed;
    var n := |ks| - 1;
    if i < |FailedAmong(events, ks[..n])| {
      a := FailedAmongAt(events, ks[..n], i);
    } else {
      a := n;
    }
  }

  /** The event behind an entry of NamedKeys. */
  lemma {:induction false} NamedKeyEvent(events: seq<Event>, p: nat) returns (e: nat)
    requires p < |NamedKeys(events)|
    ensures e < |events| && KeyOf(events[e]) == NamedKeys(events)[p]
    ensures NamedKeys(events[..e + 1]) == NamedKeys(events)[..p + 1]
  {
    var n := |events| - 1;
    var before := NamedKeys(events[..n]);
    if p < |before| {
      e := NamedKeyEvent(events[..n], p);
      assert events[..n][..e + 1] == events[..e + 1];
      assert NamedKeys(events)[..p + 1] == before[..p + 1];
    } else {
      e := n;
      assert events[..n + 1] == events;
      assert NamedKeys(events)[..p + 1] == NamedKeys(events);
    }
  }

  lemma FailedOrder(events: seq<Event>, i: nat, j: nat)
    requires i < j < |FailedKeys(events)|
    ensures SeenBefore(events, FailedKeys(events)[i], FailedKeys(events)[j])
  {
    hide Failed, FailedAmong, NamedKeys, FirstSeen;
    var named := NamedKeys(events);
    var a, b := FailedAmongOrder(events, FirstSeen(named), i, j);
    var p := FirstSeenOrder(named, a, b);
    var e := NamedKeyEvent(events, p);
  }

  lemma {:induction false} NamedKeysExact(events: seq<Event>)
    ensures forall k ::
      k in NamedKeys(events) <==> exists i :: 0 <= i < |events| && KeyOf(events[i]) == k && events[i].test != ""
  {
    if events != [] {
      var n := |events| - 1;
      var before := events[..n];
      NamedKeysExact(before);
      forall k
        ensures k in NamedKeys(events)
          <==> exists i :: 0 <= i < |events| && KeyOf(events[i]) == k && events[i].test != ""
      {
        if k in NamedKeys(before) {
          var i :| 0 <= i < |before| && KeyOf(before[i]) == k && before[i].test != "";
          assert events[i] == before[i];
        }
        if i :| 0 <= i < |events| && KeyOf(events[i]) == k && events[i].test != "" {
          assert i < n ==> before[i] == events[i];
        }
      }
    }
  }

  lemma FailedKeysExact(events: seq<Event>)
    ensures NoDup(FailedKeys(events))
    ensures forall k :: k in FailedKeys(events) <==> k.test != "" && Failed(events, k)
  {
    hide FirstSeen, NamedKeys;
    var ks := FirstSeen(NamedKeys(events));
    FirstSeenDistinct(NamedKeys(events));
    FailedAmongExact(events, ks);
    NamedKeysExact(events);
    forall k ensures k in FailedKeys(events) <==> k.test != "" && Failed(events, k) {
    }
  }

  /** The failures are exactly the named tests with a fail event, once each, and the record of each is
      named after its package and test exactly when the package name has no NUL. They come in the order
      in which the stream first names their tests. */
  lemma FailuresExact(events: seq<Event>, describe: seq<string> -> Detail)
    ensures NoDup(FailedKeys(events))
    ensures forall k :: k in FailedKeys(events) <==> k.test != "" && Failed(events, k)
    ensures |Failures(events, describe)| == |FailedKeys(events)|
    ensures forall i :: 0 <= i < |FailedKeys(events)| ==>
      var k := FailedKeys(events)[i];
      Failures(events, describe)[i].detail == describe(Outputs(events, k))
      && (Failures(events, describe)[i].testName == k.pkg + "/" + k.test <==> NUL !in k.pkg)
    ensures forall i, j ::
      0 <= i < j < |FailedKeys(events)| ==> SeenBefore(events, FailedKeys(events)[i], FailedKeys(events)[j])
  {
    hide KeySentinel, SplitKeySentinel, FirstSeen, NamedKeys, TestName;
    FailedKeysExact(events);
    forall i, j | 0 <= i < j < |FailedKeys(events)|
      ensures SeenBefore(events, FailedKeys(events)[i], FailedKeys(events)[j])
    {
      FailedOrder(events, i, j);
    }
    forall k: TestKey ensures TestName(k) == k.pkg + "/" + k.test <==> NUL !in k.pkg {
      TestNameExact(k);
    }
  }

  /** The events of one test, in stream order. */
  function Projection(events: seq<Event>, k: TestKey): seq<Event> {
    if events == [] then []
    else
      var ev := events[|events| - 1];
      Projection(events[..|events| - 1], k) + if KeyOf(ev) == k then [ev] else []
  }

  lemma {:induction false} ProjectionDecides(events: seq<Event>, k: TestKey)
    ensures Outputs(events, k) == Outputs(Projection(events, k), k)
    ensures Failed(events, k) <==> Failed(Projection(events, k), k)
  {
    hide Failed, OutputOf;
    if events != [] {
      var n := |events| - 1;
      ProjectionDecides(events[..n], k);
      assert events[..n + 1] == events;
      StepReading(events, n);
      var p := Projection(events[..n], k);
      if KeyOf(events[n]) == k {
        var p' := p + [events[n]];
        assert p'[..|p|] == p && p'[..|p| + 1] == p';
        StepReading(p', |p|);
      } else {
        assert Projection(events, k) == p;
      }
    }
  }

  /** Reordering events of different tests, keeping each test's own events in order, yields the same
      failure records, each the same number of times. */
  lemma InterleavingInvariance(a: seq<Event>, b: seq<Event>, describe: seq<string> -> Detail)
    requires forall k :: Projection(a, k) == Projection(b, k)
    ensures multiset(Failures(a, describe)) == multiset(Failures(b, describe))
  {
    hide Failed, Outputs, Projection, FailedKeys, Record, Mapped;
    forall k ensures Outputs(a, k) == Outputs(b, k) && (Failed(a, k) <==> Failed(b, k)) {
      ProjectionDecides(a, k);
      ProjectionDecides(b, k);
    }
    SameFailedKeys(a, b);
    SameRecords(a, b, describe, FailedKeys(b));
    MappedBag(k => Record(a, k, describe), FailedKeys(a), FailedKeys(b));
  }

  lemma SameFailedKeys(a: seq<Event>, b: seq<Event>)
    requires forall k :: Failed(a, k) <==> Failed(b, k)
    ensures multiset(FailedKeys(a)) == multiset(FailedKeys(b))
  {
    hide Failed, FailedKeys;
    FailedKeysExact(a);
    FailedKeysExact(b);
    NoDupMultiset(FailedKeys(a), FailedKeys(b));
  }

  lemma {:induction false} SameRecords(a: seq<Event>, b: seq<Event>, describe: seq<string> -> Detail, ks: seq<TestKey>)
    requires forall k :: Outputs(a, k) == Outputs(b, k)
    ensures Mapped(k => Record(a, k, describe), ks) == Mapped(k => Record(b, k, describe), ks)
  {
    hide Outputs, Mapped, TestName;
  }

  // ---- outputs and names read off the stream ------------------------------

  /** The events whose output belongs to test k. */
  function OutputEvents(events: seq<Event>, k: TestKey): set<int> {
    set i | 0 <= i < |events| && KeyOf(events[i]) == k && events[i].action == "output" && events[i].output != ""
  }

  /** The events that name a test. */
  function NamingEvents(events: seq<Event>): set<int> {
    set i | 0 <= i < |events| && events[i].test != ""
  }

  ghost predicate OutputsAt(events: seq<Event>, ps: seq<int>, out: seq<string>) {
    |out| == |ps| && forall j :: 0 <= j < |ps| ==> 0 <= ps[j] < |events| && out[j] == events[ps[j]].output
  }

  ghost predicate KeysAt(events: seq<Event>, ps: seq<int>, keys: seq<TestKey>) {
    |keys| == |ps| && forall j :: 0 <= j < |ps| ==> 0 <= ps[j] < |events| && keys[j] == KeyOf(events[ps[j]])
  }

  lemma OutputEventsSnoc(events: seq<Event>, k: TestKey)
    requires events != []
    ensures var n := |events| - 1;
      OutputEvents(events, k)
        == OutputEvents(events[..n], k) + if KeyOf(events[n]) == k && OutputOf(events[n]) != [] then {n} else {}
  {}

  lemma OutputsAtSnoc(events: seq<Event>, ps: seq<int>, out: seq<string>)
    requires events != [] && OutputsAt(events[..|events| - 1], ps, out)
    ensures OutputsAt(events, ps, out)
    ensures OutputsAt(events, ps + [|events| - 1], out + [events[|events| - 1].output])
  {
    forall j | 0 <= j < |ps| ensures 0 <= ps[j] < |events| && out[j] == events[ps[j]].output {
      assert events[..|events| - 1][ps[j]] == events[ps[j]];
    }
  }

  /** The outputs of a test are those of its own output events that are not empty, in stream order, each
      once. */
  lemma {:induction false} OutputsExact(events: seq<Event>, k: TestKey) returns (ps: seq<int>)
    ensures InOrder(OutputEvents(events, k), ps) && OutputsAt(events, ps, Outputs(events, k))
  {
    ps := [];
    if events != [] {
      var n := |events| - 1;
      ps := OutputsExact(events[..n], k);
      OutputEventsSnoc(events, k);
      OutputsAtSnoc(events, ps, Outputs(events[..n], k));
      assert forall i :: i in OutputEvents(events[..n], k) ==> i < n;
      InOrderSnoc(OutputEvents(events[..n], k), ps, n);
      hide InOrder, OutputsAt, OutputEvents;
      if KeyOf(events[n]) == k && OutputOf(events[n]) != [] {
        ps := ps + [n];
      } else {
        assert Outputs(events, k) == Outputs(events[..n], k);
        assert OutputEvents(events, k) == OutputEvents(events[..n], k);
      }
    }
  }

  lemma NamingEventsSnoc(events: seq<Event>)
    requires events != []
    ensures var n := |events| - 1;
      NamingEvents(events) == NamingEvents(events[..n]) + if events[n].test != "" then {n} else {}
  {}

  lemma KeysAtSnoc(events: seq<Event>, ps: seq<int>, keys: seq<TestKey>)
    requires events != [] && KeysAt(events[..|events| - 1], ps, keys)
    ensures KeysAt(events, ps, keys)
    ensures KeysAt(events, ps + [|events| - 1], keys + [KeyOf(events[|events| - 1])])
  {
    forall j | 0 <= j < |ps| ensures 0 <= ps[j] < |events| && keys[j] == KeyOf(events[ps[j]]) {
      assert events[..|events| - 1][ps[j]] == events[ps[j]];
    }
  }

  /** The named keys are those of the events that name a test, in stream order, each event once. */
  lemma {:induction false} NamedKeysInOrder(events: seq<Event>) returns (ps: seq<int>)
    ensures InOrder(NamingEvents(events), ps) && KeysAt(events, ps, NamedKeys(events))
  {
    ps := [];
    if events != [] {
      var n := |events| - 1;
      ps := NamedKeysInOrder(events[..n]);
      NamingEventsSnoc(events);
      KeysAtSnoc(events, ps, NamedKeys(events[..n]));
      assert forall i :: i in NamingEvents(events[..n]) ==> i < n;
      InOrderSnoc(NamingEvents(events[..n]), ps, n);
      hide InOrder, KeysAt, NamingEvents;
      if events[n].test != "" {
        ps := ps + [n];
      } else {
        assert NamedKeys(events) == NamedKeys(events[..n]);
        assert NamingEvents(events) == NamingEvents(events[..n]);
      }
    }
  }
}
