/** internal/lsp/client.go: concurrent calls, the read loop, cancellation and server death as one
    step system. Every atomic action of the code is a step; inflightMu is held exactly while the
    reader is Draining, since every other critical section is a single step. */
module LspMultiplexer {
  import opened Text
  import opened Runs

  /** A frame with an id answers the client's request of that id, or is a request of the server's own.
      The client does not tell them apart. */
  datatype Kind = Reply | ServerRequest

  datatype Msg = Frame(id: int, kind: Kind) | ConnFailure

  datatype Outcome = Closed | MarshalError | WriteError | Cancelled | Got(msg: Msg)

  /** Where a call is in `call`; Unwinding is about to delete its inflight entry. */
  datatype Pc =
    | Begin | Admitted | Numbered | Registered | Waiting
    | Unwinding(cause: Outcome) | Returned(outcome: Outcome)

  /** One call with its buffered channel; `sent` counts every message ever put on the channel and
      `late` records registration after the drain. */
  datatype Call = Call(pc: Pc, id: int, chan: seq<Msg>, sent: nat, late: bool)

  /** The read loop: between deliver's critical section and its channel send it Holds a message;
      failAllInflight is Closing before it takes the lock and Draining while it holds it. */
  datatype Reader = Reading | Holding(call: nat, msg: Msg) | Closing | Draining | Dead

  datatype State = State(nextID: int, closed: bool, inflight: map<int, nat>, calls: map<nat, Call>, reader: Reader)

  const CHAN_CAP := 1

  const INIT := State(0, false, map[], map[], Reading)

  datatype Step =
    | Enter(c: nat) | CheckClosed(c: nat) | TakeID(c: nat) | FailMarshal(c: nat) | Register(c: nat)
    | WriteOk(c: nat) | WriteFail(c: nat) | Receive(c: nat) | Cancel(c: nat) | Unwind(c: nat)
    | Deliver(id: int, kind: Kind) | Send | ReadError | TakeLock | DrainOne(id: int) | DrainDone | CloseFlag

  function At(s: State, c: nat, k: Call): State {
    s.(calls := s.calls[c := k])
  }

  /** The effect of a step, or None where it is not enabled. */
  function Do(s: State, step: Step): Option<State> {
    match step
    case Enter(c) =>
      if c in s.calls then None else Some(At(s, c, Call(Begin, 0, [], 0, false)))
    case CheckClosed(c) =>
      if c !in s.calls || s.calls[c].pc != Begin then None
      else Some(At(s, c, s.calls[c].(pc := if s.closed then Returned(Closed) else Admitted)))
    case TakeID(c) =>
      if c !in s.calls || s.calls[c].pc != Admitted then None
      else Some(At(s, c, s.calls[c].(pc := Numbered, id := s.nextID + 1)).(nextID := s.nextID + 1))
    case FailMarshal(c) =>
      if c !in s.calls || s.calls[c].pc != Numbered then None
      else Some(At(s, c, s.calls[c].(pc := Returned(MarshalError))))
    case Register(c) =>
      if c !in s.calls || s.calls[c].pc != Numbered || s.reader == Draining then None
      else
        var registered := At(s, c, s.calls[c].(pc := Registered, late := s.reader == Dead));
        Some(registered.(inflight := s.inflight[s.calls[c].id := c]))
    case WriteOk(c) =>
      if c !in s.calls || s.calls[c].pc != Registered then None
      else Some(At(s, c, s.calls[c].(pc := Waiting)))
    case WriteFail(c) =>
      if c !in s.calls || s.calls[c].pc != Registered then None
      else Some(At(s, c, s.calls[c].(pc := Unwinding(WriteError))))
    case Receive(c) =>
      if c !in s.calls || s.calls[c].pc != Waiting || s.calls[c].chan == [] then None
      else Some(At(s, c, s.calls[c].(pc := Returned(Got(s.calls[c].chan[0])), chan := s.calls[c].chan[1..])))
    case Cancel(c) =>
      if c !in s.calls || s.calls[c].pc != Waiting then None
      else Some(At(s, c, s.calls[c].(pc := Unwinding(Cancelled))))
    case Unwind(c) =>
      if c !in s.calls || !s.calls[c].pc.Unwinding? || s.reader == Draining then None
      else Some(At(s, c, s.calls[c].(pc := Returned(s.calls[c].pc.cause))).(inflight := s.inflight - {s.calls[c].id}))
    case Deliver(id, kind) =>
      if s.reader != Reading then None
      else if id !in s.inflight then Some(s)
      else Some(s.(inflight := s.inflight - {id}, reader := Holding(s.inflight[id], Frame(id, kind))))
    case Send =>
      if !s.reader.Holding? || s.reader.call !in s.calls || |s.calls[s.reader.call].chan| >= CHAN_CAP then None
      else Some(Put(s, s.reader.call, s.reader.msg).(reader := Reading))
    case ReadError =>
      if s.reader != Reading then None else Some(s.(closed := true, reader := Closing))
    case TakeLock =>
      if s.reader != Closing then None else Some(s.(reader := Draining))
    case DrainOne(id) =>
      if s.reader != Draining || id !in s.inflight || s.inflight[id] !in s.calls
        || |s.calls[s.inflight[id]].chan| >= CHAN_CAP then None
      else Some(Put(s, s.inflight[id], ConnFailure).(inflight := s.inflight - {id}))
    case DrainDone =>
      if s.reader != Draining || s.inflight != map[] then None else Some(s.(reader := Dead))
    case CloseFlag =>
      Some(s.(closed := true))
  }

  /** A channel send. */
  function Put(s: State, c: nat, m: Msg): State
    requires c in s.calls
  {
    At(s, c, s.calls[c].(chan := s.calls[c].chan + [m], sent := s.calls[c].sent + 1))
  }

  // ---- the invariant ------------------------------------------------------

  ghost predicate InFlight(s: State, c: nat)
    requires c in s.calls
  {
    s.calls[c].id in s.inflight && s.inflight[s.calls[c].id] == c
  }

  ghost predicate Held(s: State, c: nat) {
    s.reader.Holding? && s.reader.call == c
  }

  predicate Own(k: Call, m: Msg) {
    m == ConnFailure || m.id == k.id
  }

  predicate Awaiting(k: Call) {
    k.pc == Registered || k.pc == Waiting
  }

  /** A call that has not registered, or returned before registering. */
  predicate NeverRegistered(pc: Pc) {
    pc.Begin? || pc.Admitted? || pc.Numbered? || pc == Returned(Closed) || pc == Returned(MarshalError)
  }

  /** One call, given whether its entry is in flight, whether the reader holds its message, and
      whether the server connection is gone. */
  ghost predicate CallOk(k: Call, nextID: int, inFlight: bool, held: bool, dead: bool) {
    && (if k.pc == Begin || k.pc == Admitted || k.pc == Returned(Closed) then k.id == 0 else 0 < k.id <= nextID)
    && (NeverRegistered(k.pc) ==>
          k.sent == 0 && k.chan == [] && !inFlight && !held && !k.late)
    && |k.chan| <= k.sent <= 1
    && (forall m :: m in k.chan ==> Own(k, m))
    && (k.sent == 1 ==> !inFlight && !held)
    && !(inFlight && held)
    && (Awaiting(k) ==> inFlight || held || |k.chan| == 1)
    && (k.pc.Returned? ==> !inFlight)
    && (k.pc.Returned? && k.pc.outcome.Got? ==> Own(k, k.pc.outcome.msg) && k.sent == 1)
    && (k.pc.Unwinding? ==> k.pc.cause == WriteError || k.pc.cause == Cancelled)
    && (k.late ==> dead && k.sent == 0 && !held)
    && (dead ==> !held && (Awaiting(k) ==> (inFlight <==> k.late)) && (inFlight ==> k.late))
  }

  ghost predicate Calls(s: State) {
    forall c :: c in s.calls ==> CallOk(s.calls[c], s.nextID, InFlight(s, c), Held(s, c), s.reader == Dead)
  }

  /** Ids identify calls, and every inflight entry and held message belongs to the call it names. */
  ghost predicate Owned(s: State) {
    && s.nextID >= 0
    && (forall c, d :: c in s.calls && d in s.calls && c != d && s.calls[c].id != 0 ==> s.calls[c].id != s.calls[d].id)
    && (forall id :: id in s.inflight ==> id != 0 && s.inflight[id] in s.calls && s.calls[s.inflight[id]].id == id)
    && (s.reader.Holding? ==> s.reader.call in s.calls)
    && (s.reader.Holding? ==> s.calls[s.reader.call].id != 0)
    && (s.reader.Holding? ==> s.reader.msg.Frame? && Own(s.calls[s.reader.call], s.reader.msg))
  }

  ghost predicate Inv(s: State) {
    Calls(s) && Owned(s)
  }

  lemma InitInv()
    ensures Inv(INIT)
  {}

  /** A step that concerns one call, or none, leaves every other call as it was. */
  ghost predicate OnlyConcerns(s: State, s': State, c: nat) {
    && (forall d :: d in s'.calls && d != c ==> d in s.calls && s'.calls[d] == s.calls[d])
    && (forall d :: d in s'.calls && d != c && d in s.calls ==> (InFlight(s', d) <==> InFlight(s, d)))
    && (forall d :: d != c ==> (Held(s', d) <==> Held(s, d)))
    && (s'.reader == Dead <==> s.reader == Dead)
    && s.nextID <= s'.nextID
  }

  lemma CallsFrame(s: State, s': State, c: nat)
    requires Calls(s) && OnlyConcerns(s, s', c)
    requires c in s'.calls ==> CallOk(s'.calls[c], s'.nextID, InFlight(s', c), Held(s', c), s'.reader == Dead)
    ensures Calls(s')
  {}

  /** Entries of other calls survive an update of inflight at one call's own id. */
  lemma InflightFrame(s: State, s': State, c: nat)
    requires Owned(s) && c in s.calls && c in s'.calls && s'.calls[c].id == s.calls[c].id != 0
    requires forall d :: d in s'.calls && d != c ==> d in s.calls && s'.calls[d] == s.calls[d]
    requires s'.inflight == s.inflight - {s.calls[c].id} || s'.inflight == s.inflight[s.calls[c].id := c]
    ensures forall d :: d in s'.calls && d != c && d in s.calls ==> (InFlight(s', d) <==> InFlight(s, d))
  {}

  /** Ownership survives a step that concerns one call and keeps its id. */
  lemma OwnedFrame(s: State, s': State, c: nat)
    requires Owned(s) && c in s.calls && s'.calls.Keys == s.calls.Keys && s'.calls[c].id == s.calls[c].id
    requires forall d :: d in s.calls && d != c ==> s'.calls[d] == s.calls[d]
    requires s.nextID == s'.nextID && (s'.reader == s.reader || !s'.reader.Holding?)
    requires var id := s.calls[c].id;
      || s'.inflight == s.inflight || s'.inflight == s.inflight - {id}
      || (id != 0 && s'.inflight == s.inflight[id := c])
    ensures Owned(s')
  {}

  // ---- every step keeps the invariant -------------------------------------

  lemma CallFacts(s: State, c: nat)
    requires Inv(s) && c in s.calls
    ensures CallOk(s.calls[c], s.nextID, InFlight(s, c), Held(s, c), s.reader == Dead)
  {}

  /** A step that only moves one call along. */
  lemma PcInv(s: State, c: nat, pc: Pc, s': State)
    requires Inv(s) && c in s.calls && s' == At(s, c, s.calls[c].(pc := pc))
    requires CallOk(s.calls[c].(pc := pc), s.nextID, InFlight(s, c), Held(s, c), s.reader == Dead)
    ensures Inv(s')
  {
    hide CallOk;
    OwnedFrame(s, s', c);
    hide Owned;
    CallsFrame(s, s', c);
  }

  lemma EnterInv(s: State, c: nat, s': State)
    requires Inv(s) && Do(s, Enter(c)) == Some(s')
    ensures Inv(s')
  {
    assert forall id :: id in s.inflight ==> s.inflight[id] != c;
    CallsFrame(s, s', c);
  }

  lemma TakeIDInv(s: State, c: nat, s': State)
    requires Inv(s) && Do(s, TakeID(c)) == Some(s')
    ensures Inv(s')
  {
    forall d | d in s.calls ensures s.calls[d].id <= s.nextID {
      assert CallOk(s.calls[d], s.nextID, InFlight(s, d), Held(s, d), s.reader == Dead);
    }
    CallsFrame(s, s', c);
  }

  lemma CheckClosedInv(s: State, c: nat, s': State)
    requires Inv(s) && Do(s, CheckClosed(c)) == Some(s')
    ensures Inv(s')
  {
    CallFacts(s, c);
    hide Inv;
    PcInv(s, c, s'.calls[c].pc, s');
  }

  lemma FailMarshalInv(s: State, c: nat, s': State)
    requires Inv(s) && Do(s, FailMarshal(c)) == Some(s')
    ensures Inv(s')
  {
    CallFacts(s, c);
    hide Inv;
    PcInv(s, c, s'.calls[c].pc, s');
  }

  lemma WriteOkInv(s: State, c: nat, s': State)
    requires Inv(s) && Do(s, WriteOk(c)) == Some(s')
    ensures Inv(s')
  {
    CallFacts(s, c);
    hide Inv;
    PcInv(s, c, s'.calls[c].pc, s');
  }

  lemma WriteFailInv(s: State, c: nat, s': State)
    requires Inv(s) && Do(s, WriteFail(c)) == Some(s')
    ensures Inv(s')
  {
    CallFacts(s, c);
    hide Inv;
    PcInv(s, c, s'.calls[c].pc, s');
  }

  lemma CancelInv(s: State, c: nat, s': State)
    requires Inv(s) && Do(s, Cancel(c)) == Some(s')
    ensures Inv(s')
  {
    CallFacts(s, c);
    hide Inv;
    PcInv(s, c, s'.calls[c].pc, s');
  }

  lemma ReceiveInv(s: State, c: nat, s': State)
    requires Inv(s) && Do(s, Receive(c)) == Some(s')
    ensures Inv(s')
  {
    assert s.calls[c].chan[0] in s.calls[c].chan;
    OwnedFrame(s, s', c);
    hide Owned;
    CallsFrame(s, s', c);
  }

  lemma RegisterInv(s: State, c: nat, s': State)
    requires Inv(s) && Do(s, Register(c)) == Some(s')
    ensures Inv(s')
  {
    InflightFrame(s, s', c);
    OwnedFrame(s, s', c);
    hide Owned;
    CallsFrame(s, s', c);
  }

  lemma UnwindInv(s: State, c: nat, s': State)
    requires Inv(s) && Do(s, Unwind(c)) == Some(s')
    ensures Inv(s')
  {
    UnwindFrame(s, c, s');
    hide Do, Inv;
    CallFacts(s, c);
    UnwoundCall(s.calls[c], s.nextID, InFlight(s, c), Held(s, c), s.reader == Dead);
    InvFrame(s, s', c);
  }

  /** What unwinding leaves alone. */
  lemma UnwindFrame(s: State, c: nat, s': State)
    requires Inv(s) && Do(s, Unwind(c)) == Some(s')
    ensures c in s.calls && s.calls[c].pc.Unwinding? && s' == At(s, c, s'.calls[c]).(inflight := s'.inflight)
    ensures s'.calls[c] == s.calls[c].(pc := Returned(s.calls[c].pc.cause))
    ensures OnlyConcerns(s, s', c) && Owned(s')
    ensures !InFlight(s', c) && (Held(s', c) <==> Held(s, c))
  {
    CallFacts(s, c);
    assert s.calls[c].id != 0;
    hide Calls, CallOk;
    assert s'.inflight == s.inflight - {s.calls[c].id};
    assert s' == At(s, c, s.calls[c].(pc := Returned(s.calls[c].pc.cause))).(inflight := s'.inflight);
    hide Do;
    OwnedFrame(s, s', c);
    InflightFrame(s, s', c);
  }

  lemma UnwoundCall(k: Call, nextID: int, inFlight: bool, held: bool, dead: bool)
    requires CallOk(k, nextID, inFlight, held, dead) && k.pc.Unwinding?
    ensures CallOk(k.(pc := Returned(k.pc.cause)), nextID, false, held, dead)
  {}

  lemma InvFrame(s: State, s': State, c: nat)
    requires Inv(s) && OnlyConcerns(s, s', c) && Owned(s')
    requires c in s'.calls ==> CallOk(s'.calls[c], s'.nextID, InFlight(s', c), Held(s', c), s'.reader == Dead)
    ensures Inv(s')
  {
    hide Owned, CallOk, OnlyConcerns;
    CallsFrame(s, s', c);
  }

  lemma DeliverInv(s: State, id: int, kind: Kind, s': State)
    requires Inv(s) && Do(s, Deliver(id, kind)) == Some(s')
    ensures Inv(s')
  {
    if id in s.inflight {
      var c := s.inflight[id];
      InflightFrame(s, s', c);
      CallsFrame(s, s', c);
    }
  }

  lemma SendInv(s: State, s': State)
    requires Inv(s) && Do(s, Send) == Some(s')
    ensures Inv(s')
  {
    OwnedFrame(s, s', s.reader.call);
    hide Owned;
    CallsFrame(s, s', s.reader.call);
  }

  lemma DrainOneInv(s: State, id: int, s': State)
    requires Inv(s) && Do(s, DrainOne(id)) == Some(s')
    ensures Inv(s')
  {
    var c := s.inflight[id];
    InflightFrame(s, s', c);
    OwnedFrame(s, s', c);
    hide Owned;
    CallsFrame(s, s', c);
  }

  lemma ReaderStepInv(s: State, step: Step, s': State)
    requires Inv(s) && Do(s, step) == Some(s')
    requires step == ReadError || step == TakeLock || step == DrainDone || step == CloseFlag
    ensures Inv(s')
  {
    assert s'.calls == s.calls && s'.inflight == s.inflight && s'.nextID == s.nextID;
    forall c | c in s'.calls ensures CallOk(s'.calls[c], s'.nextID, InFlight(s', c), Held(s', c), s'.reader == Dead) {
      assert CallOk(s.calls[c], s.nextID, InFlight(s, c), Held(s, c), s.reader == Dead);
    }
  }

  lemma StepInv(s: State, step: Step, s': State)
    requires Inv(s) && Do(s, step) == Some(s')
    ensures Inv(s')
  {
    hide Inv;
    match step
    case Enter(c) => EnterInv(s, c, s');
    case TakeID(c) => TakeIDInv(s, c, s');
    case Receive(c) => ReceiveInv(s, c, s');
    case Register(c) => RegisterInv(s, c, s');
    case Unwind(c) => UnwindInv(s, c, s');
    case Deliver(id, kind) => DeliverInv(s, id, kind, s');
    case Send => SendInv(s, s');
    case DrainOne(id) => DrainOneInv(s, id, s');
    case ReadError => ReaderStepInv(s, step, s');
    case TakeLock => ReaderStepInv(s, step, s');
    case DrainDone => ReaderStepInv(s, step, s');
    case CloseFlag => ReaderStepInv(s, step, s');
    case CheckClosed(c) => CheckClosedInv(s, c, s');
    case FailMarshal(c) => FailMarshalInv(s, c, s');
    case Cancel(c) => CancelInv(s, c, s');
    case WriteOk(c) => WriteOkInv(s, c, s');
    case WriteFail(c) => WriteFailInv(s, c, s');
  }

  // ---- whole runs ---------------------------------------------------------

  lemma RunInv(s: State, steps: seq<Step>, s': State)
    requires Inv(s) && After(Do, s, steps) == Some(s')
    ensures Inv(s')
  {
    hide Inv, Do;
    forall a, step | Inv(a) && Do(a, step).Some? ensures Inv(Do(a, step).value) {
      StepInv(a, step, Do(a, step).value);
    }
    RunKeeps(Do, Inv, s, steps, s');
  }

  lemma NotInFlight(s: State, c: nat)
    requires Inv(s) && c in s.calls && !InFlight(s, c)
    ensures s.calls[c].id !in s.inflight
  {
    forall id | id in s.inflight ensures id != s.calls[c].id {
      assert s.calls[s.inflight[id]].id == id;
    }
  }

  /** Over every interleaving: at most one message ever reaches a call's channel; what a call
      consumed carries its own id or reports the connection failure; no returned call is in flight;
      ids are unique. */
  lemma RunSafety(steps: seq<Step>, s: State)
    requires After(Do, INIT, steps) == Some(s)
    ensures forall c :: c in s.calls ==> s.calls[c].sent <= 1 && |s.calls[c].chan| <= CHAN_CAP
    ensures forall c :: c in s.calls && s.calls[c].pc.Returned? ==> s.calls[c].id !in s.inflight
    ensures forall c :: c in s.calls && s.calls[c].pc.Returned? && s.calls[c].pc.outcome.Got? ==>
              Own(s.calls[c], s.calls[c].pc.outcome.msg)
    ensures forall c, d ::
      c in s.calls && d in s.calls && c != d && s.calls[c].id != 0 ==> s.calls[c].id != s.calls[d].id
  {
    InitInv();
    RunInv(INIT, steps, s);
    forall c | c in s.calls && s.calls[c].pc.Returned? ensures s.calls[c].id !in s.inflight {
      NotInFlight(s, c);
    }
  }

  /** No send on a buffered channel ever blocks: a held message can be sent at once, and the drain
      can fail every in-flight call. */
  lemma SendsNeverBlock(steps: seq<Step>, s: State)
    requires After(Do, INIT, steps) == Some(s)
    ensures s.reader.Holding? ==> Do(s, Send).Some?
    ensures s.reader == Draining ==> forall id :: id in s.inflight ==> Do(s, DrainOne(id)).Some?
  {
    InitInv();
    RunInv(INIT, steps, s);
    if s.reader.Holding? {
      assert Held(s, s.reader.call);
    }
    forall id | id in s.inflight ensures |s.calls[s.inflight[id]].chan| < CHAN_CAP {
      assert InFlight(s, s.inflight[id]);
    }
  }

  /** A frame for a call in flight is never lost: it is delivered into that call's channel; a
      duplicate or unknown id changes nothing. */
  lemma ResponseIsRouted(steps: seq<Step>, s: State, id: int, kind: Kind)
    requires After(Do, INIT, steps) == Some(s) && s.reader == Reading
    ensures id !in s.inflight ==> Do(s, Deliver(id, kind)) == Some(s)
    ensures id in s.inflight ==>
      var c := s.inflight[id];
      c in s.calls && s.calls[c].id == id
      && After(Do, s, [Deliver(id, kind), Send])
        == Some(At(s, c, s.calls[c].(chan := [Frame(id, kind)], sent := 1)).(inflight := s.inflight - {id}))
  {
    hide Inv;
    InitInv();
    RunInv(INIT, steps, s);
    if id in s.inflight {
      InFlightFacts(s, id);
      TwoSteps(Do, s, Deliver(id, kind), Send);
      DeliverThenSend(s, id, kind, s.inflight[id]);
    }
  }

  lemma InFlightFacts(s: State, id: int)
    requires Inv(s) && id in s.inflight
    ensures var c := s.inflight[id];
      c in s.calls && s.calls[c].id == id && s.calls[c].chan == [] && s.calls[c].sent == 0
  {
    assert InFlight(s, s.inflight[id]);
  }

  lemma DeliverThenSend(s: State, id: int, kind: Kind, c: nat)
    requires s.reader == Reading && id in s.inflight && c == s.inflight[id] && c in s.calls
    requires s.calls[c].chan == [] && s.calls[c].sent == 0
    ensures var held := s.(inflight := s.inflight - {id}, reader := Holding(c, Frame(id, kind)));
      Do(s, Deliver(id, kind)) == Some(held)
      && Do(held, Send)
        == Some(At(s, c, s.calls[c].(chan := [Frame(id, kind)], sent := 1)).(inflight := s.inflight - {id}))
  {
    assert [] + [Frame(id, kind)] == [Frame(id, kind)];
  }

  // ---- genuine answers ----------------------------------------------------

  /** The ids of calls that a server request was delivered to, while they were in flight. */
  function Misrouted(steps: seq<Step>): set<int> {
    if steps == [] then {}
    else
      var before, step := steps[..|steps| - 1], steps[|steps| - 1];
      var wrong := step.Deliver? && step.kind == ServerRequest && InFlightAfter(before, step.id);
      Misrouted(before) + if wrong then {step.id} else {}
  }

  predicate InFlightAfter(steps: seq<Step>, id: int) {
    After(Do, INIT, steps).Some? && id in After(Do, INIT, steps).value.inflight
  }

  /** Read on the history: at some point of it. */
  lemma {:induction false} MisroutedExactly(steps: seq<Step>, id: int)
    ensures id in Misrouted(steps)
       <==> exists i :: 0 <= i < |steps| && steps[i] == Deliver(id, ServerRequest) && InFlightAfter(steps[..i], id)
  {
    hide InFlightAfter;
    if steps != [] {
      var n := |steps| - 1;
      var before := steps[..n];
      MisroutedExactly(before, id);
      if i :| 0 <= i < n && before[i] == Deliver(id, ServerRequest) && InFlightAfter(before[..i], id) {
        assert before[..i] == steps[..i];
      }
      if i :| 0 <= i < |steps| && steps[i] == Deliver(id, ServerRequest) && InFlightAfter(steps[..i], id) {
        assert i < n ==> before[i] == steps[i] && before[..i] == steps[..i];
      }
    }
  }

  /** A frame that reached call k is a server request exactly when one was misrouted to it. */
  predicate Told(k: Call, m: Msg, wrong: set<int>) {
    m.Frame? ==> (m.kind == ServerRequest <==> k.id in wrong)
  }

  /** What the frames of one call are, given the misrouted ids. */
  ghost predicate CallTold(k: Call, inFlight: bool, wrong: set<int>) {
    && (forall m :: m in k.chan ==> Told(k, m, wrong))
    && (k.pc.Returned? && k.pc.outcome.Got? ==> Told(k, k.pc.outcome.msg, wrong))
    && (inFlight || k.pc == Numbered ==> k.id !in wrong)
  }

  ghost predicate AllTold(s: State, wrong: set<int>) {
    && (forall c :: c in s.calls ==> CallTold(s.calls[c], InFlight(s, c), wrong))
    && (s.reader.Holding? && s.reader.call in s.calls ==> Told(s.calls[s.reader.call], s.reader.msg, wrong))
    && (forall id :: id in wrong ==> id <= s.nextID)
  }

  /** A step that delivers no frame keeps what is known about every call it does not concern. */
  lemma ToldFrame(s: State, s': State, c: nat, wrong: set<int>)
    requires AllTold(s, wrong) && OnlyConcerns(s, s', c)
    requires c in s'.calls ==> CallTold(s'.calls[c], InFlight(s', c), wrong)
    requires s'.reader.Holding? && s'.reader.call in s'.calls ==> Told(s'.calls[s'.reader.call], s'.reader.msg, wrong)
    ensures AllTold(s', wrong)
  {
    hide CallTold, InFlight, Told;
  }

  lemma DeliverTold(s: State, id: int, kind: Kind, s': State, wrong: set<int>)
    requires Inv(s) && AllTold(s, wrong) && Do(s, Deliver(id, kind)) == Some(s')
    ensures AllTold(s', wrong + if kind == ServerRequest && id in s.inflight then {id} else {})
  {
    if id in s.inflight {
      var c := s.inflight[id];
      assert InFlight(s, c);
      InflightFrame(s, s', c);
      InFlightFacts(s, id);
      var wrong' := wrong + if kind == ServerRequest then {id} else {};
      forall d | d in s'.calls ensures CallTold(s'.calls[d], InFlight(s', d), wrong') {
        assert s'.calls[d] == s.calls[d];
        assert d != c ==> s.calls[d].id != id;
      }
      assert id <= s.nextID;
    }
  }

  lemma SendTold(s: State, s': State, wrong: set<int>)
    requires Inv(s) && AllTold(s, wrong) && Do(s, Send) == Some(s')
    ensures AllTold(s', wrong)
  {
    var c := s.reader.call;
    assert s'.calls[c].chan == s.calls[c].chan + [s.reader.msg];
    assert CallTold(s.calls[c], InFlight(s, c), wrong);
    ToldFrame(s, s', c, wrong);
  }

  lemma DrainTold(s: State, id: int, s': State, wrong: set<int>)
    requires Inv(s) && AllTold(s, wrong) && Do(s, DrainOne(id)) == Some(s')
    ensures AllTold(s', wrong)
  {
    var c := s.inflight[id];
    InflightFrame(s, s', c);
    assert CallTold(s.calls[c], InFlight(s, c), wrong);
    assert s'.calls[c].chan == s.calls[c].chan + [ConnFailure];
    ToldFrame(s, s', c, wrong);
  }

  lemma RegisterTold(s: State, c: nat, s': State, wrong: set<int>)
    requires Inv(s) && AllTold(s, wrong) && Do(s, Register(c)) == Some(s')
    ensures AllTold(s', wrong)
  {
    var k := s.calls[c];
    CallFacts(s, c);
    assert CallTold(k, InFlight(s, c), wrong);
    InflightFrame(s, s', c);
    hide Inv;
    assert k.chan == [] && s'.calls[c].chan == [];
    ToldFrame(s, s', c, wrong);
  }

  lemma UnwindTold(s: State, c: nat, s': State, wrong: set<int>)
    requires Inv(s) && AllTold(s, wrong) && Do(s, Unwind(c)) == Some(s')
    ensures AllTold(s', wrong)
  {
    CallFacts(s, c);
    UnwindFrame(s, c, s');
    hide Inv, Do;
    assert CallTold(s.calls[c], InFlight(s, c), wrong);
    assert s.calls[c].pc.cause == WriteError || s.calls[c].pc.cause == Cancelled;
    ToldFrame(s, s', c, wrong);
  }

  lemma ReceiveTold(s: State, c: nat, s': State, wrong: set<int>)
    requires Inv(s) && AllTold(s, wrong) && Do(s, Receive(c)) == Some(s')
    ensures AllTold(s', wrong)
  {
    assert CallTold(s.calls[c], InFlight(s, c), wrong);
    assert s.calls[c].chan[0] in s.calls[c].chan;
    ToldFrame(s, s', c, wrong);
  }

  lemma EnterTold(s: State, c: nat, s': State, wrong: set<int>)
    requires Inv(s) && AllTold(s, wrong) && Do(s, Enter(c)) == Some(s')
    ensures AllTold(s', wrong)
  {
    assert forall id :: id in s.inflight ==> s.inflight[id] != c;
    hide Inv;
    ToldFrame(s, s', c, wrong);
  }

  lemma TakeIDTold(s: State, c: nat, s': State, wrong: set<int>)
    requires Inv(s) && AllTold(s, wrong) && Do(s, TakeID(c)) == Some(s')
    ensures AllTold(s', wrong)
  {
    CallFacts(s, c);
    assert CallTold(s.calls[c], InFlight(s, c), wrong);
    IdsSoFar(s);
    hide Inv;
    assert s.nextID + 1 !in wrong;
    assert CallTold(s'.calls[c], InFlight(s', c), wrong);
    ToldFrame(s, s', c, wrong);
  }

  lemma IdsSoFar(s: State)
    requires Inv(s)
    ensures forall id :: id in s.inflight ==> id <= s.nextID
  {
    forall id | id in s.inflight ensures id <= s.nextID {
      assert InFlight(s, s.inflight[id]);
    }
  }

  lemma PcStep(s: State, step: Step, c: nat, s': State) returns (pc: Pc)
    requires Do(s, step) == Some(s')
    requires step in {CheckClosed(c), FailMarshal(c), WriteOk(c), WriteFail(c), Cancel(c)}
    ensures c in s.calls && s' == At(s, c, s.calls[c].(pc := pc))
    ensures !pc.Numbered? && !(pc.Returned? && pc.outcome.Got?)
  {
    pc := s'.calls[c].pc;
  }

  lemma QuietTold(s: State, step: Step, c: nat, s': State, wrong: set<int>)
    requires AllTold(s, wrong) && Do(s, step) == Some(s')
    requires step in {CheckClosed(c), FailMarshal(c), WriteOk(c), WriteFail(c), Cancel(c)}
    ensures AllTold(s', wrong)
  {
    var pc := PcStep(s, step, c, s');
    hide Do;
    PcTold(s, c, pc, s', wrong);
  }

  lemma PcTold(s: State, c: nat, pc: Pc, s': State, wrong: set<int>)
    requires AllTold(s, wrong) && c in s.calls && s' == At(s, c, s.calls[c].(pc := pc))
    requires !pc.Numbered? && !(pc.Returned? && pc.outcome.Got?)
    ensures AllTold(s', wrong)
  {
    assert CallTold(s.calls[c], InFlight(s, c), wrong);
    ToldFrame(s, s', c, wrong);
  }

  lemma ReaderTold(s: State, step: Step, s': State, wrong: set<int>)
    requires AllTold(s, wrong) && Do(s, step) == Some(s')
    requires step in {ReadError, TakeLock, DrainDone, CloseFlag}
    ensures AllTold(s', wrong)
  {
    assert s'.calls == s.calls && s'.inflight == s.inflight && s'.nextID == s.nextID;
    assert forall c :: c in s.calls ==> (InFlight(s', c) <==> InFlight(s, c));
    hide CallTold, InFlight;
  }

  lemma StepTold(s: State, step: Step, s': State, wrong: set<int>)
    requires Inv(s) && AllTold(s, wrong) && Do(s, step) == Some(s')
    ensures AllTold(s', wrong
        + if step.Deliver? && step.kind == ServerRequest && step.id in s.inflight then {step.id} else {})
  {
    hide Inv, AllTold, Do;
    assert wrong + {} == wrong;
    match step
    case Enter(c) => EnterTold(s, c, s', wrong);
    case TakeID(c) => TakeIDTold(s, c, s', wrong);
    case Receive(c) => ReceiveTold(s, c, s', wrong);
    case Register(c) => RegisterTold(s, c, s', wrong);
    case Unwind(c) => UnwindTold(s, c, s', wrong);
    case Deliver(id, kind) => DeliverTold(s, id, kind, s', wrong);
    case Send => SendTold(s, s', wrong);
    case DrainOne(id) => DrainTold(s, id, s', wrong);
    case CheckClosed(c) => QuietTold(s, step, c, s', wrong);
    case FailMarshal(c) => QuietTold(s, step, c, s', wrong);
    case WriteOk(c) => QuietTold(s, step, c, s', wrong);
    case WriteFail(c) => QuietTold(s, step, c, s', wrong);
    case Cancel(c) => QuietTold(s, step, c, s', wrong);
    case ReadError => ReaderTold(s, step, s', wrong);
    case TakeLock => ReaderTold(s, step, s', wrong);
    case DrainDone => ReaderTold(s, step, s', wrong);
    case CloseFlag => ReaderTold(s, step, s', wrong);
  }

  lemma {:induction false} RunTold(steps: seq<Step>, s: State)
    requires After(Do, INIT, steps) == Some(s)
    ensures Inv(s) && AllTold(s, Misrouted(steps))
  {
    hide Inv, AllTold, Do;
    InitInv();
    RunInv(INIT, steps, s);
    if steps == [] {
      NothingTold();
    } else {
      var before := steps[..|steps| - 1];
      var t := After(Do, INIT, before).value;
      RunTold(before, t);
      StepTold(t, steps[|steps| - 1], s, Misrouted(before));
    }
  }

  lemma NothingTold()
    ensures AllTold(INIT, {})
  {}

  /** What a returned call consumed, when it is a frame, is a genuine reply exactly when no server
      request with its id was delivered while the call was in flight. */
  lemma GenuineExactly(steps: seq<Step>, s: State, c: nat)
    requires After(Do, INIT, steps) == Some(s) && c in s.calls
    requires s.calls[c].pc.Returned? && s.calls[c].pc.outcome.Got? && s.calls[c].pc.outcome.msg.Frame?
    ensures s.calls[c].pc.outcome.msg.id == s.calls[c].id
    ensures s.calls[c].pc.outcome.msg.kind == Reply
       <==> !exists i :: 0 <= i < |steps| && steps[i] == Deliver(s.calls[c].id, ServerRequest)
              && InFlightAfter(steps[..i], s.calls[c].id)
  {
    hide InFlightAfter, Misrouted;
    RunTold(steps, s);
    RunSafety(steps, s);
    MisroutedExactly(steps, s.calls[c].id);
    assert CallTold(s.calls[c], InFlight(s, c), Misrouted(steps));
  }

  /** Call 0 is registered and waiting. */
  lemma FirstCallWaits() returns (steps: seq<Step>, k: Call)
    ensures k == Call(Waiting, 1, [], 0, false)
    ensures After(Do, INIT, steps) == Some(Solo(1, false, map[1 := 0], k, Reading))
  {
    hide After;
    NoSteps(Do, INIT);
    forall a: Call, b: Call ensures map[0 := a][0 := b] == map[0 := b] {}
    var none: map<int, nat>, one: map<int, nat> := map[], map[1 := 0];
    assert none[1 := 0] == one;
    var k0 := Call(Begin, 0, [], 0, false);
    var k1, k2 := k0.(pc := Admitted), k0.(pc := Numbered, id := 1);
    var k3 := k2.(pc := Registered);
    k := k2.(pc := Waiting);
    steps := Follow([], INIT, Enter(0), Solo(0, false, none, k0, Reading));
    steps := Follow(steps, Solo(0, false, none, k0, Reading), CheckClosed(0), Solo(0, false, none, k1, Reading));
    steps := Follow(steps, Solo(0, false, none, k1, Reading), TakeID(0), Solo(1, false, none, k2, Reading));
    steps := Follow(steps, Solo(1, false, none, k2, Reading), Register(0), Solo(1, false, one, k3, Reading));
    steps := Follow(steps, Solo(1, false, one, k3, Reading), WriteOk(0), Solo(1, false, one, k, Reading));
  }

  /** It happens: a server request numbered like the call's is taken for its answer, and the answer
      itself then goes nowhere. */
  lemma MisroutedRun() returns (steps: seq<Step>, s: State)
    ensures After(Do, INIT, steps) == Some(s) && 0 in s.calls
    ensures s.calls[0].pc == Returned(Got(Frame(1, ServerRequest)))
    ensures Do(s, Deliver(1, Reply)) == Some(s)
  {
    hide After;
    var k;
    steps, k := FirstCallWaits();
    forall a: Call, b: Call ensures map[0 := a][0 := b] == map[0 := b] {}
    var none: map<int, nat>, one: map<int, nat> := map[], map[1 := 0];
    assert one - {1} == none;
    var msg := Frame(1, ServerRequest);
    var k' := k.(chan := [msg], sent := 1);
    assert [] + [msg] == [msg] && [msg][1..] == [];
    var held := Solo(1, false, none, k, Holding(0, msg));
    steps := Follow(steps, Solo(1, false, one, k, Reading), Deliver(1, ServerRequest), held);
    steps := Follow(steps, held, Send, Solo(1, false, none, k', Reading));
    s := Solo(1, false, none, k'.(pc := Returned(Got(msg)), chan := []), Reading);
    steps := Follow(steps, Solo(1, false, none, k', Reading), Receive(0), s);
  }

  /** A call waiting on a dead connection has its failure in hand exactly when it registered before
      the drain; one that registered later is still in flight, with nobody left to answer. */
  lemma DeadConnectionAnswers(steps: seq<Step>, s: State, c: nat)
    requires After(Do, INIT, steps) == Some(s) && s.reader == Dead
    requires c in s.calls && s.calls[c].pc == Waiting
    ensures s.calls[c].chan != [] <==> !s.calls[c].late
    ensures s.calls[c].late <==> s.calls[c].id in s.inflight
  {
    InitInv();
    RunInv(INIT, steps, s);
    assert CallOk(s.calls[c], s.nextID, InFlight(s, c), Held(s, c), true);
    if s.calls[c].id in s.inflight {
      assert s.inflight[s.calls[c].id] == c;
    }
  }

  function Solo(nextID: int, closed: bool, inflight: map<int, nat>, k: Call, reader: Reader): State {
    State(nextID, closed, inflight, map[0 := k], reader)
  }

  /** Call 0 gets as far as taking its id, and then the server dies. */
  lemma DiesBeforeRegistration() returns (steps: seq<Step>, k: Call)
    ensures k == Call(Numbered, 1, [], 0, false)
    ensures After(Do, INIT, steps) == Some(Solo(1, true, map[], k, Dead))
  {
    hide After;
    NoSteps(Do, INIT);
    forall a: Call, b: Call ensures map[0 := a][0 := b] == map[0 := b] {}
    var k0 := Call(Begin, 0, [], 0, false);
    var k1 := k0.(pc := Admitted);
    k := k1.(pc := Numbered, id := 1);
    steps := Follow([], INIT, Enter(0), Solo(0, false, map[], k0, Reading));
    steps := Follow(steps, Solo(0, false, map[], k0, Reading), CheckClosed(0), Solo(0, false, map[], k1, Reading));
    steps := Follow(steps, Solo(0, false, map[], k1, Reading), TakeID(0), Solo(1, false, map[], k, Reading));
    steps := Follow(steps, Solo(1, false, map[], k, Reading), ReadError, Solo(1, true, map[], k, Closing));
    steps := Follow(steps, Solo(1, true, map[], k, Closing), TakeLock, Solo(1, true, map[], k, Draining));
    steps := Follow(steps, Solo(1, true, map[], k, Draining), DrainDone, Solo(1, true, map[], k, Dead));
  }

  /** The gap is real: a call that passed the closed check before the server died and registered
      after the drain waits with its id in flight. */
  lemma LateRegistrationHangs() returns (steps: seq<Step>, s: State)
    ensures After(Do, INIT, steps) == Some(s)
    ensures s.reader == Dead && 0 in s.calls && s.calls[0].pc == Waiting && s.calls[0].late
  {
    hide After;
    var k;
    steps, k := DiesBeforeRegistration();
    forall a: Call, b: Call ensures map[0 := a][0 := b] == map[0 := b] {}
    var none: map<int, nat> := map[];
    assert none[1 := 0] == map[1 := 0];
    var registered := Solo(1, true, map[1 := 0], k.(pc := Registered, late := true), Dead);
    steps := Follow(steps, Solo(1, true, map[], k, Dead), Register(0), registered);
    s := Solo(1, true, map[1 := 0], k.(pc := Waiting, late := true), Dead);
    steps := Follow(steps, registered, WriteOk(0), s);
  }

  lemma Follow(steps: seq<Step>, s: State, step: Step, s': State) returns (steps': seq<Step>)
    requires After(Do, INIT, steps) == Some(s) && Do(s, step) == Some(s')
    ensures After(Do, INIT, steps') == Some(s')
  {
    Extend(Do, INIT, steps, s, step);
    steps' := steps + [step];
  }

  lemma LateStep(s: State, step: Step, s': State, c: nat)
    requires Inv(s) && Do(s, step) == Some(s')
    requires c in s.calls && s.calls[c].late
    ensures c in s'.calls && s'.calls[c].late
  {}

  /** A late call can end only by cancellation or a failed write, whatever happens after. */
  lemma {:induction false} LateCallNeverAnswered(steps: seq<Step>, s: State, more: seq<Step>, s': State, c: nat)
    requires After(Do, INIT, steps) == Some(s) && c in s.calls && s.calls[c].late
    requires After(Do, s, more) == Some(s')
    ensures c in s'.calls && s'.calls[c].late && s'.calls[c].sent == 0
    ensures s'.calls[c].pc.Returned? ==> s'.calls[c].pc.outcome in {Cancelled, WriteError}
  {
    hide Do, Inv;
    InitInv();
    RunInv(INIT, steps, s);
    RunInv(s, more, s');
    LateStays(s, more, s', c);
    LateFacts(s', c);
  }

  lemma {:induction false} LateStays(s: State, more: seq<Step>, s': State, c: nat)
    requires Inv(s) && After(Do, s, more) == Some(s') && c in s.calls && s.calls[c].late
    ensures c in s'.calls && s'.calls[c].late
  {
    hide Do, Inv;
    if more != [] {
      var t := After(Do, s, more[..|more| - 1]).value;
      RunInv(s, more[..|more| - 1], t);
      LateStays(s, more[..|more| - 1], t, c);
      LateStep(t, more[|more| - 1], s', c);
    }
  }

  lemma LateFacts(s: State, c: nat)
    requires Inv(s) && c in s.calls && s.calls[c].late
    ensures s.calls[c].sent == 0
    ensures s.calls[c].pc.Returned? ==> s.calls[c].pc.outcome in {Cancelled, WriteError}
  {
    assert CallOk(s.calls[c], s.nextID, InFlight(s, c), Held(s, c), s.reader == Dead);
  }

  // ---- a closed client ----------------------------------------------------

  predicate Dying(r: Reader) {
    r == Closing || r == Draining || r == Dead
  }

  /** When the read loop has seen the server's death, the client is closed. */
  ghost predicate ClosedWhenDying(s: State) {
    Dying(s.reader) ==> s.closed
  }

  lemma ClosedWhenDyingStep(s: State, step: Step, s': State)
    requires ClosedWhenDying(s) && Do(s, step) == Some(s')
    ensures ClosedWhenDying(s')
  {}

  lemma DeathCloses(steps: seq<Step>, s: State)
    requires After(Do, INIT, steps) == Some(s)
    ensures Dying(s.reader) ==> s.closed
  {
    hide Do;
    forall a, step | ClosedWhenDying(a) && Do(a, step).Some? ensures ClosedWhenDying(Do(a, step).value) {
      ClosedWhenDyingStep(a, step, Do(a, step).value);
    }
    RunKeeps(Do, ClosedWhenDying, INIT, steps, s);
  }

  /** Closed, and every call that is not among the earlier ones was turned away or is about to be. */
  ghost predicate TurnedAway(s: State, earlier: set<nat>) {
    && s.closed
    && forall c :: c in s.calls && c !in earlier ==> s.calls[c].pc == Begin || s.calls[c].pc == Returned(Closed)
  }

  lemma TurnedAwayStep(s: State, step: Step, s': State, earlier: set<nat>)
    requires TurnedAway(s, earlier) && Do(s, step) == Some(s')
    ensures TurnedAway(s', earlier)
  {}

  /** Once the client is closed it stays closed, and no call that starts after that ever gets further than
      the closed check: it is at its beginning or has returned the closed error, with nothing in flight. */
  lemma ClosedForGood(steps: seq<Step>, s: State, more: seq<Step>, s': State)
    requires After(Do, INIT, steps) == Some(s) && s.closed && After(Do, s, more) == Some(s')
    ensures s'.closed
    ensures forall c :: c in s'.calls && c !in s.calls ==>
      && (s'.calls[c].pc == Begin || s'.calls[c].pc == Returned(Closed))
      && s'.calls[c].sent == 0 && !InFlight(s', c)
  {
    hide Do, Inv;
    InitInv();
    RunInv(INIT, steps, s);
    RunInv(s, more, s');
    var inv := a => TurnedAway(a, s.calls.Keys);
    forall a, step | inv(a) && Do(a, step).Some? ensures inv(Do(a, step).value) {
      TurnedAwayStep(a, step, Do(a, step).value, s.calls.Keys);
    }
    RunKeeps(Do, inv, s, more, s');
    forall c | c in s'.calls && c !in s.calls ensures s'.calls[c].sent == 0 && !InFlight(s', c) {
      CallFacts(s', c);
    }
  }

  /** The check itself: on a closed client the call returns the closed error, on an open one it goes on. */
  lemma ClosedCheck(s: State, c: nat)
    requires c in s.calls && s.calls[c].pc == Begin
    ensures Do(s, CheckClosed(c)).Some?
    ensures Do(s, CheckClosed(c)).value.calls[c].pc == Returned(Closed) <==> s.closed
    ensures Do(s, CheckClosed(c)).value.calls[c].pc == Admitted <==> !s.closed
  {}

  // ---- progress and causes ------------------------------------------------

  predicate Concerns(step: Step, c: nat) {
    || step == CheckClosed(c) || step == TakeID(c) || step == FailMarshal(c) || step == Register(c)
    || step == WriteOk(c) || step == WriteFail(c) || step == Receive(c) || step == Cancel(c) || step == Unwind(c)
  }

  /** No call is ever stuck by the client: it can move unless it has returned, or needs the lock while the
      drain holds it. A waiting call with its message in hand can take it. */
  lemma CallsCanMove(s: State, c: nat)
    requires c in s.calls
    ensures !s.calls[c].pc.Returned? && s.reader != Draining ==> exists step :: Concerns(step, c) && Do(s, step).Some?
    ensures s.calls[c].pc == Waiting && s.calls[c].chan != [] ==>
      Do(s, Receive(c)).Some? && Do(s, Receive(c)).value.calls[c].pc == Returned(Got(s.calls[c].chan[0]))
  {
    var step :=
      match s.calls[c].pc
      case Begin => CheckClosed(c)
      case Admitted => TakeID(c)
      case Numbered => Register(c)
      case Registered => WriteOk(c)
      case Waiting => Cancel(c)
      case Unwinding(_) => Unwind(c)
      case Returned(_) => CloseFlag;
    if !s.calls[c].pc.Returned? && s.reader != Draining {
      assert Concerns(step, c) && Do(s, step).Some?;
    }
  }

  /** The read loop is never stuck either, and the drain ends with nothing in flight. */
  lemma ReaderCanMove(steps: seq<Step>, s: State, id: int)
    requires After(Do, INIT, steps) == Some(s)
    ensures s.reader == Reading ==> Do(s, Deliver(id, Reply)).Some? && Do(s, ReadError).Some?
    ensures s.reader.Holding? ==> Do(s, Send).Some?
    ensures s.reader == Closing ==> Do(s, TakeLock).Some?
    ensures s.reader == Draining && id in s.inflight ==> Do(s, DrainOne(id)).Some?
    ensures s.reader == Draining && s.inflight == map[] ==> Do(s, DrainDone).Some?
  {
    hide Inv;
    SendsNeverBlock(steps, s);
  }

  /** The step that brings an outcome about. */
  function CauseOf(outcome: Outcome, c: nat): Step {
    match outcome
    case Closed => CheckClosed(c)
    case MarshalError => FailMarshal(c)
    case WriteError => WriteFail(c)
    case Cancelled => Cancel(c)
    case Got(_) => Receive(c)
  }

  function Cause(pc: Pc, c: nat): Option<Step> {
    match pc
    case Unwinding(outcome) => Some(CauseOf(outcome, c))
    case Returned(outcome) => Some(CauseOf(outcome, c))
    case _ => None
  }

  lemma CauseStep(s: State, step: Step, s': State, c: nat)
    requires Do(s, step) == Some(s') && c in s'.calls && Cause(s'.calls[c].pc, c).Some?
    ensures step == Cause(s'.calls[c].pc, c).value
      || (c in s.calls && Cause(s.calls[c].pc, c) == Cause(s'.calls[c].pc, c))
  {}

  /** Every outcome was caused by its own step: a call reports a cancellation only if it was cancelled, a
      failed write only if its write failed, and so on. */
  lemma {:induction false} OutcomesHaveCauses(steps: seq<Step>, s: State, c: nat)
    requires After(Do, INIT, steps) == Some(s) && c in s.calls && Cause(s.calls[c].pc, c).Some?
    ensures Cause(s.calls[c].pc, c).value in steps
  {
    hide Do, Cause;
    if steps != [] {
      var n := |steps| - 1;
      var t := After(Do, INIT, steps[..n]).value;
      CauseStep(t, steps[n], s, c);
      assert steps == steps[..n] + [steps[n]];
      if steps[n] != Cause(s.calls[c].pc, c).value {
        OutcomesHaveCauses(steps[..n], t, c);
      }
    }
  }

  lemma CauseStays(s: State, step: Step, s': State, c: nat)
    requires Do(s, step) == Some(s') && c in s.calls && Cause(s.calls[c].pc, c).Some?
    ensures c in s'.calls && Cause(s'.calls[c].pc, c) == Cause(s.calls[c].pc, c)
  {}

  /** The steps that settle how a call ends. */
  predicate Settles(step: Step, c: nat) {
    step == WriteFail(c) || step == Cancel(c) || step == FailMarshal(c) || step == Receive(c)
  }

  lemma SettlingStep(s: State, step: Step, s': State, c: nat)
    requires Do(s, step) == Some(s') && Settles(step, c)
    ensures c in s'.calls && Cause(s'.calls[c].pc, c) == Some(step)
  {}

  /** A call whose write fails reports that, a cancelled one the cancellation, one whose parameters cannot be
      encoded that, and one that takes a message that message; whatever happens besides. */
  lemma {:induction false} SettledForGood(steps: seq<Step>, s: State, c: nat, step: Step)
    requires After(Do, INIT, steps) == Some(s) && Settles(step, c)
    ensures step in steps <==> c in s.calls && Cause(s.calls[c].pc, c) == Some(step)
  {
    hide Do, Cause, Settles;
    if c in s.calls && Cause(s.calls[c].pc, c) == Some(step) {
      OutcomesHaveCauses(steps, s, c);
    }
    if step in steps {
      var n := |steps| - 1;
      var t := After(Do, INIT, steps[..n]).value;
      assert steps == steps[..n] + [steps[n]];
      if steps[n] == step {
        SettlingStep(t, step, s, c);
      } else {
        SettledForGood(steps[..n], t, c, step);
        CauseStays(t, steps[n], s, c);
      }
    }
  }
}
