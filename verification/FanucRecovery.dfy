/** Fault recovery across the hardware module and the FANUC node as a system of two threads.

    Requests to the node's clear_faults service are numbered and served one at a time (the
    service group is mutually exclusive); other clients may request recoveries too. The
    hardware module may stop waiting at any moment while the node goes on. A response belongs
    to the request that it answers. */
module FanucRecovery {
  import opened Messages
  import opened ServiceCalls
  import opened FanucNode
  import Hwm = HwmSequences

  datatype LogEvent =
    | ResetSent(id: nat)
    | ResetReply(id: nat, ok: bool)
    | ControlSent(id: nat, status: int)
    | ControlReply(id: nat, ok: bool)
    | Responded(id: nat, ok: bool)
    | HwStateReply(id: nat, ok: bool)
    | SwitchReply(id: nat, ok: bool)
    | Done(id: nat, ok: bool)

  datatype VendorPc =
    | VendorIdle
    | Serving(id: nat)
    | Resetting(id: nat)
    | ResetDone(id: nat)
    | SwitchingControl(id: nat)

  datatype HwmPc =
    | HwmIdle
    | AwaitVendor(id: nat)
    | AwaitHwState(id: nat)
    | AwaitSwitch(id: nat)

  datatype State = State(
    namedHardware: bool,
    hwm: HwmPc, vendor: VendorPc,
    queue: seq<nat>, nextId: nat,
    responses: map<nat, bool>,
    log: seq<LogEvent>)

  function Init(namedHardware: bool): State {
    State(namedHardware, HwmIdle, VendorIdle, [], 0, map[], [])
  }

  /** The moves of the two threads and of their environment. `ok` and `available` are the
      environment's choice; a timeout counts as a reply that is not ok. A hardware module that
      does not find the node's service gives up with a number that is never requested. */
  datatype Move =
    | HwmRequest
    | OtherRequest
    | VendorTake
    | VendorProceed(available: bool)
    | VendorReply(ok: bool)
    | HwmUnavailable
    | HwmReceive
    | HwmTimeout
    | HwmReply(ok: bool)

  function Respond(s: State, id: nat, ok: bool): State {
    s.(vendor := VendorIdle, responses := s.responses[id := ok], log := s.log + [Responded(id, ok)])
  }

  function Finish(s: State, id: nat, ok: bool): State {
    s.(hwm := HwmIdle, log := s.log + [Done(id, ok)])
  }

  function Exec(s: State, step: Move): State {
    match step
    case HwmRequest =>
      if s.hwm.HwmIdle? then
        s.(hwm := AwaitVendor(s.nextId), queue := s.queue + [s.nextId], nextId := s.nextId + 1)
      else s
    case HwmUnavailable =>
      if s.hwm.HwmIdle? then s.(nextId := s.nextId + 1, log := s.log + [Done(s.nextId, false)]) else s
    case OtherRequest =>
      s.(queue := s.queue + [s.nextId], nextId := s.nextId + 1)
    case VendorTake =>
      if s.vendor.VendorIdle? && s.queue != [] then s.(vendor := Serving(s.queue[0]), queue := s.queue[1..]) else s
    case VendorProceed(available) =>
      (match s.vendor
       case Serving(id) =>
         if available then s.(vendor := Resetting(id), log := s.log + [ResetSent(id)]) else Respond(s, id, false)
       case ResetDone(id) =>
         if available then s.(vendor := SwitchingControl(id), log := s.log + [ControlSent(id, ROS_CONTROL)])
         else Respond(s, id, false)
       case _ => s)
    case VendorReply(ok) =>
      (match s.vendor
       case Resetting(id) =>
         var t := s.(log := s.log + [ResetReply(id, ok)]);
         if ok then t.(vendor := ResetDone(id)) else Respond(t, id, false)
       case SwitchingControl(id) =>
         Respond(s.(log := s.log + [ControlReply(id, ok)]), id, ok)
       case _ => s)
    case HwmReceive =>
      if s.hwm.AwaitVendor? && s.hwm.id in s.responses then
        if !s.responses[s.hwm.id] then Finish(s, s.hwm.id, false)
        else if s.namedHardware then s.(hwm := AwaitHwState(s.hwm.id))
        else s.(hwm := AwaitSwitch(s.hwm.id))
      else s
    case HwmTimeout =>
      if s.hwm.AwaitVendor? then Finish(s, s.hwm.id, false) else s
    case HwmReply(ok) =>
      (match s.hwm
       case AwaitHwState(id) =>
         var t := s.(log := s.log + [HwStateReply(id, ok)]);
         if ok then t.(hwm := AwaitSwitch(id)) else Finish(t, id, false)
       case AwaitSwitch(id) =>
         Finish(s.(log := s.log + [SwitchReply(id, ok)]), id, ok)
       case _ => s)
  }

  function Run(namedHardware: bool, steps: seq<Move>): State {
    if steps == [] then Init(namedHardware)
    else Exec(Run(namedHardware, steps[..|steps| - 1]), steps[|steps| - 1])
  }

  // ---- An OK of the hardware module means the whole sequence was acknowledged ----

  ghost predicate IsEmbedding(at: seq<int>, events: seq<LogEvent>, log: seq<LogEvent>) {
    && |at| == |events|
    && (forall i :: 0 <= i < |at| ==> 0 <= at[i] < |log| && log[at[i]] == events[i])
    && (forall i, j :: 0 <= i < j < |at| ==> at[i] < at[j])
  }

  /** `events` occur in `log` in this order. */
  ghost predicate Embeds(events: seq<LogEvent>, log: seq<LogEvent>) {
    exists at :: IsEmbedding(at, events, log)
  }

  lemma {:induction false} EmbedsSnoc(events: seq<LogEvent>, log: seq<LogEvent>, e: LogEvent)
    requires Embeds(events, log)
    ensures Embeds(events, log + [e]) && Embeds(events + [e], log + [e])
  {
    var at :| IsEmbedding(at, events, log);
    assert IsEmbedding(at, events, log + [e]);
    assert IsEmbedding(at + [|log|], events + [e], log + [e]);
  }

  function ResetAcked(id: nat): seq<LogEvent> {
    [ResetSent(id), ResetReply(id, true)]
  }

  function ControlRequested(id: nat): seq<LogEvent> {
    ResetAcked(id) + [ControlSent(id, ROS_CONTROL)]
  }

  /** What the node acknowledged before it answers a request with success. */
  function VendorSequence(id: nat): seq<LogEvent> {
    ControlRequested(id) + [ControlReply(id, true)] + [Responded(id, true)]
  }

  function HwReady(namedHardware: bool, id: nat): seq<LogEvent> {
    if namedHardware then VendorSequence(id) + [HwStateReply(id, true)] else VendorSequence(id)
  }

  function FullSequence(namedHardware: bool, id: nat): seq<LogEvent> {
    HwReady(namedHardware, id) + [SwitchReply(id, true)]
  }

  ghost predicate Progress(s: State) {
    && (s.vendor.Resetting? ==> Embeds([ResetSent(s.vendor.id)], s.log))
    && (s.vendor.ResetDone? ==> Embeds(ResetAcked(s.vendor.id), s.log))
    && (s.vendor.SwitchingControl? ==> Embeds(ControlRequested(s.vendor.id), s.log))
    && (forall id :: id in s.responses && s.responses[id] ==> Embeds(VendorSequence(id), s.log))
    && (s.hwm.AwaitHwState? ==> Embeds(VendorSequence(s.hwm.id), s.log))
    && (s.hwm.AwaitSwitch? ==> Embeds(HwReady(s.namedHardware, s.hwm.id), s.log))
    && (forall n :: 0 <= n < |s.log| && s.log[n].Done? && s.log[n].ok ==>
          Embeds(FullSequence(s.namedHardware, s.log[n].id), s.log[..n]))
  }

  /** Any event but a successful Done may be appended. */
  lemma {:induction false} Grow(s: State, e: LogEvent)
    requires Progress(s) && !(e.Done? && e.ok)
    ensures Progress(s.(log := s.log + [e]))
  {
    var log := s.log + [e];
    forall events | Embeds(events, s.log) ensures Embeds(events, log) {
      EmbedsSnoc(events, s.log, e);
    }
    forall n | 0 <= n < |log| && log[n].Done? && log[n].ok
      ensures Embeds(FullSequence(s.namedHardware, log[n].id), log[..n])
    {
      assert log[n] == s.log[n] && log[..n] == s.log[..n];
    }
  }

  lemma {:induction false} RespondKeepsProgress(s: State, id: nat, ok: bool)
    requires Progress(s)
    requires ok ==> Embeds(ControlRequested(id) + [ControlReply(id, true)], s.log)
    ensures Progress(Respond(s, id, ok))
  {
    Grow(s, Responded(id, ok));
    if ok {
      EmbedsSnoc(ControlRequested(id) + [ControlReply(id, true)], s.log, Responded(id, true));
    }
  }

  lemma {:induction false} FinishKeepsProgress(s: State, id: nat, ok: bool)
    requires Progress(s)
    requires ok ==> Embeds(FullSequence(s.namedHardware, id), s.log)
    ensures Progress(Finish(s, id, ok))
  {
    if !ok {
      Grow(s, Done(id, false));
    } else {
      Grow(s, SwitchReply(id, true));
      var log := s.log + [Done(id, ok)];
      forall events | Embeds(events, s.log) ensures Embeds(events, log) {
        EmbedsSnoc(events, s.log, Done(id, ok));
      }
      forall n | 0 <= n < |log| && log[n].Done? && log[n].ok
        ensures Embeds(FullSequence(s.namedHardware, log[n].id), log[..n])
      {
        assert log[..n] == if n < |s.log| then s.log[..n] else s.log;
      }
    }
  }

  lemma {:induction false} VendorKeepsProgress(s: State, step: Move)
    requires Progress(s) && (step.VendorProceed? || step.VendorReply?)
    ensures Progress(Exec(s, step))
  {
    match (step, s.vendor) {
      case (VendorProceed(true), Serving(id)) =>
        Grow(s, ResetSent(id));
        assert IsEmbedding([|s.log|], [ResetSent(id)], s.log + [ResetSent(id)]);
      case (VendorProceed(true), ResetDone(id)) =>
        Grow(s, ControlSent(id, ROS_CONTROL));
        EmbedsSnoc(ResetAcked(id), s.log, ControlSent(id, ROS_CONTROL));
      case (VendorProceed(false), Serving(id)) =>
        RespondKeepsProgress(s, id, false);
      case (VendorProceed(false), ResetDone(id)) =>
        RespondKeepsProgress(s, id, false);
      case (VendorReply(ok), Resetting(id)) =>
        Grow(s, ResetReply(id, ok));
        EmbedsSnoc([ResetSent(id)], s.log, ResetReply(id, ok));
        assert [ResetSent(id)] + [ResetReply(id, true)] == ResetAcked(id);
        if !ok {
          RespondKeepsProgress(s.(log := s.log + [ResetReply(id, ok)]), id, false);
        }
      case (VendorReply(ok), SwitchingControl(id)) =>
        Grow(s, ControlReply(id, ok));
        EmbedsSnoc(ControlRequested(id), s.log, ControlReply(id, ok));
        RespondKeepsProgress(s.(log := s.log + [ControlReply(id, ok)]), id, ok);
      case _ =>
    }
  }

  lemma {:induction false} HwmKeepsProgress(s: State, step: Move)
    requires Progress(s) && !step.VendorProceed? && !step.VendorReply?
    ensures Progress(Exec(s, step))
  {
    match (step, s.hwm) {
      case (HwmUnavailable, HwmIdle) =>
        Grow(s, Done(s.nextId, false));
      case (HwmReceive, AwaitVendor(id)) =>
        FinishKeepsProgress(s, id, false);
      case (HwmTimeout, AwaitVendor(id)) =>
        FinishKeepsProgress(s, id, false);
      case (HwmReply(ok), AwaitHwState(id)) =>
        Grow(s, HwStateReply(id, ok));
        EmbedsSnoc(VendorSequence(id), s.log, HwStateReply(id, ok));
        if !ok {
          FinishKeepsProgress(s.(log := s.log + [HwStateReply(id, ok)]), id, false);
        }
      case (HwmReply(ok), AwaitSwitch(id)) =>
        Grow(s, SwitchReply(id, ok));
        EmbedsSnoc(HwReady(s.namedHardware, id), s.log, SwitchReply(id, ok));
        FinishKeepsProgress(s.(log := s.log + [SwitchReply(id, ok)]), id, ok);
      case _ =>
    }
  }

  lemma {:induction false} RunKeepsProgress(namedHardware: bool, steps: seq<Move>)
    ensures Progress(Run(namedHardware, steps)) && Run(namedHardware, steps).namedHardware == namedHardware
    decreases |steps|
  {
    if steps != [] {
      RunKeepsProgress(namedHardware, steps[..|steps| - 1]);
      var s, step := Run(namedHardware, steps[..|steps| - 1]), steps[|steps| - 1];
      if step.VendorProceed? || step.VendorReply? {
        VendorKeepsProgress(s, step);
      } else {
        HwmKeepsProgress(s, step);
      }
    }
  }

  /** An OK of the hardware module's ClearFaults is preceded, in this order and for its own
      request, by an acknowledged reset, an acknowledged switch of control to ROS 2, the node's
      success response, an acknowledged hardware state (if a component is named) and an
      acknowledged controller switch. */
  lemma {:induction false} OkMeansFullSequence(namedHardware: bool, steps: seq<Move>, n: nat)
    requires n < |Run(namedHardware, steps).log|
    requires Run(namedHardware, steps).log[n].Done? && Run(namedHardware, steps).log[n].ok
    ensures var log := Run(namedHardware, steps).log;
            Embeds(FullSequence(namedHardware, log[n].id), log[..n])
  {
    RunKeepsProgress(namedHardware, steps);
  }

  // ---- The vendor calls are finished recovery attempts and at most one unfinished one ----

  predicate IsVendorCall(e: LogEvent) {
    e.ResetSent? || e.ResetReply? || e.ControlSent? || e.ControlReply?
  }

  function AddEvent(attempts: seq<seq<LogEvent>>, e: LogEvent): seq<seq<LogEvent>> {
    if !IsVendorCall(e) then attempts
    else if e.ResetSent? || attempts == [] then attempts + [[e]]
    else
      var last := |attempts| - 1;
      attempts[..last] + [attempts[last] + [e]]
  }

  /** The vendor calls of the log, cut before every reset request. */
  function Attempts(log: seq<LogEvent>): seq<seq<LogEvent>> {
    if log == [] then [] else AddEvent(Attempts(log[..|log| - 1]), log[|log| - 1])
  }

  function VendorCalls(log: seq<LogEvent>): seq<LogEvent> {
    if log == [] then []
    else VendorCalls(log[..|log| - 1]) + (if IsVendorCall(log[|log| - 1]) then [log[|log| - 1]] else [])
  }

  function Concat(attempts: seq<seq<LogEvent>>): seq<LogEvent> {
    if attempts == [] then [] else Concat(attempts[..|attempts| - 1]) + attempts[|attempts| - 1]
  }

  /** Cutting loses, adds and reorders nothing. */
  lemma {:induction false} AttemptsAreVendorCalls(log: seq<LogEvent>)
    ensures Concat(Attempts(log)) == VendorCalls(log)
    decreases |log|
  {
    if log != [] {
      var earlier, e := Attempts(log[..|log| - 1]), log[|log| - 1];
      AttemptsAreVendorCalls(log[..|log| - 1]);
      var attempts := AddEvent(earlier, e);
      if IsVendorCall(e) && |attempts| == |earlier| {
        assert attempts[..|attempts| - 1] == earlier[..|earlier| - 1];
      } else if IsVendorCall(e) {
        assert attempts[..|attempts| - 1] == earlier;
      }
    }
  }

  /** A prefix of reset request, reply, request of ROS 2 control, reply, all of one recovery;
      control is requested only after a reset that succeeded. */
  predicate IsAttempt(a: seq<LogEvent>) {
    && 1 <= |a| <= 4 && a[0].ResetSent?
    && (|a| > 1 ==> a[1] == ResetReply(a[0].id, true) || (|a| == 2 && a[1] == ResetReply(a[0].id, false)))
    && (|a| > 2 ==> a[2] == ControlSent(a[0].id, ROS_CONTROL))
    && (|a| > 3 ==> a[3].ControlReply? && a[3].id == a[0].id)
  }

  /** No request of the attempt is waiting for its reply. */
  predicate IsFinished(a: seq<LogEvent>) {
    |a| == 2 || |a| == 4
  }

  /** All attempts are well formed and all but the last are finished. */
  ghost predicate AttemptsOk(attempts: seq<seq<LogEvent>>) {
    && (forall k :: 0 <= k < |attempts| ==> IsAttempt(attempts[k]))
    && (forall k :: 0 <= k < |attempts| - 1 ==> IsFinished(attempts[k]))
  }

  /** The last attempt is what the node's thread is doing. */
  predicate LastMatches(attempts: seq<seq<LogEvent>>, vendor: VendorPc) {
    var last := |attempts| - 1;
    match vendor
    case Resetting(id) => attempts != [] && attempts[last] == [ResetSent(id)]
    case ResetDone(id) => attempts != [] && attempts[last] == ResetAcked(id)
    case SwitchingControl(id) => attempts != [] && attempts[last] == ControlRequested(id)
    case _ => attempts != [] ==> IsFinished(attempts[last])
  }

  ghost predicate AttemptsMatch(s: State) {
    AttemptsOk(Attempts(s.log)) && LastMatches(Attempts(s.log), s.vendor)
  }

  /** The vendor calls that the node's thread makes, with its states before and after. */
  predicate VendorMove(before: VendorPc, e: LogEvent, after: VendorPc) {
    match e
    case ResetSent(id) => before == Serving(id) && after == Resetting(id)
    case ResetReply(id, ok) => before == Resetting(id) && after == if ok then ResetDone(id) else VendorIdle
    case ControlSent(id, status) => before == ResetDone(id) && status == ROS_CONTROL && after == SwitchingControl(id)
    case ControlReply(id, _) => before == SwitchingControl(id) && after == VendorIdle
    case _ => false
  }

  lemma {:induction false} MoveKeepsAttempts(
      attempts: seq<seq<LogEvent>>, before: VendorPc, e: LogEvent, after: VendorPc)
    requires AttemptsOk(attempts) && LastMatches(attempts, before) && VendorMove(before, e, after)
    ensures AttemptsOk(AddEvent(attempts, e)) && LastMatches(AddEvent(attempts, e), after)
  {
    if e.ResetSent? {
      assert IsAttempt([e]);
    } else {
      var longer := attempts[|attempts| - 1] + [e];
      assert e.ResetReply? ==> longer == [ResetSent(e.id), e];
      assert IsAttempt(longer);
    }
  }

  lemma {:induction false} AttemptsSnoc(log: seq<LogEvent>, e: LogEvent)
    ensures Attempts(log + [e]) == AddEvent(Attempts(log), e)
  {
    assert (log + [e])[..|log|] == log;
  }

  /** A move of the node's thread without a vendor call. */
  predicate QuietMove(before: VendorPc, after: VendorPc) {
    || after == before
    || ((after.VendorIdle? || after.Serving?) && (before.VendorIdle? || before.Serving? || before.ResetDone?))
  }

  /** What a move appends to the log: at most one vendor call, and that one first. */
  ghost predicate Adds(s: State, t: State, added: seq<LogEvent>) {
    && |added| <= 2 && t.log == s.log + added
    && (|added| == 2 ==> !IsVendorCall(added[1]))
    && if added != [] && IsVendorCall(added[0]) then VendorMove(s.vendor, added[0], t.vendor)
       else QuietMove(s.vendor, t.vendor)
  }

  /** What a move appends to the log. */
  function AddedBy(s: State, step: Move): seq<LogEvent> {
    match (step, s.vendor, s.hwm)
    case (VendorProceed(true), Serving(id), _) => [ResetSent(id)]
    case (VendorProceed(true), ResetDone(id), _) => [ControlSent(id, ROS_CONTROL)]
    case (VendorProceed(false), Serving(id), _) => [Responded(id, false)]
    case (VendorProceed(false), ResetDone(id), _) => [Responded(id, false)]
    case (VendorReply(ok), Resetting(id), _) => [ResetReply(id, ok)] + (if ok then [] else [Responded(id, false)])
    case (VendorReply(ok), SwitchingControl(id), _) => [ControlReply(id, ok), Responded(id, ok)]
    case (HwmUnavailable, _, HwmIdle) => [Done(s.nextId, false)]
    case (HwmReceive, _, AwaitVendor(id)) =>
      if id in s.responses && !s.responses[id] then [Done(id, false)] else []
    case (HwmTimeout, _, AwaitVendor(id)) => [Done(id, false)]
    case (HwmReply(ok), _, AwaitHwState(id)) => [HwStateReply(id, ok)] + (if ok then [] else [Done(id, false)])
    case (HwmReply(ok), _, AwaitSwitch(id)) => [SwitchReply(id, ok), Done(id, ok)]
    case _ => []
  }

  lemma {:induction false} MoveAdds(s: State, step: Move)
    ensures Exec(s, step).log == s.log + AddedBy(s, step)
  {
  }

  lemma {:induction false} MoveOfVendor(s: State, step: Move)
    ensures Adds(s, Exec(s, step), AddedBy(s, step))
  {
    MoveAdds(s, step);
  }

  lemma {:induction false} StepMatchesAttempts(s: State, step: Move)
    requires AttemptsMatch(s)
    ensures AttemptsMatch(Exec(s, step))
  {
    hide Exec;
    MoveOfVendor(s, step);
    LogMatches(s.log, AddedBy(s, step), s.vendor, Exec(s, step).vendor);
  }

  lemma {:induction false} LogMatches(log: seq<LogEvent>, added: seq<LogEvent>, before: VendorPc, after: VendorPc)
    requires AttemptsOk(Attempts(log)) && LastMatches(Attempts(log), before)
    requires |added| <= 2 && (|added| == 2 ==> !IsVendorCall(added[1]))
    requires if added != [] && IsVendorCall(added[0]) then VendorMove(before, added[0], after)
             else QuietMove(before, after)
    ensures AttemptsOk(Attempts(log + added)) && LastMatches(Attempts(log + added), after)
  {
    if added == [] {
      assert log + added == log;
    } else {
      AttemptsSnoc(log, added[0]);
      if IsVendorCall(added[0]) {
        MoveKeepsAttempts(Attempts(log), before, added[0], after);
      }
      if |added| == 1 {
        assert log + added == log + [added[0]];
      } else {
        AttemptsSnoc(log + [added[0]], added[1]);
        assert log + added == log + [added[0]] + [added[1]];
      }
    }
  }

  lemma {:induction false} VendorLogIsAttempts(namedHardware: bool, steps: seq<Move>)
    ensures AttemptsMatch(Run(namedHardware, steps))
    ensures Concat(Attempts(Run(namedHardware, steps).log)) == VendorCalls(Run(namedHardware, steps).log)
    decreases |steps|
  {
    AttemptsAreVendorCalls(Run(namedHardware, steps).log);
    if steps != [] {
      VendorLogIsAttempts(namedHardware, steps[..|steps| - 1]);
      var s, step := Run(namedHardware, steps[..|steps| - 1]), steps[|steps| - 1];
      StepMatchesAttempts(s, step);
    }
  }

  // ---- The node's sequential code is the vendor thread ----

  /** The moves of the vendor thread when its two services behave as in `env`. */
  function VendorSchedule(serviceTimeoutMs: nat, env: Environment): seq<Move> {
    var reset := Call(env(0), DISCOVER_MS, serviceTimeoutMs).outcome;
    var control := Call(env(1), DISCOVER_MS, serviceTimeoutMs).outcome;
    [VendorTake, VendorProceed(reset != NotAvailable), VendorReply(reset == Accepted)] +
    (if reset == Accepted then [VendorProceed(control != NotAvailable), VendorReply(control == Accepted)] else [])
  }

  function ExecAll(s: State, steps: seq<Move>): State
    decreases |steps|
  {
    if steps == [] then s else ExecAll(Exec(s, steps[0]), steps[1..])
  }

  lemma {:induction false} VendorOkExactly(serviceTimeoutMs: nat, env: Environment)
    ensures RunSteps(RecoverySteps(serviceTimeoutMs), env).code == OK <==>
            && Call(env(0), DISCOVER_MS, serviceTimeoutMs).outcome == Accepted
            && Call(env(1), DISCOVER_MS, serviceTimeoutMs).outcome == Accepted
  {
    var steps := RecoverySteps(serviceTimeoutMs);
    assert steps[1..] == [steps[1]] && steps[1..][1..] == [];
    assert RunSteps(steps[1..], env, 1).code == OK <==>
           Call(env(1), DISCOVER_MS, serviceTimeoutMs).outcome == Accepted;
  }

  lemma {:induction false} ResetMoves(s: State, available: bool, ok: bool)
    requires s.vendor.VendorIdle? && s.queue != [] && (ok ==> available)
    ensures var t := Exec(Exec(Exec(s, VendorTake), VendorProceed(available)), VendorReply(ok));
            && t.queue == s.queue[1..]
            && if ok then t.vendor == ResetDone(s.queue[0])
               else t.vendor == VendorIdle && t.responses == s.responses[s.queue[0] := false]
  {
  }

  lemma {:induction false} ControlMoves(s: State, available: bool, ok: bool)
    requires s.vendor.ResetDone? && (ok ==> available)
    ensures var t := Exec(Exec(s, VendorProceed(available)), VendorReply(ok));
            t.queue == s.queue && t.vendor == VendorIdle && t.responses == s.responses[s.vendor.id := ok]
  {
  }

  /** Served without interruption, a request is answered with success exactly when the node's
      sequential ClearFaults returns OK for the same services. */
  lemma {:induction false} ThreadRunsClearFaults(s: State, serviceTimeoutMs: nat, env: Environment)
    requires s.vendor.VendorIdle? && s.queue != []
    ensures var t := ExecAll(s, VendorSchedule(serviceTimeoutMs, env));
            && t.vendor.VendorIdle? && t.queue == s.queue[1..] && s.queue[0] in t.responses
            && (t.responses[s.queue[0]] <==> RunSteps(RecoverySteps(serviceTimeoutMs), env).code == OK)
  {
    hide Exec, RunSteps;
    var reset := Call(env(0), DISCOVER_MS, serviceTimeoutMs).outcome;
    var control := Call(env(1), DISCOVER_MS, serviceTimeoutMs).outcome;
    var moves := VendorSchedule(serviceTimeoutMs, env);
    VendorOkExactly(serviceTimeoutMs, env);
    ExecThree(s, moves[0], moves[1], moves[2]);
    ResetMoves(s, reset != NotAvailable, reset == Accepted);
    var first := [moves[0], moves[1], moves[2]];
    if reset == Accepted {
      assert moves == first + [moves[3], moves[4]];
      ExecConcat(s, first, [moves[3], moves[4]]);
      ExecTwo(ExecAll(s, first), moves[3], moves[4]);
      ControlMoves(ExecAll(s, first), control != NotAvailable, control == Accepted);
    } else {
      assert moves == first;
    }
  }

  /** The requests that reached a service, as the log of the thread shows them. */
  function SentInLog(log: seq<LogEvent>): seq<VendorRequest> {
    if log == [] then []
    else
      var earlier := SentInLog(log[..|log| - 1]);
      match log[|log| - 1]
      case ResetSent(_) => earlier + [RESET]
      case ControlSent(_, status) => earlier + [SWITCH_CONTROL_STATE(status)]
      case _ => earlier
  }

  /** The requests of a sequential run that reached a service. */
  function SentByCode(requests: seq<Event<VendorRequest>>): seq<VendorRequest> {
    if requests == [] then []
    else
      var earlier, e := SentByCode(requests[..|requests| - 1]), requests[|requests| - 1];
      if e.outcome == NotAvailable then earlier else earlier + [e.request]
  }

  /** The events that the thread logs for its request `id`, in the outcomes of its two services. */
  function ThreadLog(id: nat, reset: Outcome, control: Outcome): seq<LogEvent> {
    if reset == NotAvailable then [Responded(id, false)]
    else if reset != Accepted then [ResetSent(id), ResetReply(id, false), Responded(id, false)]
    else if control == NotAvailable then [ResetSent(id), ResetReply(id, true), Responded(id, false)]
    else
      [ResetSent(id), ResetReply(id, true), ControlSent(id, 1), ControlReply(id, control == Accepted),
       Responded(id, control == Accepted)]
  }

  lemma {:induction false} ResetLog(s: State, available: bool, ok: bool)
    requires s.vendor.VendorIdle? && s.queue != [] && (ok ==> available)
    ensures var t, id := Exec(Exec(Exec(s, VendorTake), VendorProceed(available)), VendorReply(ok)), s.queue[0];
            t.log == s.log + (if !available then [Responded(id, false)]
                              else if ok then [ResetSent(id), ResetReply(id, true)]
                              else [ResetSent(id), ResetReply(id, false), Responded(id, false)])
  {
  }

  lemma {:induction false} ControlLog(s: State, available: bool, ok: bool)
    requires s.vendor.ResetDone? && (ok ==> available)
    ensures var t, id := Exec(Exec(s, VendorProceed(available)), VendorReply(ok)), s.vendor.id;
            t.log == s.log + (if !available then [Responded(id, false)]
                              else [ControlSent(id, 1), ControlReply(id, ok), Responded(id, ok)])
  {
  }

  /** Served without interruption, the thread logs exactly these events for its request. */
  lemma {:induction false} ThreadLogIs(s: State, serviceTimeoutMs: nat, env: Environment)
    requires s.vendor.VendorIdle? && s.queue != []
    ensures var reset := Call(env(0), 2000, serviceTimeoutMs).outcome;
            var control := Call(env(1), 2000, serviceTimeoutMs).outcome;
            ExecAll(s, VendorSchedule(serviceTimeoutMs, env)).log == s.log + ThreadLog(s.queue[0], reset, control)
  {
    hide Exec;
    var reset := Call(env(0), DISCOVER_MS, serviceTimeoutMs).outcome;
    var control := Call(env(1), DISCOVER_MS, serviceTimeoutMs).outcome;
    var moves := VendorSchedule(serviceTimeoutMs, env);
    var first := [moves[0], moves[1], moves[2]];
    ExecThree(s, moves[0], moves[1], moves[2]);
    ResetMoves(s, reset != NotAvailable, reset == Accepted);
    ResetLog(s, reset != NotAvailable, reset == Accepted);
    if reset == Accepted {
      assert moves == first + [moves[3], moves[4]];
      ExecConcat(s, first, [moves[3], moves[4]]);
      ExecTwo(ExecAll(s, first), moves[3], moves[4]);
      ControlLog(ExecAll(s, first), control != NotAvailable, control == Accepted);
    } else {
      assert moves == first;
    }
  }

  /** What ClearFaults ensures of its requests, of a run of its steps. */
  lemma {:induction false} RequestsOfSteps(serviceTimeoutMs: nat, env: Environment)
    ensures var reset := Call(env(0), 2000, serviceTimeoutMs).outcome;
            var control := Call(env(1), 2000, serviceTimeoutMs).outcome;
            RunSteps(RecoverySteps(serviceTimeoutMs), env).events ==
            [Event(RESET, reset)] + (if reset == Accepted then [Event(SWITCH_CONTROL_STATE(1), control)] else [])
  {
    var steps := RecoverySteps(serviceTimeoutMs);
    assert steps[1..] == [steps[1]] && steps[1..][1..] == [];
    var control := Call(env(1), 2000, serviceTimeoutMs).outcome;
    assert RunSteps(steps[1..], env, 1).events == [Event(SWITCH_CONTROL_STATE(1), control)];
  }

  lemma {:induction false} SentByCodeIs(reset: Outcome, control: Outcome)
    ensures SentByCode([Event(RESET, reset)]) == (if reset == NotAvailable then [] else [RESET])
    ensures reset != NotAvailable ==>
              SentByCode([Event(RESET, reset)] + [Event(SWITCH_CONTROL_STATE(1), control)]) ==
              [RESET] + (if control == NotAvailable then [] else [SWITCH_CONTROL_STATE(1)])
  {
    var one := [Event(RESET, reset)];
    assert one[..0] == [];
    assert (one + [Event(SWITCH_CONTROL_STATE(1), control)])[..1] == one;
  }

  lemma {:induction false} SentSnoc(log: seq<LogEvent>, e: LogEvent)
    ensures SentInLog(log + [e]) == SentInLog(log) + (
              match e
              case ResetSent(_) => [RESET]
              case ControlSent(_, status) => [SWITCH_CONTROL_STATE(status)]
              case _ => [])
  {
    assert (log + [e])[..|log|] == log;
  }

  lemma {:induction false} SentInThreadLog(id: nat, reset: Outcome, control: Outcome)
    ensures SentInLog(ThreadLog(id, reset, control)) ==
            if reset == NotAvailable then []
            else if reset != Accepted || control == NotAvailable then [RESET]
            else [RESET, SWITCH_CONTROL_STATE(1)]
  {
    hide SentInLog;
    var log := ThreadLog(id, reset, control);
    SentOfNothing();
    var n := |log|;
    assert log[..0] == [];
    forall k | 0 <= k < n ensures SentInLog(log[..k + 1]) == SentInLog(log[..k]) + (
              match log[k]
              case ResetSent(_) => [RESET]
              case ControlSent(_, status) => [SWITCH_CONTROL_STATE(status)]
              case _ => [])
    {
      SentSnoc(log[..k], log[k]);
      assert log[..k + 1] == log[..k] + [log[k]];
    }
    assert log[..n] == log;
    assert n >= 1 ==> SentInLog(log[..1]) == SentInLog(log[..0]) + (if log[0].ResetSent? then [RESET] else []);
    assert n >= 3 ==> SentInLog(log[..2]) == [RESET] && SentInLog(log[..3]) ==
                      [RESET] + (if log[2].ControlSent? then [SWITCH_CONTROL_STATE(1)] else []);
    assert n >= 5 ==> SentInLog(log[..4]) == SentInLog(log[..3]) && SentInLog(log[..5]) == SentInLog(log[..4]);
  }

  lemma {:induction false} SentOfNothing()
    ensures SentInLog([]) == []
  {
  }

  /** Served without interruption, the thread sends the requests that the sequential code sends. */
  lemma {:induction false} ThreadSendsTheRequests(s: State, serviceTimeoutMs: nat, env: Environment)
    requires s.vendor.VendorIdle? && s.queue != []
    ensures var t := ExecAll(s, VendorSchedule(serviceTimeoutMs, env));
            && s.log <= t.log
            && SentInLog(t.log[|s.log|..]) == SentByCode(RunSteps(RecoverySteps(serviceTimeoutMs), env).events)
  {
    hide ExecAll, VendorSchedule, RunSteps, SentInLog, SentByCode, ThreadLog;
    var reset := Call(env(0), 2000, serviceTimeoutMs).outcome;
    var control := Call(env(1), 2000, serviceTimeoutMs).outcome;
    ThreadLogIs(s, serviceTimeoutMs, env);
    RequestsOfSteps(serviceTimeoutMs, env);
    SentByCodeIs(reset, control);
    SentInThreadLog(s.queue[0], reset, control);
    assert [Event(RESET, reset)] + [] == [Event(RESET, reset)];
  }

  lemma {:induction false} ExecConcat(s: State, a: seq<Move>, b: seq<Move>)
    ensures ExecAll(s, a + b) == ExecAll(ExecAll(s, a), b)
    decreases |a|
  {
    if a == [] {
      assert a + b == b;
    } else {
      ExecConcat(Exec(s, a[0]), a[1..], b);
      assert (a + b)[1..] == a[1..] + b;
    }
  }

  lemma {:induction false} ExecOne(s: State, move: Move)
    ensures ExecAll(s, [move]) == Exec(s, move)
  {
    assert [move][1..] == [];
  }

  lemma {:induction false} ExecTwo(s: State, a: Move, b: Move)
    ensures ExecAll(s, [a, b]) == Exec(Exec(s, a), b)
  {
    hide Exec;
    assert [a, b] == [a] + [b];
    ExecConcat(s, [a], [b]);
    ExecOne(s, a);
    ExecOne(Exec(s, a), b);
  }

  lemma {:induction false} ExecThree(s: State, a: Move, b: Move, c: Move)
    ensures ExecAll(s, [a, b, c]) == Exec(Exec(Exec(s, a), b), c)
  {
    hide Exec;
    assert [a, b, c] == [a, b] + [c];
    ExecConcat(s, [a, b], [c]);
    ExecTwo(s, a, b);
    ExecOne(Exec(Exec(s, a), b), c);
  }

  // ---- The hardware module's sequential code is the other thread ----

  /** A move of anything but the hardware module's thread. */
  predicate OfOthers(move: Move) {
    move.OtherRequest? || move.VendorTake? || move.VendorProceed? || move.VendorReply?
  }

  lemma {:induction false} OthersKeepHwm(s: State, moves: seq<Move>)
    requires forall k :: 0 <= k < |moves| ==> OfOthers(moves[k])
    ensures ExecAll(s, moves).hwm == s.hwm && ExecAll(s, moves).namedHardware == s.namedHardware
    decreases |moves|
  {
    if moves != [] {
      OthersKeepHwm(Exec(s, moves[0]), moves[1..]);
    }
  }

  /** The outcome of the n-th service that ClearFaults calls. */
  function HwmOutcome(env: Environment, n: nat): Outcome {
    Call(env(n), Hwm.DISCOVER_MS, Hwm.REPLY_MS).outcome
  }

  /** The moves after the vendor's success, when the services behave as in `env`. */
  function ActivationMoves(named: bool, env: Environment): seq<Move> {
    if !named then [HwmReply(HwmOutcome(env, 1) == Accepted)]
    else if HwmOutcome(env, 1) != Accepted then [HwmReply(false)]
    else [HwmReply(true), HwmReply(HwmOutcome(env, 2) == Accepted)]
  }

  /** The moves of one ClearFaults; `others` happen while the vendor's recovery is awaited. */
  function HwmSchedule(named: bool, env: Environment, others: seq<Move>): seq<Move> {
    match HwmOutcome(env, 0)
    case NotAvailable => [HwmUnavailable]
    case TimedOut => [HwmRequest] + others + [HwmTimeout]
    case Refused => [HwmRequest] + others + [HwmReceive]
    case Accepted => [HwmRequest] + others + [HwmReceive] + ActivationMoves(named, env)
  }

  /** The state in which the hardware module stops waiting for the node. */
  function Awaited(s: State, others: seq<Move>): State {
    ExecAll(Exec(s, HwmRequest), others)
  }

  /** The thread finished its call number `id` with `ok`. */
  predicate Finished(s: State, id: nat, ok: bool) {
    s.hwm == HwmIdle && s.log != [] && s.log[|s.log| - 1] == Done(id, ok)
  }

  /** The sequential code is OK exactly when every service it needs accepted. */
  lemma {:induction false} ClearFaultsOkExactly(p: Hwm.HwmParams, env: Environment)
    requires p.hasClearFaultsService
    ensures Hwm.RunOf(p, Hwm.ClearFaults(env)).code == OK <==>
            && HwmOutcome(env, 0) == Accepted && HwmOutcome(env, 1) == Accepted
            && (p.hardwareComponentName != "" ==> HwmOutcome(env, 2) == Accepted)
  {
    hide RunSteps;
    var trigger, switch := Hwm.Request(Hwm.ClearFaultsTrigger), Hwm.Request(Hwm.ActivateRequest(p));
    Hwm.RunCons(trigger, Hwm.ActivationSteps(p), env, 0);
    if p.hardwareComponentName == "" {
      assert Hwm.ActivationSteps(p) == [switch];
      Hwm.RunOne(switch, env, 1);
    } else {
      Hwm.RunCons(Hwm.Request(Hwm.SetHwState(p.hardwareComponentName, true)), [switch], env, 1);
      Hwm.RunOne(switch, env, 2);
    }
  }

  lemma {:induction false} ActivationFinishes(s: State, named: bool, env: Environment, id: nat)
    requires s.namedHardware == named && s.hwm == if named then AwaitHwState(id) else AwaitSwitch(id)
    ensures Finished(ExecAll(s, ActivationMoves(named, env)), id,
                     HwmOutcome(env, 1) == Accepted && (named ==> HwmOutcome(env, 2) == Accepted))
  {
    var moves := ActivationMoves(named, env);
    if |moves| == 1 {
      assert moves == [moves[0]];
      ExecOne(s, moves[0]);
    } else {
      assert moves == [moves[0], moves[1]];
      ExecTwo(s, moves[0], moves[1]);
    }
  }

  /** One ClearFaults, with anything else happening while it waits for the node, ends with OK
      exactly when the sequential code returns OK for the same services. The node's answer is
      the environment's first one when the hardware module waited for it. */
  lemma {:induction false} HwmThreadRunsClearFaults(
      s: State, p: Hwm.HwmParams, env: Environment, others: seq<Move>)
    requires s.hwm.HwmIdle? && p.hasClearFaultsService && s.namedHardware == (p.hardwareComponentName != "")
    requires forall k :: 0 <= k < |others| ==> OfOthers(others[k])
    requires HwmOutcome(env, 0) in {Refused, Accepted} ==>
               && s.nextId in Awaited(s, others).responses
               && Awaited(s, others).responses[s.nextId] == (HwmOutcome(env, 0) == Accepted)
    ensures Finished(ExecAll(s, HwmSchedule(s.namedHardware, env, others)), s.nextId,
                     Hwm.RunOf(p, Hwm.ClearFaults(env)).code == OK)
  {
    ClearFaultsOkExactly(p, env);
    if HwmOutcome(env, 0) == NotAvailable {
      ExecOne(s, HwmUnavailable);
    } else {
      var waiting := Awaited(s, others);
      OthersKeepHwm(Exec(s, HwmRequest), others);
      assert waiting.hwm == AwaitVendor(s.nextId);
      RequestThen(s, others, if HwmOutcome(env, 0) == TimedOut then HwmTimeout else HwmReceive);
      if HwmOutcome(env, 0) == Accepted {
        ExecConcat(s, [HwmRequest] + others + [HwmReceive], ActivationMoves(s.namedHardware, env));
        ActivationFinishes(Exec(waiting, HwmReceive), s.namedHardware, env, s.nextId);
      }
    }
  }

  lemma {:induction false} RequestThen(s: State, others: seq<Move>, last: Move)
    ensures ExecAll(s, [HwmRequest] + others + [last]) == Exec(Awaited(s, others), last)
  {
    ExecConcat(s, [HwmRequest] + others, [last]);
    ExecConcat(s, [HwmRequest], others);
    ExecOne(s, HwmRequest);
    ExecOne(Awaited(s, others), last);
  }

  /** Both threads together: with an idle node and no other requests, the hardware module's
      recovery ends with OK exactly when its own code does, its first service being the node's. */
  lemma {:induction false} WholeRecovery(
      s: State, p: Hwm.HwmParams, env: Environment, vendorTimeoutMs: nat, vendorEnv: Environment)
    requires s.hwm.HwmIdle? && p.hasClearFaultsService && s.namedHardware == (p.hardwareComponentName != "")
    requires s.vendor.VendorIdle? && s.queue == []
    requires HwmOutcome(env, 0) ==
             if RunSteps(RecoverySteps(vendorTimeoutMs), vendorEnv).code == OK then Accepted else Refused
    ensures Finished(ExecAll(s, HwmSchedule(s.namedHardware, env, VendorSchedule(vendorTimeoutMs, vendorEnv))),
                     s.nextId, Hwm.RunOf(p, Hwm.ClearFaults(env)).code == OK)
  {
    hide RunSteps;
    ThreadRunsClearFaults(Exec(s, HwmRequest), vendorTimeoutMs, vendorEnv);
    HwmThreadRunsClearFaults(s, p, env, VendorSchedule(vendorTimeoutMs, vendorEnv));
  }
}
