/** The timer callback of IconHwmController beside the lifecycle calls, which run in another
    thread. The callback tests the runtime pointer without a lock, copies the recorded error under
    its mutex (or asks the runtime), and publishes after that. Its callback group keeps two
    callbacks from overlapping. A callback that was already picked may run after its timer was
    cancelled. */
module HwmStateTimer {
  import opened Messages
  import opened ErrorText
  import opened IconHwmController

  /** The fixed surroundings of a run: parameters, update rate, and what follows an ERROR. */
  datatype Setting = Setting(params: Params, updateRate: nat, recovers: bool)
  {
    ghost predicate PermittedCalls(calls: seq<Op>) {
      Permitted(params, updateRate, calls, recovers)
    }

    function After(calls: seq<Op>): ControllerState {
      IconHwmController.Run(params, updateRate, calls)
    }

    function StatesOfCall(calls: seq<Op>, k: nat): (states: seq<ControllerState>)
      requires k < |calls|
      ensures states != []
    {
      CallStates(params, updateRate, calls, k)
    }

    function StageOfCall(op: Op): Stage
      requires op.Configure?
    {
      StageOf(params, updateRate, op.env)
    }
  }

  /** Where the callback is. Instants count steps. `Undefined` is a use of the runtime after it
      was reset, from which C++ leaves everything open. */
  datatype TimerPhase =
    | Waiting
    | SawNone(checkedAt: nat)
    | SawRuntime(checkedAt: nat)
    | Sending(message: HardwareModuleState, fromError: bool, checkedAt: nat, copiedAt: nat)
    | Undefined

  datatype Publication = Publication(
    message: HardwareModuleState, fromError: bool, checkedAt: nat, copiedAt: nat, publishedAt: nat)

  /** The lifecycle thread has made assignment number `at` of the last of its calls. */
  datatype System = System(
    calls: seq<Op>, at: nat, timer: TimerPhase, published: seq<Publication>, clock: nat)
  {
    ghost predicate Valid(c: Setting) {
      && c.PermittedCalls(calls)
      && at < if calls == [] then 1 else |c.StatesOfCall(calls, |calls| - 1)|
    }

    /** The last call has returned (or there was none). */
    ghost predicate Returned(c: Setting) {
      calls == [] || at == |c.StatesOfCall(calls, |calls| - 1)| - 1
    }

    ghost function Current(c: Setting): ControllerState
      requires Valid(c)
    {
      if calls == [] then UNCONFIGURED else c.StatesOfCall(calls, |calls| - 1)[at]
    }
  }

  const START := System([], 0, Waiting, [], 0)

  /** `reported` is what a runtime that is asked for its state answers. */
  datatype Step =
    | Begin(op: Op)
    | Assign
    | Check
    | Copy(reported: Option<HardwareModuleState>)
    | Publish

  /** The lifecycle lets the call begin, which makes its first assignment. */
  ghost predicate MayBegin(c: Setting, s: System, op: Op)
    requires s.Valid(c)
  {
    s.Returned(c) && c.PermittedCalls(s.calls + [op])
  }

  ghost function AfterCopy(c: Setting, s: System, reported: Option<HardwareModuleState>): TimerPhase
    requires s.Valid(c)
  {
    var now := s.Current(c);
    match s.timer
    case SawNone(checkedAt) =>
      if now.initError.None? then Waiting else Sending(now.initError.value, true, checkedAt, s.clock)
    case SawRuntime(checkedAt) =>
      if now.holdings.runtime.None? then Undefined
      else if reported.None? then Waiting
      else Sending(HardwareModuleState(reported.value.code, Copied(reported.value.message)), false, checkedAt, s.clock)
    case _ => s.timer
  }

  /** One step; a step that is not possible in `s` only lets time pass. */
  ghost function Exec(c: Setting, s: System, step: Step): (t: System)
    requires s.Valid(c)
    ensures t.Valid(c) && t.clock == s.clock + 1
  {
    var t := s.(clock := s.clock + 1);
    match step
    case Begin(op) =>
      if MayBegin(c, s, op) then t.(calls := s.calls + [op], at := 0) else t
    case Assign =>
      if s.Returned(c) then t else t.(at := s.at + 1)
    case Check =>
      if !s.timer.Waiting? then t
      else if s.Current(c).holdings.runtime.None? then t.(timer := SawNone(s.clock))
      else t.(timer := SawRuntime(s.clock))
    case Copy(reported) =>
      t.(timer := AfterCopy(c, s, reported))
    case Publish =>
      if !s.timer.Sending? then t
      else
        var p := Publication(s.timer.message, s.timer.fromError, s.timer.checkedAt, s.timer.copiedAt, s.clock);
        t.(timer := Waiting, published := s.published + [p])
  }

  /** The system after any sequence of steps. */
  ghost function After(c: Setting, steps: seq<Step>): (s: System)
    ensures s.Valid(c) && s.clock == |steps|
  {
    if steps == [] then START
    else Exec(c, After(c, steps[..|steps| - 1]), steps[|steps| - 1])
  }

  /** The system at instant `k`. */
  ghost function At(c: Setting, steps: seq<Step>, k: nat): (s: System)
    requires k <= |steps|
    ensures s.Valid(c) && s.clock == k
  {
    After(c, steps[..k])
  }

  lemma {:induction false} AtNext(c: Setting, steps: seq<Step>, k: nat)
    requires k < |steps|
    ensures At(c, steps, k + 1) == Exec(c, At(c, steps, k), steps[k])
  {
    assert steps[..k + 1][..k] == steps[..k];
  }

  lemma {:induction false} AtEnd(c: Setting, steps: seq<Step>)
    ensures At(c, steps, |steps|) == After(c, steps)
  {
    assert steps[..|steps|] == steps;
  }

  lemma {:induction false} SamePlace(c: Setting, s: System, t: System)
    requires s.Valid(c) && t.Valid(c) && s.calls == t.calls && s.at == t.at
    ensures t.Current(c) == s.Current(c)
  {
    hide Setting.PermittedCalls, Setting.StatesOfCall;
  }

  // ---- A callback that is not interrupted ----

  /** Without interruption the callback publishes what `PublishCurrentHwmState` does. */
  lemma {:induction false} UninterruptedCallback(c: Setting, s: System, reported: Option<HardwareModuleState>)
    requires s.Valid(c) && s.timer == Waiting
    ensures var m := TimerMessage(s.Current(c), reported);
            var t := Exec(c, Exec(c, Exec(c, s, Check), Copy(reported)), Publish);
            && t.timer == Waiting && t.calls == s.calls && t.at == s.at
            && |t.published| == |s.published| + (if m.Some? then 1 else 0)
            && s.published <= t.published
            && (m.Some? ==> t.published[|s.published|].message == m.value)
  {
    hide Copied, MayBegin, System.Current, System.Valid, System.Returned;
    var a := Exec(c, s, Check);
    SamePlace(c, s, a);
  }

  // ---- Progress of the lifecycle thread ----

  /** `t` is not before `s` in the lifecycle thread. */
  predicate NotBefore(s: System, t: System) {
    s.calls <= t.calls && (s.calls == t.calls ==> s.at <= t.at)
  }

  lemma {:induction false} StepProgresses(c: Setting, s: System, step: Step)
    requires s.Valid(c)
    ensures NotBefore(s, Exec(c, s, step))
  {
    hide AfterCopy, MayBegin, System.Valid, System.Returned;
  }

  lemma {:induction false} SameIsNotBefore(s: System)
    ensures NotBefore(s, s)
  {
  }

  lemma {:induction false} NotBeforeTransitive(r: System, s: System, t: System)
    requires NotBefore(r, s) && NotBefore(s, t)
    ensures NotBefore(r, t)
  {
  }

  lemma {:induction false} Progress(c: Setting, steps: seq<Step>, a: nat, b: nat)
    requires a <= b <= |steps|
    ensures NotBefore(At(c, steps, a), At(c, steps, b))
    decreases b
  {
    hide *;
    if a == b {
      SameIsNotBefore(At(c, steps, a));
    } else {
      Progress(c, steps, a, b - 1);
      AtNext(c, steps, b - 1);
      StepProgresses(c, At(c, steps, b - 1), steps[b - 1]);
      NotBeforeTransitive(At(c, steps, a), At(c, steps, b - 1), At(c, steps, b));
    }
  }

  // ---- What the callback holds and has published ----

  /** A callback that holds an error saw no runtime, and then copied the error of its instant. */
  ghost predicate CopiedError(
      c: Setting, steps: seq<Step>, message: HardwareModuleState, checkedAt: nat, copiedAt: nat)
  {
    && checkedAt < copiedAt < |steps|
    && At(c, steps, checkedAt).Current(c).holdings.runtime.None?
    && At(c, steps, copiedAt).Current(c).initError == Some(message)
  }

  ghost predicate PhaseOk(c: Setting, steps: seq<Step>, phase: TimerPhase) {
    match phase
    case SawNone(a) => a < |steps| && At(c, steps, a).Current(c).holdings.runtime.None?
    case SawRuntime(a) => a < |steps| && At(c, steps, a).Current(c).holdings.runtime.Some?
    case Sending(m, fromError, a, b) => fromError ==> CopiedError(c, steps, m, a, b)
    case _ => true
  }

  ghost predicate PublicationOk(c: Setting, steps: seq<Step>, p: Publication) {
    p.fromError ==> p.publishedAt < |steps| && p.copiedAt < p.publishedAt
                    && CopiedError(c, steps, p.message, p.checkedAt, p.copiedAt)
  }

  /** How one step moves the callback. */
  ghost predicate PhaseAdvance(c: Setting, s: System, p: TimerPhase, q: TimerPhase)
    requires s.Valid(c)
  {
    var now := s.Current(c);
    || q == p || q == Waiting || q == Undefined
    || (q == SawNone(s.clock) && now.holdings.runtime.None?)
    || (q == SawRuntime(s.clock) && now.holdings.runtime.Some?)
    || (q.Sending? && !q.fromError)
    || (p.SawNone? && now.initError.Some? && q == Sending(now.initError.value, true, p.checkedAt, s.clock))
  }

  lemma {:induction false} ExecPhases(c: Setting, s: System, step: Step)
    requires s.Valid(c)
    ensures var t := Exec(c, s, step);
            && PhaseAdvance(c, s, s.timer, t.timer)
            && (|| t.published == s.published
                || (s.timer.Sending? && t.timer == Waiting
                    && t.published == s.published + [Publication(s.timer.message, s.timer.fromError,
                                                                 s.timer.checkedAt, s.timer.copiedAt, s.clock)]))
  {
  }

  /** Facts about earlier instants stay as the run goes on. */
  lemma {:induction false} Longer(c: Setting, steps: seq<Step>, step: Step)
    ensures forall k :: 0 <= k <= |steps| ==> At(c, steps + [step], k) == At(c, steps, k)
  {
    forall k | 0 <= k <= |steps| ensures At(c, steps + [step], k) == At(c, steps, k) {
      assert (steps + [step])[..k] == steps[..k];
    }
  }

  lemma {:induction false} PhaseOkStep(c: Setting, steps: seq<Step>, step: Step, p: TimerPhase, q: TimerPhase)
    requires PhaseOk(c, steps, p) && PhaseAdvance(c, After(c, steps), p, q)
    ensures PhaseOk(c, steps + [step], q)
  {
    hide After, At;
    Longer(c, steps, step);
    AtEnd(c, steps);
  }

  ghost predicate RunOk(c: Setting, steps: seq<Step>, s: System) {
    && PhaseOk(c, steps, s.timer)
    && (s.timer.Sending? && s.timer.fromError ==> s.timer.copiedAt < s.clock)
    && forall j :: 0 <= j < |s.published| ==> PublicationOk(c, steps, s.published[j])
  }

  lemma {:induction false} RunOkStep(c: Setting, steps: seq<Step>, step: Step)
    requires RunOk(c, steps, After(c, steps))
    ensures RunOk(c, steps + [step], Exec(c, After(c, steps), step))
  {
    hide At, After, Exec;
    var s := After(c, steps);
    var t := Exec(c, s, step);
    ExecPhases(c, s, step);
    PhaseOkStep(c, steps, step, s.timer, t.timer);
    Longer(c, steps, step);
    forall j | 0 <= j < |t.published| ensures PublicationOk(c, steps + [step], t.published[j]) {
      if j < |s.published| {
        assert PublicationOk(c, steps, s.published[j]);
      }
    }
  }

  lemma {:induction false} AfterSnoc(c: Setting, steps: seq<Step>, step: Step)
    ensures After(c, steps + [step]) == Exec(c, After(c, steps), step)
  {
    assert (steps + [step])[..|steps|] == steps;
  }

  lemma {:induction false} StartOk(c: Setting)
    ensures RunOk(c, [], After(c, []))
  {
  }

  lemma {:induction false} RunInvariant(c: Setting, steps: seq<Step>)
    ensures RunOk(c, steps, After(c, steps))
    decreases |steps|
  {
    hide *;
    if steps == [] {
      StartOk(c);
    } else {
      var earlier, step := steps[..|steps| - 1], steps[|steps| - 1];
      RunInvariant(c, earlier);
      RunOkStep(c, earlier, step);
      AfterSnoc(c, earlier, step);
      assert steps == earlier + [step];
    }
  }

  // ---- The recorded error at every instant ----

  /** The latest configuration that has begun, which failed. */
  ghost predicate LatestFailed(c: Setting, calls: seq<Op>) {
    var n := LatestConfigure(calls);
    n > 0 && c.StageOfCall(calls[n - 1]) != Configured
  }

  /** The error that the latest configuration that has begun records. */
  function LatestError(calls: seq<Op>): HardwareModuleState
    requires LatestConfigure(calls) > 0
  {
    ErrorOf(calls[LatestConfigure(calls) - 1].text)
  }

  lemma {:induction false} StatesOfConfigure(c: Setting, calls: seq<Op>, i: nat)
    requires calls != [] && calls[|calls| - 1].Configure?
    requires i < |c.StatesOfCall(calls, |calls| - 1)|
    ensures var op, states := calls[|calls| - 1], c.StatesOfCall(calls, |calls| - 1);
            states[i].initError ==
            if c.StageOfCall(op) != Configured && i == |states| - 1 then Some(ErrorOf(op.text)) else None
  {
    hide ErrorOf;
  }

  lemma {:induction false} StatesOfCleanup(c: Setting, calls: seq<Op>, i: nat)
    requires calls != [] && calls[|calls| - 1].Cleanup?
    requires i < |c.StatesOfCall(calls, |calls| - 1)|
    ensures c.StatesOfCall(calls, |calls| - 1)[i].initError == c.After(calls[..|calls| - 1]).initError
  {
  }

  /** The error that is recorded once all calls have returned. */
  ghost function FinalError(c: Setting, calls: seq<Op>): Option<HardwareModuleState> {
    if LatestFailed(c, calls) then Some(LatestError(calls)) else None
  }

  lemma {:induction false} ErrorAfterCalls(c: Setting, calls: seq<Op>)
    ensures c.After(calls).initError == FinalError(c, calls)
  {
    ErrorIsLatestFailure(c.params, c.updateRate, calls);
  }

  lemma {:induction false} CleanupKeepsLatest(c: Setting, calls: seq<Op>)
    requires calls != [] && calls[|calls| - 1].Cleanup?
    ensures FinalError(c, calls) == FinalError(c, calls[..|calls| - 1])
    ensures LatestConfigure(calls) < |calls|
  {
    hide ErrorOf;
  }

  lemma {:induction false} ConfigureIsLatest(c: Setting, calls: seq<Op>)
    requires calls != [] && calls[|calls| - 1].Configure?
    ensures LatestConfigure(calls) == |calls|
    ensures LatestFailed(c, calls) <==> c.StageOfCall(calls[|calls| - 1]) != Configured
    ensures LatestError(calls) == ErrorOf(calls[|calls| - 1].text)
  {
  }

  /** At every instant, also inside a call, the recorded error is that of the latest configuration
      that has begun, once that has failed and recorded it. */
  lemma {:induction false} CurrentError(c: Setting, s: System)
    requires s.Valid(c)
    ensures s.Current(c).initError ==
            if LatestConfigure(s.calls) < |s.calls| || s.Returned(c) then FinalError(c, s.calls) else None
  {
    if s.calls == [] {
    } else {
      hide ErrorOf, LatestConfigure, LatestError, Setting.StatesOfCall, Setting.After, Setting.PermittedCalls;
      if s.calls[|s.calls| - 1].Configure? {
        StatesOfConfigure(c, s.calls, s.at);
        ConfigureIsLatest(c, s.calls);
      } else {
        StatesOfCleanup(c, s.calls, s.at);
        CleanupKeepsLatest(c, s.calls);
        ErrorAfterCalls(c, s.calls[..|s.calls| - 1]);
      }
    }
  }

  /** A published error was recorded by the configuration that was the latest when the callback
      copied it, and there was no runtime when the callback began. */
  lemma {:induction false} PublishedErrorWasLatest(c: Setting, steps: seq<Step>, j: nat)
    requires j < |After(c, steps).published| && After(c, steps).published[j].fromError
    ensures var p := After(c, steps).published[j];
            && p.checkedAt < p.copiedAt < p.publishedAt < |steps|
            && At(c, steps, p.checkedAt).Current(c).holdings.runtime.None?
            && LatestFailed(c, At(c, steps, p.copiedAt).calls)
            && p.message == LatestError(At(c, steps, p.copiedAt).calls)
            && At(c, steps, p.copiedAt).Current(c).initError == Some(p.message)
  {
    hide At, After, LatestError, LatestFailed;
    RunInvariant(c, steps);
    var p := After(c, steps).published[j];
    assert PublicationOk(c, steps, p);
    CurrentError(c, At(c, steps, p.copiedAt));
  }

  // ---- Is it still the latest when it is published? ----

  /** A configuration has begun between the two instants. */
  ghost predicate ConfigureBegan(earlier: System, later: System)
  {
    exists k :: |earlier.calls| <= k < |later.calls| && later.calls[k].Configure?
  }

  lemma {:induction false} LatestOfLonger(calls: seq<Op>, longer: seq<Op>)
    requires calls <= longer
    ensures LatestConfigure(calls) <= LatestConfigure(longer)
    ensures LatestConfigure(longer) == LatestConfigure(calls) <==>
            forall k :: |calls| <= k < |longer| ==> !longer[k].Configure?
  {
    hide LatestConfigure;
    var m, n := LatestConfigure(calls), LatestConfigure(longer);
    assert forall k :: 0 <= k < |calls| ==> longer[k] == calls[k];
  }

  /** A published error is still that of the latest configuration when it is published exactly
      when no configuration began since it was copied; and then it is still recorded. */
  lemma {:induction false} StillLatestExactly(c: Setting, steps: seq<Step>, j: nat)
    requires j < |After(c, steps).published| && After(c, steps).published[j].fromError
    ensures var p := After(c, steps).published[j];
            && p.copiedAt < p.publishedAt < |steps|
            && var copied, sent := At(c, steps, p.copiedAt), At(c, steps, p.publishedAt);
            && (LatestConfigure(sent.calls) == LatestConfigure(copied.calls) <==> !ConfigureBegan(copied, sent))
            && (!ConfigureBegan(copied, sent) ==> sent.Current(c).initError == Some(p.message))
  {
    hide At, After, LatestError;
    PublishedErrorWasLatest(c, steps, j);
    var p := After(c, steps).published[j];
    var copied, sent := At(c, steps, p.copiedAt), At(c, steps, p.publishedAt);
    Progress(c, steps, p.copiedAt, p.publishedAt);
    LatestOfLonger(copied.calls, sent.calls);
    CurrentError(c, copied);
    if !ConfigureBegan(copied, sent) {
      StaysRecorded(c, copied, sent);
    }
  }

  lemma {:induction false} StaysRecorded(c: Setting, s: System, t: System)
    requires s.Valid(c) && t.Valid(c) && NotBefore(s, t) && !ConfigureBegan(s, t)
    requires s.Current(c).initError.Some?
    ensures t.Current(c).initError == s.Current(c).initError
  {
    hide *;
    CurrentError(c, s);
    CurrentError(c, t);
    SameFinalError(c, s, t);
    LatestStaysRecorded(c, s, t);
  }

  lemma {:induction false} SameFinalError(c: Setting, s: System, t: System)
    requires NotBefore(s, t) && !ConfigureBegan(s, t)
    ensures FinalError(c, t.calls) == FinalError(c, s.calls)
    ensures LatestConfigure(t.calls) == LatestConfigure(s.calls)
  {
    hide LatestConfigure, ErrorOf;
    LatestOfLonger(s.calls, t.calls);
    var n := LatestConfigure(s.calls);
    assert n > 0 ==> t.calls[n - 1] == s.calls[n - 1];
  }

  lemma {:induction false} LatestStaysRecorded(c: Setting, s: System, t: System)
    requires s.Valid(c) && t.Valid(c) && NotBefore(s, t) && LatestConfigure(t.calls) == LatestConfigure(s.calls)
    requires LatestConfigure(s.calls) < |s.calls| || s.Returned(c)
    ensures LatestConfigure(t.calls) < |t.calls| || t.Returned(c)
  {
    hide LatestConfigure, Setting.StatesOfCall, Setting.PermittedCalls;
  }

  // ---- Errors stay the latest exactly when an ERROR finalizes the node ----

  /** After a failed configuration the lifecycle lets no cleanup begin. */
  lemma {:induction false} FailedIsLast(c: Setting, calls: seq<Op>)
    requires c.PermittedCalls(calls) && LatestFailed(c, calls)
    ensures LatestConfigure(calls) == |calls|
    ensures LifecycleAfter(c.params, c.updateRate, calls, c.recovers) == if c.recovers then Unconfigured else Finalized
  {
    var n := LatestConfigure(calls);
  }

  lemma {:induction false} NothingAfterFinalized(c: Setting, calls: seq<Op>, longer: seq<Op>)
    requires c.PermittedCalls(longer) && calls <= longer
    requires LifecycleAfter(c.params, c.updateRate, calls, c.recovers) == Finalized
    ensures longer == calls
  {
    assert longer[..|calls|] == calls;
  }

  /** No configuration began between the copy of the error and its publish. */
  ghost predicate SentInTime(c: Setting, steps: seq<Step>, p: Publication) {
    && p.copiedAt <= |steps| && p.publishedAt <= |steps|
    && !ConfigureBegan(At(c, steps, p.copiedAt), At(c, steps, p.publishedAt))
  }

  ghost predicate ErrorsStayLatest(c: Setting) {
    forall steps, j :: 0 <= j < |After(c, steps).published| && After(c, steps).published[j].fromError ==>
      SentInTime(c, steps, After(c, steps).published[j])
  }

  lemma {:induction false} FinalErrorIsLatest(c: Setting, steps: seq<Step>, j: nat)
    requires !c.recovers && j < |After(c, steps).published| && After(c, steps).published[j].fromError
    ensures SentInTime(c, steps, After(c, steps).published[j])
  {
    hide At, After, LatestFailed, LatestError, LatestConfigure, Setting.PermittedCalls;
    PublishedErrorWasLatest(c, steps, j);
    var p := After(c, steps).published[j];
    var copied, sent := At(c, steps, p.copiedAt), At(c, steps, p.publishedAt);
    Progress(c, steps, p.copiedAt, p.publishedAt);
    FailedIsLast(c, copied.calls);
    NothingAfterFinalized(c, copied.calls, sent.calls);
  }

  /** A configuration that fails before it creates anything. */
  const FAILING := Configure(ConfigureEnv(false, None, false, false), [])

  lemma {:induction false} BeginEffect(c: Setting, s: System, op: Op)
    requires s.Valid(c) && MayBegin(c, s, op)
    ensures Exec(c, s, Begin(op)) == s.(clock := s.clock + 1, calls := s.calls + [op], at := 0)
  {
  }

  lemma {:induction false} AssignEffect(c: Setting, s: System)
    requires s.Valid(c)
    ensures Exec(c, s, Assign) == s.(clock := s.clock + 1, at := if s.Returned(c) then s.at else s.at + 1)
  {
  }

  lemma {:induction false} PublishEffect(c: Setting, s: System)
    requires s.Valid(c) && s.timer.Sending?
    ensures var p := Publication(s.timer.message, s.timer.fromError, s.timer.checkedAt, s.timer.copiedAt, s.clock);
            Exec(c, s, Publish) == s.(clock := s.clock + 1, timer := Waiting, published := s.published + [p])
  {
  }

  lemma {:induction false} FirstMayBegin(c: Setting, op: Op)
    requires op.Configure?
    ensures START.Valid(c) && MayBegin(c, START, op)
  {
    assert ([] + [op])[..0] == [];
  }

  lemma {:induction false} CallsMayGoOn(c: Setting, calls: seq<Op>, op: Op)
    requires c.PermittedCalls(calls)
    requires LifecycleAfter(c.params, c.updateRate, calls, c.recovers) ==
             if op.Configure? then Unconfigured else Inactive
    ensures c.PermittedCalls(calls + [op])
  {
    forall k | 0 <= k <= |calls| ensures (calls + [op])[..k] == calls[..k] {}
  }

  /** The first configuration has failed and recorded its error. */
  lemma {:induction false} AfterFailing(c: Setting)
    ensures After(c, [Begin(FAILING)] + [Assign] + [Assign]) == System([FAILING], 2, Waiting, [], 3)
    ensures |c.StatesOfCall([FAILING], 0)| == 3
    ensures c.After([FAILING]) == c.StatesOfCall([FAILING], 0)[2]
    ensures c.StatesOfCall([FAILING], 0)[2] ==
            ControllerState(Holdings(None, None), Some(ErrorOf([])), true)
  {
    hide ErrorOf;
    assert [FAILING][..0] == [];
    FirstMayBegin(c, FAILING);
    hide Exec, Setting.PermittedCalls;
    AfterSnoc(c, [], Begin(FAILING));
    assert [] + [Begin(FAILING)] == [Begin(FAILING)];
    BeginEffect(c, START, FAILING);
    AfterSnoc(c, [Begin(FAILING)], Assign);
    AssignEffect(c, After(c, [Begin(FAILING)]));
    AfterSnoc(c, [Begin(FAILING)] + [Assign], Assign);
    AssignEffect(c, After(c, [Begin(FAILING)] + [Assign]));
  }

  /** The callback has copied the first error. */
  function FirstCopied(): seq<Step> {
    [Begin(FAILING)] + [Assign] + [Assign] + [Check] + [Copy(None)]
  }

  lemma {:induction false} CheckAndCopyError(c: Setting, s: System)
    requires s.Valid(c) && s.timer == Waiting
    requires s.Current(c).holdings.runtime.None? && s.Current(c).initError.Some?
    ensures var error := s.Current(c).initError.value;
            Exec(c, Exec(c, s, Check), Copy(None)) ==
            s.(clock := s.clock + 2, timer := Sending(error, true, s.clock, s.clock + 1))
  {
    hide Copied, MayBegin, System.Current, System.Valid, System.Returned;
    SamePlace(c, s, Exec(c, s, Check));
  }

  lemma {:induction false} AfterFirstCopied(c: Setting)
    ensures After(c, FirstCopied()) == System([FAILING], 2, Sending(ErrorOf([]), true, 3, 4), [], 5)
    ensures After(c, FirstCopied()[..4]).calls == [FAILING]
  {
    hide After, Exec, ErrorOf;
    var a := [Begin(FAILING)] + [Assign] + [Assign];
    AfterFailing(c);
    CheckAndCopyError(c, After(c, a));
    AfterSnoc(c, a, Check);
    AfterSnoc(c, a + [Check], Copy(None));
    assert FirstCopied()[..4] == a + [Check];
    StepProgresses(c, After(c, a), Check);
    StepProgresses(c, After(c, a + [Check]), Copy(None));
  }

  /** Then a second configuration has begun and made its assignments. */
  function SecondMade(op: Op): seq<Step> {
    FirstCopied() + [Begin(op)] + [Assign] + [Assign] + [Assign]
  }

  lemma {:induction false} SecondMayBegin(c: Setting, op: Op, s: System)
    requires c.recovers && op.Configure?
    requires s.Valid(c) && s.calls == [FAILING] && s.at == 2
    ensures MayBegin(c, s, op)
  {
    AfterFailing(c);
    CallsMayGoOn(c, [FAILING], op);
  }

  lemma {:induction false} AfterSecondMade(c: Setting, op: Op)
    requires c.recovers && op.Configure?
    ensures var s, t := After(c, FirstCopied()), After(c, SecondMade(op));
            t == s.(calls := [FAILING, op], at := t.at, clock := 9)
    ensures |c.StatesOfCall([FAILING, op], 1)| == 4 ==> After(c, SecondMade(op)).at == 3
  {
    hide After, Exec, ErrorOf, Setting.StatesOfCall;
    AfterFirstCopied(c);
    SecondMayBegin(c, op, After(c, FirstCopied()));
    AfterSnoc(c, FirstCopied(), Begin(op));
    BeginEffect(c, After(c, FirstCopied()), op);
    assert [FAILING] + [op] == [FAILING, op];
    var d := FirstCopied() + [Begin(op)];
    AfterSnoc(c, d, Assign);
    AssignEffect(c, After(c, d));
    AfterSnoc(c, d + [Assign], Assign);
    AssignEffect(c, After(c, d + [Assign]));
    AfterSnoc(c, d + [Assign] + [Assign], Assign);
    AssignEffect(c, After(c, d + [Assign] + [Assign]));
  }

  lemma {:induction false} ConfiguredStates(c: Setting, calls: seq<Op>)
    requires calls != [] && calls[|calls| - 1].Configure? && c.StageOfCall(calls[|calls| - 1]) == Configured
    ensures var states := c.StatesOfCall(calls, |calls| - 1);
            |states| == 4 && states[3].initError.None? && states[3].holdings.runtime.Some?
  {
  }

  /** With recovery after errors, a callback can copy the first error and publish it after a
      second configuration has begun, and even succeeded. */
  lemma {:induction false} StaleError(c: Setting, op: Op) returns (steps: seq<Step>)
    requires c.recovers && op.Configure?
    ensures var s := After(c, steps);
            && s.calls == [FAILING, op] && |s.published| == 1
            && s.published[0].fromError && s.published[0].message == ErrorOf([])
            && !SentInTime(c, steps, s.published[0])
            && (c.StageOfCall(op) == Configured ==>
                  s.Current(c).initError.None? && s.Current(c).holdings.runtime.Some?)
  {
    hide After, Exec, ErrorOf, Setting.StatesOfCall;
    var made := SecondMade(op);
    steps := made + [Publish];
    AfterFirstCopied(c);
    AfterSecondMade(c, op);
    AfterSnoc(c, made, Publish);
    PublishEffect(c, After(c, made));
    assert steps[..4] == FirstCopied()[..4] && steps[..9] == made;
    assert [FAILING, op][1] == op;
    assert ConfigureBegan(At(c, steps, 4), At(c, steps, 9));
    if c.StageOfCall(op) == Configured {
      ConfiguredStates(c, [FAILING, op]);
    }
  }

  /** Every published error is still that of the latest configuration, in every run, exactly when
      an ERROR finalizes the node. */
  lemma {:induction false} ErrorsStayLatestExactly(c: Setting)
    ensures ErrorsStayLatest(c) <==> !c.recovers
  {
    hide After, SentInTime;
    if c.recovers {
      var steps := StaleError(c, FAILING);
      assert !SentInTime(c, steps, After(c, steps).published[0]);
    } else {
      forall steps, j | 0 <= j < |After(c, steps).published| && After(c, steps).published[j].fromError
        ensures SentInTime(c, steps, After(c, steps).published[j])
      {
        FinalErrorIsLatest(c, steps, j);
      }
    }
  }

  // ---- The error of a runtime that could not be started ----

  /** The assignments of a configuration that stores its runtime and fails to start it: clear the
      error, create the timer, assign the clock, store the runtime, record the error. */
  const STORES := 3
  const RECORDS := 4

  lemma {:induction false} NotStartedStates(c: Setting, calls: seq<Op>)
    requires calls != [] && calls[|calls| - 1].Configure? && c.StageOfCall(calls[|calls| - 1]) == NotStarted
    ensures var states := c.StatesOfCall(calls, |calls| - 1);
            && |states| == RECORDS + 1
            && (forall i :: STORES <= i < |states| ==> states[i].holdings.runtime.Some?)
            && (c.After(calls[..|calls| - 1]).holdings.runtime.None? ==>
                  forall i :: 0 <= i < STORES ==> states[i].holdings.runtime.None?)
  {
    hide ErrorOf;
  }

  /** The last call is a configuration that does not start its runtime. */
  ghost predicate NotStarting(c: Setting, s: System) {
    && s.calls != [] && s.calls[|s.calls| - 1].Configure?
    && c.StageOfCall(s.calls[|s.calls| - 1]) == NotStarted
  }

  /** During a configuration that stores its runtime and fails to start it, a callback copies its
      error exactly when there was no runtime at its check and the error is recorded at its copy;
      and for a clean configuration that began before the check, exactly when the check precedes
      the store and the copy follows the record. */
  lemma {:induction false} NotStartedCopiedExactly(c: Setting, steps: seq<Step>, reported: Option<HardwareModuleState>)
    requires var s := After(c, steps); (s.timer.SawNone? || s.timer.SawRuntime?) && NotStarting(c, s)
    ensures var s := After(c, steps);
            && s.timer.checkedAt < |steps|
            && var checked := At(c, steps, s.timer.checkedAt);
               var phase := AfterCopy(c, s, reported);
            && (phase.Sending? && phase.fromError <==>
                checked.Current(c).holdings.runtime.None? && s.at == RECORDS)
            && (phase.Sending? && phase.fromError ==> phase.message == ErrorOf(s.calls[|s.calls| - 1].text))
            && (checked.calls == s.calls && c.After(s.calls[..|s.calls| - 1]).holdings.runtime.None? ==>
                  (phase.Sending? && phase.fromError <==> checked.at < STORES && s.at == RECORDS))
  {
    hide After, At, ErrorOf, Setting.StatesOfCall, Setting.After;
    var s := After(c, steps);
    RunInvariant(c, steps);
    NotStartedStates(c, s.calls);
    CurrentError(c, s);
    ConfigureIsLatest(c, s.calls);
  }

  /** A published error of a runtime that could not be started comes from a callback whose check
      preceded the store and whose copy followed the record. */
  lemma {:induction false} PublishedNotStarted(c: Setting, steps: seq<Step>, j: nat)
    requires j < |After(c, steps).published| && After(c, steps).published[j].fromError
    requires After(c, steps).published[j].copiedAt <= |steps|
    requires var copied := At(c, steps, After(c, steps).published[j].copiedAt);
             LatestConfigure(copied.calls) > 0
             && c.StageOfCall(copied.calls[LatestConfigure(copied.calls) - 1]) == NotStarted
    ensures var p := After(c, steps).published[j];
            && p.checkedAt < p.copiedAt <= |steps|
            && var checked, copied := At(c, steps, p.checkedAt), At(c, steps, p.copiedAt);
            && NotStarting(c, copied) && copied.at == RECORDS
            && (checked.calls == copied.calls ==> checked.at < STORES)
  {
    hide After, At, ErrorOf, LatestConfigure, Setting.StatesOfCall, Setting.After, Setting.PermittedCalls;
    PublishedErrorWasLatest(c, steps, j);
    var p := After(c, steps).published[j];
    var checked, copied := At(c, steps, p.checkedAt), At(c, steps, p.copiedAt);
    FailedIsLast(c, copied.calls);
    CurrentError(c, copied);
    NotStartedStates(c, copied.calls);
    Progress(c, steps, p.checkedAt, p.copiedAt);
  }

  // ---- A runtime that was seen, when it is used ----

  ghost predicate HasRuntime(c: Setting, s: System)
    requires s.Valid(c)
  {
    s.Current(c).holdings.runtime.Some?
  }

  lemma {:induction false} CurrentWhenReturned(c: Setting, s: System)
    requires s.Valid(c) && s.Returned(c)
    ensures s.Current(c) == c.After(s.calls)
  {
  }

  lemma {:induction false} BeginKeepsHoldings(c: Setting, calls: seq<Op>, op: Op)
    ensures c.StatesOfCall(calls + [op], |calls|)[0].holdings == c.After(calls).holdings
  {
    assert (calls + [op])[..|calls|] == calls;
  }

  /** The last call is a cleanup whose Stop succeeded and which is about to reset the runtime. */
  predicate AboutToReset(s: System) {
    s.calls != [] && s.calls[|s.calls| - 1] == Cleanup(true) && s.at == 0
  }

  /** The last call is a configuration that is about to store its runtime. */
  predicate AboutToStore(c: Setting, s: System) {
    && s.calls != [] && s.calls[|s.calls| - 1].Configure? && s.at == STORES - 1
    && ReachesRuntime(c.StageOfCall(s.calls[|s.calls| - 1]))
  }

  lemma {:induction false} RuntimeOfStates(c: Setting, calls: seq<Op>, i: nat)
    requires calls != [] && i + 1 < |c.StatesOfCall(calls, |calls| - 1)|
    ensures var states, op := c.StatesOfCall(calls, |calls| - 1), calls[|calls| - 1];
            var before, after := states[i].holdings.runtime, states[i + 1].holdings.runtime;
            && (before.Some? && after.None? ==> op == Cleanup(true) && i == 0)
            && (before.None? && after.Some? ==>
                  op.Configure? && ReachesRuntime(c.StageOfCall(op)) && i == STORES - 1)
  {
    hide ErrorOf;
  }

  /** Only a cleanup's second assignment takes the runtime away, and only a configuration's fourth
      one stores it. */
  lemma {:induction false} WhoChangesRuntime(c: Setting, s: System, step: Step)
    requires s.Valid(c)
    ensures HasRuntime(c, s) && !HasRuntime(c, Exec(c, s, step)) ==> step.Assign? && AboutToReset(s)
    ensures !HasRuntime(c, s) && HasRuntime(c, Exec(c, s, step)) ==> step.Assign? && AboutToStore(c, s)
  {
    hide Setting.StatesOfCall, Setting.After, Setting.PermittedCalls, AfterCopy;
    var t := Exec(c, s, step);
    match step {
      case Begin(op) =>
        if MayBegin(c, s, op) {
          CurrentWhenReturned(c, s);
          BeginKeepsHoldings(c, s.calls, op);
        }
      case Assign =>
        if !s.Returned(c) {
          RuntimeOfStates(c, s.calls, s.at);
        }
      case _ =>
        SamePlace(c, s, t);
    }
  }

  /** Step `k` is the assignment by which a cleanup resets the runtime. */
  ghost predicate ResetsAt(c: Setting, steps: seq<Step>, k: nat)
    requires k < |steps|
  {
    steps[k].Assign? && AboutToReset(At(c, steps, k)) && HasRuntime(c, At(c, steps, k))
  }

  /** Step `k` is the assignment by which a configuration stores a runtime. */
  ghost predicate StoresAt(c: Setting, steps: seq<Step>, k: nat)
    requires k < |steps|
  {
    steps[k].Assign? && AboutToStore(c, At(c, steps, k))
  }

  lemma {:induction false} ResetEffect(c: Setting, s: System)
    requires s.Valid(c) && AboutToReset(s) && HasRuntime(c, s)
    ensures !HasRuntime(c, Exec(c, s, Assign))
  {
    var n := |s.calls| - 1;
    var before := c.After(s.calls[..n]);
    assert c.StatesOfCall(s.calls, n) == StatesOf(before, c.params, c.updateRate, Cleanup(true));
    assert LifecycleAfter(c.params, c.updateRate, s.calls[..n], c.recovers) == Inactive;
    InactiveHasTimer(c, s.calls[..n]);
  }

  lemma {:induction false} InactiveHasTimer(c: Setting, calls: seq<Op>)
    requires LifecycleAfter(c.params, c.updateRate, calls, c.recovers) == Inactive
    ensures c.After(calls).timerLive
  {
  }

  lemma {:induction false} StoreEffect(c: Setting, s: System)
    requires s.Valid(c) && AboutToStore(c, s)
    ensures HasRuntime(c, Exec(c, s, Assign))
  {
    hide ErrorOf, Setting.PermittedCalls;
  }

  lemma {:induction false} RuntimeStep(c: Setting, steps: seq<Step>, k: nat)
    requires k < |steps|
    ensures ResetsAt(c, steps, k) ==> !HasRuntime(c, At(c, steps, k + 1))
    ensures StoresAt(c, steps, k) ==> HasRuntime(c, At(c, steps, k + 1))
    ensures !ResetsAt(c, steps, k) && !StoresAt(c, steps, k) ==>
              HasRuntime(c, At(c, steps, k + 1)) == HasRuntime(c, At(c, steps, k))
  {
    hide At, Exec, AboutToReset, AboutToStore, HasRuntime;
    var s := At(c, steps, k);
    AtNext(c, steps, k);
    WhoChangesRuntime(c, s, steps[k]);
    if ResetsAt(c, steps, k) {
      ResetEffect(c, s);
    }
    if StoresAt(c, steps, k) {
      StoreEffect(c, s);
    }
  }

  /** Between `a` and `b` a cleanup reset the runtime and no configuration stored one after that. */
  ghost predicate ResetBetween(c: Setting, steps: seq<Step>, a: nat, b: nat)
    requires b <= |steps|
  {
    exists k :: a <= k < b && ResetsAt(c, steps, k) && forall l :: k < l < b ==> !StoresAt(c, steps, l)
  }

  lemma {:induction false} LaterResetBetween(c: Setting, steps: seq<Step>, a: nat, b: nat)
    requires a < b <= |steps|
    ensures ResetBetween(c, steps, a, b) <==>
            ResetsAt(c, steps, b - 1) || (ResetBetween(c, steps, a, b - 1) && !StoresAt(c, steps, b - 1))
  {
    hide ResetsAt, StoresAt;
    if ResetsAt(c, steps, b - 1) {
    } else if ResetBetween(c, steps, a, b - 1) && !StoresAt(c, steps, b - 1) {
      var k :| a <= k < b - 1 && ResetsAt(c, steps, k) && forall l :: k < l < b - 1 ==> !StoresAt(c, steps, l);
      assert forall l :: k < l < b ==> !StoresAt(c, steps, l);
    }
  }

  lemma {:induction false} NothingBetween(c: Setting, steps: seq<Step>, a: nat)
    requires a <= |steps|
    ensures !ResetBetween(c, steps, a, a)
  {
    hide ResetsAt, StoresAt;
  }

  lemma {:induction false} RuntimeGoneExactly(c: Setting, steps: seq<Step>, a: nat, b: nat)
    requires a <= b <= |steps| && HasRuntime(c, At(c, steps, a))
    ensures !HasRuntime(c, At(c, steps, b)) <==> ResetBetween(c, steps, a, b)
    decreases b
  {
    hide *;
    if a == b {
      NothingBetween(c, steps, a);
    } else {
      RuntimeGoneExactly(c, steps, a, b - 1);
      RuntimeStep(c, steps, b - 1);
      LaterResetBetween(c, steps, a, b);
      NotBoth(c, steps, b - 1);
    }
  }

  lemma {:induction false} NotBoth(c: Setting, steps: seq<Step>, k: nat)
    requires k < |steps|
    ensures !(ResetsAt(c, steps, k) && StoresAt(c, steps, k))
  {
    hide At, HasRuntime;
  }

  /** A callback that saw a runtime finds none when it uses it exactly when in between a cleanup
      reset it and no configuration stored another; in particular never without a cleanup. */
  lemma {:induction false} SeenRuntimeIsGoneExactly(c: Setting, steps: seq<Step>, reported: Option<HardwareModuleState>)
    requires After(c, steps).timer.SawRuntime?
    ensures var s := After(c, steps);
            && s.timer.checkedAt < |steps|
            && (AfterCopy(c, s, reported) == Undefined <==> ResetBetween(c, steps, s.timer.checkedAt, |steps|))
  {
    hide After, At, ResetBetween;
    RunInvariant(c, steps);
    AtEnd(c, steps);
    RuntimeGoneExactly(c, steps, After(c, steps).timer.checkedAt, |steps|);
  }

  /** A configuration that succeeds. */
  const SUCCEEDING := Configure(ConfigureEnv(true, Some(0), true, true), [])

  lemma {:induction false} AfterSucceeding(c: Setting)
    requires ParamsAccepted(c.params, c.updateRate) && c.params.drivesRealtimeClock
    ensures var s := After(c, [Begin(SUCCEEDING)] + [Assign] + [Assign] + [Assign]);
            && s == System([SUCCEEDING], 3, Waiting, [], 4) && s.Returned(c) && HasRuntime(c, s)
  {
    hide Exec, Setting.StatesOfCall, Setting.PermittedCalls, HasRuntime;
    assert [SUCCEEDING][0] == SUCCEEDING;
    FirstMayBegin(c, SUCCEEDING);
    BeginEffect(c, START, SUCCEEDING);
    ConfiguredStates(c, [SUCCEEDING]);
    var a := [Begin(SUCCEEDING)];
    AfterSnoc(c, [], Begin(SUCCEEDING));
    assert [] + a == a && [] + [SUCCEEDING] == [SUCCEEDING];
    AfterSnoc(c, a, Assign);
    AssignEffect(c, After(c, a));
    AfterSnoc(c, a + [Assign], Assign);
    AssignEffect(c, After(c, a + [Assign]));
    AfterSnoc(c, a + [Assign] + [Assign], Assign);
    AssignEffect(c, After(c, a + [Assign] + [Assign]));
    LastHasRuntime(c, After(c, a + [Assign] + [Assign] + [Assign]));
  }

  lemma {:induction false} LastHasRuntime(c: Setting, s: System)
    requires s.Valid(c) && s.calls == [SUCCEEDING] && s.at == 3
    requires ParamsAccepted(c.params, c.updateRate) && c.params.drivesRealtimeClock
    ensures HasRuntime(c, s)
  {
    hide Setting.StatesOfCall, Setting.PermittedCalls;
    ConfiguredStates(c, [SUCCEEDING]);
  }

  lemma {:induction false} SeesRuntime(c: Setting, s: System)
    requires s.Valid(c) && s.timer == Waiting && HasRuntime(c, s)
    ensures Exec(c, s, Check) == s.(clock := s.clock + 1, timer := SawRuntime(s.clock))
  {
  }

  lemma {:induction false} CleanupMayBegin(c: Setting, s: System)
    requires s.Valid(c) && s.Returned(c) && s.calls == [SUCCEEDING]
    requires ParamsAccepted(c.params, c.updateRate) && c.params.drivesRealtimeClock
    ensures MayBegin(c, s, Cleanup(true))
  {
    CallsMayGoOn(c, s.calls, Cleanup(true));
  }

  lemma {:induction false} CleanupStillHasRuntime(c: Setting, s: System)
    requires s.Valid(c) && s.calls == [SUCCEEDING, Cleanup(true)] && s.at == 0
    requires c.After([SUCCEEDING]).holdings.runtime.Some?
    ensures HasRuntime(c, s) && !s.Returned(c)
  {
    assert s.calls[..1] == [SUCCEEDING];
    assert LifecycleAfter(c.params, c.updateRate, s.calls[..1], c.recovers) == Inactive;
    InactiveHasTimer(c, s.calls[..1]);
  }

  /** A cleanup does not wait for a callback that has seen the runtime: whenever a configuration
      can succeed, the runtime can be gone when it is used. */
  lemma {:induction false} CleanupUnderCallback(c: Setting) returns (steps: seq<Step>)
    requires ParamsAccepted(c.params, c.updateRate) && c.params.drivesRealtimeClock
    ensures After(c, steps).timer.SawRuntime?
    ensures forall reported :: AfterCopy(c, After(c, steps), reported) == Undefined
  {
    hide After, Exec, HasRuntime, System.Returned;
    var a := [Begin(SUCCEEDING)] + [Assign] + [Assign] + [Assign];
    AfterSucceeding(c);
    var s := After(c, a);
    CurrentWhenReturned(c, s);
    AfterSnoc(c, a, Check);
    SeesRuntime(c, s);
    var t := After(c, a + [Check]);
    ReturnedStays(c, s, t);
    CleanupMayBegin(c, t);
    AfterSnoc(c, a + [Check], Begin(Cleanup(true)));
    BeginEffect(c, t, Cleanup(true));
    assert [SUCCEEDING] + [Cleanup(true)] == [SUCCEEDING, Cleanup(true)];
    var d := a + [Check] + [Begin(Cleanup(true))];
    HoldsRuntime(c, s);
    CleanupStillHasRuntime(c, After(c, d));
    steps := d + [Assign];
    AfterSnoc(c, d, Assign);
    AssignEffect(c, After(c, d));
    ResetEffect(c, After(c, d));
    GoneWhenUsed(c, After(c, steps));
  }

  lemma {:induction false} ReturnedStays(c: Setting, s: System, t: System)
    requires s.calls == t.calls && s.at == t.at && s.Returned(c)
    ensures t.Returned(c)
  {
  }

  lemma {:induction false} HoldsRuntime(c: Setting, s: System)
    requires s.Valid(c) && s.Returned(c) && HasRuntime(c, s)
    ensures c.After(s.calls).holdings.runtime.Some?
  {
    CurrentWhenReturned(c, s);
  }

  lemma {:induction false} GoneWhenUsed(c: Setting, s: System)
    requires s.Valid(c) && !HasRuntime(c, s) && s.timer.SawRuntime?
    ensures forall reported :: AfterCopy(c, s, reported) == Undefined
  {
  }
}
