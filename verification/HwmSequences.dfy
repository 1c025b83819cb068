/** The request sequences that Ros2HwmImpl drives, and what holds over whole runs of
    `Prepare`, `ClearFaults` and `Shutdown`. */
module HwmSequences {
  import opened Messages
  import opened ServiceCalls
  import opened HwmSpec

  datatype HwmParams = HwmParams(
    hardwareComponentName: string,
    numDofs: nat,
    stateStride: nat,
    commandStride: nat,
    hasClearFaultsService: bool,
    controllersToActivate: seq<string>,
    controllersToDeactivate: seq<string>,
    hasClock: bool,
    hasStateInterfaces: bool,
    hasCommandInterfaces: bool)
  {
    function StateLayout(): Layout { Layout(numDofs, stateStride) }
    function CommandLayout(): Layout { Layout(numDofs, commandStride) }
  }

  datatype HwmRequest =
    | ClearFaultsTrigger
    | SetHwState(name: string, active: bool)
    | SwitchController(activate: seq<string>, deactivate: seq<string>)

  type HwmEvent = Event<HwmRequest>

  /** `wait_for_service` gets one second, a reply five. */
  const DISCOVER_MS := 1000
  const REPLY_MS := 5000

  function Request(r: HwmRequest): Step<HwmRequest> {
    Step(r, 0, DISCOVER_MS, REPLY_MS, if r.SwitchController? then DEADLINE_EXCEEDED else UNAVAILABLE)
  }

  function ActivateRequest(p: HwmParams): HwmRequest {
    SwitchController(p.controllersToActivate, p.controllersToDeactivate)
  }

  function SwappedRequest(p: HwmParams): HwmRequest {
    SwitchController(p.controllersToDeactivate, p.controllersToActivate)
  }

  /** The hardware state request, for a named hardware component. */
  function HwStateSteps(p: HwmParams, active: bool): seq<Step<HwmRequest>> {
    if p.hardwareComponentName == "" then [] else [Request(SetHwState(p.hardwareComponentName, active))]
  }

  function ActivationSteps(p: HwmParams): seq<Step<HwmRequest>> {
    HwStateSteps(p, true) + [Request(ActivateRequest(p))]
  }

  function ClearFaultsSteps(p: HwmParams): seq<Step<HwmRequest>> {
    (if p.hasClearFaultsService then [Request(ClearFaultsTrigger)] else []) + ActivationSteps(p)
  }

  function ShutdownSteps(p: HwmParams): seq<Step<HwmRequest>> {
    [Request(SwappedRequest(p))] + HwStateSteps(p, false)
  }

  /** The time that a clock has for being reset. */
  const CLOCK_MS := 20000

  /** How resetting the clock ends, and the time that it takes. */
  datatype ClockReset = ClockReset(code: StatusCode, tookMs: nat)
  {
    /** Resetting keeps to its timeout. */
    predicate InTime() { tookMs <= CLOCK_MS }
  }

  /** A call of one of the three sequences, with the reset of the clock (if there is a clock). */
  datatype HwmCall =
    | Prepare(clockReset: ClockReset, env: Environment)
    | ClearFaults(env: Environment)
    | Shutdown(clockReset: ClockReset, env: Environment)

  function AfterClock(p: HwmParams, reset: ClockReset, steps: seq<Step<HwmRequest>>, env: Environment)
    : RunResult<HwmRequest>
  {
    if !p.hasClock then RunSteps(steps, env)
    else if reset.code != OK then RunResult(reset.code, [], reset.tookMs)
    else
      var r := RunSteps(steps, env);
      r.(waitedMs := reset.tookMs + r.waitedMs)
  }

  function RunOf(p: HwmParams, call: HwmCall): RunResult<HwmRequest> {
    match call
    case Prepare(clockReset, env) => AfterClock(p, clockReset, ActivationSteps(p), env)
    case ClearFaults(env) => RunSteps(ClearFaultsSteps(p), env)
    case Shutdown(clockReset, env) => AfterClock(p, clockReset, ShutdownSteps(p), env)
  }

  /** The requests issued by a run of calls, with their outcomes. */
  function LogOf(p: HwmParams, calls: seq<HwmCall>): seq<HwmEvent> {
    if calls == [] then []
    else LogOf(p, calls[..|calls| - 1]) + RunOf(p, calls[|calls| - 1]).events
  }

  lemma {:induction false} RunCons<R>(step: Step<R>, rest: seq<Step<R>>, env: Environment, first: nat)
    ensures var reply := Call(env(first), step.discoverMs, step.replyMs);
            var tail := RunSteps(rest, env, first + 1);
            var event := Event(step.request, reply.outcome);
            RunSteps([step] + rest, env, first) ==
            if reply.outcome == Accepted
            then RunResult(tail.code, [event] + tail.events, step.pauseMs + reply.waitedMs + tail.waitedMs)
            else RunResult(step.Code(reply.outcome), [event], step.pauseMs + reply.waitedMs)
  {
    assert ([step] + rest)[1..] == rest;
  }

  lemma {:induction false} RunOne<R>(step: Step<R>, env: Environment, first: nat)
    ensures var reply := Call(env(first), step.discoverMs, step.replyMs);
            RunSteps([step], env, first) ==
            RunResult(step.Code(reply.outcome), [Event(step.request, reply.outcome)], step.pauseMs + reply.waitedMs)
  {
    RunCons(step, [], env, first);
    assert [step] + [] == [step];
  }

  /** A shutdown stops at a switch that is not accepted, and otherwise goes on with the hardware state. */
  lemma {:induction false} ShutdownRun(p: HwmParams, env: Environment)
    ensures var switch := RunSteps([Request(SwappedRequest(p))], env, 0);
            var state := RunSteps(HwStateSteps(p, false), env, 1);
            RunSteps(ShutdownSteps(p), env) ==
            if switch.code != OK then switch
            else RunResult(state.code, switch.events + state.events, switch.waitedMs + state.waitedMs)
  {
    RunCons(Request(SwappedRequest(p)), HwStateSteps(p, false), env, 0);
    RunOne(Request(SwappedRequest(p)), env, 0);
  }

  // ---- The calls, request by request ----

  /** `r` is the run of one service call with this request, reported as `unavailable` when the
      service is not there within a second and as a timeout when it does not reply within five. */
  ghost predicate OneCall(r: RunResult<HwmRequest>, request: HwmRequest, b: Behaviour, unavailable: ErrorCode) {
    if b.appearsAfterMs > 1000 then
      r == RunResult(unavailable, [Event(request, NotAvailable)], 1000)
    else if b.repliesAfterMs > 5000 then
      r == RunResult(DEADLINE_EXCEEDED, [Event(request, TimedOut)], b.appearsAfterMs + 5000)
    else if b.success then
      r == RunResult(OK, [Event(request, Accepted)], b.appearsAfterMs + b.repliesAfterMs)
    else
      r == RunResult(INTERNAL, [Event(request, Refused)], b.appearsAfterMs + b.repliesAfterMs)
  }

  /** `r` is `a`, followed by `b` if `a` is OK. */
  ghost predicate Followed(r: RunResult<HwmRequest>, a: RunResult<HwmRequest>, b: RunResult<HwmRequest>) {
    if a.code == OK then r == RunResult(b.code, a.events + b.events, a.waitedMs + b.waitedMs) else r == a
  }

  lemma {:induction false} OneStep(request: HwmRequest, env: Environment, n: nat)
    ensures OneCall(RunSteps([Request(request)], env, n), request, env(n),
                    if request.SwitchController? then DEADLINE_EXCEEDED else UNAVAILABLE)
  {
    RunOne(Request(request), env, n);
  }

  lemma {:induction false} FirstStep(request: HwmRequest, rest: seq<Step<HwmRequest>>, env: Environment, n: nat)
    ensures Followed(RunSteps([Request(request)] + rest, env, n),
                     RunSteps([Request(request)], env, n), RunSteps(rest, env, n + 1))
  {
    RunCons(Request(request), rest, env, n);
    RunOne(Request(request), env, n);
  }

  /** `r` activates a named hardware component with call `n`, and then switches the controllers. */
  ghost predicate Activates(p: HwmParams, env: Environment, n: nat, r: RunResult<HwmRequest>) {
    var name := p.hardwareComponentName;
    var switch := SwitchController(p.controllersToActivate, p.controllersToDeactivate);
    if name == "" then OneCall(r, switch, env(n), DEADLINE_EXCEEDED)
    else
      exists a, b ::
        && OneCall(a, SetHwState(name, true), env(n), UNAVAILABLE)
        && OneCall(b, switch, env(n + 1), DEADLINE_EXCEEDED)
        && Followed(r, a, b)
  }

  lemma {:induction false} ActivationExactly(p: HwmParams, env: Environment, n: nat)
    ensures Activates(p, env, n, RunSteps(ActivationSteps(p), env, n))
  {
    hide RunSteps, OneCall, Followed;
    var name := p.hardwareComponentName;
    var switch := SwitchController(p.controllersToActivate, p.controllersToDeactivate);
    if name == "" {
      assert ActivationSteps(p) == [Request(switch)];
      OneStep(switch, env, n);
    } else {
      assert ActivationSteps(p) == [Request(SetHwState(name, true))] + [Request(switch)];
      OneStep(SetHwState(name, true), env, n);
      OneStep(switch, env, n + 1);
      FirstStep(SetHwState(name, true), [Request(switch)], env, n);
    }
  }

  /** Prepare resets a clock, and if that is OK activates a named component and switches. */
  lemma {:induction false} PrepareExactly(p: HwmParams, reset: ClockReset, env: Environment)
    ensures var r := RunOf(p, Prepare(reset, env));
            if p.hasClock && reset.code != OK then r == RunResult(reset.code, [], reset.tookMs)
            else
              var clockMs := if p.hasClock then reset.tookMs else 0;
              && r.waitedMs >= clockMs
              && Activates(p, env, 0, r.(waitedMs := r.waitedMs - clockMs))
  {
    ActivationExactly(p, env, 0);
  }

  /** ClearFaults asks the vendor's service, if there is one, and when that accepted activates a
      named component and switches. */
  lemma {:induction false} ClearFaultsExactly(p: HwmParams, env: Environment)
    ensures var r := RunOf(p, ClearFaults(env));
            if !p.hasClearFaultsService then Activates(p, env, 0, r)
            else
              exists a, b ::
                OneCall(a, ClearFaultsTrigger, env(0), UNAVAILABLE) && Activates(p, env, 1, b) && Followed(r, a, b)
  {
    hide RunSteps, OneCall, Followed, Activates, ActivationSteps;
    if p.hasClearFaultsService {
      ActivationExactly(p, env, 1);
      OneStep(ClearFaultsTrigger, env, 0);
      FirstStep(ClearFaultsTrigger, ActivationSteps(p), env, 0);
    } else {
      assert ClearFaultsSteps(p) == ActivationSteps(p);
      ActivationExactly(p, env, 0);
    }
  }

  /** Shutdown resets a clock, and if that is OK requests the swapped switch, and when that was
      accepted the inactive state of a named component. */
  lemma {:induction false} ShutdownExactly(p: HwmParams, reset: ClockReset, env: Environment)
    ensures var r := RunOf(p, Shutdown(reset, env));
            var name := p.hardwareComponentName;
            var swapped := SwitchController(p.controllersToDeactivate, p.controllersToActivate);
            if p.hasClock && reset.code != OK then r == RunResult(reset.code, [], reset.tookMs)
            else
              var clockMs := if p.hasClock then reset.tookMs else 0;
              && r.waitedMs >= clockMs
              && var s := r.(waitedMs := r.waitedMs - clockMs);
              if name == "" then OneCall(s, swapped, env(0), DEADLINE_EXCEEDED)
              else
                exists a, b ::
                  && OneCall(a, swapped, env(0), DEADLINE_EXCEEDED)
                  && OneCall(b, SetHwState(name, false), env(1), UNAVAILABLE)
                  && Followed(s, a, b)
  {
    hide RunSteps, OneCall, Followed;
    var name := p.hardwareComponentName;
    var swapped := SwitchController(p.controllersToDeactivate, p.controllersToActivate);
    OneStep(swapped, env, 0);
    if name == "" {
      assert ShutdownSteps(p) == [Request(swapped)];
    } else {
      OneStep(SetHwState(name, false), env, 1);
      FirstStep(swapped, [Request(SetHwState(name, false))], env, 0);
    }
  }

  /** What the caller of an OK call knows, spelled out for a shutdown of a named component: two
      requests, both accepted; and with an accepted switch there are always two. */
  lemma {:induction false} ShutdownDeactivatesHardware(p: HwmParams, reset: ClockReset, env: Environment)
    requires p.hardwareComponentName != "" && (p.hasClock ==> reset.code == OK)
    requires env(0).appearsAfterMs <= 1000 && env(0).repliesAfterMs <= 5000 && env(0).success
    ensures var r := RunOf(p, Shutdown(reset, env));
            && |r.events| == 2 && r.events[1].request == SetHwState(p.hardwareComponentName, false)
            && (r.code == OK <==> env(1).appearsAfterMs <= 1000 && env(1).repliesAfterMs <= 5000 && env(1).success)
  {
    ShutdownExactly(p, reset, env);
  }

  // ---- Order of requests ----

  /** Every activating switch directly follows an acknowledged SetHwState(ACTIVE), and every
      SetHwState(INACTIVE) directly follows an acknowledged swapped switch. */
  ghost predicate OrderSafe(p: HwmParams, log: seq<HwmEvent>) {
    forall i :: 0 <= i < |log| ==> RequestInOrder(p, log, i)
  }

  predicate RequestInOrder(p: HwmParams, log: seq<HwmEvent>, i: nat)
    requires i < |log|
  {
    && (log[i].request == ActivateRequest(p) ==>
          i > 0 && log[i - 1] == Event(SetHwState(p.hardwareComponentName, true), Accepted))
    && (log[i].request == SetHwState(p.hardwareComponentName, false) ==>
          i > 0 && log[i - 1] == Event(SwappedRequest(p), Accepted))
  }

  ghost predicate AlwaysOrderSafe(p: HwmParams) {
    forall calls :: OrderSafe(p, LogOf(p, calls))
  }

  function StepsOf(p: HwmParams, call: HwmCall): seq<Step<HwmRequest>> {
    match call
    case Prepare(_, _) => ActivationSteps(p)
    case ClearFaults(_) => ClearFaultsSteps(p)
    case Shutdown(_, _) => ShutdownSteps(p)
  }

  /** Step `i` comes right after the step that it must follow. */
  predicate StepInOrder(p: HwmParams, steps: seq<Step<HwmRequest>>, i: nat)
    requires i < |steps|
  {
    && (steps[i].request == ActivateRequest(p) ==>
          i > 0 && steps[i - 1].request == SetHwState(p.hardwareComponentName, true))
    && (steps[i].request == SetHwState(p.hardwareComponentName, false) ==>
          i > 0 && steps[i - 1].request == SwappedRequest(p))
  }

  lemma {:induction false} StepsAreInOrder(p: HwmParams, call: HwmCall, i: nat)
    requires p.hardwareComponentName != "" && p.controllersToActivate != p.controllersToDeactivate
    requires i < |StepsOf(p, call)|
    ensures StepInOrder(p, StepsOf(p, call), i)
  {
    assert ActivationSteps(p) == [Request(SetHwState(p.hardwareComponentName, true)), Request(ActivateRequest(p))];
  }

  lemma {:induction false} CallIsOrderSafe(p: HwmParams, call: HwmCall)
    requires p.hardwareComponentName != "" && p.controllersToActivate != p.controllersToDeactivate
    ensures OrderSafe(p, RunOf(p, call).events)
  {
    var steps := StepsOf(p, call);
    RunStopsAtFirstFailure(steps, call.env, 0);
    var log := RunOf(p, call).events;
    forall i | 0 <= i < |log| ensures RequestInOrder(p, log, i) {
      StepsAreInOrder(p, call, i);
      assert log[i].request == steps[i].request;
      if i > 0 {
        assert log[i - 1] == Event(steps[i - 1].request, Accepted);
      }
    }
  }

  lemma {:induction false} RunsAreOrderSafe(p: HwmParams, calls: seq<HwmCall>)
    requires p.hardwareComponentName != "" && p.controllersToActivate != p.controllersToDeactivate
    ensures OrderSafe(p, LogOf(p, calls))
    decreases |calls|
  {
    if calls != [] {
      var earlier, last := LogOf(p, calls[..|calls| - 1]), RunOf(p, calls[|calls| - 1]).events;
      RunsAreOrderSafe(p, calls[..|calls| - 1]);
      CallIsOrderSafe(p, calls[|calls| - 1]);
      forall i | 0 <= i < |earlier + last| ensures RequestInOrder(p, earlier + last, i) {
        if i < |earlier| {
          assert RequestInOrder(p, earlier, i);
        } else {
          assert RequestInOrder(p, last, i - |earlier|);
        }
      }
    }
  }

  /** Every service is there at once and accepts. */
  function Obliging(): Environment {
    n => Behaviour(0, 0, true)
  }

  lemma {:induction false} LogSnoc(p: HwmParams, calls: seq<HwmCall>, call: HwmCall)
    ensures LogOf(p, calls + [call]) == LogOf(p, calls) + RunOf(p, call).events
    ensures LogOf(p, [call]) == RunOf(p, call).events
  {
    assert (calls + [call])[..|calls|] == calls;
    assert [call][..0] == [];
  }

  /** A call whose first request is the activating switch breaks the order. */
  lemma {:induction false} FirstRequestBreaksOrder(p: HwmParams, call: HwmCall, rest: seq<Step<HwmRequest>>)
    requires call == Prepare(ClockReset(OK, 0), Obliging()) || call == Shutdown(ClockReset(OK, 0), Obliging())
    requires (if call.Prepare? then ActivationSteps(p) else ShutdownSteps(p)) == [Request(ActivateRequest(p))] + rest
    ensures !AlwaysOrderSafe(p)
  {
    LogSnoc(p, [], call);
    RunCons(Request(ActivateRequest(p)), rest, Obliging(), 0);
    var log := LogOf(p, [call]);
    assert log[0].request == ActivateRequest(p);
    assert !RequestInOrder(p, log, 0);
  }

  /** The order holds in every run exactly when a hardware component is named and the two
      controller lists differ; otherwise a single call already breaks it. */
  lemma {:induction false} OrderSafeExactly(p: HwmParams)
    ensures AlwaysOrderSafe(p) <==>
            p.hardwareComponentName != "" && p.controllersToActivate != p.controllersToDeactivate
  {
    if p.hardwareComponentName == "" {
      FirstRequestBreaksOrder(p, Prepare(ClockReset(OK, 0), Obliging()), []);
    } else if p.controllersToActivate == p.controllersToDeactivate {
      FirstRequestBreaksOrder(p, Shutdown(ClockReset(OK, 0), Obliging()), HwStateSteps(p, false));
    } else {
      forall calls ensures OrderSafe(p, LogOf(p, calls)) {
        RunsAreOrderSafe(p, calls);
      }
    }
  }

  // ---- The controllers that are active ----

  function Elements(s: seq<string>): set<string> {
    set x | x in s
  }

  /** The controller manager's active set after an accepted (best effort) switch. */
  function AfterSwitch(active: set<string>, e: HwmEvent): set<string> {
    if e.outcome == Accepted && e.request.SwitchController? then
      (active - Elements(e.request.deactivate)) + Elements(e.request.activate)
    else
      active
  }

  function AfterLog(active: set<string>, log: seq<HwmEvent>): set<string> {
    if log == [] then active
    else AfterSwitch(AfterLog(active, log[..|log| - 1]), log[|log| - 1])
  }

  lemma {:induction false} AfterLogConcat(active: set<string>, a: seq<HwmEvent>, b: seq<HwmEvent>)
    ensures AfterLog(active, a + b) == AfterLog(AfterLog(active, a), b)
    decreases |b|
  {
    if b == [] {
      assert a + b == a;
    } else {
      AfterLogConcat(active, a, b[..|b| - 1]);
      assert (a + b)[..|a + b| - 1] == a + b[..|b| - 1];
    }
  }

  lemma {:induction false} OneSwitch(active: set<string>, log: seq<HwmEvent>, k: nat)
    requires k < |log| && forall i :: 0 <= i < |log| && i != k ==> !log[i].request.SwitchController?
    ensures AfterLog(active, log) == AfterSwitch(active, log[k])
    decreases |log|
  {
    var n := |log| - 1;
    if k < n {
      OneSwitch(active, log[..n], k);
    } else {
      NoSwitch(active, log[..n]);
    }
  }

  lemma {:induction false} NoSwitch(active: set<string>, log: seq<HwmEvent>)
    requires forall i :: 0 <= i < |log| ==> !log[i].request.SwitchController?
    ensures AfterLog(active, log) == active
    decreases |log|
  {
    if log != [] {
      NoSwitch(active, log[..|log| - 1]);
    }
  }

  /** The one controller switch of a call. */
  function SwitchOf(p: HwmParams, call: HwmCall): HwmRequest {
    if call.Shutdown? then SwappedRequest(p) else ActivateRequest(p)
  }

  lemma {:induction false} OnlySwitch(p: HwmParams, call: HwmCall) returns (k: nat)
    ensures k < |StepsOf(p, call)| && StepsOf(p, call)[k].request == SwitchOf(p, call)
    ensures forall i :: 0 <= i < |StepsOf(p, call)| && i != k ==> !StepsOf(p, call)[i].request.SwitchController?
  {
    k := if call.Shutdown? then 0 else |StepsOf(p, call)| - 1;
  }

  /** An OK call issues all its steps, and all are accepted. */
  lemma {:induction false} OkRunsSteps(p: HwmParams, call: HwmCall)
    requires RunOf(p, call).code == OK
    ensures |RunOf(p, call).events| == |StepsOf(p, call)|
    ensures forall i :: 0 <= i < |StepsOf(p, call)| ==>
              RunOf(p, call).events[i] == Event(StepsOf(p, call)[i].request, Accepted)
  {
    hide RunSteps;
    RunStopsAtFirstFailure(StepsOf(p, call), call.env, 0);
  }

  /** What an OK call leaves active, whatever was active before. */
  lemma {:induction false} OkCallSwitches(p: HwmParams, call: HwmCall, active: set<string>)
    requires RunOf(p, call).code == OK
    ensures var a := Elements(p.controllersToActivate);
            var d := Elements(p.controllersToDeactivate);
            AfterLog(active, RunOf(p, call).events) ==
            if call.Shutdown? then (active - a) + d else (active - d) + a
  {
    hide RunOf, StepsOf, AfterLog;
    OkRunsSteps(p, call);
    var k := OnlySwitch(p, call);
    OneSwitch(active, RunOf(p, call).events, k);
  }

  ghost predicate AllClearFaultsOk(p: HwmParams, calls: seq<HwmCall>) {
    forall k :: 0 <= k < |calls| ==> calls[k].ClearFaults? && RunOf(p, calls[k]).code == OK
  }

  lemma {:induction false} SwitchTwice(active: set<string>, a: set<string>, d: set<string>)
    ensures (((active - d) + a) - d) + a == (active - d) + a
  {
  }

  lemma {:induction false} AfterPrepareAndClears(
      p: HwmParams, prepare: HwmCall, clears: seq<HwmCall>, active: set<string>)
    requires prepare.Prepare? && RunOf(p, prepare).code == OK && AllClearFaultsOk(p, clears)
    ensures AfterLog(active, LogOf(p, [prepare] + clears)) ==
            (active - Elements(p.controllersToDeactivate)) + Elements(p.controllersToActivate)
    decreases |clears|
  {
    if clears == [] {
      assert [prepare] + clears == [] + [prepare];
      LogSnoc(p, [], prepare);
      OkCallSwitches(p, prepare, active);
    } else {
      var earlier, last := clears[..|clears| - 1], clears[|clears| - 1];
      AfterPrepareAndClears(p, prepare, earlier, active);
      SwitchTwice(active, Elements(p.controllersToActivate), Elements(p.controllersToDeactivate));
      assert [prepare] + clears == [prepare] + earlier + [last];
      LogSnoc(p, [prepare] + earlier, last);
      AfterLogConcat(active, LogOf(p, [prepare] + earlier), RunOf(p, last).events);
      OkCallSwitches(p, last, AfterLog(active, LogOf(p, [prepare] + earlier)));
    }
  }

  /** Prepare, any number of ClearFaults and Shutdown, all OK, restore the active set exactly
      when everything to deactivate was active and nothing that is only to be activated was. */
  lemma {:induction false} LifecycleRoundTrip(
      p: HwmParams, prepare: HwmCall, clears: seq<HwmCall>, shutdown: HwmCall, active: set<string>)
    requires prepare.Prepare? && RunOf(p, prepare).code == OK && AllClearFaultsOk(p, clears)
    requires shutdown.Shutdown? && RunOf(p, shutdown).code == OK
    ensures var a := Elements(p.controllersToActivate);
            var d := Elements(p.controllersToDeactivate);
            AfterLog(active, LogOf(p, [prepare] + clears + [shutdown])) == active
            <==> d <= active && (a - d) !! active
  {
    var before := LogOf(p, [prepare] + clears);
    LogSnoc(p, [prepare] + clears, shutdown);
    AfterPrepareAndClears(p, prepare, clears, active);
    AfterLogConcat(active, before, RunOf(p, shutdown).events);
    OkCallSwitches(p, shutdown, AfterLog(active, before));
    var a := Elements(p.controllersToActivate);
    var d := Elements(p.controllersToDeactivate);
    var end := ((active - d) + a - a) + d;
    if end == active {
      assert forall x :: x in a - d ==> x !in end;
    }
  }

  /** `on_init` adds the controller itself to the list, at the end and only when it is missing. */
  method AddSelf(controllersToActivate: seq<string>, self: string) returns (list: seq<string>)
    ensures controllersToActivate <= list && self in list
    ensures var given := multiset(controllersToActivate);
            multiset(list) == if self in given then given else given[self := 1]
  {
    list := controllersToActivate;
    var found := false;
    for k := 0 to |list|
      invariant !found ==> self !in list[..k]
      invariant found ==> self in list
    {
      if list[k] == self {
        found := true;
        break;
      }
    }
    if !found {
      list := list + [self];
    }
  }

  /** A ClearFaults call waits at most six seconds per step, 18 s in all, and a slow but
      successful environment makes it wait exactly that long. */
  lemma {:induction false} ClearFaultsWaitBound(p: HwmParams, env: Environment)
    ensures RunOf(p, ClearFaults(env)).waitedMs <= 6000 * |ClearFaultsSteps(p)| <= 18000
    ensures var slow := RunOf(p, ClearFaults(SlowEnvironment(DISCOVER_MS, REPLY_MS)));
            slow.code == OK && slow.waitedMs == 6000 * |ClearFaultsSteps(p)|
  {
    var steps := ClearFaultsSteps(p);
    RunWaitBound(steps, env, 0);
    RunWaitReached(steps, DISCOVER_MS, REPLY_MS, 0);
    UniformTotal(steps);
  }

  /** With a clock that resets in time, no call waits longer than that and six seconds per step. */
  lemma {:induction false} CallWaitBound(p: HwmParams, call: HwmCall)
    requires !call.ClearFaults? && p.hasClock ==> call.clockReset.InTime()
    ensures var clockMs := if call.ClearFaults? || !p.hasClock then 0 else 20000;
            RunOf(p, call).waitedMs <= clockMs + 6000 * |StepsOf(p, call)|
  {
    RunWaitBound(StepsOf(p, call), call.env, 0);
    UniformTotal(StepsOf(p, call));
  }

  lemma {:induction false} UniformTotal(steps: seq<Step<HwmRequest>>)
    requires forall i :: 0 <= i < |steps| ==> steps[i].MaxWait() == 6000
    ensures TotalWait(steps) == 6000 * |steps|
    decreases |steps|
  {
    if steps != [] {
      UniformTotal(steps[1..]);
    }
  }
}
