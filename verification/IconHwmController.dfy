/** Configuring, cleaning up and reporting the hardware module of one controller. */
module IconHwmController {
  import opened Messages
  import opened ErrorText

  const INIT_FAILED: Byte := 9

  /** The ROS message, whose text has 256 bytes, or what a running module reports, in any length. */
  datatype HardwareModuleState = HardwareModuleState(code: Byte, message: seq<Byte>)

  datatype Params = Params(
    name: string, dofNames: seq<string>, commandInterfaces: seq<string>, stateInterfaces: seq<string>,
    controlFrequencyHz: int, drivesRealtimeClock: bool)

  /** A clock object, by identity. */
  type ClockId = nat

  /** The runtime keeps a raw pointer to the clock that it was built on. */
  datatype Runtime = Runtime(clock: ClockId)

  /** How the libraries answer during one `on_configure`: creating the shared memory manager,
      the clock and the runtime, and starting the runtime. */
  datatype ConfigureEnv = ConfigureEnv(sharedMemory: bool, clock: Option<ClockId>, runtime: bool, run: bool)

  datatype Stage = BadParams | NoSharedMemory | NotClockDriver | NoClock | NoRuntime | NotStarted | Configured

  /** What the two owning pointers hold. */
  datatype Holdings = Holdings(clock: Option<ClockId>, runtime: Option<Runtime>)
  {
    /** A runtime is present only together with the clock that it was built on. */
    predicate OwnsClock() {
      runtime.Some? ==> clock == Some(runtime.value.clock)
    }
  }

  datatype ControllerState = ControllerState(
    holdings: Holdings, initError: Option<HardwareModuleState>, timerLive: bool)

  const UNCONFIGURED := ControllerState(Holdings(None, None), None, false)

  /** The frequency check; the parameter is cast to a 32-bit unsigned number. */
  predicate FrequencyAccepted(controlFrequencyHz: int, updateRate: nat) {
    controlFrequencyHz > 0 ==> controlFrequencyHz % 0x1_0000_0000 == updateRate
  }

  predicate ParamsAccepted(p: Params, updateRate: nat) {
    && p.name != "" && p.commandInterfaces != [] && p.stateInterfaces != [] && p.dofNames != []
    && FrequencyAccepted(p.controlFrequencyHz, updateRate)
  }

  /** Where a configuration ends. */
  function StageOf(p: Params, updateRate: nat, env: ConfigureEnv): Stage {
    if !ParamsAccepted(p, updateRate) then BadParams
    else if !env.sharedMemory then NoSharedMemory
    else if !p.drivesRealtimeClock then NotClockDriver
    else if env.clock.None? then NoClock
    else if !env.runtime then NoRuntime
    else if !env.run then NotStarted
    else Configured
  }

  /** The configuration gets as far as assigning its new clock. */
  predicate ReachesClock(stage: Stage) {
    stage == NoRuntime || stage == NotStarted || stage == Configured
  }

  predicate ReachesRuntime(stage: Stage) {
    stage == NotStarted || stage == Configured
  }

  function AfterConfigure(s: ControllerState, p: Params, updateRate: nat, env: ConfigureEnv, text: seq<Byte>)
    : ControllerState
  {
    var stage := StageOf(p, updateRate, env);
    ControllerState(
      Holdings(
        if ReachesClock(stage) then env.clock else s.holdings.clock,
        if ReachesRuntime(stage) then Some(Runtime(env.clock.value)) else s.holdings.runtime),
      if stage == Configured then None else Some(ErrorOf(text)),
      true)
  }

  function ErrorOf(text: seq<Byte>): HardwareModuleState {
    HardwareModuleState(INIT_FAILED, Recorded(text))
  }

  /** The states after each assignment of a configuration: the error is cleared and the timer is
      created first; the new clock replaces the old one before the new runtime replaces the old
      one; and an error is recorded last. */
  function ConfigureStates(s: ControllerState, p: Params, updateRate: nat, env: ConfigureEnv, text: seq<Byte>)
    : (states: seq<ControllerState>)
    ensures |states| >= 3 && states[|states| - 1] == AfterConfigure(s, p, updateRate, env, text)
  {
    var stage := StageOf(p, updateRate, env);
    var cleared := s.(initError := None);
    var timed := cleared.(timerLive := true);
    var clocked := if ReachesClock(stage) then timed.(holdings := timed.holdings.(clock := env.clock)) else timed;
    var stored :=
      if !ReachesRuntime(stage) then clocked
      else clocked.(holdings := Holdings(env.clock, Some(Runtime(env.clock.value))));
    [cleared, timed]
    + (if ReachesClock(stage) then [clocked] else [])
    + (if ReachesRuntime(stage) then [stored] else [])
    + (if stage == Configured then [] else [stored.(initError := Some(ErrorOf(text)))])
  }

  lemma {:induction false} EarlyFailure(
      s: ControllerState, p: Params, updateRate: nat, env: ConfigureEnv, text: seq<Byte>, past: seq<ControllerState>)
    requires !ReachesClock(StageOf(p, updateRate, env))
    ensures var cleared := s.(initError := None); var timed := cleared.(timerLive := true);
            past + ConfigureStates(s, p, updateRate, env, text) ==
            past + [cleared] + [timed] + [timed.(initError := Some(ErrorOf(text)))]
  {
  }

  lemma {:induction false} LateStates(
      s: ControllerState, p: Params, updateRate: nat, env: ConfigureEnv, text: seq<Byte>, past: seq<ControllerState>)
    requires ReachesClock(StageOf(p, updateRate, env))
    ensures var stage := StageOf(p, updateRate, env);
            var cleared := s.(initError := None);
            var timed := cleared.(timerLive := true);
            var clocked := timed.(holdings := timed.holdings.(clock := env.clock));
            var stored := clocked.(holdings := Holdings(env.clock, Some(Runtime(env.clock.value))));
            var error := Some(ErrorOf(text));
            past + ConfigureStates(s, p, updateRate, env, text) ==
            match stage
            case NoRuntime => past + [cleared] + [timed] + [clocked] + [clocked.(initError := error)]
            case NotStarted => past + [cleared] + [timed] + [clocked] + [stored] + [stored.(initError := error)]
            case _ => past + [cleared] + [timed] + [clocked] + [stored]
  {
  }

  function AfterCleanup(s: ControllerState, stopOk: bool): ControllerState {
    if s.holdings.runtime.Some? && !stopOk then s.(timerLive := false)
    else s.(timerLive := false, holdings := Holdings(None, None))
  }

  /** The same for a cleanup: the timer is cancelled first, and the runtime goes before its clock. */
  function CleanupStates(s: ControllerState, stopOk: bool): (states: seq<ControllerState>)
    ensures states != [] && states[|states| - 1] == AfterCleanup(s, stopOk)
  {
    var cancelled := s.(timerLive := false);
    var h := s.holdings;
    if h.runtime.Some? && !stopOk then [cancelled]
    else
      [cancelled]
      + (if h.runtime.Some? then [cancelled.(holdings := h.(runtime := None))] else [])
      + [cancelled.(holdings := Holdings(None, None))]
  }

  /** What the timer publishes, if anything; `running` is what a present runtime reports. */
  function TimerMessage(s: ControllerState, running: Option<HardwareModuleState>): Option<HardwareModuleState> {
    if s.holdings.runtime.None? then s.initError
    else if running.None? then None
    else Some(HardwareModuleState(running.value.code, Copied(running.value.message)))
  }

  class Controller {
    const params: Params
    const updateRate: nat
    var clock: Option<ClockId>
    var runtime: Option<Runtime>
    var initError: Option<HardwareModuleState>
    var timerLive: bool
    ghost var published: seq<HardwareModuleState>
    /** The states after each assignment so far. */
    ghost var states: seq<ControllerState>

    ghost function State(): ControllerState
      reads this
    {
      ControllerState(Holdings(clock, runtime), initError, timerLive)
    }

    constructor (params: Params, updateRate: nat)
      ensures State() == UNCONFIGURED && published == [] && states == []
      ensures this.params == params && this.updateRate == updateRate
    {
      this.params, this.updateRate := params, updateRate;
      clock, runtime, initError, timerLive := None, None, None, false;
      published, states := [], [];
    }

    method SaveInitError(text: seq<Byte>)
      modifies this`initError, this`states
      ensures initError == Some(ErrorOf(text)) == Some(HardwareModuleState(9, Recorded(text)))
      ensures states == old(states) + [State()]
    {
      var message := Record(text);
      initError := Some(HardwareModuleState(INIT_FAILED, message));
      states := states + [State()];
    }

    /** `text` is the text of the error, if one occurs. */
    method OnConfigure(env: ConfigureEnv, text: seq<Byte>) returns (success: bool)
      modifies this`clock, this`runtime, this`initError, this`timerLive, this`states
      ensures states == old(states) + ConfigureStates(old(State()), params, updateRate, env, text)
      ensures State() == AfterConfigure(old(State()), params, updateRate, env, text)
      ensures success <==> StageOf(params, updateRate, env) == Configured
      ensures success <==> initError.None?
      ensures initError.Some? ==> initError.value == HardwareModuleState(9, Recorded(text))
      ensures var checked :=
                && params.name != "" && params.commandInterfaces != [] && params.stateInterfaces != []
                && params.dofNames != []
                && (params.controlFrequencyHz <= 0 || params.controlFrequencyHz % 0x1_0000_0000 == updateRate)
                && env.sharedMemory && params.drivesRealtimeClock && env.clock.Some?;
              && (success <==> checked && env.runtime && env.run)
              && clock == (if checked then env.clock else old(clock))
              && runtime == (if checked && env.runtime then Some(Runtime(env.clock.value)) else old(runtime))
              && timerLive
    {
      hide ErrorOf, Recorded, ConfigureStates;
      ghost var before, past := State(), states;
      initError := None;
      states := states + [State()];
      timerLive := true;
      states := states + [State()];
      if params.name == "" {
        EarlyFailure(before, params, updateRate, env, text, past);
        SaveInitError(text);
        return false;
      }
      if params.commandInterfaces == [] {
        EarlyFailure(before, params, updateRate, env, text, past);
        SaveInitError(text);
        return false;
      }
      if params.stateInterfaces == [] {
        EarlyFailure(before, params, updateRate, env, text, past);
        SaveInitError(text);
        return false;
      }
      if params.dofNames == [] {
        EarlyFailure(before, params, updateRate, env, text, past);
        SaveInitError(text);
        return false;
      }
      if params.controlFrequencyHz > 0 && params.controlFrequencyHz % 0x1_0000_0000 != updateRate {
        EarlyFailure(before, params, updateRate, env, text, past);
        SaveInitError(text);
        return false;
      }
      if !env.sharedMemory {
        EarlyFailure(before, params, updateRate, env, text, past);
        SaveInitError(text);
        return false;
      }
      if !params.drivesRealtimeClock {
        EarlyFailure(before, params, updateRate, env, text, past);
        SaveInitError(text);
        return false;
      }
      if env.clock.None? {
        EarlyFailure(before, params, updateRate, env, text, past);
        SaveInitError(text);
        return false;
      }
      LateStates(before, params, updateRate, env, text, past);
      clock := env.clock;
      states := states + [State()];
      // Creating Ros2HwmImpl cannot fail here: both strides are positive.
      if !env.runtime {
        SaveInitError(text);
        return false;
      }
      runtime := Some(Runtime(clock.value));
      states := states + [State()];
      if !env.run {
        SaveInitError(text);
        return false;
      }
      return true;
    }

    /** The lifecycle calls this only after a successful configuration, so the timer exists. */
    method OnCleanup(stopOk: bool) returns (success: bool)
      requires timerLive
      modifies this`clock, this`runtime, this`timerLive, this`states
      ensures states == old(states) + CleanupStates(old(State()), stopOk)
      ensures State() == AfterCleanup(old(State()), stopOk)
      ensures success <==> old(runtime).None? || stopOk
      ensures success ==> clock == None && runtime == None
      ensures !success ==> clock == old(clock) && runtime == old(runtime)
      ensures !timerLive
    {
      timerLive := false;
      states := states + [State()];
      if runtime != None {
        if !stopOk {
          return false;
        }
        runtime := None;
        states := states + [State()];
      }
      clock := None;
      states := states + [State()];
      return true;
    }

    /** Without a clock the update fails; otherwise a failed tick only resets the clock. */
    method Update(tickOk: bool, resetOk: bool) returns (ok: bool)
      ensures ok <==> clock.Some?
    {
      if clock == None {
        return false;
      }
      if !tickOk {
        if !resetOk {
          return true;
        }
      }
      return true;
    }

    method PublishCurrentHwmState(running: Option<HardwareModuleState>)
      modifies this`published
      ensures var m := TimerMessage(State(), running);
              published == old(published) + (if m.Some? then [m.value] else [])
      ensures runtime.None? && initError.None? ==> published == old(published)
      ensures runtime.None? && initError.Some? ==> published == old(published) + [initError.value]
      ensures runtime.Some? && running.None? ==> published == old(published)
      ensures runtime.Some? && running.Some? ==>
                && |published| == |old(published)| + 1 && old(published) <= published
                && var sent, text := published[|old(published)|], running.value.message;
                && sent.code == running.value.code && |sent.message| == 256
                && forall k :: 0 <= k < 256 ==> sent.message[k] == if k < |text| then text[k] else 0
    {
      var message;
      if runtime == None {
        if initError == None {
          return;
        }
        message := initError.value;
      } else {
        if running == None {
          return;
        }
        var text := CopyBounded(running.value.message);
        message := HardwareModuleState(running.value.code, text);
      }
      published := published + [message];
    }
  }

  // ---- Runs of the lifecycle ----

  datatype Op = Configure(env: ConfigureEnv, text: seq<Byte>) | Cleanup(stopOk: bool)

  /** One lifecycle call. The timer and `update` change nothing. */
  function Exec(s: ControllerState, p: Params, updateRate: nat, op: Op): ControllerState {
    match op
    case Configure(env, text) => AfterConfigure(s, p, updateRate, env, text)
    case Cleanup(stopOk) => if s.timerLive then AfterCleanup(s, stopOk) else s
  }

  function Run(p: Params, updateRate: nat, ops: seq<Op>): ControllerState {
    if ops == [] then UNCONFIGURED
    else Exec(Run(p, updateRate, ops[..|ops| - 1]), p, updateRate, ops[|ops| - 1])
  }

  /** The states after each assignment of the call. */
  function StatesOf(s: ControllerState, p: Params, updateRate: nat, op: Op): (states: seq<ControllerState>)
    ensures states != [] && states[|states| - 1] == Exec(s, p, updateRate, op)
  {
    match op
    case Configure(env, text) => ConfigureStates(s, p, updateRate, env, text)
    case Cleanup(stopOk) => if s.timerLive then CleanupStates(s, stopOk) else [s]
  }

  /** The states of call `k` of the run. */
  function CallStates(p: Params, updateRate: nat, ops: seq<Op>, k: nat): (states: seq<ControllerState>)
    requires k < |ops|
    ensures states != []
  {
    StatesOf(Run(p, updateRate, ops[..k]), p, updateRate, ops[k])
  }

  /** Call `k` configures and reaches the clock assignment while a runtime is present. */
  predicate ReplacesLiveClock(p: Params, updateRate: nat, ops: seq<Op>, k: nat)
    requires k < |ops|
  {
    && ops[k].Configure? && ReachesClock(StageOf(p, updateRate, ops[k].env))
    && Run(p, updateRate, ops[..k]).holdings.runtime.Some?
  }

  /** Every created clock is a new object. */
  ghost predicate FreshClocks(p: Params, updateRate: nat, ops: seq<Op>) {
    forall k :: 0 <= k < |ops| && ops[k].Configure? ==>
      var h := Run(p, updateRate, ops[..k]).holdings;
      h.runtime.Some? ==> ops[k].env.clock != Some(h.runtime.value.clock)
  }

  ghost predicate AllOwn(states: seq<ControllerState>) {
    forall j :: 0 <= j < |states| ==> states[j].holdings.OwnsClock()
  }

  /** At every instant of the first `n` calls. */
  ghost predicate OwnsClockUpTo(p: Params, updateRate: nat, ops: seq<Op>, n: nat)
    requires n <= |ops|
  {
    forall k :: 0 <= k < n ==> AllOwn(CallStates(p, updateRate, ops, k))
  }

  ghost predicate AlwaysOwnsClock(p: Params, updateRate: nat, ops: seq<Op>) {
    OwnsClockUpTo(p, updateRate, ops, |ops|)
  }

  /** One call keeps ownership at every instant exactly when it does not replace a live clock. */
  lemma {:induction false} CallOwnership(s: ControllerState, p: Params, updateRate: nat, op: Op)
    requires s.holdings.OwnsClock()
    requires op.Configure? && s.holdings.runtime.Some? ==> op.env.clock != s.holdings.clock
    ensures AllOwn(StatesOf(s, p, updateRate, op)) <==>
            !(op.Configure? && ReachesClock(StageOf(p, updateRate, op.env)) && s.holdings.runtime.Some?)
    ensures AllOwn(StatesOf(s, p, updateRate, op)) ==> Exec(s, p, updateRate, op).holdings.OwnsClock()
  {
    hide Recorded;
    var states := StatesOf(s, p, updateRate, op);
    if op.Configure? && ReachesClock(StageOf(p, updateRate, op.env)) && s.holdings.runtime.Some? {
      assert !states[2].holdings.OwnsClock();
    }
  }

  lemma {:induction false} RunSnoc(p: Params, updateRate: nat, ops: seq<Op>, n: nat)
    requires n < |ops|
    ensures Run(p, updateRate, ops[..n + 1]) == Exec(Run(p, updateRate, ops[..n]), p, updateRate, ops[n])
  {
    assert ops[..n + 1][..n] == ops[..n];
  }

  lemma {:induction false} CallKeepsOwnership(p: Params, updateRate: nat, ops: seq<Op>, k: nat)
    requires k < |ops| && FreshClocks(p, updateRate, ops) && Run(p, updateRate, ops[..k]).holdings.OwnsClock()
    ensures AllOwn(CallStates(p, updateRate, ops, k)) <==> !ReplacesLiveClock(p, updateRate, ops, k)
    ensures AllOwn(CallStates(p, updateRate, ops, k)) ==> Run(p, updateRate, ops[..k + 1]).holdings.OwnsClock()
  {
    hide Exec, StatesOf;
    RunSnoc(p, updateRate, ops, k);
    CallOwnership(Run(p, updateRate, ops[..k]), p, updateRate, ops[k]);
  }

  lemma {:induction false} OwnershipUpTo(p: Params, updateRate: nat, ops: seq<Op>, n: nat)
    requires n <= |ops| && FreshClocks(p, updateRate, ops)
    ensures OwnsClockUpTo(p, updateRate, ops, n) <==>
            forall k :: 0 <= k < n ==> !ReplacesLiveClock(p, updateRate, ops, k)
    ensures OwnsClockUpTo(p, updateRate, ops, n) ==> Run(p, updateRate, ops[..n]).holdings.OwnsClock()
  {
    if n == 0 {
      assert ops[..0] == [];
    } else {
      hide Run, CallStates, ReplacesLiveClock, FreshClocks;
      OwnershipUpTo(p, updateRate, ops, n - 1);
      if OwnsClockUpTo(p, updateRate, ops, n - 1) {
        CallKeepsOwnership(p, updateRate, ops, n - 1);
      }
    }
  }

  /** At every instant of a run, also inside a call and after a Stop that failed, a present
      runtime has its clock, exactly when no configuration reaches the clock assignment while a
      runtime is present. */
  lemma {:induction false} OwnershipExactly(p: Params, updateRate: nat, ops: seq<Op>)
    requires FreshClocks(p, updateRate, ops)
    ensures AlwaysOwnsClock(p, updateRate, ops) <==>
            forall k :: 0 <= k < |ops| ==> !ReplacesLiveClock(p, updateRate, ops, k)
  {
    OwnershipUpTo(p, updateRate, ops, |ops|);
  }

  // ---- Which runs the lifecycle permits ----

  /** The primary states of the managed node; activation plays no role. */
  datatype Lifecycle = Unconfigured | Inactive | Finalized

  /** The state after the calls; `recovers` says whether the error handling that follows a call
      with result ERROR brings the node back to Unconfigured or finalizes it. */
  function LifecycleAfter(p: Params, updateRate: nat, ops: seq<Op>, recovers: bool): Lifecycle {
    if ops == [] then Unconfigured
    else
      var n := |ops| - 1;
      var failed := if recovers then Unconfigured else Finalized;
      match ops[n]
      case Configure(env, _) => if StageOf(p, updateRate, env) == Configured then Inactive else failed
      case Cleanup(stopOk) =>
        if Run(p, updateRate, ops[..n]).holdings.runtime.Some? && !stopOk then failed else Unconfigured
  }

  /** Configurations start in Unconfigured and cleanups in Inactive. */
  ghost predicate Permitted(p: Params, updateRate: nat, ops: seq<Op>, recovers: bool) {
    forall k :: 0 <= k < |ops| ==>
      LifecycleAfter(p, updateRate, ops[..k], recovers) == if ops[k].Configure? then Unconfigured else Inactive
  }

  /** Every permitted run keeps every runtime with its clock at every instant. */
  ghost predicate LifecycleOwnsClock(p: Params, updateRate: nat, recovers: bool) {
    forall ops :: Permitted(p, updateRate, ops, recovers) && FreshClocks(p, updateRate, ops) ==>
      AlwaysOwnsClock(p, updateRate, ops)
  }

  /** When errors finalize the node, only a node without a runtime is Unconfigured. */
  lemma {:induction false} UnconfiguredHasNoRuntime(p: Params, updateRate: nat, ops: seq<Op>)
    requires Permitted(p, updateRate, ops, false)
    requires LifecycleAfter(p, updateRate, ops, false) == Unconfigured
    ensures Run(p, updateRate, ops).holdings.runtime.None?
  {
    if ops != [] {
      var n := |ops| - 1;
      assert LifecycleAfter(p, updateRate, ops[..n], false) == Inactive;
    }
  }

  /** Two calls suffice to lose the clock when errors do not finalize the node: a configuration
      that fails to start its runtime leaves the runtime behind, and a second one replaces its clock. */
  lemma {:induction false} SecondConfigureLosesClock(p: Params, updateRate: nat) returns (ops: seq<Op>)
    requires ParamsAccepted(p, updateRate) && p.drivesRealtimeClock
    ensures |ops| == 2 && ops[0].Configure? && ops[1].Configure?
    ensures Permitted(p, updateRate, ops, true) && FreshClocks(p, updateRate, ops)
    ensures !AlwaysOwnsClock(p, updateRate, ops)
  {
    var first := Configure(ConfigureEnv(true, Some(0), true, false), []);
    var second := Configure(ConfigureEnv(true, Some(1), false, false), []);
    ops := [first, second];
    assert ops[..0] == [] && ops[..1] == [first] && [first][..0] == [];
    assert Run(p, updateRate, [first]).holdings.runtime == Some(Runtime(0));
    assert ReplacesLiveClock(p, updateRate, ops, 1);
    OwnershipExactly(p, updateRate, ops);
  }

  /** Every permitted run keeps the clock with its runtime exactly when a failed call finalizes
      the node, or the parameters never let a configuration get as far as a clock. */
  lemma {:induction false} LifecycleOwnershipExactly(p: Params, updateRate: nat, recovers: bool)
    ensures LifecycleOwnsClock(p, updateRate, recovers) <==>
            !recovers || !ParamsAccepted(p, updateRate) || !p.drivesRealtimeClock
  {
    if !recovers || !ParamsAccepted(p, updateRate) || !p.drivesRealtimeClock {
      forall ops: seq<Op> | Permitted(p, updateRate, ops, recovers) && FreshClocks(p, updateRate, ops)
        ensures AlwaysOwnsClock(p, updateRate, ops)
      {
        forall k | 0 <= k < |ops| ensures !ReplacesLiveClock(p, updateRate, ops, k) {
          if !recovers && ops[k].Configure? {
            PrefixPermitted(p, updateRate, ops, k);
            UnconfiguredHasNoRuntime(p, updateRate, ops[..k]);
          }
        }
        OwnershipExactly(p, updateRate, ops);
      }
    } else {
      var ops := SecondConfigureLosesClock(p, updateRate);
    }
  }

  lemma {:induction false} PrefixPermitted(p: Params, updateRate: nat, ops: seq<Op>, k: nat)
    requires k <= |ops| && Permitted(p, updateRate, ops, false)
    ensures Permitted(p, updateRate, ops[..k], false)
  {
    forall j | 0 <= j < k
      ensures LifecycleAfter(p, updateRate, ops[..k][..j], false) ==
              if ops[..k][j].Configure? then Unconfigured else Inactive
    {
      assert ops[..k][..j] == ops[..j];
    }
  }

  /** Some environment takes the configuration to the division by the update rate, which follows
      the clock assignment. */
  ghost predicate DividesByRate(p: Params, updateRate: nat) {
    exists env :: ReachesClock(StageOf(p, updateRate, env))
  }

  /** The division by a zero update rate is reached exactly for otherwise good parameters whose
      frequency is unset or a multiple of 2^32. */
  lemma {:induction false} ZeroRateIsDividedBy(p: Params)
    ensures DividesByRate(p, 0) <==>
            && p.name != "" && p.commandInterfaces != [] && p.stateInterfaces != [] && p.dofNames != []
            && p.drivesRealtimeClock
            && (p.controlFrequencyHz <= 0 || p.controlFrequencyHz % 0x1_0000_0000 == 0)
  {
    var env := ConfigureEnv(true, Some(0), true, true);
    assert ParamsAccepted(p, 0) && p.drivesRealtimeClock ==> StageOf(p, 0, env) == Configured;
  }

  /** The number of the latest configuration in the run, plus one; 0 if there is none. */
  function LatestConfigure(ops: seq<Op>): (n: nat)
    ensures n <= |ops| && (n > 0 ==> ops[n - 1].Configure?)
    ensures forall k :: n <= k < |ops| ==> !ops[k].Configure?
  {
    if ops == [] then 0
    else if ops[|ops| - 1].Configure? then |ops|
    else LatestConfigure(ops[..|ops| - 1])
  }

  /** The recorded error is that of the latest configuration, and there is one exactly when that
      configuration failed. */
  lemma {:induction false} ErrorIsLatestFailure(p: Params, updateRate: nat, ops: seq<Op>)
    ensures var n := LatestConfigure(ops);
            Run(p, updateRate, ops).initError ==
            if n == 0 || StageOf(p, updateRate, ops[n - 1].env) == Configured then None
            else Some(ErrorOf(ops[n - 1].text))
    decreases |ops|
  {
    if ops != [] && !ops[|ops| - 1].Configure? {
      ErrorIsLatestFailure(p, updateRate, ops[..|ops| - 1]);
    }
  }

  /** Whatever a timer callback that is not interrupted publishes without a runtime is INIT_FAILED
      with the text of the latest configuration, which failed. */
  lemma {:induction false} TimerPublishesLatestFailure(
      p: Params, updateRate: nat, ops: seq<Op>, running: Option<HardwareModuleState>)
    requires Run(p, updateRate, ops).holdings.runtime.None?
    requires TimerMessage(Run(p, updateRate, ops), running).Some?
    ensures var n := LatestConfigure(ops); var m := TimerMessage(Run(p, updateRate, ops), running).value;
            && n > 0 && StageOf(p, updateRate, ops[n - 1].env) != Configured
            && m.code == 9 && m.message[..CLength(m.message)] == Visible(ops[n - 1].text)
  {
    ErrorIsLatestFailure(p, updateRate, ops);
    RecordedReadsBack(ops[LatestConfigure(ops) - 1].text);
  }

  /** After a failed clean configuration a callback that is not interrupted publishes the recorded
      error exactly when the failure came before the runtime was stored; a runtime that could not
      be started is asked for its own state instead. */
  lemma {:induction false} FailurePublishedUnlessNotStarted(
      s: ControllerState, p: Params, updateRate: nat, env: ConfigureEnv, text: seq<Byte>)
    requires s.holdings.runtime.None? && StageOf(p, updateRate, env) != Configured
    ensures var t := AfterConfigure(s, p, updateRate, env, text);
            && t.initError.Some?
            && ((forall running :: TimerMessage(t, running) == t.initError) <==>
                StageOf(p, updateRate, env) != NotStarted)
  {
    var t := AfterConfigure(s, p, updateRate, env, text);
    if StageOf(p, updateRate, env) == NotStarted {
      assert TimerMessage(t, None) != t.initError;
    }
  }
}
