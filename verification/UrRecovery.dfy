/** The recovery sequence of the Universal Robots node. */
module UrRecovery {
  import opened Arithmetic
  import opened Messages
  import opened ServiceCalls
  import opened UrStatus

  datatype Client =
    | CONNECT | UNLOCK_PROTECTIVE_STOP | CLOSE_SAFETY_POPUP | RESTART_SAFETY
    | CLOSE_POPUP | BRAKE_RELEASE | RESEND_ROBOT_PROGRAM

  datatype RecoveryCall = Trigger(client: Client) | SetMode

  datatype Config = Config(serviceTimeoutMs: nat, actionTimeoutMs: nat)

  const DEFAULT_CONFIG := Config(5000, 15000)

  const TRIGGER_DISCOVER_MS := 500
  const ACTION_DISCOVER_MS := 1000
  const GOAL_MS := 3000
  const SAFETY_PAUSE_MS := 500

  datatype ActionServer = ActionServer(
    appearsAfterMs: nat, goalRepliesAfterMs: nat, goalAccepted: bool, resultAfterMs: nat, succeeded: bool)

  /** `services(n)` is the service that the n-th call of the sequence meets. */
  datatype RecoveryEnv = RecoveryEnv(services: Environment, action: ActionServer)

  datatype Result = Result(code: StatusCode, waitedMs: nat)

  function TriggerResult(cfg: Config, b: Behaviour): (r: Result)
    ensures r.waitedMs <= TRIGGER_DISCOVER_MS + cfg.serviceTimeoutMs
    ensures r.code == OK <==> Call(b, TRIGGER_DISCOVER_MS, cfg.serviceTimeoutMs).outcome == Accepted
  {
    var reply := Call(b, TRIGGER_DISCOVER_MS, cfg.serviceTimeoutMs);
    Result(match reply.outcome
           case NotAvailable => UNAVAILABLE
           case TimedOut => DEADLINE_EXCEEDED
           case Refused => INTERNAL
           case Accepted => OK, reply.waitedMs)
  }

  function SetModeResult(cfg: Config, a: ActionServer): (r: Result)
    ensures r.waitedMs <= ACTION_DISCOVER_MS + GOAL_MS + cfg.actionTimeoutMs
  {
    if a.appearsAfterMs > ACTION_DISCOVER_MS then Result(UNAVAILABLE, ACTION_DISCOVER_MS)
    else if a.goalRepliesAfterMs > GOAL_MS then Result(DEADLINE_EXCEEDED, a.appearsAfterMs + GOAL_MS)
    else
      var sent := a.appearsAfterMs + a.goalRepliesAfterMs;
      if !a.goalAccepted then Result(INTERNAL, sent)
      else if a.resultAfterMs > cfg.actionTimeoutMs then Result(DEADLINE_EXCEEDED, sent + cfg.actionTimeoutMs)
      else Result(if a.succeeded then OK else INTERNAL, sent + a.resultAfterMs)
  }

  /** When a Trigger call succeeds, and how it fails otherwise. */
  lemma {:induction false} TriggerExactly(cfg: Config, b: Behaviour)
    ensures var r := TriggerResult(cfg, b);
            && r.code == (if b.appearsAfterMs > 500 then UNAVAILABLE
                          else if b.repliesAfterMs > cfg.serviceTimeoutMs then DEADLINE_EXCEEDED
                          else if b.success then OK else INTERNAL)
            && r.waitedMs == Wait(b.appearsAfterMs, 500, Wait(b.repliesAfterMs, cfg.serviceTimeoutMs, 0))
  {
  }

  /** Waiting for something that needs `needed`, for at most `limit`, and if it came for what follows. */
  function Wait(needed: nat, limit: nat, afterwards: nat): nat {
    if needed > limit then limit else needed + afterwards
  }

  /** SetMode succeeds exactly when its server appears within a second, accepts the goal within
      three, and reports success within the action timeout. */
  lemma {:induction false} SetModeExactly(cfg: Config, a: ActionServer)
    ensures var r := SetModeResult(cfg, a);
            && (r.code == OK <==>
                  && a.appearsAfterMs <= 1000 && a.goalRepliesAfterMs <= 3000 && a.goalAccepted
                  && a.resultAfterMs <= cfg.actionTimeoutMs && a.succeeded)
            && (r.code == UNAVAILABLE <==> a.appearsAfterMs > 1000)
            && (r.code == DEADLINE_EXCEEDED <==>
                  && a.appearsAfterMs <= 1000
                  && (a.goalRepliesAfterMs > 3000 || (a.goalAccepted && a.resultAfterMs > cfg.actionTimeoutMs)))
            && r.code in {OK, UNAVAILABLE, DEADLINE_EXCEEDED, INTERNAL}
            && r.waitedMs == Wait(a.appearsAfterMs, 1000,
                                  Wait(a.goalRepliesAfterMs, 3000,
                                       if a.goalAccepted then Wait(a.resultAfterMs, cfg.actionTimeoutMs, 0) else 0))
  {
  }

  predicate NeedsConnect(r: RobotStatus) {
    r.robotMode.None? || r.robotMode.value == DISCONNECTED || r.robotMode.value == NO_CONTROLLER
  }

  predicate IsRestartable(safety: SafetyMode) {
    || safety.VIOLATION? || safety.FAULT? || safety.SAFEGUARD_STOP? || safety.AUTOMATIC_MODE_SAFEGUARD_STOP?
    || safety.SYSTEM_EMERGENCY_STOP? || safety.ROBOT_EMERGENCY_STOP?
  }

  /** A safety mode that was never reported counts as undefined. */
  function SafetyOf(r: RobotStatus): SafetyMode {
    if r.safetyMode.Some? then r.safetyMode.value else UNDEFINED_SAFETY_MODE
  }

  function ConnectCalls(r: RobotStatus): seq<RecoveryCall> {
    if NeedsConnect(r) then [Trigger(CONNECT)] else []
  }

  function StopCalls(safety: SafetyMode): seq<RecoveryCall> {
    if safety == PROTECTIVE_STOP then [Trigger(UNLOCK_PROTECTIVE_STOP)]
    else if IsRestartable(safety) then [Trigger(CLOSE_SAFETY_POPUP), Trigger(RESTART_SAFETY)]
    else []
  }

  function ReleaseCalls(r: RobotStatus): seq<RecoveryCall> {
    ConnectCalls(r) + StopCalls(SafetyOf(r))
  }

  const RESTART_CALLS := [Trigger(CLOSE_SAFETY_POPUP), Trigger(CLOSE_POPUP), SetMode]

  function FallbackCalls(setModeOk: bool): seq<RecoveryCall> {
    if setModeOk then [] else [Trigger(BRAKE_RELEASE), Trigger(RESEND_ROBOT_PROGRAM)]
  }

  function Calls(r: RobotStatus, setModeOk: bool): seq<RecoveryCall> {
    ReleaseCalls(r) + RESTART_CALLS + FallbackCalls(setModeOk)
  }

  function ResultOf(call: RecoveryCall, cfg: Config, env: RecoveryEnv, n: nat): Result {
    if call.SetMode? then SetModeResult(cfg, env.action) else TriggerResult(cfg, env.services(n))
  }

  function WaitOf(calls: seq<RecoveryCall>, cfg: Config, env: RecoveryEnv): nat {
    if calls == [] then 0
    else
      var n := |calls| - 1;
      WaitOf(calls[..n], cfg, env) + ResultOf(calls[n], cfg, env, n).waitedMs
  }

  lemma {:induction false} WaitSnoc(calls: seq<RecoveryCall>, call: RecoveryCall, cfg: Config, env: RecoveryEnv)
    ensures WaitOf(calls + [call], cfg, env) == WaitOf(calls, cfg, env) + ResultOf(call, cfg, env, |calls|).waitedMs
  {
    assert (calls + [call])[..|calls|] == calls;
  }

  datatype Recovery = Recovery(code: StatusCode, calls: seq<RecoveryCall>, waitedMs: nat)

  function Recover(r: RobotStatus, cfg: Config, env: RecoveryEnv): Recovery {
    var setModeOk := SetModeResult(cfg, env.action).code == OK;
    var calls := Calls(r, setModeOk);
    Recovery(
      if setModeOk || TriggerResult(cfg, env.services(|calls| - 1)).code == OK then OK else INTERNAL,
      calls,
      WaitOf(calls, cfg, env) + PauseOf(r))
  }

  function PauseOf(r: RobotStatus): nat {
    if IsRestartable(SafetyOf(r)) then SAFETY_PAUSE_MS else 0
  }

  // ---- The protocol, over all cached statuses and environments ----

  predicate Issued(calls: seq<RecoveryCall>, client: Client) {
    Trigger(client) in calls
  }

  lemma {:induction false} IssuedConcat(a: seq<RecoveryCall>, b: seq<RecoveryCall>, client: Client)
    ensures Issued(a + b, client) <==> Issued(a, client) || Issued(b, client)
  {
  }

  /** Restarting the safety system directly follows closing its popup. */
  ghost predicate RestartFollowsClose(calls: seq<RecoveryCall>) {
    forall i :: 0 <= i < |calls| && calls[i] == Trigger(RESTART_SAFETY) ==>
      i > 0 && calls[i - 1] == Trigger(CLOSE_SAFETY_POPUP)
  }

  /** Which clients a run calls, as decided by the cached status alone. */
  lemma {:induction false} RecoveryProtocol(r: RobotStatus, cfg: Config, env: RecoveryEnv)
    ensures var calls := Recover(r, cfg, env).calls;
            && (Issued(calls, UNLOCK_PROTECTIVE_STOP) <==> r.safetyMode == Some(PROTECTIVE_STOP))
            && (Issued(calls, RESTART_SAFETY) <==>
                  r.safetyMode.Some? && r.safetyMode.value in
                  {VIOLATION, FAULT, SAFEGUARD_STOP, AUTOMATIC_MODE_SAFEGUARD_STOP,
                   SYSTEM_EMERGENCY_STOP, ROBOT_EMERGENCY_STOP})
            && (Issued(calls, CONNECT) <==>
                  r.robotMode == None || r.robotMode == Some(DISCONNECTED) || r.robotMode == Some(NO_CONTROLLER))
            && RestartFollowsClose(calls)
  {
    var ok := SetModeResult(cfg, env.action).code == OK;
    ProtocolOf(r, ok);
  }

  /** All calls of a run in their order: connect, release the stop, dismiss both popups and set the
      mode; and if that failed, release the brakes and resend the program. */
  lemma {:induction false} CallsInOrder(r: RobotStatus, cfg: Config, env: RecoveryEnv)
    ensures var calls, a := Recover(r, cfg, env).calls, env.action;
            var connect := || r.robotMode == None
                           || r.robotMode == Some(DISCONNECTED) || r.robotMode == Some(NO_CONTROLLER);
            var restart := r.safetyMode.Some? && r.safetyMode.value in
                           {VIOLATION, FAULT, SAFEGUARD_STOP, AUTOMATIC_MODE_SAFEGUARD_STOP,
                            SYSTEM_EMERGENCY_STOP, ROBOT_EMERGENCY_STOP};
            var wasSet := && a.appearsAfterMs <= 1000 && a.goalRepliesAfterMs <= 3000 && a.goalAccepted
                          && a.resultAfterMs <= cfg.actionTimeoutMs && a.succeeded;
            calls ==
            (if connect then [Trigger(CONNECT)] else [])
            + (if r.safetyMode == Some(PROTECTIVE_STOP) then [Trigger(UNLOCK_PROTECTIVE_STOP)]
               else if restart then [Trigger(CLOSE_SAFETY_POPUP), Trigger(RESTART_SAFETY)] else [])
            + [Trigger(CLOSE_SAFETY_POPUP), Trigger(CLOSE_POPUP), SetMode]
            + (if wasSet then [] else [Trigger(BRAKE_RELEASE), Trigger(RESEND_ROBOT_PROGRAM)])
  {
    SetModeExactly(cfg, env.action);
  }

  lemma {:induction false} ProtocolOf(r: RobotStatus, ok: bool)
    ensures var calls := Calls(r, ok);
            && (Issued(calls, UNLOCK_PROTECTIVE_STOP) <==> r.safetyMode == Some(PROTECTIVE_STOP))
            && (Issued(calls, RESTART_SAFETY) <==> IsRestartable(SafetyOf(r)))
            && (Issued(calls, CONNECT) <==> NeedsConnect(r))
            && RestartFollowsClose(calls)
  {
    var tail := RESTART_CALLS + FallbackCalls(ok);
    assert Calls(r, ok) == ReleaseCalls(r) + tail;
    assert !Issued(tail, UNLOCK_PROTECTIVE_STOP) && !Issued(tail, RESTART_SAFETY) && !Issued(tail, CONNECT);
    ReleaseProtocol(r);
    IssuedConcat(ReleaseCalls(r), tail, UNLOCK_PROTECTIVE_STOP);
    IssuedConcat(ReleaseCalls(r), tail, RESTART_SAFETY);
    IssuedConcat(ReleaseCalls(r), tail, CONNECT);
  }

  lemma {:induction false} ReleaseProtocol(r: RobotStatus)
    ensures var calls := ReleaseCalls(r);
            && (Issued(calls, UNLOCK_PROTECTIVE_STOP) <==> r.safetyMode == Some(PROTECTIVE_STOP))
            && (Issued(calls, RESTART_SAFETY) <==> IsRestartable(SafetyOf(r)))
            && (Issued(calls, CONNECT) <==> NeedsConnect(r))
            && RestartFollowsClose(calls)
            && SetMode !in calls && !Issued(calls, BRAKE_RELEASE) && !Issued(calls, RESEND_ROBOT_PROGRAM)
            && |calls| <= 3
  {
    var a, b := ConnectCalls(r), StopCalls(SafetyOf(r));
    IssuedConcat(a, b, UNLOCK_PROTECTIVE_STOP);
    IssuedConcat(a, b, RESTART_SAFETY);
    IssuedConcat(a, b, CONNECT);
    IssuedConcat(a, b, BRAKE_RELEASE);
    IssuedConcat(a, b, RESEND_ROBOT_PROGRAM);
  }

  /** SetMode is attempted exactly once, right after both popups were dismissed; brake release
      and resend follow exactly when it failed; the run is OK exactly when SetMode or the
      resend (which is then the last call) succeeded. */
  lemma {:induction false} SetModeOnce(r: RobotStatus, cfg: Config, env: RecoveryEnv) returns (m: nat)
    ensures var run := Recover(r, cfg, env); var calls := run.calls;
            && 2 <= m < |calls| && m <= 5
            && SetMode !in calls[..m] && calls[m] == SetMode && SetMode !in calls[m + 1..]
            && calls[m - 2] == Trigger(CLOSE_SAFETY_POPUP) && calls[m - 1] == Trigger(CLOSE_POPUP)
            && calls[m + 1..] == (if SetModeResult(cfg, env.action).code == OK then []
                                  else [Trigger(BRAKE_RELEASE), Trigger(RESEND_ROBOT_PROGRAM)])
            && !Issued(calls[..m], BRAKE_RELEASE) && !Issued(calls[..m], RESEND_ROBOT_PROGRAM)
            && (run.code == OK <==>
                  || SetModeResult(cfg, env.action).code == OK
                  || (|calls| == m + 3 && calls[m + 2] == Trigger(RESEND_ROBOT_PROGRAM)
                      && TriggerResult(cfg, env.services(m + 2)).code == OK))
            && run.code in {OK, INTERNAL}
  {
    var ok := SetModeResult(cfg, env.action).code == OK;
    m := SetModePosition(r, ok);
    assert !ok ==> Calls(r, ok)[m + 2] == Calls(r, ok)[m + 1..][1];
  }

  lemma {:induction false} SetModePosition(r: RobotStatus, ok: bool) returns (m: nat)
    ensures var calls := Calls(r, ok);
            && 2 <= m < |calls| && m <= 5
            && SetMode !in calls[..m] && calls[m] == SetMode && SetMode !in calls[m + 1..]
            && calls[m - 2] == Trigger(CLOSE_SAFETY_POPUP) && calls[m - 1] == Trigger(CLOSE_POPUP)
            && calls[m + 1..] == FallbackCalls(ok)
            && !Issued(calls[..m], BRAKE_RELEASE) && !Issued(calls[..m], RESEND_ROBOT_PROGRAM)
  {
    hide ReleaseCalls;
    ReleaseProtocol(r);
    var released, dismissed := ReleaseCalls(r), [Trigger(CLOSE_SAFETY_POPUP), Trigger(CLOSE_POPUP)];
    m := |released| + 2;
    var prefix := released + dismissed;
    assert SetMode !in prefix;
    assert Calls(r, ok) == prefix + [SetMode] + FallbackCalls(ok);
    assert Calls(r, ok)[..m] == prefix && prefix[m - 2..] == dismissed;
    assert Calls(r, ok)[m + 1..] == FallbackCalls(ok);
    IssuedConcat(released, dismissed, BRAKE_RELEASE);
    IssuedConcat(released, dismissed, RESEND_ROBOT_PROGRAM);
  }

  /** The waiting of a run is that of its calls, one after the other, and half a second exactly
      after a restart of the safety system. */
  lemma {:induction false} RecoveryWaitExactly(r: RobotStatus, cfg: Config, env: RecoveryEnv) returns (waits: seq<nat>)
    ensures var run, a := Recover(r, cfg, env), env.action;
            && |waits| == |run.calls|
            && run.waitedMs == Sum(waits) + (if Issued(run.calls, RESTART_SAFETY) then 500 else 0)
            && forall i :: 0 <= i < |waits| ==>
                 waits[i] == (
                   if run.calls[i].Trigger? then
                     var b := env.services(i);
                     Wait(b.appearsAfterMs, 500, Wait(b.repliesAfterMs, cfg.serviceTimeoutMs, 0))
                   else
                     Wait(a.appearsAfterMs, 1000,
                          Wait(a.goalRepliesAfterMs, 3000,
                               if a.goalAccepted then Wait(a.resultAfterMs, cfg.actionTimeoutMs, 0) else 0)))
  {
    hide Calls, WaitOf;
    RecoveryProtocol(r, cfg, env);
    waits := WaitsOf(Recover(r, cfg, env).calls, cfg, env);
  }

  lemma {:induction false} WaitsOf(calls: seq<RecoveryCall>, cfg: Config, env: RecoveryEnv) returns (waits: seq<nat>)
    ensures |waits| == |calls| && WaitOf(calls, cfg, env) == Sum(waits)
    ensures forall i :: 0 <= i < |waits| ==> waits[i] == ResultOf(calls[i], cfg, env, i).waitedMs
    decreases |calls|
  {
    if calls == [] {
      waits := [];
    } else {
      hide ResultOf;
      var n := |calls| - 1;
      var earlier := WaitsOf(calls[..n], cfg, env);
      waits := earlier + [ResultOf(calls[n], cfg, env, n).waitedMs];
      assert waits[..n] == earlier;
    }
  }

  function CountTriggers(calls: seq<RecoveryCall>): nat {
    if calls == [] then 0
    else CountTriggers(calls[..|calls| - 1]) + if calls[|calls| - 1].Trigger? then 1 else 0
  }

  lemma {:induction false} CountSplits(a: seq<RecoveryCall>, b: seq<RecoveryCall>)
    ensures CountTriggers(a + b) == CountTriggers(a) + CountTriggers(b)
    decreases |b|
  {
    if b == [] {
      assert a + b == a;
    } else {
      CountSplits(a, b[..|b| - 1]);
      assert (a + b)[..|a + b| - 1] == a + b[..|b| - 1];
    }
  }

  lemma {:induction false} OnlyTriggers(a: seq<RecoveryCall>)
    requires SetMode !in a
    ensures CountTriggers(a) == |a|
    decreases |a|
  {
    if a != [] {
      OnlyTriggers(a[..|a| - 1]);
    }
  }

  /** The longest that a Trigger call and the SetMode action can take. */
  function MaxTrigger(cfg: Config): nat { TRIGGER_DISCOVER_MS + cfg.serviceTimeoutMs }
  function MaxSetMode(cfg: Config): nat { ACTION_DISCOVER_MS + GOAL_MS + cfg.actionTimeoutMs }

  function MaxWait(calls: seq<RecoveryCall>, cfg: Config): nat {
    if calls == [] then 0
    else
      var n := |calls| - 1;
      MaxWait(calls[..n], cfg) + if calls[n].SetMode? then MaxSetMode(cfg) else MaxTrigger(cfg)
  }

  lemma {:induction false} WaitIsBounded(calls: seq<RecoveryCall>, cfg: Config, env: RecoveryEnv)
    ensures WaitOf(calls, cfg, env) <= MaxWait(calls, cfg)
    decreases |calls|
  {
    if calls != [] {
      WaitIsBounded(calls[..|calls| - 1], cfg, env);
    }
  }

  lemma {:induction false} MaxWaitIs(calls: seq<RecoveryCall>, cfg: Config)
    ensures CountTriggers(calls) <= |calls|
    ensures MaxWait(calls, cfg) ==
            CountTriggers(calls) * MaxTrigger(cfg) + (|calls| - CountTriggers(calls)) * MaxSetMode(cfg)
    decreases |calls|
  {
    if calls != [] {
      var n := |calls| - 1;
      MaxWaitIs(calls[..n], cfg);
      var k := CountTriggers(calls[..n]);
      OneMore(k, MaxTrigger(cfg));
      OneMore(n - k, MaxSetMode(cfg));
    }
  }

  lemma {:induction false} OneMore(k: nat, t: nat)
    ensures (k + 1) * t == k * t + t
  {
  }

  lemma {:induction false} CallCounts(r: RobotStatus, cfg: Config, env: RecoveryEnv)
    ensures var calls := Recover(r, cfg, env).calls;
            CountTriggers(calls) <= 7 && |calls| == CountTriggers(calls) + 1
  {
    var calls := Recover(r, cfg, env).calls;
    var m := SetModeOnce(r, cfg, env);
    CountSplits(calls[..m], [SetMode]);
    CountSplits(calls[..m] + [SetMode], calls[m + 1..]);
    OnlyTriggers(calls[..m]);
    OnlyTriggers(calls[m + 1..]);
    assert calls == calls[..m] + [SetMode] + calls[m + 1..];
    assert CountTriggers([SetMode]) == 0;
  }

  lemma {:induction false} SevenTriggersAndSetMode(calls: seq<RecoveryCall>, cfg: Config)
    requires CountTriggers(calls) <= 7 && |calls| == CountTriggers(calls) + 1
    ensures MaxWait(calls, cfg) <= 7 * MaxTrigger(cfg) + MaxSetMode(cfg)
  {
    hide MaxWait, CountTriggers, MaxTrigger, MaxSetMode;
    MaxWaitIs(calls, cfg);
    var k, t := CountTriggers(calls), MaxTrigger(cfg);
    if k < 7 {
      MulStep(k, 7, t);
    }
  }

  /** At most seven Trigger calls and one SetMode, and at most
      7 * service_timeout + action_timeout + 8 s of waiting. */
  lemma {:induction false} RecoveryWaitBound(r: RobotStatus, cfg: Config, env: RecoveryEnv)
    ensures Recover(r, cfg, env).waitedMs <= 7 * cfg.serviceTimeoutMs + cfg.actionTimeoutMs + 8000
  {
    var calls := Recover(r, cfg, env).calls;
    CallCounts(r, cfg, env);
    WaitIsBounded(calls, cfg, env);
    SevenTriggersAndSetMode(calls, cfg);
  }

  /** Everything appears at the last moment; only the final resend succeeds. */
  function SlowestEnv(cfg: Config): RecoveryEnv {
    RecoveryEnv(SlowEnvironment(TRIGGER_DISCOVER_MS, cfg.serviceTimeoutMs),
                ActionServer(ACTION_DISCOVER_MS, GOAL_MS, true, cfg.actionTimeoutMs, false))
  }

  lemma {:induction false} SlowestWait(calls: seq<RecoveryCall>, cfg: Config)
    ensures WaitOf(calls, cfg, SlowestEnv(cfg)) == MaxWait(calls, cfg)
    decreases |calls|
  {
    if calls != [] {
      SlowestWait(calls[..|calls| - 1], cfg);
    }
  }

  /** The bound is reached, by a disconnected robot with a safety violation. */
  lemma {:induction false} RecoveryWaitReached(r: RobotStatus, cfg: Config)
    requires NeedsConnect(r) && IsRestartable(SafetyOf(r))
    ensures var run := Recover(r, cfg, SlowestEnv(cfg));
            run.code == OK && run.waitedMs == 7 * cfg.serviceTimeoutMs + cfg.actionTimeoutMs + 8000
  {
    var calls := Recover(r, cfg, SlowestEnv(cfg)).calls;
    CallCounts(r, cfg, SlowestEnv(cfg));
    SlowestWait(calls, cfg);
    MaxWaitIs(calls, cfg);
    assert |calls| == 8;
  }
}
