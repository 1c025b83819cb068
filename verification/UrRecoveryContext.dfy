/** The recovery of the Universal Robots node in its context: the driver messages before it and
    the hardware module that asked for it. */
module UrRecoveryContext {
  import opened Messages
  import opened ServiceCalls
  import opened UrStatus
  import opened UrRecovery
  import opened StatusHistory
  import Hwm = HwmSequences
  import Sys = StatusSystem

  /** In any run of the node, what a recovery releases is decided by the last safety message that
      was handled before the recovery read the status. */
  lemma {:induction false} RecoveryFollowsLastReport(
      s0: Sys.System, steps: seq<Sys.Step>, cfg: Config, env: RecoveryEnv)
    requires s0.Initial() && s0.robot.UrRobot?
    ensures Sys.Run(s0, steps).robot.UrRobot?
    ensures var calls := Recover(Sys.Run(s0, steps).robot.ur, cfg, env).calls;
            var last := Last(Received(SAFETY_MODE, History(s0, steps)));
            && (Issued(calls, UNLOCK_PROTECTIVE_STOP) <==> last == Some(Sys.SafetyModeMsg(PROTECTIVE_STOP)))
            && (Issued(calls, RESTART_SAFETY) <==>
                  last.Some? && last.value.safety in
                  {VIOLATION, FAULT, SAFEGUARD_STOP, AUTOMATIC_MODE_SAFEGUARD_STOP,
                   SYSTEM_EMERGENCY_STOP, ROBOT_EMERGENCY_STOP})
  {
    UrCacheHoldsLast(s0, steps);
    RecoveryProtocol(Sys.Run(s0, steps).robot.ur, cfg, env);
  }

  // ---- Seen from the hardware module that asked for the recovery ----

  /** The clear_faults service as its caller meets it. */
  function AsService(run: Recovery, appearsAfterMs: nat): Behaviour {
    Behaviour(appearsAfterMs, run.waitedMs, run.code == OK)
  }

  /** The hardware module takes the recovery as acknowledged exactly when its service appeared
      within a second and the recovery was OK within five; ClearFaults can be OK only then, and
      a longer recovery is reported as a timeout whatever it achieved. */
  lemma {:induction false} CallerNeedsFastRecovery(
      p: Hwm.HwmParams, env: Environment, run: Recovery, appearsAfterMs: nat)
    requires p.hasClearFaultsService && env(0) == AsService(run, appearsAfterMs)
    ensures var r := Hwm.RunOf(p, Hwm.ClearFaults(env)); var code := r.code;
            && r.events != [] && r.events[0].request == Hwm.ClearFaultsTrigger
            && (r.events[0].outcome == Accepted <==>
                  appearsAfterMs <= 1000 && run.waitedMs <= 5000 && run.code == OK)
            && (code == OK ==> r.events[0].outcome == Accepted)
            && (appearsAfterMs <= 1000 && run.waitedMs > 5000 ==> code == DEADLINE_EXCEEDED)
  {
    Hwm.RunCons(Hwm.Request(Hwm.ClearFaultsTrigger), Hwm.ActivationSteps(p), env, 0);
    assert Hwm.ClearFaultsSteps(p) == [Hwm.Request(Hwm.ClearFaultsTrigger)] + Hwm.ActivationSteps(p);
  }

  /** With the default timeouts a recovery can succeed after 58 s, which its caller reports as
      a timeout. */
  lemma {:induction false} SuccessfulRecoveryTimesOutCaller(p: Hwm.HwmParams, r: RobotStatus)
      returns (env: Environment, run: Recovery)
    requires p.hasClearFaultsService && NeedsConnect(r) && IsRestartable(SafetyOf(r))
    ensures run == Recover(r, DEFAULT_CONFIG, SlowestEnv(DEFAULT_CONFIG)) && run.code == OK && run.waitedMs == 58000
    ensures env(0) == AsService(run, 0) && Hwm.RunOf(p, Hwm.ClearFaults(env)).code == DEADLINE_EXCEEDED
  {
    run := Recover(r, DEFAULT_CONFIG, SlowestEnv(DEFAULT_CONFIG));
    RecoveryWaitReached(r, DEFAULT_CONFIG);
    var service := AsService(run, 0);
    env := n => service;
    CallerNeedsFastRecovery(p, env, run, 0);
  }
}
