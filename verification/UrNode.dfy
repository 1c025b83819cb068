/** The Universal Robots node: driver callbacks, publishing and fault recovery. */
module UrNode {
  import opened Messages
  import opened ServiceCalls
  import opened UrStatus
  import opened UrRecovery
  import Sys = StatusSystem

  class UrOperationalStateNode {
    const config: Config
    var robotStatus: RobotStatus
    var operationalStatus: OperationalStatus
    ghost var published: seq<OperationalStatus>

    ghost predicate Valid()
      reads this
    {
      operationalStatus == ToOperationalStatus(robotStatus)
    }

    constructor (config: Config)
      ensures Valid() && robotStatus == NOTHING_RECEIVED && operationalStatus.state == UNKNOWN
      ensures this.config == config && published == []
    {
      this.config := config;
      robotStatus := NOTHING_RECEIVED;
      operationalStatus := OperationalStatus(UNKNOWN, "Waiting for robot status messages");
      published := [];
    }

    method RobotModeCallback(mode: RobotMode)
      requires Valid()
      modifies this
      ensures Valid() && Sys.UrRobot(robotStatus) == Sys.Receive(Sys.UrRobot(old(robotStatus)), Sys.RobotModeMsg(mode))
      ensures robotStatus == old(robotStatus).(robotMode := Some(mode))
      ensures published == old(published) + [operationalStatus]
    {
      robotStatus := robotStatus.(robotMode := Some(mode));
      operationalStatus := ToOperationalStatus(robotStatus);
      var statusToPublish := operationalStatus;
      published := published + [statusToPublish];
    }

    method SafetyModeCallback(mode: SafetyMode)
      requires Valid()
      modifies this
      ensures Valid() && Sys.UrRobot(robotStatus) == Sys.Receive(Sys.UrRobot(old(robotStatus)), Sys.SafetyModeMsg(mode))
      ensures robotStatus == old(robotStatus).(safetyMode := Some(mode))
      ensures published == old(published) + [operationalStatus]
    {
      robotStatus := robotStatus.(safetyMode := Some(mode));
      operationalStatus := ToOperationalStatus(robotStatus);
      var statusToPublish := operationalStatus;
      published := published + [statusToPublish];
    }

    method ProgramRunningCallback(running: bool)
      requires Valid()
      modifies this
      ensures Valid()
      ensures Sys.UrRobot(robotStatus) ==
              Sys.Receive(Sys.UrRobot(old(robotStatus)), Sys.ProgramRunningMsg(running))
      ensures robotStatus == old(robotStatus).(programRunning := Some(running))
      ensures published == old(published) + [operationalStatus]
    {
      robotStatus := robotStatus.(programRunning := Some(running));
      operationalStatus := ToOperationalStatus(robotStatus);
      var statusToPublish := operationalStatus;
      published := published + [statusToPublish];
    }

    method PublishOperationalStatus()
      modifies this`published
      ensures published == old(published) + [operationalStatus]
    {
      var statusToPublish := operationalStatus;
      published := published + [statusToPublish];
    }

    static method CallTriggerService(service: Behaviour, timeoutMs: nat) returns (code: StatusCode, waitedMs: nat)
      ensures Result(code, waitedMs) == TriggerResult(Config(timeoutMs, 0), service)
      ensures code == if service.appearsAfterMs > 500 then UNAVAILABLE
                      else if service.repliesAfterMs > timeoutMs then DEADLINE_EXCEEDED
                      else if service.success then OK else INTERNAL
    {
      waitedMs := 0;
      if service.appearsAfterMs != 0 {
        if service.appearsAfterMs > TRIGGER_DISCOVER_MS {
          return UNAVAILABLE, TRIGGER_DISCOVER_MS;
        }
        waitedMs := service.appearsAfterMs;
      }
      if service.repliesAfterMs > timeoutMs {
        return DEADLINE_EXCEEDED, waitedMs + timeoutMs;
      }
      waitedMs := waitedMs + service.repliesAfterMs;
      code := if service.success then OK else INTERNAL;
    }

    static method CallSetModeAction(action: ActionServer, timeoutMs: nat) returns (code: StatusCode, waitedMs: nat)
      ensures Result(code, waitedMs) == SetModeResult(Config(0, timeoutMs), action)
      ensures code == OK <==>
              && action.appearsAfterMs <= 1000 && action.goalRepliesAfterMs <= 3000 && action.goalAccepted
              && action.resultAfterMs <= timeoutMs && action.succeeded
    {
      waitedMs := 0;
      if action.appearsAfterMs != 0 {
        if action.appearsAfterMs > ACTION_DISCOVER_MS {
          return UNAVAILABLE, ACTION_DISCOVER_MS;
        }
        waitedMs := action.appearsAfterMs;
      }
      if action.goalRepliesAfterMs > GOAL_MS {
        return DEADLINE_EXCEEDED, waitedMs + GOAL_MS;
      }
      waitedMs := waitedMs + action.goalRepliesAfterMs;
      if !action.goalAccepted {
        return INTERNAL, waitedMs;
      }
      if action.resultAfterMs > timeoutMs {
        return DEADLINE_EXCEEDED, waitedMs + timeoutMs;
      }
      waitedMs := waitedMs + action.resultAfterMs;
      code := if action.succeeded then OK else INTERNAL;
    }

    /** Appends one Trigger call to the sequence. */
    method Issue(client: Client, env: RecoveryEnv, calls: seq<RecoveryCall>, waitedMs: nat)
      returns (code: StatusCode, calls': seq<RecoveryCall>, waitedMs': nat)
      requires waitedMs >= WaitOf(calls, config, env)
      ensures calls' == calls + [Trigger(client)]
      ensures code == TriggerResult(config, env.services(|calls|)).code
      ensures waitedMs' - WaitOf(calls', config, env) == waitedMs - WaitOf(calls, config, env)
    {
      var waited;
      code, waited := CallTriggerService(env.services(|calls|), config.serviceTimeoutMs);
      hide WaitOf;
      calls' := calls + [Trigger(client)];
      WaitSnoc(calls, Trigger(client), config, env);
      waitedMs' := waitedMs + waited;
    }

    /** Appends two Trigger calls; only the result of the second matters. */
    method IssueBoth(first: Client, second: Client, env: RecoveryEnv, calls: seq<RecoveryCall>, waitedMs: nat)
      returns (code: StatusCode, calls': seq<RecoveryCall>, waitedMs': nat)
      requires waitedMs >= WaitOf(calls, config, env)
      ensures calls' == calls + [Trigger(first), Trigger(second)]
      ensures code == TriggerResult(config, env.services(|calls'| - 1)).code
      ensures waitedMs' - WaitOf(calls', config, env) == waitedMs - WaitOf(calls, config, env)
    {
      code, calls', waitedMs' := Issue(first, env, calls, waitedMs);
      code, calls', waitedMs' := Issue(second, env, calls', waitedMs');
    }

    /** Connects if needed and releases the safety stop that the cached status names. */
    method ReleaseSafety(r: RobotStatus, env: RecoveryEnv) returns (calls: seq<RecoveryCall>, waitedMs: nat)
      ensures calls == ReleaseCalls(r)
      ensures waitedMs == WaitOf(calls, config, env) + PauseOf(r)
    {
      var currentRobot := if r.robotMode.Some? then r.robotMode.value else DISCONNECTED;
      calls, waitedMs := [], 0;
      if currentRobot == DISCONNECTED || currentRobot == NO_CONTROLLER {
        var ignored;
        ignored, calls, waitedMs := Issue(CONNECT, env, calls, waitedMs);
      }
      assert calls == ConnectCalls(r);
      calls, waitedMs := ReleaseStop(SafetyOf(r), env, calls, waitedMs);
    }

    method ReleaseStop(safety: SafetyMode, env: RecoveryEnv, calls: seq<RecoveryCall>, waitedMs: nat)
      returns (calls': seq<RecoveryCall>, waitedMs': nat)
      requires waitedMs == WaitOf(calls, config, env)
      ensures calls' == calls + StopCalls(safety)
      ensures waitedMs' == WaitOf(calls', config, env) + (if IsRestartable(safety) then SAFETY_PAUSE_MS else 0)
    {
      var ignored;
      calls', waitedMs' := calls, waitedMs;
      if safety == PROTECTIVE_STOP {
        ignored, calls', waitedMs' := Issue(UNLOCK_PROTECTIVE_STOP, env, calls', waitedMs');
      } else if IsRestartable(safety) {
        ignored, calls', waitedMs' := IssueBoth(CLOSE_SAFETY_POPUP, RESTART_SAFETY, env, calls', waitedMs');
        waitedMs' := waitedMs' + SAFETY_PAUSE_MS;
      }
    }

    /** Dismisses both popups and attempts SetMode. */
    method SetRunning(env: RecoveryEnv, calls: seq<RecoveryCall>, waitedMs: nat)
      returns (code: StatusCode, calls': seq<RecoveryCall>, waitedMs': nat)
      requires waitedMs >= WaitOf(calls, config, env)
      ensures calls' == calls + RESTART_CALLS
      ensures code == SetModeResult(config, env.action).code
      ensures waitedMs' - WaitOf(calls', config, env) == waitedMs - WaitOf(calls, config, env)
    {
      code, calls', waitedMs' := IssueBoth(CLOSE_SAFETY_POPUP, CLOSE_POPUP, env, calls, waitedMs);
      var waited;
      code, waited := CallSetModeAction(env.action, config.actionTimeoutMs);
      assert (calls' + [SetMode])[..|calls'|] == calls';
      calls' := calls' + [SetMode];
      waitedMs' := waitedMs' + waited;
      assert calls' == calls + RESTART_CALLS;
    }

    /** The cached status is read once and never written; every run ends with a publish. */
    method ClearFaults(env: RecoveryEnv) returns (code: StatusCode, calls: seq<RecoveryCall>, waitedMs: nat)
      modifies this`published
      ensures Recovery(code, calls, waitedMs) == Recover(robotStatus, config, env)
      ensures published == old(published) + [operationalStatus]
    {
      hide ReleaseCalls, WaitOf, TriggerResult, SetModeResult, PauseOf, Wait;
      var currentStatus := robotStatus;
      calls, waitedMs := ReleaseSafety(currentStatus, env);
      var setModeCode;
      setModeCode, calls, waitedMs := SetRunning(env, calls, waitedMs);
      ghost var restarted := ReleaseCalls(currentStatus) + RESTART_CALLS;
      assert calls == restarted;
      if setModeCode == OK {
        assert Calls(currentStatus, true) == restarted + [] == restarted;
        PublishOperationalStatus();
        return OK, calls, waitedMs;
      }
      var resendCode;
      resendCode, calls, waitedMs := IssueBoth(BRAKE_RELEASE, RESEND_ROBOT_PROGRAM, env, calls, waitedMs);
      assert Calls(currentStatus, false) == restarted + [Trigger(BRAKE_RELEASE), Trigger(RESEND_ROBOT_PROGRAM)];
      PublishOperationalStatus();
      if resendCode == OK {
        return OK, calls, waitedMs;
      }
      return INTERNAL, calls, waitedMs;
    }
  }
}
