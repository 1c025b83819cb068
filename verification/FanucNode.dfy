/** The FANUC node: status callback and alarm recovery. */
module FanucNode {
  import opened Messages
  import opened ServiceCalls
  import opened FanucStatus
  import Sys = StatusSystem

  datatype VendorRequest = RESET | SWITCH_CONTROL_STATE(status: int)

  /** The control state that gives motion control to the ROS 2 driver. */
  const ROS_CONTROL := 1
  const DISCOVER_MS := 2000
  const PAUSE_MS := 200

  function RecoverySteps(serviceTimeoutMs: nat): seq<Step<VendorRequest>> {
    [Step(RESET, 0, DISCOVER_MS, serviceTimeoutMs, UNAVAILABLE),
     Step(SWITCH_CONTROL_STATE(ROS_CONTROL), PAUSE_MS, DISCOVER_MS, serviceTimeoutMs, UNAVAILABLE)]
  }

  class FanucOperationalStateNode {
    const serviceTimeoutMs: nat
    var operationalStatus: OperationalStatus
    ghost var published: seq<OperationalStatus>

    constructor (serviceTimeoutMs: nat)
      ensures operationalStatus == ToOperationalStatus(None) && published == []
      ensures this.serviceTimeoutMs == serviceTimeoutMs
    {
      this.serviceTimeoutMs := serviceTimeoutMs;
      operationalStatus := OperationalStatus(UNKNOWN, "Waiting for FANUC robot status messages");
      published := [];
    }

    method RobotStatusCallback(msg: RobotStatus)
      modifies this
      ensures operationalStatus == Sys.StatusOf(Sys.Receive(Sys.FanucRobot(None), Sys.FanucStatusMsg(msg)))
      ensures operationalStatus == ToOperationalStatus(Some(msg))
      ensures published == old(published) + [operationalStatus]
    {
      hide ToOperationalStatus;
      operationalStatus := ToOperationalStatus(Some(msg));
      var statusToPublish := operationalStatus;
      published := published + [statusToPublish];
    }

    method PublishOperationalStatus()
      modifies this`published
      ensures published == old(published) + [operationalStatus]
    {
      var statusToPublish := operationalStatus;
      published := published + [statusToPublish];
    }

    /** Resets the alarms, and 200 ms after an accepted reset requests control for ROS 2. Neither
        the cached status nor the topic is touched. */
    method ClearFaults(env: Environment) returns (code: StatusCode, requests: seq<Event<VendorRequest>>, waitedMs: nat)
      ensures RunResult(code, requests, waitedMs) == RunSteps(RecoverySteps(serviceTimeoutMs), env)
      ensures var reset, control := Call(env(0), 2000, serviceTimeoutMs), Call(env(1), 2000, serviceTimeoutMs);
              && 1 <= |requests| <= 2 && requests[0] == Event(RESET, reset.outcome)
              && (|requests| == 2 <==> reset.outcome == Accepted)
              && (|requests| == 2 ==> requests[1] == Event(SWITCH_CONTROL_STATE(1), control.outcome))
              && waitedMs == reset.waitedMs + (if |requests| == 2 then 200 + control.waitedMs else 0)
      ensures var last := requests[|requests| - 1].outcome;
              && (code == OK <==> |requests| == 2 && last == Accepted)
              && (code == UNAVAILABLE <==> last == NotAvailable)
              && (code == DEADLINE_EXCEEDED <==> last == TimedOut)
              && (code == INTERNAL <==> last == Refused)
    {
      var steps := RecoverySteps(serviceTimeoutMs);
      assert steps[1..] == [steps[1]] && steps[1..][1..] == [];
      var reset := Call(env(0), DISCOVER_MS, serviceTimeoutMs);
      requests := [Event(RESET, reset.outcome)];
      waitedMs := reset.waitedMs;
      if reset.outcome == NotAvailable {
        return UNAVAILABLE, requests, waitedMs;
      }
      if reset.outcome == TimedOut {
        return DEADLINE_EXCEEDED, requests, waitedMs;
      }
      if reset.outcome == Refused {
        return INTERNAL, requests, waitedMs;
      }
      waitedMs := waitedMs + PAUSE_MS;
      var control := Call(env(1), DISCOVER_MS, serviceTimeoutMs);
      requests := requests + [Event(SWITCH_CONTROL_STATE(1), control.outcome)];
      waitedMs := waitedMs + control.waitedMs;
      assert RunSteps(steps[1..], env, 1).events == [Event(SWITCH_CONTROL_STATE(1), control.outcome)];
      if control.outcome == NotAvailable {
        return UNAVAILABLE, requests, waitedMs;
      }
      if control.outcome == TimedOut {
        return DEADLINE_EXCEEDED, requests, waitedMs;
      }
      if control.outcome == Refused {
        return INTERNAL, requests, waitedMs;
      }
      return OK, requests, waitedMs;
    }
  }
}
