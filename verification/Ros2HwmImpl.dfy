/** The hardware module between ICON and ros2_control. */
module Ros2Hwm {
  import opened Arithmetic
  import opened Messages
  import opened ServiceCalls
  import opened InterfaceLayout
  import opened HwmSpec
  import opened HwmSequences

  class Ros2HwmImpl {
    const params: HwmParams
    var latestOperationalStatus: OperationalStatus
    /** The loaned command interfaces; empty while they are not claimed. */
    var commandInterfaces: array<Value>
    const position: array<Value>
    const velocity: array<Value>
    var positionStamp: nat
    var velocityStamp: nat
    /** All service requests so far, and the time spent waiting for them. */
    ghost var log: seq<HwmEvent>
    ghost var waitedMs: nat

    ghost predicate Valid()
      reads this
    {
      && params.stateStride > 0 && params.commandStride > 0
      && (commandInterfaces.Length == 0 || commandInterfaces.Length == params.CommandLayout().Size())
      && position.Length == velocity.Length == params.numDofs
      && position != velocity
    }

    ghost function Joints(): JointState
      reads this, position, velocity
    {
      JointState(position[..], velocity[..], positionStamp, velocityStamp)
    }

    constructor (params: HwmParams)
      requires params.stateStride > 0 && params.commandStride > 0
      ensures Valid() && this.params == params
      ensures latestOperationalStatus == OperationalStatus(UNKNOWN, "")
      ensures log == [] && waitedMs == 0
      ensures fresh(position) && fresh(velocity) && fresh(commandInterfaces)
    {
      this.params := params;
      latestOperationalStatus := OperationalStatus(UNKNOWN, "");
      commandInterfaces := new Value[0];
      position := new Value[params.numDofs];
      velocity := new Value[params.numDofs];
      positionStamp, velocityStamp := 0, 0;
      log, waitedMs := [], 0;
    }

    /** Rejects missing interface vectors and zero strides. */
    static method Create(params: HwmParams) returns (code: StatusCode, impl: Ros2HwmImpl?)
      ensures code == OK <==>
              && params.hasStateInterfaces && params.hasCommandInterfaces
              && params.stateStride != 0 && params.commandStride != 0
      ensures code != OK ==> code == INVALID_ARGUMENT && impl == null
      ensures code == OK ==>
        && impl != null && fresh(impl) && impl.Valid() && impl.params == params
        && impl.latestOperationalStatus.state == UNKNOWN
    {
      if !params.hasStateInterfaces {
        return INVALID_ARGUMENT, null;
      }
      if !params.hasCommandInterfaces {
        return INVALID_ARGUMENT, null;
      }
      if params.stateStride == 0 {
        return INVALID_ARGUMENT, null;
      }
      if params.commandStride == 0 {
        return INVALID_ARGUMENT, null;
      }
      impl := new Ros2HwmImpl(params);
      code := OK;
    }

    /** From now on commands that read the box are held back exactly for DISABLED and FAULTED. */
    method OnOperationalStatus(msg: OperationalStatus)
      modifies this`latestOperationalStatus
      ensures latestOperationalStatus == msg
      ensures Gate(latestOperationalStatus, true) == OK <==> msg.state != DISABLED && msg.state != FAULTED
    {
      latestOperationalStatus := msg;
    }

    /** Refuses only FAULTED, so a DISABLED robot can be enabled although `ApplyCommand`
        then rejects every command. */
    method EnableMotion() returns (code: StatusCode)
      ensures code == OK <==> latestOperationalStatus.state != FAULTED
      ensures code != OK ==> code == FAILED_PRECONDITION && Gate(latestOperationalStatus, true) != OK
      ensures latestOperationalStatus.state == DISABLED ==> code == OK && Gate(latestOperationalStatus, true) != OK
    {
      if latestOperationalStatus.state == FAULTED {
        return FAILED_PRECONDITION;
      }
      return OK;
    }

    /** Never refused while commands can be written. */
    method DisableMotion() returns (code: StatusCode)
      ensures code == OK <==> latestOperationalStatus.state != FAULTED
      ensures code != OK ==> code == FAILED_PRECONDITION
      ensures Gate(latestOperationalStatus, true) == OK ==> code == OK
    {
      if latestOperationalStatus.state == FAULTED {
        return FAILED_PRECONDITION;
      }
      return OK;
    }

    method ReadStatus(cycle: ReadCycle) returns (code: StatusCode)
      requires Valid() && cycle.Valid(params.StateLayout())
      modifies position, velocity, this`positionStamp, this`velocityStamp
      ensures Valid()
      ensures Joints() == AfterRead(params.StateLayout(), old(Joints()), cycle)
      ensures code == (if cycle.readings == [] then UNAVAILABLE
                       else if ReadSucceeds(params.StateLayout(), cycle) then OK else INTERNAL)
    {
      ghost var l := params.StateLayout();
      if |cycle.readings| == 0 {
        return UNAVAILABLE;
      }
      ghost var oldPosition, oldVelocity := position[..], velocity[..];
      for i := 0 to params.numDofs
        invariant AllReadable(l, cycle, 0, i)
        invariant unchanged(this`positionStamp, this`velocityStamp)
        invariant forall j :: 0 <= j < i ==> position[j] == Reading(l, cycle, 0, j)
        invariant forall j :: i <= j < params.numDofs ==> position[j] == oldPosition[j]
        invariant velocity[..] == oldVelocity
      {
        SlotBounds(params.numDofs, params.stateStride, i, 0);
        var positionFromRos := cycle.readings[i * params.stateStride];
        assert positionFromRos.Some? <==> Readable(l, cycle, 0, i);
        if positionFromRos.None? {
          CopyStopped(l, cycle, 0, oldPosition, position[..], i);
          return INTERNAL;
        }
        position[i] := positionFromRos.value;
      }
      CopyStopped(l, cycle, 0, oldPosition, position[..], params.numDofs);
      if params.stateStride > 1 {
        for i := 0 to params.numDofs
          invariant AllReadable(l, cycle, 1, i)
          invariant unchanged(this`positionStamp, this`velocityStamp)
          invariant forall j :: 0 <= j < i ==> velocity[j] == Reading(l, cycle, 1, j)
          invariant forall j :: i <= j < params.numDofs ==> velocity[j] == oldVelocity[j]
          invariant position[..] == Copied(l, cycle, 0, oldPosition)
        {
          SlotBounds(params.numDofs, params.stateStride, i, 1);
          var velocityFromRos := cycle.readings[1 + i * params.stateStride];
          assert velocityFromRos.Some? <==> Readable(l, cycle, 1, i);
          if velocityFromRos.None? {
            CopyStopped(l, cycle, 1, oldVelocity, velocity[..], i);
            return INTERNAL;
          }
          velocity[i] := velocityFromRos.value;
        }
        CopyStopped(l, cycle, 1, oldVelocity, velocity[..], params.numDofs);
      }
      positionStamp := cycle.now;
      velocityStamp := cycle.now;
      return OK;
    }

    method ApplyCommand(call: CommandCall) returns (code: StatusCode)
      requires Valid()
      modifies commandInterfaces
      ensures Valid()
      ensures commandInterfaces[..] ==
              AfterCommand(params.CommandLayout(), latestOperationalStatus, call, old(commandInterfaces[..]))
      ensures code == CommandCode(params.CommandLayout(), latestOperationalStatus, call, commandInterfaces.Length)
    {
      hide AfterCommand;
      ghost var l := params.CommandLayout();
      if call.gotBox {
        if latestOperationalStatus.state == DISABLED {
          return FAILED_PRECONDITION;
        } else if latestOperationalStatus.state == FAULTED {
          return FAILED_PRECONDITION;
        }
      }
      if call.handle.NotUpdated? {
        return call.handle.error;
      }
      var command := call.handle.command;
      if |command.position| != params.numDofs {
        return INTERNAL;
      }
      if |command.velocity| != params.numDofs {
        return INTERNAL;
      }
      if commandInterfaces.Length == 0 {
        return UNAVAILABLE;
      }
      ghost var before := commandInterfaces[..];
      for i := 0 to |command.position|
        invariant Slot(l.stride, i, 0) <= commandInterfaces.Length
        invariant AcceptedBelow(l, call.refusing, Slot(l.stride, i, 0))
        invariant WrittenBelow(l, command, before, commandInterfaces[..], Slot(l.stride, i, 0))
      {
        hide AcceptedBelow, WrittenBelow, CommandedValue;
        RowBounds(l, i);
        var k := i * params.commandStride;
        if k in call.refusing {
          Stopped(l, latestOperationalStatus, call, before, commandInterfaces[..], k);
          return INTERNAL;
        }
        PositionWritten(l, command, call.refusing, before, commandInterfaces[..], i);
        commandInterfaces[k] := command.position[i];
        if params.commandStride > 1 {
          if 1 + k in call.refusing {
            Stopped(l, latestOperationalStatus, call, before, commandInterfaces[..], 1 + k);
            return INTERNAL;
          }
          VelocityWritten(l, command, call.refusing, before, commandInterfaces[..], i);
          commandInterfaces[1 + k] := command.velocity[i];
        }
      }
      Completed(l, latestOperationalStatus, call, before, commandInterfaces[..]);
      return OK;
    }

    /** A switch that is not available and one that does not reply are both a timeout. */
    method CallSwitchController(activate: seq<string>, deactivate: seq<string>, service: Behaviour)
      returns (code: StatusCode)
      modifies this`log, this`waitedMs
      ensures var step := Request(SwitchController(activate, deactivate));
              var reply := Call(service, DISCOVER_MS, REPLY_MS);
              && code == step.Code(reply.outcome)
              && log == old(log) + [Event(step.request, reply.outcome)]
              && waitedMs == old(waitedMs) + reply.waitedMs
      ensures code == if service.appearsAfterMs > 1000 || service.repliesAfterMs > 5000 then DEADLINE_EXCEEDED
                      else if service.success then OK else INTERNAL
      ensures |log| == |old(log)| + 1 && log[|old(log)|].request == SwitchController(activate, deactivate)
    {
      var reply := Call(service, DISCOVER_MS, REPLY_MS);
      log := log + [Event(SwitchController(activate, deactivate), reply.outcome)];
      waitedMs := waitedMs + reply.waitedMs;
      if reply.outcome == NotAvailable {
        return DEADLINE_EXCEEDED;
      }
      if reply.outcome == TimedOut {
        return DEADLINE_EXCEEDED;
      }
      if reply.outcome == Refused {
        return INTERNAL;
      }
      return OK;
    }

    method CallSetHwState(name: string, active: bool, service: Behaviour) returns (code: StatusCode)
      modifies this`log, this`waitedMs
      ensures var step := Request(SetHwState(name, active));
              var reply := Call(service, DISCOVER_MS, REPLY_MS);
              && code == step.Code(reply.outcome)
              && log == old(log) + [Event(step.request, reply.outcome)]
              && waitedMs == old(waitedMs) + reply.waitedMs
      ensures code == if service.appearsAfterMs > 1000 then UNAVAILABLE
                      else if service.repliesAfterMs > 5000 then DEADLINE_EXCEEDED
                      else if service.success then OK else INTERNAL
      ensures |log| == |old(log)| + 1 && log[|old(log)|].request == SetHwState(name, active)
    {
      var reply := Call(service, DISCOVER_MS, REPLY_MS);
      log := log + [Event(SetHwState(name, active), reply.outcome)];
      waitedMs := waitedMs + reply.waitedMs;
      if reply.outcome == NotAvailable {
        return UNAVAILABLE;
      }
      if reply.outcome == TimedOut {
        return DEADLINE_EXCEEDED;
      }
      if reply.outcome == Refused {
        return INTERNAL;
      }
      return OK;
    }

    /** The tail that Prepare and ClearFaults share. `next` numbers the next service call. */
    method ActivateHardwareAndControllers(env: Environment, next: nat) returns (code: StatusCode)
      modifies this`log, this`waitedMs
      ensures var r := RunSteps(ActivationSteps(params), env, next);
              code == r.code && log == old(log) + r.events && waitedMs == old(waitedMs) + r.waitedMs
    {
      hide RunSteps;
      var n := next;
      ghost var switch := Request(ActivateRequest(params));
      if params.hardwareComponentName != "" {
        RunCons(Request(SetHwState(params.hardwareComponentName, true)), [switch], env, next);
        RunOne(switch, env, next + 1);
        var res := CallSetHwState(params.hardwareComponentName, true, env(n));
        if res != OK {
          return res;
        }
        n := n + 1;
      } else {
        RunOne(switch, env, next);
        assert ActivationSteps(params) == [switch];
      }
      code := CallSwitchController(params.controllersToActivate, params.controllersToDeactivate, env(n));
    }

    method Prepare(clockReset: ClockReset, env: Environment) returns (code: StatusCode)
      modifies this`log, this`waitedMs
      ensures var r := RunOf(params, HwmCall.Prepare(clockReset, env));
              code == r.code && log == old(log) + r.events && waitedMs == old(waitedMs) + r.waitedMs
    {
      if params.hasClock {
        waitedMs := waitedMs + clockReset.tookMs;
        if clockReset.code != OK {
          return clockReset.code;
        }
      }
      code := ActivateHardwareAndControllers(env, 0);
    }

    method ClearFaults(env: Environment) returns (code: StatusCode)
      modifies this`log, this`waitedMs
      ensures var r := RunOf(params, HwmCall.ClearFaults(env));
              code == r.code && log == old(log) + r.events && waitedMs == old(waitedMs) + r.waitedMs
    {
      hide RunSteps;
      var n := 0;
      if params.hasClearFaultsService {
        RunCons(Request(ClearFaultsTrigger), ActivationSteps(params), env, 0);
        var reply := Call(env(n), DISCOVER_MS, REPLY_MS);
        log := log + [Event(ClearFaultsTrigger, reply.outcome)];
        waitedMs := waitedMs + reply.waitedMs;
        if reply.outcome == NotAvailable {
          return UNAVAILABLE;
        }
        if reply.outcome == TimedOut {
          return DEADLINE_EXCEEDED;
        }
        if reply.outcome == Refused {
          return INTERNAL;
        }
        n := n + 1;
      } else {
        assert ClearFaultsSteps(params) == ActivationSteps(params);
      }
      code := ActivateHardwareAndControllers(env, n);
    }

    method Shutdown(clockReset: ClockReset, env: Environment) returns (code: StatusCode)
      modifies this`log, this`waitedMs
      ensures var r := RunOf(params, HwmCall.Shutdown(clockReset, env));
              code == r.code && log == old(log) + r.events && waitedMs == old(waitedMs) + r.waitedMs
    {
      if params.hasClock {
        waitedMs := waitedMs + clockReset.tookMs;
        if clockReset.code != OK {
          return clockReset.code;
        }
      }
      ShutdownRun(params, env);
      RunOne(Request(SwappedRequest(params)), env, 0);
      code := CallSwitchController(params.controllersToDeactivate, params.controllersToActivate, env(0));
      if code != OK {
        return;
      }
      if params.hardwareComponentName != "" {
        RunOne(Request(SetHwState(params.hardwareComponentName, false)), env, 1);
        code := CallSetHwState(params.hardwareComponentName, false, env(1));
      }
    }
  }

  /** Copying up to the first unreadable joint (or to the end) is what `Copied` says. */
  lemma {:induction false} CopyStopped(
      l: Layout, cycle: ReadCycle, c: nat, before: seq<Value>, now: seq<Value>, n: nat)
    requires cycle.Valid(l) && cycle.readings != [] && c < l.stride
    requires n <= |before| == |now| == l.numDofs
    requires AllReadable(l, cycle, c, n) && (n < l.numDofs ==> !Readable(l, cycle, c, n))
    requires forall j :: 0 <= j < n ==> now[j] == Reading(l, cycle, c, j)
    requires forall j :: n <= j < l.numDofs ==> now[j] == before[j]
    ensures now == Copied(l, cycle, c, before)
    ensures AllReadable(l, cycle, c, l.numDofs) <==> n == l.numDofs
  {
    var copied := Copied(l, cycle, c, before);
    forall j | 0 <= j < l.numDofs ensures now[j] == copied[j] {
      if j >= n {
        assert !Readable(l, cycle, c, n);
        assert !AllReadable(l, cycle, c, j + 1);
      } else {
        assert AllReadable(l, cycle, c, j + 1);
      }
    }
  }

  /** The interfaces below `n` are as commanded, the others as before. */
  ghost predicate WrittenBelow(l: Layout, command: JointCommand, before: seq<Value>, now: seq<Value>, n: nat)
    requires l.stride > 0 && n <= |before| == |now| == l.Size()
    requires |command.position| == |command.velocity| == l.numDofs
  {
    && (forall k :: 0 <= k < n ==>
          now[k] == if Commanded(l, k) then CommandedValue(l, command, k) else before[k])
    && forall k :: n <= k < |now| ==> now[k] == before[k]
  }

  lemma {:induction false} RowDivMod(stride: nat, i: nat)
    requires stride > 0
    ensures forall k :: Slot(stride, i, 0) <= k < Slot(stride, i, 0) + stride ==>
              k / stride == i && k % stride == k - Slot(stride, i, 0)
  {
    forall k | Slot(stride, i, 0) <= k < Slot(stride, i, 0) + stride
      ensures k / stride == i && k % stride == k - Slot(stride, i, 0)
    {
      SlotDivMod(stride, i, k - Slot(stride, i, 0));
    }
  }

  lemma {:induction false} Completed(
      l: Layout, box: OperationalStatus, call: CommandCall, before: seq<Value>, now: seq<Value>)
    requires l.stride > 0 && |before| == |now| == l.Size()
    requires Admission(l, box, call, |before|) == OK
    requires WrittenBelow(l, call.handle.command, before, now, |now|) && AcceptedBelow(l, call.refusing, |now|)
    ensures now == AfterCommand(l, box, call, before)
  {
  }

  /** The interfaces of joint `i`; those from the third on are not commanded. */
  lemma {:induction false} RowBounds(l: Layout, i: nat)
    requires l.stride > 0 && i < l.numDofs
    ensures var k := Slot(l.stride, i, 0);
            && Slot(l.stride, i + 1, 0) == k + l.stride <= l.Size()
            && Commanded(l, k) && (l.stride > 1 ==> Commanded(l, k + 1))
            && (forall j :: k + l.Width() <= j < k + l.stride ==> !Commanded(l, j))
  {
    RowDivMod(l.stride, i);
    MulStep(i, l.numDofs, l.stride);
    assert (i + 1) * l.stride == i * l.stride + l.stride;
  }

  /** Writing interface `k`, and skipping those up to `n` that are not commanded. */
  lemma {:induction false} Written(
      l: Layout, command: JointCommand, refusing: set<nat>, before: seq<Value>, now: seq<Value>, k: nat, n: nat)
    requires l.stride > 0 && k < n <= |before| == |now| == l.Size()
    requires |command.position| == |command.velocity| == l.numDofs
    requires AcceptedBelow(l, refusing, k) && WrittenBelow(l, command, before, now, k)
    requires Commanded(l, k) && k !in refusing && forall j :: k < j < n ==> !Commanded(l, j)
    ensures AcceptedBelow(l, refusing, n)
    ensures WrittenBelow(l, command, before, now[k := CommandedValue(l, command, k)], n)
  {
  }

  lemma {:induction false} PositionWritten(
      l: Layout, command: JointCommand, refusing: set<nat>, before: seq<Value>, now: seq<Value>, i: nat)
    requires l.stride > 0 && i < l.numDofs && |before| == |now| == l.Size()
    requires Slot(l.stride, i, 0) < l.Size() && Slot(l.stride, i, 0) !in refusing
    requires |command.position| == |command.velocity| == l.numDofs
    requires AcceptedBelow(l, refusing, Slot(l.stride, i, 0))
    requires WrittenBelow(l, command, before, now, Slot(l.stride, i, 0))
    ensures var k := Slot(l.stride, i, 0);
            var n := if l.stride > 1 then k + 1 else Slot(l.stride, i + 1, 0);
            && n <= l.Size() && AcceptedBelow(l, refusing, n)
            && WrittenBelow(l, command, before, now[k := command.position[i]], n)
  {
    RowBounds(l, i);
    RowDivMod(l.stride, i);
    var k := Slot(l.stride, i, 0);
    Written(l, command, refusing, before, now, k, k + 1);
  }

  lemma {:induction false} VelocityWritten(
      l: Layout, command: JointCommand, refusing: set<nat>, before: seq<Value>, now: seq<Value>, i: nat)
    requires l.stride > 1 && i < l.numDofs && |before| == |now| == l.Size()
    requires Slot(l.stride, i, 1) < l.Size() && Slot(l.stride, i, 1) !in refusing
    requires |command.position| == |command.velocity| == l.numDofs
    requires AcceptedBelow(l, refusing, Slot(l.stride, i, 1))
    requires WrittenBelow(l, command, before, now, Slot(l.stride, i, 1))
    ensures var k := Slot(l.stride, i, 1);
            var n := Slot(l.stride, i + 1, 0);
            && n <= l.Size() && AcceptedBelow(l, refusing, n)
            && WrittenBelow(l, command, before, now[k := command.velocity[i]], n)
  {
    RowBounds(l, i);
    RowDivMod(l.stride, i);
    var k := Slot(l.stride, i, 1);
    Written(l, command, refusing, before, now, k, Slot(l.stride, i + 1, 0));
  }

  lemma {:induction false} Stopped(
      l: Layout, box: OperationalStatus, call: CommandCall, before: seq<Value>, now: seq<Value>, f: nat)
    requires l.stride > 0 && f < |before| == |now| == l.Size()
    requires Admission(l, box, call, |before|) == OK
    requires WrittenBelow(l, call.handle.command, before, now, f)
    requires Commanded(l, f) && f in call.refusing && AcceptedBelow(l, call.refusing, f)
    ensures now == AfterCommand(l, box, call, before) && CommandCode(l, box, call, |before|) == INTERNAL
  {
    FailureKeepsExactPrefix(l, box, call, before, f);
  }
}
