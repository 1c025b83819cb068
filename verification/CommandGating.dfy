/** The gating of commands, end to end: from what a vendor node learned about the robot to the
    command interfaces that Ros2HwmImpl writes. */
module CommandGating {
  import opened Messages
  import opened HwmSpec
  import opened StatusSystem
  import opened StatusHistory
  import Ur = UrStatus
  import Fanuc = FanucStatus

  /** The publication that the last delivery put into the box, if there was a delivery. */
  ghost function BoxSource(s0: System, steps: seq<Step>): (j: Option<nat>)
    requires s0.Initial()
  {
    if steps == [] then None
    else
      var n := |steps| - 1;
      if steps[n].Deliver? && steps[n].j < |Run(s0, steps[..n]).published| then Some(steps[n].j)
      else BoxSource(s0, steps[..n])
  }

  /** What `source` says about the box. */
  ghost predicate BoxHolds(s: System, source: Option<nat>, initial: OperationalStatus) {
    match source
    case None => s.box == initial
    case Some(j) => j < |s.published| && s.published[j].status == s.box
  }

  lemma {:induction false} BoxStep(s: System, step: Step, source: Option<nat>, initial: OperationalStatus)
    requires s.Sized() && BoxHolds(s, source, initial)
    ensures BoxHolds(Exec(s, step),
                     if step.Deliver? && step.j < |s.published| then Some(step.j) else source, initial)
  {
    ExecPhases(s, step);
    var t := Exec(s, step);
    assert forall j :: 0 <= j < |s.published| ==> t.published[j] == s.published[j];
  }

  lemma {:induction false} BoxHoldsSource(s0: System, steps: seq<Step>)
    requires s0.Initial()
    ensures BoxHolds(Run(s0, steps), BoxSource(s0, steps), s0.box)
    decreases |steps|
  {
    if steps != [] {
      var n := |steps| - 1;
      BoxHoldsSource(s0, steps[..n]);
      BoxStep(Run(s0, steps[..n]), steps[n], BoxSource(s0, steps[..n]), s0.box);
    }
  }

  /** The box's content was delivered from a publication that was copied at instant `k`. */
  ghost predicate BoxCopiedAt(s0: System, steps: seq<Step>, k: nat)
    requires s0.Initial()
  {
    var s, source := Run(s0, steps), BoxSource(s0, steps);
    && source.Some? && source.value < |s.published|
    && s.published[source.value].copiedAt == k && s.published[source.value].status == s.box
  }

  /** Before the first delivery the box holds the initial UNKNOWN; then the last delivered
      publication, which evaluates what the node knew at the instant it was copied. */
  lemma {:induction false} BoxWasTrueAtCopy(s0: System, steps: seq<Step>) returns (k: nat)
    requires s0.Initial()
    ensures k <= |steps|
    ensures var s := Run(s0, steps);
            if BoxSource(s0, steps).None? then s.box == s0.box
            else BoxCopiedAt(s0, steps, k) && s.box == StatusOf(Run(s0, steps[..k]).robot)
  {
    BoxHoldsSource(s0, steps);
    k := 0;
    if BoxSource(s0, steps).Some? {
      var j := BoxSource(s0, steps).value;
      PublishedWasCached(s0, steps, j);
      k := Run(s0, steps).published[j].copiedAt;
      CacheEvaluatesRobot(s0, steps[..k]);
    }
  }

  // ---- The gate and the write ----

  /** The write of the call that passed the gate changes a command interface. */
  ghost predicate Writes(s: System)
    requires s.Sized()
  {
    Exec(s, CommandWrite).commands != s.commands
  }

  /** The call that is about to write read the box and changes a command interface. */
  ghost predicate GatedWrite(s: System)
    requires s.Sized()
  {
    Writes(s) && s.command.Checked? && s.command.call.gotBox
  }

  /** The call that passed the gate saw the box of that instant. */
  ghost predicate SawBox(s0: System, steps: seq<Step>, command: CommandPhase)
    requires s0.Initial()
  {
    command.Checked? ==>
      && command.checkedAt < |steps| && Gate(command.seen, command.call.gotBox) == OK
      && command.seen == Run(s0, steps[..command.checkedAt]).box
  }

  lemma {:induction false} CheckStep(s: System, step: Step)
    requires s.Sized()
    ensures var c := Exec(s, step).command;
            || c == s.command || c == NoCommand
            || (c.Checked? && c.checkedAt == s.clock && c.seen == s.box && Gate(s.box, c.call.gotBox) == OK)
  {
    hide StatusOf, AfterCommand;
  }

  lemma {:induction false} CheckedSawBox(s0: System, steps: seq<Step>)
    requires s0.Initial()
    ensures SawBox(s0, steps, Run(s0, steps).command)
    decreases |steps|
  {
    if steps != [] {
      var n := |steps| - 1;
      var earlier := steps[..n];
      hide Exec;
      CheckedSawBox(s0, earlier);
      CheckStep(Run(s0, earlier), steps[n]);
      Extend(s0, earlier, steps[n]);
      assert steps == earlier + [steps[n]];
      SawBoxLater(s0, steps, n, Run(s0, earlier).command);
    }
  }

  lemma {:induction false} SawBoxLater(s0: System, steps: seq<Step>, n: nat, command: CommandPhase)
    requires s0.Initial() && n <= |steps| && SawBox(s0, steps[..n], command)
    ensures SawBox(s0, steps, command)
  {
    if command.Checked? {
      assert steps[..n][..command.checkedAt] == steps[..command.checkedAt];
    }
  }

  /** When a call that read the box changes a command interface, the box held UNKNOWN or ENABLED
      when the call read it; and for ENABLED, the robot was healthy at the instant at which the
      status then delivered had been copied. */
  lemma {:induction false} CommandImpliesHealthyRobot(s0: System, steps: seq<Step>) returns (c: nat, k: nat)
    requires s0.Initial() && GatedWrite(Run(s0, steps))
    ensures k <= c < |steps| && c == Run(s0, steps).command.checkedAt
    ensures var box := Run(s0, steps[..c]).box;
            || box.state == UNKNOWN
            || (box.state == ENABLED && BoxCopiedAt(s0, steps[..c], k) && Run(s0, steps[..k]).robot.Healthy())
  {
    CheckedSawBox(s0, steps);
    c := Run(s0, steps).command.checkedAt;
    k := BoxWasTrueAtCopy(s0, steps[..c]);
    assert steps[..c][..k] == steps[..k];
  }

  /** The box held ENABLED when the call that is about to write read it. */
  ghost predicate EnabledWrite(s: System)
    requires s.Sized()
  {
    GatedWrite(s) && s.command.seen.state == ENABLED
  }

  lemma {:induction false} EnabledWriteImpliesHealthy(s0: System, steps: seq<Step>) returns (c: nat, k: nat)
    requires s0.Initial() && EnabledWrite(Run(s0, steps))
    ensures k <= c < |steps| && c == Run(s0, steps).command.checkedAt
    ensures BoxCopiedAt(s0, steps[..c], k) && Run(s0, steps[..k]).robot.Healthy()
  {
    CheckedSawBox(s0, steps);
    c, k := CommandImpliesHealthyRobot(s0, steps);
  }

  /** Such a write reaches a robot that is healthy now exactly when the cache was not written
      after the delivered copy, or its last write was ENABLED again. */
  lemma {:induction false} HealthyNowExactly(s0: System, steps: seq<Step>) returns (c: nat, k: nat)
    requires s0.Initial() && EnabledWrite(Run(s0, steps))
    ensures k <= c < |steps| && c == Run(s0, steps).command.checkedAt && BoxCopiedAt(s0, steps[..c], k)
    ensures var last := LastWrite(s0, steps);
            Run(s0, steps).robot.Healthy() <==> last <= k || StatusAt(s0, steps, last).state == ENABLED
    ensures Run(s0, steps).robot.Healthy() <==> Run(s0, steps).status.state == ENABLED
    ensures (forall m :: k <= m < |steps| ==> !WritesAt(s0, steps, m)) ==> Run(s0, steps).robot.Healthy()
  {
    hide GatedWrite;
    c, k := EnabledWriteImpliesHealthy(s0, steps);
    CacheEvaluatesRobot(s0, steps);
    var last := LastWrite(s0, steps);
    UnchangedSinceLastWrite(s0, steps, last);
    if last <= k {
      UnchangedSinceLastWrite(s0, steps, k);
    }
  }

  // ---- A delivery between the gate and the write ----

  /** Step `k` of the run puts a message into the box. */
  ghost predicate DeliversAt(s0: System, steps: seq<Step>, k: nat)
    requires s0.Initial() && k < |steps|
  {
    steps[k].Deliver? && steps[k].j < |Run(s0, steps[..k]).published|
  }

  /** The instant of the last delivery in the first `n` steps; 0 if there was none. */
  ghost function LastDeliveryBefore(s0: System, steps: seq<Step>, n: nat): (m: nat)
    requires s0.Initial() && n <= |steps|
    ensures m <= n && (m > 0 ==> DeliversAt(s0, steps, m - 1))
    ensures forall k :: m <= k < n ==> !DeliversAt(s0, steps, k)
  {
    if n == 0 then 0
    else if DeliversAt(s0, steps, n - 1) then n
    else LastDeliveryBefore(s0, steps, n - 1)
  }

  lemma {:induction false} OtherStepsKeepBox(s: System, step: Step)
    requires s.Sized() && !(step.Deliver? && step.j < |s.published|)
    ensures Exec(s, step).box == s.box
  {
    hide StatusOf, AfterCommand;
  }

  lemma {:induction false} BoxKeptStep(s0: System, steps: seq<Step>, n: nat)
    requires s0.Initial() && n < |steps| && !DeliversAt(s0, steps, n)
    ensures Run(s0, steps[..n + 1]).box == Run(s0, steps[..n]).box
  {
    assert steps[..n + 1] == steps[..n] + [steps[n]];
    Extend(s0, steps[..n], steps[n]);
    OtherStepsKeepBox(Run(s0, steps[..n]), steps[n]);
  }

  lemma {:induction false} BoxKept(s0: System, steps: seq<Step>, k: nat, n: nat)
    requires s0.Initial() && k <= n <= |steps|
    requires forall m :: k <= m < n ==> !DeliversAt(s0, steps, m)
    ensures Run(s0, steps[..k]).box == Run(s0, steps[..n]).box
    decreases n
  {
    if k < n {
      BoxKept(s0, steps, k, n - 1);
      BoxKeptStep(s0, steps, n - 1);
    }
  }

  /** The box that was ENABLED at the gate still is at the write exactly when nothing was
      delivered in between, or ENABLED was delivered last. */
  lemma {:induction false} BoxAtWriteExactly(s0: System, steps: seq<Step>)
    requires s0.Initial() && EnabledWrite(Run(s0, steps))
    ensures var c, last := Run(s0, steps).command.checkedAt, LastDeliveryBefore(s0, steps, |steps|);
            Run(s0, steps).box.state == ENABLED <==>
            last <= c || Run(s0, steps[..last]).box.state == ENABLED
  {
    hide Run;
    CheckedSawBox(s0, steps);
    var c, last := Run(s0, steps).command.checkedAt, LastDeliveryBefore(s0, steps, |steps|);
    assert steps[..|steps|] == steps;
    BoxKept(s0, steps, last, |steps|);
    if last <= c {
      BoxKept(s0, steps, c, |steps|);
    }
  }

  // ---- The healthy instant, vendor by vendor ----

  lemma {:induction false} UrCommandImpliesRunning(s0: System, steps: seq<Step>)
      returns (c: nat, k: nat, r: Ur.RobotStatus)
    requires s0.Initial() && s0.robot.UrRobot? && EnabledWrite(Run(s0, steps))
    ensures k <= c < |steps| && c == Run(s0, steps).command.checkedAt && BoxCopiedAt(s0, steps[..c], k)
    ensures Run(s0, steps[..k]).robot == UrRobot(r)
    ensures r.safetyMode == Some(Ur.NORMAL) || r.safetyMode == Some(Ur.REDUCED)
    ensures r.robotMode == Some(Ur.RUNNING) && r.programRunning == Some(true)
  {
    c, k := EnabledWriteImpliesHealthy(s0, steps);
    r := Run(s0, steps[..k]).robot.ur;
  }

  lemma {:induction false} FanucCommandImpliesMotionPossible(s0: System, steps: seq<Step>)
      returns (c: nat, k: nat, r: Fanuc.RobotStatus)
    requires s0.Initial() && s0.robot.FanucRobot? && EnabledWrite(Run(s0, steps))
    ensures k <= c < |steps| && c == Run(s0, steps).command.checkedAt && BoxCopiedAt(s0, steps[..c], k)
    ensures Run(s0, steps[..k]).robot == FanucRobot(Some(r))
    ensures !r.eStopped && r.contactStopMode == Fanuc.CONTACT_STOP_MODE_NONE
    ensures !r.tpEnabled && !r.inError && r.motionPossible
  {
    c, k := EnabledWriteImpliesHealthy(s0, steps);
    r := Run(s0, steps[..k]).robot.fanuc.value;
  }

  /** At that instant the last of start, report and successful reset was no report with codes. */
  lemma {:induction false} KhiCommandImpliesNoCodes(s0: System, steps: seq<Step>)
      returns (c: nat, k: nat, last: KhiEvent)
    requires s0.Initial() && s0.robot.KhiRobot? && EnabledWrite(Run(s0, steps))
    ensures k <= c < |steps| && c == Run(s0, steps).command.checkedAt && BoxCopiedAt(s0, steps[..c], k)
    ensures last == LastKhiEvent(History(s0, steps[..k]))
    ensures !(last.Reported? && last.info.errorCodes != [])
  {
    c, k := EnabledWriteImpliesHealthy(s0, steps);
    last := LastKhiEvent(History(s0, steps[..k]));
    KhiLastWriter(s0, steps[..k]);
  }

  // ---- A run in which the robot is no longer healthy ----

  lemma {:induction false} DeliverEnabled(s0: System) returns (steps: seq<Step>)
    requires s0.Initial() && s0.robot.UrRobot?
    ensures var s := Run(s0, steps);
            && s.box == OperationalStatus(ENABLED, "") && s.topic == Idle && |s.published| == 3
            && s.robot.UrRobot? && s.robot.ur.Complete()
            && s.layout == s0.layout && s.commands == s0.commands && s.command == NoCommand
  {
    var a := [] + Enabling();
    EnablingEffect(s0, []);
    CacheEvaluatesRobot(s0, a);
    steps := a + [Deliver(2)];
    Extend(s0, a, Deliver(2));
  }

  lemma {:induction false} CheckEffect(s: System, call: CommandCall)
    requires s.Sized() && s.command == NoCommand && Gate(s.box, call.gotBox) == OK
    ensures var t := Exec(s, CommandCheck(call));
            t == s.(clock := s.clock + 1, command := Checked(call, s.box, s.clock))
  {
  }

  lemma {:induction false} DeliverEffect(s: System, j: nat)
    requires s.Sized() && j < |s.published|
    ensures Exec(s, Deliver(j)) == s.(clock := s.clock + 1, box := s.published[j].status)
  {
  }

  lemma {:induction false} WriteEffect(s: System)
    requires s.Sized() && s.command.Checked?
    ensures Exec(s, CommandWrite).commands == AfterCommand(s.layout, s.command.seen, s.command.call, s.commands)
  {
  }

  /** The gate is about the instant at which it is read only: a command that passed it can be
      written while the node has the robot in a protective stop, and even after FAULTED was
      delivered. */
  lemma {:induction false} CommandDuringProtectiveStop(s0: System, call: CommandCall) returns (steps: seq<Step>)
    requires s0.Initial() && s0.robot.UrRobot? && call.gotBox
    requires AfterCommand(s0.layout, OperationalStatus(ENABLED, ""), call, s0.commands) != s0.commands
    ensures Run(s0, steps).robot.UrRobot? && Run(s0, steps).robot.ur.safetyMode == Some(Ur.PROTECTIVE_STOP)
    ensures Run(s0, steps).status.state == FAULTED && Run(s0, steps).box.state == FAULTED
    ensures EnabledWrite(Run(s0, steps)) && Run(s0, steps).command.call == call
  {
    hide AfterCommand, Run, Exec;
    var a := DeliverEnabled(s0);
    var b := a + [CommandCheck(call)];
    Extend(s0, a, CommandCheck(call));
    CheckEffect(Run(s0, a), call);
    var c := b + StatusSystem.Handle(SafetyModeMsg(Ur.PROTECTIVE_STOP));
    HandleEffect(s0, b, SafetyModeMsg(Ur.PROTECTIVE_STOP));
    steps := c + [Deliver(3)];
    Extend(s0, c, Deliver(3));
    DeliverEffect(Run(s0, c), 3);
    WriteEffect(Run(s0, steps));
  }
}
