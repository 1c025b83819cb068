/** A vendor node, the status topic and Ros2HwmImpl running together.

    The node has two mutually exclusive callback groups: the topic group (driver callbacks and
    the publish timer) and the service group (fault recovery). A callback takes the lock once,
    updates and copies the cache, and publishes the copy after releasing the lock. The topic
    may lose, delay, repeat and reorder messages, and may deliver one between the gate and the
    writes of `ApplyCommand`. */
module StatusSystem {
  import opened Messages
  import opened HwmSpec
  import Ur = UrStatus
  import Fanuc = FanucStatus
  import Khi = KhiStatus

  datatype KhiEvent = Started | Reported(info: Khi.ErrorInfo) | ResetAcknowledged

  /** What the node's cache was last computed from. The UR node stores this itself
      (`robot_status_`); for the others it is history. */
  datatype Robot =
    | UrRobot(ur: Ur.RobotStatus)
    | FanucRobot(fanuc: Option<Fanuc.RobotStatus>)
    | KhiRobot(khi: KhiEvent)
  {
    predicate SameVendor(r: Robot) {
      UrRobot? == r.UrRobot? && FanucRobot? == r.FanucRobot?
    }

    /** The robot was reported able to execute motion. */
    predicate Healthy() {
      match this
      case UrRobot(r) => r.Healthy()
      case FanucRobot(r) => r.Some? && r.value.Healthy()
      case KhiRobot(e) => e.Reported? ==> e.info.errorCodes == []
    }
  }

  datatype Message =
    | RobotModeMsg(mode: Ur.RobotMode)
    | SafetyModeMsg(safety: Ur.SafetyMode)
    | ProgramRunningMsg(running: bool)
    | FanucStatusMsg(fanuc: Fanuc.RobotStatus)
    | KhiErrorMsg(info: Khi.ErrorInfo)

  function Receive(robot: Robot, msg: Message): Robot {
    match (robot, msg)
    case (UrRobot(r), RobotModeMsg(m)) => UrRobot(r.(robotMode := Some(m)))
    case (UrRobot(r), SafetyModeMsg(m)) => UrRobot(r.(safetyMode := Some(m)))
    case (UrRobot(r), ProgramRunningMsg(b)) => UrRobot(r.(programRunning := Some(b)))
    case (FanucRobot(_), FanucStatusMsg(s)) => FanucRobot(Some(s))
    case (KhiRobot(_), KhiErrorMsg(e)) => KhiRobot(Reported(e))
    case _ => robot
  }

  function StatusOf(robot: Robot): (s: OperationalStatus)
    ensures s.state in {UNKNOWN, DISABLED, FAULTED, ENABLED}
    ensures s.state == ENABLED <==> robot.Healthy()
  {
    match robot
    case UrRobot(r) => Ur.ToOperationalStatus(r)
    case FanucRobot(r) => Fanuc.ToOperationalStatus(r)
    case KhiRobot(e) => Khi.StatusOf(if e.Reported? then Some(e.info) else None)
  }

  datatype Work = OnMessage(msg: Message) | OnTimer | Recovering | Recovered

  /** Where a callback group is: idle, in a callback that has not copied the cache yet, or
      holding a copy to publish. Instants count steps. */
  datatype Phase =
    | Idle
    | Running(startedAt: nat, work: Work)
    | Holding(startedAt: nat, copiedAt: nat, snapshot: OperationalStatus)

  datatype Publication = Publication(
    fromTopicGroup: bool, status: OperationalStatus, startedAt: nat, copiedAt: nat, publishedAt: nat)

  /** Where `ApplyCommand` is: a call that passed the gate has yet to write. */
  datatype CommandPhase =
    | NoCommand
    | Checked(call: CommandCall, seen: OperationalStatus, checkedAt: nat)

  datatype System = System(
    robot: Robot, status: OperationalStatus,
    topic: Phase, recovery: Phase,
    published: seq<Publication>,
    box: OperationalStatus,
    command: CommandPhase,
    layout: Layout, commands: seq<Value>,
    clock: nat)
  {
    ghost predicate Sized() {
      layout.stride > 0 && (|commands| == 0 || |commands| == layout.Size())
    }

    ghost predicate Initial() {
      && Sized()
      && (robot == UrRobot(Ur.NOTHING_RECEIVED) || robot == FanucRobot(None) || robot == KhiRobot(Started))
      && status == StatusOf(robot)
      && topic == Idle && recovery == Idle && published == [] && clock == 0
      && box == OperationalStatus(UNKNOWN, "") && command == NoCommand
    }
  }

  datatype Step =
    | TopicBegin(work: Work)
    | TopicLock
    | TopicPublish
    | RecoveryBegin
    | RecoveryWrite
    | RecoveryCopy
    | RecoveryPublish
    | RecoveryReturn
    | Deliver(j: nat)
    | CommandCheck(call: CommandCall)
    | CommandWrite

  /** One step; a step that is not possible in `s` only lets time pass. UR recovery always ends
      in a publish, KHI recovery only after a successful reset, which writes the cache, and
      FANUC recovery never touches the status. */
  ghost function Exec(s: System, step: Step): (t: System)
    requires s.Sized()
    ensures t.Sized() && t.clock == s.clock + 1 && t.robot.SameVendor(s.robot)
  {
    var t := s.(clock := s.clock + 1);
    match step
    case TopicBegin(work) =>
      if s.topic.Idle? && (work.OnMessage? || work.OnTimer?) then t.(topic := Running(s.clock, work)) else t
    case TopicLock =>
      if !s.topic.Running? then t
      else if s.topic.work.OnMessage? then
        var robot := Receive(s.robot, s.topic.work.msg);
        t.(robot := robot, status := StatusOf(robot),
           topic := Holding(s.topic.startedAt, t.clock, StatusOf(robot)))
      else t.(topic := Holding(s.topic.startedAt, t.clock, s.status))
    case TopicPublish =>
      if !s.topic.Holding? then t
      else t.(topic := Idle, published := s.published + [PublicationOf(true, s.topic, t.clock)])
    case RecoveryBegin =>
      if s.recovery.Idle? then t.(recovery := Running(s.clock, Recovering)) else t
    case RecoveryWrite =>
      if s.recovery.Running? && s.recovery.work == Recovering && s.robot.KhiRobot? then
        t.(robot := KhiRobot(ResetAcknowledged), status := OperationalStatus(ENABLED, ""),
           recovery := Running(s.recovery.startedAt, Recovered))
      else t
    case RecoveryCopy =>
      if s.recovery.Running? && (s.robot.UrRobot? || s.recovery.work == Recovered) then
        t.(recovery := Holding(s.recovery.startedAt, t.clock, s.status))
      else t
    case RecoveryPublish =>
      if !s.recovery.Holding? then t
      else t.(recovery := Idle, published := s.published + [PublicationOf(false, s.recovery, t.clock)])
    case RecoveryReturn =>
      if s.recovery.Running? && s.recovery.work == Recovering && !s.robot.UrRobot? then t.(recovery := Idle) else t
    case Deliver(j) =>
      if j < |s.published| then t.(box := s.published[j].status) else t
    case CommandCheck(call) =>
      if s.command.NoCommand? && Gate(s.box, call.gotBox) == OK then t.(command := Checked(call, s.box, s.clock))
      else t
    case CommandWrite =>
      if !s.command.Checked? then t
      else t.(command := NoCommand,
              commands := AfterCommand(s.layout, s.command.seen, s.command.call, s.commands))
  }

  function PublicationOf(fromTopicGroup: bool, phase: Phase, now: nat): Publication
    requires phase.Holding?
  {
    Publication(fromTopicGroup, phase.snapshot, phase.startedAt, phase.copiedAt, now)
  }

  /** The system after any sequence of steps. */
  ghost function Run(s0: System, steps: seq<Step>): (s: System)
    requires s0.Initial()
    ensures s.Sized() && s.clock == |steps| && s.robot.SameVendor(s0.robot)
  {
    if steps == [] then s0
    else Exec(Run(s0, steps[..|steps| - 1]), steps[|steps| - 1])
  }

  /** The cached status at instant `k`. */
  ghost function StatusAt(s0: System, steps: seq<Step>, k: nat): OperationalStatus
    requires s0.Initial() && k <= |steps|
  {
    Run(s0, steps[..k]).status
  }

  lemma {:induction false} Extend(s0: System, steps: seq<Step>, step: Step)
    requires s0.Initial()
    ensures Run(s0, steps + [step]) == Exec(Run(s0, steps), step)
    ensures forall k :: 0 <= k <= |steps| ==> StatusAt(s0, steps + [step], k) == StatusAt(s0, steps, k)
  {
    assert (steps + [step])[..|steps|] == steps;
    forall k | 0 <= k <= |steps| ensures StatusAt(s0, steps + [step], k) == StatusAt(s0, steps, k) {
      assert (steps + [step])[..k] == steps[..k];
    }
  }

  // ---- The cache is always the evaluation of what the node last learned ----

  lemma {:induction false} CacheStep(s: System, step: Step)
    requires s.Sized() && s.status == StatusOf(s.robot)
    ensures Exec(s, step).status == StatusOf(Exec(s, step).robot)
  {
    hide Ur.ToOperationalStatus, Fanuc.ToOperationalStatus;
  }

  lemma {:induction false} CacheEvaluatesRobot(s0: System, steps: seq<Step>)
    requires s0.Initial()
    ensures var s := Run(s0, steps); s.status == StatusOf(s.robot)
    decreases |steps|
  {
    if steps != [] {
      CacheEvaluatesRobot(s0, steps[..|steps| - 1]);
      CacheStep(Run(s0, steps[..|steps| - 1]), steps[|steps| - 1]);
    }
  }

  // ---- Copy under the lock, publish outside ----

  /** The copy was the cached status at an instant after the callback began. */
  ghost predicate CopyWasCached(s0: System, steps: seq<Step>, startedAt: nat, copiedAt: nat, status: OperationalStatus)
    requires s0.Initial()
  {
    startedAt < copiedAt <= |steps| && StatusAt(s0, steps, copiedAt) == status
  }

  ghost predicate PhaseOk(s0: System, steps: seq<Step>, phase: Phase)
    requires s0.Initial()
  {
    && (phase.Running? ==> phase.startedAt < |steps|)
    && (phase.Holding? ==> CopyWasCached(s0, steps, phase.startedAt, phase.copiedAt, phase.snapshot))
  }

  ghost predicate PublicationOk(s0: System, steps: seq<Step>, p: Publication)
    requires s0.Initial()
  {
    && CopyWasCached(s0, steps, p.startedAt, p.copiedAt, p.status)
    && p.copiedAt < p.publishedAt <= |steps|
  }

  /** How one step moves a callback group from `p` to `q`. */
  ghost predicate PhaseAdvance(s: System, t: System, p: Phase, q: Phase) {
    || q == p
    || q == Idle
    || (q.Running? && p.Idle? && q.startedAt == s.clock)
    || (q.Running? && p.Running? && q.startedAt == p.startedAt)
    || (p.Running? && q == Holding(p.startedAt, t.clock, t.status))
  }

  function GroupPhase(s: System, topicGroup: bool): Phase {
    if topicGroup then s.topic else s.recovery
  }

  /** The step sends a copy that its group holds. */
  predicate Publishes(s: System, step: Step) {
    (step.TopicPublish? && s.topic.Holding?) || (step.RecoveryPublish? && s.recovery.Holding?)
  }

  /** A publishing step appends the copy that its group holds, and no other step publishes. */
  lemma {:induction false} ExecPhases(s: System, step: Step)
    requires s.Sized()
    ensures var t := Exec(s, step);
            && PhaseAdvance(s, t, s.topic, t.topic) && PhaseAdvance(s, t, s.recovery, t.recovery)
            && if Publishes(s, step) then
                 var topicGroup := step.TopicPublish?;
                 && GroupPhase(t, topicGroup) == Idle && GroupPhase(t, !topicGroup) == GroupPhase(s, !topicGroup)
                 && t.published == s.published + [PublicationOf(topicGroup, GroupPhase(s, topicGroup), t.clock)]
               else
                 t.published == s.published
  {
  }

  lemma {:induction false} PhaseOkStep(s0: System, steps: seq<Step>, step: Step, p: Phase, q: Phase)
    requires s0.Initial() && PhaseOk(s0, steps, p)
    requires PhaseAdvance(Run(s0, steps), Run(s0, steps + [step]), p, q)
    ensures PhaseOk(s0, steps + [step], q)
  {
    Extend(s0, steps, step);
    assert (steps + [step])[..|steps| + 1] == steps + [step];
  }

  lemma {:induction false} SnapshotInvariant(s0: System, steps: seq<Step>)
    requires s0.Initial()
    ensures var s := Run(s0, steps);
            && PhaseOk(s0, steps, s.topic) && PhaseOk(s0, steps, s.recovery)
            && forall j :: 0 <= j < |s.published| ==> PublicationOk(s0, steps, s.published[j])
    decreases |steps|
  {
    if steps != [] {
      var earlier, step := steps[..|steps| - 1], steps[|steps| - 1];
      assert steps == earlier + [step];
      SnapshotInvariant(s0, earlier);
      Extend(s0, earlier, step);
      var s, t := Run(s0, earlier), Run(s0, steps);
      ExecPhases(s, step);
      PhaseOkStep(s0, earlier, step, s.topic, t.topic);
      PhaseOkStep(s0, earlier, step, s.recovery, t.recovery);
      forall j | 0 <= j < |t.published| ensures PublicationOk(s0, steps, t.published[j]) {
        if j < |s.published| {
          assert PublicationOk(s0, earlier, s.published[j]);
        }
      }
    }
  }

  /** Every published status was the cached status at some instant between the start of the
      call and its publish. */
  lemma {:induction false} PublishedWasCached(s0: System, steps: seq<Step>, j: nat)
    requires s0.Initial() && j < |Run(s0, steps).published|
    ensures var p := Run(s0, steps).published[j];
            && p.startedAt < p.copiedAt < p.publishedAt <= |steps|
            && p.status == StatusAt(s0, steps, p.copiedAt)
  {
    SnapshotInvariant(s0, steps);
    assert PublicationOk(s0, steps, Run(s0, steps).published[j]);
  }

  /** A publication is current when the cache did not change while its call ran. */
  lemma {:induction false} QuietPublicationIsCurrent(s0: System, steps: seq<Step>, j: nat)
    requires s0.Initial() && j < |Run(s0, steps).published|
    requires var p := Run(s0, steps).published[j];
             forall k :: p.startedAt <= k <= |steps| ==> StatusAt(s0, steps, k) == StatusAt(s0, steps, |steps|)
    ensures Run(s0, steps).published[j].status == Run(s0, steps).status
  {
    PublishedWasCached(s0, steps, j);
    assert steps[..|steps|] == steps;
  }

  // ---- The order of the publications ----

  predicate InGroup(s: System, topicGroup: bool, i: nat)
    requires i < |s.published|
  {
    s.published[i].fromTopicGroup == topicGroup
  }

  /** The group's publications do not overlap, and its current call began after them. */
  ghost predicate GroupOrdered(s: System, topicGroup: bool) {
    && (forall i, j :: 0 <= i < j < |s.published| && InGroup(s, topicGroup, i) && InGroup(s, topicGroup, j) ==>
          s.published[i].publishedAt <= s.published[j].startedAt)
    && (!GroupPhase(s, topicGroup).Idle? ==> forall i :: 0 <= i < |s.published| && InGroup(s, topicGroup, i) ==>
          s.published[i].publishedAt <= GroupPhase(s, topicGroup).startedAt)
  }

  lemma {:induction false} GroupOrderStep(s: System, step: Step, topicGroup: bool)
    requires s.Sized() && GroupOrdered(s, topicGroup)
    requires forall i :: 0 <= i < |s.published| ==> s.published[i].publishedAt <= s.clock
    ensures GroupOrdered(Exec(s, step), topicGroup)
  {
    ExecPhases(s, step);
    var t := Exec(s, step);
    assert forall i :: 0 <= i < |s.published| ==> t.published[i] == s.published[i];
  }

  lemma {:induction false} GroupOrderInvariant(s0: System, steps: seq<Step>, topicGroup: bool)
    requires s0.Initial()
    ensures GroupOrdered(Run(s0, steps), topicGroup)
    decreases |steps|
  {
    if steps != [] {
      var earlier := steps[..|steps| - 1];
      GroupOrderInvariant(s0, earlier, topicGroup);
      SnapshotInvariant(s0, earlier);
      var s := Run(s0, earlier);
      forall i | 0 <= i < |s.published| ensures s.published[i].publishedAt <= s.clock {
        assert PublicationOk(s0, earlier, s.published[i]);
      }
      GroupOrderStep(s, steps[|steps| - 1], topicGroup);
    }
  }

  /** Each group publishes cache versions in order, whatever the other one does: a later
      publication was copied after the earlier one was sent. */
  lemma {:induction false} GroupPublishesInOrder(s0: System, steps: seq<Step>, i: nat, j: nat)
    requires s0.Initial() && i < j < |Run(s0, steps).published|
    requires Run(s0, steps).published[i].fromTopicGroup == Run(s0, steps).published[j].fromTopicGroup
    ensures Run(s0, steps).published[i].copiedAt < Run(s0, steps).published[i].publishedAt
            < Run(s0, steps).published[j].copiedAt
  {
    GroupOrderInvariant(s0, steps, Run(s0, steps).published[i].fromTopicGroup);
    PublishedWasCached(s0, steps, i);
    PublishedWasCached(s0, steps, j);
  }

  /** The publications of both groups together are in the order of their copies. */
  ghost predicate CopyOrdered(s: System) {
    forall i, j :: 0 <= i < j < |s.published| ==> s.published[i].copiedAt <= s.published[j].copiedAt
  }

  /** The step publishes a copy although the other group copied and published after it. */
  ghost predicate PublishesOvertaken(s: System, step: Step) {
    && Publishes(s, step)
    && exists i :: 0 <= i < |s.published| && !InGroup(s, step.TopicPublish?, i)
                   && GroupPhase(s, step.TopicPublish?).copiedAt < s.published[i].copiedAt
  }

  lemma {:induction false} CopyOrderStep(s: System, step: Step)
    requires s.Sized() && CopyOrdered(s)
    requires Publishes(s, step) ==> forall i :: 0 <= i < |s.published| && InGroup(s, step.TopicPublish?, i) ==>
               s.published[i].copiedAt <= GroupPhase(s, step.TopicPublish?).copiedAt
    ensures CopyOrdered(Exec(s, step)) <==> !PublishesOvertaken(s, step)
  {
    ExecPhases(s, step);
    var t, n := Exec(s, step), |s.published|;
    assert forall i :: 0 <= i < n ==> t.published[i] == s.published[i];
    if Publishes(s, step) {
      assert t.published[n].copiedAt == GroupPhase(s, step.TopicPublish?).copiedAt;
    }
  }

  lemma {:induction false} OwnGroupCopiedBefore(s0: System, steps: seq<Step>, topicGroup: bool, i: nat)
    requires s0.Initial() && GroupPhase(Run(s0, steps), topicGroup).Holding?
    requires i < |Run(s0, steps).published| && InGroup(Run(s0, steps), topicGroup, i)
    ensures Run(s0, steps).published[i].copiedAt <= GroupPhase(Run(s0, steps), topicGroup).copiedAt
  {
    GroupOrderInvariant(s0, steps, topicGroup);
    SnapshotInvariant(s0, steps);
    PublishedWasCached(s0, steps, i);
  }

  lemma {:induction false} PrefixCopyOrdered(s: System, step: Step)
    requires s.Sized() && CopyOrdered(Exec(s, step))
    ensures CopyOrdered(s)
  {
    ExecPhases(s, step);
    assert forall i :: 0 <= i < |s.published| ==> Exec(s, step).published[i] == s.published[i];
  }

  lemma {:induction false} CopyOrderStepInRun(s0: System, steps: seq<Step>, step: Step)
    requires s0.Initial()
    ensures CopyOrdered(Run(s0, steps + [step])) <==>
            CopyOrdered(Run(s0, steps)) && !PublishesOvertaken(Run(s0, steps), step)
  {
    var s := Run(s0, steps);
    Extend(s0, steps, step);
    if CopyOrdered(s) {
      if Publishes(s, step) {
        forall i | 0 <= i < |s.published| && InGroup(s, step.TopicPublish?, i)
          ensures s.published[i].copiedAt <= GroupPhase(s, step.TopicPublish?).copiedAt
        {
          OwnGroupCopiedBefore(s0, steps, step.TopicPublish?, i);
        }
      }
      CopyOrderStep(s, step);
    } else if CopyOrdered(Exec(s, step)) {
      PrefixCopyOrdered(s, step);
    }
  }

  /** Step `k` of the run publishes a copy that the other group overtook. */
  ghost predicate OvertakenAt(s0: System, steps: seq<Step>, k: nat)
    requires s0.Initial() && k < |steps|
  {
    PublishesOvertaken(Run(s0, steps[..k]), steps[k])
  }

  lemma {:induction false} NothingPublishedAtStart(s0: System, steps: seq<Step>)
    requires s0.Initial()
    ensures CopyOrdered(Run(s0, steps[..0]))
  {
    assert steps[..0] == [];
  }

  lemma {:induction false} CopyOrderedUpTo(s0: System, steps: seq<Step>, n: nat)
    requires s0.Initial() && n <= |steps|
    ensures CopyOrdered(Run(s0, steps[..n])) <==> forall k :: 0 <= k < n ==> !OvertakenAt(s0, steps, k)
  {
    hide Run, PublishesOvertaken, CopyOrdered;
    if n == 0 {
      NothingPublishedAtStart(s0, steps);
    } else {
      CopyOrderedUpTo(s0, steps, n - 1);
      assert steps[..n] == steps[..n - 1] + [steps[n - 1]];
      CopyOrderStepInRun(s0, steps[..n - 1], steps[n - 1]);
      assert OvertakenAt(s0, steps, n - 1) <==> PublishesOvertaken(Run(s0, steps[..n - 1]), steps[n - 1]);
    }
  }

  /** Over a whole run the publications are in the order of their copies exactly when no step
      publishes a copy that the other group overtook. */
  lemma {:induction false} CopyOrderExactly(s0: System, steps: seq<Step>)
    requires s0.Initial()
    ensures CopyOrdered(Run(s0, steps)) <==> forall k :: 0 <= k < |steps| ==> !OvertakenAt(s0, steps, k)
  {
    assert steps[..|steps|] == steps;
    CopyOrderedUpTo(s0, steps, |steps|);
  }

  lemma {:induction false} FanucOnlyTopicGroup(s0: System, steps: seq<Step>)
    requires s0.Initial() && s0.robot.FanucRobot?
    ensures var s := Run(s0, steps);
            && !s.recovery.Holding? && (s.recovery.Running? ==> s.recovery.work == Recovering)
            && forall i :: 0 <= i < |s.published| ==> s.published[i].fromTopicGroup
    decreases |steps|
  {
    hide StatusOf;
    if steps != [] {
      FanucOnlyTopicGroup(s0, steps[..|steps| - 1]);
      var s, step := Run(s0, steps[..|steps| - 1]), steps[|steps| - 1];
      ExecPhases(s, step);
    }
  }

  /** The FANUC node, whose recovery publishes nothing, always publishes in copy order. */
  lemma {:induction false} FanucPublishesInOrder(s0: System, steps: seq<Step>)
    requires s0.Initial() && s0.robot.FanucRobot?
    ensures CopyOrdered(Run(s0, steps))
  {
    forall k | 0 <= k < |steps| ensures !OvertakenAt(s0, steps, k) {
      FanucOnlyTopicGroup(s0, steps[..k]);
    }
    CopyOrderExactly(s0, steps);
  }

  // ---- The timer ----

  /** A step of anything but the topic group. */
  predicate OfOthers(step: Step) {
    !step.TopicBegin? && !step.TopicLock? && !step.TopicPublish?
  }

  lemma {:induction false} OthersStep(s: System, step: Step)
    requires s.Sized() && OfOthers(step)
    ensures Exec(s, step).topic == s.topic
    ensures !step.RecoveryWrite? || !s.robot.KhiRobot? ==> Exec(s, step).status == s.status
  {
  }

  lemma {:induction false} OthersKeepTopic(s0: System, steps: seq<Step>, others: seq<Step>)
    requires s0.Initial() && forall k :: 0 <= k < |others| ==> OfOthers(others[k])
    ensures Run(s0, steps + others).topic == Run(s0, steps).topic
    ensures !s0.robot.KhiRobot? || (forall k :: 0 <= k < |others| ==> !others[k].RecoveryWrite?) ==>
              Run(s0, steps + others).status == Run(s0, steps).status
    decreases |others|
  {
    if others == [] {
      assert steps + others == steps;
    } else {
      var earlier, step := others[..|others| - 1], others[|others| - 1];
      OthersKeepTopic(s0, steps, earlier);
      assert steps + others == (steps + earlier) + [step];
      Extend(s0, steps + earlier, step);
      OthersStep(Run(s0, steps + earlier), step);
    }
  }

  /** A timer callback, however it is interleaved with deliveries, commands and recovery,
      publishes the status cached when it takes the lock; and that is still the cached status
      when it publishes unless a successful KHI reset wrote the cache in between. */
  lemma {:induction false} TimerPublishesCache(s0: System, steps: seq<Step>, a: seq<Step>, b: seq<Step>)
    requires s0.Initial() && Run(s0, steps).topic == Idle
    requires forall k :: 0 <= k < |a| ==> OfOthers(a[k])
    requires forall k :: 0 <= k < |b| ==> OfOthers(b[k])
    ensures var locked := steps + [TopicBegin(OnTimer)] + a;
            var s, t := Run(s0, locked), Run(s0, locked + [TopicLock] + b + [TopicPublish]);
            && t.topic == Idle && t.published != []
            && t.published[|t.published| - 1].fromTopicGroup
            && t.published[|t.published| - 1].status == s.status
            && (!s0.robot.KhiRobot? || (forall k :: 0 <= k < |b| ==> !b[k].RecoveryWrite?) ==> t.status == s.status)
  {
    var begun := steps + [TopicBegin(OnTimer)];
    Extend(s0, steps, TopicBegin(OnTimer));
    OthersKeepTopic(s0, begun, a);
    Extend(s0, begun + a, TopicLock);
    OthersKeepTopic(s0, begun + a + [TopicLock], b);
    Extend(s0, begun + a + [TopicLock] + b, TopicPublish);
  }

  // ---- A recovery ----

  /** One recovery without interruption; `succeeded` is whether the KHI reset was. */
  function RecoverySteps(robot: Robot, succeeded: bool): seq<Step> {
    match robot
    case UrRobot(_) => [RecoveryBegin] + [RecoveryCopy] + [RecoveryPublish]
    case FanucRobot(_) => [RecoveryBegin] + [RecoveryReturn]
    case KhiRobot(_) =>
      if succeeded then [RecoveryBegin] + [RecoveryWrite] + [RecoveryCopy] + [RecoveryPublish]
      else [RecoveryBegin] + [RecoveryReturn]
  }

  lemma {:induction false} RunTwo(s0: System, steps: seq<Step>, a: Step, b: Step)
    requires s0.Initial()
    ensures Run(s0, steps + ([a] + [b])) == Exec(Exec(Run(s0, steps), a), b)
  {
    hide Exec;
    Extend(s0, steps, a);
    Extend(s0, steps + [a], b);
    assert steps + ([a] + [b]) == steps + [a] + [b];
  }

  lemma {:induction false} UrRecoveryEffect(s: System)
    requires s.Sized() && s.robot.UrRobot? && s.recovery == Idle
    ensures var t := Exec(s, RecoveryBegin); var u := Exec(Exec(t, RecoveryCopy), RecoveryPublish);
            && u.robot == s.robot && u.status == s.status && u.recovery == Idle
            && |u.published| == |s.published| + 1 && s.published <= u.published
            && u.published[|s.published|].status == s.status
  {
    hide StatusOf, AfterCommand;
  }

  lemma {:induction false} KhiRecoveryEffect(s: System)
    requires s.Sized() && s.robot.KhiRobot? && s.recovery == Idle
    ensures var t := Exec(Exec(s, RecoveryBegin), RecoveryWrite);
            var u := Exec(Exec(t, RecoveryCopy), RecoveryPublish);
            && u.robot == KhiRobot(ResetAcknowledged) && u.status == OperationalStatus(ENABLED, "")
            && u.recovery == Idle && |u.published| == |s.published| + 1 && s.published <= u.published
            && u.published[|s.published|].status == u.status
  {
    hide StatusOf, AfterCommand;
  }

  lemma {:induction false} ReturnEffect(s: System)
    requires s.Sized() && !s.robot.UrRobot? && s.recovery == Idle
    ensures var u := Exec(Exec(s, RecoveryBegin), RecoveryReturn);
            && u.robot == s.robot && u.status == s.status && u.published == s.published && u.recovery == Idle
  {
    hide StatusOf, AfterCommand;
  }

  /** A recovery that is not interrupted does what the sequential code of its node does: the UR node
      publishes the cached status once, the KHI node stores and publishes ENABLED exactly if its
      reset succeeded, and the FANUC node does neither. */
  lemma {:induction false} UninterruptedRecovery(s0: System, steps: seq<Step>, succeeded: bool)
    requires s0.Initial() && Run(s0, steps).recovery == Idle
    ensures var s := Run(s0, steps); var t := Run(s0, steps + RecoverySteps(s.robot, succeeded));
            var publishes := s.robot.UrRobot? || (s.robot.KhiRobot? && succeeded);
            && t.recovery == Idle && s.published <= t.published
            && |t.published| == |s.published| + (if publishes then 1 else 0)
            && (publishes ==> t.published[|s.published|].status == t.status)
            && t.status == (if s.robot.KhiRobot? && succeeded then OperationalStatus(ENABLED, "") else s.status)
            && (!(s.robot.KhiRobot? && succeeded) ==> t.robot == s.robot)
  {
    hide Exec, Run;
    var s := Run(s0, steps);
    if s.robot.UrRobot? {
      Extend(s0, steps, RecoveryBegin);
      RunTwo(s0, steps + [RecoveryBegin], RecoveryCopy, RecoveryPublish);
      UrRecoveryEffect(s);
      assert steps + RecoverySteps(s.robot, succeeded) ==
             steps + [RecoveryBegin] + ([RecoveryCopy] + [RecoveryPublish]);
    } else if s.robot.KhiRobot? && succeeded {
      RunTwo(s0, steps, RecoveryBegin, RecoveryWrite);
      RunTwo(s0, steps + ([RecoveryBegin] + [RecoveryWrite]), RecoveryCopy, RecoveryPublish);
      KhiRecoveryEffect(s);
      assert steps + RecoverySteps(s.robot, succeeded) ==
             steps + ([RecoveryBegin] + [RecoveryWrite]) + ([RecoveryCopy] + [RecoveryPublish]);
    } else {
      RunTwo(s0, steps, RecoveryBegin, RecoveryReturn);
      ReturnEffect(s);
    }
  }

  // ---- A run that breaks the order ----

  /** A driver message handled without interruption. */
  function Handle(msg: Message): seq<Step> {
    [TopicBegin(OnMessage(msg)), TopicLock, TopicPublish]
  }

  lemma {:induction false} HandleEffect(s0: System, steps: seq<Step>, msg: Message)
    requires s0.Initial() && Run(s0, steps).topic == Idle
    ensures var s, t := Run(s0, steps), Run(s0, steps + Handle(msg));
            && t.robot == Receive(s.robot, msg) && t.status == StatusOf(t.robot)
            && t.topic == Idle && t.recovery == s.recovery && t.box == s.box
            && t.layout == s.layout && t.commands == s.commands && t.command == s.command
            && |t.published| == |s.published| + 1 && s.published <= t.published
            && t.published[|s.published|].status == t.status && t.published[|s.published|].copiedAt > |steps|
  {
    hide StatusOf;
    Extend(s0, steps, TopicBegin(OnMessage(msg)));
    Extend(s0, steps + [TopicBegin(OnMessage(msg))], TopicLock);
    Extend(s0, steps + [TopicBegin(OnMessage(msg))] + [TopicLock], TopicPublish);
    assert steps + Handle(msg) == steps + [TopicBegin(OnMessage(msg))] + [TopicLock] + [TopicPublish];
  }

  /** Steps that bring the UR node from the start to ENABLED. */
  function Enabling(): seq<Step> {
    Handle(RobotModeMsg(Ur.RUNNING)) + Handle(SafetyModeMsg(Ur.NORMAL)) + Handle(ProgramRunningMsg(true))
  }

  lemma {:induction false} EnablingEffect(s0: System, steps: seq<Step>)
    requires s0.Initial() && s0.robot.UrRobot? && Run(s0, steps).topic == Idle
    ensures var s, t := Run(s0, steps), Run(s0, steps + Enabling());
            && t.status.state == ENABLED && t.topic == Idle && t.recovery == s.recovery && t.box == s.box
            && t.layout == s.layout && t.commands == s.commands && t.command == s.command
            && |t.published| == |s.published| + 3
            && t.published[|s.published| + 2].status == t.status
            && t.published[|s.published| + 2].copiedAt > |steps|
  {
    var a := steps + Handle(RobotModeMsg(Ur.RUNNING));
    var b := a + Handle(SafetyModeMsg(Ur.NORMAL));
    HandleEffect(s0, steps, RobotModeMsg(Ur.RUNNING));
    HandleEffect(s0, a, SafetyModeMsg(Ur.NORMAL));
    HandleEffect(s0, b, ProgramRunningMsg(true));
    assert b + Handle(ProgramRunningMsg(true)) == steps + Enabling();
  }

  /** The order is not kept across the two groups: a recovery can publish an UNKNOWN it copied
      before the callbacks that already published ENABLED. */
  lemma {:induction false} RecoveryCanPublishStaleStatus(s0: System) returns (steps: seq<Step>)
    requires s0.Initial() && s0.robot.UrRobot?
    ensures var s := Run(s0, steps);
            && |s.published| == 4
            && s.published[3].copiedAt < s.published[2].copiedAt
            && s.published[3].status.state == UNKNOWN
            && s.published[2].status == s.status && s.status.state == ENABLED
  {
    var a := [] + [RecoveryBegin];
    Extend(s0, [], RecoveryBegin);
    var b := a + [RecoveryCopy];
    Extend(s0, a, RecoveryCopy);
    steps := PublishAfterEnabling(s0, b);
  }

  lemma {:induction false} PublishAfterEnabling(s0: System, b: seq<Step>) returns (steps: seq<Step>)
    requires s0.Initial() && s0.robot.UrRobot?
    requires Run(s0, b).topic == Idle && Run(s0, b).recovery.Holding? && Run(s0, b).published == []
    requires Run(s0, b).recovery.copiedAt <= |b|
    ensures var s := Run(s0, steps);
            && |s.published| == 4
            && s.published[3].copiedAt < s.published[2].copiedAt
            && s.published[3].status == Run(s0, b).recovery.snapshot
            && s.published[2].status == s.status && s.status.state == ENABLED
  {
    EnablingEffect(s0, b);
    steps := b + Enabling() + [RecoveryPublish];
    Extend(s0, b + Enabling(), RecoveryPublish);
  }
}
