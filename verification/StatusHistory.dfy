/** The vendor nodes' caches as functions of the history of events that wrote them. */
module StatusHistory {
  import opened Messages
  import opened StatusSystem
  import Ur = UrStatus
  import Fanuc = FanucStatus

  datatype CacheEvent = Stored(msg: Message) | ResetStored

  /** The write that a step makes to the cache, if any. */
  function WriteOf(s: System, step: Step): seq<CacheEvent> {
    if step.TopicLock? && s.topic.Running? && s.topic.work.OnMessage? then
      [Stored(s.topic.work.msg)]
    else if step.RecoveryWrite? && s.recovery.Running? && s.recovery.work == Recovering && s.robot.KhiRobot? then
      [ResetStored]
    else []
  }

  ghost function History(s0: System, steps: seq<Step>): seq<CacheEvent>
    requires s0.Initial()
  {
    if steps == [] then []
    else
      var earlier := steps[..|steps| - 1];
      History(s0, earlier) + WriteOf(Run(s0, earlier), steps[|steps| - 1])
  }

  /** Only a handled driver message or a successful KHI reset changes the cache; in particular
      no recovery of the UR and FANUC nodes does, and no unsuccessful KHI recovery. */
  lemma {:induction false} OnlyWritesChangeCache(s: System, step: Step)
    requires s.Sized() && WriteOf(s, step) == []
    ensures Exec(s, step).robot == s.robot && Exec(s, step).status == s.status
  {
  }

  /** Step `k` of the run writes the cache. */
  ghost predicate WritesAt(s0: System, steps: seq<Step>, k: nat)
    requires s0.Initial() && k < |steps|
  {
    WriteOf(Run(s0, steps[..k]), steps[k]) != []
  }

  /** The instant of the last write to the cache in the first `n` steps; 0 if there was none. */
  ghost function LastWriteBefore(s0: System, steps: seq<Step>, n: nat): (m: nat)
    requires s0.Initial() && n <= |steps|
    ensures m <= n && (m > 0 ==> WritesAt(s0, steps, m - 1))
    ensures forall k :: m <= k < n ==> !WritesAt(s0, steps, k)
  {
    if n == 0 then 0
    else if WritesAt(s0, steps, n - 1) then n
    else LastWriteBefore(s0, steps, n - 1)
  }

  ghost function LastWrite(s0: System, steps: seq<Step>): nat
    requires s0.Initial()
  {
    LastWriteBefore(s0, steps, |steps|)
  }

  lemma {:induction false} QuietStep(s0: System, steps: seq<Step>, n: nat)
    requires s0.Initial() && n < |steps| && !WritesAt(s0, steps, n)
    ensures Run(s0, steps[..n + 1]).robot == Run(s0, steps[..n]).robot
    ensures Run(s0, steps[..n + 1]).status == Run(s0, steps[..n]).status
  {
    assert steps[..n + 1] == steps[..n] + [steps[n]];
    Extend(s0, steps[..n], steps[n]);
    OnlyWritesChangeCache(Run(s0, steps[..n]), steps[n]);
  }

  /** While nothing is written the cache is unchanged. */
  lemma {:induction false} QuietSteps(s0: System, steps: seq<Step>, k: nat, n: nat)
    requires s0.Initial() && k <= n <= |steps|
    requires forall m :: k <= m < n ==> !WritesAt(s0, steps, m)
    ensures Run(s0, steps[..k]).robot == Run(s0, steps[..n]).robot
    ensures Run(s0, steps[..k]).status == Run(s0, steps[..n]).status
    decreases n
  {
    if k < n {
      QuietSteps(s0, steps, k, n - 1);
      QuietStep(s0, steps, n - 1);
    }
  }

  lemma {:induction false} UnchangedSinceLastWrite(s0: System, steps: seq<Step>, k: nat)
    requires s0.Initial() && LastWrite(s0, steps) <= k <= |steps|
    ensures Run(s0, steps[..k]).robot == Run(s0, steps).robot && Run(s0, steps[..k]).status == Run(s0, steps).status
  {
    assert steps[..|steps|] == steps;
    QuietSteps(s0, steps, k, |steps|);
  }

  // ---- Universal Robots: three topics ----

  datatype Topic = ROBOT_MODE | SAFETY_MODE | PROGRAM_RUNNING

  predicate OnTopic(t: Topic, msg: Message) {
    match t
    case ROBOT_MODE => msg.RobotModeMsg?
    case SAFETY_MODE => msg.SafetyModeMsg?
    case PROGRAM_RUNNING => msg.ProgramRunningMsg?
  }

  /** The messages of one topic, in the order in which they were handled. */
  function Received(t: Topic, history: seq<CacheEvent>): (msgs: seq<Message>)
    ensures forall i :: 0 <= i < |msgs| ==> OnTopic(t, msgs[i])
  {
    if history == [] then []
    else
      var earlier, last := Received(t, history[..|history| - 1]), history[|history| - 1];
      if last.Stored? && OnTopic(t, last.msg) then earlier + [last.msg] else earlier
  }

  lemma {:induction false} ReceivedSnoc(t: Topic, history: seq<CacheEvent>, e: CacheEvent)
    ensures Received(t, history + [e]) ==
            Received(t, history) + (if e.Stored? && OnTopic(t, e.msg) then [e.msg] else [])
  {
    assert (history + [e])[..|history|] == history;
  }

  function Last<T>(items: seq<T>): Option<T> {
    if items == [] then None else Some(items[|items| - 1])
  }

  /** `r` holds the last message of each topic. */
  predicate HoldsLast(r: Ur.RobotStatus, history: seq<CacheEvent>) {
    var mode := Last(Received(ROBOT_MODE, history));
    var safety := Last(Received(SAFETY_MODE, history));
    var running := Last(Received(PROGRAM_RUNNING, history));
    && r.robotMode == (if mode.None? then None else Some(mode.value.mode))
    && r.safetyMode == (if safety.None? then None else Some(safety.value.safety))
    && r.programRunning == (if running.None? then None else Some(running.value.running))
  }

  lemma {:induction false} UrWrite(s: System, step: Step, history: seq<CacheEvent>)
    requires s.Sized() && s.robot.UrRobot? && HoldsLast(s.robot.ur, history)
    ensures Exec(s, step).robot.UrRobot? && HoldsLast(Exec(s, step).robot.ur, history + WriteOf(s, step))
  {
    hide StatusOf;
    if WriteOf(s, step) == [] {
      OnlyWritesChangeCache(s, step);
      assert history + [] == history;
    } else {
      var e := WriteOf(s, step)[0];
      ReceivedSnoc(ROBOT_MODE, history, e);
      ReceivedSnoc(SAFETY_MODE, history, e);
      ReceivedSnoc(PROGRAM_RUNNING, history, e);
    }
  }

  lemma {:induction false} UrCacheHoldsLast(s0: System, steps: seq<Step>)
    requires s0.Initial() && s0.robot.UrRobot?
    ensures Run(s0, steps).robot.UrRobot? && HoldsLast(Run(s0, steps).robot.ur, History(s0, steps))
    decreases |steps|
  {
    if steps != [] {
      hide Exec, WriteOf, HoldsLast;
      var n := |steps| - 1;
      UrCacheHoldsLast(s0, steps[..n]);
      UrWrite(Run(s0, steps[..n]), steps[n], History(s0, steps[..n]));
    }
  }

  /** Callbacks of different topics commute: two runs that handled the same messages topic by
      topic end with the same cache, however the topics and everything else interleaved. */
  lemma {:induction false} InterleavingsAgree(s0: System, a: seq<Step>, b: seq<Step>)
    requires s0.Initial() && s0.robot.UrRobot?
    requires forall t :: Received(t, History(s0, a)) == Received(t, History(s0, b))
    ensures Run(s0, a).robot == Run(s0, b).robot && Run(s0, a).status == Run(s0, b).status
  {
    UrCacheHoldsLast(s0, a);
    UrCacheHoldsLast(s0, b);
    CacheEvaluatesRobot(s0, a);
    CacheEvaluatesRobot(s0, b);
  }

  lemma {:induction false} CompleteStays(s0: System, steps: seq<Step>, k: nat)
    requires s0.Initial() && s0.robot.UrRobot? && k <= |steps|
    requires Run(s0, steps[..k]).robot.ur.Complete()
    ensures Run(s0, steps).robot.ur.Complete()
    decreases |steps|
  {
    if k == |steps| {
      assert steps[..k] == steps;
    } else {
      assert steps[..|steps| - 1][..k] == steps[..k];
      CompleteStays(s0, steps[..|steps| - 1], k);
    }
  }

  predicate AllReceived(history: seq<CacheEvent>) {
    && Received(ROBOT_MODE, history) != []
    && Received(SAFETY_MODE, history) != []
    && Received(PROGRAM_RUNNING, history) != []
  }

  /** The status is UNKNOWN exactly while a topic is missing. */
  lemma {:induction false} UnknownExactlyUntilComplete(s0: System, steps: seq<Step>)
    requires s0.Initial() && s0.robot.UrRobot?
    ensures Run(s0, steps).robot.UrRobot?
    ensures Run(s0, steps).robot.ur.Complete() <==> AllReceived(History(s0, steps))
    ensures Run(s0, steps).status.state == UNKNOWN <==> !AllReceived(History(s0, steps))
  {
    UrCacheHoldsLast(s0, steps);
    CacheEvaluatesRobot(s0, steps);
  }

  /** Once a message of each topic was handled the status is never UNKNOWN again. */
  lemma {:induction false} NeverUnknownAgain(s0: System, steps: seq<Step>, k: nat)
    requires s0.Initial() && s0.robot.UrRobot? && k <= |steps|
    requires AllReceived(History(s0, steps[..k]))
    ensures Run(s0, steps).status.state != UNKNOWN
  {
    UnknownExactlyUntilComplete(s0, steps[..k]);
    CompleteStays(s0, steps, k);
    UnknownExactlyUntilComplete(s0, steps);
  }

  // ---- FANUC: one topic ----

  /** The last driver message of the history. */
  function LastFanucStatus(history: seq<CacheEvent>): Option<Fanuc.RobotStatus> {
    if history == [] then None
    else
      match history[|history| - 1]
      case Stored(FanucStatusMsg(status)) => Some(status)
      case _ => LastFanucStatus(history[..|history| - 1])
  }

  lemma {:induction false} FanucWrite(s: System, step: Step, history: seq<CacheEvent>)
    requires s.Sized() && s.robot == FanucRobot(LastFanucStatus(history))
    ensures Exec(s, step).robot == FanucRobot(LastFanucStatus(history + WriteOf(s, step)))
  {
    hide StatusOf;
    if WriteOf(s, step) == [] {
      OnlyWritesChangeCache(s, step);
      assert history + [] == history;
    } else {
      assert (history + WriteOf(s, step))[..|history|] == history;
    }
  }

  /** The FANUC cache evaluates exactly the last handled message. */
  lemma {:induction false} FanucHoldsLast(s0: System, steps: seq<Step>)
    requires s0.Initial() && s0.robot.FanucRobot?
    ensures Run(s0, steps).robot == FanucRobot(LastFanucStatus(History(s0, steps)))
    decreases |steps|
  {
    if steps != [] {
      hide Exec, WriteOf, LastFanucStatus;
      var n := |steps| - 1;
      FanucHoldsLast(s0, steps[..n]);
      FanucWrite(Run(s0, steps[..n]), steps[n], History(s0, steps[..n]));
    }
  }

  // ---- KHI: callbacks and resets write the same cache ----

  /** The most recent of start, error callback and successful reset. */
  function LastKhiEvent(history: seq<CacheEvent>): KhiEvent {
    if history == [] then Started
    else
      match history[|history| - 1]
      case Stored(KhiErrorMsg(info)) => Reported(info)
      case ResetStored => ResetAcknowledged
      case _ => LastKhiEvent(history[..|history| - 1])
  }

  lemma {:induction false} KhiWrite(s: System, step: Step, history: seq<CacheEvent>)
    requires s.Sized() && s.robot == KhiRobot(LastKhiEvent(history))
    ensures Exec(s, step).robot == KhiRobot(LastKhiEvent(history + WriteOf(s, step)))
  {
    hide StatusOf;
    if WriteOf(s, step) == [] {
      OnlyWritesChangeCache(s, step);
      assert history + [] == history;
    } else {
      assert (history + WriteOf(s, step))[..|history|] == history;
    }
  }

  lemma {:induction false} KhiHoldsLast(s0: System, steps: seq<Step>)
    requires s0.Initial() && s0.robot.KhiRobot?
    ensures Run(s0, steps).robot == KhiRobot(LastKhiEvent(History(s0, steps)))
    decreases |steps|
  {
    if steps != [] {
      hide Exec, WriteOf, LastKhiEvent;
      var n := |steps| - 1;
      KhiHoldsLast(s0, steps[..n]);
      KhiWrite(Run(s0, steps[..n]), steps[n], History(s0, steps[..n]));
    }
  }

  /** In every interleaving the KHI cache is the result of the most recent such event: it is
      FAULTED exactly when that event is a report with error codes, and ENABLED otherwise. */
  lemma {:induction false} KhiLastWriter(s0: System, steps: seq<Step>)
    requires s0.Initial() && s0.robot.KhiRobot?
    ensures var s, last := Run(s0, steps), LastKhiEvent(History(s0, steps));
            && s.robot == KhiRobot(last) && s.status == StatusOf(KhiRobot(last))
            && s.status.state == (if last.Reported? && last.info.errorCodes != [] then FAULTED else ENABLED)
  {
    hide Run, History, LastKhiEvent;
    CacheEvaluatesRobot(s0, steps);
    KhiHoldsLast(s0, steps);
  }
}
