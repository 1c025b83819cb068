# ROS 2 hardware module for ICON: a verified model

This project models the parts of the ROS 2 to ICON bridge that decide what reaches a robot and
when: the hardware module `Ros2HwmImpl`, the operational-state nodes for Universal Robots, FANUC
and KHI robots, the lifecycle of `IconHwmController`, and the control-rate arithmetic. All
statements are for every input, every behaviour of the services outside the repository, and
every run.

How the parts are modelled:

* Classes with mutable state are classes here (`Ros2HwmImpl`, the three nodes, `Controller`);
  their methods keep the source's branches and early returns and are proved against
  specification functions, about which the lemmas speak.
* A service is a value saying when it appears, when it replies and with what. Outcomes
  (not available, timed out, refused, accepted) and waiting times follow from the caller's
  timeouts (`ServiceCalls.dfy`).
* The concurrent behaviour is a transition system (`StatusSystem.dfy`): the locked copy and the
  publish of a callback are separate steps, the callbacks of one mutually exclusive group do not
  overlap (so at most two copies are in flight), the two groups interleave freely, and the topic
  may lose, delay, repeat or reorder. A second one (`FanucRecovery.dfy`) interleaves the hardware
  module's fault recovery with the FANUC node's, with numbered requests; the hardware module has
  one recovery at a time. A third one (`HwmStateTimer.dfy`) interleaves the timer callback of
  `IconHwmController` with the assignments of its lifecycle calls.
* Robot modes, safety modes and contact stop modes are enumerations; their numeric codes belong
  to the vendors' message packages, which are not part of this model.

Where the documentation and the code disagree, the model follows the code:

* the state constants are those of `OperationalStatus.msg`, not of the top-level README;
* the README says that both `ApplyCommand` and `EnableMotion` reject DISABLED and FAULTED;
  `EnableMotion` rejects only FAULTED.

Properties that the code has only under a condition, which is proved exact:

* a command admitted while the box holds ENABLED reaches a robot that was healthy when the
  delivered status was copied; it is healthy now iff the cache was not written since, or its last
  write was ENABLED again; and the box still holds ENABLED iff nothing was delivered since, or
  ENABLED was delivered last;
* the publications of the two callback groups are in the order of their copies iff neither group
  publishes a copy that the other one overtook;
* full interface names are distinct iff the types are, and none ends in a slash and another type;
* the request order needs a named hardware component and two different controller lists;
* the lifecycle round trip does not need disjoint lists but that the controllers to deactivate
  were active and those only to activate were not;
* a runtime keeps its clock iff no configuration assigns a clock while a runtime is present, which
  the lifecycle ensures iff an error finalizes the node;
* an error published by the timer is still that of the latest configuration iff none has begun
  since it was copied, which the lifecycle ensures iff an error finalizes the node;
* an error in starting the runtime is published only by a timer callback that checked for a
  runtime before it was stored and copied the error after it was recorded;
* a runtime that the timer callback has seen is still there when it is used iff no cleanup has
  reset it, or another one was stored after that;
* a configured period passes the frequency check if it rounds to the update rate, or to 0;
* the rate round trip has a remainder condition.

`dafny verify dfyconfig.toml` checks the whole project.

## Model

| member | source | states |
|---|---|---|
| CommandGating.CommandImpliesHealthyRobot | icon_hwm_controller/src/ros2_hwm_impl.cpp:329-412 | Over every interleaving of driver callbacks, timer, recovery, lossy delivery and commands, also between a command's gate and its writes: a call that read the box and changes a command interface found UNKNOWN or ENABLED in it, and for ENABLED the robot was healthy at the very instant at which the status then delivered had been copied from the cache |
| CommandGating.HealthyNowExactly | icon_hwm_controller/src/ros2_hwm_impl.cpp:335-404 | The robot that a write admitted on ENABLED reaches is healthy now iff the cache was not written after that copy or its last write was ENABLED again; in particular whenever nothing was written since |
| CommandGating.BoxAtWriteExactly | icon_hwm_controller/src/ros2_hwm_impl.cpp:353-404 | The box that was ENABLED at the gate still is when the command is written iff nothing was delivered in between or ENABLED was delivered last |
| CommandGating.UrCommandImpliesRunning | icon_hwm_controller_examples/ur_ros2_icon_hwm/src/ur_operational_state_node.cpp:34-140 | UR case of the gating theorem: safety NORMAL or REDUCED, mode RUNNING and program running held at the instant of the copy |
| CommandGating.FanucCommandImpliesMotionPossible | icon_hwm_controller_examples/fanuc_ros2_icon_hwm/src/fanuc_operational_state_node.cpp:34-100 | FANUC case: no e-stop, no contact stop, pendant off, no error and motion possible held at the instant of the copy |
| CommandGating.KhiCommandImpliesNoCodes | icon_hwm_controller_examples/khi_ros2_icon_hwm/src/khi_operational_state_node.cpp:33-64 | KHI case: at the instant of the copy the latest of start, error report and successful reset was not a report with codes |
| CommandGating.BoxWasTrueAtCopy | icon_hwm_controller/src/ros2_hwm_impl.cpp:408-412 | Before the first delivery the box holds the initial UNKNOWN, and afterwards the evaluation of what the node knew when the last delivered publication was copied, whatever the topic lost, delayed, repeated or reordered |
| CommandGating.CommandDuringProtectiveStop | icon_hwm_controller/src/ros2_hwm_impl.cpp:353-404 | An instance where neither holds: for every command that would change something there is a run in which it passes the gate and is written while the node has the robot in a protective stop and after FAULTED was delivered |
| HwmSpec.GateBlocksExactly | icon_hwm_controller/src/ros2_hwm_impl.cpp:335-356 | No command at all can change the interfaces exactly when the box was read and holds DISABLED or FAULTED; an unreadable box blocks nothing |
| StatusSystem.PublishedWasCached | icon_hwm_controller_examples/ur_ros2_icon_hwm/src/ur_operational_state_node.cpp:260-307 | Every published status was the cached status at an instant strictly between the start of its callback and its publish |
| StatusSystem.GroupPublishesInOrder | icon_hwm_controller_examples/ur_ros2_icon_hwm/src/ur_operational_state_node.cpp:183-227 | The publications of one mutually exclusive group are copies taken in order, whatever the other group publishes in between |
| StatusSystem.CopyOrderExactly | icon_hwm_controller_examples/ur_ros2_icon_hwm/src/ur_operational_state_node.cpp:260-307 | Over a whole run the publications of both groups are in the order of their copies iff no step publishes a copy after which the other group had already copied and published |
| StatusSystem.FanucPublishesInOrder | icon_hwm_controller_examples/fanuc_ros2_icon_hwm/src/fanuc_operational_state_node.cpp:183-283 | The FANUC node, whose recovery publishes nothing, is always in that order |
| StatusSystem.RecoveryCanPublishStaleStatus | icon_hwm_controller_examples/ur_ros2_icon_hwm/src/ur_operational_state_node.cpp:463-487 | A UR run out of that order: its last publication is UNKNOWN, copied before the ENABLED that was already published and is still cached |
| StatusSystem.QuietPublicationIsCurrent | icon_hwm_controller_examples/ur_ros2_icon_hwm/src/ur_operational_state_node.cpp:299-307 | A publication equals the cache if the cache did not change since its callback began |
| StatusSystem.TimerPublishesCache | icon_hwm_controller_examples/ur_ros2_icon_hwm/src/ur_operational_state_node.cpp:214-218 | Interleaved in any way with deliveries, commands and recovery steps, a timer callback publishes the status cached when it takes the lock, which is still cached at its publish unless a KHI reset wrote in between |
| StatusSystem.UninterruptedRecovery | icon_hwm_controller_examples/khi_ros2_icon_hwm/src/khi_operational_state_node.cpp:183-227 | A recovery that is not interrupted publishes the cached status once (UR), stores and publishes ENABLED exactly if the reset succeeded (KHI), or does neither (FANUC) |
| StatusSystem.CacheEvaluatesRobot | icon_hwm_controller_examples/ur_ros2_icon_hwm/src/ur_operational_state_node.cpp:260-297 | In every reachable state of each vendor node the cached status is the evaluation of what the node last learned |
| StatusHistory.UrCacheHoldsLast | icon_hwm_controller_examples/ur_ros2_icon_hwm/src/ur_operational_state_node.cpp:260-297 | The UR node's cache holds exactly the last handled message of each of its three topics |
| StatusHistory.InterleavingsAgree | icon_hwm_controller_examples/ur_ros2_icon_hwm/src/ur_operational_state_node.cpp:260-297 | Two runs that handled the same messages topic by topic end with the same cache, however callbacks, publishes and recoveries interleaved |
| StatusHistory.UnknownExactlyUntilComplete | icon_hwm_controller_examples/ur_ros2_icon_hwm/src/ur_operational_state_node.cpp:39-46 | The status is UNKNOWN exactly while some topic has not arrived |
| StatusHistory.NeverUnknownAgain | icon_hwm_controller_examples/ur_ros2_icon_hwm/src/ur_operational_state_node.cpp:174-178 | Once all three topics arrived the status is not UNKNOWN at any later instant |
| StatusHistory.FanucHoldsLast | icon_hwm_controller_examples/fanuc_ros2_icon_hwm/src/fanuc_operational_state_node.cpp:183-193 | In every interleaving the FANUC cache evaluates exactly the last handled message |
| StatusHistory.KhiLastWriter | icon_hwm_controller_examples/khi_ros2_icon_hwm/src/khi_operational_state_node.cpp:161-227 | In every interleaving the KHI cache is the result of the most recent of start, error callback and successful reset, FAULTED exactly for a report with codes |
| UrStatus.ToOperationalStatus | icon_hwm_controller_examples/ur_ros2_icon_hwm/src/ur_operational_state_node.cpp:34-140 | ENABLED iff safety is NORMAL or REDUCED, mode RUNNING and the program runs; UNKNOWN iff a topic is missing; DISABLED iff safety is fine, the mode is a known one that needs no fault handling and the robot does not run; FAULTED otherwise; a message exactly for UNKNOWN and FAULTED |
| FanucStatus.ToOperationalStatus | icon_hwm_controller_examples/fanuc_ros2_icon_hwm/src/fanuc_operational_state_node.cpp:34-100 | ENABLED iff the five-field condition holds; DISABLED iff the pendant is on without e-stop and contact stop; UNKNOWN iff nothing was received |
| Ros2Hwm.Ros2HwmImpl.ApplyCommand | icon_hwm_controller/src/ros2_hwm_impl.cpp:329-406 | The in-place loop leaves exactly the interfaces that AfterCommand describes and returns the first failing check's code |
| HwmSpec.CommandLandsByName | icon_hwm_controller/src/icon_hwm_controller.cpp:137-152 | On success joint i's position is on dof_names[i]/command_interfaces[0] and its feedforward on dof_names[i]/command_interfaces[1], and no other interface changed, for any number of joints and any stride |
| HwmSpec.FailureKeepsExactPrefix | icon_hwm_controller/src/ros2_hwm_impl.cpp:387-404 | When a write is refused, exactly the commanded interfaces before it are written and all others are unchanged |
| HwmSpec.CommandCodeExactly | icon_hwm_controller/src/ros2_hwm_impl.cpp:335-405 | The code in the fields of the call: the closed gate, then the handle's own error, a wrong size, missing interfaces, and a refused position or velocity interface, in this order, and OK otherwise |
| InterfaceLayout.InterfaceConfiguration | icon_hwm_controller/src/icon_hwm_controller.cpp:154-169 | The nested loops produce the dof-major layout: name i*stride+c is dof_names[i]/types[c] |
| InterfaceLayout.NamesDistinctExactly | icon_hwm_controller/src/icon_hwm_controller.cpp:146-150 | Every list of distinct joint names gives distinct full names iff the interface types are distinct and none ends in a slash followed by another type |
| InterfaceLayout.SplitFullName | icon_hwm_controller/src/icon_hwm_controller.cpp:146-150 | Joint and type can be read back from a full name when the type has no slash |
| InterfaceLayout.CollidingJoints | icon_hwm_controller/src/icon_hwm_controller.cpp:146-150 | For types that break the condition, joint names with which the layout repeats a name |
| Ros2Hwm.Ros2HwmImpl.ReadStatus | icon_hwm_controller/src/ros2_hwm_impl.cpp:293-327 | The in-place loops leave exactly the joint state that AfterRead describes, including the partial copies of a failing call |
| HwmSpec.ReadTakesByName | icon_hwm_controller/src/icon_hwm_controller.cpp:154-169 | After a successful read every joint's position and velocity are those of the interfaces that carry its name, both stamped with the time of the call |
| HwmSpec.ReadFailureKeepsExactPrefix | icon_hwm_controller/src/ros2_hwm_impl.cpp:293-322 | In terms of the readings: when position k is the first that cannot be read, exactly the positions below it are new; when velocity k is, all positions and exactly the velocities below it; without interfaces nothing; and never the stamps |
| HwmSpec.ReadSucceedsExactly | icon_hwm_controller/src/ros2_hwm_impl.cpp:293-327 | A read succeeds iff there are interfaces and every position, and with a stride above one every velocity, has a reading |
| HwmSpec.ReadRunInvariant | icon_hwm_controller/src/ros2_hwm_impl.cpp:293-327 | After any run of succeeding and failing reads both stamps are the time of the last success, and every stored value was read in that call or a later failed one |
| HwmSpec.StoredNotOlderThanStamp | icon_hwm_controller/src/ros2_hwm_impl.cpp:293-327 | With a clock that does not run backwards, no stored position or velocity is older than the stamps |
| Ros2Hwm.Ros2HwmImpl.Create | icon_hwm_controller/src/ros2_hwm_impl.cpp:78-137 | Fails exactly for a missing interface vector or a zero stride; the box starts with UNKNOWN |
| Ros2Hwm.Ros2HwmImpl.EnableMotion | icon_hwm_controller/src/ros2_hwm_impl.cpp:201-211 | Refused exactly while FAULTED, so a DISABLED robot can be enabled although the command gate is closed |
| Ros2Hwm.Ros2HwmImpl.Prepare | icon_hwm_controller/src/ros2_hwm_impl.cpp:166-188 | The early-return code issues the requests, takes the time (with that of resetting the clock) and returns the code of the stop-at-first-failure run of its steps |
| Ros2Hwm.Ros2HwmImpl.ClearFaults | icon_hwm_controller/src/ros2_hwm_impl.cpp:224-264 | Likewise for the sequence with the optional clear_faults call in front |
| Ros2Hwm.Ros2HwmImpl.Shutdown | icon_hwm_controller/src/ros2_hwm_impl.cpp:266-291 | Likewise, after resetting the clock, for the swapped switch followed by the hardware state |
| HwmSequences.PrepareExactly | icon_hwm_controller/src/ros2_hwm_impl.cpp:166-188 | Event by event: a failed clock reset returns its code without any request; otherwise a named component is activated, and only when that is accepted, within 1 s and 5 s, the switch is requested; with code and waiting time of every case |
| HwmSequences.ClearFaultsExactly | icon_hwm_controller/src/ros2_hwm_impl.cpp:224-264 | Likewise, with the vendor's service first if there is one, and nothing after it unless it accepted |
| HwmSequences.ShutdownExactly | icon_hwm_controller/src/ros2_hwm_impl.cpp:266-291 | Likewise: after the clock the swapped switch, and only when that is accepted SetHwState(INACTIVE) of a named component |
| HwmSequences.ShutdownDeactivatesHardware | icon_hwm_controller/src/ros2_hwm_impl.cpp:278-289 | With a named component and an accepted switch a shutdown always makes its second request, SetHwState(INACTIVE), and is OK iff that is accepted |
| Ros2Hwm.Ros2HwmImpl.CallSwitchController | icon_hwm_controller/src/ros2_hwm_impl.cpp:414-443 | One logged request; a service that needs more than 1 s to appear or 5 s to reply is a timeout, a refusal is INTERNAL |
| Ros2Hwm.Ros2HwmImpl.CallSetHwState | icon_hwm_controller/src/ros2_hwm_impl.cpp:446-467 | One logged request; a service missing after 1 s, silent for 5 s or refusing gives UNAVAILABLE, DEADLINE_EXCEEDED or INTERNAL |
| ServiceCalls.RunStopsAtFirstFailure | icon_hwm_controller/src/ros2_hwm_impl.cpp:246-263 | A sequence issues a prefix of its requests, all but the last acknowledged; it is OK iff all were, and otherwise returns the code of the step that stopped it |
| HwmSequences.OrderSafeExactly | icon_hwm_controller/src/ros2_hwm_impl.cpp:166-291 | In all runs every activating switch directly follows an acknowledged SetHwState(ACTIVE) and every SetHwState(INACTIVE) an acknowledged swapped switch, if and only if a hardware component is named and the two controller lists differ |
| HwmSequences.OkCallSwitches | icon_hwm_controller/src/ros2_hwm_impl.cpp:261-276 | An OK Prepare or ClearFaults leaves (active - D) + A, an OK Shutdown (active - A) + D, whatever was active before |
| HwmSequences.LifecycleRoundTrip | icon_hwm_controller/src/ros2_hwm_impl.cpp:166-291 | An all-OK Prepare, n ClearFaults, Shutdown restores the initial active set iff D was active and A - D was not |
| HwmSequences.AddSelf | icon_hwm_controller/src/icon_hwm_controller.cpp:181-188 | The controller is in the activate list, at the end and only if it was missing; nothing else changes |
| HwmSequences.ClearFaultsWaitBound | icon_hwm_controller/src/ros2_hwm_impl.cpp:224-264 | ClearFaults waits at most six seconds per step, at most 18 s, and a slow successful environment reaches it |
| HwmSequences.CallWaitBound | icon_hwm_controller/src/ros2_hwm_impl.cpp:166-291 | With a clock that resets within its 20 s, no Prepare or Shutdown waits longer than that and six seconds per step |
| UrNode.UrOperationalStateNode.ClearFaults | icon_hwm_controller_examples/ur_ros2_icon_hwm/src/ur_operational_state_node.cpp:403-497 | The sequential code makes the calls, takes the time and has the result of Recover, publishes once at the end and never writes the cached status |
| UrNode.UrOperationalStateNode.CallTriggerService | icon_hwm_controller_examples/ur_ros2_icon_hwm/src/ur_operational_state_node.cpp:309-341 | Code and waiting time of a Trigger call for every behaviour of the service |
| UrNode.UrOperationalStateNode.CallSetModeAction | icon_hwm_controller_examples/ur_ros2_icon_hwm/src/ur_operational_state_node.cpp:343-401 | Code and waiting time of the SetMode action for every behaviour of its server |
| UrNode.UrOperationalStateNode.RobotModeCallback | icon_hwm_controller_examples/ur_ros2_icon_hwm/src/ur_operational_state_node.cpp:260-271 | The locked update is the cache step of the concurrent system, and its result is published |
| UrNode.UrOperationalStateNode.SafetyModeCallback | icon_hwm_controller_examples/ur_ros2_icon_hwm/src/ur_operational_state_node.cpp:273-284 | The locked update is the cache step of the concurrent system, and its result is published |
| UrNode.UrOperationalStateNode.ProgramRunningCallback | icon_hwm_controller_examples/ur_ros2_icon_hwm/src/ur_operational_state_node.cpp:286-297 | The locked update is the cache step of the concurrent system, and its result is published |
| UrRecovery.RecoveryProtocol | icon_hwm_controller_examples/ur_ros2_icon_hwm/src/ur_operational_state_node.cpp:420-451 | For every status and environment: unlock exactly from PROTECTIVE_STOP, restart_safety exactly from the six modes and only right after closing the safety popup, connect exactly when needed |
| UrRecovery.CallsInOrder | icon_hwm_controller_examples/ur_ros2_icon_hwm/src/ur_operational_state_node.cpp:403-497 | The complete list of calls from the cached modes and the action server's answers: connect, release of the stop, both popups, SetMode, and exactly if that failed brake release and then resend |
| UrRecovery.SetModeExactly | icon_hwm_controller_examples/ur_ros2_icon_hwm/src/ur_operational_state_node.cpp:343-401 | SetMode succeeds iff its server appears within 1 s, accepts the goal within 3 s and reports success within the action timeout; the codes and waits of the other cases |
| UrRecovery.RecoveryWaitExactly | icon_hwm_controller_examples/ur_ros2_icon_hwm/src/ur_operational_state_node.cpp:403-497 | The waiting of a run is the sum of its calls' waits, with 500 ms discovery each, and 500 ms more exactly after a restart of the safety system |
| UrRecoveryContext.RecoveryFollowsLastReport | icon_hwm_controller_examples/ur_ros2_icon_hwm/src/ur_operational_state_node.cpp:405-451 | In any run of the node a recovery unlocks exactly when the last safety message handled before it was PROTECTIVE_STOP, and restarts safety exactly when it was one of the six modes |
| UrRecovery.SetModeOnce | icon_hwm_controller_examples/ur_ros2_icon_hwm/src/ur_operational_state_node.cpp:452-497 | SetMode is attempted exactly once, right after both popups; exactly when it failed, brake release and then resend follow; OK iff SetMode or the resend succeeded |
| UrRecovery.CallCounts | icon_hwm_controller_examples/ur_ros2_icon_hwm/src/ur_operational_state_node.cpp:403-497 | At most seven Trigger calls and exactly one SetMode |
| UrRecovery.RecoveryWaitBound | icon_hwm_controller_examples/ur_ros2_icon_hwm/src/ur_operational_state_node.cpp:403-497 | Total waiting is at most 7 * service_timeout + action_timeout + 8 s for every status and environment |
| UrRecovery.RecoveryWaitReached | icon_hwm_controller_examples/ur_ros2_icon_hwm/src/ur_operational_state_node.cpp:403-497 | The bound is reached by a run that even succeeds |
| UrRecoveryContext.CallerNeedsFastRecovery | icon_hwm_controller/src/ros2_hwm_impl.cpp:227-243 | The hardware module takes a vendor recovery as acknowledged iff its service appeared within 1 s and it succeeded within 5 s; its ClearFaults can be OK only then, and a slower recovery is reported as a timeout whatever it achieved |
| UrRecoveryContext.SuccessfulRecoveryTimesOutCaller | icon_hwm_controller/src/ros2_hwm_impl.cpp:233-236 | With the default timeouts a successful 58 s recovery is reported as DEADLINE_EXCEEDED |
| FanucNode.FanucOperationalStateNode.ClearFaults | icon_hwm_controller_examples/fanuc_ros2_icon_hwm/src/fanuc_operational_state_node.cpp:207-271 | The reset is requested first, and exactly when it is accepted control for ROS 2 (status 1) 200 ms later; code and waiting time of every case, with 2 s discovery |
| FanucNode.FanucOperationalStateNode.RobotStatusCallback | icon_hwm_controller_examples/fanuc_ros2_icon_hwm/src/fanuc_operational_state_node.cpp:183-193 | The locked update is the cache step of the concurrent system, and its result is published |
| FanucRecovery.OkMeansFullSequence | icon_hwm_controller/src/ros2_hwm_impl.cpp:224-264 | Over all runs with timeouts, other clients and overlapping requests: an OK of the hardware module's ClearFaults is preceded in order, for its own request, by acknowledged reset, switch_control_state(1), SetHwState(ACTIVE) and SwitchController |
| FanucRecovery.VendorLogIsAttempts | icon_hwm_controller_examples/fanuc_ros2_icon_hwm/src/fanuc_operational_state_node.cpp:130-162 | The vendor calls of any run are the concatenation of finished attempts and at most one unfinished one; each is a prefix of reset, switch_control_state(1), and control is never requested before a reset that succeeded |
| FanucRecovery.ThreadRunsClearFaults | icon_hwm_controller_examples/fanuc_ros2_icon_hwm/src/fanuc_operational_state_node.cpp:207-283 | The small-step vendor thread answers a request with success exactly when the sequential code returns OK for the same services |
| FanucRecovery.ThreadSendsTheRequests | icon_hwm_controller_examples/fanuc_ros2_icon_hwm/src/fanuc_operational_state_node.cpp:207-283 | The requests that the thread sends, as its log shows them, are exactly those that the sequential code sends, in the same order |
| FanucRecovery.HwmThreadRunsClearFaults | icon_hwm_controller/src/ros2_hwm_impl.cpp:224-264 | The small-step thread of the hardware module finishes a recovery with OK exactly when its sequential code returns OK for the same services, whatever happens while it waits for the node |
| FanucRecovery.WholeRecovery | icon_hwm_controller/src/ros2_hwm_impl.cpp:224-264 | Both threads together, from an idle node: the hardware module finishes with OK exactly when its code does, its first service being the node's sequential code |
| KhiText.JoinNonEmpty | icon_hwm_controller_examples/khi_ros2_icon_hwm/src/khi_operational_state_node.cpp:45-51 | The loop's text is the join of the list without its leading empty strings, and empty exactly when all are empty |
| KhiText.JoinCodes | icon_hwm_controller_examples/khi_ros2_icon_hwm/src/khi_operational_state_node.cpp:52-59 | The loop's text is the join of the decimal prints of all codes, and empty only for no codes |
| KhiText.CodesRoundTrip | icon_hwm_controller_examples/khi_ros2_icon_hwm/src/khi_operational_state_node.cpp:52-59 | The list of signed codes can be parsed back from the joined decimal prints |
| KhiStatus.ToOperationalStatus | icon_hwm_controller_examples/khi_ros2_icon_hwm/src/khi_operational_state_node.cpp:33-64 | The loops compute the status: FAULTED iff there are codes, with the joined messages or else the joined codes as details |
| KhiStatus.FaultHasDetails | icon_hwm_controller_examples/khi_ros2_icon_hwm/src/khi_operational_state_node.cpp:44-63 | Every FAULTED status carries non-empty details, from which the codes can be read back when there are no messages |
| KhiStatus.FaultMessageExactly | icon_hwm_controller_examples/khi_ros2_icon_hwm/src/khi_operational_state_node.cpp:33-64 | A report with codes is FAULTED, and its message encloses the messages joined from the first non-empty one on, or the joined codes when all messages are empty |
| KhiNode.KhiOperationalStateNode.ErrorInfoCallback | icon_hwm_controller_examples/khi_ros2_icon_hwm/src/khi_operational_state_node.cpp:161-171 | The locked update is the cache step of the concurrent system, and its result is published |
| KhiNode.KhiOperationalStateNode.ClearFaults | icon_hwm_controller_examples/khi_ros2_icon_hwm/src/khi_operational_state_node.cpp:183-227 | Only a successful reset writes and publishes ENABLED; every other outcome leaves the cache and the topic alone, and a refusal reports the joined messages |
| IconHwmController.Controller.OnConfigure | icon_hwm_controller/src/icon_hwm_controller.cpp:192-333 | In fields: success iff the parameters pass their checks, the module drives the clock, and shared memory, clock, runtime and start succeed; a new clock is assigned iff everything before it passed, a runtime stored iff it was created as well; an error is recorded iff the call fails; and the states in between are those of ConfigureStates |
| IconHwmController.ZeroRateIsDividedBy | icon_hwm_controller/src/icon_hwm_controller.cpp:241-304 | A configuration can reach the division by a zero update rate iff its other parameters are good and its frequency is unset or a multiple of 2^32 |
| IconHwmController.Controller.OnCleanup | icon_hwm_controller/src/icon_hwm_controller.cpp:347-368 | The timer is off; after a success clock and runtime are gone, the runtime before its clock; a failed Stop keeps both |
| IconHwmController.Controller.Update | icon_hwm_controller/src/icon_hwm_controller.cpp:370-401 | Fails exactly without a clock |
| IconHwmController.Controller.PublishCurrentHwmState | icon_hwm_controller/src/icon_hwm_controller.cpp:403-426 | Without interruption: publishes the recorded error without a runtime, and with one the runtime's own code and as much of its text as fits |
| HwmStateTimer.UninterruptedCallback | icon_hwm_controller/src/icon_hwm_controller.cpp:403-426 | The check, the copy and the publish of the concurrent callback do together what the sequential code does |
| IconHwmController.OwnershipExactly | icon_hwm_controller/src/icon_hwm_controller.cpp:268-316 | At every instant of a run of callbacks, inside them too, a present runtime has the very clock it was built on, iff no configuration reaches the clock assignment while a runtime is present |
| IconHwmController.LifecycleOwnershipExactly | icon_hwm_controller/include/icon_hwm_controller/icon_hwm_controller.hpp:72-76 | In every run that the lifecycle permits this holds iff a call that returned ERROR finalizes the node, or the parameters keep every configuration from creating a clock |
| IconHwmController.SecondConfigureLosesClock | icon_hwm_controller/src/icon_hwm_controller.cpp:273-330 | If errors lead back to Unconfigured, two failing configurations are permitted and leave a runtime without its clock |
| IconHwmController.ErrorIsLatestFailure | icon_hwm_controller/src/icon_hwm_controller.cpp:195-199 | After any run the recorded error is exactly that of the latest configuration, and absent iff that one succeeded |
| IconHwmController.TimerPublishesLatestFailure | icon_hwm_controller/src/icon_hwm_controller.cpp:405-413 | What a callback that is not interrupted publishes without a runtime is INIT_FAILED with the visible text of the latest, failed configuration |
| HwmStateTimer.CurrentError | icon_hwm_controller/src/icon_hwm_controller.cpp:195-223 | At every instant, inside calls too, the recorded error is that of the latest configuration that has begun, once that has failed and recorded it |
| HwmStateTimer.PublishedErrorWasLatest | icon_hwm_controller/src/icon_hwm_controller.cpp:405-425 | In every interleaving with the lifecycle calls, a published error is that of the configuration which was the latest when the callback copied it, and there was no runtime when the callback checked |
| HwmStateTimer.StillLatestExactly | icon_hwm_controller/src/icon_hwm_controller.cpp:408-425 | It is still that of the latest configuration when it is published iff no configuration began since the copy, and then it is still recorded |
| HwmStateTimer.ErrorsStayLatestExactly | icon_hwm_controller/include/icon_hwm_controller/icon_hwm_controller.hpp:84-89 | In all permitted runs every published error is still the latest iff a call that returned ERROR finalizes the node |
| HwmStateTimer.StaleError | icon_hwm_controller/src/icon_hwm_controller.cpp:408-425 | If errors lead back to Unconfigured, any second configuration, even one that has succeeded, can be followed by the error of the first |
| IconHwmController.FailurePublishedUnlessNotStarted | icon_hwm_controller/src/icon_hwm_controller.cpp:321-330 | A callback that is not interrupted publishes the recorded error of a failed clean configuration exactly when the failure came before the runtime was stored |
| HwmStateTimer.NotStartedCopiedExactly | icon_hwm_controller/src/icon_hwm_controller.cpp:316-330 | A callback copies the error of a runtime that could not be started iff it found no runtime at its check and the error recorded at its copy; inside a clean configuration, iff the check precedes the store and the copy follows the record |
| HwmStateTimer.PublishedNotStarted | icon_hwm_controller/src/icon_hwm_controller.cpp:316-330 | Every such error that is published comes from a callback that checked before the store and copied after the record |
| HwmStateTimer.SeenRuntimeIsGoneExactly | icon_hwm_controller/src/icon_hwm_controller.cpp:351-417 | A callback that saw a runtime finds none when it uses it iff in between a cleanup reset it and no configuration stored another |
| HwmStateTimer.WhoChangesRuntime | icon_hwm_controller/src/icon_hwm_controller.cpp:316-364 | Over all steps, only a cleanup's second assignment takes the runtime away and only a configuration's fourth one stores it |
| HwmStateTimer.CleanupUnderCallback | icon_hwm_controller/src/icon_hwm_controller.cpp:351-417 | Whenever a configuration can succeed there is a run in which a cleanup takes the runtime from under such a callback |
| ErrorText.Strncpy | icon_hwm_controller/src/icon_hwm_controller.cpp:213-217 | In place: the bytes up to the terminator, then zeros to the end of the buffer |
| ErrorText.Record | icon_hwm_controller/src/icon_hwm_controller.cpp:208-223 | The 256 recorded bytes are the visible part of the text followed by zeros |
| ErrorText.RecordedReadsBack | icon_hwm_controller/src/icon_hwm_controller.cpp:208-223 | Read back as a C string the record is the text cut at its first zero and at 255 bytes, always terminated and zero afterwards |
| ErrorText.CopyBounded | icon_hwm_controller/src/icon_hwm_controller.cpp:420-423 | The loop copies as many bytes of the reported text as fit and leaves zeros behind them |
| ErrorText.CopiedReadsBackExactly | icon_hwm_controller/src/icon_hwm_controller.cpp:420-423 | A copied text is terminated iff it ends or has a zero within its first 256 bytes, unlike a recorded error |
| Rates.RoundDivIsNearest | icon_hwm_controller/entrypoint.py:80-82 | The result is the integer nearest to the quotient, and the even one of two equally near |
| Rates.ControlFrequency | icon_hwm_controller/entrypoint.py:69-88 | -1 exactly for an unset or non-positive rate, and otherwise the integer nearest to the frequency, and the even one if two are equally near |
| Rates.RateRoundTripExactly | icon_hwm_controller/src/icon_hwm_controller.cpp:304 | Rounding 10^9 / floor(10^9 / f) gives back f iff twice the remainder of 10^9 / f is below floor(10^9 / f), or equal for even f |
| Rates.RateRoundTrip | icon_hwm_controller/entrypoint.py:80-82 | It does for every f from 1 to 22360, and whenever 2(f - 1) < floor(10^9 / f) |
| Rates.RoundTripFails | icon_hwm_controller/entrypoint.py:80-82 | It does not for f = 22553 |
| Rates.PeriodAcceptedExactly | icon_hwm_controller/src/icon_hwm_controller.cpp:241-248 | A configured period passes the frequency check iff the update rate is the frequency nearest to it, or it is not positive, or it is 2 s or longer and thus rounds to the frequency 0 that the check ignores |
| Rates.OwnPeriodIsAccepted | icon_hwm_controller/src/icon_hwm_controller.cpp:241-248 | A configured period that is the control period of an update rate up to 22360 Hz passes the frequency check of on_configure |
| Rates.PeriodError | icon_hwm_controller/entrypoint.py:80-82 | For a period p with rounded frequency f >= 1, floor(10^9 / f) is within p / (2 f) + 1 ns of p |

## Left out

- The ICON shared-memory libraries (clock, runtime, strict handles): clock and runtime calls are results chosen by the environment, a command handle is a value or an error.
- ROS 2 itself: only mutual exclusion within a callback group, delivery of previously published messages and the matching of responses to requests are assumed.
- Ros2Hwm.Ros2HwmImpl.Create: the creation of subscriptions and clients is not modelled; a pointer is present or not.
- HwmSequences.LifecycleRoundTrip: a switch that timed out is taken as not applied, which matters only for runs that are not all OK.
- IconHwmController.Controller.OnConfigure: the error texts are arbitrary byte strings, and the parameters not read by the checks are dropped. A division by a zero update rate, which C++ leaves undefined, is passed over; ZeroRateIsDividedBy says when it is reached.
- IconHwmController.LifecycleOwnershipExactly: the class inherits its error handling, so whether an ERROR leads back to Unconfigured is a parameter; activation and shutdown are left out, and every created clock is taken as a new object.
- HwmStateTimer.SeenRuntimeIsGoneExactly: a runtime answers at one instant; its destruction while it answers is not modelled, and nothing is said after the use of a missing runtime.
- CommandGating.BoxAtWriteExactly: all interfaces of one command are written at one instant.
- Rates.ControlFrequency: quotients are exact, so the rounding of double-precision division and of the frequency field itself is not modelled.
- Claiming and releasing the loaned interfaces: the vectors are empty or complete and keep their size during a run.
- Joint values are copied and never computed with, so special floating-point values play no role.
- Logging, severities, launch files, containers, `main` functions, the no-op activation callbacks and the advertising of hardware interfaces.
- The overlay of launch parameters and the command line of `entrypoint.py`.
- Null checks of service and action clients in the UR node, which creates all of them in its constructor.
