/** Calls to services outside the repository. A service is described by what it
    does (when it appears, when it replies and with what), and the outcome and the
    waiting time follow from the caller's two timeouts. */
module ServiceCalls {
  import opened Messages

  datatype Behaviour = Behaviour(appearsAfterMs: nat, repliesAfterMs: nat, success: bool)

  datatype Outcome = NotAvailable | TimedOut | Refused | Accepted

  datatype Reply = Reply(outcome: Outcome, waitedMs: nat)

  /** `wait_for_service(discoverMs)`, then a request whose future is awaited for `replyMs`. */
  function Call(b: Behaviour, discoverMs: nat, replyMs: nat): (r: Reply)
    ensures r.waitedMs <= discoverMs + replyMs
    ensures r.outcome == Accepted <==>
            b.appearsAfterMs <= discoverMs && b.repliesAfterMs <= replyMs && b.success
    ensures r.outcome == Refused <==>
            b.appearsAfterMs <= discoverMs && b.repliesAfterMs <= replyMs && !b.success
    ensures r.outcome == TimedOut <==> b.appearsAfterMs <= discoverMs && b.repliesAfterMs > replyMs
    ensures r.outcome == Accepted || r.outcome == Refused ==> r.waitedMs == b.appearsAfterMs + b.repliesAfterMs
  {
    if b.appearsAfterMs > discoverMs then
      Reply(NotAvailable, discoverMs)
    else if b.repliesAfterMs > replyMs then
      Reply(TimedOut, b.appearsAfterMs + replyMs)
    else
      Reply(if b.success then Accepted else Refused, b.appearsAfterMs + b.repliesAfterMs)
  }

  /** One call of a sequence: the request, a pause before it, the two timeouts and the
      code reported when the service does not appear. */
  datatype Step<R> = Step(request: R, pauseMs: nat, discoverMs: nat, replyMs: nat, unavailable: ErrorCode)
  {
    function MaxWait(): nat { pauseMs + discoverMs + replyMs }

    function Code(o: Outcome): StatusCode {
      match o
      case NotAvailable => unavailable
      case TimedOut => DEADLINE_EXCEEDED
      case Refused => INTERNAL
      case Accepted => OK
    }
  }

  datatype Event<R> = Event(request: R, outcome: Outcome)

  datatype RunResult<R> = RunResult(code: StatusCode, events: seq<Event<R>>, waitedMs: nat)

  /** What the n-th service of an environment does when it is called. */
  type Environment = nat -> Behaviour

  /** Runs `steps` in order and stops at the first one that is not accepted. */
  function RunSteps<R>(steps: seq<Step<R>>, env: Environment, first: nat := 0): RunResult<R>
    decreases |steps|
  {
    if steps == [] then
      RunResult(OK, [], 0)
    else
      var step := steps[0];
      var reply := Call(env(first), step.discoverMs, step.replyMs);
      var event := Event(step.request, reply.outcome);
      var waited := step.pauseMs + reply.waitedMs;
      if reply.outcome != Accepted then
        RunResult(step.Code(reply.outcome), [event], waited)
      else
        var rest := RunSteps(steps[1..], env, first + 1);
        RunResult(rest.code, [event] + rest.events, waited + rest.waitedMs)
  }

  function TotalWait<R>(steps: seq<Step<R>>): nat {
    if steps == [] then 0 else steps[0].MaxWait() + TotalWait(steps[1..])
  }

  ghost predicate AcceptedTo<R>(events: seq<Event<R>>, n: nat)
    requires n <= |events|
  {
    forall i :: 0 <= i < n ==> events[i].outcome == Accepted
  }

  ghost predicate IssuedPrefix<R>(steps: seq<Step<R>>, events: seq<Event<R>>) {
    |events| <= |steps| && forall i :: 0 <= i < |events| ==> events[i].request == steps[i].request
  }

  /** `r` issued a prefix of the requests: all of them, all accepted, if it is OK; and otherwise
      up to the first one that was not accepted, whose code it returns. */
  ghost predicate StoppedAtFirstFailure<R>(steps: seq<Step<R>>, r: RunResult<R>) {
    && IssuedPrefix(steps, r.events)
    && if r.code == OK then
         |r.events| == |steps| && AcceptedTo(r.events, |r.events|)
       else
         && r.events != []
         && var k := |r.events| - 1;
         && AcceptedTo(r.events, k) && r.events[k].outcome != Accepted
         && r.code == steps[k].Code(r.events[k].outcome)
  }

  lemma {:induction false} AcceptedFirst<R>(event: Event<R>, events: seq<Event<R>>, n: nat)
    requires event.outcome == Accepted && n <= |events| && AcceptedTo(events, n)
    ensures AcceptedTo([event] + events, n + 1)
  {
    forall i | 0 <= i < n + 1 ensures ([event] + events)[i].outcome == Accepted {
      if i > 0 {
        assert events[i - 1].outcome == Accepted;
      }
    }
  }

  lemma {:induction false} IssuedFirst<R>(step: Step<R>, event: Event<R>, steps: seq<Step<R>>, events: seq<Event<R>>)
    requires event.request == step.request && IssuedPrefix(steps, events)
    ensures IssuedPrefix([step] + steps, [event] + events)
  {
    forall i | 0 <= i < |events| + 1 ensures ([event] + events)[i].request == ([step] + steps)[i].request {
      if i > 0 {
        assert events[i - 1].request == steps[i - 1].request;
      }
    }
  }

  /** Every run of a sequence stops at its first failure, and returns that failure's code. */
  lemma {:induction false} RunStopsAtFirstFailure<R>(steps: seq<Step<R>>, env: Environment, first: nat)
    ensures StoppedAtFirstFailure(steps, RunSteps(steps, env, first))
    decreases |steps|
  {
    if steps != [] {
      var rest := RunSteps(steps[1..], env, first + 1);
      RunStopsAtFirstFailure(steps[1..], env, first + 1);
      var event := Event(steps[0].request, Accepted);
      IssuedFirst(steps[0], event, steps[1..], rest.events);
      AcceptedFirst(event, rest.events, if rest.code == OK then |rest.events| else |rest.events| - 1);
      assert steps == [steps[0]] + steps[1..];
    }
  }

  /** No environment makes a sequence wait longer than the sum of its timeouts. */
  lemma {:induction false} RunWaitBound<R>(steps: seq<Step<R>>, env: Environment, first: nat)
    ensures RunSteps(steps, env, first).waitedMs <= TotalWait(steps)
    decreases |steps|
  {
    if steps != [] {
      RunWaitBound(steps[1..], env, first + 1);
    }
  }

  /** The environment that appears and replies at the last possible moment. */
  function SlowEnvironment(discoverMs: nat, replyMs: nat): Environment {
    n => Behaviour(discoverMs, replyMs, true)
  }

  /** The bound is reached, by a run that even succeeds. */
  lemma {:induction false} RunWaitReached<R>(steps: seq<Step<R>>, discoverMs: nat, replyMs: nat, first: nat)
    requires forall i :: 0 <= i < |steps| ==> steps[i].discoverMs == discoverMs && steps[i].replyMs == replyMs
    ensures var r := RunSteps(steps, SlowEnvironment(discoverMs, replyMs), first);
            r.code == OK && r.waitedMs == TotalWait(steps)
    decreases |steps|
  {
    if steps != [] {
      RunWaitReached(steps[1..], discoverMs, replyMs, first + 1);
    }
  }
}
