/** `WorkerProcessor`: the polling loop around claim, handler, completion and retry, among other workers and with a
    queue whose statements may throw. */
module Worker {
  import opened Wrappers
  import opened JobQueue
  import QueueRuns

  datatype WorkerState = Starting | Running | Stopping | Stopped

  /** What the environment contributes to one pass of the loop: the clock, the rows that concurrent transactions lock,
      whether the handler returns, how the statements end, and what others make of the table while the handler runs
      and between the exception and the retry. */
  datatype Pass = Pass(
    now: Time, skipped: set<JobId>, claim: Delivery,
    meanwhile: Table -> Table, handled: bool, completion: Delivery,
    beforeRetry: Table -> Table, later: Time, retry: Delivery)

  datatype Outcome = Processed | NothingToDo | Threw

  function Sent(delivery: Delivery, before: Table, after: Table): Table {
    if delivery.Fails? then before else after
  }

  /** The table in which the handler's result is known. */
  function Handled(claimed: Table, job: QueuedJob, worker: string, pass: Pass): Table {
    var t := pass.meanwhile(claimed);
    if pass.handled then Sent(pass.completion, t, Complete(t, job.id, worker)) else t
  }

  /** The retry of the catch block. */
  function Rescheduled(t: Table, job: QueuedJob, worker: string, pass: Pass): Table {
    var u := pass.beforeRetry(t);
    Sent(pass.retry, u, Retry(u, job, worker, QueueRuns.RetryBackoffMs(job.attempts), pass.later))
  }

  predicate Completes(pass: Pass) {
    pass.handled && pass.completion.Succeeds?
  }

  /** One pass of the loop on the table. */
  ghost predicate Passed(before: Table, after: Table, chosen: Option<JobId>, outcome: Outcome, worker: string,
      pass: Pass, timeout: nat)
  {
    if pass.claim.Fails? then chosen == None && outcome == Threw && after == before
    else
      && Chooses(before, pass.skipped, pass.now, timeout, chosen)
      && var claimed := Claimed(before, chosen, worker, pass.now, timeout);
      if pass.claim.AnswerLost? then outcome == Threw && after == claimed
      else if chosen.None? then outcome == NothingToDo && after == claimed
      else
        var job := QueuedView(chosen.value, claimed[chosen.value]);
        var handled := Handled(claimed, job, worker, pass);
        if Completes(pass) then outcome == Processed && after == handled
        else
          && outcome == (if pass.retry.Succeeds? then Processed else Threw)
          && after == Rescheduled(handled, job, worker, pass)
  }

  class WorkerProcessor {
    var state: WorkerState
    const workerId: string

    constructor (workerId: string)
      ensures state == Starting && this.workerId == workerId
    {
      state := Starting;
      this.workerId := workerId;
    }

    /** `runOnce` */
    method RunOnce(queue: JobQueue, pass: Pass) returns (outcome: Outcome)
      modifies queue
      ensures exists chosen :: Passed(old(queue.jobs), queue.jobs, chosen, outcome, workerId, pass, queue.lockTimeoutMs)
    {
      hide Complete, Retry;
      ghost var before := queue.jobs;
      if pass.claim.Fails? {
        outcome := Threw;
        assert Passed(before, queue.jobs, None, outcome, workerId, pass, queue.lockTimeoutMs);
        return;
      }
      var job := queue.Claim(workerId, pass.skipped, pass.now);
      ghost var chosen :| Chooses(before, pass.skipped, pass.now, queue.lockTimeoutMs, chosen)
        && queue.jobs == Claimed(before, chosen, workerId, pass.now, queue.lockTimeoutMs)
        && job == (if chosen.None? then None else Some(QueuedView(chosen.value, queue.jobs[chosen.value])));
      if pass.claim.AnswerLost? {
        outcome := Threw;
      } else if job.None? {
        outcome := NothingToDo;
      } else {
        queue.jobs := pass.meanwhile(queue.jobs);
        if pass.handled && !pass.completion.Fails? {
          queue.CompleteJob(job.value, workerId);
        }
        outcome := Processed;
        if !(pass.handled && pass.completion.Succeeds?) {
          queue.jobs := pass.beforeRetry(queue.jobs);
          if !pass.retry.Fails? {
            queue.RetryJob(job.value, workerId, QueueRuns.RetryBackoffMs(job.value.attempts), pass.later);
          }
          outcome := if pass.retry.Succeeds? then Processed else Threw;
        }
      }
      assert Passed(before, queue.jobs, chosen, outcome, workerId, pass, queue.lockTimeoutMs);
    }

    /** `run`: the signal is aborted after the given passes, unless one of them throws; then the loop is left in the
        state running. However others interfere, as long as they enqueue nothing, every job that was processed has
        used up an attempt that was left. */
    method Run(queue: JobQueue, passes: seq<Pass>) returns (processed: nat, threw: bool)
      modifies this, queue
      ensures state == if threw then WorkerState.Running else Stopped
      ensures processed <= |passes|
      ensures (forall p | p in passes :: Restrained(p)) ==>
        QueueRuns.Left(queue.jobs) + processed <= QueueRuns.Left(old(queue.jobs))
    {
      state := WorkerState.Running;
      processed, threw := 0, false;
      for i := 0 to |passes|
        invariant state == WorkerState.Running && !threw
        invariant processed <= i
        invariant (forall p | p in passes :: Restrained(p)) ==>
          QueueRuns.Left(queue.jobs) + processed <= QueueRuns.Left(old(queue.jobs))
      {
        hide Restrained, Passed;
        ghost var before := queue.jobs;
        var outcome := RunOnce(queue, passes[i]);
        ghost var chosen :| Passed(before, queue.jobs, chosen, outcome, workerId, passes[i], queue.lockTimeoutMs);
        if forall p | p in passes :: Restrained(p) {
          assert passes[i] in passes;
          PassSpends(before, queue.jobs, chosen, outcome, workerId, passes[i], queue.lockTimeoutMs);
        }
        if outcome == Threw {
          threw := true;
          return;
        }
        if outcome == Processed {
          processed := processed + 1;
        }
      }
      state := Stopping;
      state := Stopped;
    }
  }

  // ----- attempts -----

  /** Others leave no more attempts than they found: they may do anything but enqueue. */
  ghost predicate Spends(others: Table -> Table) {
    forall t :: QueueRuns.Left(others(t)) <= QueueRuns.Left(t)
  }

  ghost predicate Restrained(pass: Pass) {
    Spends(pass.meanwhile) && Spends(pass.beforeRetry)
  }

  lemma ConcludingSpendsNothing(t: Table, job: QueuedJob, worker: string, delay: nat, now: Time)
    ensures QueueRuns.Left(Complete(t, job.id, worker)) == QueueRuns.Left(t)
    ensures QueueRuns.Left(Retry(t, job, worker, delay, now)) == QueueRuns.Left(t)
  {
    QueueRuns.LeftPointwise(Complete(t, job.id, worker), t);
    QueueRuns.LeftPointwise(Retry(t, job, worker, delay, now), t);
  }

  lemma ClaimSpends(before: Table, chosen: Option<JobId>, worker: string, skipped: set<JobId>, now: Time, timeout: nat)
    requires Chooses(before, skipped, now, timeout, chosen)
    ensures QueueRuns.Left(Claimed(before, chosen, worker, now, timeout)) + (if chosen.Some? then 1 else 0)
      == QueueRuns.Left(before)
  {
    if chosen.Some? {
      QueueRuns.LeftAfterClaim(before, chosen.value, worker, now, timeout);
    } else {
      QueueRuns.LeftPointwise(Claimed(before, None, worker, now, timeout), before);
    }
  }

  lemma PassSpends(before: Table, after: Table, chosen: Option<JobId>, outcome: Outcome, worker: string, pass: Pass,
      timeout: nat)
    requires Passed(before, after, chosen, outcome, worker, pass, timeout) && Restrained(pass)
    ensures QueueRuns.Left(after) + (if chosen.Some? then 1 else 0) <= QueueRuns.Left(before)
    ensures outcome == Processed ==> chosen.Some?
  {
    hide Complete, Retry;
    if !pass.claim.Fails? {
      ClaimSpends(before, chosen, worker, pass.skipped, pass.now, timeout);
      if pass.claim.Succeeds? && chosen.Some? {
        var claimed := Claimed(before, chosen, worker, pass.now, timeout);
        var job := QueuedView(chosen.value, claimed[chosen.value]);
        var delay := QueueRuns.RetryBackoffMs(job.attempts);
        var t := pass.meanwhile(claimed);
        var handled := Handled(claimed, job, worker, pass);
        ConcludingSpendsNothing(t, job, worker, delay, pass.later);
        ConcludingSpendsNothing(pass.beforeRetry(handled), job, worker, delay, pass.later);
      }
    }
  }

  // ----- undisturbed passes -----

  /** When nothing interferes, the claimed job ends completed, rescheduled or failed, and no lease is left on it. */
  lemma UndisturbedPass(before: Table, after: Table, id: JobId, outcome: Outcome, worker: string, pass: Pass,
      timeout: nat)
    requires Passed(before, after, Some(id), outcome, worker, pass, timeout)
    requires pass.claim.Succeeds? && pass.completion.Succeeds? && pass.retry.Succeeds?
    requires (forall t :: pass.meanwhile(t) == t) && (forall t :: pass.beforeRetry(t) == t)
    ensures outcome == Processed && after.Keys == before.Keys
    ensures forall k | k in before && k != id :: after[k] == Expire(before[k], pass.now, timeout)
    ensures after[id].attempts == before[id].attempts + 1 && after[id].lockedBy == None && after[id].lockedAt == None
    ensures pass.handled ==>
      after[id].status == Completed && (before[id].kind == "email" ==> after[id].payload == DELIVERED)
    ensures !pass.handled ==>
      && after[id].status == (if after[id].attempts == before[id].maxAttempts then Failed else Available)
      && after[id].availableAt == pass.later + QueueRuns.RetryBackoffMs(after[id].attempts)
  {
    hide QueueRuns.RetryBackoffMs;
  }

  // ----- every pass is a run of the queue -----

  /** Events of other workers, of time, and of those who enqueue. */
  predicate OfOthers(worker: string, e: QueueRuns.Event) {
    e.Tick? || e.Enqueue? || e.worker != worker
  }

  predicate AllOfOthers(worker: string, events: seq<QueueRuns.Event>) {
    forall i | 0 <= i < |events| :: OfOthers(worker, events[i])
  }

  lemma {:induction false} OthersLeaveWorker(s: QueueRuns.State, events: seq<QueueRuns.Event>, worker: string,
      timeout: nat)
    requires QueueRuns.Run(s, events, timeout) && AllOfOthers(worker, events) && worker in s.workers
    ensures var t := QueueRuns.End(s, events, timeout); worker in t.workers && t.workers[worker] == s.workers[worker]
    decreases |events|
  {
    if events != [] {
      assert OfOthers(worker, events[0]);
      assert forall i | 0 <= i < |events[1..]| :: events[1..][i] == events[i + 1];
      OthersLeaveWorker(QueueRuns.Step(s, events[0], timeout), events[1..], worker, timeout);
    }
  }

  lemma {:induction false} RunsJoin(s: QueueRuns.State, es: seq<QueueRuns.Event>, fs: seq<QueueRuns.Event>,
      timeout: nat)
    requires QueueRuns.Run(s, es, timeout) && QueueRuns.Run(QueueRuns.End(s, es, timeout), fs, timeout)
    ensures QueueRuns.Run(s, es + fs, timeout)
    ensures QueueRuns.End(s, es + fs, timeout) == QueueRuns.End(QueueRuns.End(s, es, timeout), fs, timeout)
    decreases |es|
  {
    if es == [] {
      assert es + fs == fs;
    } else {
      assert (es + fs)[0] == es[0] && (es + fs)[1..] == es[1..] + fs;
      hide QueueRuns.Step, QueueRuns.Enabled;
      RunsJoin(QueueRuns.Step(s, es[0], timeout), es[1..], fs, timeout);
    }
  }

  lemma RunOfOne(s: QueueRuns.State, e: QueueRuns.Event, timeout: nat)
    requires QueueRuns.Enabled(s, e, timeout)
    ensures QueueRuns.Run(s, [e], timeout) && QueueRuns.End(s, [e], timeout) == QueueRuns.Step(s, e, timeout)
  {
    hide QueueRuns.Step, QueueRuns.Enabled;
    assert [e][1..] == [];
    assert QueueRuns.Run(QueueRuns.Step(s, e, timeout), [], timeout);
  }

  /** A run that goes on with one event. */
  lemma RunThen(s: QueueRuns.State, es: seq<QueueRuns.Event>, e: QueueRuns.Event, timeout: nat)
    requires QueueRuns.Run(s, es, timeout) && QueueRuns.Enabled(QueueRuns.End(s, es, timeout), e, timeout)
    ensures QueueRuns.Run(s, es + [e], timeout)
    ensures QueueRuns.End(s, es + [e], timeout) == QueueRuns.Step(QueueRuns.End(s, es, timeout), e, timeout)
  {
    hide QueueRuns.Step, QueueRuns.Enabled, QueueRuns.Run, QueueRuns.End;
    RunOfOne(QueueRuns.End(s, es, timeout), e, timeout);
    RunsJoin(s, es, [e], timeout);
  }

  /** How the worker learns that the handler or the completion threw. */
  function Failure(worker: string, pass: Pass): QueueRuns.Event {
    if pass.handled && pass.completion.AnswerLost? then QueueRuns.CompletionAnswerLost(worker)
    else QueueRuns.HandlerFails(worker)
  }

  /** What the others do is what the pass says of them. */
  ghost predicate Explains(s: QueueRuns.State, events: seq<QueueRuns.Event>, worker: string, jobs: Table,
      timeout: nat)
  {
    QueueRuns.Run(s, events, timeout) && AllOfOthers(worker, events) && QueueRuns.End(s, events, timeout).jobs == jobs
  }

  /** The claim, what others do, and the completion. */
  lemma CompletedPassIsRun(s: QueueRuns.State, id: JobId, worker: string, pass: Pass, timeout: nat,
      others: seq<QueueRuns.Event>) returns (events: seq<QueueRuns.Event>)
    requires worker in s.workers && s.workers[worker].Idle? && s.now == pass.now && pass.claim.Succeeds?
    requires Completes(pass)
    requires Chooses(s.jobs, pass.skipped, pass.now, timeout, Some(id))
    requires var claim := QueueRuns.Claim(worker, pass.skipped, Some(id));
      var t := QueueRuns.Step(s, claim, timeout); Explains(t, others, worker, pass.meanwhile(t.jobs), timeout)
    ensures QueueRuns.Run(s, events, timeout)
    ensures Passed(s.jobs, QueueRuns.End(s, events, timeout).jobs, Some(id), Processed, worker, pass, timeout)
  {
    hide Chooses, Claimed, Complete, QueueRuns.Run, QueueRuns.End;
    var claim := QueueRuns.Claim(worker, pass.skipped, Some(id));
    var t := QueueRuns.Step(s, claim, timeout);
    RunOfOne(s, claim, timeout);
    OthersLeaveWorker(t, others, worker, timeout);
    RunsJoin(s, [claim], others, timeout);
    RunThen(s, [claim] + others, QueueRuns.Finish(worker), timeout);
    events := [claim] + others + [QueueRuns.Finish(worker)];
  }

  /** The worker's last statement of a pass that did not complete, and the end of its process if that throws. */
  function Conclusion(worker: string, pass: Pass): seq<QueueRuns.Event> {
    match pass.retry
    case Succeeds => [QueueRuns.Reschedule(worker)]
    case Fails => [QueueRuns.Crash(worker)]
    case AnswerLost => [QueueRuns.Reschedule(worker), QueueRuns.Crash(worker)]
  }

  lemma ConclusionRuns(s: QueueRuns.State, worker: string, pass: Pass, timeout: nat)
    requires worker in s.workers && s.workers[worker].Retrying? && s.now == pass.later
    ensures QueueRuns.Run(s, Conclusion(worker, pass), timeout)
    ensures var job := s.workers[worker].job;
      QueueRuns.End(s, Conclusion(worker, pass), timeout).jobs
        == Sent(pass.retry, s.jobs, Retry(s.jobs, job, worker, QueueRuns.RetryBackoffMs(job.attempts), pass.later))
  {
    hide Retry, QueueRuns.RetryBackoffMs, QueueRuns.Run, QueueRuns.End;
    if pass.retry.Fails? {
      RunOfOne(s, QueueRuns.Crash(worker), timeout);
    } else {
      RunOfOne(s, QueueRuns.Reschedule(worker), timeout);
      if pass.retry.AnswerLost? {
        RunThen(s, [QueueRuns.Reschedule(worker)], QueueRuns.Crash(worker), timeout);
        assert [QueueRuns.Reschedule(worker)] + [QueueRuns.Crash(worker)] == Conclusion(worker, pass);
      }
    }
  }

  /** The claim, what others do, the exception, what others do, and the retry. */
  lemma RetriedPassIsRun(s: QueueRuns.State, id: JobId, worker: string, pass: Pass, timeout: nat,
      others: seq<QueueRuns.Event>, afterwards: seq<QueueRuns.Event>) returns (events: seq<QueueRuns.Event>)
    requires worker in s.workers && s.workers[worker].Idle? && s.now == pass.now && pass.claim.Succeeds?
    requires !Completes(pass)
    requires Chooses(s.jobs, pass.skipped, pass.now, timeout, Some(id))
    requires var claim := QueueRuns.Claim(worker, pass.skipped, Some(id));
      var t := QueueRuns.Step(s, claim, timeout);
      && Explains(t, others, worker, pass.meanwhile(t.jobs), timeout)
      && var u := QueueRuns.End(t, others, timeout);
      && QueueRuns.Enabled(u, Failure(worker, pass), timeout)
      && var v := QueueRuns.Step(u, Failure(worker, pass), timeout);
      && Explains(v, afterwards, worker, pass.beforeRetry(v.jobs), timeout)
      && QueueRuns.End(v, afterwards, timeout).now == pass.later
    ensures QueueRuns.Run(s, events, timeout)
    ensures Passed(s.jobs, QueueRuns.End(s, events, timeout).jobs, Some(id),
      if pass.retry.Succeeds? then Processed else Threw, worker, pass, timeout)
  {
    hide Chooses, Claimed, Complete, Retry, QueueRuns.Run, QueueRuns.End, Conclusion, QueueRuns.RetryBackoffMs;
    var claim := QueueRuns.Claim(worker, pass.skipped, Some(id));
    var failure := Failure(worker, pass);
    var t := QueueRuns.Step(s, claim, timeout);
    RunOfOne(s, claim, timeout);
    OthersLeaveWorker(t, others, worker, timeout);
    RunsJoin(s, [claim], others, timeout);
    RunThen(s, [claim] + others, failure, timeout);
    var v := QueueRuns.Step(QueueRuns.End(t, others, timeout), failure, timeout);
    OthersLeaveWorker(v, afterwards, worker, timeout);
    RunsJoin(s, [claim] + others + [failure], afterwards, timeout);
    ConclusionRuns(QueueRuns.End(v, afterwards, timeout), worker, pass, timeout);
    RunsJoin(s, [claim] + others + [failure] + afterwards, Conclusion(worker, pass), timeout);
    events := [claim] + others + [failure] + afterwards + Conclusion(worker, pass);
  }

  /** A claim that finds nothing, or whose answer is lost, which ends the process. */
  lemma EmptyPassIsRun(s: QueueRuns.State, chosen: Option<JobId>, worker: string, pass: Pass, timeout: nat)
    returns (events: seq<QueueRuns.Event>)
    requires worker in s.workers && s.workers[worker].Idle? && s.now == pass.now
    requires Chooses(s.jobs, pass.skipped, pass.now, timeout, chosen)
    requires pass.claim.AnswerLost? || (pass.claim.Succeeds? && chosen.None?)
    ensures QueueRuns.Run(s, events, timeout)
    ensures Passed(s.jobs, QueueRuns.End(s, events, timeout).jobs, chosen,
      if pass.claim.AnswerLost? then Threw else NothingToDo, worker, pass, timeout)
  {
    hide Chooses, Claimed, QueueRuns.Run, QueueRuns.End;
    var event := if pass.claim.AnswerLost? then QueueRuns.ClaimAnswerLost(worker, pass.skipped, chosen)
                 else QueueRuns.Claim(worker, pass.skipped, chosen);
    RunOfOne(s, event, timeout);
    events := [event];
  }
}
