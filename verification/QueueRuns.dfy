/** Whole runs of the queue: several sequential workers, crashes, lost answers and expiring leases. */
module QueueRuns {
  import opened Wrappers
  import opened JobQueue
  import Arithmetic

  /** A worker handles one job at a time; a dead worker never comes back under its name. */
  datatype Phase = Idle | Handling(job: QueuedJob) | Retrying(job: QueuedJob) | Dead

  datatype State = State(
    jobs: Table,
    now: Time,
    workers: map<Worker, Phase>,
    handled: map<JobId, nat>)  // how often each job was handed out since it was enqueued

  datatype Event =
    | Tick(elapsed: nat)
    | Enqueue(id: JobId, job: NewJob)
    | Join(worker: Worker)
    | Claim(worker: Worker, skipped: set<JobId>, chosen: Option<JobId>)
    | ClaimAnswerLost(worker: Worker, skipped: set<JobId>, chosen: Option<JobId>)
    | Finish(worker: Worker)               // the handler succeeded and `complete` returned
    | HandlerFails(worker: Worker)         // the handler, or a `complete` that did not commit, threw
    | CompletionAnswerLost(worker: Worker) // `complete` committed but threw
    | Reschedule(worker: Worker)           // the `retry` of the catch block
    | Crash(worker: Worker)

  /** `retryBackoffMs` */
  function RetryBackoffMs(attempt: nat): nat {
    var ms := 1000 * Arithmetic.Pow2(if attempt > 1 then attempt - 1 else 0);
    if ms < 300_000 then ms else 300_000
  }

  function Count(handled: map<JobId, nat>, id: JobId): nat {
    if id in handled then handled[id] else 0
  }

  function AfterClaim(s: State, worker: Worker, chosen: Option<JobId>, answered: bool, timeout: nat): State
    requires chosen.Some? ==> chosen.value in s.jobs
  {
    var jobs := Claimed(s.jobs, chosen, worker, s.now, timeout);
    s.(jobs := jobs,
       workers := s.workers[worker :=
         if !answered then Dead
         else if chosen.None? then Idle
         else Handling(QueuedView(chosen.value, jobs[chosen.value]))],
       handled := if chosen.Some? then s.handled[chosen.value := Count(s.handled, chosen.value) + 1] else s.handled)
  }

  ghost predicate Enabled(s: State, e: Event, timeout: nat) {
    match e
    case Tick(_) => true
    case Enqueue(id, job) =>
      id !in s.jobs && id !in s.handled && (job.maxAttempts.Some? ==> job.maxAttempts.value > 0)
    case Join(w) => w !in s.workers
    case Claim(w, skipped, chosen) =>
      w in s.workers && s.workers[w].Idle? && Chooses(s.jobs, skipped, s.now, timeout, chosen)
    case ClaimAnswerLost(w, skipped, chosen) =>
      w in s.workers && s.workers[w].Idle? && Chooses(s.jobs, skipped, s.now, timeout, chosen)
    case Finish(w) => w in s.workers && s.workers[w].Handling?
    case HandlerFails(w) => w in s.workers && s.workers[w].Handling?
    case CompletionAnswerLost(w) => w in s.workers && s.workers[w].Handling?
    case Reschedule(w) => w in s.workers && s.workers[w].Retrying?
    case Crash(w) => w in s.workers
  }

  function Step(s: State, e: Event, timeout: nat): State
    requires Enabled(s, e, timeout)
  {
    match e
    case Tick(elapsed) => s.(now := s.now + elapsed)
    case Enqueue(id, job) => s.(jobs := s.jobs[id := Inserted(job, s.now)])
    case Join(w) => s.(workers := s.workers[w := Idle])
    case Claim(w, _, chosen) => AfterClaim(s, w, chosen, true, timeout)
    case ClaimAnswerLost(w, _, chosen) => AfterClaim(s, w, chosen, false, timeout)
    case Finish(w) => s.(jobs := Complete(s.jobs, s.workers[w].job.id, w), workers := s.workers[w := Idle])
    case HandlerFails(w) => s.(workers := s.workers[w := Retrying(s.workers[w].job)])
    case CompletionAnswerLost(w) =>
      s.(jobs := Complete(s.jobs, s.workers[w].job.id, w), workers := s.workers[w := Retrying(s.workers[w].job)])
    case Reschedule(w) =>
      var job := s.workers[w].job;
      s.(jobs := Retry(s.jobs, job, w, RetryBackoffMs(job.attempts), s.now), workers := s.workers[w := Idle])
    case Crash(w) => s.(workers := s.workers[w := Dead])
  }

  // ----- the invariant -----

  predicate GoodRow(j: Job, now: Time) {
    && j.maxAttempts > 0
    && j.attempts <= j.maxAttempts
    && (j.status == Available ==> j.attempts < j.maxAttempts)
    && (j.status == Running <==> j.lockedBy.Some?)
    && (j.status == Running <==> j.lockedAt.Some?)
    && (j.status == Running ==> j.attempts > 0 && j.lockedAt.value <= now)
  }

  predicate InHand(p: Phase) {
    p.Handling? || p.Retrying?
  }

  /** A job in hand is a row at least as far; as long as the lease is held it is exactly that row. */
  predicate GoodHand(q: QueuedJob, w: Worker, jobs: Table) {
    && q.id in jobs
    && q.maxAttempts == jobs[q.id].maxAttempts
    && 0 < q.attempts <= jobs[q.id].attempts
    && (jobs[q.id].lockedBy == Some(w) ==> q.attempts == jobs[q.id].attempts)
  }

  /** A lease belongs to a worker that has this job in hand, or that died with it. */
  predicate GoodLease(id: JobId, w: Worker, workers: map<Worker, Phase>) {
    w in workers && (workers[w].Dead? || (InHand(workers[w]) && workers[w].job.id == id))
  }

  ghost predicate Inv(s: State) {
    && (forall id | id in s.jobs :: GoodRow(s.jobs[id], s.now))
    && (forall id | id in s.handled :: id in s.jobs)
    && (forall id | id in s.jobs :: Count(s.handled, id) == s.jobs[id].attempts)
    && (forall w | w in s.workers && InHand(s.workers[w]) :: GoodHand(s.workers[w].job, w, s.jobs))
    && (forall id | id in s.jobs && s.jobs[id].lockedBy.Some? :: GoodLease(id, s.jobs[id].lockedBy.value, s.workers))
  }

  /** What a claim does to one row, seen from the invariant. */
  lemma ClaimOnRow(s: State, w: Worker, chosen: Option<JobId>, timeout: nat, id: JobId)
    requires Inv(s) && id in s.jobs
    requires chosen.Some? ==> chosen.value in s.jobs && Claimable(s.jobs[chosen.value], s.now, timeout)
    ensures var j, k := s.jobs[id], Claimed(s.jobs, chosen, w, s.now, timeout)[id];
      && GoodRow(j, s.now) && GoodRow(k, s.now)
      && k.maxAttempts == j.maxAttempts
      && k.attempts == (if chosen == Some(id) then j.attempts + 1 else j.attempts)
      && (chosen == Some(id) ==> k.lockedBy == Some(w))
      && (chosen != Some(id) ==> k.lockedBy == None || k.lockedBy == j.lockedBy)
  {
  }

  lemma ClaimHands(s: State, w: Worker, chosen: Option<JobId>, answered: bool, timeout: nat, v: Worker)
    requires Inv(s) && w in s.workers && s.workers[w].Idle?
    requires chosen.Some? ==> chosen.value in s.jobs && Claimable(s.jobs[chosen.value], s.now, timeout)
    requires var t := AfterClaim(s, w, chosen, answered, timeout); v in t.workers && InHand(t.workers[v])
    ensures var t := AfterClaim(s, w, chosen, answered, timeout); GoodHand(t.workers[v].job, v, t.jobs)
  {
    hide Claimed, GoodRow;
    ClaimedKeys(s.jobs, chosen, w, s.now, timeout);
    if v == w {
      ClaimOnRow(s, w, chosen, timeout, chosen.value);
    } else {
      assert GoodHand(s.workers[v].job, v, s.jobs);
      ClaimOnRow(s, w, chosen, timeout, s.workers[v].job.id);
    }
  }

  lemma ClaimedKeys(jobs: Table, chosen: Option<JobId>, w: Worker, now: Time, timeout: nat)
    ensures Claimed(jobs, chosen, w, now, timeout).Keys == jobs.Keys
  {
  }

  lemma ClaimLeases(s: State, w: Worker, chosen: Option<JobId>, answered: bool, timeout: nat, id: JobId)
    requires Inv(s) && w in s.workers && s.workers[w].Idle?
    requires chosen.Some? ==> chosen.value in s.jobs && Claimable(s.jobs[chosen.value], s.now, timeout)
    requires var t := AfterClaim(s, w, chosen, answered, timeout); id in t.jobs && t.jobs[id].lockedBy.Some?
    ensures var t := AfterClaim(s, w, chosen, answered, timeout); GoodLease(id, t.jobs[id].lockedBy.value, t.workers)
  {
    ClaimedKeys(s.jobs, chosen, w, s.now, timeout);
    ClaimOnRow(s, w, chosen, timeout, id);
    if chosen != Some(id) {
      assert GoodLease(id, s.jobs[id].lockedBy.value, s.workers);
    }
  }

  lemma ClaimKeepsInvariant(s: State, w: Worker, skipped: set<JobId>, chosen: Option<JobId>, answered: bool,
      timeout: nat)
    requires Inv(s) && w in s.workers && s.workers[w].Idle?
    requires Chooses(s.jobs, skipped, s.now, timeout, chosen)
    ensures Inv(AfterClaim(s, w, chosen, answered, timeout))
  {
    var t := AfterClaim(s, w, chosen, answered, timeout);
    ClaimedKeys(s.jobs, chosen, w, s.now, timeout);
    forall v | v in t.workers && InHand(t.workers[v])
      ensures GoodHand(t.workers[v].job, v, t.jobs)
    {
      ClaimHands(s, w, chosen, answered, timeout, v);
    }
    forall id | id in t.jobs && t.jobs[id].lockedBy.Some?
      ensures GoodLease(id, t.jobs[id].lockedBy.value, t.workers)
    {
      ClaimLeases(s, w, chosen, answered, timeout, id);
    }
    hide Claimed, GoodRow, GoodHand, GoodLease, Chooses;
    forall id | id in t.jobs
      ensures GoodRow(t.jobs[id], t.now) && Count(t.handled, id) == t.jobs[id].attempts
    {
      ClaimOnRow(s, w, chosen, timeout, id);
    }
  }

  /** The worker lets go of its job; if it still holds the lease, the row becomes another unlocked one. */
  ghost predicate Released(s: State, t: State, w: Worker)
    requires w in s.workers && InHand(s.workers[w])
  {
    var id := s.workers[w].job.id;
    && t.now == s.now && t.handled == s.handled && t.workers.Keys == s.workers.Keys && t.jobs.Keys == s.jobs.Keys
    && (forall v | v in s.workers && v != w :: t.workers[v] == s.workers[v])
    && (t.workers[w].Idle? || t.workers[w] == Retrying(s.workers[w].job))
    && (forall k | k in s.jobs && k != id :: t.jobs[k] == s.jobs[k])
    && id in s.jobs
    && if Holds(s.jobs, id, w) then
         && t.jobs[id].lockedBy.None? && GoodRow(t.jobs[id], s.now)
         && t.jobs[id].attempts == s.jobs[id].attempts && t.jobs[id].maxAttempts == s.jobs[id].maxAttempts
       else t.jobs[id] == s.jobs[id]
  }

  lemma ReleasedHand(s: State, t: State, w: Worker, v: Worker)
    requires w in s.workers && InHand(s.workers[w]) && Released(s, t, w)
    requires v in t.workers && InHand(t.workers[v]) && InHand(s.workers[v]) && GoodHand(s.workers[v].job, v, s.jobs)
    ensures GoodHand(t.workers[v].job, v, t.jobs)
  {
    hide GoodRow;
    var id := s.workers[v].job.id;
    assert id in s.jobs && t.jobs[id].attempts == s.jobs[id].attempts
      && t.jobs[id].maxAttempts == s.jobs[id].maxAttempts;
  }

  lemma ReleasedLease(s: State, t: State, w: Worker, k: JobId)
    requires w in s.workers && InHand(s.workers[w]) && Released(s, t, w)
    requires k in t.jobs && t.jobs[k].lockedBy.Some?
    requires GoodRow(s.jobs[k], s.now)
    requires s.jobs[k].lockedBy.Some? ==> GoodLease(k, s.jobs[k].lockedBy.value, s.workers)
    ensures GoodLease(k, t.jobs[k].lockedBy.value, t.workers)
  {
  }

  lemma ReleaseKeepsInvariant(s: State, t: State, w: Worker)
    requires Inv(s) && w in s.workers && InHand(s.workers[w]) && Released(s, t, w)
    ensures Inv(t)
  {
    hide GoodRow, GoodHand, GoodLease;
    forall v | v in t.workers && InHand(t.workers[v])
      ensures GoodHand(t.workers[v].job, v, t.jobs)
    {
      ReleasedHand(s, t, w, v);
    }
    forall k | k in t.jobs && t.jobs[k].lockedBy.Some?
      ensures GoodLease(k, t.jobs[k].lockedBy.value, t.workers)
    {
      ReleasedLease(s, t, w, k);
    }
  }

  lemma OtherStepHand(s: State, e: Event, timeout: nat, v: Worker)
    requires Inv(s) && Enabled(s, e, timeout)
    requires e.Tick? || e.Enqueue? || e.Join? || e.HandlerFails? || e.Crash?
    requires var t := Step(s, e, timeout); v in t.workers && InHand(t.workers[v])
    ensures var t := Step(s, e, timeout); GoodHand(t.workers[v].job, v, t.jobs)
  {
    hide GoodRow, GoodLease;
    assert GoodHand(s.workers[v].job, v, s.jobs);
  }

  lemma OtherStepLease(s: State, e: Event, timeout: nat, k: JobId)
    requires Inv(s) && Enabled(s, e, timeout)
    requires e.Tick? || e.Enqueue? || e.Join? || e.HandlerFails? || e.Crash?
    requires var t := Step(s, e, timeout); k in t.jobs && t.jobs[k].lockedBy.Some?
    ensures var t := Step(s, e, timeout); GoodLease(k, t.jobs[k].lockedBy.value, t.workers)
  {
    hide GoodRow, GoodHand;
    assert GoodLease(k, s.jobs[k].lockedBy.value, s.workers);
  }

  lemma OtherStepKeepsInvariant(s: State, e: Event, timeout: nat)
    requires Inv(s) && Enabled(s, e, timeout)
    requires e.Tick? || e.Enqueue? || e.Join? || e.HandlerFails? || e.Crash?
    ensures Inv(Step(s, e, timeout))
  {
    hide GoodHand, GoodLease;
    var t := Step(s, e, timeout);
    forall v | v in t.workers && InHand(t.workers[v])
      ensures GoodHand(t.workers[v].job, v, t.jobs)
    {
      OtherStepHand(s, e, timeout, v);
    }
    forall k | k in t.jobs && t.jobs[k].lockedBy.Some?
      ensures GoodLease(k, t.jobs[k].lockedBy.value, t.workers)
    {
      OtherStepLease(s, e, timeout, k);
    }
  }

  lemma StepKeepsInvariant(s: State, e: Event, timeout: nat)
    requires Inv(s) && Enabled(s, e, timeout)
    ensures Inv(Step(s, e, timeout))
  {
    if e.Claim? {
      ClaimKeepsInvariant(s, e.worker, e.skipped, e.chosen, true, timeout);
    } else if e.ClaimAnswerLost? {
      ClaimKeepsInvariant(s, e.worker, e.skipped, e.chosen, false, timeout);
    } else if e.Finish? || e.CompletionAnswerLost? || e.Reschedule? {
      ReleaseStepKeepsInvariant(s, e, timeout);
    } else {
      OtherStepKeepsInvariant(s, e, timeout);
    }
  }

  lemma StepReleases(s: State, e: Event, timeout: nat)
    requires Enabled(s, e, timeout) && (e.Finish? || e.CompletionAnswerLost? || e.Reschedule?)
    requires GoodHand(s.workers[e.worker].job, e.worker, s.jobs)
    requires GoodRow(s.jobs[s.workers[e.worker].job.id], s.now)
    ensures Released(s, Step(s, e, timeout), e.worker)
  {
    hide RetryBackoffMs;
  }

  lemma ReleaseStepKeepsInvariant(s: State, e: Event, timeout: nat)
    requires Inv(s) && Enabled(s, e, timeout) && (e.Finish? || e.CompletionAnswerLost? || e.Reschedule?)
    ensures Inv(Step(s, e, timeout))
  {
    hide GoodRow, Step, Released;
    assert GoodHand(s.workers[e.worker].job, e.worker, s.jobs);
    StepReleases(s, e, timeout);
    ReleaseKeepsInvariant(s, Step(s, e, timeout), e.worker);
  }

  // ----- runs -----

  ghost predicate Run(s: State, events: seq<Event>, timeout: nat)
    decreases |events|
  {
    events == [] || (Enabled(s, events[0], timeout) && Run(Step(s, events[0], timeout), events[1..], timeout))
  }

  ghost function End(s: State, events: seq<Event>, timeout: nat): State
    requires Run(s, events, timeout)
    decreases |events|
  {
    if events == [] then s else End(Step(s, events[0], timeout), events[1..], timeout)
  }

  const EMPTY := State(map[], 0, map[], map[])

  lemma {:induction false} RunKeepsInvariant(s: State, events: seq<Event>, timeout: nat)
    requires Inv(s) && Run(s, events, timeout)
    ensures Inv(End(s, events, timeout))
    decreases |events|
  {
    if events != [] {
      StepKeepsInvariant(s, events[0], timeout);
      RunKeepsInvariant(Step(s, events[0], timeout), events[1..], timeout);
    }
  }

  /** Over all workers, crashes and lost answers, a job is handed out at most `maxAttempts` times,
      and it is offered again only while attempts are left. */
  lemma AttemptsAreBounded(events: seq<Event>, timeout: nat, id: JobId)
    requires Run(EMPTY, events, timeout)
    requires id in End(EMPTY, events, timeout).jobs
    ensures var t := End(EMPTY, events, timeout);
      && Count(t.handled, id) == t.jobs[id].attempts <= t.jobs[id].maxAttempts
      && (t.jobs[id].status == Available ==> t.jobs[id].attempts < t.jobs[id].maxAttempts)
  {
    RunKeepsInvariant(EMPTY, events, timeout);
    assert GoodRow(End(EMPTY, events, timeout).jobs[id], End(EMPTY, events, timeout).now);
  }

  predicate Final(j: Job) {
    j.status == Completed || j.status == Failed
  }

  lemma FinalRowStays(s: State, e: Event, timeout: nat, id: JobId)
    requires Inv(s) && Enabled(s, e, timeout) && id in s.jobs && Final(s.jobs[id])
    ensures id in Step(s, e, timeout).jobs && Step(s, e, timeout).jobs[id] == s.jobs[id]
  {
    hide RetryBackoffMs, GoodHand, GoodLease;
    assert GoodRow(s.jobs[id], s.now);
  }

  /** Completed and failed rows never change again. */
  lemma {:induction false} FinalRowsStay(s: State, events: seq<Event>, timeout: nat, id: JobId)
    requires Inv(s) && Run(s, events, timeout)
    requires id in s.jobs && Final(s.jobs[id])
    ensures id in End(s, events, timeout).jobs && End(s, events, timeout).jobs[id] == s.jobs[id]
    decreases |events|
  {
    if events != [] {
      hide Inv, Step, Enabled;
      StepKeepsInvariant(s, events[0], timeout);
      FinalRowStays(s, events[0], timeout, id);
      FinalRowsStay(Step(s, events[0], timeout), events[1..], timeout, id);
    }
  }

  /** Once a job was handed out again, the completion or retry of an earlier holder changes nothing. */
  lemma StaleHoldersAreHarmless(s: State, w: Worker, delay: nat)
    requires Inv(s) && w in s.workers && InHand(s.workers[w])
    requires var q := s.workers[w].job; q.id in s.jobs && s.jobs[q.id].attempts != q.attempts
    ensures Complete(s.jobs, s.workers[w].job.id, w) == s.jobs
    ensures Retry(s.jobs, s.workers[w].job, w, delay, s.now) == s.jobs
  {
    assert GoodHand(s.workers[w].job, w, s.jobs);
  }

  /** An effective retry of the current holder fails the job exactly when no attempt is left. */
  lemma EffectiveRetryDecidesByRow(s: State, w: Worker, delay: nat)
    requires Inv(s) && w in s.workers && InHand(s.workers[w])
    requires Holds(s.jobs, s.workers[w].job.id, w)
    ensures var id := s.workers[w].job.id;
      Retry(s.jobs, s.workers[w].job, w, delay, s.now)[id].status
      == if s.jobs[id].attempts == s.jobs[id].maxAttempts then Failed else Available
  {
    assert GoodHand(s.workers[w].job, w, s.jobs);
    assert GoodRow(s.jobs[s.workers[w].job.id], s.now);
  }

  // ----- leases exclude each other -----

  /** The worker gives up what it has in hand. */
  predicate GivesUp(e: Event, w: Worker) {
    (e.Finish? || e.CompletionAnswerLost? || e.Reschedule?) && e.worker == w
  }

  predicate HandsOut(e: Event, id: JobId) {
    (e.Claim? || e.ClaimAnswerLost?) && e.chosen == Some(id)
  }

  predicate Leased(jobs: Table, id: JobId, w: Worker, since: Time) {
    id in jobs && jobs[id].status == Running && jobs[id].lockedBy == Some(w) && jobs[id].lockedAt == Some(since)
  }

  lemma LeaseSurvivesStep(s: State, e: Event, timeout: nat, id: JobId, w: Worker, since: Time)
    requires Enabled(s, e, timeout) && Leased(s.jobs, id, w, since) && s.now < since + timeout && !GivesUp(e, w)
    ensures !HandsOut(e, id) && id in Step(s, e, timeout).jobs && Step(s, e, timeout).jobs[id] == s.jobs[id]
    ensures s.now <= Step(s, e, timeout).now
  {
    hide RetryBackoffMs;
  }

  lemma {:induction false} TimeGoesOn(s: State, events: seq<Event>, timeout: nat)
    requires Run(s, events, timeout)
    ensures s.now <= End(s, events, timeout).now
    decreases |events|
  {
    if events != [] {
      TimeGoesOn(Step(s, events[0], timeout), events[1..], timeout);
    }
  }

  /** As long as a lease is younger than the timeout and its worker has not given it up, nobody else is handed the job
      and nobody touches its row, whatever all the workers do. */
  lemma {:induction false} LeasesAreExclusive(s: State, events: seq<Event>, timeout: nat, id: JobId, w: Worker,
      since: Time)
    requires Run(s, events, timeout) && Leased(s.jobs, id, w, since)
    requires End(s, events, timeout).now < since + timeout
    requires forall e | e in events :: !GivesUp(e, w)
    ensures forall e | e in events :: !HandsOut(e, id)
    ensures id in End(s, events, timeout).jobs && End(s, events, timeout).jobs[id] == s.jobs[id]
    decreases |events|
  {
    TimeGoesOn(s, events, timeout);
    if events != [] {
      assert events == [events[0]] + events[1..];
      LeaseSurvivesStep(s, events[0], timeout, id, w, since);
      hide Step, Enabled;
      LeasesAreExclusive(Step(s, events[0], timeout), events[1..], timeout, id, w, since);
    }
  }

  /** A retry waits one second, and twice as long each further time, but never longer than five minutes. */
  lemma BackoffDoubles(attempt: nat)
    requires attempt > 0
    ensures RetryBackoffMs(1) == 1_000
    ensures RetryBackoffMs(attempt + 1) ==
      if 2 * RetryBackoffMs(attempt) < 300_000 then 2 * RetryBackoffMs(attempt) else 300_000
  {
  }

  // ----- the queue drains -----

  ghost function Left(jobs: Table): nat {
    if jobs.Keys == {} then 0
    else
      var id :| id in jobs;
      LeftOf(jobs[id]) + Left(jobs - {id})
  }

  function LeftOf(j: Job): nat {
    if j.attempts < j.maxAttempts then j.maxAttempts - j.attempts else 0
  }

  lemma {:induction false} LeftSplits(jobs: Table, id: JobId)
    requires id in jobs
    ensures Left(jobs) == LeftOf(jobs[id]) + Left(jobs - {id})
    decreases |jobs|
  {
    var k :| k in jobs && Left(jobs) == LeftOf(jobs[k]) + Left(jobs - {k});
    if k != id {
      LeftSplits(jobs - {k}, id);
      LeftSplits(jobs - {id}, k);
      assert jobs - {k} - {id} == jobs - {id} - {k};
    }
  }

  lemma {:induction false} LeftPointwise(a: Table, b: Table)
    requires a.Keys == b.Keys && forall id | id in a :: LeftOf(a[id]) == LeftOf(b[id])
    ensures Left(a) == Left(b)
    decreases |a|
  {
    if a.Keys != {} {
      var id :| id in a;
      LeftSplits(a, id);
      LeftSplits(b, id);
      LeftPointwise(a - {id}, b - {id});
    }
  }

  lemma LeftAfterClaim(jobs: Table, id: JobId, w: Worker, now: Time, timeout: nat)
    requires id in jobs && Claimable(jobs[id], now, timeout)
    ensures Left(Claimed(jobs, Some(id), w, now, timeout)) + 1 == Left(jobs)
  {
    var t := Claimed(jobs, Some(id), w, now, timeout);
    LeftSplits(jobs, id);
    LeftSplits(t, id);
    LeftPointwise(jobs - {id}, t - {id});
  }

  function IsClaim(e: Event): nat {
    if (e.Claim? || e.ClaimAnswerLost?) && e.chosen.Some? then 1 else 0
  }

  function Claims(events: seq<Event>): nat {
    if events == [] then 0 else IsClaim(events[0]) + Claims(events[1..])
  }

  predicate NothingEnqueued(events: seq<Event>) {
    forall i | 0 <= i < |events| :: !events[i].Enqueue?
  }

  lemma StepSpendsClaims(s: State, e: Event, timeout: nat)
    requires Enabled(s, e, timeout) && !e.Enqueue?
    ensures Left(Step(s, e, timeout).jobs) + IsClaim(e) == Left(s.jobs)
  {
    var t := Step(s, e, timeout);
    if IsClaim(e) == 1 {
      LeftAfterClaim(s.jobs, e.chosen.value, e.worker, s.now, timeout);
    } else {
      LeftPointwise(s.jobs, t.jobs);
    }
  }

  /** Without new jobs, a run makes at most as many claims as attempts were left at its start. */
  lemma {:induction false} ClaimsAreBounded(s: State, events: seq<Event>, timeout: nat)
    requires Run(s, events, timeout) && NothingEnqueued(events)
    ensures Claims(events) + Left(End(s, events, timeout).jobs) == Left(s.jobs)
    decreases |events|
  {
    if events != [] {
      StepSpendsClaims(s, events[0], timeout);
      assert forall i | 0 <= i < |events[1..]| :: events[1..][i] == events[i + 1];
      ClaimsAreBounded(Step(s, events[0], timeout), events[1..], timeout);
    }
  }

  /** When every delay has passed and every lease has run out, a claim that finds nothing leaves only
      completed and failed jobs. */
  lemma EmptyClaimMeansDrained(s: State, w: Worker, timeout: nat)
    requires Inv(s)
    requires Chooses(s.jobs, {}, s.now, timeout, None)
    requires forall id | id in s.jobs && s.jobs[id].status == Available :: s.jobs[id].availableAt <= s.now
    requires forall id | id in s.jobs && s.jobs[id].status == Running :: LeaseExpired(s.jobs[id], s.now, timeout)
    ensures forall id | id in s.jobs :: Final(Claimed(s.jobs, None, w, s.now, timeout)[id])
  {
    forall id | id in s.jobs
      ensures Final(Claimed(s.jobs, None, w, s.now, timeout)[id])
    {
      assert GoodRow(s.jobs[id], s.now) && !Claimable(s.jobs[id], s.now, timeout);
    }
  }
}
