/** The `jobs` table and the statements of `JobQueue`: rows with a lease, and bounded attempts. */
module JobQueue {
  import opened Wrappers

  type JobId = nat
  type Worker = string
  /** Milliseconds. */
  type Time = int

  const DEFAULT_MAX_ATTEMPTS := 5
  const DELIVERED := "{\"delivered\":true}"

  datatype Status = Available | Running | Completed | Failed

  datatype Job = Job(
    kind: string,
    deduplicationKey: Option<string>,
    payload: string,
    status: Status,
    attempts: nat,
    maxAttempts: nat,
    availableAt: Time,
    createdAt: Time,
    lockedAt: Option<Time>,
    lockedBy: Option<Worker>,
    lastError: Option<string>)

  /** What a claim hands to the worker. */
  datatype QueuedJob = QueuedJob(id: JobId, kind: string, payload: string, attempts: nat, maxAttempts: nat)

  datatype NewJob = NewJob(kind: string, deduplicationKey: Option<string>, payload: string, maxAttempts: Option<int>)

  type Table = map<JobId, Job>

  // ----- the row transitions -----

  predicate LeaseExpired(j: Job, now: Time, timeout: nat) {
    j.lockedAt.Some? && j.lockedAt.value <= now - timeout
  }

  predicate Exhausted(j: Job, now: Time, timeout: nat) {
    j.status == Running && j.attempts >= j.maxAttempts && LeaseExpired(j, now, timeout)
  }

  /** The `expired` part of a claim: a last attempt whose lease ran out is a failure. */
  function Expire(j: Job, now: Time, timeout: nat): Job {
    if Exhausted(j, now, timeout)
    then j.(status := Failed, lockedAt := None, lockedBy := None, lastError := Some("lock_expired"))
    else j
  }

  /** The `candidate` part of a claim. */
  predicate Claimable(j: Job, now: Time, timeout: nat) {
    && j.attempts < j.maxAttempts
    && ((j.status == Available && j.availableAt <= now) || (j.status == Running && LeaseExpired(j, now, timeout)))
  }

  /** `order by available_at, created_at` */
  predicate NoLater(j: Job, k: Job) {
    j.availableAt < k.availableAt || (j.availableAt == k.availableAt && j.createdAt <= k.createdAt)
  }

  function Lease(j: Job, worker: Worker, now: Time): Job {
    j.(status := Running, attempts := j.attempts + 1, lockedAt := Some(now), lockedBy := Some(worker),
      lastError := None)
  }

  /** The choice of a claim: the first candidate among the rows that no other transaction locks. */
  ghost predicate Chooses(jobs: Table, skipped: set<JobId>, now: Time, timeout: nat, chosen: Option<JobId>) {
    match chosen
    case None => forall id | id in jobs && id !in skipped :: !Claimable(jobs[id], now, timeout)
    case Some(id) =>
      && id in jobs && id !in skipped && Claimable(jobs[id], now, timeout)
      && forall k | k in jobs && k !in skipped && Claimable(jobs[k], now, timeout) :: NoLater(jobs[id], jobs[k])
  }

  function Claimed(jobs: Table, chosen: Option<JobId>, worker: Worker, now: Time, timeout: nat): Table {
    map id | id in jobs ::
      if chosen == Some(id) then Lease(jobs[id], worker, now) else Expire(jobs[id], now, timeout)
  }

  predicate Holds(jobs: Table, id: JobId, worker: Worker) {
    id in jobs && jobs[id].status == Running && jobs[id].lockedBy == Some(worker)
  }

  function Complete(jobs: Table, id: JobId, worker: Worker): Table {
    if !Holds(jobs, id, worker) then jobs
    else jobs[id := jobs[id].(
                 status := Completed,
                 payload := if jobs[id].kind == "email" then DELIVERED else jobs[id].payload,
                 lockedAt := None,
                 lockedBy := None)]
  }

  /** `terminal` is decided from the job as it was handed out, not from the row. */
  function Retry(jobs: Table, job: QueuedJob, worker: Worker, delay: nat, now: Time): Table {
    if !Holds(jobs, job.id, worker) then jobs
    else jobs[job.id := jobs[job.id].(
                 status := if job.attempts >= job.maxAttempts then Failed else Available,
                 availableAt := now + delay,
                 lockedAt := None,
                 lockedBy := None,
                 lastError := Some("handler_failed"))]
  }

  function Inserted(job: NewJob, now: Time): Job
    requires job.maxAttempts.Some? ==> job.maxAttempts.value > 0
  {
    Job(job.kind, job.deduplicationKey, job.payload, Available, 0,
        if job.maxAttempts.Some? then job.maxAttempts.value else DEFAULT_MAX_ATTEMPTS,
        now, now, None, None, None)
  }

  /** The unique index on the deduplication key; absent keys never collide. */
  ghost predicate UniqueKeys(jobs: Table) {
    forall i, k | i in jobs && k in jobs && i != k ::
      jobs[i].deduplicationKey.None? || jobs[i].deduplicationKey != jobs[k].deduplicationKey
  }

  function QueuedView(id: JobId, j: Job): QueuedJob {
    QueuedJob(id, j.kind, j.payload, j.attempts, j.maxAttempts)
  }

  // ----- what the statements mean for a job -----

  /** Attempts are left, and the job waits and its delay is over, or its lease is as old as the timeout. */
  predicate Due(j: Job, now: Time, timeout: nat) {
    && j.attempts < j.maxAttempts
    && match j.status
       case Available => j.availableAt <= now
       case Running => j.lockedAt.Some? && j.lockedAt.value + timeout <= now
       case _ => false
  }

  /** The claimed job is due, none that became available earlier is passed over, and nothing is claimed only if nothing
      is due. */
  lemma ClaimTakesDue(jobs: Table, skipped: set<JobId>, now: Time, timeout: nat, chosen: Option<JobId>)
    requires Chooses(jobs, skipped, now, timeout, chosen)
    ensures chosen.None? <==> forall id | id in jobs && id !in skipped :: !Due(jobs[id], now, timeout)
    ensures chosen.Some? ==>
      && chosen.value in jobs && chosen.value !in skipped && Due(jobs[chosen.value], now, timeout)
      && forall id | id in jobs && id !in skipped && Due(jobs[id], now, timeout) ::
           && jobs[chosen.value].availableAt <= jobs[id].availableAt
           && (jobs[chosen.value].availableAt == jobs[id].availableAt ==>
                 jobs[chosen.value].createdAt <= jobs[id].createdAt)
  {
    forall id | id in jobs
      ensures Claimable(jobs[id], now, timeout) <==> Due(jobs[id], now, timeout)
    {
    }
    hide Claimable, Due;
  }

  /** A new job is due at once, and may be tried five times unless it says otherwise. */
  lemma EnqueuedIsDue(job: NewJob, now: Time, timeout: nat)
    requires job.maxAttempts.Some? ==> job.maxAttempts.value > 0
    ensures var row := Inserted(job, now);
      && Due(row, now, timeout) && row.status == Available && row.attempts == 0
      && row.maxAttempts == (match job.maxAttempts case Some(n) => n case None => 5)
      && row.kind == job.kind && row.payload == job.payload && row.deduplicationKey == job.deduplicationKey
  {
  }

  /** A claim leases the chosen row; it fails others that have no attempt left and whose lease is as old as the timeout,
      and leaves all the rest as they are. */
  lemma ClaimedExactly(jobs: Table, chosen: Option<JobId>, worker: Worker, now: Time, timeout: nat, id: JobId)
    requires id in jobs
    ensures var j, k := jobs[id], Claimed(jobs, chosen, worker, now, timeout)[id];
      if chosen == Some(id) then
        k == j.(status := Running, attempts := j.attempts + 1, lockedAt := Some(now), lockedBy := Some(worker),
                lastError := None)
      else if j.status == Running && j.attempts >= j.maxAttempts
              && j.lockedAt.Some? && j.lockedAt.value + timeout <= now
      then k.status == Failed && k == j.(status := Failed, lockedAt := None, lockedBy := None, lastError := k.lastError)
      else k == j
  {
  }

  /** The holder of the lease completes its job, and an email payload is dropped with it. */
  lemma CompletedExactly(jobs: Table, id: JobId, worker: Worker)
    ensures var after := Complete(jobs, id, worker);
      if id in jobs && jobs[id].status == Running && jobs[id].lockedBy == Some(worker) then
        && id in after && after == jobs[id := after[id]]
        && after[id].status == Completed && after[id].lockedBy == None && after[id].lockedAt == None
        && (jobs[id].kind == "email" ==> after[id].payload == "{\"delivered\":true}")
        && (jobs[id].kind != "email" ==> after[id].payload == jobs[id].payload)
        && after[id].attempts == jobs[id].attempts
      else after == jobs
  {
  }

  /** The holder gives its job back after the delay, unless that was the last attempt. */
  lemma RetriedExactly(jobs: Table, job: QueuedJob, worker: Worker, delay: nat, now: Time)
    ensures var after := Retry(jobs, job, worker, delay, now);
      if job.id in jobs && jobs[job.id].status == Running && jobs[job.id].lockedBy == Some(worker) then
        && job.id in after && after == jobs[job.id := after[job.id]]
        && (after[job.id].status == Failed <==> job.maxAttempts <= job.attempts)
        && (after[job.id].status == Available <==> job.attempts < job.maxAttempts)
        && after[job.id].availableAt == now + delay
        && after[job.id].lockedBy == None && after[job.id].lockedAt == None
        && after[job.id].attempts == jobs[job.id].attempts && after[job.id].payload == jobs[job.id].payload
      else after == jobs
  {
  }

  // ----- the class -----

  datatype EnqueueError = CheckViolation

  class JobQueue {
    var jobs: Table
    const lockTimeoutMs: nat

    constructor (lockTimeoutMs: nat)
      ensures jobs == map[] && this.lockTimeoutMs == lockTimeoutMs
    {
      jobs := map[];
      this.lockTimeoutMs := lockTimeoutMs;
    }

    /** `enqueue`; `freshId` is the generated primary key, used only if a row is inserted. */
    method Enqueue(job: NewJob, freshId: JobId, now: Time) returns (result: Result<JobId, EnqueueError>)
      requires freshId !in jobs && UniqueKeys(jobs)
      modifies this
      ensures UniqueKeys(jobs)
      ensures result.Err? <==> (job.maxAttempts.Some? && job.maxAttempts.value <= 0)
      ensures result.Err? ==> jobs == old(jobs)
      ensures result.Ok? && result.value != freshId ==>
                && jobs == old(jobs) && result.value in jobs
                && job.deduplicationKey.Some? && jobs[result.value].deduplicationKey == job.deduplicationKey
      ensures result.Ok? && result.value == freshId ==>
                && jobs == old(jobs)[freshId := Inserted(job, now)]
                && (job.deduplicationKey.Some? ==>
                      forall id | id in old(jobs) :: old(jobs)[id].deduplicationKey != job.deduplicationKey)
    {
      if job.maxAttempts.Some? && job.maxAttempts.value <= 0 {
        return Err(CheckViolation);
      }
      if job.deduplicationKey.Some? && exists id :: id in jobs && jobs[id].deduplicationKey == job.deduplicationKey {
        var id :| id in jobs && jobs[id].deduplicationKey == job.deduplicationKey;
        return Ok(id);
      }
      jobs := jobs[freshId := Inserted(job, now)];
      return Ok(freshId);
    }

    /** The row that `order by … limit 1 for update skip locked` selects. */
    method Candidate(skipped: set<JobId>, now: Time) returns (chosen: Option<JobId>)
      ensures Chooses(jobs, skipped, now, lockTimeoutMs, chosen)
    {
      chosen := None;
      var rest := jobs.Keys;
      while rest != {}
        invariant rest <= jobs.Keys
        invariant Chooses(map id | id in jobs && id !in rest :: jobs[id], skipped, now, lockTimeoutMs, chosen)
        decreases rest
      {
        var id :| id in rest;
        rest := rest - {id};
        if id !in skipped && Claimable(jobs[id], now, lockTimeoutMs)
           && (chosen == None || !NoLater(jobs[chosen.value], jobs[id])) {
          chosen := Some(id);
        }
      }
      assert (map id | id in jobs && id !in rest :: jobs[id]) == jobs;
    }

    /** `claim`; `skipped` are the rows locked by concurrent transactions. */
    method Claim(workerId: Worker, skipped: set<JobId>, now: Time) returns (job: Option<QueuedJob>)
      modifies this
      ensures exists chosen ::
                && Chooses(old(jobs), skipped, now, lockTimeoutMs, chosen)
                && jobs == Claimed(old(jobs), chosen, workerId, now, lockTimeoutMs)
                && job == (if chosen.None? then None else Some(QueuedView(chosen.value, jobs[chosen.value])))
      ensures job.Some? ==>
        && job.value.id in jobs && jobs[job.value.id].lockedBy == Some(workerId)
        && job.value.kind == jobs[job.value.id].kind && job.value.payload == jobs[job.value.id].payload
        && job.value.attempts == jobs[job.value.id].attempts
        && job.value.maxAttempts == jobs[job.value.id].maxAttempts
    {
      var chosen := Candidate(skipped, now);
      jobs := Claimed(jobs, chosen, workerId, now, lockTimeoutMs);
      job := if chosen.None? then None else Some(QueuedView(chosen.value, jobs[chosen.value]));
    }

    method CompleteJob(job: QueuedJob, workerId: Worker)
      modifies this
      ensures jobs == Complete(old(jobs), job.id, workerId)
    {
      if job.id in jobs {
        var row := jobs[job.id];
        if row.status == Running && row.lockedBy == Some(workerId) {
          var payload := if row.kind == "email" then DELIVERED else row.payload;
          jobs := jobs[job.id := row.(status := Completed, payload := payload, lockedAt := None, lockedBy := None)];
        }
      }
    }

    method RetryJob(job: QueuedJob, workerId: Worker, delayMs: nat, now: Time)
      modifies this
      ensures jobs == Retry(old(jobs), job, workerId, delayMs, now)
    {
      var terminal := job.attempts >= job.maxAttempts;
      if job.id in jobs {
        var row := jobs[job.id];
        if row.status == Running && row.lockedBy == Some(workerId) {
          jobs := jobs[job.id := row.(status := if terminal then Failed else Available, availableAt := now + delayMs,
                                      lockedAt := None, lockedBy := None, lastError := Some("handler_failed"))];
        }
      }
    }
  }
}
