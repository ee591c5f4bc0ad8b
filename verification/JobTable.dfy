/** The memory_jobs table: one method per SQL statement the queue and the scheduler send.
    Times are microseconds; a statement's now() is its argument. */
module JobTable {
  import opened Wrappers
  import opened Ordering

  const SECOND := 1_000_000
  const LEASE := 5 * 60 * SECOND
  const RESET_AFTER := 15 * 60 * SECOND
  const RETRY_DELAY := 5 * SECOND
  const MAX_ATTEMPTS := 5

  datatype Status = Queued | Retry | Processing | Done | Failed

  datatype Message = Message(topic: string, key: string, body: string)

  datatype Job = Job(
    msg: Message, status: Status, attempts: nat, maxAttempts: nat, lastError: Option<string>,
    createdAt: int, availableAt: int, lockedAt: Option<int>, completedAt: Option<int>)
  {
    predicate Terminal() { status == Done || status == Failed }

    predicate StaleLock(now: int, age: int) {
      status == Processing && lockedAt.Some? && lockedAt.value < now - age
    }

    predicate Claimable(now: int) {
      && attempts < maxAttempts
      && (((status == Queued || status == Retry) && availableAt <= now) || StaleLock(now, LEASE))
    }

    function Claimed(now: int): Job {
      this.(status := Processing, attempts := attempts + 1, lockedAt := Some(now))
    }

    function MarkedDone(now: int): Job { this.(status := Done, completedAt := Some(now)) }

    function MarkedFailed(error: string, now: int): Job {
      this.(status := if attempts >= maxAttempts then Failed else Retry,
            lastError := Some(error), availableAt := now + RETRY_DELAY)
    }

    predicate Prunable(now: int, retention: int) {
      status == Done && completedAt.Some? && completedAt.value < now - retention
    }

    function Unlocked(): Job { this.(status := Retry, lockedAt := None) }
  }

  type JobId = string
  type Jobs = map<JobId, Job>

  function NewJob(msg: Message, now: int): Job {
    Job(msg, Queued, 0, MAX_ATTEMPTS, None, now, now, None, None)
  }

  predicate Eligible(jobs: Jobs, topic: string, now: int, id: JobId) {
    id in jobs && jobs[id].msg.topic == topic && jobs[id].Claimable(now)
  }

  function DoneIn(jobs: Jobs, id: JobId, now: int): Jobs {
    if id in jobs then jobs[id := jobs[id].MarkedDone(now)] else jobs
  }

  function FailedIn(jobs: Jobs, id: JobId, error: string, now: int): Jobs {
    if id in jobs then jobs[id := jobs[id].MarkedFailed(error, now)] else jobs
  }

  function Pruned(jobs: Jobs, now: int, retention: int): Jobs {
    map id | id in jobs && !jobs[id].Prunable(now, retention) :: jobs[id]
  }

  function Reset(jobs: Jobs, now: int): Jobs {
    map id | id in jobs :: if jobs[id].StaleLock(now, RESET_AFTER) then jobs[id].Unlocked() else jobs[id]
  }

  /** ORDER BY available_at ASC, created_at ASC; ids outside the table rank first. */
  predicate ClaimOrder(jobs: Jobs, x: JobId, y: JobId) {
    var (a, b) := if x in jobs then (jobs[x].availableAt, jobs[x].createdAt) else (0, 0);
    var (c, d) := if y in jobs then (jobs[y].availableAt, jobs[y].createdAt) else (0, 0);
    a < c || (a == c && b <= d)
  }

  /** No eligible row that is not locked became available earlier, or was published earlier and available as soon. */
  ghost predicate FirstOf(jobs: Jobs, topic: string, now: int, locked: set<JobId>, id: JobId) {
    && Eligible(jobs, topic, now, id) && id !in locked
    && forall other :: Eligible(jobs, topic, now, other) && other !in locked ==>
         || jobs[id].availableAt < jobs[other].availableAt
         || (jobs[id].availableAt == jobs[other].availableAt && jobs[id].createdAt <= jobs[other].createdAt)
  }

  class Table {
    var jobs: Jobs

    constructor ()
      ensures jobs == map[]
    {
      jobs := map[];
    }

    /** INSERT: a primary key already present makes the statement fail. */
    method Publish(id: JobId, msg: Message, now: int) returns (ok: bool)
      modifies this
      ensures ok <==> id !in old(jobs)
      ensures jobs == if ok then old(jobs)[id := NewJob(msg, now)] else old(jobs)
    {
      ok := id !in jobs;
      if ok {
        jobs := jobs[id := NewJob(msg, now)];
      }
    }

    /** The atomic claim. Rows that another transaction holds, `locked`, are passed over. */
    method Claim(topic: string, now: int, locked: set<JobId>) returns (claimed: Option<(JobId, Message)>)
      modifies this
      ensures claimed.None? ==>
                jobs == old(jobs) && forall id :: Eligible(old(jobs), topic, now, id) ==> id in locked
      ensures claimed.Some? ==>
                var (id, msg) := claimed.value;
                && FirstOf(old(jobs), topic, now, locked, id) && msg == old(jobs)[id].msg && msg.topic == topic
                && jobs == old(jobs)[id := old(jobs)[id].Claimed(now)]
    {
      var candidates := set id | id in jobs && Eligible(jobs, topic, now, id) && id !in locked;
      assert forall id :: Eligible(jobs, topic, now, id) && id !in locked <==> id in candidates;
      if candidates == {} {
        return None;
      }
      var snapshot := jobs;
      var ordered := SortSet(candidates, (x, y) => ClaimOrder(snapshot, x, y));
      var id := ordered[0];
      assert id in candidates;
      forall other | other in candidates ensures ClaimOrder(snapshot, id, other) {
        assert other in ordered;
      }
      jobs := jobs[id := jobs[id].Claimed(now)];
      claimed := Some((id, jobs[id].msg));
    }

    method MarkDone(id: JobId, now: int)
      modifies this
      ensures jobs == DoneIn(old(jobs), id, now)
    {
      if id in jobs {
        jobs := jobs[id := jobs[id].MarkedDone(now)];
      }
    }

    method MarkFailed(id: JobId, error: string, now: int)
      modifies this
      ensures jobs == FailedIn(old(jobs), id, error, now)
    {
      if id in jobs {
        jobs := jobs[id := jobs[id].MarkedFailed(error, now)];
      }
    }

    /** DELETE of the done rows that are older than the retention. */
    method Prune(now: int, retention: int)
      modifies this
      ensures jobs == Pruned(old(jobs), now, retention)
    {
      jobs := map id | id in jobs && !jobs[id].Prunable(now, retention) :: jobs[id];
    }

    /** UPDATE of the rows stuck in processing. */
    method ResetStale(now: int)
      modifies this
      ensures jobs == Reset(old(jobs), now)
    {
      jobs := map id | id in jobs :: if jobs[id].StaleLock(now, RESET_AFTER) then jobs[id].Unlocked() else jobs[id];
    }

    /** One jobs-maintenance tick: prune old done rows, then unlock rows stuck in processing. */
    method Maintain(now: int, retention: int)
      modifies this
      ensures jobs == Reset(Pruned(old(jobs), now, retention), now)
      ensures forall id :: id in jobs <==> id in old(jobs) && !old(jobs)[id].Prunable(now, retention)
      ensures forall id :: id in jobs && jobs[id] != old(jobs)[id] <==>
                             id in old(jobs) && old(jobs)[id].StaleLock(now, RESET_AFTER)
      ensures forall id :: id in jobs && jobs[id] != old(jobs)[id] ==>
                             && old(jobs)[id].status == Processing
                             && jobs[id] == old(jobs)[id].(status := Retry, lockedAt := None)
    {
      Prune(now, retention);
      ResetStale(now);
    }
  }

  // ---- who may be claimed when, and in which order ----

  /** The life of a row in times: published, it is there at once; claimed, again when its lock is more than five minutes
      old; failed, five seconds later; done, never; unlocked, at once. Each of the five attempts counts. */
  lemma WhenClaimable(msg: Message, job: Job, error: string, t: int, now: int)
    ensures NewJob(msg, t).Claimable(now) <==> t <= now
    ensures job.Claimed(t).Claimable(now) <==> job.attempts + 1 < job.maxAttempts && t + 300_000_000 < now
    ensures job.MarkedFailed(error, t).Claimable(now) <==> job.attempts < job.maxAttempts && t + 5_000_000 <= now
    ensures !job.MarkedDone(t).Claimable(now)
    ensures job.Unlocked().Claimable(now) <==> job.attempts < job.maxAttempts && job.availableAt <= now
    ensures job.MarkedFailed(error, t).Terminal() <==> job.attempts >= job.maxAttempts
    ensures job.MarkedFailed(error, t).lastError == Some(error)
    ensures NewJob(msg, t).maxAttempts == 5 && NewJob(msg, t).attempts == 0 && NewJob(msg, t).msg == msg
  {
  }

  /** What the scheduler waits for: a lock more than fifteen minutes old, and the retention after completion. */
  lemma WhenMaintained(job: Job, t: int, now: int, retention: int)
    ensures job.Claimed(t).StaleLock(now, RESET_AFTER) <==> t + 900_000_000 < now
    ensures job.MarkedDone(t).Prunable(now, retention) <==> t + retention < now
    ensures job.status != Done ==> !job.Prunable(now, retention)
  {
  }

  /** A row on its first attempt has been available since it was published. */
  ghost predicate FirstAttemptsOk(jobs: Jobs, now: int) {
    forall id :: id in jobs && jobs[id].status == Queued ==>
      jobs[id].attempts == 0 < jobs[id].maxAttempts && jobs[id].availableAt == jobs[id].createdAt <= now
  }

  /** A job on its first attempt is not passed over by a row of the same topic that became available later, so not by
      another first attempt that was published later, unless it is locked. */
  lemma FirstAttemptsInOrder(jobs: Jobs, topic: string, now: int, locked: set<JobId>, id: JobId, other: JobId)
    requires FirstAttemptsOk(jobs, now) && FirstOf(jobs, topic, now, locked, id)
    requires other in jobs && jobs[other].status == Queued && jobs[other].msg.topic == topic && other !in locked
    ensures jobs[id].availableAt <= jobs[other].createdAt
    ensures jobs[id].status == Queued ==> jobs[id].createdAt <= jobs[other].createdAt
  {
    assert Eligible(jobs, topic, now, other);
  }
}
