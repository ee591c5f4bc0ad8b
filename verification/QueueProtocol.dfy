/** The lease protocol as a state machine: any number of workers, crashes, stale reclaims and maintenance
    statements interleave over one job table and one clock. Every theorem is about all runs. */
module QueueProtocol {
  import opened Wrappers
  import opened JobTable

  type Worker = nat

  /** What one pass of a worker's polling loop has got to. */
  datatype Phase = Fetched | Handling | Returned(error: Option<string>)

  /** `attempt` is the value of the attempts column that the claim wrote. */
  datatype Pass = Pass(job: JobId, attempt: nat, claimedAt: int, phase: Phase)

  /** The table, the clock, the passes under way, and three history sets. */
  datatype System = System(
    now: int, jobs: Jobs, passes: map<Worker, Pass>,
    published: set<JobId>, started: set<(JobId, nat)>, succeeded: set<JobId>)

  datatype Event =
    | Publish(id: JobId, msg: Message)
    | Claim(worker: Worker, id: JobId)
    | Start(worker: Worker)
    | Return(worker: Worker, error: Option<string>)
    | Mark(worker: Worker)
    | Crash(worker: Worker)
    | Prune(retention: nat)
    | ResetStale
    | Tick(elapsed: nat)

  function Init(now: int): System { System(now, map[], map[], {}, {}, {}) }

  /** A claim may take any eligible row, not only the first: SKIP LOCKED passes over rows that another
      transaction holds. Published ids are new. */
  predicate Enabled(s: System, e: Event) {
    match e
    case Publish(id, _) => id !in s.published
    case Claim(w, id) => w !in s.passes && id in s.jobs && s.jobs[id].Claimable(s.now)
    case Start(w) => w in s.passes && s.passes[w].phase == Fetched
    case Return(w, _) => w in s.passes && s.passes[w].phase == Handling
    case Mark(w) => w in s.passes && s.passes[w].phase.Returned?
    case Crash(w) => w in s.passes
    case _ => true
  }

  function Marked(s: System, w: Worker): Jobs
    requires w in s.passes && s.passes[w].phase.Returned?
  {
    var p := s.passes[w];
    match p.phase.error
    case None => DoneIn(s.jobs, p.job, s.now)
    case Some(error) => FailedIn(s.jobs, p.job, error, s.now)
  }

  function Apply(s: System, e: Event): System
    requires Enabled(s, e)
  {
    match e
    case Publish(id, msg) => s.(jobs := s.jobs[id := NewJob(msg, s.now)], published := s.published + {id})
    case Claim(w, id) =>
      var job := s.jobs[id].Claimed(s.now);
      s.(jobs := s.jobs[id := job], passes := s.passes[w := Pass(id, job.attempts, s.now, Fetched)])
    case Start(w) =>
      var p := s.passes[w];
      s.(passes := s.passes[w := p.(phase := Handling)], started := s.started + {(p.job, p.attempt)})
    case Return(w, error) =>
      var p := s.passes[w];
      s.(passes := s.passes[w := p.(phase := Returned(error))],
         succeeded := if error.None? then s.succeeded + {p.job} else s.succeeded)
    case Mark(w) => s.(jobs := Marked(s, w), passes := s.passes - {w})
    case Crash(w) => s.(passes := s.passes - {w})
    case Prune(retention) => s.(jobs := Pruned(s.jobs, s.now, retention))
    case ResetStale => s.(jobs := Reset(s.jobs, s.now))
    case Tick(elapsed) => s.(now := s.now + elapsed)
  }

  predicate ValidRun(s: System, es: seq<Event>)
    decreases |es|
  {
    es == [] || (Enabled(s, es[0]) && ValidRun(Apply(s, es[0]), es[1..]))
  }

  function Final(s: System, es: seq<Event>): System
    requires ValidRun(s, es)
    decreases |es|
  {
    if es == [] then s else Final(Apply(s, es[0]), es[1..])
  }

  // ---- the events are the statements of the table ----

  /** Every row but this one. */
  function Others(jobs: Jobs, id: JobId): set<JobId> { jobs.Keys - {id} }

  /** Sends the statement of an event to the table, if it has one. A claim finds its row if transactions hold all others
      that come before it. */
  method Execute(table: Table, s: System, e: Event)
    requires table.jobs == s.jobs && RowsOk(s) && Enabled(s, e)
    modifies table
    ensures table.jobs == Apply(s, e).jobs
  {
    match e {
      case Publish(id, msg) => var _ := table.Publish(id, msg, s.now);
      case Claim(_, id) =>
        assert Eligible(s.jobs, s.jobs[id].msg.topic, s.now, id);
        var claimed := table.Claim(s.jobs[id].msg.topic, s.now, Others(s.jobs, id));
        assert claimed.Some? && claimed.value.0 == id;
      case Mark(w) =>
        var p := s.passes[w];
        match p.phase.error {
          case None => table.MarkDone(p.job, s.now);
          case Some(error) => table.MarkFailed(p.job, error, s.now);
        }
      case Prune(retention) => table.Prune(s.now, retention);
      case ResetStale => table.ResetStale(s.now);
      case _ =>
    }
  }

  // ---- bookkeeping that holds in every run ----

  ghost predicate RowsOk(s: System) {
    && (forall id :: id in s.jobs ==>
          && id in s.published
          && s.jobs[id].attempts <= s.jobs[id].maxAttempts == MAX_ATTEMPTS
          && (s.jobs[id].status == Done ==> id in s.succeeded)
          && (s.jobs[id].status == Processing ==> s.jobs[id].lockedAt.Some?))
    && (forall id :: id in s.published ==> id in s.jobs || id in s.succeeded)
  }

  ghost predicate PassOk(s: System, w: Worker)
    requires w in s.passes
  {
    var p := s.passes[w];
    && p.job in s.published && 1 <= p.attempt <= MAX_ATTEMPTS && p.claimedAt <= s.now
    && (p.job in s.jobs ==> p.attempt <= s.jobs[p.job].attempts)
    && (p.phase == Fetched ==> (p.job, p.attempt) !in s.started)
    && (p.phase == Returned(None) ==> p.job in s.succeeded)
  }

  ghost predicate PassesOk(s: System) {
    forall w :: w in s.passes ==> PassOk(s, w)
  }

  ghost predicate AttemptsDistinct(s: System) {
    forall v, w :: v in s.passes && w in s.passes && v != w && s.passes[v].job == s.passes[w].job
                   ==> s.passes[v].attempt != s.passes[w].attempt
  }

  ghost predicate StartsOk(s: System) {
    forall t :: t in s.started ==>
      && t.0 in s.published && 1 <= t.1 <= MAX_ATTEMPTS
      && (t.0 in s.jobs ==> t.1 <= s.jobs[t.0].attempts)
  }

  ghost predicate Inv(s: System) { RowsOk(s) && PassesOk(s) && AttemptsDistinct(s) && StartsOk(s) }

  /** The table statements of the scheduler. */
  predicate IsMaintenance(e: Event) { e.Prune? || e.ResetStale? }

  lemma RowsMaintained(s: System, e: Event)
    requires Inv(s) && IsMaintenance(e)
    ensures RowsOk(Apply(s, e))
  {
  }

  lemma RowsMarked(s: System, w: Worker)
    requires Inv(s) && Enabled(s, Mark(w))
    ensures RowsOk(Apply(s, Mark(w)))
  {
    assert PassOk(s, w);
  }

  lemma RowsStep(s: System, e: Event)
    requires Inv(s) && Enabled(s, e)
    ensures RowsOk(Apply(s, e))
  {
    if IsMaintenance(e) {
      RowsMaintained(s, e);
    } else if e.Mark? {
      RowsMarked(s, e.worker);
    }
  }

  lemma PassStep(s: System, e: Event, w: Worker)
    requires Inv(s) && Enabled(s, e) && w in Apply(s, e).passes
    ensures PassOk(Apply(s, e), w)
  {
    if w in s.passes {
      assert PassOk(s, w);
    }
    if e.Start? && w != e.worker {
      assert s.passes[w].job == s.passes[e.worker].job ==> s.passes[w].attempt != s.passes[e.worker].attempt;
    }
  }

  lemma DistinctStep(s: System, e: Event)
    requires Inv(s) && Enabled(s, e)
    ensures AttemptsDistinct(Apply(s, e))
  {
    match e {
      case Claim(w, id) =>
        assert forall v :: v in s.passes && s.passes[v].job == id ==> s.passes[v].attempt <= s.jobs[id].attempts;
      case _ =>
    }
  }

  lemma StartsStep(s: System, e: Event)
    requires Inv(s) && Enabled(s, e)
    ensures StartsOk(Apply(s, e))
  {
    match e {
      case Mark(w) =>
      case Claim(w, id) =>
      case Start(w) =>
      case _ =>
    }
  }

  lemma InvStep(s: System, e: Event)
    requires Inv(s) && Enabled(s, e)
    ensures Inv(Apply(s, e))
  {
    RowsStep(s, e);
    forall w | w in Apply(s, e).passes ensures PassOk(Apply(s, e), w) {
      PassStep(s, e, w);
    }
    DistinctStep(s, e);
    StartsStep(s, e);
  }

  lemma {:induction false} InvRun(s: System, es: seq<Event>)
    requires Inv(s) && ValidRun(s, es)
    ensures Inv(Final(s, es))
    decreases |es|
  {
    if es != [] {
      InvStep(s, es[0]);
      InvRun(Apply(s, es[0]), es[1..]);
    }
  }

  lemma InvReachable(now: int, es: seq<Event>)
    requires ValidRun(Init(now), es)
    ensures Inv(Final(Init(now), es))
  {
    InvRun(Init(now), es);
  }

  /** Handler starts of one job; a start is identified by the attempt it belongs to. */
  function Starts(s: System, id: JobId): set<nat> {
    set t | t in s.started && t.0 == id :: t.1
  }

  lemma SubsetOfRange(x: set<nat>, n: nat)
    requires forall k :: k in x ==> 1 <= k <= n
    ensures |x| <= n
    decreases n
  {
    if n == 0 {
      assert forall k :: k !in x;
    } else {
      SubsetOfRange(x - {n}, n - 1);
    }
  }

  /** In every run: a handler start is always a new one; starts never exceed attempts, attempts never exceed
      max_attempts, five starts is the lifetime limit; and only jobs that some handler completed disappear. */
  lemma AttemptsBounded(now: int, es: seq<Event>, id: JobId)
    requires ValidRun(Init(now), es)
    ensures var s := Final(Init(now), es);
            && |Starts(s, id)| <= MAX_ATTEMPTS
            && (id in s.jobs ==> |Starts(s, id)| <= s.jobs[id].attempts <= s.jobs[id].maxAttempts)
            && (id in s.published && id !in s.jobs ==> id in s.succeeded)
            && (forall w :: Enabled(s, Start(w)) ==> (s.passes[w].job, s.passes[w].attempt) !in s.started)
  {
    InvReachable(now, es);
    var s := Final(Init(now), es);
    SubsetOfRange(Starts(s, id), MAX_ATTEMPTS);
    if id in s.jobs {
      SubsetOfRange(Starts(s, id), s.jobs[id].attempts);
    }
  }

  // ---- first come, first served ----

  lemma FirstAttemptsStep(s: System, e: Event)
    requires FirstAttemptsOk(s.jobs, s.now) && Enabled(s, e)
    ensures FirstAttemptsOk(Apply(s, e).jobs, Apply(s, e).now)
  {
  }

  lemma {:induction false} FirstAttemptsRun(s: System, es: seq<Event>)
    requires FirstAttemptsOk(s.jobs, s.now) && ValidRun(s, es)
    ensures FirstAttemptsOk(Final(s, es).jobs, Final(s, es).now)
    decreases |es|
  {
    if es != [] {
      FirstAttemptsStep(s, es[0]);
      FirstAttemptsRun(Apply(s, es[0]), es[1..]);
    }
  }

  /** After every run: the claim statement takes a first attempt in the order of publishing, and a row that is tried
      again goes before a first attempt only if it became available before that was published. */
  lemma EveryClaimIsInOrder(now: int, es: seq<Event>, topic: string, locked: set<JobId>, id: JobId, other: JobId)
    requires ValidRun(Init(now), es)
    requires var s := Final(Init(now), es);
             && FirstOf(s.jobs, topic, s.now, locked, id)
             && other in s.jobs && s.jobs[other].status == Queued && s.jobs[other].msg.topic == topic
             && other !in locked
    ensures var jobs := Final(Init(now), es).jobs;
            && jobs[id].availableAt <= jobs[other].createdAt
            && (jobs[id].status == Queued ==> jobs[id].createdAt <= jobs[other].createdAt)
  {
    FirstAttemptsRun(Init(now), es);
    var s := Final(Init(now), es);
    FirstAttemptsInOrder(s.jobs, topic, s.now, locked, id, other);
  }

  // ---- leases ----

  /** The pass holds the row's latest claim. */
  predicate Current(s: System, w: Worker)
    requires w in s.passes
  {
    var p := s.passes[w];
    p.job in s.jobs && p.attempt == s.jobs[p.job].attempts
  }

  /** Someone else has claimed the row since this pass did. */
  predicate Overtaken(s: System, w: Worker)
    requires w in s.passes
  {
    var p := s.passes[w];
    p.job in s.jobs && p.attempt < s.jobs[p.job].attempts
  }

  /** At most five minutes have gone by since the pass claimed its row. */
  predicate Live(s: System, w: Worker)
    requires w in s.passes
  {
    s.now <= s.passes[w].claimedAt + LEASE
  }

  ghost predicate LeaseOk(s: System) {
    && (forall w :: w in s.passes && Live(s, w) ==>
          && Current(s, w)
          && s.jobs[s.passes[w].job].status == Processing
          && s.jobs[s.passes[w].job].lockedAt == Some(s.passes[w].claimedAt))
    && (forall w :: w in s.passes && Current(s, w) ==> !s.jobs[s.passes[w].job].Terminal())
  }

  /** No worker marks a row that another worker has claimed in the meantime. */
  predicate NoOvertakenMark(s: System, es: seq<Event>)
    requires ValidRun(s, es)
    decreases |es|
  {
    es == [] || ((es[0].Mark? ==> !Overtaken(s, es[0].worker)) && NoOvertakenMark(Apply(s, es[0]), es[1..]))
  }

  /** No worker marks a row more than five minutes after claiming it. */
  predicate PunctualMarks(s: System, es: seq<Event>)
    requires ValidRun(s, es)
    decreases |es|
  {
    es == [] || ((es[0].Mark? ==> Live(s, es[0].worker)) && PunctualMarks(Apply(s, es[0]), es[1..]))
  }

  lemma OneCurrentPass(s: System, v: Worker, w: Worker)
    requires Inv(s) && v in s.passes && w in s.passes
    requires Current(s, v) && Current(s, w) && s.passes[v].job == s.passes[w].job
    ensures v == w
  {
  }

  lemma LeaseMark(s: System, w: Worker)
    requires Inv(s) && LeaseOk(s) && Enabled(s, Mark(w)) && !Overtaken(s, w)
    ensures LeaseOk(Apply(s, Mark(w)))
  {
    forall v | v in s.passes && Current(s, v) && s.passes[v].job == s.passes[w].job ensures v == w {
      OneCurrentPass(s, v, w);
    }
  }

  lemma LeaseClaim(s: System, w: Worker, id: JobId)
    requires Inv(s) && LeaseOk(s) && Enabled(s, Claim(w, id))
    ensures LeaseOk(Apply(s, Claim(w, id)))
  {
    assert forall v :: v in s.passes && s.passes[v].job == id ==> !Live(s, v);
  }

  lemma LeaseMaintained(s: System, e: Event)
    requires Inv(s) && LeaseOk(s) && IsMaintenance(e)
    ensures LeaseOk(Apply(s, e))
  {
  }

  lemma LeaseStep(s: System, e: Event)
    requires Inv(s) && LeaseOk(s) && Enabled(s, e)
    requires e.Mark? ==> !Overtaken(s, e.worker)
    ensures LeaseOk(Apply(s, e))
  {
    if IsMaintenance(e) {
      LeaseMaintained(s, e);
    } else {
      match e {
        case Mark(w) => LeaseMark(s, w);
        case Claim(w, id) => LeaseClaim(s, w, id);
        case _ =>
      }
    }
  }

  lemma {:induction false} LeaseRun(s: System, es: seq<Event>)
    requires Inv(s) && LeaseOk(s) && ValidRun(s, es) && NoOvertakenMark(s, es)
    ensures Inv(Final(s, es)) && LeaseOk(Final(s, es))
    decreases |es|
  {
    if es != [] {
      InvStep(s, es[0]);
      LeaseStep(s, es[0]);
      LeaseRun(Apply(s, es[0]), es[1..]);
    }
  }

  lemma {:induction false} PunctualNeverOvertaken(s: System, es: seq<Event>)
    requires Inv(s) && LeaseOk(s) && ValidRun(s, es) && PunctualMarks(s, es)
    ensures NoOvertakenMark(s, es)
    decreases |es|
  {
    if es != [] {
      InvStep(s, es[0]);
      LeaseStep(s, es[0]);
      PunctualNeverOvertaken(Apply(s, es[0]), es[1..]);
    }
  }

  /** Mutual exclusion: in every interleaving without overtaken marks, no two unexpired passes share a job,
      and the row of an unexpired pass is locked in its name. */
  lemma ExclusiveLease(now: int, es: seq<Event>, v: Worker, w: Worker)
    requires ValidRun(Init(now), es) && NoOvertakenMark(Init(now), es)
    requires var s := Final(Init(now), es);
             v in s.passes && w in s.passes && Live(s, v) && Live(s, w) && s.passes[v].job == s.passes[w].job
    ensures v == w
    ensures var s := Final(Init(now), es); var p := s.passes[v];
            && p.job in s.jobs && s.jobs[p.job].status == Processing
            && s.jobs[p.job].lockedAt == Some(p.claimedAt) && s.jobs[p.job].attempts == p.attempt
  {
    LeaseRun(Init(now), es);
    OneCurrentPass(Final(Init(now), es), v, w);
  }

  /** The same under the five-minute rule alone. */
  lemma PunctualWorkersExclude(now: int, es: seq<Event>, v: Worker, w: Worker)
    requires ValidRun(Init(now), es) && PunctualMarks(Init(now), es)
    requires var s := Final(Init(now), es);
             v in s.passes && w in s.passes && Live(s, v) && Live(s, w) && s.passes[v].job == s.passes[w].job
    ensures v == w
  {
    PunctualNeverOvertaken(Init(now), es);
    ExclusiveLease(now, es, v, w);
  }

  lemma TerminalStep(s: System, e: Event, id: JobId)
    requires Inv(s) && LeaseOk(s) && Enabled(s, e)
    requires e.Mark? ==> !Overtaken(s, e.worker)
    requires id in s.published && (id in s.jobs ==> s.jobs[id].Terminal())
    ensures var s' := Apply(s, e);
            && id in s'.published
            && (id in s'.jobs ==> id in s.jobs && s'.jobs[id] == s.jobs[id])
            && (id in s.jobs && id !in s'.jobs ==> s.jobs[id].status == Done)
  {
    if e.Mark? && s.passes[e.worker].job == id {
      assert PassOk(s, e.worker);
      assert id !in s.jobs;
    }
  }

  /** From any state with intact leases, done and failed rows never change again until they are pruned,
      and a pruned row never comes back. */
  lemma {:induction false} TerminalIsFinal(s: System, es: seq<Event>, id: JobId)
    requires Inv(s) && LeaseOk(s) && ValidRun(s, es) && NoOvertakenMark(s, es)
    requires id in s.published && (id in s.jobs ==> s.jobs[id].Terminal())
    ensures var t := Final(s, es);
            id in t.jobs ==> id in s.jobs && t.jobs[id] == s.jobs[id]
    ensures id in s.jobs && id !in Final(s, es).jobs ==> s.jobs[id].status == Done
    decreases |es|
  {
    if es != [] {
      InvStep(s, es[0]);
      LeaseStep(s, es[0]);
      TerminalStep(s, es[0], id);
      TerminalIsFinal(Apply(s, es[0]), es[1..], id);
    }
  }

  lemma TerminalIsFinalReachable(now: int, es: seq<Event>, more: seq<Event>, id: JobId)
    requires ValidRun(Init(now), es) && NoOvertakenMark(Init(now), es)
    requires var s := Final(Init(now), es);
             && ValidRun(s, more) && NoOvertakenMark(s, more)
             && id in s.jobs && s.jobs[id].Terminal()
    ensures var s := Final(Init(now), es); var t := Final(s, more);
            if id in t.jobs then t.jobs[id] == s.jobs[id] else s.jobs[id].status == Done
  {
    LeaseRun(Init(now), es);
    InvReachable(now, es);
    TerminalIsFinal(Final(Init(now), es), more, id);
  }

  /** The same under the five-minute rule alone. */
  lemma PunctualTerminalIsFinal(now: int, es: seq<Event>, more: seq<Event>, id: JobId)
    requires ValidRun(Init(now), es) && PunctualMarks(Init(now), es)
    requires var s := Final(Init(now), es);
             && ValidRun(s, more) && PunctualMarks(s, more)
             && id in s.jobs && s.jobs[id].Terminal()
    ensures var s := Final(Init(now), es); var t := Final(s, more);
            if id in t.jobs then t.jobs[id] == s.jobs[id] else s.jobs[id].status == Done
  {
    PunctualNeverOvertaken(Init(now), es);
    LeaseRun(Init(now), es);
    PunctualNeverOvertaken(Final(Init(now), es), more);
    TerminalIsFinalReachable(now, es, more, id);
  }

  /** What an overtaken mark would write. */
  function MarkStatus(s: System, w: Worker): Status
    requires Enabled(s, Mark(w)) && s.passes[w].job in s.jobs
  {
    Marked(s, w)[s.passes[w].job].status
  }

  /** Exactly which marks keep the leases intact and leave terminal statuses alone. A mark that was not
      overtaken always does; an overtaken one does only if the row has no live holder, its terminal status
      is not rewritten, and a terminal status is not written while the latest claimant is still under way. */
  lemma SafeMarkIff(s: System, w: Worker)
    requires Inv(s) && LeaseOk(s) && Enabled(s, Mark(w))
    ensures var s' := Apply(s, Mark(w)); var id := s.passes[w].job;
            (LeaseOk(s') && (id in s.jobs && s.jobs[id].Terminal() ==> s'.jobs[id].status == s.jobs[id].status))
            <==>
            (Overtaken(s, w) ==>
               && (s.jobs[id].Terminal() ==> MarkStatus(s, w) == s.jobs[id].status)
               && (forall v :: v in s.passes && s.passes[v].job == id && Current(s, v) ==>
                     !Live(s, v) && MarkStatus(s, w) == Retry))
  {
    if Overtaken(s, w) {
      OvertakenMark(s, w);
    } else {
      LeaseMark(s, w);
    }
  }

  /** A mark moves no other pass, no claim and no clock. */
  lemma MarkMovesNoPass(s: System, w: Worker, v: Worker)
    requires Inv(s) && Enabled(s, Mark(w)) && v in s.passes && v != w
    ensures var s' := Apply(s, Mark(w));
            && v in s'.passes && s'.passes[v] == s.passes[v]
            && (Current(s, v) <==> Current(s', v)) && (Live(s, v) <==> Live(s', v))
  {
  }

  lemma OvertakenMark(s: System, w: Worker)
    requires Inv(s) && LeaseOk(s) && Enabled(s, Mark(w)) && Overtaken(s, w)
    ensures var s' := Apply(s, Mark(w)); var id := s.passes[w].job;
            && id in s'.jobs && s'.jobs[id].status == MarkStatus(s, w)
            && (LeaseOk(s') <==> forall v :: v in s.passes && s.passes[v].job == id && Current(s, v) ==>
                                   !Live(s, v) && MarkStatus(s, w) == Retry)
  {
    var s' := Apply(s, Mark(w));
    var id := s.passes[w].job;
    assert MarkStatus(s, w) == Done || MarkStatus(s, w) == Failed || MarkStatus(s, w) == Retry;
    forall v | v in s.passes && v != w
      ensures Current(s, v) <==> Current(s', v)
      ensures Live(s, v) <==> Live(s', v)
    {
      MarkMovesNoPass(s, w, v);
    }
    forall v | LeaseOk(s') && v in s.passes && s.passes[v].job == id && Current(s, v)
      ensures !Live(s, v) && MarkStatus(s, w) == Retry
    {
      assert v != w && Current(s', v);
    }
  }

  /** Without the rule the guarantee is false: a worker that returns after five minutes reopens a job that
      a second worker has finished. */
  lemma SlowWorkerReopensDone()
    ensures var early := [Publish("job", Message("t", "k", "b")), Claim(1, "job"), Start(1), Tick(LEASE + 1)];
            var takeover := [Claim(2, "job"), Start(2), Return(2, None), Mark(2)];
            var late := [Return(1, Some("timeout")), Mark(1)];
            ValidRun(Init(0), early) &&
            var s1 := Final(Init(0), early);
            ValidRun(s1, takeover) &&
            var s2 := Final(s1, takeover);
            ValidRun(s2, late) &&
            var s3 := Final(s2, late);
            && "job" in s2.jobs && s2.jobs["job"].status == Done
            && "job" in s3.jobs && s3.jobs["job"].status == Retry
  {
    SlowWorkerClaims();
    SecondWorkerFinishes();
    var s := Overtook(Done, LEASE + 1);
    var s' := Apply(s, Return(1, Some("timeout")));
    RunCons(s', Mark(1), []);
    RunCons(s, Return(1, Some("timeout")), [Mark(1)]);
  }

  /** Worker 1 still handles "job"; with status Done, worker 2 has claimed and finished it. */
  function Overtook(status: Status, now: int): System {
    var msg := Message("t", "k", "b");
    if status == Done then
      System(now, map["job" := Job(msg, Done, 2, MAX_ATTEMPTS, None, 0, 0, Some(now), Some(now))],
             map[1 := Pass("job", 1, 0, Handling)], {"job"}, {("job", 1), ("job", 2)}, {"job"})
    else
      System(now, map["job" := Job(msg, Processing, 1, MAX_ATTEMPTS, None, 0, 0, Some(0), None)],
             map[1 := Pass("job", 1, 0, Handling)], {"job"}, {("job", 1)}, {})
  }

  lemma SlowWorkerClaims()
    ensures var early := [Publish("job", Message("t", "k", "b")), Claim(1, "job"), Start(1), Tick(LEASE + 1)];
            ValidRun(Init(0), early) && Final(Init(0), early) == Overtook(Processing, LEASE + 1)
  {
    var msg := Message("t", "k", "b");
    var s1 := Apply(Init(0), Publish("job", msg));
    var s2 := Apply(s1, Claim(1, "job"));
    var s3 := Apply(s2, Start(1));
    assert Apply(s3, Tick(LEASE + 1)) == Overtook(Processing, LEASE + 1);
    RunCons(s3, Tick(LEASE + 1), []);
    RunCons(s2, Start(1), [Tick(LEASE + 1)]);
    RunCons(s1, Claim(1, "job"), [Start(1), Tick(LEASE + 1)]);
    RunCons(Init(0), Publish("job", msg), [Claim(1, "job"), Start(1), Tick(LEASE + 1)]);
  }

  lemma SecondWorkerFinishes()
    ensures var s := Overtook(Processing, LEASE + 1);
            var takeover := [Claim(2, "job"), Start(2), Return(2, None), Mark(2)];
            ValidRun(s, takeover) && Final(s, takeover) == Overtook(Done, LEASE + 1)
  {
    var s := Overtook(Processing, LEASE + 1);
    var s1 := Apply(s, Claim(2, "job"));
    var s2 := Apply(s1, Start(2));
    var s3 := Apply(s2, Return(2, None));
    assert Apply(s3, Mark(2)).passes == map[1 := Pass("job", 1, 0, Handling)];
    assert Apply(s3, Mark(2)) == Overtook(Done, LEASE + 1);
    RunCons(s3, Mark(2), []);
    RunCons(s2, Return(2, None), [Mark(2)]);
    RunCons(s1, Start(2), [Return(2, None), Mark(2)]);
    RunCons(s, Claim(2, "job"), [Start(2), Return(2, None), Mark(2)]);
  }

  lemma RunCons(s: System, e: Event, es: seq<Event>)
    requires Enabled(s, e) && ValidRun(Apply(s, e), es)
    ensures ValidRun(s, [e] + es) && Final(s, [e] + es) == Final(Apply(s, e), es)
  {
    assert ([e] + es)[1..] == es;
  }

  // ---- when a row can still finish ----

  ghost predicate Held(s: System, id: JobId) { exists w :: w in s.passes && s.passes[w].job == id }

  ghost predicate Stranded(s: System, id: JobId) {
    && id in s.jobs && !s.jobs[id].Terminal() && s.jobs[id].attempts == s.jobs[id].maxAttempts
    && !Held(s, id)
  }

  lemma StrandedStep(s: System, e: Event, id: JobId)
    requires Inv(s) && Enabled(s, e) && Stranded(s, id)
    ensures Stranded(Apply(s, e), id)
  {
  }

  /** A row whose attempts are used up and that no pass holds, as after a crash on the last attempt, is never
      marked again: it stays unclaimable without ever becoming failed. */
  lemma {:induction false} ExhaustedRowIsStranded(s: System, es: seq<Event>, id: JobId)
    requires Inv(s) && ValidRun(s, es) && Stranded(s, id)
    ensures var t := Final(s, es);
            id in t.jobs && !t.jobs[id].Terminal() && !t.jobs[id].Claimable(t.now)
    decreases |es|
  {
    if es != [] {
      InvStep(s, es[0]);
      StrandedStep(s, es[0], id);
      ExhaustedRowIsStranded(Apply(s, es[0]), es[1..], id);
    }
  }

  /** Some continuation of the run ends with the row done or failed. */
  ghost predicate CanFinish(s: System, id: JobId) {
    exists es :: ValidRun(s, es) && Finished(Final(s, es), id)
  }

  predicate Finished(s: System, id: JobId) { id in s.jobs && s.jobs[id].Terminal() }

  predicate AttemptsLeft(s: System, id: JobId) { id in s.jobs && s.jobs[id].attempts < s.jobs[id].maxAttempts }

  lemma {:induction false} AboveAll(ws: set<Worker>) returns (n: Worker)
    ensures forall w :: w in ws ==> w < n
  {
    n := 0;
    if ws != {} {
      var w :| w in ws;
      var m := AboveAll(ws - {w});
      n := if w < m then m else w + 1;
      forall v | v in ws ensures v < n {
        assert v == w || v in ws - {w};
      }
    }
  }

  lemma {:induction false} RunAppend(s: System, es: seq<Event>, more: seq<Event>)
    requires ValidRun(s, es) && ValidRun(Final(s, es), more)
    ensures ValidRun(s, es + more) && Final(s, es + more) == Final(Final(s, es), more)
    decreases |es|
  {
    if es == [] {
      assert es + more == more;
    } else {
      RunAppend(Apply(s, es[0]), es[1..], more);
      assert es + more == [es[0]] + (es[1..] + more);
      RunCons(s, es[0], es[1..] + more);
    }
  }

  /** How far a pass is from its mark. */
  function StepsLeft(phase: Phase): nat {
    match phase case Fetched => 2 case Handling => 1 case Returned(_) => 0
  }

  /** A holder that goes on to its mark finishes the row, or leaves it with attempts to come. */
  lemma {:induction false} HolderFinishes(s: System, w: Worker) returns (es: seq<Event>)
    requires Inv(s) && w in s.passes && s.passes[w].job in s.jobs
    ensures ValidRun(s, es) && Inv(Final(s, es))
    ensures var t, id := Final(s, es), s.passes[w].job;
            id in t.jobs && (t.jobs[id].Terminal() || AttemptsLeft(t, id))
    ensures (s.passes[w].phase.Returned? && s.passes[w].phase.error.Some?) || Finished(Final(s, es), s.passes[w].job)
    decreases StepsLeft(s.passes[w].phase)
  {
    var e := match s.passes[w].phase
             case Fetched => Start(w)
             case Handling => Return(w, None)
             case Returned(_) => Mark(w);
    InvStep(s, e);
    var rest: seq<Event> := [];
    if !e.Mark? {
      rest := HolderFinishes(Apply(s, e), w);
    }
    RunCons(s, e, rest);
    es := [e] + rest;
  }

  /** Long enough for the row to become claimable. */
  function WaitFor(job: Job, now: int): nat {
    var due := if job.lockedAt.Some? && job.lockedAt.value + LEASE + 1 > job.availableAt
               then job.lockedAt.value + LEASE + 1 else job.availableAt;
    if due > now then due - now else 0
  }

  /** A row with attempts to come can be claimed once its lease or delay is over, and finished. */
  lemma ClaimFinishes(s: System, id: JobId) returns (es: seq<Event>)
    requires Inv(s) && AttemptsLeft(s, id) && !s.jobs[id].Terminal()
    ensures ValidRun(s, es) && Finished(Final(s, es), id)
  {
    var tick := Tick(WaitFor(s.jobs[id], s.now));
    var later := Apply(s, tick);
    var w := AboveAll(s.passes.Keys);
    assert later.jobs[id].Claimable(later.now);
    var claimed := Apply(later, Claim(w, id));
    InvStep(s, tick);
    InvStep(later, Claim(w, id));
    var rest := HolderFinishes(claimed, w);
    RunCons(later, Claim(w, id), rest);
    RunCons(s, tick, [Claim(w, id)] + rest);
    es := [tick] + ([Claim(w, id)] + rest);
  }

  /** Exactly which unfinished rows can still be done or failed: those with attempts to come or with a holder. */
  lemma CanFinishIff(s: System, id: JobId)
    requires Inv(s) && id in s.jobs && !s.jobs[id].Terminal()
    ensures CanFinish(s, id) <==> AttemptsLeft(s, id) || Held(s, id)
  {
    if Held(s, id) {
      var w :| w in s.passes && s.passes[w].job == id;
      var es := HolderFinishes(s, w);
      var t := Final(s, es);
      if !Finished(t, id) {
        var more := ClaimFinishes(t, id);
        RunAppend(s, es, more);
      }
    } else if AttemptsLeft(s, id) {
      var es := ClaimFinishes(s, id);
    } else {
      forall es | ValidRun(s, es) ensures !Finished(Final(s, es), id) {
        ExhaustedRowIsStranded(s, es, id);
      }
    }
  }

  /** The state after `n` workers have claimed "job" and crashed. */
  function Attempted(n: nat): System {
    var msg, round := Message("t", "k", "b"), LEASE + 1;
    System(n * round,
           map["job" := Job(msg, if n == 0 then Queued else Processing, n, MAX_ATTEMPTS, None, 0, 0,
                            if n == 0 then None else Some((n - 1) * round), None)],
           map[], {"job"}, {}, {})
  }

  function LostAttempts(n: nat): seq<Event> {
    if n == 0 then [Publish("job", Message("t", "k", "b"))]
    else LostAttempts(n - 1) + [Claim(1, "job"), Crash(1), Tick(LEASE + 1)]
  }

  lemma OneMoreLost(n: nat)
    requires n < MAX_ATTEMPTS
    ensures var round := [Claim(1, "job"), Crash(1), Tick(LEASE + 1)];
            ValidRun(Attempted(n), round) && Final(Attempted(n), round) == Attempted(n + 1)
  {
    var s := Attempted(n);
    var s1 := Apply(s, Claim(1, "job"));
    var s2 := Apply(s1, Crash(1));
    assert s2.passes == map[];
    assert Apply(s2, Tick(LEASE + 1)) == Attempted(n + 1);
    RunCons(s2, Tick(LEASE + 1), []);
    RunCons(s1, Crash(1), [Tick(LEASE + 1)]);
    RunCons(s, Claim(1, "job"), [Crash(1), Tick(LEASE + 1)]);
  }

  lemma {:induction false} AllLost(n: nat)
    requires n <= MAX_ATTEMPTS
    ensures ValidRun(Init(0), LostAttempts(n)) && Final(Init(0), LostAttempts(n)) == Attempted(n)
  {
    if n == 0 {
      var publish := Publish("job", Message("t", "k", "b"));
      assert Apply(Init(0), publish) == Attempted(0);
      RunCons(Init(0), publish, []);
    } else {
      AllLost(n - 1);
      OneMoreLost(n - 1);
      RunAppend(Init(0), LostAttempts(n - 1), [Claim(1, "job"), Crash(1), Tick(LEASE + 1)]);
    }
  }

  /** Such rows occur: after five workers have crashed on it, a job can no longer become done or failed. */
  lemma CrashesStrandARow()
    ensures var run := LostAttempts(MAX_ATTEMPTS);
            && ValidRun(Init(0), run) && "job" in Final(Init(0), run).jobs
            && Stranded(Final(Init(0), run), "job") && !CanFinish(Final(Init(0), run), "job")
  {
    AllLost(MAX_ATTEMPTS);
    InvReachable(0, LostAttempts(MAX_ATTEMPTS));
    CanFinishIff(Attempted(MAX_ATTEMPTS), "job");
  }

  // ---- how many claims a run can contain ----

  ghost function Remaining(jobs: Jobs): nat
    requires forall id :: id in jobs ==> jobs[id].attempts <= jobs[id].maxAttempts
  {
    if jobs == map[] then 0
    else
      var id :| id in jobs;
      jobs[id].maxAttempts - jobs[id].attempts + Remaining(jobs - {id})
  }

  lemma {:induction false} RemainingAt(jobs: Jobs, id: JobId)
    requires forall x :: x in jobs ==> jobs[x].attempts <= jobs[x].maxAttempts
    requires id in jobs
    ensures Remaining(jobs) == jobs[id].maxAttempts - jobs[id].attempts + Remaining(jobs - {id})
    decreases |jobs|
  {
    var x :| x in jobs && Remaining(jobs) == jobs[x].maxAttempts - jobs[x].attempts + Remaining(jobs - {x});
    if x != id {
      RemainingAt(jobs - {x}, id);
      RemainingAt(jobs - {id}, x);
      assert jobs - {x} - {id} == jobs - {id} - {x};
    }
  }

  /** Updating rows one by one without adding attempts left, or dropping rows, never raises the sum. */
  lemma {:induction false} RemainingMonotone(jobs: Jobs, jobs': Jobs)
    requires forall x :: x in jobs ==> jobs[x].attempts <= jobs[x].maxAttempts
    requires forall x :: x in jobs' ==> x in jobs
                                        && jobs'[x].attempts == jobs[x].attempts
                                        && jobs'[x].maxAttempts == jobs[x].maxAttempts
    ensures Remaining(jobs') <= Remaining(jobs)
    decreases |jobs|
  {
    if jobs' != map[] {
      var x :| x in jobs';
      RemainingAt(jobs, x);
      RemainingAt(jobs', x);
      RemainingMonotone(jobs - {x}, jobs' - {x});
    }
  }

  /** Replacing or adding one row changes the sum by what that row has left. */
  lemma RemainingAfterPut(jobs: Jobs, id: JobId, job: Job)
    requires forall x :: x in jobs ==> jobs[x].attempts <= jobs[x].maxAttempts
    requires job.attempts <= job.maxAttempts
    ensures Remaining(jobs[id := job])
         == job.maxAttempts - job.attempts + Remaining(jobs)
            - if id in jobs then jobs[id].maxAttempts - jobs[id].attempts else 0
  {
    RemainingAt(jobs[id := job], id);
    assert jobs[id := job] - {id} == jobs - {id};
    if id in jobs {
      RemainingAt(jobs, id);
    } else {
      assert jobs - {id} == jobs;
    }
  }

  /** Each claim uses up exactly one remaining attempt; only publishing adds any. */
  lemma RemainingStep(s: System, e: Event)
    requires Inv(s) && Enabled(s, e)
    ensures Inv(Apply(s, e))
    ensures e.Claim? ==> Remaining(Apply(s, e).jobs) == Remaining(s.jobs) - 1
    ensures e.Publish? ==> Remaining(Apply(s, e).jobs) == Remaining(s.jobs) + MAX_ATTEMPTS
    ensures !e.Claim? && !e.Publish? ==> Remaining(Apply(s, e).jobs) <= Remaining(s.jobs)
  {
    InvStep(s, e);
    match e {
      case Publish(id, msg) => RemainingAfterPut(s.jobs, id, NewJob(msg, s.now));
      case Claim(w, id) => RemainingAfterPut(s.jobs, id, s.jobs[id].Claimed(s.now));
      case _ =>
        AttemptsKept(s, e);
        RemainingMonotone(s.jobs, Apply(s, e).jobs);
    }
  }

  lemma AttemptsKept(s: System, e: Event)
    requires Inv(s) && Enabled(s, e) && !e.Claim? && !e.Publish?
    ensures var jobs' := Apply(s, e).jobs;
            forall x :: x in jobs' ==> x in s.jobs
                                       && jobs'[x].attempts == s.jobs[x].attempts
                                       && jobs'[x].maxAttempts == s.jobs[x].maxAttempts
  {
  }

  function Claims(es: seq<Event>): nat {
    if es == [] then 0 else (if es[0].Claim? then 1 else 0) + Claims(es[1..])
  }

  function Publishes(es: seq<Event>): nat {
    if es == [] then 0 else (if es[0].Publish? then 1 else 0) + Publishes(es[1..])
  }

  /** Claims are paid for: their number never exceeds what was left at the start plus five per publish. */
  lemma {:induction false} ClaimBudget(s: System, es: seq<Event>)
    requires Inv(s) && ValidRun(s, es)
    ensures Inv(Final(s, es))
    ensures Claims(es) + Remaining(Final(s, es).jobs) <= Remaining(s.jobs) + MAX_ATTEMPTS * Publishes(es)
    decreases |es|
  {
    if es != [] {
      RemainingStep(s, es[0]);
      ClaimBudget(Apply(s, es[0]), es[1..]);
    }
  }
}
