/** The job table: a retry state machine that any number of workers drive one statement at a time. */
module JobQueue {
  import opened Prelude

  type Id = nat
  type Worker = string

  datatype Status = Pending | Running | Retrying | Completed | Failed

  datatype Job = Job(
    status: Status, priority: int, retryCount: int, maxRetries: int, createdAt: int, scheduledAt: int,
    startedAt: Option<int>, completedAt: Option<int>, worker: Option<Worker>, error: Option<string>)
  {
    predicate Ready(now: int) { (status.Pending? || status.Retrying?) && scheduledAt <= now }

    predicate Finished() { status.Completed? || status.Failed? }

    /** Higher priority first, then earlier schedule. */
    predicate NoLaterThan(other: Job) {
      priority > other.priority || (priority == other.priority && scheduledAt <= other.scheduledAt)
    }
  }

  type Jobs = map<Id, Job>

  /** A job that the next worker may be given: ready, and behind no other ready job. */
  ghost predicate First(jobs: Jobs, now: int, id: Id) {
    id in jobs && jobs[id].Ready(now) && forall o :: o in jobs && jobs[o].Ready(now) ==> jobs[id].NoLaterThan(jobs[o])
  }

  /** Waiting for a worker at `now`. */
  predicate Waits(j: Job, now: int) { (j.status == Pending || j.status == Retrying) && j.scheduledAt <= now }

  /** The job waits, none that waits has a higher priority, and none of the same priority is scheduled earlier. */
  ghost predicate HighestFirst(jobs: Jobs, now: int, id: Id) {
    && id in jobs && Waits(jobs[id], now)
    && forall o :: o in jobs && Waits(jobs[o], now) ==>
                     && jobs[o].priority <= jobs[id].priority
                     && (jobs[o].priority == jobs[id].priority ==> jobs[id].scheduledAt <= jobs[o].scheduledAt)
  }

  ghost predicate NoneReady(jobs: Jobs, now: int) { forall id :: id in jobs ==> !jobs[id].Ready(now) }

  function NewJob(priority: int, maxRetries: int, now: int): Job {
    Job(Pending, priority, 0, maxRetries, now, now, None, None, None, None)
  }

  function StartStep(jobs: Jobs, id: Id, worker: Worker, now: int): Jobs
    requires id in jobs
  {
    var job := jobs[id].(status := Running, startedAt := Some(now), worker := Some(worker));
    jobs[id := job.(retryCount := job.retryCount + 1)]
  }

  function CompleteStep(jobs: Jobs, id: Id, now: int): Jobs {
    if id in jobs then jobs[id := jobs[id].(status := Completed, completedAt := Some(now))] else jobs
  }

  /** Another attempt after `delay` while attempts remain, the dead letter queue otherwise. */
  function FailStep(jobs: Jobs, id: Id, error: string, delay: nat, now: int): Jobs
    requires id in jobs
  {
    if jobs[id].retryCount < jobs[id].maxRetries then
      jobs[id := jobs[id].(status := Retrying, error := Some(error), scheduledAt := now + delay)]
    else
      jobs[id := jobs[id].(status := Failed, error := Some(error), completedAt := Some(now))]
  }

  ghost function CleanupStep(jobs: Jobs, cutoff: int): Jobs {
    map id | id in jobs && !(jobs[id].Finished() && jobs[id].createdAt < cutoff) :: jobs[id]
  }

  function With(jobs: Jobs, s: Status): set<Id> { set id | id in jobs && jobs[id].status == s }

  function Count(jobs: Jobs, s: Status): nat { |With(jobs, s)| }

  datatype Metrics = Metrics(pending: nat, running: nat, retrying: nat, completed: nat, failed: nat)

  class JobQueueManager {
    var jobs: Jobs

    constructor ()
      ensures jobs == map[]
    {
      jobs := map[];
    }

    method Enqueue(id: Id, priority: int, maxRetries: int, now: int)
      requires id !in jobs
      modifies this
      ensures jobs == old(jobs)[id := NewJob(priority, maxRetries, now)]
    {
      jobs := jobs[id := Job(Pending, priority, 0, maxRetries, now, now, None, None, None, None)];
    }

    method Dequeue(worker: Worker, now: int) returns (found: Option<Id>)
      modifies this
      ensures match found
              case None => NoneReady(old(jobs), now) && jobs == old(jobs)
              case Some(id) => First(old(jobs), now, id) && jobs == StartStep(old(jobs), id, worker, now)
      ensures found.Some? ==> HighestFirst(old(jobs), now, found.value)
    {
      found := None;
      var rest := jobs.Keys;
      while rest != {}
        invariant rest <= jobs.Keys && jobs == old(jobs)
        invariant match found
                  case None => forall o :: o in jobs && o !in rest ==> !jobs[o].Ready(now)
                  case Some(id) =>
                    && id in jobs && jobs[id].Ready(now)
                    && forall o :: o in jobs && o !in rest && jobs[o].Ready(now) ==> jobs[id].NoLaterThan(jobs[o])
        decreases rest
      {
        var o :| o in rest;
        if jobs[o].Ready(now) && (found.None? || !jobs[found.value].NoLaterThan(jobs[o])) {
          found := Some(o);
        }
        rest := rest - {o};
      }
      if found.Some? {
        var job := jobs[found.value];
        job := job.(status := Running, startedAt := Some(now));
        job := job.(worker := Some(worker), retryCount := job.retryCount + 1);
        jobs := jobs[found.value := job];
      }
    }

    method Complete(id: Id, now: int)
      modifies this
      ensures jobs == CompleteStep(old(jobs), id, now)
    {
      if id in jobs {
        jobs := jobs[id := jobs[id].(status := Completed, completedAt := Some(now))];
      }
    }

    /** A missing row is an error. */
    method Fail(id: Id, error: string, delay: nat, now: int) returns (ok: bool)
      modifies this
      ensures ok == (id in old(jobs))
      ensures jobs == if ok then FailStep(old(jobs), id, error, delay, now) else old(jobs)
    {
      ok := id in jobs;
      if ok {
        var attempts, max := jobs[id].retryCount, jobs[id].maxRetries;
        if attempts < max {
          jobs := jobs[id := jobs[id].(status := Retrying, error := Some(error), scheduledAt := now + delay)];
        } else {
          jobs := jobs[id := jobs[id].(status := Failed, error := Some(error), completedAt := Some(now))];
        }
      }
    }

    method CleanupOldJobs(retention: nat, now: int) returns (deleted: nat)
      modifies this
      ensures jobs == CleanupStep(old(jobs), now - retention)
      ensures deleted == |old(jobs)| - |jobs|
    {
      var gone := set id | id in jobs && jobs[id].Finished() && jobs[id].createdAt < now - retention;
      deleted := |gone|;
      assert jobs.Keys == (jobs.Keys - gone) + gone;
      assert (jobs - gone).Keys == jobs.Keys - gone;
      jobs := jobs - gone;
    }

    method QueueMetrics() returns (m: Metrics)
      ensures m == Metrics(Count(jobs, Pending), Count(jobs, Running), Count(jobs, Retrying),
                           Count(jobs, Completed), Count(jobs, Failed))
      ensures m.pending + m.running + m.retrying + m.completed + m.failed == |jobs|
    {
      m := Metrics(|With(jobs, Pending)|, |With(jobs, Running)|, |With(jobs, Retrying)|, |With(jobs, Completed)|,
                   |With(jobs, Failed)|);
      CountsCoverAll(jobs);
    }
  }

  // ---- Single statements, on the fields ----

  /** A job may be given out first exactly if it waits, none that waits has a higher priority, and none of the same
      priority is scheduled earlier. */
  lemma {:induction false} FirstIsHighest(jobs: Jobs, now: int, id: Id)
    ensures First(jobs, now, id) <==> HighestFirst(jobs, now, id)
  {
  }

  /** Nothing is given out only if nothing waits. */
  lemma {:induction false} NoneWaits(jobs: Jobs, now: int, id: Id)
    requires NoneReady(jobs, now) && id in jobs
    ensures jobs[id].status == Running || jobs[id].status == Completed || jobs[id].status == Failed
            || now < jobs[id].scheduledAt
  {
  }

  /** A new job waits at once, with the priority and the number of attempts that were asked for. */
  lemma {:induction false} NewJobWaits(priority: int, maxRetries: int, now: int, later: int)
    requires now <= later
    ensures var j := NewJob(priority, maxRetries, now);
            && Waits(j, later) && !Waits(j, now - 1) && j.priority == priority && j.maxRetries == maxRetries
            && j.retryCount == 0 && j.createdAt == now && j.worker == None && j.error == None && j.completedAt == None
  {
  }

  /** The job given out runs for its worker, on one attempt more; its priority, limit and age stay. */
  lemma {:induction false} StartedRuns(jobs: Jobs, id: Id, worker: Worker, now: int)
    requires id in jobs
    ensures var next := StartStep(jobs, id, worker, now);
            && next.Keys == jobs.Keys && (forall o :: o in jobs && o != id ==> next[o] == jobs[o])
            && next[id].status == Running && next[id].worker == Some(worker) && next[id].startedAt == Some(now)
            && next[id].retryCount == jobs[id].retryCount + 1 && next[id].maxRetries == jobs[id].maxRetries
            && next[id].priority == jobs[id].priority && next[id].createdAt == jobs[id].createdAt
  {
  }

  /** A failed job with attempts left waits again, with its priority, exactly from the delay on; one without is a
      dead letter. Either way the error is on record, and no other job is touched. */
  lemma {:induction false} FailedWaits(jobs: Jobs, id: Id, error: string, delay: nat, now: int, later: int)
    requires id in jobs
    ensures var next := FailStep(jobs, id, error, delay, now);
            && next.Keys == jobs.Keys && (forall o :: o in jobs && o != id ==> next[o] == jobs[o])
            && next[id].error == Some(error) && next[id].retryCount == jobs[id].retryCount
            && next[id].priority == jobs[id].priority && next[id].maxRetries == jobs[id].maxRetries
            && (Waits(next[id], later) <==> jobs[id].retryCount < jobs[id].maxRetries && later >= now + delay)
            && (jobs[id].retryCount >= jobs[id].maxRetries ==>
                  next[id].status == Failed && next[id].completedAt == Some(now))
  {
  }

  /** A completed job never waits again. */
  lemma {:induction false} CompletedRests(jobs: Jobs, id: Id, now: int, later: int)
    requires id in jobs
    ensures var next := CompleteStep(jobs, id, now);
            && next.Keys == jobs.Keys && (forall o :: o in jobs && o != id ==> next[o] == jobs[o])
            && next[id].status == Completed && next[id].completedAt == Some(now) && !Waits(next[id], later)
  {
  }

  /** A cleanup deletes exactly the completed jobs and dead letters created before the cutoff, and changes none. */
  lemma {:induction false} CleanupDeletes(jobs: Jobs, cutoff: int, id: Id)
    requires id in jobs
    ensures id in CleanupStep(jobs, cutoff)
       <==> jobs[id].createdAt >= cutoff || (jobs[id].status != Completed && jobs[id].status != Failed)
    ensures id in CleanupStep(jobs, cutoff) ==> CleanupStep(jobs, cutoff)[id] == jobs[id]
    ensures CleanupStep(jobs, cutoff).Keys <= jobs.Keys
  {
  }

  // ---- Runs ----

  datatype Event =
    | Enqueue(id: Id, priority: int, maxRetries: int, now: int)
    | Dequeue(worker: Worker, found: Option<Id>, now: int)
    | Complete(worker: Worker, id: Id, now: int)
    | Fail(worker: Worker, id: Id, error: string, delay: nat, now: int)
    | Cleanup(cutoff: int, now: int)

  /** `held` are the jobs that workers were given and have not resolved; `starts` and `limits` are kept
      for every job ever enqueued, `cleaned` counts the deleted ones. */
  datatype State = State(jobs: Jobs, held: set<(Worker, Id)>, starts: map<Id, nat>, limits: map<Id, int>, cleaned: nat)

  const EMPTY := State(map[], {}, map[], map[], 0)

  /** Ids are new, and workers resolve only what they were given. The database may give out any ready job,
      or none: it passes over the rows that other workers' statements have locked. */
  ghost predicate Allowed(st: State, e: Event) {
    match e
    case Enqueue(id, _, _, _) => id !in st.limits
    case Dequeue(_, found, now) =>
      found.Some? ==> found.value in st.jobs && st.jobs[found.value].Ready(now) && found.value in st.starts
    case Complete(worker, id, _) => (worker, id) in st.held
    case Fail(worker, id, _, _, _) => (worker, id) in st.held && id in st.jobs
    case Cleanup(_, _) => true
  }

  ghost function Step(st: State, e: Event): State
    requires Allowed(st, e)
  {
    match e
    case Enqueue(id, priority, maxRetries, now) =>
      var jobs := st.jobs[id := NewJob(priority, maxRetries, now)];
      st.(jobs := jobs, starts := st.starts[id := 0], limits := st.limits[id := maxRetries])
    case Dequeue(worker, found, now) =>
      if found.None? then st else
      var id := found.value;
      var jobs, starts := StartStep(st.jobs, id, worker, now), st.starts[id := st.starts[id] + 1];
      st.(jobs := jobs, held := st.held + {(worker, id)}, starts := starts)
    case Complete(worker, id, now) => st.(jobs := CompleteStep(st.jobs, id, now), held := st.held - {(worker, id)})
    case Fail(worker, id, error, delay, now) =>
      st.(jobs := FailStep(st.jobs, id, error, delay, now), held := st.held - {(worker, id)})
    case Cleanup(cutoff, _) =>
      var jobs := CleanupStep(st.jobs, cutoff);
      st.(jobs := jobs, cleaned := st.cleaned + |st.jobs.Keys - jobs.Keys|)
  }

  ghost predicate Runs(st: State, es: seq<Event>)
    decreases |es|, 0
  {
    |es| > 0 ==> Runs(st, es[..|es| - 1]) && Allowed(After(st, es[..|es| - 1]), es[|es| - 1])
  }

  ghost function After(st: State, es: seq<Event>): State
    requires Runs(st, es)
    decreases |es|, 1
  {
    if |es| == 0 then st else Step(After(st, es[..|es| - 1]), es[|es| - 1])
  }

  // ---- The invariant ----

  function Attempts(maxRetries: int): int { Max(1, maxRetries) }

  ghost predicate JobInv(st: State, id: Id) {
    && (id in st.jobs ==>
          var j := st.jobs[id];
          && id in st.limits && j.maxRetries == st.limits[id] && id in st.starts && j.retryCount == st.starts[id]
          && (j.status.Pending? ==> j.retryCount == 0)
          && (j.status.Retrying? ==> j.retryCount < j.maxRetries)
          && (j.status.Running? ==> j.retryCount >= 1 && j.worker.Some?)
          && (j.status.Failed? ==> j.retryCount == Attempts(j.maxRetries)))
    && (id in st.limits <==> id in st.starts)
    && (id in st.limits ==> 0 <= st.starts[id] <= Attempts(st.limits[id]))
    && forall w :: (w, id) in st.held <==> id in st.jobs && st.jobs[id].status.Running? && st.jobs[id].worker == Some(w)
  }

  ghost predicate Inv(st: State) {
    && (forall id :: JobInv(st, id))
    && |st.limits| == |st.jobs| + st.cleaned
  }

  lemma {:induction false} JobInvStarted(st: State, e: Event, id: Id)
    requires Inv(st) && Allowed(st, e) && e.Dequeue? && e.found.Some?
    ensures JobInv(Step(st, e), id)
  {
    assert JobInv(st, id) && JobInv(st, e.found.value);
  }

  lemma {:induction false} JobInvResolved(st: State, e: Event, id: Id)
    requires Inv(st) && Allowed(st, e) && (e.Complete? || e.Fail?)
    ensures JobInv(Step(st, e), id)
  {
    assert JobInv(st, id) && JobInv(st, e.id);
  }

  lemma {:induction false} JobInvStep(st: State, e: Event, id: Id)
    requires Inv(st) && Allowed(st, e)
    ensures JobInv(Step(st, e), id)
  {
    assert JobInv(st, id);
    if e.Complete? || e.Fail? {
      JobInvResolved(st, e, id);
    } else if e.Dequeue? && e.found.Some? {
      JobInvStarted(st, e, id);
    }
  }

  lemma {:induction false} InvStep(st: State, e: Event)
    requires Inv(st) && Allowed(st, e)
    ensures Inv(Step(st, e))
  {
    var next := Step(st, e);
    forall id
      ensures JobInv(next, id)
    {
      JobInvStep(st, e, id);
    }
    SizeStep(st, e);
  }

  lemma {:induction false} SizePut<V>(m: map<Id, V>, id: Id, v: V)
    ensures |m[id := v]| == if id in m then |m| else |m| + 1
  {
    if id in m {
      assert m[id := v].Keys == m.Keys;
    } else {
      assert m[id := v].Keys == m.Keys + {id};
    }
  }

  lemma {:induction false} SizeCleanup(jobs: Jobs, cutoff: int)
    ensures |jobs| == |CleanupStep(jobs, cutoff)| + |jobs.Keys - CleanupStep(jobs, cutoff).Keys|
  {
    var kept := CleanupStep(jobs, cutoff).Keys;
    assert jobs.Keys == kept + (jobs.Keys - kept);
  }

  lemma {:induction false} SizeStep(st: State, e: Event)
    requires Inv(st) && Allowed(st, e)
    ensures |Step(st, e).limits| == |Step(st, e).jobs| + Step(st, e).cleaned
  {
    match e
    case Enqueue(id, priority, maxRetries, now) =>
      assert JobInv(st, id);
      SizePut(st.jobs, id, NewJob(priority, maxRetries, now));
      SizePut(st.limits, id, maxRetries);
    case Dequeue(worker, found, now) =>
      if found.Some? {
        SizePut(st.jobs, found.value, StartStep(st.jobs, found.value, worker, now)[found.value]);
      }
    case Complete(_, id, now) =>
      assert JobInv(st, id);
      SizePut(st.jobs, id, CompleteStep(st.jobs, id, now)[id]);
    case Fail(_, id, error, delay, now) =>
      SizePut(st.jobs, id, FailStep(st.jobs, id, error, delay, now)[id]);
    case Cleanup(cutoff, _) =>
      SizeCleanup(st.jobs, cutoff);
  }

  lemma {:induction false} InvAfter(st: State, es: seq<Event>)
    requires Inv(st) && Runs(st, es)
    ensures Inv(After(st, es))
  {
    if |es| > 0 {
      InvAfter(st, es[..|es| - 1]);
      InvStep(After(st, es[..|es| - 1]), es[|es| - 1]);
    }
  }

  lemma {:induction false} InvEmpty()
    ensures Inv(EMPTY)
  {
    assert forall id :: JobInv(EMPTY, id);
  }

  /** No job ever has two owners, and a held job is a running one. */
  lemma {:induction false} OneOwner(es: seq<Event>, a: Worker, b: Worker, id: Id)
    requires Runs(EMPTY, es) && (a, id) in After(EMPTY, es).held && (b, id) in After(EMPTY, es).held
    ensures a == b && id in After(EMPTY, es).jobs && After(EMPTY, es).jobs[id].status.Running?
  {
    InvEmpty();
    InvAfter(EMPTY, es);
    assert JobInv(After(EMPTY, es), id);
  }

  /** How often the run gives the job out. */
  function TimesGivenOut(es: seq<Event>, id: Id): nat {
    if |es| == 0 then 0
    else TimesGivenOut(es[..|es| - 1], id) + if GivesOut(es[|es| - 1], id) then 1 else 0
  }

  ghost predicate EnqueuedAs(e: Event, id: Id, priority: int, maxRetries: int, at: int) {
    e == Enqueue(id, priority, maxRetries, at)
  }

  /** What one event does to a job's limit and its count of starts. */
  lemma {:induction false} LimitsStep(st: State, e: Event, id: Id)
    requires JobInv(st, id) && Allowed(st, e)
    ensures var next, asked := Step(st, e), e.Enqueue? && e.id == id;
            && (id in next.limits <==> id in st.limits || asked)
            && (id in next.starts <==> id in st.starts || asked)
            && (asked ==> id !in st.limits && next.limits[id] == e.maxRetries && next.starts[id] == 0)
            && (id in st.limits ==> next.limits[id] == st.limits[id] && id in st.starts
                                    && next.starts[id] == st.starts[id] + if GivesOut(e, id) then 1 else 0)
            && (id !in st.limits ==> !GivesOut(e, id))
  {
  }

  ghost predicate Asked(es: seq<Event>, id: Id) { exists i :: 0 <= i < |es| && es[i].Enqueue? && es[i].id == id }

  lemma {:induction false} AskedAdds(es: seq<Event>, id: Id)
    requires |es| > 0
    ensures Asked(es, id) <==> Asked(es[..|es| - 1], id) || (es[|es| - 1].Enqueue? && es[|es| - 1].id == id)
  {
    if Asked(es[..|es| - 1], id) {
      var i :| 0 <= i < |es| - 1 && es[..|es| - 1][i].Enqueue? && es[..|es| - 1][i].id == id;
      assert es[i].Enqueue?;
    }
  }

  lemma {:induction false} JobInvAfter(es: seq<Event>, id: Id)
    requires Runs(EMPTY, es)
    ensures JobInv(After(EMPTY, es), id)
  {
    InvEmpty();
    InvAfter(EMPTY, es);
  }

  /** A job has a limit exactly if it was enqueued, and its starts are counted. */
  lemma {:induction false} LimitsAreEnqueued(es: seq<Event>, id: Id)
    requires Runs(EMPTY, es)
    ensures var st := After(EMPTY, es);
            && (id in st.limits <==> Asked(es, id))
            && (id in st.limits ==> id in st.starts && st.starts[id] == TimesGivenOut(es, id))
            && (id !in st.limits ==> TimesGivenOut(es, id) == 0)
  {
    if |es| > 0 {
      var before, e := es[..|es| - 1], es[|es| - 1];
      LimitsAreEnqueued(before, id);
      JobInvAfter(before, id);
      LimitsStep(After(EMPTY, before), e, id);
      AskedAdds(es, id);
    }
  }

  /** As long as it is there, a job has the priority, the limit and the age that it was enqueued with. */
  lemma {:induction false} StaysAsEnqueued(es: seq<Event>, id: Id) returns (i: nat)
    requires Runs(EMPTY, es) && id in After(EMPTY, es).jobs
    ensures i < |es|
    ensures var j := After(EMPTY, es).jobs[id]; EnqueuedAs(es[i], id, j.priority, j.maxRetries, j.createdAt)
  {
    var before, e := es[..|es| - 1], es[|es| - 1];
    AsBefore(After(EMPTY, before), e, id);
    if e.Enqueue? && e.id == id {
      i := |es| - 1;
    } else {
      i := StaysAsEnqueued(before, id);
    }
  }

  lemma {:induction false} AsBefore(st: State, e: Event, id: Id)
    requires Allowed(st, e)
    ensures id in Step(st, e).jobs ==>
              var j := Step(st, e).jobs[id];
              if e.Enqueue? && e.id == id then EnqueuedAs(e, id, j.priority, j.maxRetries, j.createdAt)
              else id in st.jobs && j.priority == st.jobs[id].priority && j.maxRetries == st.jobs[id].maxRetries
                   && j.createdAt == st.jobs[id].createdAt
  {
  }

  /** Every job ever enqueued is given out at most `max(1, max_retries)` times. */
  lemma {:induction false} BoundedAttempts(es: seq<Event>, i: nat, id: Id)
    requires Runs(EMPTY, es) && i < |es| && es[i].Enqueue? && es[i].id == id
    ensures TimesGivenOut(es, id) <= Max(1, es[i].maxRetries)
  {
    JobInvAfter(es, id);
    LimitsAreEnqueued(es, id);
    LimitIsAsked(es, i, id);
  }

  lemma {:induction false} LimitIsAsked(es: seq<Event>, i: nat, id: Id)
    requires Runs(EMPTY, es) && i < |es| && es[i].Enqueue? && es[i].id == id
    ensures var limits := After(EMPTY, es).limits; id in limits && limits[id] == es[i].maxRetries
  {
    var before := es[..|es| - 1];
    JobInvAfter(before, id);
    LimitsStep(After(EMPTY, before), es[|es| - 1], id);
    if i < |es| - 1 {
      LimitIsAsked(before, i, id);
    }
  }

  /** A job reaches the dead letter queue only after its last attempt. */
  lemma {:induction false} DeadLettersAreExhausted(es: seq<Event>, id: Id)
    requires Runs(EMPTY, es) && id in After(EMPTY, es).jobs && After(EMPTY, es).jobs[id].status.Failed?
    ensures TimesGivenOut(es, id) == Max(1, After(EMPTY, es).jobs[id].maxRetries)
  {
    InvEmpty();
    LimitsAreEnqueued(es, id);
    InvAfter(EMPTY, es);
    assert JobInv(After(EMPTY, es), id);
  }

  // ---- A retry waits for its delay ----

  /** The job is not ready before `ready`, or it has moved on. */
  ghost predicate WaitsUntil(st: State, id: Id, ready: int) {
    id in st.jobs ==>
      st.jobs[id].status != Pending && (st.jobs[id].status == Retrying ==> st.jobs[id].scheduledAt >= ready)
  }

  predicate GivesOut(e: Event, id: Id) { e.Dequeue? && e.found == Some(id) }

  /** A job that failed at event `i` and may be tried again is not given out before its delay is over. */
  lemma {:induction false} RetryWaits(es: seq<Event>, i: nat, id: Id)
    requires i + 1 < |es| && Runs(EMPTY, es) && es[i].Fail? && es[i].id == id && GivesOut(es[|es| - 1], id)
    requires forall k :: i < k < |es| - 1 ==> !GivesOut(es[k], id)
    ensures es[|es| - 1].now >= es[i].now + es[i].delay
  {
    RestsAfterFailure(es[..|es| - 1], i, id);
  }

  /** Nobody holds the job, and it waits until `ready` if it waits at all. */
  ghost predicate Resting(st: State, id: Id, ready: int) {
    WaitsUntil(st, id, ready) && id in st.limits && forall w :: (w, id) !in st.held
  }

  lemma {:induction false} FailureRests(st: State, e: Event)
    requires e.Fail? && Allowed(st, e) && JobInv(st, e.id)
    ensures Resting(Step(st, e), e.id, e.now + e.delay)
  {
  }

  lemma {:induction false} RestingStep(st: State, e: Event, id: Id, ready: int)
    requires Resting(st, id, ready) && Allowed(st, e) && !GivesOut(e, id)
    ensures Resting(Step(st, e), id, ready)
  {
    if e.Complete? || e.Fail? {
      assert e.id != id;
    }
  }

  lemma {:induction false} RestsAfterFailure(es: seq<Event>, i: nat, id: Id)
    requires i < |es| && Runs(EMPTY, es) && es[i].Fail? && es[i].id == id
    requires forall k :: i < k < |es| ==> !GivesOut(es[k], id)
    ensures Resting(After(EMPTY, es), id, es[i].now + es[i].delay)
  {
    var before, e := es[..|es| - 1], es[|es| - 1];
    if i == |es| - 1 {
      InvEmpty();
      InvAfter(EMPTY, before);
      FailureRests(After(EMPTY, before), e);
    } else {
      RestsAfterFailure(before, i, id);
      RestingStep(After(EMPTY, before), e, id, es[i].now + es[i].delay);
    }
  }

  // ---- Conservation ----

  lemma {:induction false} FiveParts<T>(all: set<T>, a: set<T>, b: set<T>, c: set<T>, d: set<T>, e: set<T>)
    requires a !! b !! c !! d !! e && all == a + b + c + d + e
    ensures |all| == |a| + |b| + |c| + |d| + |e|
  {
    assert |a + b| == |a| + |b|;
    assert |a + b + c| == |a + b| + |c|;
    assert |a + b + c + d| == |a + b + c| + |d|;
  }

  lemma {:induction false} CountsCoverAll(jobs: Jobs)
    ensures |jobs| == Count(jobs, Pending) + Count(jobs, Running) + Count(jobs, Retrying)
                      + Count(jobs, Completed) + Count(jobs, Failed)
  {
    var a, b, c := With(jobs, Pending), With(jobs, Running), With(jobs, Retrying);
    var d, e := With(jobs, Completed), With(jobs, Failed);
    assert forall id :: id in jobs.Keys <==> id in a || id in b || id in c || id in d || id in e;
    FiveParts(jobs.Keys, a, b, c, d, e);
  }

  function Enqueued(es: seq<Event>): nat {
    if |es| == 0 then 0 else Enqueued(es[..|es| - 1]) + if es[|es| - 1].Enqueue? then 1 else 0
  }

  lemma {:induction false} LimitsCountJobs(es: seq<Event>)
    requires Runs(EMPTY, es)
    ensures |After(EMPTY, es).limits| == Enqueued(es)
  {
    if |es| > 0 {
      var before, e := es[..|es| - 1], es[|es| - 1];
      LimitsCountJobs(before);
      if e.Enqueue? {
        SizePut(After(EMPTY, before).limits, e.id, e.maxRetries);
      }
    }
  }

  /** In every run the five counts add up to the jobs enqueued less those cleaned up. */
  lemma {:induction false} JobsAreConserved(es: seq<Event>)
    requires Runs(EMPTY, es)
    ensures var st := After(EMPTY, es);
            Count(st.jobs, Pending) + Count(st.jobs, Running) + Count(st.jobs, Retrying) + Count(st.jobs, Completed)
            + Count(st.jobs, Failed) == Enqueued(es) - st.cleaned
  {
    InvEmpty();
    InvAfter(EMPTY, es);
    CountsCoverAll(After(EMPTY, es).jobs);
    LimitsCountJobs(es);
  }

  // ---- Termination ----

  /** What is left to do for a job: two steps for every attempt, and one for the attempt under way. */
  function Weight(j: Job): nat {
    if j.Finished() then 0
    else 2 * Max(0, Attempts(j.maxRetries) - j.retryCount) + if j.status.Running? then 1 else 0
  }

  ghost function Work(jobs: Jobs): nat
    decreases |jobs|
  {
    if jobs.Keys == {} then 0 else
    var id :| id in jobs.Keys;
    Weight(jobs[id]) + Work(jobs - {id})
  }

  lemma {:induction false} WorkWithout(jobs: Jobs, id: Id)
    requires id in jobs
    ensures Work(jobs) == Weight(jobs[id]) + Work(jobs - {id})
    decreases |jobs|
  {
    var k :| k in jobs.Keys && Work(jobs) == Weight(jobs[k]) + Work(jobs - {k});
    if k != id {
      WorkWithout(jobs - {k}, id);
      WorkWithout(jobs - {id}, k);
      assert jobs - {k} - {id} == jobs - {id} - {k};
    }
  }

  lemma {:induction false} WorkChanges(jobs: Jobs, id: Id, j: Job)
    requires id in jobs
    ensures Work(jobs[id := j]) - Work(jobs) == Weight(j) - Weight(jobs[id])
  {
    WorkWithout(jobs, id);
    WorkWithout(jobs[id := j], id);
    assert jobs[id := j] - {id} == jobs - {id};
  }

  lemma {:induction false} WorkSubset(jobs: Jobs, kept: Jobs)
    requires kept.Keys <= jobs.Keys && forall id :: id in kept ==> kept[id] == jobs[id]
    ensures Work(kept) <= Work(jobs)
    decreases |jobs|
  {
    if kept.Keys == jobs.Keys {
      assert kept == jobs;
    } else {
      var id :| id in jobs.Keys && id !in kept.Keys;
      WorkWithout(jobs, id);
      WorkSubset(jobs - {id}, kept);
    }
  }

  /** A worker was given a job, or resolved one. */
  predicate Progress(e: Event) { (e.Dequeue? && e.found.Some?) || e.Complete? || e.Fail? }

  lemma {:induction false} WorkShrinks(st: State, e: Event)
    requires Inv(st) && Allowed(st, e) && !e.Enqueue?
    ensures Work(Step(st, e).jobs) + (if Progress(e) then 1 else 0) <= Work(st.jobs)
  {
    match e
    case Dequeue(worker, found, now) =>
      if found.Some? {
        assert JobInv(st, found.value);
        WorkChanges(st.jobs, found.value, StartStep(st.jobs, found.value, worker, now)[found.value]);
      }
    case Complete(worker, id, now) =>
      assert JobInv(st, id);
      WorkChanges(st.jobs, id, CompleteStep(st.jobs, id, now)[id]);
    case Fail(worker, id, error, delay, now) =>
      assert JobInv(st, id);
      WorkChanges(st.jobs, id, FailStep(st.jobs, id, error, delay, now)[id]);
    case Cleanup(cutoff, now) =>
      WorkSubset(st.jobs, CleanupStep(st.jobs, cutoff));
    case Enqueue(_, _, _, _) =>
  }

  function ProgressCount(es: seq<Event>): nat {
    if |es| == 0 then 0 else ProgressCount(es[..|es| - 1]) + if Progress(es[|es| - 1]) then 1 else 0
  }

  /** Without new jobs, no run makes more progress steps than the work at its start: it ends. */
  lemma {:induction false} RunsEnd(st: State, es: seq<Event>)
    requires Inv(st) && Runs(st, es) && forall i :: 0 <= i < |es| ==> !es[i].Enqueue?
    ensures Work(After(st, es).jobs) + ProgressCount(es) <= Work(st.jobs)
  {
    if |es| > 0 {
      RunsEnd(st, es[..|es| - 1]);
      InvAfter(st, es[..|es| - 1]);
      WorkShrinks(After(st, es[..|es| - 1]), es[|es| - 1]);
    }
  }

  /** When nobody holds a job, nothing is ready, and no retry is still scheduled, every job is finished. */
  lemma {:induction false} IdleMeansFinished(st: State, now: int, id: Id)
    requires Inv(st) && st.held == {} && NoneReady(st.jobs, now) && id in st.jobs && st.jobs[id].scheduledAt <= now
    ensures st.jobs[id].Finished()
  {
    assert JobInv(st, id);
    assert st.jobs[id].worker.Some? ==> (st.jobs[id].worker.value, id) !in st.held;
  }
}
