/**
 The background-job queue: a table of rows with a status, a poller that selects
 due rows and then claims each by compare-and-swap, workers that mark the rows
 they hold, and admins who requeue or delete. Statements of all of them interleave.
 */
module JobRepo {
  import opened Prelude

  type JobId = nat
  type PollerId = nat
  type HoldId = nat

  datatype Status = Pending | Running | Succeeded | Failed

  datatype Job = Job(
    payload: string,
    status: Status,
    attempts: nat,
    maxAttempts: nat,
    runAt: int,
    lastError: Option<string>,
    createdAt: int)

  datatype JobRecord = JobRecord(id: JobId, job: Job)

  type Jobs = map<JobId, Job>

  datatype DbError = UniqueViolation

  // ---------------------------------------------------------------- statements

  function NewJob(payload: string, runAt: int, maxAttempts: nat, now: int): Job {
    Job(payload, Pending, 0, maxAttempts, runAt, None, now)
  }

  /** `UPDATE .. SET status = 'running' WHERE id = ? AND status = 'pending'`. */
  function Claimed(t: Jobs, id: JobId): (Jobs, bool) {
    if id in t && t[id].status == Pending then (t[id := t[id].(status := Running)], true) else (t, false)
  }

  function MarkedSucceeded(t: Jobs, id: JobId): Jobs {
    if id in t then t[id := t[id].(status := Succeeded)] else t
  }

  function MarkedRetry(t: Jobs, id: JobId, attempts: nat, runAt: int, error: string): Jobs {
    if id in t
    then t[id := t[id].(status := Pending, attempts := attempts, runAt := runAt, lastError := Some(error))]
    else t
  }

  function MarkedDead(t: Jobs, id: JobId, attempts: nat, error: string): Jobs {
    if id in t
    then t[id := t[id].(status := Failed, attempts := attempts, lastError := Some(error))]
    else t
  }

  /** Only a dead-lettered row goes back to the queue, with a fresh budget. */
  function Requeued(t: Jobs, id: JobId, now: int): (Jobs, bool) {
    if id in t && t[id].status == Failed
    then (t[id := t[id].(status := Pending, runAt := now, attempts := 0, lastError := None)], true)
    else (t, false)
  }

  function Deleted(t: Jobs, id: JobId): (Jobs, bool) {
    if id in t && t[id].status != Running then (t - {id}, true) else (t, false)
  }

  predicate Due(t: Jobs, id: JobId, now: int) {
    id in t && t[id].status == Pending && t[id].runAt <= now
  }

  ghost predicate Distinct(rows: seq<JobRecord>) {
    forall i, j :: 0 <= i < j < |rows| ==> rows[i].id != rows[j].id
  }

  /**
   `rows` is an answer of `SELECT .. WHERE status = 'pending' AND run_at <= now
   ORDER BY run_at LIMIT limit`; rows with equal `run_at` come in any order.
   */
  ghost predicate IsSelection(t: Jobs, now: int, limit: nat, rows: seq<JobRecord>) {
    && |rows| <= limit
    && Distinct(rows)
    && (forall r :: r in rows ==> Due(t, r.id, now) && r.job == t[r.id])
    && (forall i, j :: 0 <= i < j < |rows| ==> rows[i].job.runAt <= rows[j].job.runAt)
    && (forall id :: Due(t, id, now) && (forall r :: r in rows ==> r.id != id) ==>
          |rows| == limit && forall r :: r in rows ==> r.job.runAt <= t[id].runAt)
  }

  /** What the handler of a claimed job did. */
  datatype Outcome = HandlerOk | HandlerErr(error: string) | NoHandler

  /** The worker's marking rule, from the record it was handed at claim time. */
  function RunOne(t: Jobs, record: JobRecord, outcome: Outcome, retryAt: int): Jobs {
    match outcome
    case HandlerOk => MarkedSucceeded(t, record.id)
    case HandlerErr(error) =>
      var next := record.job.attempts + 1;
      if next >= record.job.maxAttempts then MarkedDead(t, record.id, next, error)
      else MarkedRetry(t, record.id, next, retryAt, error)
    case NoHandler => MarkedDead(t, record.id, record.job.attempts, "no handler registered")
  }

  // ------------------------------------------------------- interleaved machine

  datatype Hold = Hold(poller: PollerId, record: JobRecord)

  /**
   `batches[p]` are the selected rows poller `p` has yet to try; `holds` the jobs
   claimed and not yet marked. `started` and `failures` count, per job, handler
   runs and failed handler runs since it was last enqueued or requeued. `issued`
   are the ids ever enqueued: ids are random UUIDs, so none comes a second time.
   */
  datatype World = World(
    jobs: Jobs,
    batches: map<PollerId, seq<JobRecord>>,
    holds: map<HoldId, Hold>,
    nextHold: HoldId,
    started: map<JobId, nat>,
    failures: map<JobId, nat>,
    issued: set<JobId>)

  const INITIAL := World(map[], map[], map[], 0, map[], map[], {})

  datatype Event =
    | Enqueue(id: JobId, payload: string, runAt: int, maxAttempts: nat, now: int)
    | Select(poller: PollerId, now: int, limit: nat, rows: seq<JobRecord>)
    | TryClaim(poller: PollerId)
    | Finish(hold: HoldId, outcome: Outcome, retryAt: int)
    | Requeue(id: JobId, now: int)
    | Delete(id: JobId)

  function Tally(m: map<JobId, nat>, id: JobId): nat {
    if id in m then m[id] else 0
  }

  function Batch(w: World, p: PollerId): seq<JobRecord> {
    if p in w.batches then w.batches[p] else []
  }

  ghost function Apply(w: World, e: Event): World {
    match e
    case Enqueue(id, payload, runAt, maxAttempts, now) =>
      if id in w.jobs || id in w.issued then w
      else w.(jobs := w.jobs[id := NewJob(payload, runAt, maxAttempts, now)], issued := w.issued + {id},
              started := w.started[id := 0], failures := w.failures[id := 0])
    case Select(p, now, limit, rows) =>
      if Batch(w, p) == [] && IsSelection(w.jobs, now, limit, rows)
      then w.(batches := w.batches[p := rows]) else w
    case TryClaim(p) =>
      if Batch(w, p) == [] then w else
      var row := Batch(w, p)[0];
      var (jobs, won) := Claimed(w.jobs, row.id);
      var w' := w.(jobs := jobs, batches := w.batches[p := Batch(w, p)[1..]]);
      if won
      then w'.(holds := w.holds[w.nextHold := Hold(p, JobRecord(row.id, row.job.(status := Running)))],
               nextHold := w.nextHold + 1,
               started := w.started[row.id := Tally(w.started, row.id) + 1])
      else w'
    case Finish(h, outcome, retryAt) =>
      if h !in w.holds then w else
      var record := w.holds[h].record;
      w.(jobs := RunOne(w.jobs, record, outcome, retryAt), holds := w.holds - {h},
         failures := if outcome.HandlerErr?
                     then w.failures[record.id := Tally(w.failures, record.id) + 1] else w.failures)
    case Requeue(id, now) =>
      var (jobs, done) := Requeued(w.jobs, id, now);
      if done then w.(jobs := jobs, started := w.started[id := 0], failures := w.failures[id := 0]) else w
    case Delete(id) => w.(jobs := Deleted(w.jobs, id).0)
  }

  ghost function Run(w: World, es: seq<Event>): World
    decreases |es|
  {
    if es == [] then w else Run(Apply(w, es[0]), es[1..])
  }

  // ---------------------------------------------------------- mutual exclusion

  ghost predicate Holds(w: World, h: HoldId, id: JobId) {
    h in w.holds && w.holds[h].record.id == id
  }

  ghost predicate IsHeld(w: World, id: JobId) {
    exists h :: Holds(w, h, id)
  }

  ghost predicate IsRunning(w: World, id: JobId) {
    id in w.jobs && w.jobs[id].status == Running
  }

  /** A row is `running` exactly when a worker holds it, and no two workers hold one row. */
  ghost predicate Exclusive(w: World) {
    && (forall h :: h in w.holds ==> h < w.nextHold)
    && (forall id :: IsRunning(w, id) <==> IsHeld(w, id))
    && (forall h, g, id :: Holds(w, h, id) && Holds(w, g, id) ==> h == g)
  }

  lemma HeldRows(w: World, h: HoldId)
    requires Exclusive(w) && h in w.holds
    ensures IsRunning(w, w.holds[h].record.id)
  {
    assert Holds(w, h, w.holds[h].record.id);
    assert IsHeld(w, w.holds[h].record.id);
  }

  lemma ClaimIsExclusive(w: World, p: PollerId)
    requires Exclusive(w) && Batch(w, p) != []
    ensures Exclusive(Apply(w, TryClaim(p)))
  {
    var w', row := Apply(w, TryClaim(p)), Batch(w, p)[0];
    if Claimed(w.jobs, row.id).1 {
      assert !IsHeld(w, row.id) && w.nextHold !in w.holds;
      assert forall h, id :: Holds(w', h, id) <==> Holds(w, h, id) || (h == w.nextHold && id == row.id);
      assert Holds(w', w.nextHold, row.id);
      forall id ensures IsHeld(w', id) <==> IsHeld(w, id) || id == row.id {
        if h :| Holds(w, h, id) { assert Holds(w', h, id); }
      }
      forall h, g, id | Holds(w', h, id) && Holds(w', g, id) ensures h == g {
        assert id == row.id ==> !Holds(w, h, id) && !Holds(w, g, id);
      }
    } else {
      assert forall h, id :: Holds(w', h, id) <==> Holds(w, h, id);
      assert forall id :: IsHeld(w', id) <==> IsHeld(w, id);
    }
  }

  lemma FinishIsExclusive(w: World, h: HoldId, outcome: Outcome, retryAt: int)
    requires Exclusive(w) && h in w.holds
    ensures Exclusive(Apply(w, Finish(h, outcome, retryAt)))
  {
    var w', job := Apply(w, Finish(h, outcome, retryAt)), w.holds[h].record.id;
    HeldRows(w, h);
    assert Holds(w, h, job);
    assert forall g, id :: Holds(w', g, id) <==> Holds(w, g, id) && g != h;
    forall id ensures IsHeld(w', id) <==> IsHeld(w, id) && id != job {
      if g :| Holds(w, g, id) && id != job { assert Holds(w', g, id); }
    }
  }

  lemma StepIsExclusive(w: World, e: Event)
    requires Exclusive(w)
    ensures Exclusive(Apply(w, e))
  {
    if e.TryClaim? && Batch(w, e.poller) != [] {
      ClaimIsExclusive(w, e.poller);
    } else if e.Finish? && e.hold in w.holds {
      FinishIsExclusive(w, e.hold, e.outcome, e.retryAt);
    } else {
      var w' := Apply(w, e);
      assert forall h, id :: Holds(w', h, id) <==> Holds(w, h, id);
      forall id ensures IsRunning(w', id) <==> IsHeld(w', id) {
        assert IsHeld(w', id) <==> IsHeld(w, id);
      }
    }
  }

  /**
   For any number of pollers, workers, enqueuers and admins and any interleaving
   of their statements: a row runs if and only if exactly one worker holds it.
   */
  lemma {:induction false} RunIsExclusive(w: World, es: seq<Event>)
    requires Exclusive(w)
    ensures Exclusive(Run(w, es))
    decreases |es|
  {
    if es != [] {
      StepIsExclusive(w, es[0]);
      RunIsExclusive(Apply(w, es[0]), es[1..]);
    }
  }

  lemma TwoPollersNeverShareAJob(es: seq<Event>, h: HoldId, g: HoldId)
    requires h in Run(INITIAL, es).holds && g in Run(INITIAL, es).holds
    requires Run(INITIAL, es).holds[h].poller != Run(INITIAL, es).holds[g].poller
    ensures Run(INITIAL, es).holds[h].record.id != Run(INITIAL, es).holds[g].record.id
    ensures IsRunning(Run(INITIAL, es), Run(INITIAL, es).holds[h].record.id)
  {
    InitialIsExclusive();
    RunIsExclusive(INITIAL, es);
    var w := Run(INITIAL, es);
    assert Holds(w, h, w.holds[h].record.id) && Holds(w, g, w.holds[g].record.id);
    assert IsHeld(w, w.holds[h].record.id);
  }

  lemma InitialIsExclusive()
    ensures Exclusive(INITIAL)
  {
  }

  /** In every reachable state `requeue` and `delete` leave every held row as it is. */
  lemma AdminsNeverTouchHeldJobs(es: seq<Event>, e: Event, h: HoldId)
    requires e.Requeue? || e.Delete?
    requires h in Run(INITIAL, es).holds
    ensures var w, id := Run(INITIAL, es), Run(INITIAL, es).holds[h].record.id;
            id in w.jobs && id in Apply(w, e).jobs && Apply(w, e).jobs[id] == w.jobs[id]
  {
    InitialIsExclusive();
    RunIsExclusive(INITIAL, es);
    var w := Run(INITIAL, es);
    assert Holds(w, h, w.holds[h].record.id);
    assert IsHeld(w, w.holds[h].record.id);
  }

  // ------------------------------------------------------ the retry budget

  /** Handler runs a row is entitled to: a job always runs at least once. */
  function Budget(job: Job): nat {
    Max(job.maxAttempts, 1)
  }

  ghost predicate WithinBudget(w: World, id: JobId)
    requires id in w.jobs
  {
    var job, runs := w.jobs[id], Tally(w.started, id);
    && job.attempts == Tally(w.failures, id)
    && match job.status
       case Pending => runs == job.attempts < Budget(job)
       case Running => runs == job.attempts + 1 <= Budget(job)
       case Succeeded => runs == job.attempts + 1 <= Budget(job)
       case Failed => runs <= Budget(job)
  }

  /** The snapshot poller `p` works from still agrees with the table. */
  ghost predicate SnapshotFresh(w: World, p: PollerId) {
    && (forall q :: q in w.batches && q != p ==> w.batches[q] == [])
    && Distinct(Batch(w, p))
    && (forall r :: r in Batch(w, p) ==>
          r.id in w.issued && (r.id in w.jobs ==> w.jobs[r.id] == r.job && r.job.status == Pending))
  }

  ghost predicate HoldsFresh(w: World) {
    forall h :: h in w.holds && w.holds[h].record.id in w.jobs ==>
      && w.holds[h].record.job.attempts == w.jobs[w.holds[h].record.id].attempts
      && w.holds[h].record.job.maxAttempts == w.jobs[w.holds[h].record.id].maxAttempts
  }

  /** What makes the budget hold: holders know their row's counters, and every row keeps to its own. */
  ghost predicate BudgetInv(w: World) {
    && Exclusive(w)
    && HoldsFresh(w)
    && (forall id :: id in w.jobs ==> WithinBudget(w, id))
  }

  ghost predicate OnePollerInv(w: World, p: PollerId) {
    && BudgetInv(w)
    && w.jobs.Keys <= w.issued
    && SnapshotFresh(w, p)
  }

  /** Whether poller `p`'s next claim will win its row. */
  predicate ClaimWins(w: World, p: PollerId) {
    Batch(w, p) != [] && Claimed(w.jobs, Batch(w, p)[0].id).1
  }

  /** A claim that wins has selected the counters the row still has. */
  predicate FreshClaim(w: World, e: Event) {
    e.TryClaim? && ClaimWins(w, e.poller) ==>
      var row := Batch(w, e.poller)[0];
      row.job.attempts == w.jobs[row.id].attempts && row.job.maxAttempts == w.jobs[row.id].maxAttempts
  }

  /** Every winning claim of the run is fresh, whoever polls. */
  ghost predicate FreshRun(w: World, es: seq<Event>)
    decreases |es|
  {
    es == [] || (FreshClaim(w, es[0]) && FreshRun(Apply(w, es[0]), es[1..]))
  }

  /** Only `p` polls. */
  ghost predicate OnePoller(es: seq<Event>, p: PollerId) {
    forall e :: e in es ==> StepOfOnePoller(e, p)
  }

  ghost predicate StepOfOnePoller(e: Event, p: PollerId) {
    (e.Select? || e.TryClaim?) ==> e.poller == p
  }

  lemma ClaimKeepsSnapshot(w: World, p: PollerId)
    requires SnapshotFresh(w, p) && Batch(w, p) != []
    ensures SnapshotFresh(Apply(w, TryClaim(p)), p)
  {
    var w', batch := Apply(w, TryClaim(p)), Batch(w, p);
    assert Batch(w', p) == batch[1..];
    forall r | r in batch[1..] ensures r in batch && r.id != batch[0].id {}
    assert forall id :: id != batch[0].id ==> (id in w'.jobs <==> id in w.jobs);
  }

  lemma FinishKeepsSnapshot(w: World, p: PollerId, e: Event)
    requires SnapshotFresh(w, p) && e.Finish? && e.hold in w.holds
    requires IsRunning(w, w.holds[e.hold].record.id)
    ensures SnapshotFresh(Apply(w, e), p)
  {
    var id := w.holds[e.hold].record.id;
    assert Apply(w, e).jobs.Keys == w.jobs.Keys;
    assert forall r :: r in Batch(w, p) ==> r.id != id;
  }

  lemma StepKeepsSnapshot(w: World, p: PollerId, e: Event)
    requires OnePollerInv(w, p) && StepOfOnePoller(e, p)
    ensures SnapshotFresh(Apply(w, e), p)
  {
    hide Exclusive, HoldsFresh, WithinBudget;
    match e {
      case TryClaim(_) =>
        if Batch(w, p) != [] { ClaimKeepsSnapshot(w, p); }
      case Finish(h, _, _) =>
        if h in w.holds {
          HeldRows(w, h);
          FinishKeepsSnapshot(w, p, e);
        }
      case Enqueue(_, _, _, _, _) =>
      case Select(_, _, _, _) =>
      case Requeue(_, _) =>
      case Delete(_) =>
    }
  }

  lemma StepKeepsHolds(w: World, e: Event)
    requires BudgetInv(w) && FreshClaim(w, e)
    ensures HoldsFresh(Apply(w, e))
  {
    hide WithinBudget;
    var w' := Apply(w, e);
    forall h | h in w'.holds && w'.holds[h].record.id in w'.jobs
      ensures w'.holds[h].record.job.attempts == w'.jobs[w'.holds[h].record.id].attempts
      ensures w'.holds[h].record.job.maxAttempts == w'.jobs[w'.holds[h].record.id].maxAttempts
    {
      if h in w.holds {
        HeldRows(w, h);
        HeldRowKept(w, e, h);
      }
    }
  }

  /** A held row keeps its counters until its own holder marks it. */
  lemma HeldRowKept(w: World, e: Event, h: HoldId)
    requires Exclusive(w) && h in w.holds && h in Apply(w, e).holds
    ensures var id := w.holds[h].record.id;
            && Apply(w, e).holds[h] == w.holds[h]
            && id in w.jobs && id in Apply(w, e).jobs
            && Apply(w, e).jobs[id] == w.jobs[id]
  {
    HeldRows(w, h);
    assert Holds(w, h, w.holds[h].record.id);
    if e.Finish? && e.hold in w.holds {
      assert Holds(w, e.hold, w.holds[e.hold].record.id);
    }
  }

  lemma ClaimKeepsWithin(w: World, p: PollerId, id: JobId)
    requires id in w.jobs && WithinBudget(w, id) && Batch(w, p) != []
    ensures id in Apply(w, TryClaim(p)).jobs && WithinBudget(Apply(w, TryClaim(p)), id)
  {
  }

  lemma FinishKeepsWithin(w: World, e: Event, id: JobId)
    requires id in w.jobs && WithinBudget(w, id) && HoldsFresh(w)
    requires e.Finish? && e.hold in w.holds && IsRunning(w, w.holds[e.hold].record.id)
    ensures id in Apply(w, e).jobs && WithinBudget(Apply(w, e), id)
  {
  }

  lemma OthersKeepWithin(w: World, e: Event, id: JobId)
    requires !e.Finish? && !e.TryClaim? && id in Apply(w, e).jobs
    requires id in w.jobs ==> WithinBudget(w, id)
    ensures WithinBudget(Apply(w, e), id)
  {
    hide IsSelection;
  }

  lemma StepKeepsWithin(w: World, e: Event, id: JobId)
    requires BudgetInv(w) && id in Apply(w, e).jobs
    ensures WithinBudget(Apply(w, e), id)
  {
    hide Exclusive, WithinBudget, HoldsFresh, IsSelection;
    if e.Finish? && e.hold in w.holds {
      HeldRows(w, e.hold);
      FinishKeepsWithin(w, e, id);
    } else if e.TryClaim? && Batch(w, e.poller) != [] {
      ClaimKeepsWithin(w, e.poller, id);
    } else if !e.Finish? && !e.TryClaim? {
      OthersKeepWithin(w, e, id);
    }
  }

  lemma FreshStepKeepsBudget(w: World, e: Event)
    requires BudgetInv(w) && FreshClaim(w, e)
    ensures BudgetInv(Apply(w, e))
  {
    var w' := Apply(w, e);
    StepIsExclusive(w, e);
    StepKeepsHolds(w, e);
    hide Apply, HoldsFresh, Exclusive, WithinBudget;
    forall id | id in w'.jobs ensures WithinBudget(w', id) {
      StepKeepsWithin(w, e, id);
    }
  }

  lemma {:induction false} FreshRunKeepsBudget(w: World, es: seq<Event>)
    requires BudgetInv(w) && FreshRun(w, es)
    ensures BudgetInv(Run(w, es))
    decreases |es|
  {
    if es != [] {
      hide BudgetInv, FreshClaim;
      FreshStepKeepsBudget(w, es[0]);
      FreshRunKeepsBudget(Apply(w, es[0]), es[1..]);
    }
  }

  /** The poller's snapshot is what the row is when its claim wins. */
  lemma OnePollerClaimsFresh(w: World, p: PollerId, e: Event)
    requires OnePollerInv(w, p) && StepOfOnePoller(e, p)
    ensures FreshClaim(w, e)
  {
    if e.TryClaim? && ClaimWins(w, p) {
      assert Batch(w, p)[0] in Batch(w, p);
    }
  }

  lemma StepKeepsBudget(w: World, p: PollerId, e: Event)
    requires OnePollerInv(w, p) && StepOfOnePoller(e, p)
    ensures OnePollerInv(Apply(w, e), p)
  {
    OnePollerClaimsFresh(w, p, e);
    FreshStepKeepsBudget(w, e);
    StepKeepsSnapshot(w, p, e);
    KeysAreIssued(w, e);
    hide Apply, SnapshotFresh, BudgetInv;
  }

  lemma KeysAreIssued(w: World, e: Event)
    requires w.jobs.Keys <= w.issued
    ensures Apply(w, e).jobs.Keys <= Apply(w, e).issued
  {
  }

  lemma {:induction false} RunKeepsBudget(w: World, p: PollerId, es: seq<Event>)
    requires OnePollerInv(w, p) && OnePoller(es, p)
    ensures OnePollerInv(Run(w, es), p) && FreshRun(w, es)
    decreases |es|
  {
    if es != [] {
      hide Apply, OnePollerInv, FreshClaim, StepOfOnePoller;
      OnePollerClaimsFresh(w, p, es[0]);
      StepKeepsBudget(w, p, es[0]);
      RunKeepsBudget(Apply(w, es[0]), p, es[1..]);
    }
  }

  /**
   With any number of pollers, as long as no winning claim is stale: every job has
   run at most `max(max_attempts, 1)` times since it was enqueued or requeued, and
   its `attempts` column counts exactly its failed runs since then.
   */
  lemma FreshClaimsStayWithinBudget(es: seq<Event>, id: JobId)
    requires FreshRun(INITIAL, es) && id in Run(INITIAL, es).jobs
    ensures var w := Run(INITIAL, es);
            && Tally(w.started, id) <= Max(w.jobs[id].maxAttempts, 1)
            && w.jobs[id].attempts == Tally(w.failures, id)
  {
    InitialIsExclusive();
    FreshRunKeepsBudget(INITIAL, es);
    assert WithinBudget(Run(INITIAL, es), id);
  }

  /** One poller never claims stale rows, so with one poller the budget always holds. */
  lemma ExecutionsStayWithinBudget(es: seq<Event>, p: PollerId, id: JobId)
    requires OnePoller(es, p)
    requires id in Run(INITIAL, es).jobs
    ensures var w := Run(INITIAL, es);
            && Tally(w.started, id) <= Max(w.jobs[id].maxAttempts, 1)
            && w.jobs[id].attempts == Tally(w.failures, id)
  {
    InitialIsExclusive();
    RunKeepsBudget(INITIAL, p, es);
    assert WithinBudget(Run(INITIAL, es), id);
  }

  /** What is left of a job's life: retries still allowed, then whether it is running. */
  function Energy(job: Job): int {
    match job.status
    case Pending => 2 * (Budget(job) - job.attempts)
    case Running => 2 * (Budget(job) - job.attempts) - 1
    case Succeeded => 0
    case Failed => 0
  }

  /** Retries end: apart from a requeue, every change to a job's row strictly lowers `Energy >= 0`. */
  lemma RetriesEnd(w: World, p: PollerId, e: Event, id: JobId)
    requires OnePollerInv(w, p)
    requires StepOfOnePoller(e, p)
    requires id in w.jobs && id in Apply(w, e).jobs
    requires Apply(w, e).jobs[id] != w.jobs[id]
    requires !e.Requeue?
    ensures 0 <= Energy(Apply(w, e).jobs[id]) < Energy(w.jobs[id])
  {
    assert WithinBudget(w, id);
    if e.Finish? && e.hold in w.holds {
      HeldRows(w, e.hold);
    }
  }

  // ----------------------------------------------- two pollers exceed the budget

  const MAIL := Job("mail", Pending, 0, 2, 0, None, 0)
  const RETRIED := MAIL.(attempts := 1, lastError := Some("down"))

  /** Both pollers select the row; poller 0 runs it, fails, and schedules the retry. */
  lemma FirstFailure(w: World)
    requires w == Apply(INITIAL, Enqueue(7, "mail", 0, 2, 0))
    ensures var both := Run(w, [Select(1, 1, 10, [JobRecord(7, MAIL)]), Select(0, 1, 10, [JobRecord(7, MAIL)])]);
            both == World(map[7 := MAIL], map[0 := [JobRecord(7, MAIL)], 1 := [JobRecord(7, MAIL)]],
                          map[], 0, map[7 := 0], map[7 := 0], {7})
  {
    var rows := [JobRecord(7, MAIL)];
    assert rows[0] in rows;
    assert IsSelection(w.jobs, 1, 10, rows);
    var one := Apply(w, Select(1, 1, 10, rows));
    assert one.batches == map[1 := rows];
    var two := Apply(one, Select(0, 1, 10, rows));
    assert two.batches == map[0 := rows, 1 := rows];
    assert w.jobs == map[7 := MAIL];
    assert [Select(1, 1, 10, rows), Select(0, 1, 10, rows)][1..] == [Select(0, 1, 10, rows)];
    assert Run(one, [Select(0, 1, 10, rows)]) == two;
  }

  /** Poller `p` claims job 7 from its batch; the handler fails; a retry is due at once. */
  function Attempted(p: PollerId, h: HoldId): seq<Event> {
    [TryClaim(p), Finish(h, HandlerErr("down"), 0)]
  }

  lemma FailedAttempt(w: World, p: PollerId, h: HoldId)
    requires 7 in w.jobs && w.jobs[7].status == Pending && w.jobs[7].maxAttempts == 2
    requires w.jobs[7] == MAIL || w.jobs[7] == RETRIED
    requires Batch(w, p) == [JobRecord(7, MAIL)] && w.nextHold == h
    ensures var v := Run(w, Attempted(p, h));
            && v.jobs == w.jobs[7 := RETRIED] && v.nextHold == h + 1
            && v.batches == w.batches[p := []]
            && Tally(v.started, 7) == Tally(w.started, 7) + 1
  {
    var c := Apply(w, TryClaim(p));
    var f := Apply(c, Finish(h, HandlerErr("down"), 0));
    assert Batch(w, p)[1..] == [];
    assert f.jobs == w.jobs[7 := RETRIED];
    assert Attempted(p, h)[1..] == [Finish(h, HandlerErr("down"), 0)];
    assert Run(c, Attempted(p, h)[1..]) == f;
  }

  lemma {:induction false} RunAppend(w: World, a: seq<Event>, b: seq<Event>)
    ensures Run(w, a + b) == Run(Run(w, a), b)
    decreases |a|
  {
    if a == [] {
      assert a + b == b;
    } else {
      assert (a + b)[1..] == a[1..] + b;
      RunAppend(Apply(w, a[0]), a[1..], b);
    }
  }

  /**
   With two pollers the budget does not hold: a row selected by both, failed and
   retried under the first, is claimed by the second with the `attempts` of its
   stale snapshot. Here a job with `max_attempts = 2` is started a third time.
   */
  lemma TwoPollersCanExceedTheBudget() returns (es: seq<Event>)
    ensures forall i, j :: 0 <= i < j < |es| && es[i].Enqueue? ==> !es[j].Enqueue?
    ensures var w := Run(INITIAL, es);
            7 in w.jobs && w.jobs[7].maxAttempts == 2 && Tally(w.started, 7) == 3
  {
    hide Run, Apply;
    var enqueue := [Enqueue(7, "mail", 0, 2, 0)];
    var selects := [Select(1, 1, 10, [JobRecord(7, MAIL)]), Select(0, 1, 10, [JobRecord(7, MAIL)])];
    var again := [Select(0, 1, 10, [JobRecord(7, RETRIED)]), TryClaim(0)];
    var w0 := Apply(INITIAL, enqueue[0]);
    RunOneEvent(INITIAL, enqueue[0]);
    FirstFailure(w0);
    var w1 := Run(w0, selects);
    FailedAttempt(w1, 0, 0);
    var w2 := Run(w1, Attempted(0, 0));
    FailedAttempt(w2, 1, 1);
    var w3 := Run(w2, Attempted(1, 1));
    ThirdStart(w3);
    RunAppend(INITIAL, enqueue, selects);
    RunAppend(INITIAL, enqueue + selects, Attempted(0, 0));
    RunAppend(INITIAL, enqueue + selects + Attempted(0, 0), Attempted(1, 1));
    RunAppend(INITIAL, enqueue + selects + Attempted(0, 0) + Attempted(1, 1), again);
    es := enqueue + selects + Attempted(0, 0) + Attempted(1, 1) + again;
  }

  lemma RunOneEvent(w: World, e: Event)
    ensures Run(w, [e]) == Apply(w, e)
  {
    assert [e][1..] == [];
  }

  lemma ThirdStart(w: World)
    requires w.jobs == map[7 := RETRIED] && Batch(w, 0) == []
    ensures var v := Run(w, [Select(0, 1, 10, [JobRecord(7, RETRIED)]), TryClaim(0)]);
            7 in v.jobs && v.jobs[7].maxAttempts == 2 && Tally(v.started, 7) == Tally(w.started, 7) + 1
  {
    var rows := [JobRecord(7, RETRIED)];
    assert rows[0] in rows;
    assert IsSelection(w.jobs, 1, 10, rows);
    var s := Apply(w, Select(0, 1, 10, rows));
    var c := Apply(s, TryClaim(0));
    assert [Select(0, 1, 10, rows), TryClaim(0)][1..] == [TryClaim(0)];
    assert Run(s, [TryClaim(0)]) == c;
  }

  // ------------------------------------------------------------------ the table

  /**
   The table and the batch after the first `n` single claims, when `rivals[k]` is
   what all other clients do to the table right before claim `k`.
   */
  function Batched(t: Jobs, rows: seq<JobRecord>, rivals: seq<Jobs -> Jobs>, n: nat): (Jobs, seq<JobRecord>)
    requires n <= |rows| == |rivals|
  {
    if n == 0 then (t, [])
    else
      var (before, batch) := Batched(t, rows, rivals, n - 1);
      var row := rows[n - 1];
      var (after, won) := Claimed(rivals[n - 1](before), row.id);
      (after, if won then batch + [Started(row)] else batch)
  }

  /** A selected record as `claim_batch` returns it. */
  function Started(row: JobRecord): JobRecord {
    JobRecord(row.id, row.job.(status := Running))
  }

  /** The table that claim `k` finds. */
  function FoundBy(t: Jobs, rows: seq<JobRecord>, rivals: seq<Jobs -> Jobs>, k: nat): Jobs
    requires k < |rows| == |rivals|
  {
    rivals[k](Batched(t, rows, rivals, k).0)
  }

  /**
   Whatever the rivals do, a selected record is in the batch exactly when its row
   is pending at its own claim, and a claim changes no other row.
   */
  lemma {:induction false} BatchHoldsWhatWasPending(
    t: Jobs, rows: seq<JobRecord>, rivals: seq<Jobs -> Jobs>, n: nat, k: nat)
    requires k < n <= |rows| == |rivals| && Distinct(rows)
    ensures var found := FoundBy(t, rows, rivals, k);
            && (Started(rows[k]) in Batched(t, rows, rivals, n).1
                <==> rows[k].id in found && found[rows[k].id].status == Pending)
            && (forall id :: id != rows[k].id ==>
                  (id in Batched(t, rows, rivals, k + 1).0 <==> id in found)
                  && (id in found ==> Batched(t, rows, rivals, k + 1).0[id] == found[id]))
  {
    if k < n - 1 {
      BatchHoldsWhatWasPending(t, rows, rivals, n - 1, k);
    } else {
      BatchIsOfEarlierRows(t, rows, rivals, k, rows[k].id);
    }
  }

  lemma {:induction false} BatchIsOfEarlierRows(
    t: Jobs, rows: seq<JobRecord>, rivals: seq<Jobs -> Jobs>, n: nat, id: JobId)
    requires n <= |rows| == |rivals| && forall i :: 0 <= i < n ==> rows[i].id != id
    ensures forall r :: r in Batched(t, rows, rivals, n).1 ==> r.id != id
  {
    if n > 0 { BatchIsOfEarlierRows(t, rows, rivals, n - 1, id); }
  }

  predicate Named(rows: seq<JobRecord>, id: JobId) {
    exists k :: 0 <= k < |rows| && rows[k].id == id
  }

  /** `t` with the rows named in `rows` moved to `running`, and nothing else changed. */
  function AllRunning(t: Jobs, rows: seq<JobRecord>): Jobs {
    map id | id in t :: if Named(rows, id) then t[id].(status := Running) else t[id]
  }

  lemma RunsOneMore(t: Jobs, rows: seq<JobRecord>, n: nat)
    requires n < |rows| && Distinct(rows)
    requires rows[n].id in t && t[rows[n].id].status == Pending
    ensures Claimed(AllRunning(t, rows[..n]), rows[n].id) == (AllRunning(t, rows[..n + 1]), true)
  {
    var more := rows[..n + 1];
    assert !Named(rows[..n], rows[n].id) && more[n] == rows[n];
    forall id ensures Named(more, id) <==> Named(rows[..n], id) || id == rows[n].id {
      if k :| 0 <= k < n && rows[..n][k].id == id {
        assert more[k].id == id;
      }
    }
    var row := t[rows[n].id].(status := Running);
    assert AllRunning(t, more) == AllRunning(t, rows[..n])[rows[n].id := row];
  }

  function AllStarted(rows: seq<JobRecord>): seq<JobRecord> {
    if rows == [] then [] else AllStarted(rows[..|rows| - 1]) + [Started(rows[|rows| - 1])]
  }

  /** Left alone by everybody, a poller claims every row it selected, and only those. */
  lemma {:induction false} QuietBatchClaimsAll(
    t: Jobs, now: int, limit: nat, rows: seq<JobRecord>, rivals: seq<Jobs -> Jobs>, n: nat)
    requires n <= |rows| == |rivals| && IsSelection(t, now, limit, rows)
    requires forall k, u :: 0 <= k < |rivals| ==> rivals[k](u) == u
    ensures Batched(t, rows, rivals, n) == (AllRunning(t, rows[..n]), AllStarted(rows[..n]))
  {
    hide AllRunning, Claimed, IsSelection, Started;
    if n == 0 {
      NoneRunning(t, rows[..0]);
    } else {
      QuietBatchClaimsAll(t, now, limit, rows, rivals, n - 1);
      Selected(t, now, limit, rows, n - 1);
      RunsOneMore(t, rows, n - 1);
      assert rows[..n][..n - 1] == rows[..n - 1];
      assert rivals[n - 1](AllRunning(t, rows[..n - 1])) == AllRunning(t, rows[..n - 1]);
    }
  }

  lemma NoneRunning(t: Jobs, rows: seq<JobRecord>)
    requires rows == []
    ensures AllRunning(t, rows) == t
  {
  }

  lemma Selected(t: Jobs, now: int, limit: nat, rows: seq<JobRecord>, k: nat)
    requires IsSelection(t, now, limit, rows) && k < |rows|
    ensures Distinct(rows) && rows[k].id in t && t[rows[k].id].status == Pending && t[rows[k].id] == rows[k].job
  {
    assert rows[k] in rows;
  }

  class JobTable {
    var jobs: Jobs

    constructor ()
      ensures jobs == map[]
    {
      jobs := map[];
    }

    method Enqueue(id: JobId, payload: string, runAt: int, maxAttempts: nat, now: int)
      returns (res: Result<(), DbError>)
      modifies this
      ensures res.Err? <==> id in old(jobs)
      ensures jobs == if res.Ok? then old(jobs)[id := NewJob(payload, runAt, maxAttempts, now)] else old(jobs)
    {
      if id in jobs {
        return Err(UniqueViolation);
      }
      jobs := jobs[id := NewJob(payload, runAt, maxAttempts, now)];
      return Ok(());
    }

    /** The claim statement for one row. */
    method Claim(id: JobId) returns (won: bool)
      modifies this
      ensures (jobs, won) == Claimed(old(jobs), id)
    {
      won := id in jobs && jobs[id].status == Pending;
      if won {
        jobs := jobs[id := jobs[id].(status := Running)];
      }
    }

    /**
     `candidates` is what the SELECT answered; before claim `k` other clients turn
     the table into whatever `rivals[k]` makes of it.
     */
    method ClaimBatch(now: int, limit: nat, candidates: seq<JobRecord>, rivals: seq<Jobs -> Jobs>)
      returns (claimed: seq<JobRecord>)
      requires IsSelection(jobs, now, limit, candidates) && |rivals| == |candidates|
      modifies this
      ensures (jobs, claimed) == Batched(old(jobs), candidates, rivals, |candidates|)
    {
      hide IsSelection;
      claimed := [];
      for i := 0 to |candidates|
        invariant (jobs, claimed) == Batched(old(jobs), candidates, rivals, i)
      {
        jobs := rivals[i](jobs);
        var row := candidates[i];
        var won := Claim(row.id);
        if won {
          claimed := claimed + [JobRecord(row.id, row.job.(status := Running))];
        }
      }
    }

    method MarkSucceeded(id: JobId)
      modifies this
      ensures jobs == MarkedSucceeded(old(jobs), id)
    {
      if id in jobs {
        jobs := jobs[id := jobs[id].(status := Succeeded)];
      }
    }

    method MarkRetry(id: JobId, attempts: nat, runAt: int, error: string)
      modifies this
      ensures jobs == MarkedRetry(old(jobs), id, attempts, runAt, error)
    {
      if id in jobs {
        jobs := jobs[id := jobs[id].(status := Pending, attempts := attempts, runAt := runAt,
                                     lastError := Some(error))];
      }
    }

    method MarkDead(id: JobId, attempts: nat, error: string)
      modifies this
      ensures jobs == MarkedDead(old(jobs), id, attempts, error)
    {
      if id in jobs {
        jobs := jobs[id := jobs[id].(status := Failed, attempts := attempts, lastError := Some(error))];
      }
    }

    /** The worker's end of a job, choosing between success, retry and dead letter. */
    method Settle(record: JobRecord, outcome: Outcome, retryAt: int)
      modifies this
      ensures jobs == RunOne(old(jobs), record, outcome, retryAt)
    {
      match outcome {
        case HandlerOk => MarkSucceeded(record.id);
        case HandlerErr(error) =>
          var next := record.job.attempts + 1;
          if next >= record.job.maxAttempts {
            MarkDead(record.id, next, error);
          } else {
            MarkRetry(record.id, next, retryAt, error);
          }
        case NoHandler => MarkDead(record.id, record.job.attempts, "no handler registered");
      }
    }

    method Requeue(id: JobId, now: int) returns (done: bool)
      modifies this
      ensures (jobs, done) == Requeued(old(jobs), id, now)
    {
      done := id in jobs && jobs[id].status == Failed;
      if done {
        jobs := jobs[id := jobs[id].(status := Pending, runAt := now, attempts := 0, lastError := None)];
      }
    }

    method Delete(id: JobId) returns (done: bool)
      modifies this
      ensures (jobs, done) == Deleted(old(jobs), id)
    {
      done := id in jobs && jobs[id].status != Running;
      if done {
        jobs := jobs - {id};
      }
    }
  }
}
