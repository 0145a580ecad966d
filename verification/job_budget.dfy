/**
 When the retry budget of the job queue holds, for any number of pollers: a claim
 keeps it exactly when the claimed snapshot is not behind the runs the job has had.
 */
module JobBudget {
  import opened Prelude
  import opened JobRepo

  // ------------------------------------------------------- claims that are not behind

  /** A row's runs since it was enqueued or requeued never pass its budget. */
  ghost predicate WithinRuns(w: World, id: JobId)
    requires id in w.jobs
  {
    var job, runs := w.jobs[id], Tally(w.started, id);
    if job.status == Pending then runs <= job.attempts < Budget(job) else runs <= Budget(job)
  }

  /** A holder's record accounts for every run but the one under way. */
  ghost predicate HoldsCover(w: World) {
    forall h :: h in w.holds ==> Tally(w.started, w.holds[h].record.id) <= w.holds[h].record.job.attempts + 1
  }

  /** Records, selected or held, name rows that were enqueued, with their `max_attempts`. */
  ghost predicate RecordKnown(w: World, r: JobRecord) {
    r.id in w.issued && (r.id in w.jobs ==> w.jobs[r.id].maxAttempts == r.job.maxAttempts)
  }

  ghost predicate RecordsKnown(w: World) {
    && w.jobs.Keys <= w.issued
    && (forall p, r :: p in w.batches && r in w.batches[p] ==> RecordKnown(w, r))
    && (forall h :: h in w.holds ==> RecordKnown(w, w.holds[h].record))
  }

  ghost predicate Safe(w: World) {
    && Exclusive(w)
    && RecordsKnown(w)
    && HoldsCover(w)
    && forall id :: id in w.jobs ==> WithinRuns(w, id)
  }

  /** The snapshot poller `p` is about to claim with counts at least the runs the job has had. */
  predicate NotBehind(w: World, p: PollerId) {
    ClaimWins(w, p) ==> Tally(w.started, Batch(w, p)[0].id) <= Batch(w, p)[0].job.attempts
  }

  /** Every winning claim of the run is made with such a snapshot. */
  ghost predicate GuardedRun(w: World, es: seq<Event>)
    decreases |es|
  {
    es == [] || ((es[0].TryClaim? ==> NotBehind(w, es[0].poller)) && GuardedRun(Apply(w, es[0]), es[1..]))
  }

  lemma KnownStep(w: World, e: Event)
    requires RecordsKnown(w)
    ensures RecordsKnown(Apply(w, e))
  {
    var w' := Apply(w, e);
    if e.TryClaim? && Batch(w, e.poller) != [] {
      forall r | r in Batch(w, e.poller)[1..] ensures r in Batch(w, e.poller) {}
      assert Batch(w, e.poller)[0] in Batch(w, e.poller);
      assert RecordKnown(w, Batch(w, e.poller)[0]);
    }
    forall r | RecordKnown(w, r) ensures RecordKnown(w', r) {
      RecordStaysKnown(w, e, r);
    }
    hide RecordKnown, IsSelection;
    SelectedKnown(w, e);
  }

  lemma RecordStaysKnown(w: World, e: Event, r: JobRecord)
    requires RecordKnown(w, r)
    ensures RecordKnown(Apply(w, e), r)
  {
    hide IsSelection;
  }

  lemma SelectedKnown(w: World, e: Event)
    requires w.jobs.Keys <= w.issued
    ensures Apply(w, e).jobs.Keys <= Apply(w, e).issued
    ensures e.Select? && IsSelection(w.jobs, e.now, e.limit, e.rows) ==>
              forall r :: r in e.rows ==> RecordKnown(Apply(w, e), r)
  {
  }

  /** A hold that stays covers its job's runs, which go on only under it. */
  lemma HoldStaysCovered(w: World, e: Event, h: HoldId)
    requires Exclusive(w) && h in w.holds && h in Apply(w, e).holds
    ensures Apply(w, e).holds[h] == w.holds[h]
    ensures Tally(Apply(w, e).started, w.holds[h].record.id) <= Tally(w.started, w.holds[h].record.id)
  {
    hide IsSelection;
    HeldRows(w, h);
    hide Exclusive;
  }

  lemma NewHoldCovers(w: World, e: Event, h: HoldId)
    requires (e.TryClaim? ==> NotBehind(w, e.poller)) && h !in w.holds && h in Apply(w, e).holds
    ensures Tally(Apply(w, e).started, Apply(w, e).holds[h].record.id) <= Apply(w, e).holds[h].record.job.attempts + 1
  {
    hide IsSelection;
  }

  lemma CoverStep(w: World, e: Event)
    requires Safe(w) && (e.TryClaim? ==> NotBehind(w, e.poller))
    ensures HoldsCover(Apply(w, e))
  {
    hide Apply, RecordsKnown, WithinRuns, Exclusive;
    var w' := Apply(w, e);
    forall h | h in w'.holds
      ensures Tally(w'.started, w'.holds[h].record.id) <= w'.holds[h].record.job.attempts + 1
    {
      if h in w.holds {
        HoldStaysCovered(w, e, h);
      } else {
        NewHoldCovers(w, e, h);
      }
    }
  }

  lemma FinishKeepsRuns(w: World, e: Event, id: JobId)
    requires id in w.jobs && WithinRuns(w, id) && HoldsCover(w) && e.Finish? && e.hold in w.holds
    requires RecordKnown(w, w.holds[e.hold].record) && IsRunning(w, w.holds[e.hold].record.id)
    ensures id in Apply(w, e).jobs && WithinRuns(Apply(w, e), id)
  {
  }

  lemma OthersKeepRuns(w: World, e: Event, id: JobId)
    requires !e.Finish? && (e.TryClaim? ==> NotBehind(w, e.poller)) && id in Apply(w, e).jobs
    requires id in w.jobs ==> WithinRuns(w, id)
    ensures WithinRuns(Apply(w, e), id)
  {
    hide IsSelection;
  }

  lemma RunsStep(w: World, e: Event, id: JobId)
    requires Safe(w) && (e.TryClaim? ==> NotBehind(w, e.poller)) && id in Apply(w, e).jobs
    ensures WithinRuns(Apply(w, e), id)
  {
    hide IsSelection, WithinRuns, Exclusive, HoldsCover, RecordKnown;
    if !e.Finish? {
      OthersKeepRuns(w, e, id);
    } else if e.hold in w.holds {
      HeldRows(w, e.hold);
      FinishKeepsRuns(w, e, id);
    }
  }

  lemma SafeStep(w: World, e: Event)
    requires Safe(w) && (e.TryClaim? ==> NotBehind(w, e.poller))
    ensures Safe(Apply(w, e))
  {
    StepIsExclusive(w, e);
    KnownStep(w, e);
    CoverStep(w, e);
    forall id | id in Apply(w, e).jobs ensures WithinRuns(Apply(w, e), id) {
      RunsStep(w, e, id);
    }
    hide Apply, Exclusive, RecordsKnown, HoldsCover, WithinRuns;
  }

  lemma {:induction false} SafeRun(w: World, es: seq<Event>)
    requires Safe(w) && GuardedRun(w, es)
    ensures Safe(Run(w, es))
    decreases |es|
  {
    if es != [] {
      hide Safe, Apply, NotBehind;
      SafeStep(w, es[0]);
      SafeRun(Apply(w, es[0]), es[1..]);
    }
  }

  lemma InitialIsSafe()
    ensures Safe(INITIAL)
  {
    InitialIsExclusive();
  }

  /**
   With any number of pollers, in every run whose winning claims are not behind,
   every job runs at most `max(max_attempts, 1)` times per enqueue or requeue.
   */
  lemma GuardedRunsStayWithinBudget(es: seq<Event>, id: JobId)
    requires GuardedRun(INITIAL, es) && id in Run(INITIAL, es).jobs
    ensures Tally(Run(INITIAL, es).started, id) <= Budget(Run(INITIAL, es).jobs[id])
  {
    InitialIsSafe();
    SafeRun(INITIAL, es);
    assert WithinRuns(Run(INITIAL, es), id);
  }

  /** A snapshot whose `attempts` are at least the row's is never behind: the check the columns allow. */
  lemma CurrentSnapshotsAreNotBehind(w: World, p: PollerId)
    requires Safe(w) && ClaimWins(w, p)
    requires Batch(w, p)[0].job.attempts >= w.jobs[Batch(w, p)[0].id].attempts
    ensures NotBehind(w, p)
  {
    assert WithinRuns(w, Batch(w, p)[0].id);
  }

  lemma {:induction false} FreshRunsAreGuarded(w: World, es: seq<Event>)
    requires Safe(w) && FreshRun(w, es)
    ensures GuardedRun(w, es)
    decreases |es|
  {
    if es != [] {
      if es[0].TryClaim? && ClaimWins(w, es[0].poller) { CurrentSnapshotsAreNotBehind(w, es[0].poller); }
      hide Safe, Apply;
      SafeStep(w, es[0]);
      FreshRunsAreGuarded(Apply(w, es[0]), es[1..]);
    }
  }

  // -------------------------------------------------------------- runs to the end

  lemma {:induction false} FreshAppend(w: World, a: seq<Event>, b: seq<Event>)
    requires FreshRun(w, a) && FreshRun(Run(w, a), b)
    ensures FreshRun(w, a + b) && Run(w, a + b) == Run(Run(w, a), b)
    decreases |a|
  {
    hide Apply, FreshClaim;
    if a == [] {
      assert a + b == b;
    } else {
      assert (a + b)[1..] == a[1..] + b && (a + b)[0] == a[0];
      FreshAppend(Apply(w, a[0]), a[1..], b);
    }
  }

  lemma {:induction false} FreePoller(ps: set<PollerId>) returns (q: PollerId)
    ensures forall p :: p in ps ==> p < q
    decreases ps
  {
    if ps == {} {
      q := 0;
    } else {
      var p :| p in ps;
      var r := FreePoller(ps - {p});
      q := if r <= p then p + 1 else r;
      forall p' | p' in ps ensures p' < q {
        if p' != p { assert p' in ps - {p}; }
      }
    }
  }

  /** The latest of some rows. */
  lemma {:induction false} Latest(t: Jobs, ids: set<JobId>) returns (last: JobId)
    requires ids != {} && ids <= t.Keys
    ensures last in ids && forall id :: id in ids ==> t[id].runAt <= t[last].runAt
    decreases ids
  {
    last :| last in ids;
    if ids != {last} {
      var other := Latest(t, ids - {last});
      if t[other].runAt > t[last].runAt { last := other; }
    }
  }

  /** These rows in `run_at` order. */
  lemma {:induction false} InOrder(t: Jobs, ids: set<JobId>) returns (rows: seq<JobRecord>)
    requires ids <= t.Keys
    ensures |rows| == |ids| && Distinct(rows)
    ensures forall r :: r in rows ==> r.id in ids && r.job == t[r.id]
    ensures forall id :: id in ids ==> JobRecord(id, t[id]) in rows
    ensures forall i, j :: 0 <= i < j < |rows| ==> rows[i].job.runAt <= rows[j].job.runAt
    decreases ids
  {
    if ids == {} {
      rows := [];
    } else {
      var last := Latest(t, ids);
      var before := InOrder(t, ids - {last});
      rows := before + [JobRecord(last, t[last])];
      forall i | 0 <= i < |before| ensures before[i].id != last && before[i].job.runAt <= t[last].runAt {
        assert before[i] in before;
      }
    }
  }

  /** A poller can select every due row at once. */
  lemma SelectAllDue(t: Jobs, now: int) returns (rows: seq<JobRecord>)
    ensures IsSelection(t, now, |rows|, rows)
    ensures forall id :: Due(t, id, now) ==> JobRecord(id, t[id]) in rows
  {
    rows := InOrder(t, set id | id in t && Due(t, id, now));
  }

  /** Poller `q`'s batch agrees with the table. */
  ghost predicate Current(w: World, q: PollerId) {
    Distinct(Batch(w, q)) && forall r :: r in Batch(w, q) ==> r.id in w.jobs && w.jobs[r.id] == r.job
  }

  lemma ClaimNext(w: World, q: PollerId)
    requires Current(w, q) && Batch(w, q) != []
    ensures FreshRun(w, [TryClaim(q)])
    ensures var w', row := Run(w, [TryClaim(q)]), Batch(w, q)[0];
            && Current(w', q) && Batch(w', q) == Batch(w, q)[1..]
            && (forall r :: r in Batch(w, q)[1..] ==>
                  (r.id in w'.jobs && w'.jobs[r.id] == w.jobs[r.id]
                   && Tally(w'.started, r.id) == Tally(w.started, r.id)))
  {
    var w', batch := Apply(w, TryClaim(q)), Batch(w, q);
    assert [TryClaim(q)][1..] == [];
    assert batch[0] in batch;
    assert Batch(w', q) == batch[1..];
    forall r | r in batch[1..] ensures r in batch && r.id != batch[0].id {}
  }

  /** Job `id` is running under the newest hold, from a record of the row it was in `w`. */
  ghost predicate JustClaimed(w: World, w': World, id: JobId)
    requires id in w.jobs
  {
    && id in w'.jobs && w'.jobs[id] == w.jobs[id].(status := Running)
    && w'.nextHold > 0 && w'.nextHold - 1 in w'.holds
    && w'.holds[w'.nextHold - 1].record == JobRecord(id, w.jobs[id].(status := Running))
    && Tally(w'.started, id) == Tally(w.started, id) + 1
  }

  lemma ClaimThis(w: World, q: PollerId, id: JobId)
    requires id in w.jobs && w.jobs[id].status == Pending
    requires Batch(w, q) != [] && Batch(w, q)[0] == JobRecord(id, w.jobs[id])
    ensures FreshRun(w, [TryClaim(q)]) && JustClaimed(w, Run(w, [TryClaim(q)]), id)
  {
    assert [TryClaim(q)][1..] == [];
  }

  /** The poller works through its batch up to `id`. */
  lemma {:induction false} ReachClaim(w: World, q: PollerId, id: JobId) returns (es: seq<Event>)
    requires Current(w, q) && id in w.jobs && w.jobs[id].status == Pending
    requires JobRecord(id, w.jobs[id]) in Batch(w, q)
    ensures FreshRun(w, es) && JustClaimed(w, Run(w, es), id)
    decreases |Batch(w, q)|
  {
    hide Apply, FreshRun, Run, IsSelection, Current, Batch;
    var batch := Batch(w, q);
    es := [TryClaim(q)];
    if batch[0] == JobRecord(id, w.jobs[id]) {
      ClaimThis(w, q, id);
    } else {
      ClaimNext(w, q);
      assert JobRecord(id, w.jobs[id]) in batch[1..];
      var rest := ReachClaim(Run(w, es), q, id);
      FreshAppend(w, es, rest);
      es := es + rest;
    }
  }

  lemma SelectFor(w: World, id: JobId) returns (q: PollerId, select: Event)
    requires id in w.jobs && w.jobs[id].status == Pending
    ensures FreshRun(w, [select])
    ensures var w' := Run(w, [select]);
            && w'.jobs == w.jobs && w'.started == w.started
            && Current(w', q) && JobRecord(id, w.jobs[id]) in Batch(w', q)
  {
    q := FreePoller(w.batches.Keys);
    var now := w.jobs[id].runAt;
    var rows := SelectAllDue(w.jobs, now);
    select := Select(q, now, |rows|, rows);
    assert Batch(w, q) == [] && Due(w.jobs, id, now);
    assert [select][1..] == [];
    assert Run(w, [select]) == w.(batches := w.batches[q := rows]);
  }

  lemma FailLast(w: World, w': World, id: JobId, at: int) returns (finish: Event)
    requires id in w.jobs && JustClaimed(w, w', id)
    ensures FreshRun(w', [finish])
    ensures var w'' := Run(w', [finish]);
            && id in w''.jobs && w''.started == w'.started
            && w''.jobs[id].attempts == w.jobs[id].attempts + 1
            && w''.jobs[id].maxAttempts == w.jobs[id].maxAttempts
            && (w.jobs[id].attempts + 1 < w.jobs[id].maxAttempts ==> w''.jobs[id].status == Pending)
  {
    finish := Finish(w'.nextHold - 1, HandlerErr("down"), at);
    assert [finish][1..] == [];
  }

  /** A pending job runs once more, on a fresh claim, and fails. */
  lemma OneMoreFailure(w: World, id: JobId, at: int) returns (es: seq<Event>)
    requires id in w.jobs && w.jobs[id].status == Pending
    ensures FreshRun(w, es)
    ensures var w' := Run(w, es);
            && id in w'.jobs && Tally(w'.started, id) == Tally(w.started, id) + 1
            && w'.jobs[id].attempts == w.jobs[id].attempts + 1
            && w'.jobs[id].maxAttempts == w.jobs[id].maxAttempts
            && (w.jobs[id].attempts + 1 < w.jobs[id].maxAttempts ==> w'.jobs[id].status == Pending)
  {
    hide Apply, FreshRun, Run, Current, Batch;
    var q, select := SelectFor(w, id);
    var w1 := Run(w, [select]);
    var claims := ReachClaim(w1, q, id);
    FreshAppend(w, [select], claims);
    var w2 := Run(w1, claims);
    var finish := FailLast(w1, w2, id, at);
    FreshAppend(w, [select] + claims, [finish]);
    es := [select] + claims + [finish];
  }

  /** A pending job can go on failing, on fresh claims only, until its retries are used up. */
  lemma {:induction false} FailToTheEnd(w: World, id: JobId, at: int) returns (es: seq<Event>)
    requires id in w.jobs && w.jobs[id].status == Pending && w.jobs[id].attempts < w.jobs[id].maxAttempts
    ensures FreshRun(w, es)
    ensures var w' := Run(w, es);
            && id in w'.jobs && w'.jobs[id].maxAttempts == w.jobs[id].maxAttempts
            && Tally(w'.started, id) == Tally(w.started, id) + w.jobs[id].maxAttempts - w.jobs[id].attempts
    decreases w.jobs[id].maxAttempts - w.jobs[id].attempts
  {
    hide Apply, FreshRun, Run;
    es := OneMoreFailure(w, id, at);
    var w' := Run(w, es);
    if w'.jobs[id].attempts < w'.jobs[id].maxAttempts {
      var rest := FailToTheEnd(w', id, at);
      FreshAppend(w, es, rest);
      es := es + rest;
    }
  }

  // ------------------------------------------------------------- the exact condition

  /** A claim that is behind can be continued, by fresh claims only, past the budget. */
  lemma BehindClaimsExceedTheBudget(w: World, p: PollerId, at: int) returns (es: seq<Event>)
    requires Safe(w) && ClaimWins(w, p) && !NotBehind(w, p)
    ensures var id, w1 := Batch(w, p)[0].id, Apply(w, TryClaim(p));
            && FreshRun(w1, es) && id in Run(w1, es).jobs
            && Tally(Run(w1, es).started, id) > Budget(Run(w1, es).jobs[id])
  {
    var row := Batch(w, p)[0];
    var id, w1 := row.id, Apply(w, TryClaim(p));
    assert WithinRuns(w, id);
    assert row in w.batches[p] && RecordKnown(w, row);
    var finish := Finish(w.nextHold, HandlerErr("down"), at);
    var w2 := Run(w1, [finish]);
    RunOneEvent(w1, finish);
    assert FreshRun(w1, [finish]);
    assert w2.jobs[id].status == Pending && w2.jobs[id].attempts == row.job.attempts + 1;
    hide Apply, Run, FreshRun, Safe;
    var rest := FailToTheEnd(w2, id, at);
    FreshAppend(w1, [finish], rest);
    es := [finish] + rest;
  }

  /** The claimed job stays within its budget however the run goes on, as long as later claims are fresh. */
  ghost predicate BudgetSurvives(w: World, id: JobId) {
    forall es :: FreshRun(w, es) && id in Run(w, es).jobs ==> Tally(Run(w, es).started, id) <= Budget(Run(w, es).jobs[id])
  }

  /**
   The exact condition, at every winning claim: the budget survives it if and only
   if the snapshot counts at least the runs the job has had.
   */
  lemma ClaimKeepsBudgetExactlyWhenNotBehind(w: World, p: PollerId)
    requires Safe(w) && ClaimWins(w, p)
    ensures BudgetSurvives(Apply(w, TryClaim(p)), Batch(w, p)[0].id) <==> NotBehind(w, p)
  {
    var id, w1 := Batch(w, p)[0].id, Apply(w, TryClaim(p));
    hide Apply, Run, FreshRun, NotBehind;
    if NotBehind(w, p) {
      SafeStep(w, TryClaim(p));
      forall es | FreshRun(w1, es) && id in Run(w1, es).jobs
        ensures Tally(Run(w1, es).started, id) <= Budget(Run(w1, es).jobs[id])
      {
        FreshRunsAreGuarded(w1, es);
        SafeRun(w1, es);
        assert WithinRuns(Run(w1, es), id);
      }
    } else {
      var es := BehindClaimsExceedTheBudget(w, p, 0);
    }
  }

  /**
   In a run of fresh claims so far the table itself tells: the budget survives a
   claim if and only if the snapshot's `attempts` are not below the row's.
   */
  lemma ClaimKeepsBudgetExactlyWhenCurrent(es: seq<Event>, p: PollerId)
    requires FreshRun(INITIAL, es) && ClaimWins(Run(INITIAL, es), p)
    ensures var w := Run(INITIAL, es);
            BudgetSurvives(Apply(w, TryClaim(p)), Batch(w, p)[0].id)
            <==> Batch(w, p)[0].job.attempts >= w.jobs[Batch(w, p)[0].id].attempts
  {
    InitialIsSafe();
    FreshRunsAreGuarded(INITIAL, es);
    SafeRun(INITIAL, es);
    FreshRunKeepsBudget(INITIAL, es);
    var w := Run(INITIAL, es);
    ClaimKeepsBudgetExactlyWhenNotBehind(w, p);
    assert WithinBudget(w, Batch(w, p)[0].id);
    hide Apply, Run, FreshRun, BudgetSurvives, Exclusive;
  }

  // ------------------------------------------------------------ counting the failures

  /** Every row's `attempts` are its failed runs since it was enqueued or requeued. */
  ghost predicate CountsFailures(w: World) {
    forall id :: id in w.jobs ==> w.jobs[id].attempts == Tally(w.failures, id)
  }

  ghost predicate AlwaysCountsFailures(w: World, es: seq<Event>)
    decreases |es|
  {
    CountsFailures(w) && (es == [] || AlwaysCountsFailures(Apply(w, es[0]), es[1..]))
  }

  /** A job claimed with other `attempts` than its row's ends without success. */
  predicate StaleFailure(w: World, e: Event) {
    && e.Finish? && !e.outcome.HandlerOk? && e.hold in w.holds
    && var record := w.holds[e.hold].record;
       record.id in w.jobs && record.job.attempts != w.jobs[record.id].attempts
  }

  ghost predicate NoStaleFailure(w: World, es: seq<Event>)
    decreases |es|
  {
    es == [] || (!StaleFailure(w, es[0]) && NoStaleFailure(Apply(w, es[0]), es[1..]))
  }

  lemma CountStep(w: World, e: Event)
    requires Exclusive(w) && CountsFailures(w)
    ensures CountsFailures(Apply(w, e)) <==> !StaleFailure(w, e)
  {
    hide IsSelection;
    if e.Finish? && e.hold in w.holds { HeldRows(w, e.hold); }
    hide Exclusive;
    if StaleFailure(w, e) {
      assert Apply(w, e).jobs[w.holds[e.hold].record.id].attempts
          != Tally(Apply(w, e).failures, w.holds[e.hold].record.id);
    }
  }

  lemma {:induction false} CountsExactlyWithoutStaleFailures(w: World, es: seq<Event>)
    requires Exclusive(w) && CountsFailures(w)
    ensures AlwaysCountsFailures(w, es) <==> NoStaleFailure(w, es)
    decreases |es|
  {
    if es != [] {
      hide Apply, StaleFailure, Exclusive, CountsFailures;
      CountStep(w, es[0]);
      StepIsExclusive(w, es[0]);
      if !StaleFailure(w, es[0]) {
        CountsExactlyWithoutStaleFailures(Apply(w, es[0]), es[1..]);
      } else {
        NotCountingNow(Apply(w, es[0]), es[1..]);
      }
    }
  }

  lemma NotCountingNow(w: World, es: seq<Event>)
    requires !CountsFailures(w)
    ensures !AlwaysCountsFailures(w, es)
  {
  }

  /**
   For any number of pollers: throughout a run the `attempts` column counts the
   failed runs of every job if and only if no job that was claimed with stale
   `attempts` ends in a failure or without a handler.
   */
  lemma AttemptsCountFailuresExactly(es: seq<Event>)
    ensures AlwaysCountsFailures(INITIAL, es) <==> NoStaleFailure(INITIAL, es)
  {
    InitialIsExclusive();
    CountsExactlyWithoutStaleFailures(INITIAL, es);
  }
}
