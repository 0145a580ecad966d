/**
 What a job's row says about its past: each column of each row, in every reachable
 state, told from the events of that job alone.
 */
module JobLife {
  import opened Prelude
  import opened JobRepo

  /** What last put the row where it is: its enqueue or requeue, or the end of a run. */
  datatype Chapter =
    | Queued(runAt: int)
    | Ran(attempts: nat, maxAttempts: nat, outcome: Outcome, retryAt: int)

  datatype Story = Unknown | Alive(payload: string, maxAttempts: nat, createdAt: int, last: Chapter) | Gone

  ghost function NextStory(w: World, e: Event, id: JobId, s: Story): Story {
    match e
    case Enqueue(i, payload, runAt, maxAttempts, now) =>
      if i == id && s.Unknown? then Alive(payload, maxAttempts, now, Queued(runAt)) else s
    case Finish(h, outcome, retryAt) =>
      if s.Alive? && Holds(w, h, id)
      then s.(last := Ran(w.holds[h].record.job.attempts, w.holds[h].record.job.maxAttempts, outcome, retryAt))
      else s
    case Requeue(i, now) => if i == id && s.Alive? && IsDead(s.last) then s.(last := Queued(now)) else s
    case Delete(i) => if i == id && s.Alive? && !IsHeld(w, id) then Gone else s
    case Select(_, _, _, _) => s
    case TryClaim(_) => s
  }

  /** The story of job `id` over the run `es` from `w`, which begins with `s`. */
  ghost function StoryOf(w: World, es: seq<Event>, id: JobId, s: Story): Story
    decreases |es|
  {
    if es == [] then s else StoryOf(Apply(w, es[0]), es[1..], id, NextStory(w, es[0], id, s))
  }

  /** The run ended the job for good: no handler, or a failure that used up the budget of its record. */
  predicate IsDead(c: Chapter) {
    c.Ran? && (c.outcome.NoHandler? || (c.outcome.HandlerErr? && c.attempts + 1 >= c.maxAttempts))
  }

  predicate IsDone(c: Chapter) {
    c.Ran? && c.outcome.HandlerOk?
  }

  /** The columns of a row after `c`, whether or not it has been claimed since. */
  predicate Shows(job: Job, c: Chapter) {
    match c
    case Queued(runAt) => job.runAt == runAt && job.attempts == 0 && job.lastError == None
    case Ran(_, _, HandlerOk, _) => true
    case Ran(attempts, _, NoHandler, _) => job.attempts == attempts && job.lastError == Some("no handler registered")
    case Ran(attempts, maxAttempts, HandlerErr(error), retryAt) =>
      && job.attempts == attempts + 1 && job.lastError == Some(error)
      && (attempts + 1 < maxAttempts ==> job.runAt == retryAt)
  }

  ghost predicate Tells(w: World, id: JobId, s: Story) {
    && (s.Unknown? <==> id !in w.issued)
    && (s.Alive? <==> id in w.jobs)
    && (s.Alive? ==>
          var job := w.jobs[id];
          && job.payload == s.payload && job.maxAttempts == s.maxAttempts && job.createdAt == s.createdAt
          && Shows(job, s.last)
          && (IsHeld(w, id) ==> job.status == Running && !IsDead(s.last) && !IsDone(s.last))
          && (!IsHeld(w, id) ==>
                job.status == if IsDone(s.last) then Succeeded else if IsDead(s.last) then Failed else Pending))
  }

  lemma ClaimTells(w: World, p: PollerId, id: JobId, s: Story)
    requires Exclusive(w) && Tells(w, id, s) && Batch(w, p) != []
    ensures Tells(Apply(w, TryClaim(p)), id, s)
  {
    var w', row := Apply(w, TryClaim(p)), Batch(w, p)[0];
    if Claimed(w.jobs, row.id).1 {
      assert forall h, j :: Holds(w', h, j) <==> (Holds(w, h, j) && h != w.nextHold) || (h == w.nextHold && j == row.id);
      assert Holds(w', w.nextHold, row.id);
      HeldAgain(w, w', id, id != row.id);
    } else {
      assert forall h, j :: Holds(w', h, j) <==> Holds(w, h, j);
      HeldAgain(w, w', id, true);
    }
  }

  lemma HeldAgain(w: World, w': World, id: JobId, same: bool)
    requires same ==> forall h :: Holds(w', h, id) <==> Holds(w, h, id)
    ensures same ==> (IsHeld(w', id) <==> IsHeld(w, id))
  {
    if same {
      if h :| Holds(w, h, id) { assert Holds(w', h, id); }
    }
  }

  lemma FinishTells(w: World, e: Event, id: JobId, s: Story)
    requires Exclusive(w) && Tells(w, id, s) && e.Finish? && e.hold in w.holds
    ensures Tells(Apply(w, e), id, NextStory(w, e, id, s))
  {
    var w', h := Apply(w, e), e.hold;
    assert Holds(w, h, w.holds[h].record.id);
    HeldRows(w, h);
    assert forall g, j :: Holds(w', g, j) <==> Holds(w, g, j) && g != h;
    if Holds(w, h, id) {
      assert IsHeld(w, id) && !IsHeld(w', id);
    } else {
      HeldAgain(w, w', id, true);
    }
  }

  lemma HoldsStay(w: World, e: Event, id: JobId)
    requires !e.Finish? && !e.TryClaim?
    ensures Apply(w, e).holds == w.holds && (IsHeld(Apply(w, e), id) <==> IsHeld(w, id))
  {
    hide IsSelection;
    HeldAgain(w, Apply(w, e), id, true);
  }

  lemma AdminsTell(w: World, e: Event, id: JobId, s: Story)
    requires Exclusive(w) && Tells(w, id, s) && (e.Requeue? || e.Delete?)
    ensures Tells(Apply(w, e), id, NextStory(w, e, id, s))
  {
    HoldsStay(w, e, id);
    assert IsRunning(w, id) <==> IsHeld(w, id);
    hide IsHeld, Holds, Exclusive;
  }

  lemma OthersTell(w: World, e: Event, id: JobId, s: Story)
    requires Tells(w, id, s) && w.jobs.Keys <= w.issued && (e.Enqueue? || e.Select?)
    requires e.Enqueue? && e.id == id && id !in w.issued ==> !IsHeld(w, id)
    ensures Tells(Apply(w, e), id, NextStory(w, e, id, s))
  {
    HoldsStay(w, e, id);
    hide IsHeld, Holds, IsSelection;
  }

  lemma RunningIsHeld(w: World, id: JobId)
    requires Exclusive(w)
    ensures IsHeld(w, id) ==> id in w.jobs
  {
    assert IsRunning(w, id) <==> IsHeld(w, id);
  }

  lemma StepTells(w: World, e: Event, id: JobId, s: Story)
    requires Exclusive(w) && Tells(w, id, s) && w.jobs.Keys <= w.issued
    ensures Tells(Apply(w, e), id, NextStory(w, e, id, s))
  {
    hide Exclusive, Tells;
    if e.TryClaim? {
      if Batch(w, e.poller) != [] { ClaimTells(w, e.poller, id, s); }
    } else if e.Finish? {
      if e.hold in w.holds { FinishTells(w, e, id, s); }
    } else if e.Requeue? || e.Delete? {
      AdminsTell(w, e, id, s);
    } else {
      RunningIsHeld(w, id);
      OthersTell(w, e, id, s);
    }
  }

  lemma {:induction false} RunTells(w: World, es: seq<Event>, id: JobId, s: Story)
    requires Exclusive(w) && Tells(w, id, s) && w.jobs.Keys <= w.issued
    ensures Tells(Run(w, es), id, StoryOf(w, es, id, s)) && Exclusive(Run(w, es))
    decreases |es|
  {
    if es != [] {
      StepIsExclusive(w, es[0]);
      StepTells(w, es[0], id, s);
      KeysAreIssued(w, es[0]);
      hide Apply, Exclusive, Tells, NextStory;
      RunTells(Apply(w, es[0]), es[1..], id, NextStory(w, es[0], id, s));
    }
  }

  /**
   For any pollers, workers, enqueuers and admins, in any order: a row has succeeded
   exactly when its last run ended well, and is a dead letter exactly when that run had
   no handler or failed with the budget of its record used up; a row is gone exactly
   when it was deleted; nothing ever changes what was enqueued.
   */
  lemma RowTellsItsStory(es: seq<Event>, id: JobId)
    ensures var w, s := Run(INITIAL, es), StoryOf(INITIAL, es, id, Unknown);
            && (id in w.jobs <==> s.Alive?)
            && (s.Alive? ==>
                  var job, last := w.jobs[id], s.last;
                  && job.payload == s.payload && job.maxAttempts == s.maxAttempts && job.createdAt == s.createdAt
                  && (job.status == Running <==> IsHeld(w, id))
                  && (job.status == Succeeded <==> last.Ran? && last.outcome == HandlerOk)
                  && (job.status == Failed <==>
                        last.Ran? && (last.outcome == NoHandler
                        || (last.outcome.HandlerErr? && last.attempts + 1 >= last.maxAttempts))))
  {
    InitialIsExclusive();
    RunTells(INITIAL, es, id, Unknown);
    hide Run, StoryOf, Exclusive;
  }

  /**
   A row that failed with budget left carries the error and one attempt more than the
   record its worker was handed, and no poller selects it before its retry time; a row
   never run since its enqueue or requeue is fresh and not selected before its time.
   */
  lemma RetriesWait(es: seq<Event>, id: JobId, now: int, limit: nat, rows: seq<JobRecord>)
    requires id in Run(INITIAL, es).jobs && IsSelection(Run(INITIAL, es).jobs, now, limit, rows)
    ensures var job, s := Run(INITIAL, es).jobs[id], StoryOf(INITIAL, es, id, Unknown);
            && s.Alive?
            && (s.last.Queued? ==>
                  && job.attempts == 0 && job.lastError == None && job.runAt == s.last.runAt
                  && (now < s.last.runAt ==> forall r :: r in rows ==> r.id != id))
            && (s.last.Ran? && s.last.outcome.HandlerErr? ==>
                  && job.attempts == s.last.attempts + 1 && job.lastError == Some(s.last.outcome.error)
                  && (s.last.attempts + 1 < s.last.maxAttempts ==>
                        && job.runAt == s.last.retryAt
                        && (now < s.last.retryAt ==> forall r :: r in rows ==> r.id != id)))
  {
    InitialIsExclusive();
    RunTells(INITIAL, es, id, Unknown);
    hide Run, StoryOf, Exclusive;
  }

  /**
   A selection lists at most `limit` rows, each as it is and once; all are pending and
   their time has come, and with room left every such row is listed.
   */
  lemma SelectionListsExactly(t: Jobs, now: int, limit: nat, rows: seq<JobRecord>, id: JobId)
    requires IsSelection(t, now, limit, rows)
    ensures |rows| <= limit && forall i, j :: 0 <= i < j < |rows| ==> rows[i].id != rows[j].id
    ensures (exists r :: r in rows && r.id == id) ==> id in t && t[id].status == Pending && t[id].runAt <= now
    ensures id in t && t[id].status == Pending && t[id].runAt <= now && |rows| < limit ==> exists r :: r in rows && r.id == id
    ensures forall r :: r in rows && r.id == id ==> r.job == t[id]
  {
    assert Due(t, id, now) <==> id in t && t[id].status == Pending && t[id].runAt <= now;
    if Due(t, id, now) && |rows| < limit {
      assert !forall r :: r in rows ==> r.id != id;
    }
  }

  /** A full selection leaves out no row that was due before one it lists. */
  lemma SelectionsAreOldestFirst(t: Jobs, now: int, limit: nat, rows: seq<JobRecord>, id: JobId, r: JobRecord)
    requires IsSelection(t, now, limit, rows) && r in rows
    requires id in t && t[id].status == Pending && t[id].runAt < t[r.id].runAt
    ensures exists q :: q in rows && q.id == id
  {
    if !exists q :: q in rows && q.id == id {
      assert forall q :: q in rows ==> q.id != id;
      assert Due(t, id, now);
    }
  }
}
