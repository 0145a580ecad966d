/**
 Allocation inside transactions, as opening an issue or a pull request does it: the
 number is drawn and the row inserted in one transaction. A statement that writes a
 counter row locks it until its transaction ends; a rollback takes the number back.
 */
module RepoNumberTx {
  import opened Prelude
  import opened RepoNumberRepo

  /** The version of a counter row that an open transaction has written. */
  datatype Draft = Draft(owner: CallId, next: nat)

  /** A transaction around one allocation, and what became of it. */
  datatype Tx = Open(call: Call) | Committed(call: Call) | Aborted

  datatype Db = Db(committed: Counters, drafts: map<RepositoryId, Draft>, txs: map<CallId, Tx>)

  const EMPTY := Db(map[], map[], map[])

  datatype TxEvent =
    | BeginTx(id: CallId, repo: RepositoryId, consumer: Consumer)
    | Statement(id: CallId)
    | Commit(id: CallId)
    | Abort(id: CallId)

  predicate Owns(db: Db, c: CallId, r: RepositoryId) {
    r in db.drafts && db.drafts[r].owner == c
  }

  /** Another transaction has written the row and not ended. */
  predicate LockedFor(db: Db, c: CallId, r: RepositoryId) {
    r in db.drafts && db.drafts[r].owner != c
  }

  /** What `c` reads: its own version of the row, else the committed one. */
  function View(db: Db, c: CallId, r: RepositoryId): Option<nat> {
    if Owns(db, c, r) then Some(db.drafts[r].next) else Current(db.committed, r)
  }

  function Drafted(db: Db, c: CallId, r: RepositoryId, next: nat, call: Call): Db {
    db.(drafts := db.drafts[r := Draft(c, next)], txs := db.txs[c := Open(call)])
  }

  /** The next statement of an open transaction; one that meets a lock waits. */
  function Executed(db: Db, c: CallId, call: Call): Db {
    match call
    case Ensuring(r, k) =>
      if View(db, c, r).Some? then db.(txs := db.txs[c := Open(Reading(r, k, 0))])
      else if LockedFor(db, c, r) then db
      else Drafted(db, c, r, 1, Reading(r, k, 0))
    case Reading(r, k, attempt) =>
      (match View(db, c, r)
       case Some(n) => db.(txs := db.txs[c := Open(Swapping(r, k, attempt, n))])
       case None => db.(txs := db.txs[c := Open(GaveUp(r, k, RowNotFound))]))
    case Swapping(r, k, attempt, current) =>
      if LockedFor(db, c, r) then db
      else if View(db, c, r) == Some(current) then Drafted(db, c, r, current + 1, Returned(r, k, current))
      else if attempt + 1 < MAX_ATTEMPTS then db.(txs := db.txs[c := Open(Reading(r, k, attempt + 1))])
      else db.(txs := db.txs[c := Open(GaveUp(r, k, Contended(MAX_ATTEMPTS)))])
    case Returned(_, _, _) => db
    case GaveUp(_, _, _) => db
  }

  function Unlocked(db: Db, c: CallId): map<RepositoryId, Draft> {
    map r | r in db.drafts && db.drafts[r].owner != c :: db.drafts[r]
  }

  /** Only a call that returned a number goes on to its commit; an error drops the transaction. */
  function ApplyTx(db: Db, e: TxEvent): Db {
    match e
    case BeginTx(c, r, k) => if c in db.txs then db else db.(txs := db.txs[c := Open(Ensuring(r, k))])
    case Statement(c) => if c in db.txs && db.txs[c].Open? then Executed(db, c, db.txs[c].call) else db
    case Commit(c) =>
      if c in db.txs && db.txs[c].Open? && db.txs[c].call.Returned? then
        var call := db.txs[c].call;
        var committed := if Owns(db, c, call.repo) then db.committed[call.repo := db.drafts[call.repo].next]
                         else db.committed;
        Db(committed, Unlocked(db, c), db.txs[c := Committed(call)])
      else db
    case Abort(c) =>
      if c in db.txs && db.txs[c].Open? then Db(db.committed, Unlocked(db, c), db.txs[c := Aborted]) else db
  }

  function RunTx(es: seq<TxEvent>): Db {
    if es == [] then EMPTY else ApplyTx(RunTx(es[..|es| - 1]), es[|es| - 1])
  }

  // ------------------------------------------------------------------- invariant

  /** The row of a committed transaction carries number `n` of repository `r`. */
  ghost predicate Carries(db: Db, c: CallId, r: RepositoryId, n: nat) {
    && c in db.txs && db.txs[c].Committed? && db.txs[c].call.Returned?
    && db.txs[c].call.repo == r && db.txs[c].call.number == n
  }

  ghost predicate Carried(db: Db, r: RepositoryId, n: nat) {
    exists c :: Carries(db, c, r, n)
  }

  function Next(db: Db, r: RepositoryId): nat {
    if r in db.committed then db.committed[r] else 1
  }

  /** A draft is an open transaction's: its first version of the row, or the one past its number. */
  ghost predicate DraftInv(db: Db, r: RepositoryId)
    requires r in db.drafts
  {
    var c := db.drafts[r].owner;
    && c in db.txs && db.txs[c].Open? && db.txs[c].call.repo == r && !db.txs[c].call.Ensuring?
    && if db.txs[c].call.Returned? then db.drafts[r].next == Next(db, r) + 1
       else db.drafts[r].next == 1 && r !in db.committed
  }

  /** An open transaction with a number holds the lock, and its number is the next to commit. */
  ghost predicate HolderInv(db: Db, c: CallId)
    requires c in db.txs
  {
    && (db.txs[c].Committed? ==> db.txs[c].call.Returned?)
    && (db.txs[c].Open? && db.txs[c].call.Returned? ==>
          Owns(db, c, db.txs[c].call.repo) && db.txs[c].call.number == Next(db, db.txs[c].call.repo))
  }

  ghost predicate NumbersInv(db: Db, r: RepositoryId) {
    && Next(db, r) >= 1
    && (forall n: nat :: Carried(db, r, n) <==> 1 <= n < Next(db, r))
    && (forall n: nat, c, d :: Carries(db, c, r, n) && Carries(db, d, r, n) ==> c == d)
  }

  ghost predicate TxInv(db: Db) {
    && (forall r :: r in db.drafts ==> DraftInv(db, r))
    && (forall c :: c in db.txs ==> HolderInv(db, c))
    && (forall r :: NumbersInv(db, r))
  }

  lemma CommitNumbers(db: Db, c: CallId, r: RepositoryId)
    requires TxInv(db) && c in db.txs && db.txs[c].Open? && db.txs[c].call.Returned?
    ensures NumbersInv(ApplyTx(db, Commit(c)), r)
  {
    var db', call := ApplyTx(db, Commit(c)), db.txs[c].call;
    assert HolderInv(db, c) && DraftInv(db, call.repo) && NumbersInv(db, r);
    assert forall n: nat, d :: Carries(db', d, r, n)
                               <==> Carries(db, d, r, n) || (d == c && call.repo == r && call.number == n);
    assert Carries(db', c, call.repo, call.number);
    forall n: nat ensures Carried(db', r, n) <==> 1 <= n < Next(db', r) {
      if Carried(db, r, n) {
        var d :| Carries(db, d, r, n);
        assert Carries(db', d, r, n);
      }
    }
    forall n: nat, d, d' | Carries(db', d, r, n) && Carries(db', d', r, n) ensures d == d' {
      assert !Carried(db, call.repo, call.number) ==> !Carries(db, d, call.repo, call.number);
      assert !Carried(db, call.repo, call.number) ==> !Carries(db, d', call.repo, call.number);
    }
  }

  lemma OtherNumbers(db: Db, e: TxEvent, r: RepositoryId)
    requires NumbersInv(db, r)
    requires e.Commit? ==> !(e.id in db.txs && db.txs[e.id].Open? && db.txs[e.id].call.Returned?)
    ensures NumbersInv(ApplyTx(db, e), r)
  {
    var db' := ApplyTx(db, e);
    assert forall n: nat, d :: Carries(db', d, r, n) <==> Carries(db, d, r, n);
    assert forall n: nat :: Carried(db', r, n) <==> Carried(db, r, n);
  }

  lemma StatementKeepsDraft(db: Db, c: CallId, r: RepositoryId)
    requires c in db.txs && db.txs[c].Open? && HolderInv(db, c)
    requires r in db.drafts ==> DraftInv(db, r)
    requires r in Executed(db, c, db.txs[c].call).drafts
    ensures DraftInv(Executed(db, c, db.txs[c].call), r)
  {
    var call := db.txs[c].call;
    if call.repo != r && r in db.drafts {
      assert Executed(db, c, call).drafts[r] == db.drafts[r] && db.drafts[r].owner != c;
    }
  }

  lemma EndingKeepsDraft(db: Db, e: TxEvent, r: RepositoryId)
    requires !e.Statement? && r in ApplyTx(db, e).drafts
    requires r in db.drafts ==> DraftInv(db, r)
    requires e.id in db.txs ==> HolderInv(db, e.id)
    ensures DraftInv(ApplyTx(db, e), r)
  {
    hide Executed;
    assert r in db.drafts && ApplyTx(db, e).drafts[r] == db.drafts[r];
  }

  lemma StepKeepsDrafts(db: Db, e: TxEvent, r: RepositoryId)
    requires TxInv(db) && r in ApplyTx(db, e).drafts
    ensures DraftInv(ApplyTx(db, e), r)
  {
    hide NumbersInv, DraftInv, HolderInv, Executed;
    if !e.Statement? {
      EndingKeepsDraft(db, e, r);
    } else if e.id in db.txs && db.txs[e.id].Open? {
      StatementKeepsDraft(db, e.id, r);
    }
  }

  lemma StatementKeepsHolder(db: Db, c: CallId, d: CallId)
    requires c in db.txs && db.txs[c].Open? && d in db.txs && HolderInv(db, d)
    requires db.txs[c].call.repo in db.drafts ==> DraftInv(db, db.txs[c].call.repo)
    ensures HolderInv(Executed(db, c, db.txs[c].call), d)
  {
  }

  lemma EndingKeepsHolder(db: Db, e: TxEvent, d: CallId)
    requires !e.Statement? && d in ApplyTx(db, e).txs
    requires d in db.txs ==> HolderInv(db, d)
    requires e.id in db.txs ==> HolderInv(db, e.id)
    ensures HolderInv(ApplyTx(db, e), d)
  {
    hide Executed;
  }

  lemma StepKeepsHolders(db: Db, e: TxEvent, c: CallId)
    requires TxInv(db) && c in ApplyTx(db, e).txs
    ensures HolderInv(ApplyTx(db, e), c)
  {
    hide NumbersInv, DraftInv, HolderInv, Executed;
    if !e.Statement? {
      EndingKeepsHolder(db, e, c);
    } else if e.id in db.txs && db.txs[e.id].Open? {
      assert c in db.txs by { OnlyKnown(db, e.id, c); }
      StatementKeepsHolder(db, e.id, c);
    }
  }

  lemma OnlyKnown(db: Db, c: CallId, d: CallId)
    requires c in db.txs && db.txs[c].Open?
    ensures d in Executed(db, c, db.txs[c].call).txs <==> d in db.txs
  {
  }

  lemma StepKeepsTxInv(db: Db, e: TxEvent)
    requires TxInv(db)
    ensures TxInv(ApplyTx(db, e))
  {
    var db' := ApplyTx(db, e);
    forall r | r in db'.drafts ensures DraftInv(db', r) { StepKeepsDrafts(db, e, r); }
    forall c | c in db'.txs ensures HolderInv(db', c) { StepKeepsHolders(db, e, c); }
    forall r ensures NumbersInv(db', r) {
      if e.Commit? && e.id in db.txs && db.txs[e.id].Open? && db.txs[e.id].call.Returned? {
        CommitNumbers(db, e.id, r);
      } else {
        OtherNumbers(db, e, r);
      }
    }
    hide ApplyTx, DraftInv, HolderInv, NumbersInv;
  }

  lemma {:induction false} RunKeepsTxInv(es: seq<TxEvent>)
    ensures TxInv(RunTx(es))
  {
    if es != [] {
      RunKeepsTxInv(es[..|es| - 1]);
      hide TxInv, ApplyTx;
      StepKeepsTxInv(RunTx(es[..|es| - 1]), es[|es| - 1]);
    } else {
      assert forall n: nat, r, c :: !Carries(EMPTY, c, r, n);
    }
  }

  // -------------------------------------------------------------------- theorems

  /**
   With transactions that commit and roll back in any order: the numbers on the
   committed rows of `r` are exactly `1 .. counter - 1`, without gaps, each on one row.
   */
  lemma CommittedNumbersAreExactlyOneToCounter(es: seq<TxEvent>, r: RepositoryId, n: nat)
    ensures Carried(RunTx(es), r, n) <==> 1 <= n < Next(RunTx(es), r)
    ensures forall c, d :: Carries(RunTx(es), c, r, n) && Carries(RunTx(es), d, r, n) ==> c == d
  {
    RunKeepsTxInv(es);
    assert NumbersInv(RunTx(es), r);
  }

  /** No two committed rows, issue or pull request, of one repository carry the same number. */
  lemma CommittedRowsNeverShareANumber(es: seq<TxEvent>, c: CallId, d: CallId)
    requires c != d && c in RunTx(es).txs && d in RunTx(es).txs
    requires RunTx(es).txs[c].Committed? && RunTx(es).txs[d].Committed?
    requires RunTx(es).txs[c].call.repo == RunTx(es).txs[d].call.repo
    ensures RunTx(es).txs[c].call.Returned? && RunTx(es).txs[d].call.Returned?
    ensures RunTx(es).txs[c].call.number != RunTx(es).txs[d].call.number
  {
    var db := RunTx(es);
    RunKeepsTxInv(es);
    assert HolderInv(db, c) && HolderInv(db, d);
    assert NumbersInv(db, db.txs[c].call.repo);
    if db.txs[c].call.number == db.txs[d].call.number {
      assert Carries(db, c, db.txs[c].call.repo, db.txs[c].call.number);
      assert Carries(db, d, db.txs[c].call.repo, db.txs[c].call.number);
    }
  }

  /** What an open transaction was handed is past every committed number, and nobody else's. */
  lemma HeldNumbersAreReserved(es: seq<TxEvent>, c: CallId, d: CallId)
    requires c in RunTx(es).txs && RunTx(es).txs[c].Open? && RunTx(es).txs[c].call.Returned?
    requires c != d && d in RunTx(es).txs && !RunTx(es).txs[d].Aborted? && RunTx(es).txs[d].call.Returned?
    requires RunTx(es).txs[c].call.repo == RunTx(es).txs[d].call.repo
    ensures RunTx(es).txs[d].Committed? && RunTx(es).txs[d].call.number < RunTx(es).txs[c].call.number
  {
    var db, r := RunTx(es), RunTx(es).txs[c].call.repo;
    RunKeepsTxInv(es);
    assert HolderInv(db, c) && HolderInv(db, d) && NumbersInv(db, r);
    if db.txs[d].Committed? {
      assert Carries(db, d, r, db.txs[d].call.number);
      assert Carried(db, r, db.txs[d].call.number);
    }
  }

  /** A rollback hands its number back: the row is unlocked and the number is the next again. */
  lemma RollbackHandsTheNumberBack(es: seq<TxEvent>, c: CallId)
    requires c in RunTx(es).txs && RunTx(es).txs[c].Open? && RunTx(es).txs[c].call.Returned?
    ensures var call, db' := RunTx(es).txs[c].call, ApplyTx(RunTx(es), Abort(c));
            call.repo !in db'.drafts && Next(db', call.repo) == call.number
  {
    RunKeepsTxInv(es);
    assert HolderInv(RunTx(es), c);
  }

  // ------------------------------------------------------------------ no lost rows

  /** Past its first statement an open transaction sees the counter row: committed, or its own. */
  ghost predicate SeesRow(db: Db, c: CallId)
    requires c in db.txs
  {
    db.txs[c].Open? ==>
      var call := db.txs[c].call;
      && (!call.Ensuring? ==> call.repo in db.committed || (call.repo in db.drafts && db.drafts[call.repo].owner == c))
      && (call.GaveUp? ==> call.error == Contended(10))
  }

  lemma StepKeepsRowsInSight(db: Db, e: TxEvent, c: CallId)
    requires c in db.txs ==> SeesRow(db, c)
    requires c in ApplyTx(db, e).txs
    ensures SeesRow(ApplyTx(db, e), c)
  {
    if e.Statement? && e.id in db.txs && db.txs[e.id].Open? && e.id != c {
      hide MAX_ATTEMPTS;
    }
  }

  /** A transaction never misses the counter row: it gives up only after ten lost swaps. */
  lemma {:induction false} TransactionsGiveUpOnlyWhenContended(es: seq<TxEvent>, c: CallId)
    requires c in RunTx(es).txs
    ensures SeesRow(RunTx(es), c)
  {
    if es != [] {
      var before := RunTx(es[..|es| - 1]);
      if c in before.txs { TransactionsGiveUpOnlyWhenContended(es[..|es| - 1], c); }
      StepKeepsRowsInSight(before, es[|es| - 1], c);
    }
  }

  /** Where nobody else holds the row, three statements draw the next number and a commit puts it on a row. */
  lemma UndisturbedTransactionsSucceed(db: Db, c: CallId, r: RepositoryId, k: Consumer)
    requires c in db.txs && db.txs[c] == Open(Ensuring(r, k)) && r !in db.drafts
    ensures var third := ApplyTx(ApplyTx(ApplyTx(db, Statement(c)), Statement(c)), Statement(c));
            var next := if r in db.committed then db.committed[r] else 1;
            && third.txs[c] == Open(Returned(r, k, next))
            && ApplyTx(third, Commit(c)).txs[c] == Committed(Returned(r, k, next))
            && ApplyTx(third, Commit(c)).committed == db.committed[r := next + 1]
            && r !in ApplyTx(third, Commit(c)).drafts
  {
    var next := if r in db.committed then db.committed[r] else 1;
    var first := ApplyTx(db, Statement(c));
    assert first.txs[c] == Open(Reading(r, k, 0)) && View(first, c, r) == Some(next);
    assert r in first.drafts ==> first.drafts[r].owner == c;
    assert first.committed == db.committed;
    var second := ApplyTx(first, Statement(c));
    assert second == first.(txs := first.txs[c := Open(Swapping(r, k, 0, next))]);
    var third := ApplyTx(second, Statement(c));
    assert third == Drafted(second, c, r, next + 1, Returned(r, k, next));
  }
}
