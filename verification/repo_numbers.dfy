/**
 The allocator of pull-request and issue numbers: one counter row per
 repository, advanced by a bounded compare-and-swap loop. Each SQL statement is
 one atomic step; calls of `next_number` interleave between statements.
 */
module RepoNumberRepo {
  import opened Prelude

  const MAX_ATTEMPTS: nat := 10

  type RepositoryId = string
  type CallId = nat
  type Counters = map<RepositoryId, nat>

  datatype NextNumberError = Contended(attempts: nat) | RowNotFound

  // ---------------------------------------------------------------- statements

  /** `INSERT .. (repository_id, 1) ON CONFLICT DO NOTHING`. */
  function RowEnsured(t: Counters, r: RepositoryId): Counters {
    if r in t then t else t[r := 1]
  }

  /** `SELECT next_number ..`; a missing row is an error of `fetch_one`. */
  function Current(t: Counters, r: RepositoryId): Option<nat> {
    if r in t then Some(t[r]) else None
  }

  /** `UPDATE .. SET next_number = expected + 1 WHERE .. next_number = expected`. */
  function Swapped(t: Counters, r: RepositoryId, expected: nat): (Counters, bool) {
    if r in t && t[r] == expected then (t[r := expected + 1], true) else (t, false)
  }

  // ------------------------------------------------------- interleaved machine

  datatype Consumer = Issue | PullRequest

  /** Where one call of `next_number` stands: its next statement, or its result. */
  datatype Call =
    | Ensuring(repo: RepositoryId, consumer: Consumer)
    | Reading(repo: RepositoryId, consumer: Consumer, attempt: nat)
    | Swapping(repo: RepositoryId, consumer: Consumer, attempt: nat, current: nat)
    | Returned(repo: RepositoryId, consumer: Consumer, number: nat)
    | GaveUp(repo: RepositoryId, consumer: Consumer, error: NextNumberError)

  datatype World = World(counters: Counters, calls: map<CallId, Call>)

  /** A new call starts, or an existing call executes its next statement. */
  datatype Event = Begin(id: CallId, repo: RepositoryId, consumer: Consumer) | Turn(id: CallId)

  const INITIAL := World(map[], map[])

  /** One call's next statement against the shared table. */
  function Step(t: Counters, call: Call): (Counters, Call) {
    match call
    case Ensuring(r, k) => (RowEnsured(t, r), Reading(r, k, 0))
    case Reading(r, k, attempt) =>
      (match Current(t, r)
       case Some(n) => (t, Swapping(r, k, attempt, n))
       case None => (t, GaveUp(r, k, RowNotFound)))
    case Swapping(r, k, attempt, current) =>
      var (t', won) := Swapped(t, r, current);
      if won then (t', Returned(r, k, current))
      else if attempt + 1 < MAX_ATTEMPTS then (t', Reading(r, k, attempt + 1))
      else (t', GaveUp(r, k, Contended(MAX_ATTEMPTS)))
    case Returned(_, _, _) => (t, call)
    case GaveUp(_, _, _) => (t, call)
  }

  function Apply(w: World, e: Event): World {
    match e
    case Begin(c, r, k) => if c in w.calls then w else w.(calls := w.calls[c := Ensuring(r, k)])
    case Turn(c) =>
      if c !in w.calls then w
      else
        var (t', call') := Step(w.counters, w.calls[c]);
        World(t', w.calls[c := call'])
  }

  /** The world after a whole schedule; every interleaving is some `es`. */
  function Run(es: seq<Event>): World {
    if es == [] then INITIAL else Apply(Run(es[..|es| - 1]), es[|es| - 1])
  }

  /** Call `c` was handed number `n` of repository `r`. */
  ghost predicate Got(w: World, c: CallId, r: RepositoryId, n: nat) {
    c in w.calls && w.calls[c].Returned? && w.calls[c].repo == r && w.calls[c].number == n
  }

  ghost predicate Assigned(w: World, r: RepositoryId, n: nat) {
    exists c :: Got(w, c, r, n)
  }

  ghost function Winners(w: World, r: RepositoryId): set<CallId> {
    set c | c in w.calls && w.calls[c].Returned? && w.calls[c].repo == r
  }

  function Count(w: World, r: RepositoryId): nat {
    if r in w.counters then w.counters[r] else 1
  }

  // -------------------------------------------------------- uniqueness theorem

  ghost predicate CallInv(w: World, c: CallId)
    requires c in w.calls
  {
    var call := w.calls[c];
    && (!call.Ensuring? ==> call.repo in w.counters)
    && (call.Reading? ==> call.attempt < MAX_ATTEMPTS)
    && (call.Swapping? ==> call.attempt < MAX_ATTEMPTS && 1 <= call.current <= Count(w, call.repo))
    && (call.Returned? ==> 1 <= call.number < Count(w, call.repo))
    && (call.GaveUp? ==> call.error == Contended(MAX_ATTEMPTS))
  }

  /** What holds of one repository: its numbers are `1 .. counter - 1`, each held once. */
  ghost predicate RepoInv(w: World, r: RepositoryId) {
    && Count(w, r) >= 1
    && (forall n: nat, c, d :: Got(w, c, r, n) && Got(w, d, r, n) ==> c == d)
    && (forall n: nat :: 1 <= n < Count(w, r) ==> Assigned(w, r, n))
    && |Winners(w, r)| == Count(w, r) - 1
  }

  ghost predicate Inv(w: World) {
    && (forall c :: c in w.calls ==> CallInv(w, c))
    && (forall r :: RepoInv(w, r))
  }

  /** Event `e` is a successful compare-and-swap on the counter of `r`. */
  ghost predicate WinsOn(w: World, e: Event, r: RepositoryId) {
    && e.Turn? && e.id in w.calls && w.calls[e.id].Swapping? && w.calls[e.id].repo == r
    && r in w.counters && w.counters[r] == w.calls[e.id].current
  }

  lemma WinningStep(w: World, e: Event, r: RepositoryId)
    requires WinsOn(w, e, r)
    ensures var n, w' := w.calls[e.id].current, Apply(w, e);
            && Count(w, r) == n && Count(w', r) == n + 1
            && Winners(w', r) == Winners(w, r) + {e.id} && e.id !in Winners(w, r)
            && (forall m: nat, d :: Got(w', d, r, m) <==> Got(w, d, r, m) || (d == e.id && m == n))
  {
  }

  lemma OtherStep(w: World, e: Event, r: RepositoryId)
    requires !WinsOn(w, e, r)
    ensures var w' := Apply(w, e);
            && Count(w', r) == Count(w, r) && Winners(w', r) == Winners(w, r)
            && (forall m: nat, d :: Got(w', d, r, m) <==> Got(w, d, r, m))
  {
  }

  lemma StepKeepsRepo(w: World, e: Event, r: RepositoryId)
    requires forall c :: c in w.calls ==> CallInv(w, c)
    requires RepoInv(w, r)
    ensures RepoInv(Apply(w, e), r)
  {
    var w' := Apply(w, e);
    if WinsOn(w, e, r) {
      WinningStep(w, e, r);
      forall m: nat, d | Got(w, d, r, m) ensures m < w.calls[e.id].current {
        assert CallInv(w, d);
      }
      assert Got(w', e.id, r, w.calls[e.id].current);
      forall m: nat | 1 <= m < Count(w', r) ensures Assigned(w', r, m) {
        assert m < Count(w, r) ==> Assigned(w, r, m);
      }
    } else {
      OtherStep(w, e, r);
      forall m: nat | 1 <= m < Count(w', r) ensures Assigned(w', r, m) {
        assert Assigned(w, r, m);
      }
    }
  }

  lemma StepKeepsInv(w: World, e: Event)
    requires Inv(w)
    ensures Inv(Apply(w, e))
  {
    var w' := Apply(w, e);
    forall r ensures RepoInv(w', r) { StepKeepsRepo(w, e, r); }
    forall d | d in w'.calls ensures CallInv(w', d) {
      if d in w.calls { assert CallInv(w, d); }
      if e.id in w.calls {
        assert CallInv(w, e.id);
        assert RepoInv(w, w.calls[e.id].repo);
      }
    }
  }

  lemma {:induction false} RunInv(es: seq<Event>)
    ensures Inv(Run(es))
  {
    if es == [] {
      forall r ensures RepoInv(INITIAL, r) {
        assert Winners(INITIAL, r) == {};
      }
    } else {
      RunInv(es[..|es| - 1]);
      StepKeepsInv(Run(es[..|es| - 1]), es[|es| - 1]);
    }
  }

  /**
   In every schedule the numbers handed out for `r` are exactly
   `1 .. counter - 1`, each to exactly one call.
   */
  lemma NumbersAreExactlyOneToCounter(es: seq<Event>, r: RepositoryId, n: nat)
    ensures Assigned(Run(es), r, n) <==> 1 <= n < Count(Run(es), r)
    ensures forall c, d :: Got(Run(es), c, r, n) && Got(Run(es), d, r, n) ==> c == d
    ensures |Winners(Run(es), r)| == Count(Run(es), r) - 1
  {
    RunInv(es);
    assert RepoInv(Run(es), r);
    forall c | Got(Run(es), c, r, n) ensures 1 <= n < Count(Run(es), r) {
      assert CallInv(Run(es), c);
    }
  }

  /** Calls that commit each statement: an issue and a pull request never get the same number. */
  lemma IssueAndPullRequestNumbersDiffer(es: seq<Event>, i: CallId, p: CallId)
    requires i in Run(es).calls && Run(es).calls[i].Returned? && Run(es).calls[i].consumer == Issue
    requires p in Run(es).calls && Run(es).calls[p].Returned? && Run(es).calls[p].consumer == PullRequest
    requires Run(es).calls[i].repo == Run(es).calls[p].repo
    ensures Run(es).calls[i].number != Run(es).calls[p].number
  {
    var w := Run(es);
    RunInv(es);
    assert RepoInv(w, w.calls[i].repo);
    if w.calls[i].number == w.calls[p].number {
      assert Got(w, i, w.calls[i].repo, w.calls[i].number);
      assert Got(w, p, w.calls[i].repo, w.calls[i].number);
    }
  }

  // ------------------------------------------------ repositories do not interact

  /** The schedule with every event of calls that never name `r` removed. */
  ghost function Restrict(es: seq<Event>, ids: set<CallId>): seq<Event> {
    if es == [] then []
    else Restrict(es[..|es| - 1], ids) + (if es[|es| - 1].id in ids then [es[|es| - 1]] else [])
  }

  /** Every `Begin` of a call in `ids` names `r`, of a call outside `ids` another repository. */
  ghost predicate Separates(es: seq<Event>, ids: set<CallId>, r: RepositoryId) {
    forall i :: 0 <= i < |es| && es[i].Begin? ==> (es[i].id in ids <==> es[i].repo == r)
  }

  /** `w` and `v` show the same counter for `r` and the same calls in `ids`, all of them on `r`. */
  ghost predicate Agree(w: World, v: World, ids: set<CallId>, r: RepositoryId) {
    && Current(w.counters, r) == Current(v.counters, r)
    && (forall c :: c in ids ==> (c in w.calls <==> c in v.calls))
    && (forall c :: c in ids && c in w.calls ==> w.calls[c] == v.calls[c] && w.calls[c].repo == r)
    && (forall c :: c in w.calls && c !in ids ==> w.calls[c].repo != r)
  }

  lemma StepAgrees(w: World, v: World, e: Event, ids: set<CallId>, r: RepositoryId)
    requires Agree(w, v, ids, r)
    requires e.Begin? ==> (e.id in ids <==> e.repo == r)
    ensures Agree(Apply(w, e), if e.id in ids then Apply(v, e) else v, ids, r)
  {
  }

  /**
   Erasing all calls on other repositories from a schedule changes neither the
   counter of `r` nor the state of any call on `r`.
   */
  lemma {:induction false} RepositoriesAreIndependent(es: seq<Event>, ids: set<CallId>, r: RepositoryId)
    requires Separates(es, ids, r)
    ensures Agree(Run(es), Run(Restrict(es, ids)), ids, r)
  {
    if es != [] {
      var p, e := es[..|es| - 1], es[|es| - 1];
      RepositoriesAreIndependent(p, ids, r);
      StepAgrees(Run(p), Run(Restrict(p, ids)), e, ids, r);
      var q := Restrict(es, ids);
      if e.id in ids {
        assert q[..|q| - 1] == Restrict(p, ids) && q[|q| - 1] == e;
      } else {
        assert q == Restrict(p, ids);
      }
    }
  }

  // ------------------------------------------------------------ overtake bound

  /** Event `i` is the first read of call `c`. */
  ghost predicate FirstRead(es: seq<Event>, c: CallId, i: nat) {
    && i < |es| && es[i] == Turn(c)
    && c in Run(es[..i]).calls && Run(es[..i]).calls[c].Reading? && Run(es[..i]).calls[c].attempt == 0
  }

  /** Event `i` is the last compare-and-swap call `c` is allowed. */
  ghost predicate LastSwap(es: seq<Event>, c: CallId, i: nat) {
    && i < |es| && es[i] == Turn(c)
    && c in Run(es[..i]).calls && Run(es[..i]).calls[c].Swapping?
    && Run(es[..i]).calls[c].attempt == MAX_ATTEMPTS - 1
  }

  /** How far the counter must have moved since the first read, by position of the call. */
  function MustHaveMoved(call: Call): nat {
    match call
    case Reading(_, _, k) => k
    case Swapping(_, _, k, _) => k
    case GaveUp(_, _, _) => MAX_ATTEMPTS
    case _ => 0
  }

  ghost predicate PastFirstRead(call: Call) {
    (call.Reading? && call.attempt > 0) || call.Swapping? || call.GaveUp?
  }

  lemma StepGrows(w: World, e: Event, r: RepositoryId)
    ensures Count(w, r) <= Count(Apply(w, e), r)
    ensures Winners(w, r) <= Winners(Apply(w, e), r)
  {
  }

  lemma CallFacts(es: seq<Event>, c: CallId)
    requires c in Run(es).calls
    ensures CallInv(Run(es), c)
  {
    RunInv(es);
  }

  lemma {:induction false} RunGrows(es: seq<Event>, i: nat, j: nat, r: RepositoryId)
    requires i <= j <= |es|
    ensures Count(Run(es[..i]), r) <= Count(Run(es[..j]), r)
    ensures Winners(Run(es[..i]), r) <= Winners(Run(es[..j]), r)
    decreases j
  {
    if i < j {
      assert es[..j][..j - 1] == es[..j - 1];
      RunGrows(es, i, j - 1, r);
      StepGrows(Run(es[..j - 1]), es[j - 1], r);
    }
  }

  lemma NonEmptyRun(es: seq<Event>, c: CallId)
    requires c in Run(es).calls
    ensures es != []
  {
  }

  /** How the last event of a run made call `c` what it is. */
  lemma LastStep(es: seq<Event>, c: CallId)
    requires es != [] && c in Run(es).calls
    ensures var w, e := Run(es[..|es| - 1]), es[|es| - 1];
            && Run(es) == Apply(w, e)
            && (c !in w.calls ==> Run(es).calls[c].Ensuring?)
            && (c in w.calls && e == Turn(c) ==> (Run(es).counters, Run(es).calls[c]) == Step(w.counters, w.calls[c]))
            && (c in w.calls && e != Turn(c) ==> Run(es).calls[c] == w.calls[c])
  {
    hide Step;
  }

  /** The accounting behind the overtake bound, by induction on the schedule. */
  lemma {:induction false} Overtaken(es: seq<Event>, c: CallId) returns (first: nat, last: nat)
    requires c in Run(es).calls && PastFirstRead(Run(es).calls[c])
    ensures FirstRead(es, c, first)
    ensures var call, base := Run(es).calls[c], Count(Run(es[..first]), Run(es).calls[c].repo);
            && Run(es[..first]).calls[c].repo == call.repo
            && base + MustHaveMoved(call) <= Count(Run(es), call.repo)
            && (call.Swapping? ==> base + call.attempt <= call.current)
            && (call.GaveUp? ==> first < last && LastSwap(es, c, last)
                                 && base + MAX_ATTEMPTS <= Count(Run(es[..last]), call.repo))
  {
    var n := |es| - 1;
    NonEmptyRun(es, c);
    var p, e := es[..n], es[n];
    var w := Run(p);
    var call := Run(es).calls[c];
    LastStep(es, c);
    hide Apply, Run;
    StepGrows(w, e, call.repo);
    last := n;
    CallFacts(es, c);
    CallFacts(p, c);
    if e == Turn(c) && w.calls[c].Reading? && w.calls[c].attempt == 0 {
      first := n;
    } else {
      first, last := Overtaken(p, c);
      assert p[..first] == es[..first];
      if w.calls[c].GaveUp? {
        assert p[..last] == es[..last];
      } else {
        last := n;
      }
    }
  }

  lemma WinnersCount(es: seq<Event>, r: RepositoryId)
    ensures |Winners(Run(es), r)| == Count(Run(es), r) - 1
  {
    RunInv(es);
    assert RepoInv(Run(es), r);
  }

  /**
   A call that gives up says so after ten attempts, and at least ten allocations of
   other calls landed on its repository between its first read and its last swap.
   */
  lemma ContendedWasOvertakenTenTimes(es: seq<Event>, c: CallId) returns (first: nat, last: nat)
    requires c in Run(es).calls && Run(es).calls[c].GaveUp?
    ensures FirstRead(es, c, first) && LastSwap(es, c, last) && first < last
    ensures var r := Run(es).calls[c].repo;
            var others := Winners(Run(es[..last]), r) - Winners(Run(es[..first]), r);
            c !in others && |others| >= 10
    ensures Run(es).calls[c].error == Contended(10)
  {
    CallsEnd(es, c);
    first, last := Overtaken(es, c);
    var r := Run(es).calls[c].repo;
    WinnersCount(es[..first], r);
    WinnersCount(es[..last], r);
    RunGrows(es, first, last, r);
    SubsetSize(Winners(Run(es[..first]), r), Winners(Run(es[..last]), r));
  }

  /** Statements call `c` has executed. */
  ghost function Turns(es: seq<Event>, c: CallId): nat {
    if es == [] then 0
    else
      Turns(es[..|es| - 1], c)
      + (if es[|es| - 1] == Turn(c) && c in Run(es[..|es| - 1]).calls then 1 else 0)
  }

  function TurnsLeft(call: Call): nat {
    match call
    case Ensuring(_, _) => 2 * MAX_ATTEMPTS + 1
    case Reading(_, _, k) => if k < MAX_ATTEMPTS then 2 * (MAX_ATTEMPTS - k) else 0
    case Swapping(_, _, k, _) => if k < MAX_ATTEMPTS then 2 * (MAX_ATTEMPTS - k) - 1 else 0
    case _ => 0
  }

  /** Every call ends within 21 statements of its own. */
  lemma {:induction false} CallsEnd(es: seq<Event>, c: CallId)
    ensures c in Run(es).calls ==> TurnsLeft(Run(es).calls[c]) + Turns(es, c) <= 21
                                   || TurnsLeft(Run(es).calls[c]) == 0
    ensures c !in Run(es).calls ==> Turns(es, c) == 0
    ensures c in Run(es).calls ==> CallInv(Run(es), c)
  {
    if es != [] {
      CallsEnd(es[..|es| - 1], c);
      if c in Run(es).calls { CallFacts(es, c); }
    }
  }

  lemma {:induction false} BeginPrecedesFirstRead(es: seq<Event>, b: nat, c: CallId, first: nat)
    requires b < |es| && es[b].Begin? && es[b].id == c && c !in Run(es[..b]).calls
    requires FirstRead(es, c, first)
    ensures b < first
  {
    if first <= b {
      CallsPersist(es, first, b, c);
    }
  }

  lemma {:induction false} CallsPersist(es: seq<Event>, i: nat, j: nat, c: CallId)
    requires i <= j <= |es| && c in Run(es[..i]).calls
    ensures c in Run(es[..j]).calls && Run(es[..j]).calls[c].repo == Run(es[..i]).calls[c].repo
    decreases j
  {
    if i < j {
      assert es[..j][..j - 1] == es[..j - 1];
      CallsPersist(es, i, j - 1, c);
    }
  }

  lemma GivingUpTakesTenRivals(es: seq<Event>, b: nat, c: CallId)
    requires b < |es| && es[b].Begin? && es[b].id == c && c !in Run(es[..b]).calls
    requires c in Run(es).calls && Run(es).calls[c].GaveUp? && Run(es).calls[c].repo == es[b].repo
    ensures |Winners(Run(es), es[b].repo) - Winners(Run(es[..b]), es[b].repo) - {c}| >= MAX_ATTEMPTS
  {
    hide Run, Winners;
    var r := es[b].repo;
    var first, last := ContendedWasOvertakenTenTimes(es, c);
    BeginPrecedesFirstRead(es, b, c, first);
    RunGrows(es, b, first, r);
    assert es[..|es|] == es;
    RunGrows(es, last, |es|, r);
    var seen := Winners(Run(es[..last]), r) - Winners(Run(es[..first]), r);
    SubsetSize(seen, Winners(Run(es), r) - Winners(Run(es[..b]), r) - {c});
  }

  lemma ScheduledEnough(es: seq<Event>, c: CallId)
    requires Turns(es, c) > 2 * MAX_ATTEMPTS
    ensures c in Run(es).calls && (Run(es).calls[c].Returned? || Run(es).calls[c].GaveUp?)
  {
    CallsEnd(es, c);
  }

  lemma BeginFixesRepo(es: seq<Event>, b: nat, c: CallId)
    requires b < |es| && es[b].Begin? && es[b].id == c && c !in Run(es[..b]).calls
    ensures c in Run(es).calls && Run(es).calls[c].repo == es[b].repo
  {
    assert es[..b + 1][..b] == es[..b];
    assert es[..|es|] == es;
    CallsPersist(es, b + 1, |es|, c);
  }

  /**
   The converse reading: a call that began at event `b`, has been scheduled
   often enough to end, and saw fewer than ten other allocations on
   its repository since it began, has returned a number.
   */
  lemma FewRivalsMeansSuccess(es: seq<Event>, b: nat, c: CallId)
    requires b < |es| && es[b].Begin? && es[b].id == c && c !in Run(es[..b]).calls
    requires Turns(es, c) > 20
    requires |Winners(Run(es), es[b].repo) - Winners(Run(es[..b]), es[b].repo) - {c}| < 10
    ensures c in Run(es).calls && Run(es).calls[c].Returned?
  {
    ScheduledEnough(es, c);
    BeginFixesRepo(es, b, c);
    if Run(es).calls[c].GaveUp? {
      GivingUpTakesTenRivals(es, b, c);
    }
  }

  // ------------------------------------------------------------ the retry loop

  /** Rival allocations landing before the `k`-th read, and between it and the `k`-th swap. */
  datatype Rivals = Rivals(beforeRead: nat, beforeSwap: nat)

  function Landed(rivals: seq<Rivals>): nat {
    if rivals == [] then 0
    else Landed(rivals[..|rivals| - 1]) + rivals[|rivals| - 1].beforeRead + rivals[|rivals| - 1].beforeSwap
  }

  /** The first attempt whose read and swap no rival separates, or the length if there is none. */
  lemma SetTwice(t: Counters, r: RepositoryId, m: nat, n: nat)
    ensures t[r := m][r := n] == t[r := n]
  {
  }

  lemma NothingLanded()
    ensures Landed([]) == 0
  {
  }

  lemma LandedOneMore(rivals: seq<Rivals>, k: nat)
    requires k < |rivals|
    ensures Landed(rivals[..k + 1]) == Landed(rivals[..k]) + rivals[k].beforeRead + rivals[k].beforeSwap
  {
    assert rivals[..k + 1][..k] == rivals[..k];
  }

  function FirstQuiet(rivals: seq<Rivals>): (k: nat)
    ensures k <= |rivals|
    ensures forall i :: 0 <= i < k ==> rivals[i].beforeSwap > 0
    ensures k < |rivals| ==> rivals[k].beforeSwap == 0
  {
    if rivals == [] then 0
    else if rivals[0].beforeSwap == 0 then 0
    else 1 + FirstQuiet(rivals[1..])
  }

  class CounterTable {
    var rows: Counters

    constructor ()
      ensures rows == map[]
    {
      rows := map[];
    }

    method EnsureCounterRow(r: RepositoryId)
      modifies this
      ensures rows == RowEnsured(old(rows), r)
    {
      if r !in rows {
        rows := rows[r := 1];
      }
    }

    method ReadCurrent(r: RepositoryId) returns (current: Option<nat>)
      ensures current == Current(rows, r)
    {
      current := if r in rows then Some(rows[r]) else None;
    }

    method TryAdvance(r: RepositoryId, expected: nat) returns (won: bool)
      modifies this
      ensures won <==> r in old(rows) && old(rows)[r] == expected
      ensures won ==> r in rows && rows[r] == old(rows)[r] + 1 && rows.Keys == old(rows).Keys
      ensures forall s :: s != r && s in old(rows) ==> s in rows && rows[s] == old(rows)[s]
      ensures (rows, won) == Swapped(old(rows), r, expected)
    {
      won := r in rows && rows[r] == expected;
      if won {
        rows := rows[r := expected + 1];
      }
    }

    /** `n` rival calls each run to completion undisturbed. */
    method RivalsAllocate(r: RepositoryId, n: nat)
      requires r in rows
      modifies this
      ensures rows == old(rows)[r := old(rows)[r] + n]
    {
      for i := 0 to n
        invariant rows == old(rows)[r := old(rows)[r] + i]
      {
        EnsureCounterRow(r);
        var current := ReadCurrent(r);
        var won := TryAdvance(r, current.value);
      }
    }

    /** One turn of the retry loop, with the rivals that land during it. */
    method Attempt(r: RepositoryId, rivals: Rivals) returns (current: nat, won: bool)
      requires r in rows
      modifies this
      ensures current == old(rows)[r] + rivals.beforeRead
      ensures won <==> rivals.beforeSwap == 0
      ensures rows == old(rows)[r := if won then current + 1 else current + rivals.beforeSwap]
    {
      RivalsAllocate(r, rivals.beforeRead);
      var read := ReadCurrent(r);
      current := read.value;
      RivalsAllocate(r, rivals.beforeSwap);
      won := TryAdvance(r, current);
    }

    /**
     The call returns at its first undisturbed attempt, with the number the
     counter had reached by then, and gives up exactly when every attempt is disturbed.
     */
    method NextNumber(r: RepositoryId, rivals: seq<Rivals>) returns (res: Result<nat, NextNumberError>)
      requires |rivals| == MAX_ATTEMPTS
      modifies this
      ensures var k, start := FirstQuiet(rivals), if r in old(rows) then old(rows)[r] else 1;
              if k < MAX_ATTEMPTS
              then res == Ok(start + Landed(rivals[..k]) + rivals[k].beforeRead)
                   && rows == old(rows)[r := res.value + 1]
              else res == Err(Contended(MAX_ATTEMPTS))
                   && rows == old(rows)[r := start + Landed(rivals)]
    {
      EnsureCounterRow(r);
      ghost var start := rows[r];
      hide FirstQuiet, Landed;
      NothingLanded();
      for k := 0 to MAX_ATTEMPTS
        invariant rows == old(rows)[r := start + Landed(rivals[..k])]
        invariant forall i :: 0 <= i < k ==> rivals[i].beforeSwap > 0
      {
        LandedOneMore(rivals, k);
        ghost var next := start + Landed(rivals[..k]);
        var current, won := Attempt(r, rivals[k]);
        SetTwice(old(rows), r, next, rows[r]);
        if won {
          assert FirstQuiet(rivals) == k;
          return Ok(current);
        }
      }
      assert rivals[..MAX_ATTEMPTS] == rivals;
      return Err(Contended(MAX_ATTEMPTS));
    }
  }
}
