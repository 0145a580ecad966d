/**
 The sign-in throttle: every failure bumps an account-wide counter and, when the
 address is known, one counter for that account and address. From the fifth
 failure on, each failure arms a lock window that doubles up to fifteen minutes.
 */
module LoginThrottle {
  import opened Prelude
  import opened Text

  const LOCK_THRESHOLD := 5
  const BASE_LOCK_SECONDS := 15
  const MAX_LOCK_SECONDS := 900

  datatype Attempt = Attempt(failureCount: int, firstFailedAt: int, lastFailedAt: int, lockedUntil: Option<int>)

  /** The `login_attempts` rows by `attempt_key`. */
  type Table = map<string, Attempt>

  // ------------------------------------------------------------------------ keys

  function Account(lower: string -> string, email: string): string {
    lower(Trim(email))
  }

  function Key(account: string, ip: string): string {
    account + "|" + ip
  }

  function AttemptKey(lower: string -> string, email: string, ip: string): string {
    Key(Account(lower, email), ip)
  }

  /** The account-wide key, then the per-address one when the address is known. */
  function Keys(account: string, ip: string): (ks: seq<string>)
    ensures 1 <= |ks| <= 2
  {
    if ip == "" then [Key(account, "")] else [Key(account, ""), Key(account, ip)]
  }

  /** The part of a key before its last bar. */
  function Owner(key: string): string {
    if key == "" || key[|key| - 1] == '|' then key[..Max(|key| - 1, 0)] else Owner(key[..|key| - 1])
  }

  lemma {:induction false} OwnerOfKey(account: string, ip: string)
    requires '|' !in ip
    ensures Owner(Key(account, ip)) == account
  {
    var k := Key(account, ip);
    if ip == "" {
      assert k[..|k| - 1] == account;
    } else {
      var shorter := ip[..|ip| - 1];
      assert k[..|k| - 1] == Key(account, shorter);
      assert k[|k| - 1] == ip[|ip| - 1] && ip[|ip| - 1] in ip;
      OwnerOfKey(account, shorter);
    }
  }

  /** For addresses without a bar, equal keys mean the same account, up to trimming and case, and address. */
  lemma KeysAreInjective(lower: string -> string, email: string, ip: string, email': string, ip': string)
    requires '|' !in ip && '|' !in ip'
    ensures AttemptKey(lower, email, ip) == AttemptKey(lower, email', ip')
            <==> lower(Trim(email)) == lower(Trim(email')) && ip == ip'
  {
    var a, a' := Account(lower, email), Account(lower, email');
    OwnerOfKey(a, ip);
    OwnerOfKey(a', ip');
    if Key(a, ip) == Key(a', ip') {
      assert Key(a, ip)[|a| + 1..] == ip && Key(a', ip')[|a'| + 1..] == ip';
    }
  }

  // ---------------------------------------------------------------------- windows

  function Pow2(n: nat): (p: nat)
    ensures p >= 1
  {
    if n == 0 then 1 else 2 * Pow2(n - 1)
  }

  /** The lock window armed by a failure that brings the counter to `count`. */
  function Window(count: int): int
    requires count >= LOCK_THRESHOLD
  {
    var steps := Min(Max(count - LOCK_THRESHOLD, 0), 6);
    Min(BASE_LOCK_SECONDS * Pow2(steps), MAX_LOCK_SECONDS)
  }

  lemma {:induction false} Pow2Grows(m: nat, n: nat)
    requires m <= n
    ensures Pow2(m) <= Pow2(n)
    decreases n
  {
    if m < n { Pow2Grows(m, n - 1); }
  }

  lemma SixDoublings()
    ensures Pow2(6) == 64
  {
    assert Pow2(3) == 8;
    assert Pow2(5) == 4 * Pow2(3);
  }

  /** Clamping the shift never changes the window. */
  lemma WindowIsCappedDoubling(count: int)
    requires count >= LOCK_THRESHOLD
    ensures Window(count) == Min(BASE_LOCK_SECONDS * Pow2(count - LOCK_THRESHOLD), MAX_LOCK_SECONDS)
  {
    if count - LOCK_THRESHOLD > 6 {
      SixDoublings();
      Pow2Grows(6, count - LOCK_THRESHOLD);
    }
  }

  /** The time the windows armed by failures `LOCK_THRESHOLD` to `n - 1` add up to. */
  function Held(n: nat): int {
    if n <= LOCK_THRESHOLD then 0 else Held(n - 1) + Window(n - 1)
  }

  lemma HeldUpToEleven()
    ensures Held(11) == 945
  {
    assert Pow2(3) == 8;
    assert Pow2(5) == 32;
    assert Window(5) == 15 && Window(6) == 30 && Window(7) == 60;
    assert Window(8) == 120 && Window(9) == 240 && Window(10) == 480;
    assert Held(5) == 0;
    assert Held(7) == 45;
    assert Held(9) == 225;
  }

  lemma {:induction false} HeldFromEleven(n: nat)
    requires n >= 11
    ensures Held(n) == 945 + 900 * (n - 11)
  {
    if n == 11 {
      HeldUpToEleven();
    } else {
      HeldFromEleven(n - 1);
      SixDoublings();
    }
  }

  // -------------------------------------------------------------- single statements

  function Counted(t: Table, key: string, now: int): Table {
    if key in t
    then t[key := t[key].(failureCount := t[key].failureCount + 1, lastFailedAt := now)]
    else t[key := Attempt(1, now, now, None)]
  }

  function WithLock(t: Table, key: string, until: Option<int>): Table {
    if key in t then t[key := t[key].(lockedUntil := until)] else t
  }

  // ------------------------------------------------------------------- whole calls

  /** The seconds the lock on `key` has left, nothing when there is none. */
  function LockLeft(t: Table, key: string, now: int): int {
    if key in t && t[key].lockedUntil.Some? then t[key].lockedUntil.value - now else 0
  }

  function Worst(t: Table, ks: seq<string>, now: seq<int>): (worst: int)
    requires |ks| <= |now|
    ensures worst >= 0
    ensures forall i :: 0 <= i < |ks| ==> worst >= LockLeft(t, ks[i], now[i])
    ensures worst == 0 || exists i :: 0 <= i < |ks| && worst == LockLeft(t, ks[i], now[i])
  {
    if ks == [] then 0
    else
      var n := |ks| - 1;
      Max(Worst(t, ks[..n], now), LockLeft(t, ks[n], now[n]))
  }

  /** One counter after a failure: bumped, and locked from the threshold on. */
  function Failed1(t: Table, key: string, failAt: int, lockAt: int): Table {
    var counted := Counted(t, key, failAt);
    var count := counted[key].failureCount;
    if count >= LOCK_THRESHOLD then WithLock(counted, key, Some(lockAt + Window(count))) else counted
  }

  function Failed(t: Table, ks: seq<string>, failAt: seq<int>, lockAt: seq<int>): Table
    requires |ks| <= |failAt| && |ks| <= |lockAt|
  {
    if ks == [] then t
    else
      var n := |ks| - 1;
      Failed1(Failed(t, ks[..n], failAt, lockAt), ks[n], failAt[n], lockAt[n])
  }

  function Without(t: Table, ks: seq<string>): Table {
    map k | k in t && k !in ks :: t[k]
  }

  /** The clock readings of one sign-in, one per key at each of its three reads. */
  datatype Readings = Readings(check: seq<int>, fail: seq<int>, lock: seq<int>)

  predicate Ticks(c: Readings) {
    && |c.check| == |c.fail| == |c.lock| == 2
    && c.check[0] <= c.check[1] <= c.fail[0] <= c.lock[0] <= c.fail[1] <= c.lock[1]
  }

  type Clock = c: Readings | Ticks(c) witness Readings([0, 0], [0, 0], [0, 0])

  /** One sign-in request; `correct` is what the password check would say. */
  datatype Login = Login(email: string, ip: string, correct: bool, clock: Clock)

  datatype Outcome = Throttled(retryAfter: int) | Refused | Admitted

  /** Addresses are printed without a bar. */
  ghost predicate Sound(e: Login) {
    '|' !in e.ip
  }

  function Step(lower: string -> string, t: Table, e: Login): (Table, Outcome)
  {
    var ks := Keys(Account(lower, e.email), e.ip);
    var worst := Worst(t, ks, e.clock.check);
    if worst > 0 then (t, Throttled(worst))
    else if e.correct then (Without(t, ks), Admitted)
    else (Failed(t, ks, e.clock.fail, e.clock.lock), Refused)
  }

  class AttemptTable {
    const lower: string -> string
    var rows: Table

    constructor (lower: string -> string)
      ensures this.lower == lower && rows == map[]
    {
      this.lower := lower;
      rows := map[];
    }

    method Current(key: string) returns (attempt: Option<Attempt>)
      ensures attempt == if key in rows then Some(rows[key]) else None
    {
      attempt := if key in rows then Some(rows[key]) else None;
    }

    method CountFailure(key: string, now: int) returns (attempt: Attempt)
      modifies this
      ensures key in rows && attempt == rows[key] && attempt.lastFailedAt == now
      ensures key in old(rows) ==>
                attempt.failureCount == old(rows)[key].failureCount + 1
                && attempt.lockedUntil == old(rows)[key].lockedUntil
                && attempt.firstFailedAt == old(rows)[key].firstFailedAt
      ensures key !in old(rows) ==> attempt.failureCount == 1 && attempt.lockedUntil == None
      ensures forall k :: k != key && k in old(rows) ==> k in rows && rows[k] == old(rows)[k]
      ensures rows == Counted(old(rows), key, now)
    {
      if key in rows {
        var row := rows[key];
        rows := rows[key := row.(failureCount := row.failureCount + 1, lastFailedAt := now)];
      } else {
        rows := rows[key := Attempt(1, now, now, None)];
      }
      attempt := rows[key];
    }

    method SetLockedUntil(key: string, until: Option<int>)
      modifies this
      ensures rows == WithLock(old(rows), key, until)
    {
      if key in rows {
        rows := rows[key := rows[key].(lockedUntil := until)];
      }
    }

    method Clear(key: string)
      modifies this
      ensures rows == Without(old(rows), [key])
    {
      rows := map k | k in rows && k != key :: rows[k];
    }

    /** Refuses with the longest time left on any of the keys' locks. */
    method Check(email: string, ip: string, now: seq<int>) returns (r: Result<(), int>)
      requires |now| == 2
      ensures var worst := Worst(rows, Keys(Account(lower, email), ip), now);
              r == if worst > 0 then Err(worst) else Ok(())
    {
      hide Keys, Account;
      var ks := Keys(Account(lower, email), ip);
      var worst := 0;
      for i := 0 to |ks|
        invariant worst == Worst(rows, ks[..i], now)
      {
        assert ks[..i + 1][..i] == ks[..i];
        var attempt := Current(ks[i]);
        if attempt.Some? && attempt.value.lockedUntil.Some? {
          worst := Max(worst, attempt.value.lockedUntil.value - now[i]);
        }
      }
      assert ks[..|ks|] == ks;
      r := if worst > 0 then Err(worst) else Ok(());
    }

    method RecordFailure(email: string, ip: string, failAt: seq<int>, lockAt: seq<int>)
      requires |failAt| == |lockAt| == 2
      modifies this
      ensures rows == Failed(old(rows), Keys(Account(lower, email), ip), failAt, lockAt)
    {
      hide Keys, Account, Pow2;
      var ks := Keys(Account(lower, email), ip);
      for i := 0 to |ks|
        invariant rows == Failed(old(rows), ks[..i], failAt, lockAt)
      {
        assert ks[..i + 1][..i] == ks[..i];
        var attempt := CountFailure(ks[i], failAt[i]);
        if attempt.failureCount >= LOCK_THRESHOLD {
          var over := attempt.failureCount - LOCK_THRESHOLD;
          var steps := Min(Max(over, 0), 6);
          var window := Min(BASE_LOCK_SECONDS * Pow2(steps), MAX_LOCK_SECONDS);
          SetLockedUntil(ks[i], Some(lockAt[i] + window));
        }
      }
      assert ks[..|ks|] == ks;
    }

    method RecordSuccess(email: string, ip: string)
      modifies this
      ensures rows == Without(old(rows), Keys(Account(lower, email), ip))
    {
      var ks := Keys(Account(lower, email), ip);
      for i := 0 to |ks|
        invariant rows == Without(old(rows), ks[..i])
      {
        Clear(ks[i]);
        assert ks[..i + 1] == ks[..i] + [ks[i]];
      }
      assert ks[..|ks|] == ks;
    }

    /** The order of calls in the sign-in handler. */
    method SignIn(e: Login) returns (outcome: Outcome)
      modifies this
      ensures (rows, outcome) == Step(lower, old(rows), e)
    {
      var check := Check(e.email, e.ip, e.clock.check);
      if check.Err? {
        return Throttled(check.error);
      }
      if !e.correct {
        RecordFailure(e.email, e.ip, e.clock.fail, e.clock.lock);
        return Refused;
      }
      RecordSuccess(e.email, e.ip);
      outcome := Admitted;
    }
  }

  // -------------------------------------------------------------------------- runs

  ghost predicate SoundRun(es: seq<Login>) {
    forall i :: 0 <= i < |es| ==> Sound(es[i])
  }

  ghost function After(lower: string -> string, t: Table, es: seq<Login>): Table
    requires SoundRun(es)
  {
    if es == [] then t
    else Step(lower, After(lower, t, es[..|es| - 1]), es[|es| - 1]).0
  }

  /** What the last sign-in of a run was answered. */
  ghost function LastOutcome(lower: string -> string, t: Table, es: seq<Login>): Outcome
    requires SoundRun(es) && es != []
  {
    Step(lower, After(lower, t, es[..|es| - 1]), es[|es| - 1]).1
  }

  /** The answers `account` got, in order. */
  ghost function Answers(lower: string -> string, t: Table, es: seq<Login>, account: string): seq<Outcome>
    requires SoundRun(es)
  {
    if es == [] then []
    else
      Answers(lower, t, es[..|es| - 1], account)
      + if Account(lower, es[|es| - 1].email) == account then [LastOutcome(lower, t, es)] else []
  }

  /** The clocks of the failures counted against `account`, in order. */
  ghost function Failures(lower: string -> string, t: Table, es: seq<Login>, account: string): (fs: seq<Clock>)
    requires SoundRun(es)
  {
    if es == [] then []
    else
      Failures(lower, t, es[..|es| - 1], account)
      + if Account(lower, es[|es| - 1].email) == account && LastOutcome(lower, t, es).Refused?
        then [es[|es| - 1].clock]
        else []
  }

  // -------------------------------------------------------- accounts are independent

  ghost predicate SameRows(t: Table, t': Table, account: string) {
    forall k :: Owner(k) == account ==> (k in t <==> k in t') && (k in t ==> t[k] == t'[k])
  }

  lemma KeysOwned(account: string, ip: string)
    requires '|' !in ip
    ensures forall k :: k in Keys(account, ip) ==> Owner(k) == account
  {
    OwnerOfKey(account, ip);
    OwnerOfKey(account, "");
  }

  lemma {:induction false} FailedTouchesOnly(t: Table, ks: seq<string>, failAt: seq<int>, lockAt: seq<int>)
    requires |ks| <= |failAt| && |ks| <= |lockAt|
    ensures forall k :: k !in ks ==> (k in Failed(t, ks, failAt, lockAt) <==> k in t)
    ensures forall k :: k !in ks && k in t ==> Failed(t, ks, failAt, lockAt)[k] == t[k]
  {
    if ks != [] {
      FailedTouchesOnly(t, ks[..|ks| - 1], failAt, lockAt);
    }
  }

  lemma OthersAreUntouched(lower: string -> string, t: Table, e: Login, account: string)
    requires Sound(e) && Account(lower, e.email) != account
    ensures SameRows(t, Step(lower, t, e).0, account)
  {
    var ks := Keys(Account(lower, e.email), e.ip);
    KeysOwned(Account(lower, e.email), e.ip);
    FailedTouchesOnly(t, ks, e.clock.fail, e.clock.lock);
  }

  lemma SameFailure(t: Table, t': Table, key: string, failAt: int, lockAt: int, account: string)
    requires SameRows(t, t', account) && Owner(key) == account
    ensures SameRows(Failed1(t, key, failAt, lockAt), Failed1(t', key, failAt, lockAt), account)
  {
    hide Owner, Window;
    var counted, counted' := Counted(t, key, failAt), Counted(t', key, failAt);
    assert counted[key] == counted'[key];
  }

  lemma {:induction false} SameFailures(t: Table, t': Table, ks: seq<string>, failAt: seq<int>, lockAt: seq<int>,
                                        account: string)
    requires |ks| <= |failAt| && |ks| <= |lockAt|
    requires SameRows(t, t', account) && forall k :: k in ks ==> Owner(k) == account
    ensures SameRows(Failed(t, ks, failAt, lockAt), Failed(t', ks, failAt, lockAt), account)
  {
    if ks != [] {
      hide Owner, SameRows, Failed1;
      var n := |ks| - 1;
      SameFailures(t, t', ks[..n], failAt, lockAt, account);
      SameFailure(Failed(t, ks[..n], failAt, lockAt), Failed(t', ks[..n], failAt, lockAt), ks[n],
                  failAt[n], lockAt[n], account);
    }
  }

  lemma {:induction false} SameWorst(t: Table, t': Table, ks: seq<string>, now: seq<int>, account: string)
    requires |ks| <= |now|
    requires SameRows(t, t', account) && forall k :: k in ks ==> Owner(k) == account
    ensures Worst(t, ks, now) == Worst(t', ks, now)
  {
    if ks != [] {
      SameWorst(t, t', ks[..|ks| - 1], now, account);
      assert Owner(ks[|ks| - 1]) == account;
    }
  }

  lemma SameAnswer(lower: string -> string, t: Table, t': Table, e: Login)
    requires Sound(e) && SameRows(t, t', Account(lower, e.email))
    ensures Step(lower, t, e).1 == Step(lower, t', e).1
    ensures SameRows(Step(lower, t, e).0, Step(lower, t', e).0, Account(lower, e.email))
  {
    var a := Account(lower, e.email);
    KeysOwned(a, e.ip);
    SameWorst(t, t', Keys(a, e.ip), e.clock.check, a);
    SameFailures(t, t', Keys(a, e.ip), e.clock.fail, e.clock.lock, a);
    hide Owner, Failed, Worst, Keys, Account;
  }

  /** The sign-ins on one account. */
  ghost function Only(lower: string -> string, es: seq<Login>, account: string): (r: seq<Login>)
    requires SoundRun(es)
    ensures SoundRun(r)
  {
    if es == [] then []
    else
      Only(lower, es[..|es| - 1], account)
      + if Account(lower, es[|es| - 1].email) == account then [es[|es| - 1]] else []
  }

  /** How one more sign-in extends a run. */
  lemma OneMoreSignIn(lower: string -> string, t: Table, es: seq<Login>, e: Login, account: string)
    requires SoundRun(es) && Sound(e)
    ensures SoundRun(es + [e])
    ensures After(lower, t, es + [e]) == Step(lower, After(lower, t, es), e).0
    ensures var o := Step(lower, After(lower, t, es), e).1;
            var rs, fs, only := Answers(lower, t, es, account), Failures(lower, t, es, account), Only(lower, es, account);
            var rs', fs', only' := Answers(lower, t, es + [e], account), Failures(lower, t, es + [e], account),
                                   Only(lower, es + [e], account);
            if Account(lower, e.email) != account then rs' == rs && fs' == fs && only' == only
            else rs' == rs + [o] && only' == only + [e] && fs' == if o.Refused? then fs + [e.clock] else fs
  {
    hide Step, Account;
    assert (es + [e])[..|es|] == es;
  }

  lemma NoSignIns(lower: string -> string, t: Table, account: string)
    ensures After(lower, t, []) == t && Only(lower, [], account) == []
    ensures Answers(lower, t, [], account) == [] && Failures(lower, t, [], account) == []
  {
  }

  lemma Reflexive(t: Table, account: string)
    ensures SameRows(t, t, account)
  {
  }

  /**
   An account's answers and counters are those of the run in which nobody else
   ever signed in.
   */
  lemma {:induction false} OtherAccountsChangeNothing(lower: string -> string, t: Table, es: seq<Login>, account: string)
    requires SoundRun(es)
    ensures Answers(lower, t, es, account) == Answers(lower, t, Only(lower, es, account), account)
    ensures SameRows(After(lower, t, es), After(lower, t, Only(lower, es, account)), account)
    decreases |es|
  {
    hide *;
    if es == [] {
      NoSignIns(lower, t, account);
      Reflexive(t, account);
    } else {
      var before, e := SplitRun(es);
      OtherAccountsChangeNothing(lower, t, before, account);
      var s := After(lower, t, before);
      var only := Only(lower, before, account);
      OneMoreSignIn(lower, t, before, e, account);
      if Account(lower, e.email) == account {
        OneMoreSignIn(lower, t, only, e, account);
        SameAnswer(lower, s, After(lower, t, only), e);
      } else {
        OthersAreUntouched(lower, s, e, account);
        SameRowsChain(s, Step(lower, s, e).0, After(lower, t, only), account);
      }
    }
  }

  lemma SplitRun(es: seq<Login>) returns (before: seq<Login>, e: Login)
    requires SoundRun(es) && es != []
    ensures es == before + [e] && |before| == |es| - 1 && SoundRun(before) && Sound(e)
  {
    before, e := es[..|es| - 1], es[|es| - 1];
  }

  lemma SameRowsChain(s: Table, after: Table, t: Table, account: string)
    requires SameRows(s, after, account) && SameRows(s, t, account)
    ensures SameRows(after, t, account)
  {
  }

  // ------------------------------------------------------------------ the lock bound

  /** No sign-in on `account` succeeded. */
  ghost predicate NeverAdmitted(lower: string -> string, t: Table, es: seq<Login>, account: string)
    requires SoundRun(es)
  {
    Admitted !in Answers(lower, t, es, account)
  }

  /** The account-wide row after the failures `fs`: how many, and the lock the last one armed. */
  ghost predicate Counts(t: Table, account: string, fs: seq<Clock>)
  {
    var wide := Key(account, "");
    if fs == [] then wide !in t
    else
      && wide in t && t[wide].failureCount == |fs|
      && t[wide].lockedUntil
         == if |fs| < LOCK_THRESHOLD then None else Some(fs[|fs| - 1].lock[0] + Window(|fs|))
  }

  /** Each failure from the sixth on waits out the window armed by the one before it. */
  ghost predicate Spaced(fs: seq<Clock>)
  {
    forall j :: LOCK_THRESHOLD <= j < |fs| ==> fs[j].check[0] >= fs[j - 1].lock[0] + Window(j)
  }

  /** A failure counts once on each of its keys, whichever keys come before. */
  lemma {:induction false} EachKeyCountsOnce(t: Table, ks: seq<string>, failAt: seq<int>, lockAt: seq<int>, i: nat)
    requires |ks| <= |failAt| && |ks| <= |lockAt| && i < |ks|
    requires forall a, b :: 0 <= a < b < |ks| ==> ks[a] != ks[b]
    ensures ks[i] in Failed(t, ks, failAt, lockAt)
    ensures Failed(t, ks, failAt, lockAt)[ks[i]] == Failed1(t, ks[i], failAt[i], lockAt[i])[ks[i]]
  {
    var n := |ks| - 1;
    var before := Failed(t, ks[..n], failAt, lockAt);
    FailedTouchesOnly(t, ks[..n], failAt, lockAt);
    if i < n {
      EachKeyCountsOnce(t, ks[..n], failAt, lockAt, i);
    }
  }

  lemma KeysAreDistinct(account: string, ip: string)
    ensures var ks := Keys(account, ip); forall a, b :: 0 <= a < b < |ks| ==> ks[a] != ks[b]
    ensures Keys(account, ip)[0] == Key(account, "")
  {
    assert ip != "" ==> |Key(account, ip)| > |Key(account, "")|;
  }

  /** What one sign-in on an account does to its account-wide row. */
  lemma WideRowStep(lower: string -> string, t: Table, e: Login)
    requires Sound(e)
    ensures var a, (t', o) := Account(lower, e.email), Step(lower, t, e);
            var wide := Key(a, "");
            match o
            case Throttled(_) => t' == t
            case Admitted => wide !in t'
            case Refused =>
              && LockLeft(t, wide, e.clock.check[0]) <= 0
              && wide in t' && t'[wide] == Failed1(t, wide, e.clock.fail[0], e.clock.lock[0])[wide]
  {
    var a := Account(lower, e.email);
    KeysAreDistinct(a, e.ip);
    EachKeyCountsOnce(t, Keys(a, e.ip), e.clock.fail, e.clock.lock, 0);
    hide Failed1, Failed, Window, Account, Keys;
    assert Worst(t, Keys(a, e.ip), e.clock.check) >= LockLeft(t, Keys(a, e.ip)[0], e.clock.check[0]);
  }

  lemma CountOneMore(t: Table, t': Table, account: string, fs: seq<Clock>, c: Clock)
    requires Counts(t, account, fs) && Spaced(fs)
    requires LockLeft(t, Key(account, ""), c.check[0]) <= 0
    requires Key(account, "") in t'
    requires t'[Key(account, "")] == Failed1(t, Key(account, ""), c.fail[0], c.lock[0])[Key(account, "")]
    ensures Counts(t', account, fs + [c]) && Spaced(fs + [c])
  {
    hide Window;
  }

  lemma {:induction false} FailuresAreCountedAndSpaced(lower: string -> string, t: Table, es: seq<Login>, account: string)
    requires SoundRun(es) && Key(account, "") !in t && NeverAdmitted(lower, t, es, account)
    ensures Counts(After(lower, t, es), account, Failures(lower, t, es, account))
    ensures Spaced(Failures(lower, t, es, account))
    decreases |es|
  {
    hide *;
    if es == [] {
      NoSignIns(lower, t, account);
      NothingCounted(t, account);
    } else {
      var before, e := SplitRun(es);
      OneMoreSignIn(lower, t, before, e, account);
      StillNeverAdmitted(lower, t, before, e, account);
      FailuresAreCountedAndSpaced(lower, t, before, account);
      var s, fs := After(lower, t, before), Failures(lower, t, before, account);
      var (t', o) := Step(lower, s, e);
      if Account(lower, e.email) != account {
        OthersAreUntouched(lower, s, e, account);
        SameCount(s, t', account, fs);
      } else {
        WideRowStep(lower, s, e);
        if o.Refused? {
          CountOneMore(s, t', account, fs, e.clock);
        }
      }
    }
  }

  lemma NothingCounted(t: Table, account: string)
    requires Key(account, "") !in t
    ensures Counts(t, account, []) && Spaced([])
  {
  }

  lemma SameCount(t: Table, t': Table, account: string, fs: seq<Clock>)
    requires Counts(t, account, fs) && SameRows(t, t', account)
    ensures Counts(t', account, fs)
  {
    OwnerOfKey(account, "");
    hide Window, Owner;
  }

  lemma StillNeverAdmitted(lower: string -> string, t: Table, es: seq<Login>, e: Login, account: string)
    requires SoundRun(es) && Sound(e) && SoundRun(es + [e]) && NeverAdmitted(lower, t, es + [e], account)
    ensures NeverAdmitted(lower, t, es, account)
    ensures Account(lower, e.email) == account ==> !Step(lower, After(lower, t, es), e).1.Admitted?
  {
    OneMoreSignIn(lower, t, es, e, account);
    hide Answers, Step, Account, After;
    var rs, o := Answers(lower, t, es, account), Step(lower, After(lower, t, es), e).1;
    if Account(lower, e.email) == account {
      assert (rs + [o])[|rs|] == o;
    }
    forall r | r in rs ensures r in Answers(lower, t, es + [e], account) {}
  }

  /** Waiting out window after window adds up. */
  lemma {:induction false} WindowsAddUp(fs: seq<Clock>, n: nat)
    requires Spaced(fs)
    requires LOCK_THRESHOLD < n <= |fs|
    ensures fs[n - 1].check[0] >= fs[LOCK_THRESHOLD - 1].lock[0] + Held(n)
  {
    hide Window;
    assert fs[n - 1].check[0] >= fs[n - 2].lock[0] + Window(n - 1);
    if n - 1 > LOCK_THRESHOLD {
      WindowsAddUp(fs, n - 1);
    } else {
      assert Held(n - 1) == 0;
    }
  }

  /**
   Over every run in which the account never gets in, whatever addresses are used
   and whatever happens on other accounts, the `n`th failure for `n >= 11` is let
   through at least `945 + 900 * (n - 11)` seconds after the fifth armed its lock.
   */
  lemma GuessingIsSlow(lower: string -> string, t: Table, es: seq<Login>, account: string, n: nat)
    requires SoundRun(es) && Key(account, "") !in t && NeverAdmitted(lower, t, es, account)
    requires 11 <= n <= |Failures(lower, t, es, account)|
    ensures var fs := Failures(lower, t, es, account);
            fs[n - 1].check[0] >= fs[4].lock[0] + 945 + 900 * (n - 11)
  {
    FailuresAreCountedAndSpaced(lower, t, es, account);
    WindowsAddUp(Failures(lower, t, es, account), n);
    HeldFromEleven(n);
  }

  // --------------------------------------------------------- what the throttle leaves free

  /** No counter of `account` is past `n`, and only counters at the threshold are locked. */
  ghost predicate Below(t: Table, account: string, n: nat) {
    forall k :: k in t && Owner(k) == account ==>
      t[k].failureCount <= n && (t[k].lockedUntil.Some? ==> t[k].failureCount >= LOCK_THRESHOLD)
  }

  lemma FailuresRaiseByOne(t: Table, ks: seq<string>, failAt: seq<int>, lockAt: seq<int>, account: string, n: nat)
    requires |ks| <= |failAt| && |ks| <= |lockAt|
    requires forall a, b :: 0 <= a < b < |ks| ==> ks[a] != ks[b]
    requires Below(t, account, n)
    ensures Below(Failed(t, ks, failAt, lockAt), account, n + 1)
  {
    FailedTouchesOnly(t, ks, failAt, lockAt);
    hide Owner, Window, Failed;
    var t' := Failed(t, ks, failAt, lockAt);
    forall k | k in t' && Owner(k) == account
      ensures t'[k].failureCount <= n + 1 && (t'[k].lockedUntil.Some? ==> t'[k].failureCount >= LOCK_THRESHOLD)
    {
      if k in ks {
        var i :| 0 <= i < |ks| && ks[i] == k;
        EachKeyCountsOnce(t, ks, failAt, lockAt, i);
      }
    }
  }

  lemma NothingToWaitFor(t: Table, ks: seq<string>, now: seq<int>, account: string, n: nat)
    requires |ks| <= |now| && Below(t, account, n) && n < LOCK_THRESHOLD
    requires forall k :: k in ks ==> Owner(k) == account
    ensures Worst(t, ks, now) == 0
  {
    hide Owner;
    forall i | 0 <= i < |ks| ensures LockLeft(t, ks[i], now[i]) == 0 {
      assert ks[i] in ks;
    }
  }

  lemma BelowStep(lower: string -> string, t: Table, e: Login, account: string, n: nat)
    requires Sound(e) && Below(t, account, n)
    ensures var (t', o) := Step(lower, t, e);
            Below(t', account, if Account(lower, e.email) == account && o.Refused? then n + 1 else n)
    ensures n < LOCK_THRESHOLD && Account(lower, e.email) == account ==> !Step(lower, t, e).1.Throttled?
  {
    var a := Account(lower, e.email);
    var ks := Keys(a, e.ip);
    if a == account {
      KeysOwned(a, e.ip);
      KeysAreDistinct(a, e.ip);
      FailuresRaiseByOne(t, ks, e.clock.fail, e.clock.lock, account, n);
      hide Failed, Keys, Owner, Window, Account, Worst;
      if n < LOCK_THRESHOLD {
        NothingToWaitFor(t, ks, e.clock.check, account, n);
      }
    } else {
      OthersAreUntouched(lower, t, e, account);
      hide Step, Owner;
    }
  }

  lemma {:induction false} CountersStayBelow(lower: string -> string, t: Table, es: seq<Login>, account: string)
    requires SoundRun(es) && forall k :: k in t ==> Owner(k) != account
    ensures Below(After(lower, t, es), account, |Failures(lower, t, es, account)|)
    decreases |es|
  {
    if es == [] {
      NoSignIns(lower, t, account);
    } else {
      hide *;
      var before, e := SplitRun(es);
      CountersStayBelow(lower, t, before, account);
      OneMoreSignIn(lower, t, before, e, account);
      BelowStep(lower, After(lower, t, before), e, account, |Failures(lower, t, before, account)|);
    }
  }

  /** Until an account with no counters has failed five times, no sign-in on it is throttled. */
  lemma FewFailuresNeverLock(lower: string -> string, t: Table, es: seq<Login>, account: string)
    requires SoundRun(es) && es != [] && forall k :: k in t ==> Owner(k) != account
    requires Account(lower, es[|es| - 1].email) == account
    requires |Failures(lower, t, es[..|es| - 1], account)| < LOCK_THRESHOLD
    ensures !LastOutcome(lower, t, es).Throttled?
  {
    var before := es[..|es| - 1];
    CountersStayBelow(lower, t, before, account);
    BelowStep(lower, After(lower, t, before), es[|es| - 1], account, |Failures(lower, t, before, account)|);
  }

  /** No lock outlasts the ceiling, counted from `now`. */
  ghost predicate Brief(t: Table, now: int) {
    forall k :: k in t && t[k].lockedUntil.Some? ==> t[k].lockedUntil.value <= now + MAX_LOCK_SECONDS
  }

  lemma {:induction false} FailedIsBrief(t: Table, ks: seq<string>, failAt: seq<int>, lockAt: seq<int>, now: int)
    requires |ks| <= |failAt| && |ks| <= |lockAt| && Brief(t, now)
    requires forall i :: 0 <= i < |ks| ==> lockAt[i] <= now
    ensures Brief(Failed(t, ks, failAt, lockAt), now)
  {
    if ks != [] {
      FailedIsBrief(t, ks[..|ks| - 1], failAt, lockAt, now);
      hide Window;
      assert forall c | c >= LOCK_THRESHOLD :: Window(c) <= MAX_LOCK_SECONDS by {
        forall c | c >= LOCK_THRESHOLD ensures Window(c) <= MAX_LOCK_SECONDS { WindowIsCappedDoubling(c); }
      }
    }
  }

  lemma BriefStep(lower: string -> string, t: Table, e: Login, now: int)
    requires Brief(t, now) && now <= e.clock.check[0]
    ensures var (t', o) := Step(lower, t, e);
            Brief(t', e.clock.lock[1]) && (o.Throttled? ==> 0 < o.retryAfter <= MAX_LOCK_SECONDS)
  {
    var ks := Keys(Account(lower, e.email), e.ip);
    assert Brief(t, e.clock.lock[1]);
    FailedIsBrief(t, ks, e.clock.fail, e.clock.lock, e.clock.lock[1]);
    hide Failed, Keys;
  }

  /** The clock never goes back from one sign-in to the next. */
  ghost predicate Orderly(es: seq<Login>) {
    forall i :: 0 < i < |es| ==> es[i - 1].clock.lock[1] <= es[i].clock.check[0]
  }

  /** Every refusal asks for at most the ceiling, however many failures came before. */
  lemma {:induction false} LocksAreBrief(lower: string -> string, es: seq<Login>)
    requires SoundRun(es) && Orderly(es) && es != []
    ensures Brief(After(lower, map[], es), es[|es| - 1].clock.lock[1])
    ensures var o := LastOutcome(lower, map[], es); o.Throttled? ==> 0 < o.retryAfter <= MAX_LOCK_SECONDS
    decreases |es|
  {
    var before, e := es[..|es| - 1], es[|es| - 1];
    hide Step, Brief;
    if before == [] {
      EmptyIsBrief(e.clock.check[0]);
      BriefStep(lower, map[], e, e.clock.check[0]);
    } else {
      LocksAreBrief(lower, before);
      BriefStep(lower, After(lower, map[], before), e, before[|before| - 1].clock.lock[1]);
    }
  }

  lemma EmptyIsBrief(now: int)
    ensures Brief(map[], now)
  {
  }
}
