/**
 The sign-in throttle without its table: the answers are those of lists of failures,
 one for each account and one for each address an account was tried from.
 */
module LoginLists {
  import opened Prelude
  import opened Text
  import opened LoginThrottle

  /** `min(15 * 2^(n - 5), 900)`, the seconds a counter that has reached `n >= 5` is locked for. */
  function Lock(n: nat): int
    requires n >= 5
  {
    if n == 5 then 15 else Min(2 * Lock(n - 1), 900)
  }

  /** Which of the readings of a clock belong to a list: the account's come first. */
  function At(ip: string): nat {
    if ip == "" then 0 else 1
  }

  /**
   The failures on `account` from `ip`, or from anywhere if `ip` is empty, since it was
   last signed in to from there.
   */
  ghost function Fails(lower: string -> string, es: seq<Login>, account: string, ip: string): seq<Clock>
    decreases |es|, 0
  {
    if es == [] then []
    else
      var before, e := es[..|es| - 1], es[|es| - 1];
      var fs := Fails(lower, before, account, ip);
      if lower(Trim(e.email)) != account || (ip != "" && ip != e.ip) then fs
      else
        match Answer(lower, before, e)
        case Throttled(_) => fs
        case Refused => fs + [e.clock]
        case Admitted => []
  }

  /** The seconds a list of failures keeps its account locked from `now` on. */
  function Left(fs: seq<Clock>, i: nat, now: int): int
    requires i < 2
  {
    if |fs| < 5 then 0 else Max(fs[|fs| - 1].lock[i] + Lock(|fs|) - now, 0)
  }

  /** What `e` is answered after `es`. */
  ghost function Answer(lower: string -> string, es: seq<Login>, e: Login): Outcome
    decreases |es|, 1
  {
    var account := lower(Trim(e.email));
    var wide := Left(Fails(lower, es, account, ""), 0, e.clock.check[0]);
    var here := if e.ip == "" then 0 else Left(Fails(lower, es, account, e.ip), 1, e.clock.check[1]);
    var wait := if wide < here then here else wide;
    if wait > 0 then Throttled(wait) else if e.correct then Admitted else Refused
  }

  lemma {:induction false} LockIsWindow(n: nat)
    requires n >= 5
    ensures Lock(n) == Window(n) && 15 <= Lock(n) <= 900
  {
    WindowIsCappedDoubling(n);
    if n > 5 {
      LockIsWindow(n - 1);
      WindowIsCappedDoubling(n - 1);
    }
  }

  // ------------------------------------------------------------ rows are the lists

  predicate RowIs(t: Table, account: string, ip: string, fs: seq<Clock>) {
    var key, i := account + "|" + ip, At(ip);
    if fs == [] then key !in t
    else
      var last := fs[|fs| - 1];
      && key in t
      && t[key] == Attempt(|fs|, fs[0].fail[i], last.fail[i],
                           if |fs| < 5 then None else Some(last.lock[i] + Lock(|fs|)))
  }

  lemma KeyOf(a: string, eip: string, account: string, ip: string)
    requires '|' !in eip && '|' !in ip
    ensures var ks := Keys(a, eip);
            && (Key(account, ip) in ks <==> a == account && (ip == "" || ip == eip))
            && (Key(account, ip) in ks ==> At(ip) < |ks| && ks[At(ip)] == Key(account, ip))
  {
    OwnerOfKey(a, eip);
    OwnerOfKey(a, "");
    OwnerOfKey(account, ip);
    if a == account && Key(a, eip) == Key(account, ip) {
      assert Key(a, eip)[|a| + 1..] == eip && Key(account, ip)[|a| + 1..] == ip;
    }
    if a == account && Key(a, "") == Key(account, ip) {
      assert Key(account, ip)[|a| + 1..] == ip;
      assert Key(a, "")[|a| + 1..] == "";
    }
  }

  lemma RowFails(t: Table, account: string, ip: string, fs: seq<Clock>, c: Clock)
    requires RowIs(t, account, ip, fs)
    ensures var key, i := Key(account, ip), At(ip);
            forall t' :: key in t' && t'[key] == Failed1(t, key, c.fail[i], c.lock[i])[key] ==>
              RowIs(t', account, ip, fs + [c])
  {
    if |fs| >= 4 { LockIsWindow(|fs| + 1); }
    hide Window, Lock;
  }

  lemma RowKept(t: Table, t': Table, account: string, ip: string, fs: seq<Clock>)
    requires RowIs(t, account, ip, fs)
    requires var key := Key(account, ip); (key in t' <==> key in t) && (key in t ==> t'[key] == t[key])
    ensures RowIs(t', account, ip, fs)
  {
    hide Lock;
  }

  lemma RowAfterFailure(t: Table, ks: seq<string>, c: Clock, account: string, ip: string, fs: seq<Clock>)
    requires RowIs(t, account, ip, fs) && |ks| <= 2
    requires forall a, b :: 0 <= a < b < |ks| ==> ks[a] != ks[b]
    requires Key(account, ip) in ks ==> At(ip) < |ks| && ks[At(ip)] == Key(account, ip)
    ensures RowIs(Failed(t, ks, c.fail, c.lock), account, ip, if Key(account, ip) in ks then fs + [c] else fs)
  {
    FailedTouchesOnly(t, ks, c.fail, c.lock);
    hide Failed, Failed1, RowIs;
    if Key(account, ip) in ks {
      EachKeyCountsOnce(t, ks, c.fail, c.lock, At(ip));
      RowFails(t, account, ip, fs, c);
    } else {
      RowKept(t, Failed(t, ks, c.fail, c.lock), account, ip, fs);
    }
  }

  lemma RowAfterSuccess(t: Table, ks: seq<string>, account: string, ip: string, fs: seq<Clock>)
    requires RowIs(t, account, ip, fs)
    ensures RowIs(Without(t, ks), account, ip, if Key(account, ip) in ks then [] else fs)
  {
    hide Lock;
  }

  lemma StepUnfolds(lower: string -> string, t: Table, e: Login)
    ensures var ks, (t', o) := Keys(Account(lower, e.email), e.ip), Step(lower, t, e);
            match o
            case Throttled(_) => t' == t
            case Refused => t' == Failed(t, ks, e.clock.fail, e.clock.lock)
            case Admitted => t' == Without(t, ks)
  {
    hide Worst, Failed, Without, Keys, Account;
  }

  lemma RowStep(lower: string -> string, t: Table, e: Login, account: string, ip: string, fs: seq<Clock>)
    requires Sound(e) && '|' !in ip && RowIs(t, account, ip, fs)
    ensures var (t', o) := Step(lower, t, e);
            RowIs(t', account, ip,
                  if Account(lower, e.email) != account || (ip != "" && ip != e.ip) then fs
                  else match o case Throttled(_) => fs case Refused => fs + [e.clock] case Admitted => [])
  {
    var a := Account(lower, e.email);
    var ks := Keys(a, e.ip);
    KeyOf(a, e.ip, account, ip);
    KeysAreDistinct(a, e.ip);
    hide *;
    StepUnfolds(lower, t, e);
    RowAfterFailure(t, ks, e.clock, account, ip, fs);
    RowAfterSuccess(t, ks, account, ip, fs);
  }

  // ------------------------------------------------------------ answers from the lists

  lemma RowLeft(t: Table, account: string, ip: string, fs: seq<Clock>, now: int)
    requires RowIs(t, account, ip, fs)
    ensures Max(LockLeft(t, Key(account, ip), now), 0) == Left(fs, At(ip), now)
  {
    hide Lock;
  }

  lemma WorstOfKeys(t: Table, a: string, ip: string, now: seq<int>)
    requires |now| == 2
    ensures var wide := Max(LockLeft(t, Key(a, ""), now[0]), 0);
            Worst(t, Keys(a, ip), now)
            == if ip == "" then wide else Max(wide, Max(LockLeft(t, Key(a, ip), now[1]), 0))
  {
    var ks := Keys(a, ip);
    hide LockLeft;
    assert ks[..1] == [Key(a, "")] && ks[..1][..0] == [];
    assert Worst(t, [], now) == 0;
    assert Worst(t, ks[..1], now) == Max(0, LockLeft(t, Key(a, ""), now[0]));
    if ip == "" { assert ks == ks[..1]; }
  }

  lemma StepAnswers(lower: string -> string, t: Table, es: seq<Login>, e: Login)
    requires Sound(e)
    requires var a := Account(lower, e.email);
             RowIs(t, a, "", Fails(lower, es, a, "")) && RowIs(t, a, e.ip, Fails(lower, es, a, e.ip))
    ensures Step(lower, t, e).1 == Answer(lower, es, e)
  {
    var a := Account(lower, e.email);
    WorstOfKeys(t, a, e.ip, e.clock.check);
    RowLeft(t, a, "", Fails(lower, es, a, ""), e.clock.check[0]);
    RowLeft(t, a, e.ip, Fails(lower, es, a, e.ip), e.clock.check[1]);
    hide Worst, LockLeft, Fails, Left, Keys, RowIs, Failed;
  }

  lemma OneMoreFail(lower: string -> string, es: seq<Login>, e: Login, account: string, ip: string)
    ensures var fs := Fails(lower, es, account, ip);
            Fails(lower, es + [e], account, ip)
            == if Account(lower, e.email) != account || (ip != "" && ip != e.ip) then fs
               else match Answer(lower, es, e)
                    case Throttled(_) => fs
                    case Refused => fs + [e.clock]
                    case Admitted => []
  {
    assert (es + [e])[..|es|] == es;
    hide Answer;
  }

  lemma {:induction false} RowsAreTheLists(lower: string -> string, es: seq<Login>, account: string, ip: string)
    requires SoundRun(es) && '|' !in ip
    ensures RowIs(After(lower, map[], es), account, ip, Fails(lower, es, account, ip))
    decreases |es|
  {
    if es == [] {
    } else {
      var before, e := SplitRun(es);
      var t, a := After(lower, map[], before), Account(lower, e.email);
      OneMoreSignIn(lower, map[], before, e, a);
      hide *;
      RowsAreTheLists(lower, before, account, ip);
      RowsAreTheLists(lower, before, a, "");
      RowsAreTheLists(lower, before, a, e.ip);
      OneMoreFail(lower, before, e, account, ip);
      RowStep(lower, t, e, account, ip, Fails(lower, before, account, ip));
      StepAnswers(lower, t, before, e);
    }
  }

  /**
   Every sign-in of every run is answered as by two lists of failures, those on the
   account since it was last signed in to and those on it from this address since it was
   last signed in to from here: it is refused unread while the longer of their two locks
   lasts, and otherwise the password decides.
   */
  lemma ThrottleRefinesFailureLists(lower: string -> string, es: seq<Login>)
    requires SoundRun(es) && es != []
    ensures LastOutcome(lower, map[], es) == Answer(lower, es[..|es| - 1], es[|es| - 1])
  {
    var before, e := SplitRun(es);
    var a := Account(lower, e.email);
    RowsAreTheLists(lower, before, a, "");
    RowsAreTheLists(lower, before, a, e.ip);
    StepAnswers(lower, After(lower, map[], before), before, e);
    hide Step, After, Answer;
  }

  // ------------------------------------------------------------- how slow guessing is

  /** Each failure from the sixth on was let through after the lock armed by the one before it. */
  ghost predicate SpacedAt(fs: seq<Clock>, i: nat)
    requires i < 2
  {
    forall j :: 5 <= j < |fs| ==> fs[j].check[i] >= fs[j - 1].lock[i] + Lock(j)
  }

  lemma {:induction false} ListsAreSpaced(lower: string -> string, es: seq<Login>, account: string, ip: string)
    ensures SpacedAt(Fails(lower, es, account, ip), At(ip))
    decreases |es|
  {
    if es == [] {
      assert Fails(lower, es, account, ip) == [];
    } else {
      var before, e := es[..|es| - 1], es[|es| - 1];
      assert es == before + [e];
      ListsAreSpaced(lower, before, account, ip);
      OneMoreFail(lower, before, e, account, ip);
      hide *;
      if Answer(lower, before, e).Refused? && Account(lower, e.email) == account && (ip == "" || ip == e.ip) {
        RefusedAfterTheLock(lower, before, e, ip);
        SpacedOneMore(Fails(lower, before, account, ip), e.clock, At(ip));
      } else {
        NothingIsSpaced(At(ip));
      }
    }
  }

  lemma NothingIsSpaced(i: nat)
    requires i < 2
    ensures SpacedAt([], i)
  {
  }

  lemma RefusedAfterTheLock(lower: string -> string, es: seq<Login>, e: Login, ip: string)
    requires Answer(lower, es, e).Refused? && (ip == "" || ip == e.ip)
    ensures At(ip) < 2 && Left(Fails(lower, es, Account(lower, e.email), ip), At(ip), e.clock.check[At(ip)]) == 0
  {
    hide Fails, Left;
    LeftIsNatural(Fails(lower, es, Account(lower, e.email), ""), 0, e.clock.check[0]);
    LeftIsNatural(Fails(lower, es, Account(lower, e.email), e.ip), 1, e.clock.check[1]);
  }

  lemma LeftIsNatural(fs: seq<Clock>, i: nat, now: int)
    requires i < 2
    ensures Left(fs, i, now) >= 0
  {
  }

  lemma SpacedOneMore(fs: seq<Clock>, c: Clock, i: nat)
    requires i < 2 && SpacedAt(fs, i) && Left(fs, i, c.check[i]) == 0
    ensures SpacedAt(fs + [c], i)
  {
    hide Lock;
  }

  lemma {:induction false} LocksAddUp(fs: seq<Clock>, i: nat, n: nat)
    requires i < 2 && SpacedAt(fs, i) && 5 < n <= |fs|
    ensures fs[n - 1].check[i] >= fs[4].lock[i] + Held(n)
  {
    LockIsWindow(n - 1);
    hide Window, Lock;
    assert fs[n - 1].check[i] >= fs[n - 2].lock[i] + Lock(n - 1);
    if n - 1 > 5 {
      LocksAddUp(fs, i, n - 1);
    } else {
      assert Held(n - 1) == 0;
    }
  }

  /**
   On one account from one address, or on one account from anywhere, the `n`th failure in
   a row for `n >= 11` is let through at least `945 + 900 * (n - 11)` seconds after the
   fifth. A sign-in from another address does not start the count of this one anew.
   */
  lemma GuessingFromOnePlaceIsSlow(lower: string -> string, es: seq<Login>, account: string, ip: string, n: nat)
    requires 11 <= n <= |Fails(lower, es, account, ip)|
    ensures var fs, i := Fails(lower, es, account, ip), if ip == "" then 0 else 1;
            fs[n - 1].check[i] >= fs[4].lock[i] + 945 + 900 * (n - 11)
  {
    ListsAreSpaced(lower, es, account, ip);
    LocksAddUp(Fails(lower, es, account, ip), At(ip), n);
    HeldFromEleven(n);
    hide Fails, Held;
  }
}
