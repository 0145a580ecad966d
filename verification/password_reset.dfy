/**
 Password-reset tokens: the token table, the request and consume flows over it,
 the invalidation that second-factor enrolment performs, and the pruning job.
 The table is shown to behave like a set of live grants that is never pruned.
 */
module PasswordReset {
  import opened Prelude

  const TOKEN_TTL_SECONDS := 3600

  datatype Token = Token(id: nat, user: nat, hash: string, expiresAt: int, usedAt: Option<int>)

  /** `password_reset_tokens` in insertion order. */
  type Rows = seq<Token>

  // -------------------------------------------------------------- single statements

  predicate Clashes(tok: Token, id: nat, hash: string) {
    tok.id == id || tok.hash == hash
  }

  /** The primary key and the unique index on `token_hash` refuse duplicates. */
  function Inserted(rows: Rows, tok: Token): Option<Rows> {
    if exists row :: row in rows && Clashes(row, tok.id, tok.hash) then None else Some(rows + [tok])
  }

  predicate Usable(tok: Token, hash: string, now: int) {
    tok.hash == hash && tok.usedAt.None? && tok.expiresAt > now
  }

  function FindValid(rows: Rows, hash: string, now: int): (r: Option<(nat, nat)>)
    ensures r.Some? ==> exists tok :: tok in rows && Usable(tok, hash, now) && r.value == (tok.id, tok.user)
    ensures r.None? ==> forall tok :: tok in rows ==> !Usable(tok, hash, now)
  {
    if rows == [] then None
    else if Usable(rows[0], hash, now) then Some((rows[0].id, rows[0].user))
    else FindValid(rows[1..], hash, now)
  }

  function MarkedUsed(rows: Rows, id: nat, now: int): (r: Rows)
    ensures |r| == |rows|
  {
    seq(|rows|, i requires 0 <= i < |rows| =>
          if rows[i].id == id && rows[i].usedAt.None? then rows[i].(usedAt := Some(now)) else rows[i])
  }

  function Invalidated(rows: Rows, user: nat, now: int): (r: Rows)
    ensures |r| == |rows|
  {
    seq(|rows|, i requires 0 <= i < |rows| =>
          if rows[i].user == user && rows[i].usedAt.None? then rows[i].(usedAt := Some(now)) else rows[i])
  }

  function Pruned(rows: Rows, now: int): (r: Rows)
    ensures forall tok :: tok in r <==> tok in rows && tok.usedAt.None? && tok.expiresAt >= now
  {
    if rows == [] then []
    else
      var init, last := rows[..|rows| - 1], rows[|rows| - 1];
      if last.usedAt.Some? || last.expiresAt < now then Pruned(init, now) else Pruned(init, now) + [last]
  }

  // ------------------------------------------------------------------- whole flows

  /** The account an email belongs to. */
  datatype Account = Account(user: nat, enabled: bool)

  datatype Event =
    | Request(found: Option<Account>, id: nat, raw: string, now: int)
    | Consume(raw: string, password: string, hashed: Option<string>, now: int)
    | Activate(user: nat, now: int)
    | Prune(now: int)

  datatype Outcome =
    | NoAccount
    | Issued(user: nat, raw: string)
    | DbError
    | EmptyPassword
    | InvalidOrExpired
    | HashFailed
    | Reset(user: nat)
    | Done

  /** The token table and the password hashes of `users`. */
  datatype State = State(rows: Rows, passwords: map<nat, string>)

  function WithPassword(passwords: map<nat, string>, user: nat, hashed: string): map<nat, string> {
    if user in passwords then passwords[user := hashed] else passwords
  }

  function Step(hash: string -> string, s: State, e: Event): (State, Outcome) {
    match e
    case Request(None, _, _, _) => (s, NoAccount)
    case Request(Some(account), id, raw, now) =>
      if !account.enabled then (s, NoAccount)
      else
        var rows := Invalidated(s.rows, account.user, now);
        (match Inserted(rows, Token(id, account.user, hash(raw), now + TOKEN_TTL_SECONDS, None))
         case Some(rows') => (s.(rows := rows'), Issued(account.user, raw))
         case None => (s.(rows := rows), DbError))
    case Consume(raw, password, hashed, now) =>
      if password == "" then (s, EmptyPassword)
      else
        (match FindValid(s.rows, hash(raw), now)
         case None => (s, InvalidOrExpired)
         case Some((id, user)) =>
           if hashed.None? then (s, HashFailed)
           else (State(MarkedUsed(s.rows, id, now), WithPassword(s.passwords, user, hashed.value)), Reset(user)))
    case Activate(user, now) => (s.(rows := Invalidated(s.rows, user, now)), Done)
    case Prune(now) => (s.(rows := Pruned(s.rows, now)), Done)
  }

  class TokenStore {
    const hash: string -> string
    var rows: Rows
    var passwords: map<nat, string>

    constructor (hash: string -> string, passwords: map<nat, string>)
      ensures this.hash == hash && rows == [] && this.passwords == passwords
    {
      this.hash := hash;
      rows := [];
      this.passwords := passwords;
    }

    method Insert(tok: Token) returns (ok: bool)
      modifies this`rows
      ensures match Inserted(old(rows), tok)
              case Some(rows') => ok && rows == rows'
              case None => !ok && rows == old(rows)
    {
      ok := !exists row :: row in rows && Clashes(row, tok.id, tok.hash);
      if ok {
        rows := rows + [tok];
      }
    }

    method FindValidByHash(tokenHash: string, now: int) returns (r: Option<(nat, nat)>)
      ensures r == FindValid(rows, tokenHash, now)
    {
      r := FindValid(rows, tokenHash, now);
    }

    /** Whether a row was stamped. */
    method MarkUsed(id: nat, now: int) returns (stamped: bool)
      modifies this`rows
      ensures rows == MarkedUsed(old(rows), id, now)
      ensures stamped <==> exists tok :: tok in old(rows) && tok.id == id && tok.usedAt.None?
    {
      stamped := exists tok :: tok in rows && tok.id == id && tok.usedAt.None?;
      rows := MarkedUsed(rows, id, now);
    }

    method InvalidateAllForUser(user: nat, now: int)
      modifies this`rows
      ensures rows == Invalidated(old(rows), user, now)
    {
      rows := Invalidated(rows, user, now);
    }

    /** Exactly the rows that are used or past their expiry go, and their number is returned. */
    method DeleteConsumedOrExpired(now: int) returns (removed: nat)
      modifies this`rows
      ensures forall tok :: multiset(rows)[tok]
                            == if tok.usedAt.None? && tok.expiresAt >= now then multiset(old(rows))[tok] else 0
      ensures removed == |old(rows)| - |rows|
      ensures rows == Pruned(old(rows), now)
    {
      forall tok
        ensures multiset(Pruned(rows, now))[tok]
                == if tok.usedAt.None? && tok.expiresAt >= now then multiset(rows)[tok] else 0
      {
        PrunedKeepsTheLive(rows, now, tok);
      }
      PrunedIsShorter(rows, now);
      removed := |rows| - |Pruned(rows, now)|;
      rows := Pruned(rows, now);
    }

    method RequestReset(found: Option<Account>, id: nat, raw: string, now: int) returns (outcome: Outcome)
      modifies this
      ensures (State(rows, passwords), outcome)
              == Step(hash, old(State(rows, passwords)), Request(found, id, raw, now))
    {
      if found.None? || !found.value.enabled {
        return NoAccount;
      }
      var user := found.value.user;
      InvalidateAllForUser(user, now);
      var expiresAt := now + TOKEN_TTL_SECONDS;
      var ok := Insert(Token(id, user, hash(raw), expiresAt, None));
      outcome := if ok then Issued(user, raw) else DbError;
    }

    method ConsumeToken(raw: string, password: string, hashed: Option<string>, now: int) returns (outcome: Outcome)
      modifies this
      ensures (State(rows, passwords), outcome)
              == Step(hash, old(State(rows, passwords)), Consume(raw, password, hashed, now))
    {
      if password == "" {
        return EmptyPassword;
      }
      var found := FindValidByHash(hash(raw), now);
      if found.None? {
        return InvalidOrExpired;
      }
      var (id, user) := found.value;
      if hashed.None? {
        return HashFailed;
      }
      passwords := WithPassword(passwords, user, hashed.value);
      var _ := MarkUsed(id, now);
      outcome := Reset(user);
    }
  }

  lemma {:induction false} PrunedKeepsTheLive(rows: Rows, now: int, tok: Token)
    ensures multiset(Pruned(rows, now))[tok]
            == if tok.usedAt.None? && tok.expiresAt >= now then multiset(rows)[tok] else 0
  {
    if rows != [] {
      var init, last := rows[..|rows| - 1], rows[|rows| - 1];
      PrunedKeepsTheLive(init, now, tok);
      assert rows == init + [last];
    }
  }

  lemma {:induction false} PrunedIsShorter(rows: Rows, now: int)
    ensures |Pruned(rows, now)| <= |rows|
  {
    if rows != [] { PrunedIsShorter(rows[..|rows| - 1], now); }
  }

  // -------------------------------------------------------- the reference: live grants

  datatype Grant = Grant(user: nat, expiresAt: int)

  /** What reset links ought to be: the live ones by hash, and nothing else. */
  datatype Links = Links(live: map<string, Grant>, passwords: map<nat, string>)

  function Revoked(live: map<string, Grant>, user: nat): map<string, Grant> {
    map h | h in live && live[h].user != user :: live[h]
  }

  function LinkStep(hash: string -> string, s: Links, e: Event): (Links, Outcome) {
    match e
    case Request(None, _, _, _) => (s, NoAccount)
    case Request(Some(account), _, raw, now) =>
      if !account.enabled then (s, NoAccount)
      else
        (s.(live := Revoked(s.live, account.user)[hash(raw) := Grant(account.user, now + TOKEN_TTL_SECONDS)]),
         Issued(account.user, raw))
    case Consume(raw, password, hashed, now) =>
      var h := hash(raw);
      if password == "" then (s, EmptyPassword)
      else if h !in s.live || s.live[h].expiresAt <= now then (s, InvalidOrExpired)
      else if hashed.None? then (s, HashFailed)
      else (Links(s.live - {h}, WithPassword(s.passwords, s.live[h].user, hashed.value)), Reset(s.live[h].user))
    case Activate(user, _) => (s.(live := Revoked(s.live, user)), Done)
    case Prune(_) => (s, Done)
  }

  // -------------------------------------------------------------------------- runs

  ghost function After(hash: string -> string, s: State, es: seq<Event>): State {
    if es == [] then s else Step(hash, After(hash, s, es[..|es| - 1]), es[|es| - 1]).0
  }

  ghost function LinksAfter(hash: string -> string, s: Links, es: seq<Event>): Links {
    if es == [] then s else LinkStep(hash, LinksAfter(hash, s, es[..|es| - 1]), es[|es| - 1]).0
  }

  /** The answer to the last call of a run. */
  ghost function Answer(hash: string -> string, s: State, es: seq<Event>): Outcome
    requires es != []
  {
    Step(hash, After(hash, s, es[..|es| - 1]), es[|es| - 1]).1
  }

  ghost function LinkAnswer(hash: string -> string, s: Links, es: seq<Event>): Outcome
    requires es != []
  {
    LinkStep(hash, LinksAfter(hash, s, es[..|es| - 1]), es[|es| - 1]).1
  }

  /** A request that draws a token. */
  predicate Draws(e: Event) {
    e.Request? && e.found.Some? && e.found.value.enabled
  }

  /** Token ids and hashes are never drawn twice. */
  ghost predicate Fresh(hash: string -> string, es: seq<Event>) {
    es == [] ||
    var before, e := es[..|es| - 1], es[|es| - 1];
    && Fresh(hash, before)
    && (Draws(e) ==> forall e' :: e' in before && Draws(e') ==> e'.id != e.id && hash(e'.raw) != hash(e.raw))
  }

  /** The clock never goes back. */
  ghost predicate Orderly(es: seq<Event>) {
    es == [] || (Orderly(es[..|es| - 1]) && forall e :: e in es[..|es| - 1] ==> e.now <= es[|es| - 1].now)
  }

  // --------------------------------------------------------------------- refinement

  ghost predicate DistinctRows(rows: Rows) {
    forall i, j :: 0 <= i < j < |rows| ==> rows[i].id != rows[j].id && rows[i].hash != rows[j].hash
  }

  /** Every unused row is a live grant. */
  ghost predicate UnusedAreLive(rows: Rows, live: map<string, Grant>) {
    forall tok :: tok in rows && tok.usedAt.None? ==>
      tok.hash in live && live[tok.hash] == Grant(tok.user, tok.expiresAt)
  }

  ghost predicate HasUnused(rows: Rows, h: string) {
    exists tok :: tok in rows && tok.usedAt.None? && tok.hash == h
  }

  /** Every live grant is an unused row, unless it ran out before `now`. */
  ghost predicate LiveAreUnused(rows: Rows, live: map<string, Grant>, now: int) {
    forall h :: h in live ==> HasUnused(rows, h) || live[h].expiresAt < now
  }

  ghost predicate OneGrantPerUser(live: map<string, Grant>) {
    forall h, h' :: h in live && h' in live && live[h].user == live[h'].user ==> h == h'
  }

  ghost predicate IssuedIn(hash: string -> string, tok: Token, es: seq<Event>) {
    exists e :: e in es && Draws(e) && e.id == tok.id && hash(e.raw) == tok.hash
  }

  ghost predicate Refines(hash: string -> string, s: State, l: Links, es: seq<Event>, now: int) {
    && s.passwords == l.passwords
    && DistinctRows(s.rows)
    && UnusedAreLive(s.rows, l.live)
    && LiveAreUnused(s.rows, l.live, now)
    && OneGrantPerUser(l.live)
    && forall tok :: tok in s.rows ==> IssuedIn(hash, tok, es)
  }

  lemma InvalidateRefines(rows: Rows, live: map<string, Grant>, user: nat, t: int, now: int)
    requires DistinctRows(rows) && UnusedAreLive(rows, live) && LiveAreUnused(rows, live, now)
    ensures DistinctRows(Invalidated(rows, user, t))
    ensures UnusedAreLive(Invalidated(rows, user, t), Revoked(live, user))
    ensures LiveAreUnused(Invalidated(rows, user, t), Revoked(live, user), now)
  {
    var rows' := Invalidated(rows, user, t);
    forall h | h in Revoked(live, user) && HasUnused(rows, h) ensures HasUnused(rows', h) {
      var tok :| tok in rows && tok.usedAt.None? && tok.hash == h;
      var i :| 0 <= i < |rows| && rows[i] == tok;
      assert rows'[i] == tok && tok in rows';
    }
    forall tok | tok in rows' && tok.usedAt.None?
      ensures tok.hash in Revoked(live, user) && Revoked(live, user)[tok.hash] == Grant(tok.user, tok.expiresAt)
    {
      var i :| 0 <= i < |rows'| && rows'[i] == tok;
      assert rows[i] in rows;
    }
  }

  lemma InsertRefines(rows: Rows, live: map<string, Grant>, tok: Token, now: int)
    requires DistinctRows(rows) && UnusedAreLive(rows, live) && LiveAreUnused(rows, live, now)
    requires tok.usedAt.None? && forall row :: row in rows ==> !Clashes(row, tok.id, tok.hash)
    ensures DistinctRows(rows + [tok])
    ensures UnusedAreLive(rows + [tok], live[tok.hash := Grant(tok.user, tok.expiresAt)])
    ensures LiveAreUnused(rows + [tok], live[tok.hash := Grant(tok.user, tok.expiresAt)], now)
  {
    forall i | 0 <= i < |rows| ensures rows[i].id != tok.id && rows[i].hash != tok.hash {
      assert rows[i] in rows;
    }
    assert tok in rows + [tok];
    forall h | HasUnused(rows, h) ensures HasUnused(rows + [tok], h) {
      var row :| row in rows && row.usedAt.None? && row.hash == h;
      assert row in rows + [tok];
    }
  }

  /** Looking a link up gives what the reference says. */
  lemma LookupRefines(rows: Rows, live: map<string, Grant>, h: string, now: int)
    requires UnusedAreLive(rows, live) && LiveAreUnused(rows, live, now)
    ensures match FindValid(rows, h, now)
            case None => h !in live || live[h].expiresAt <= now
            case Some((_, user)) => h in live && live[h].expiresAt > now && live[h].user == user
  {
    if h in live && HasUnused(rows, h) {
      var tok :| tok in rows && tok.usedAt.None? && tok.hash == h;
      assert Usable(tok, h, now) <==> live[h].expiresAt > now;
    }
  }

  lemma SameToken(rows: Rows, a: Token, b: Token)
    requires DistinctRows(rows) && a in rows && b in rows && (a.id == b.id || a.hash == b.hash)
    ensures a == b
  {
    var i :| 0 <= i < |rows| && rows[i] == a;
    var j :| 0 <= j < |rows| && rows[j] == b;
  }

  lemma ConsumeRefines(rows: Rows, live: map<string, Grant>, h: string, t: int, now: int)
    requires DistinctRows(rows) && UnusedAreLive(rows, live) && LiveAreUnused(rows, live, now)
    requires FindValid(rows, h, t).Some?
    ensures var rows' := MarkedUsed(rows, FindValid(rows, h, t).value.0, t);
            DistinctRows(rows') && UnusedAreLive(rows', live - {h}) && LiveAreUnused(rows', live - {h}, now)
  {
    var id := FindValid(rows, h, t).value.0;
    var used :| used in rows && Usable(used, h, t) && used.id == id;
    var rows' := MarkedUsed(rows, id, t);
    forall tok | tok in rows' && tok.usedAt.None?
      ensures tok.hash in live - {h} && (live - {h})[tok.hash] == Grant(tok.user, tok.expiresAt)
    {
      var i :| 0 <= i < |rows'| && rows'[i] == tok;
      assert rows[i] == tok && tok in rows;
      if tok.hash == h { SameToken(rows, tok, used); }
    }
    forall h' | h' in live - {h} && HasUnused(rows, h') ensures HasUnused(rows', h') {
      var tok :| tok in rows && tok.usedAt.None? && tok.hash == h';
      var i :| 0 <= i < |rows| && rows[i] == tok;
      if tok.id == id { SameToken(rows, tok, used); }
      assert rows'[i] == tok && tok in rows';
    }
  }

  lemma {:induction false} PrunedStaysDistinct(rows: Rows, now: int)
    requires DistinctRows(rows)
    ensures DistinctRows(Pruned(rows, now))
  {
    if rows != [] {
      var init, last := rows[..|rows| - 1], rows[|rows| - 1];
      PrunedStaysDistinct(init, now);
      var kept := Pruned(init, now);
      forall i | 0 <= i < |kept| ensures kept[i].id != last.id && kept[i].hash != last.hash {
        assert kept[i] in kept;
        var j :| 0 <= j < |init| && init[j] == kept[i];
        assert rows[j] == init[j];
      }
    }
  }

  lemma PruneRefines(rows: Rows, live: map<string, Grant>, now: int)
    requires DistinctRows(rows) && UnusedAreLive(rows, live) && LiveAreUnused(rows, live, now)
    ensures DistinctRows(Pruned(rows, now))
    ensures UnusedAreLive(Pruned(rows, now), live) && LiveAreUnused(Pruned(rows, now), live, now)
  {
    PrunedStaysDistinct(rows, now);
    forall h | h in live && HasUnused(rows, h) ensures HasUnused(Pruned(rows, now), h) || live[h].expiresAt < now {
      var tok :| tok in rows && tok.usedAt.None? && tok.hash == h;
      if tok.expiresAt >= now { assert tok in Pruned(rows, now); }
    }
  }

  lemma IssuedKept(hash: string -> string, rows: Rows, rows': Rows, es: seq<Event>, e: Event)
    requires forall tok :: tok in rows ==> IssuedIn(hash, tok, es)
    requires forall tok' :: tok' in rows' ==> exists tok :: tok in rows && tok.id == tok'.id && tok.hash == tok'.hash
    ensures forall tok :: tok in rows' ==> IssuedIn(hash, tok, es + [e])
  {
    forall tok' | tok' in rows' ensures IssuedIn(hash, tok', es + [e]) {
      var tok :| tok in rows && tok.id == tok'.id && tok.hash == tok'.hash;
      var e' :| e' in es && Draws(e') && e'.id == tok.id && hash(e'.raw) == tok.hash;
      assert e' in es + [e];
    }
  }

  lemma InvalidatedIssued(hash: string -> string, rows: Rows, user: nat, t: int, es: seq<Event>, e: Event)
    requires forall tok :: tok in rows ==> IssuedIn(hash, tok, es)
    ensures forall tok :: tok in Invalidated(rows, user, t) ==> IssuedIn(hash, tok, es)
    ensures forall tok :: tok in Invalidated(rows, user, t) ==> IssuedIn(hash, tok, es + [e])
  {
    var rows' := Invalidated(rows, user, t);
    forall tok' | tok' in rows'
      ensures IssuedIn(hash, tok', es)
      ensures exists tok :: tok in rows && tok.id == tok'.id && tok.hash == tok'.hash
    {
      var i :| 0 <= i < |rows'| && rows'[i] == tok';
      var tok := rows[i];
      assert tok in rows;
      var e' :| e' in es && Draws(e') && e'.id == tok.id && hash(e'.raw) == tok.hash;
    }
    IssuedKept(hash, rows, rows', es, e);
  }

  lemma RequestStepRefines(hash: string -> string, s: State, l: Links, es: seq<Event>, e: Event, now: int)
    requires Refines(hash, s, l, es, now) && e.Request?
    requires Draws(e) ==> forall e' :: e' in es && Draws(e') ==> e'.id != e.id && hash(e'.raw) != hash(e.raw)
    ensures Step(hash, s, e).1 == LinkStep(hash, l, e).1
    ensures Refines(hash, Step(hash, s, e).0, LinkStep(hash, l, e).0, es + [e], now)
  {
    if !Draws(e) {
      IssuedKept(hash, s.rows, s.rows, es, e);
    } else {
      var user := e.found.value.user;
      var rows := Invalidated(s.rows, user, e.now);
      var tok := Token(e.id, user, hash(e.raw), e.now + TOKEN_TTL_SECONDS, None);
      InvalidateRefines(s.rows, l.live, user, e.now, now);
      InvalidatedIssued(hash, s.rows, user, e.now, es, e);
      hide Invalidated, DistinctRows, UnusedAreLive, LiveAreUnused;
      forall row | row in rows ensures !Clashes(row, tok.id, tok.hash) {
        assert IssuedIn(hash, row, es);
      }
      InsertRefines(rows, Revoked(l.live, user), tok, now);
      assert e in es + [e] && IssuedIn(hash, tok, es + [e]);
    }
  }

  lemma MarkedIssued(hash: string -> string, rows: Rows, id: nat, t: int, es: seq<Event>, e: Event)
    requires forall tok :: tok in rows ==> IssuedIn(hash, tok, es)
    ensures forall tok :: tok in MarkedUsed(rows, id, t) ==> IssuedIn(hash, tok, es + [e])
  {
    var rows' := MarkedUsed(rows, id, t);
    forall tok' | tok' in rows' ensures exists tok :: tok in rows && tok.id == tok'.id && tok.hash == tok'.hash {
      var i :| 0 <= i < |rows'| && rows'[i] == tok';
      assert rows[i] in rows;
    }
    IssuedKept(hash, rows, rows', es, e);
  }

  lemma ConsumeStepRefines(hash: string -> string, s: State, l: Links, es: seq<Event>, e: Event)
    requires Refines(hash, s, l, es, e.now) && e.Consume?
    ensures Step(hash, s, e).1 == LinkStep(hash, l, e).1
    ensures Refines(hash, Step(hash, s, e).0, LinkStep(hash, l, e).0, es + [e], e.now)
  {
    var h := hash(e.raw);
    LookupRefines(s.rows, l.live, h, e.now);
    hide DistinctRows, UnusedAreLive, LiveAreUnused, IssuedIn, FindValid, OneGrantPerUser, WithPassword;
    if e.password == "" || FindValid(s.rows, h, e.now).None? || e.hashed.None? {
      IssuedKept(hash, s.rows, s.rows, es, e);
    } else {
      var id := FindValid(s.rows, h, e.now).value.0;
      ConsumeRefines(s.rows, l.live, h, e.now, e.now);
      MarkedIssued(hash, s.rows, id, e.now, es, e);
      FewerGrants(l.live, h);
      hide MarkedUsed;
    }
  }

  lemma FewerGrants(live: map<string, Grant>, h: string)
    requires OneGrantPerUser(live)
    ensures OneGrantPerUser(live - {h})
  {
  }

  /** One event keeps the table in step with the reference, and answers alike. */
  lemma StepRefines(hash: string -> string, s: State, l: Links, es: seq<Event>, e: Event, now: int)
    requires Refines(hash, s, l, es, now) && now <= e.now
    requires Draws(e) ==> forall e' :: e' in es && Draws(e') ==> e'.id != e.id && hash(e'.raw) != hash(e.raw)
    ensures Step(hash, s, e).1 == LinkStep(hash, l, e).1
    ensures Refines(hash, Step(hash, s, e).0, LinkStep(hash, l, e).0, es + [e], e.now)
  {
    assert Refines(hash, s, l, es, e.now);
    match e
    case Request(_, _, _, _) => RequestStepRefines(hash, s, l, es, e, e.now);
    case Consume(_, _, _, _) => ConsumeStepRefines(hash, s, l, es, e);
    case Activate(user, t) =>
      InvalidateRefines(s.rows, l.live, user, t, t);
      InvalidatedIssued(hash, s.rows, user, t, es, e);
      hide DistinctRows, UnusedAreLive, LiveAreUnused, IssuedIn, Invalidated;
    case Prune(t) =>
      PruneRefines(s.rows, l.live, t);
      IssuedKept(hash, s.rows, Pruned(s.rows, t), es, e);
      hide DistinctRows, UnusedAreLive, LiveAreUnused, IssuedIn, Pruned;
  }

  /** The clock of the last event. */
  function Now(es: seq<Event>): int {
    if es == [] then 0 else es[|es| - 1].now
  }

  lemma SplitRun(hash: string -> string, s: State, l: Links, es: seq<Event>) returns (before: seq<Event>, e: Event)
    requires es != [] && Fresh(hash, es) && Orderly(es)
    ensures es == before + [e] && |before| == |es| - 1 && Fresh(hash, before) && Orderly(before)
    ensures before != [] ==> Now(before) <= e.now
    ensures Draws(e) ==> forall e' :: e' in before && Draws(e') ==> e'.id != e.id && hash(e'.raw) != hash(e.raw)
    ensures After(hash, s, es) == Step(hash, After(hash, s, before), e).0
    ensures LinksAfter(hash, l, es) == LinkStep(hash, LinksAfter(hash, l, before), e).0
    ensures Answer(hash, s, es) == Step(hash, After(hash, s, before), e).1
    ensures LinkAnswer(hash, l, es) == LinkStep(hash, LinksAfter(hash, l, before), e).1
  {
    before, e := es[..|es| - 1], es[|es| - 1];
    hide Step, LinkStep;
  }

  lemma EmptyRefines(hash: string -> string, passwords: map<nat, string>, now: int)
    ensures Refines(hash, State([], passwords), Links(map[], passwords), [], now)
  {
  }

  /**
   Whatever the pruning schedule, every call of every run is answered as by the
   set of live grants, which holds at most one per user.
   */
  lemma {:induction false} TableRefinesLiveGrants(hash: string -> string, passwords: map<nat, string>, es: seq<Event>)
    requires Fresh(hash, es) && Orderly(es)
    ensures Refines(hash, After(hash, State([], passwords), es), LinksAfter(hash, Links(map[], passwords), es), es, Now(es))
    ensures es != [] ==> Answer(hash, State([], passwords), es) == LinkAnswer(hash, Links(map[], passwords), es)
    decreases |es|
  {
    var s, l := State([], passwords), Links(map[], passwords);
    if es == [] {
      EmptyRefines(hash, passwords, 0);
    } else {
      var before, e := SplitRun(hash, s, l, es);
      TableRefinesLiveGrants(hash, passwords, before);
      if before == [] { EmptyRefines(hash, passwords, e.now); }
      hide *;
      NowOf(before, e);
      NothingYet(hash, s, l);
      StepRefines(hash, After(hash, s, before), LinksAfter(hash, l, before), before, e,
                  if before == [] then e.now else Now(before));
    }
  }

  lemma NowOf(before: seq<Event>, e: Event)
    ensures Now(before + [e]) == e.now
  {
  }

  lemma NothingYet(hash: string -> string, s: State, l: Links)
    ensures After(hash, s, []) == s && LinksAfter(hash, l, []) == l
  {
  }

  /** In every reachable table each user has at most one unused token. */
  lemma OneUnusedTokenPerUser(hash: string -> string, passwords: map<nat, string>, es: seq<Event>, i: nat, j: nat)
    requires Fresh(hash, es) && Orderly(es)
    requires var rows := After(hash, State([], passwords), es).rows;
             && i < |rows| && j < |rows| && rows[i].usedAt.None? && rows[j].usedAt.None?
             && rows[i].user == rows[j].user
    ensures i == j
  {
    TableRefinesLiveGrants(hash, passwords, es);
    var rows := After(hash, State([], passwords), es).rows;
    assert rows[i] in rows && rows[j] in rows;
    hide After, LinksAfter, Fresh, Orderly;
  }

  // ------------------------------------------------------------ pruning is invisible

  /** The answers callers see; the pruning job has none. */
  ghost function Answers(hash: string -> string, s: State, es: seq<Event>): seq<Outcome> {
    if es == [] then []
    else
      var before := es[..|es| - 1];
      if es[|es| - 1].Prune? then Answers(hash, s, before) else Answers(hash, s, before) + [Answer(hash, s, es)]
  }

  ghost function Unpruned(es: seq<Event>): seq<Event> {
    if es == [] then []
    else
      var before := es[..|es| - 1];
      if es[|es| - 1].Prune? then Unpruned(before) else Unpruned(before) + [es[|es| - 1]]
  }

  lemma OneMoreEvent(hash: string -> string, l: Links, es: seq<Event>, e: Event)
    requires Fresh(hash, es) && Orderly(es)
    requires forall e' :: e' in es ==> e'.now <= e.now
    requires Draws(e) ==> forall e' :: e' in es && Draws(e') ==> e'.id != e.id && hash(e'.raw) != hash(e.raw)
    ensures Fresh(hash, es + [e]) && Orderly(es + [e])
    ensures LinksAfter(hash, l, es + [e]) == LinkStep(hash, LinksAfter(hash, l, es), e).0
  {
    hide LinkStep, Draws;
    assert (es + [e])[..|es|] == es;
  }

  lemma {:induction false} UnprunedRun(hash: string -> string, l: Links, es: seq<Event>)
    requires Fresh(hash, es) && Orderly(es)
    ensures Fresh(hash, Unpruned(es)) && Orderly(Unpruned(es))
    ensures forall e :: e in Unpruned(es) ==> e in es
    ensures LinksAfter(hash, l, Unpruned(es)) == LinksAfter(hash, l, es)
    decreases |es|
  {
    if es != [] {
      var before, e := es[..|es| - 1], es[|es| - 1];
      UnprunedRun(hash, l, before);
      hide Draws, Fresh, Orderly, LinksAfter;
      UnfoldRun(hash, l, es);
      if !e.Prune? {
        OneMoreEvent(hash, l, Unpruned(before), e);
      }
    }
  }

  lemma UnfoldRun(hash: string -> string, l: Links, es: seq<Event>)
    requires es != [] && Fresh(hash, es) && Orderly(es)
    ensures var before, e := es[..|es| - 1], es[|es| - 1];
            && (forall e' :: e' in before ==> e'.now <= e.now)
            && (Draws(e) ==> forall e' :: e' in before && Draws(e') ==> e'.id != e.id && hash(e'.raw) != hash(e.raw))
            && LinksAfter(hash, l, es) == LinkStep(hash, LinksAfter(hash, l, before), e).0
  {
    hide LinkStep, Draws;
  }

  /**
   Deleting consumed and expired rows at any times changes no answer and no
   password: the run without the pruning events looks the same to every caller.
   */
  lemma {:induction false} PruningIsInvisible(hash: string -> string, passwords: map<nat, string>, es: seq<Event>)
    requires Fresh(hash, es) && Orderly(es)
    ensures var s := State([], passwords);
            && Answers(hash, s, es) == Answers(hash, s, Unpruned(es))
            && After(hash, s, es).passwords == After(hash, s, Unpruned(es)).passwords
    decreases |es|
  {
    var s, l := State([], passwords), Links(map[], passwords);
    UnprunedRun(hash, l, es);
    TableRefinesLiveGrants(hash, passwords, es);
    TableRefinesLiveGrants(hash, passwords, Unpruned(es));
    hide After, LinksAfter, Fresh, Orderly, Now, Step, LinkStep;
    if es != [] {
      var before, e := SplitRun(hash, s, l, es);
      PruningIsInvisible(hash, passwords, before);
      UnprunedRun(hash, l, before);
      var kept := Unpruned(before);
      if !e.Prune? {
        assert Unpruned(es) == kept + [e];
        assert (kept + [e])[..|kept|] == kept;
      }
    }
  }

  // ------------------------------------------------------------- which links work

  /** Whether an event supersedes every link a user was sent before. */
  predicate Revokes(e: Event, user: nat) {
    (e.Activate? && e.user == user) || (Draws(e) && e.found.value.user == user)
  }

  /** Whether call `j` of the run reset a password through the link with hash `h`. */
  ghost predicate Redeems(hash: string -> string, passwords: map<nat, string>, es: seq<Event>, j: nat, h: string) {
    j < |es| && es[j].Consume? && hash(es[j].raw) == h && Answer(hash, State([], passwords), es[..j + 1]).Reset?
  }

  /** Link `h` was issued by call `i`, and neither superseded nor redeemed since. */
  ghost predicate Alive(hash: string -> string, passwords: map<nat, string>, es: seq<Event>, h: string, i: nat) {
    && i < |es| && Draws(es[i]) && hash(es[i].raw) == h
    && forall j :: i < j < |es| ==> !Revokes(es[j], es[i].found.value.user) && !Redeems(hash, passwords, es, j, h)
  }

  /** The grant call `i` makes. */
  function GrantOf(e: Event): Grant
    requires Draws(e)
  {
    Grant(e.found.value.user, e.now + TOKEN_TTL_SECONDS)
  }

  lemma AliveExtends(hash: string -> string, passwords: map<nat, string>, before: seq<Event>, e: Event, h: string, i: nat)
    requires i < |before|
    ensures Alive(hash, passwords, before + [e], h, i)
            <==> Alive(hash, passwords, before, h, i) && !Revokes(e, before[i].found.value.user)
                 && !Redeems(hash, passwords, before + [e], |before|, h)
  {
    var es, last := before + [e], |before|;
    forall j | 0 <= j < last
      ensures Redeems(hash, passwords, es, j, h) <==> Redeems(hash, passwords, before, j, h)
      ensures es[j] == before[j]
    {
      assert es[..j + 1] == before[..j + 1];
    }
    assert es[last] == e;
    hide Redeems, Revokes;
    if Alive(hash, passwords, before, h, i) {
      var user := before[i].found.value.user;
      if !Revokes(e, user) && !Redeems(hash, passwords, es, last, h) {
        forall j | i < j < |es| ensures !Revokes(es[j], user) && !Redeems(hash, passwords, es, j, h) {
          if j < last { assert !Revokes(before[j], user); }
        }
      }
    }
    if Alive(hash, passwords, es, h, i) {
      var user := es[i].found.value.user;
      assert !Revokes(es[last], user);
      forall j | i < j < last ensures !Revokes(before[j], user) && !Redeems(hash, passwords, before, j, h) {
        assert !Revokes(es[j], user);
      }
    }
  }

  /** How one event changes the grant of a link it does not issue. */
  lemma GrantStep(hash: string -> string, l: Links, e: Event, h: string)
    requires !(Draws(e) && hash(e.raw) == h)
    ensures var (l', o) := LinkStep(hash, l, e);
            && (h in l'.live <==> h in l.live && !Revokes(e, l.live[h].user)
                                  && !(e.Consume? && hash(e.raw) == h && o.Reset?))
            && (h in l'.live ==> l'.live[h] == l.live[h])
  {
  }

  /** The grant of `h`, if any, is that of the call that issued a link still alive. */
  ghost predicate GrantsAlive(hash: string -> string, passwords: map<nat, string>, es: seq<Event>,
                              live: map<string, Grant>, h: string)
  {
    && (h in live ==> exists i: nat :: Alive(hash, passwords, es, h, i) && live[h] == GrantOf(es[i]))
    && (forall i: nat :: Alive(hash, passwords, es, h, i) ==> h in live && live[h] == GrantOf(es[i]))
  }

  lemma IssuedNow(hash: string -> string, passwords: map<nat, string>, before: seq<Event>, e: Event, l: Links, h: string)
    requires Draws(e) && hash(e.raw) == h
    requires forall e' :: e' in before && Draws(e') ==> hash(e'.raw) != h
    ensures GrantsAlive(hash, passwords, before + [e], LinkStep(hash, l, e).0.live, h)
  {
    hide Redeems, Revokes;
    var es := before + [e];
    assert es[|before|] == e && Alive(hash, passwords, es, h, |before|);
    forall i: nat | i < |before| ensures !Alive(hash, passwords, es, h, i) {
      assert es[i] == before[i] && before[i] in before;
    }
  }

  lemma NotIssuedNow(hash: string -> string, passwords: map<nat, string>, before: seq<Event>, e: Event, l: Links, h: string)
    requires !(Draws(e) && hash(e.raw) == h)
    requires GrantsAlive(hash, passwords, before, l.live, h)
    requires Redeems(hash, passwords, before + [e], |before|, h)
             <==> e.Consume? && hash(e.raw) == h && LinkStep(hash, l, e).1.Reset?
    ensures GrantsAlive(hash, passwords, before + [e], LinkStep(hash, l, e).0.live, h)
  {
    var es := before + [e];
    assert !Alive(hash, passwords, es, h, |before|);
    GrantStep(hash, l, e, h);
    hide Redeems, LinkStep, Revokes, Alive;
    forall i: nat | i < |before|
      ensures es[i] == before[i]
      ensures Alive(hash, passwords, es, h, i)
              <==> Alive(hash, passwords, before, h, i) && !Revokes(e, before[i].found.value.user)
                   && !Redeems(hash, passwords, es, |before|, h)
    {
      AliveExtends(hash, passwords, before, e, h, i);
    }
    AliveInRange(hash, passwords, es, h);
    AliveInRange(hash, passwords, before, h);
  }

  lemma AliveInRange(hash: string -> string, passwords: map<nat, string>, es: seq<Event>, h: string)
    ensures forall i: nat :: Alive(hash, passwords, es, h, i) ==> i < |es| && Draws(es[i])
  {
    hide Redeems, Revokes;
  }

  /** Grants and living links are the same thing. */
  lemma {:induction false} GrantsAreLivingLinks(hash: string -> string, passwords: map<nat, string>, es: seq<Event>,
                                                h: string)
    requires Fresh(hash, es) && Orderly(es)
    ensures GrantsAlive(hash, passwords, es, LinksAfter(hash, Links(map[], passwords), es).live, h)
    decreases |es|
  {
    var s, l := State([], passwords), Links(map[], passwords);
    if es == [] {
      NothingYet(hash, s, l);
    } else {
      hide *;
      var before, e := SplitRun(hash, s, l, es);
      GrantsAreLivingLinks(hash, passwords, before, h);
      var l0 := LinksAfter(hash, l, before);
      if Draws(e) && hash(e.raw) == h {
        IssuedNow(hash, passwords, before, e, l0, h);
      } else {
        LastRedeems(hash, passwords, before, e, h);
        NotIssuedNow(hash, passwords, before, e, l0, h);
      }
    }
  }

  lemma LastRedeems(hash: string -> string, passwords: map<nat, string>, before: seq<Event>, e: Event, h: string)
    requires Fresh(hash, before + [e]) && Orderly(before + [e])
    ensures var l := LinksAfter(hash, Links(map[], passwords), before);
            Redeems(hash, passwords, before + [e], |before|, h)
            <==> e.Consume? && hash(e.raw) == h && LinkStep(hash, l, e).1.Reset?
  {
    hide *;
    TableRefinesLiveGrants(hash, passwords, before + [e]);
    RedeemsUnfolds(hash, passwords, before, e, h);
    LinkAnswerUnfolds(hash, Links(map[], passwords), before, e);
  }

  lemma RedeemsUnfolds(hash: string -> string, passwords: map<nat, string>, before: seq<Event>, e: Event, h: string)
    ensures Redeems(hash, passwords, before + [e], |before|, h)
            <==> e.Consume? && hash(e.raw) == h && Answer(hash, State([], passwords), before + [e]).Reset?
  {
    hide Answer;
    var es := before + [e];
    assert es[..|before| + 1] == es && es[|before|] == e;
  }

  lemma LinkAnswerUnfolds(hash: string -> string, l: Links, before: seq<Event>, e: Event)
    ensures LinkAnswer(hash, l, before + [e]) == LinkStep(hash, LinksAfter(hash, l, before), e).1
  {
    hide LinkStep, LinksAfter;
    assert (before + [e])[..|before|] == before;
  }

  /**
   Which links work, for every run: submitting a password with link `h` resets
   the password of `user` exactly when some earlier call issued `h` to them less
   than an hour before, and no call since superseded their links or redeemed it.
   */
  lemma LinkWorksExactlyWhen(hash: string -> string, passwords: map<nat, string>, before: seq<Event>, e: Event, user: nat)
    requires e.Consume? && e.password != "" && e.hashed.Some?
    requires Fresh(hash, before + [e]) && Orderly(before + [e])
    ensures Answer(hash, State([], passwords), before + [e]) == Reset(user)
            <==> exists i: nat :: Alive(hash, passwords, before, hash(e.raw), i)
                                  && before[i].found.value.user == user && e.now < before[i].now + 3600
  {
    var s, l, h, es := State([], passwords), Links(map[], passwords), hash(e.raw), before + [e];
    var before', e' := SplitRun(hash, s, l, es);
    assert before' == before && e' == e by { assert es[..|before|] == before && es[..|before|] == before'; }
    TableRefinesLiveGrants(hash, passwords, es);
    GrantsAreLivingLinks(hash, passwords, before, h);
    hide After, LinksAfter, Answer, LinkAnswer, Fresh, Orderly, Alive, Refines;
    AliveInRange(hash, passwords, before, h);
  }

  lemma LastDrawIsNew(hash: string -> string, es: seq<Event>, i: nat)
    requires Fresh(hash, es) && i < |es| - 1 && Draws(es[i]) && Draws(es[|es| - 1])
    ensures hash(es[i].raw) != hash(es[|es| - 1].raw)
  {
    assert es[..|es| - 1][i] in es[..|es| - 1];
  }

  /** No hash is drawn by two calls. */
  lemma {:induction false} DrawnOnce(hash: string -> string, es: seq<Event>, i: nat, j: nat)
    requires Fresh(hash, es) && i < |es| && j < |es| && Draws(es[i]) && Draws(es[j]) && hash(es[i].raw) == hash(es[j].raw)
    ensures i == j
    decreases |es|
  {
    var last := |es| - 1;
    if i < last && j < last {
      DrawnOnce(hash, es[..last], i, j);
    } else if i < last {
      LastDrawIsNew(hash, es, i);
    } else if j < last {
      LastDrawIsNew(hash, es, j);
    }
  }

  lemma {:induction false} PrefixIsFresh(hash: string -> string, es: seq<Event>, n: nat)
    requires Fresh(hash, es) && Orderly(es) && n <= |es|
    ensures Fresh(hash, es[..n]) && Orderly(es[..n])
    decreases |es|
  {
    if n == |es| {
      assert es[..n] == es;
    } else {
      PrefixIsFresh(hash, es[..|es| - 1], n);
      assert es[..|es| - 1][..n] == es[..n];
    }
  }

  /** A redeemed link was alive until then. */
  lemma RedeemedWasAlive(hash: string -> string, passwords: map<nat, string>, es: seq<Event>, j: nat, h: string)
    returns (i: nat)
    requires Fresh(hash, es) && Orderly(es) && Redeems(hash, passwords, es, j, h)
    ensures i < j && Alive(hash, passwords, es[..j], h, i)
    ensures Answer(hash, State([], passwords), es[..j + 1]) == Reset(es[i].found.value.user)
  {
    var o := Answer(hash, State([], passwords), es[..j + 1]);
    assert es[j].Consume? && hash(es[j].raw) == h && o.Reset?;
    var before, e := es[..j], es[j];
    assert es[..j + 1] == before + [e];
    hide *;
    PrefixIsFresh(hash, es, j + 1);
    ResetNeedsAPassword(hash, State([], passwords), before, e);
    AliveInRange(hash, passwords, before, h);
    LinkWorksExactlyWhen(hash, passwords, before, e, o.user);
    i :| Alive(hash, passwords, before, h, i) && before[i].found.value.user == o.user;
  }

  lemma ResetNeedsAPassword(hash: string -> string, s: State, before: seq<Event>, e: Event)
    requires e.Consume? && Answer(hash, s, before + [e]).Reset?
    ensures e.password != "" && e.hashed.Some?
  {
    hide After;
  }

  /** A link resets a password at most once. */
  lemma LinksAreSingleUse(hash: string -> string, passwords: map<nat, string>, es: seq<Event>, j: nat, k: nat, h: string)
    requires Fresh(hash, es) && Orderly(es)
    requires Redeems(hash, passwords, es, j, h) && Redeems(hash, passwords, es, k, h)
    ensures j == k
  {
    hide *;
    if j != k {
      var first, second := if j < k then j else k, if j < k then k else j;
      RedeemsInRange(hash, passwords, es, second, h);
      var i1 := RedeemedWasAlive(hash, passwords, es, first, h);
      var i2 := RedeemedWasAlive(hash, passwords, es, second, h);
      AliveInRange(hash, passwords, es[..first], h);
      AliveInRange(hash, passwords, es[..second], h);
      AliveSays(hash, passwords, es[..first], h, i1);
      AliveSays(hash, passwords, es[..second], h, i2);
      DrawnOnce(hash, es, i1, i2);
      SpentIsDead(hash, passwords, es, first, second, h, i1);
    }
  }

  lemma RedeemsInRange(hash: string -> string, passwords: map<nat, string>, es: seq<Event>, j: nat, h: string)
    requires Redeems(hash, passwords, es, j, h)
    ensures j < |es|
  {
  }

  lemma AliveSays(hash: string -> string, passwords: map<nat, string>, es: seq<Event>, h: string, i: nat)
    requires Alive(hash, passwords, es, h, i)
    ensures i < |es| && Draws(es[i]) && hash(es[i].raw) == h
  {
  }

  lemma SpentIsDead(
    hash: string -> string, passwords: map<nat, string>, es: seq<Event>, first: nat, second: nat, h: string, i: nat)
    requires i < first < second <= |es| && Redeems(hash, passwords, es, first, h)
    ensures !Alive(hash, passwords, es[..second], h, i)
  {
    assert es[..second][first] == es[first] && es[..second][..first + 1] == es[..first + 1];
    assert Redeems(hash, passwords, es[..second], first, h);
    hide Redeems, Revokes;
  }

  /**
   A link issued before a second factor was activated, or before a newer link was
   issued, never works for that user afterwards.
   */
  lemma RevokedLinksNeverWork(hash: string -> string, passwords: map<nat, string>, es: seq<Event>, i: nat, j: nat, k: nat)
    requires Fresh(hash, es) && Orderly(es)
    requires i < j < k < |es| && Draws(es[i]) && Revokes(es[j], es[i].found.value.user)
    ensures !Redeems(hash, passwords, es, k, hash(es[i].raw))
  {
    var h := hash(es[i].raw);
    assert !Alive(hash, passwords, es[..k], h, i) by {
      assert Revokes(es[..k][j], es[..k][i].found.value.user);
    }
    if Redeems(hash, passwords, es, k, h) {
      var i' := RedeemedWasAlive(hash, passwords, es, k, h);
      DrawnOnce(hash, es, i, i');
    }
  }

  // ------------------------------------------------------------------- passwords

  /**
   A call answered `Reset(user)` is a consume that leaves the submitted hash, and
   nothing else, as the password of that user; no other call changes a password.
   */
  lemma OnlyResetsSetPasswords(hash: string -> string, s: State, e: Event)
    ensures var (s', o) := Step(hash, s, e);
            if o.Reset? then
              && e.Consume? && e.password != "" && e.hashed.Some?
              && s'.passwords.Keys == s.passwords.Keys
              && (o.user in s.passwords ==> s'.passwords[o.user] == e.hashed.value)
              && (forall u :: u in s.passwords && u != o.user ==> s'.passwords[u] == s.passwords[u])
            else s'.passwords == s.passwords
  {
  }

  /** Call `j` of the run answered that it reset the password of `user`. */
  ghost predicate ResetsAt(hash: string -> string, s: State, es: seq<Event>, j: nat, user: nat) {
    j < |es| && Answer(hash, s, es[..j + 1]) == Reset(user)
  }

  ghost predicate NeverReset(hash: string -> string, s: State, es: seq<Event>, user: nat) {
    forall j: nat :: !ResetsAt(hash, s, es, j, user)
  }

  ghost predicate LastResetAt(hash: string -> string, s: State, es: seq<Event>, j: nat, user: nat) {
    ResetsAt(hash, s, es, j, user) && forall k: nat :: j < k ==> !ResetsAt(hash, s, es, k, user)
  }

  lemma ResetsExtend(hash: string -> string, s: State, before: seq<Event>, e: Event, user: nat)
    ensures forall j: nat ::
              ResetsAt(hash, s, before + [e], j, user)
              <==> ResetsAt(hash, s, before, j, user)
                   || (j == |before| && Step(hash, After(hash, s, before), e).1 == Reset(user))
  {
    hide Step, After;
    var es := before + [e];
    assert es[..|before| + 1] == es && es[..|es| - 1] == before;
    forall j: nat | j < |before| ensures ResetsAt(hash, s, es, j, user) <==> ResetsAt(hash, s, before, j, user) {
      assert es[..j + 1] == before[..j + 1];
    }
  }

  lemma ResetsSoFar(hash: string -> string, s: State, before: seq<Event>, e: Event, user: nat)
    ensures var es, now := before + [e], Step(hash, After(hash, s, before), e).1 == Reset(user);
            && (NeverReset(hash, s, es, user) <==> NeverReset(hash, s, before, user) && !now)
            && forall j: nat :: LastResetAt(hash, s, es, j, user)
                 <==> if now then j == |before| else LastResetAt(hash, s, before, j, user)
  {
    ResetsExtend(hash, s, before, e, user);
    InRange(hash, s, before, user);
    hide ResetsAt, Step, After;
    var es := before + [e];
    assert Step(hash, After(hash, s, before), e).1 == Reset(user) ==> ResetsAt(hash, s, es, |before|, user);
  }

  lemma InRange(hash: string -> string, s: State, es: seq<Event>, user: nat)
    ensures forall j: nat :: ResetsAt(hash, s, es, j, user) ==> j < |es|
  {
  }

  lemma LastInRange(hash: string -> string, s: State, es: seq<Event>, user: nat)
    ensures forall j: nat :: LastResetAt(hash, s, es, j, user) ==> j < |es|
  {
    hide ResetsAt;
    InRange(hash, s, es, user);
  }

  /**
   After every run a user's password hash is the one submitted by the last call that
   reset it, and the initial one when there is none.
   */
  lemma {:induction false} PasswordIsTheLastOneSubmitted(hash: string -> string, s: State, es: seq<Event>, user: nat)
    requires user in s.passwords
    ensures After(hash, s, es).passwords.Keys == s.passwords.Keys
    ensures NeverReset(hash, s, es, user) ==> After(hash, s, es).passwords[user] == s.passwords[user]
    ensures forall j: nat :: LastResetAt(hash, s, es, j, user) ==>
              && j < |es| && es[j].Consume? && es[j].hashed.Some?
              && After(hash, s, es).passwords[user] == es[j].hashed.value
    decreases |es|
  {
    LastInRange(hash, s, es, user);
    if es != [] {
      var before, e := es[..|es| - 1], es[|es| - 1];
      assert es == before + [e];
      assert After(hash, s, es) == Step(hash, After(hash, s, before), e).0;
      hide Step, After, NeverReset, LastResetAt;
      PasswordIsTheLastOneSubmitted(hash, s, before, user);
      OnlyResetsSetPasswords(hash, After(hash, s, before), e);
      ResetsSoFar(hash, s, before, e, user);
    }
  }

  /** What can end a link: its redemption, a newer link or a second factor of its user. */
  predicate Ends(e: Event, user: nat) {
    match e
    case Request(found, _, _, _) => found == Some(Account(user, true))
    case Consume(_, _, _, _) => true
    case Activate(u, _) => u == user
    case Prune(_) => false
  }

  /** A used row says when it was used: at one of the calls that can end a link of its user. */
  lemma {:induction false} UsedRowsTellWhen(hash: string -> string, passwords: map<nat, string>, es: seq<Event>, tok: Token)
    requires tok in After(hash, State([], passwords), es).rows && tok.usedAt.Some?
    ensures exists j :: 0 <= j < |es| && Ends(es[j], tok.user) && tok.usedAt == Some(es[j].now)
  {
    if es != [] {
      var before, e := es[..|es| - 1], es[|es| - 1];
      RowsUsedInStep(hash, After(hash, State([], passwords), before), e, tok);
      hide Step, Ends;
      if tok in After(hash, State([], passwords), before).rows {
        UsedRowsTellWhen(hash, passwords, before, tok);
        var j :| 0 <= j < |before| && Ends(before[j], tok.user) && tok.usedAt == Some(before[j].now);
        assert es[j] == before[j];
      }
    }
  }

  lemma RowsUsedInStep(hash: string -> string, s: State, e: Event, tok: Token)
    requires tok in Step(hash, s, e).0.rows && tok.usedAt.Some?
    ensures tok in s.rows || (Ends(e, tok.user) && tok.usedAt == Some(e.now))
  {
  }

  /** What a consume answers, from its arguments and the rows; only a reset has an effect. */
  lemma ConsumeAnswers(hash: string -> string, s: State, e: Event)
    requires e.Consume?
    ensures var (s', o) := Step(hash, s, e);
            var live := exists tok :: tok in s.rows && tok.hash == hash(e.raw) && tok.usedAt.None? && tok.expiresAt > e.now;
            && (o == EmptyPassword <==> e.password == "")
            && (o == InvalidOrExpired <==> e.password != "" && !live)
            && (o == HashFailed <==> e.password != "" && live && e.hashed.None?)
            && (o.Reset? <==> e.password != "" && live && e.hashed.Some?)
            && (!o.Reset? ==> s' == s)
  {
    var found := FindValid(s.rows, hash(e.raw), e.now);
    if found.None? {
      forall tok | tok in s.rows && tok.hash == hash(e.raw) && tok.usedAt.None? ensures tok.expiresAt <= e.now {
        assert !Usable(tok, hash(e.raw), e.now);
      }
    } else {
      var tok :| tok in s.rows && Usable(tok, hash(e.raw), e.now);
      assert tok.hash == hash(e.raw) && tok.usedAt.None? && tok.expiresAt > e.now;
    }
    hide FindValid, MarkedUsed, WithPassword;
  }
}
