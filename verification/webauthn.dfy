/**
 Passkeys: the credential lookup and signature-counter check of an authentication
 ceremony (sections 6.1.1 and 7.2 of W3C Web Authentication Level 2), and the
 length-prefixed encoding RSA public keys are stored in.
 */
module Webauthn {
  import opened Prelude

  datatype Error = CeremonyExpired | NoCredentials | InvalidResponse

  // ------------------------------------------------------------------ credentials

  datatype Stored = Stored(credentialId: string, publicKey: bytes, signCount: nat)

  /** A row of `webauthn_credentials`; `passkey` is `None` when its JSON does not parse. */
  datatype Row = Row(id: nat, user: nat, passkey: Option<Stored>)

  /** The table in `created_at` order. */
  type Rows = seq<Row>

  function Listed(rows: Rows, user: nat): (r: Rows)
    ensures forall row :: row in r <==> row in rows && row.user == user
  {
    if rows == [] then []
    else
      var init, last := rows[..|rows| - 1], rows[|rows| - 1];
      if last.user == user then Listed(init, user) + [last] else Listed(init, user)
  }

  predicate Other(row: Row, credentialId: string) {
    row.passkey.Some? && row.passkey.value.credentialId != credentialId
  }

  /** From `i` on, the first row that is unreadable or carries `credentialId`. */
  function Match(listed: Rows, credentialId: string, i: nat): (r: Result<Option<(nat, Stored)>, Error>)
    requires i <= |listed|
    ensures match r
            case Ok(Some((id, stored))) =>
              exists k :: i <= k < |listed| && listed[k].id == id && listed[k].passkey == Some(stored)
                          && stored.credentialId == credentialId
                          && forall j :: i <= j < k ==> Other(listed[j], credentialId)
            case Ok(None) => forall j :: i <= j < |listed| ==> Other(listed[j], credentialId)
            case Err(e) =>
              e == InvalidResponse
              && exists k :: i <= k < |listed| && listed[k].passkey.None?
                             && forall j :: i <= j < k ==> Other(listed[j], credentialId)
    decreases |listed| - i
  {
    if i == |listed| then Ok(None)
    else
      match listed[i].passkey
      case None => Err(InvalidResponse)
      case Some(stored) =>
        if stored.credentialId == credentialId then Ok(Some((listed[i].id, stored)))
        else Match(listed, credentialId, i + 1)
  }

  // ------------------------------------------------------------- table statements

  function Inserted(rows: Rows, row: Row): Rows {
    rows + [row]
  }

  function Updated(rows: Rows, id: nat, passkey: Stored): (r: Rows)
    ensures |r| == |rows|
  {
    seq(|rows|, i requires 0 <= i < |rows| =>
          if rows[i].id == id then rows[i].(passkey := Some(passkey)) else rows[i])
  }

  function Deleted(rows: Rows, user: nat, id: nat): (r: Rows)
    ensures forall row :: row in r <==> row in rows && !(row.id == id && row.user == user)
  {
    if rows == [] then []
    else
      var init, last := rows[..|rows| - 1], rows[|rows| - 1];
      if last.id == id && last.user == user then Deleted(init, user, id) else Deleted(init, user, id) + [last]
  }

  // -------------------------------------------------------------- authentication

  /**
   A completed ceremony: the answer of the ceremony-token check, and that of the
   checks on the client data, the authenticator data and the signature.
   */
  datatype Assertion = Assertion(user: nat, credentialId: string, token: Option<Error>, response: Option<Error>,
                                 counter: Option<nat>)

  function NewCounter(a: Assertion): nat {
    match a.counter case Some(c) => c case None => 0
  }

  predicate CounterWentBack(stored: nat, reported: nat) {
    (stored != 0 || reported != 0) && reported <= stored
  }

  /** The accepted row and its new contents, or the refusal. */
  function Accepted(rows: Rows, a: Assertion): Result<(nat, Stored), Error> {
    if a.token.Some? then Err(a.token.value)
    else if Listed(rows, a.user) == [] then Err(NoCredentials)
    else
      match Match(Listed(rows, a.user), a.credentialId, 0)
      case Err(e) => Err(e)
      case Ok(None) => Err(InvalidResponse)
      case Ok(Some((id, stored))) =>
        if a.response.Some? then Err(a.response.value)
        else if CounterWentBack(stored.signCount, NewCounter(a)) then Err(InvalidResponse)
        else Ok((id, stored.(signCount := NewCounter(a))))
  }

  function Authenticated(rows: Rows, a: Assertion): Rows {
    match Accepted(rows, a)
    case Ok((id, stored)) => Updated(rows, id, stored)
    case Err(_) => rows
  }

  class CredentialTable {
    var rows: Rows

    constructor ()
      ensures rows == []
    {
      rows := [];
    }

    method Insert(row: Row)
      modifies this
      ensures rows == Inserted(old(rows), row)
    {
      rows := rows + [row];
    }

    method ListForUser(user: nat) returns (listed: Rows)
      ensures listed == Listed(rows, user)
    {
      listed := Listed(rows, user);
    }

    method UpdatePasskey(id: nat, passkey: Stored)
      modifies this
      ensures rows == Updated(old(rows), id, passkey)
    {
      rows := Updated(rows, id, passkey);
    }

    method Delete(user: nat, id: nat) returns (deleted: bool)
      modifies this
      ensures rows == Deleted(old(rows), user, id)
      ensures deleted <==> exists row :: row in old(rows) && row.id == id && row.user == user
    {
      deleted := exists row :: row in rows && row.id == id && row.user == user;
      rows := Deleted(rows, user, id);
    }

    /** Accepts with the id of the credential used, and moves its stored counter. */
    method FinishAuthentication(a: Assertion) returns (r: Result<nat, Error>)
      modifies this
      ensures rows == Authenticated(old(rows), a)
      ensures r == match Accepted(old(rows), a) case Ok((id, _)) => Ok(id) case Err(e) => Err(e)
    {
      if a.token.Some? {
        return Err(a.token.value);
      }
      var existing := ListForUser(a.user);
      if existing == [] {
        return Err(NoCredentials);
      }
      var matched: Option<(nat, Stored)> := None;
      for i := 0 to |existing|
        invariant matched.None? && Match(existing, a.credentialId, i) == Match(existing, a.credentialId, 0)
      {
        var passkey := existing[i].passkey;
        if passkey.None? {
          return Err(InvalidResponse);
        }
        if passkey.value.credentialId == a.credentialId {
          matched := Some((existing[i].id, passkey.value));
          break;
        }
      }
      if matched.None? {
        return Err(InvalidResponse);
      }
      var (id, stored) := matched.value;
      if a.response.Some? {
        return Err(a.response.value);
      }
      var newCounter := match a.counter case Some(c) => c case None => 0;
      if (stored.signCount != 0 || newCounter != 0) && newCounter <= stored.signCount {
        return Err(InvalidResponse);
      }
      UpdatePasskey(id, stored.(signCount := newCounter));
      r := Ok(id);
    }
  }

  // -------------------------------------------------------------------------- runs

  datatype Event =
    | Register(id: nat, user: nat, passkey: Stored)
    | Authenticate(assertion: Assertion)
    | Revoke(user: nat, id: nat)

  function Step(rows: Rows, e: Event): Rows {
    match e
    case Register(id, user, passkey) => Inserted(rows, Row(id, user, Some(passkey)))
    case Authenticate(a) => Authenticated(rows, a)
    case Revoke(user, id) => Deleted(rows, user, id)
  }

  function After(rows: Rows, es: seq<Event>): Rows {
    if es == [] then rows else Step(After(rows, es[..|es| - 1]), es[|es| - 1])
  }

  /** The counter an event sets on credential row `id`: at registration, or by an accepted assertion. */
  function CounterSet(rows: Rows, e: Event, id: nat): Option<nat> {
    match e
    case Register(id', _, passkey) => if id' == id then Some(passkey.signCount) else None
    case Authenticate(a) =>
      (match Accepted(rows, a)
       case Ok((id', stored)) => if id' == id then Some(stored.signCount) else None
       case Err(_) => None)
    case Revoke(_, _) => None
  }

  function Counters(rows: Rows, es: seq<Event>, id: nat): seq<nat> {
    if es == [] then []
    else
      var before := es[..|es| - 1];
      var counter := CounterSet(After(rows, before), es[|es| - 1], id);
      if counter.Some? then Counters(rows, before, id) + [counter.value] else Counters(rows, before, id)
  }

  /** Row ids are new when they are inserted. */
  ghost predicate FreshIds(rows: Rows, es: seq<Event>) {
    && (forall i, row :: 0 <= i < |es| && es[i].Register? && row in rows ==> row.id != es[i].id)
    && (forall i, j :: 0 <= i < j < |es| && es[i].Register? && es[j].Register? ==> es[i].id != es[j].id)
  }

  /** Whether row `id` was inserted in the run. */
  predicate Registered(es: seq<Event>, id: nat) {
    exists i :: 0 <= i < |es| && es[i].Register? && es[i].id == id
  }

  ghost predicate Rising(cs: seq<nat>) {
    forall i, j :: 0 <= i < j < |cs| ==> cs[i] < cs[j] || cs[i] == cs[j] == 0
  }

  /** Every row with this id stores the last counter set. */
  ghost predicate StoresLast(rows: Rows, id: nat, cs: seq<nat>) {
    forall row :: row in rows && row.id == id ==>
      cs != [] && row.passkey.Some? && row.passkey.value.signCount == cs[|cs| - 1]
  }

  lemma StepKeepsLast(rows: Rows, e: Event, id: nat, cs: seq<nat>)
    requires StoresLast(rows, id, cs) && Rising(cs)
    requires e.Register? && e.id == id ==> cs == [] && forall row :: row in rows ==> row.id != id
    ensures var counter := CounterSet(rows, e, id);
            var cs' := if counter.Some? then cs + [counter.value] else cs;
            StoresLast(Step(rows, e), id, cs') && Rising(cs')
  {
    hide Accepted, Listed, Match;
    match e
    case Register(_, _, _) =>
    case Revoke(_, _) =>
    case Authenticate(a) =>
      AcceptedRowMovesForward(rows, a);
      if Accepted(rows, a).Ok? && Accepted(rows, a).value.0 == id {
        NextIsHigher(cs, Accepted(rows, a).value.1.signCount);
      }
  }

  lemma NextIsHigher(cs: seq<nat>, c: nat)
    requires Rising(cs) && cs != [] && (cs[|cs| - 1] < c || cs[|cs| - 1] == c == 0)
    ensures Rising(cs + [c])
  {
    var cs' := cs + [c];
    forall i, j | 0 <= i < j < |cs'| ensures cs'[i] < cs'[j] || cs'[i] == cs'[j] == 0 {
      if j == |cs| && i < |cs| - 1 {
        assert cs[i] < cs[|cs| - 1] || cs[i] == cs[|cs| - 1] == 0;
      }
    }
  }

  /** The accepted row is in the table, and its counter moves on or stays at zero. */
  lemma AcceptedRowMovesForward(rows: Rows, a: Assertion)
    ensures Accepted(rows, a).Ok? ==>
              var (id, stored) := Accepted(rows, a).value;
              exists row :: row in rows && row.id == id && row.user == a.user && row.passkey.Some?
                            && row.passkey.value.credentialId == a.credentialId
                            && (row.passkey.value.signCount < stored.signCount
                                || row.passkey.value.signCount == stored.signCount == 0)
  {
    if Accepted(rows, a).Ok? {
      var listed := Listed(rows, a.user);
      var r := Match(listed, a.credentialId, 0);
      var k :| 0 <= k < |listed| && listed[k].id == r.value.value.0 && listed[k].passkey == Some(r.value.value.1)
               && r.value.value.1.credentialId == a.credentialId;
      assert listed[k] in listed;
    }
  }

  lemma {:induction false} NotYetRegistered(rows: Rows, es: seq<Event>, id: nat)
    requires (forall row :: row in rows ==> row.id != id) && !Registered(es, id)
    ensures Counters(rows, es, id) == [] && forall row :: row in After(rows, es) ==> row.id != id
  {
    if es != [] {
      var before, e := es[..|es| - 1], es[|es| - 1];
      forall i | 0 <= i < |before| && before[i].Register? ensures before[i].id != id { assert es[i] == before[i]; }
      NotYetRegistered(rows, before, id);
      assert e.Register? ==> e.id != id;
      if e.Authenticate? {
        AcceptedRowMovesForward(After(rows, before), e.assertion);
        hide Accepted, Listed;
      }
    }
  }

  lemma {:induction false} CountersRise(rows: Rows, es: seq<Event>, id: nat)
    requires FreshIds(rows, es) && forall row :: row in rows ==> row.id != id
    ensures Rising(Counters(rows, es, id))
    ensures StoresLast(After(rows, es), id, Counters(rows, es, id))
  {
    if es != [] {
      var before, e := es[..|es| - 1], es[|es| - 1];
      CountersRise(rows, before, id);
      if e.Register? && e.id == id {
        NotYetRegistered(rows, before, id);
      }
      hide Step, CounterSet, StoresLast, Rising;
      StepKeepsLast(After(rows, before), e, id, Counters(rows, before, id));
    }
  }

  /**
   In every run, the counters set on one credential, from its registration on, are
   a run of zeros followed by strictly increasing positive values.
   */
  lemma ZerosThenIncreasing(rows: Rows, es: seq<Event>, id: nat) returns (zeros: nat)
    requires FreshIds(rows, es) && forall row :: row in rows ==> row.id != id
    ensures var cs := Counters(rows, es, id);
            && zeros <= |cs|
            && (forall i :: 0 <= i < zeros ==> cs[i] == 0)
            && (forall i :: zeros <= i < |cs| ==> cs[i] > 0)
            && (forall i, j :: zeros <= i < j < |cs| ==> cs[i] < cs[j])
  {
    CountersRise(rows, es, id);
    var cs := Counters(rows, es, id);
    zeros := 0;
    while zeros < |cs| && cs[zeros] == 0
      invariant zeros <= |cs| && forall i :: 0 <= i < zeros ==> cs[i] == 0
    {
      zeros := zeros + 1;
    }
  }

  /** So an assertion carrying a nonzero counter is accepted at most once on a credential. */
  lemma NonzeroCountersNeverRepeat(rows: Rows, es: seq<Event>, id: nat, i: nat, j: nat)
    requires FreshIds(rows, es) && forall row :: row in rows ==> row.id != id
    requires i < |Counters(rows, es, id)| && j < |Counters(rows, es, id)|
    requires Counters(rows, es, id)[i] == Counters(rows, es, id)[j] != 0
    ensures i == j
  {
    CountersRise(rows, es, id);
  }

  /**
   An otherwise valid assertion is accepted exactly when its counter continues the
   counters set on its credential.
   */
  lemma AcceptedExactlyWhenRising(rows: Rows, es: seq<Event>, a: Assertion, id: nat, stored: Stored)
    requires FreshIds(rows, es) && forall row :: row in rows ==> row.id != id
    requires a.token.None? && a.response.None?
    requires Match(Listed(After(rows, es), a.user), a.credentialId, 0) == Ok(Some((id, stored)))
    ensures Accepted(After(rows, es), a).Ok? <==> Rising(Counters(rows, es, id) + [NewCounter(a)])
  {
    CountersRise(rows, es, id);
    hide *;
    var now, cs := After(rows, es), Counters(rows, es, id);
    MatchedStoresLast(now, a, id, stored, cs);
    RisesExactlyUnlessBack(cs, NewCounter(a));
    AcceptedUnlessBack(now, a, id, stored);
  }

  lemma AcceptedUnlessBack(rows: Rows, a: Assertion, id: nat, stored: Stored)
    requires a.token.None? && a.response.None?
    requires Match(Listed(rows, a.user), a.credentialId, 0) == Ok(Some((id, stored)))
    ensures Accepted(rows, a).Ok? <==> !CounterWentBack(stored.signCount, NewCounter(a))
  {
    hide Listed, CounterWentBack, NewCounter;
  }

  lemma MatchedStoresLast(rows: Rows, a: Assertion, id: nat, stored: Stored, cs: seq<nat>)
    requires StoresLast(rows, id, cs)
    requires Match(Listed(rows, a.user), a.credentialId, 0) == Ok(Some((id, stored)))
    ensures cs != [] && stored.signCount == cs[|cs| - 1]
  {
    var listed := Listed(rows, a.user);
    var k :| 0 <= k < |listed| && listed[k].id == id && listed[k].passkey == Some(stored);
    assert listed[k] in listed;
  }

  lemma RisesExactlyUnlessBack(cs: seq<nat>, c: nat)
    requires Rising(cs) && cs != []
    ensures Rising(cs + [c]) <==> !CounterWentBack(cs[|cs| - 1], c)
  {
    if Rising(cs + [c]) {
      assert (cs + [c])[|cs| - 1] == cs[|cs| - 1] && (cs + [c])[|cs|] == c;
    }
    if !CounterWentBack(cs[|cs| - 1], c) {
      NextIsHigher(cs, c);
    }
  }

  // ------------------------------------------------------------------ RSA key codec

  /** The big-endian unsigned value of a byte string. */
  function Value(b: bytes): nat {
    if b == [] then 0 else 256 * Value(b[..|b| - 1]) + b[|b| - 1]
  }

  function TrimLeadingZeros(b: bytes): (r: bytes)
    ensures |r| <= |b| && r == b[|b| - |r|..]
    ensures forall i :: 0 <= i < |b| - |r| ==> b[i] == 0
    ensures r != [] ==> r[0] != 0
  {
    if b != [] && b[0] == 0 then TrimLeadingZeros(b[1..]) else b
  }

  function U16BigEndian(n: nat): bytes
    requires n < 0x10000
  {
    [n / 0x100, n % 0x100]
  }

  function U16FromBigEndian(high: byte, low: byte): (n: nat) {
    256 * high as int + low as int
  }

  function EncodeRsaPublicKey(modulus: bytes, exponent: bytes): Result<bytes, Error> {
    var n, e := TrimLeadingZeros(modulus), TrimLeadingZeros(exponent);
    if |n| < 0x10000 then Ok(U16BigEndian(|n|) + n + e) else Err(InvalidResponse)
  }

  /** The modulus and exponent bytes handed on to build the key. */
  function SplitRsaPublicKey(b: bytes): Result<(bytes, bytes), Error> {
    if |b| < 2 then Err(InvalidResponse)
    else
      var len, rest := U16FromBigEndian(b[0], b[1]), b[2..];
      if |rest| <= len then Err(InvalidResponse) else Ok((rest[..len], rest[len..]))
  }

  method EncodeRsaPublicKeyInto(modulus: bytes, exponent: bytes) returns (r: Result<bytes, Error>)
    ensures r == EncodeRsaPublicKey(modulus, exponent)
  {
    var n := TrimLeadingZeros(modulus);
    var e := TrimLeadingZeros(exponent);
    if |n| >= 0x10000 {
      return Err(InvalidResponse);
    }
    var out := U16BigEndian(|n|);
    out := out + n;
    out := out + e;
    r := Ok(out);
  }

  lemma {:induction false} LeadingZeroAddsNothing(b: bytes)
    requires b != [] && b[0] == 0
    ensures Value(b) == Value(b[1..])
  {
    if |b| == 1 {
      assert b[..0] == [] && b[1..] == [];
    } else {
      LeadingZeroAddsNothing(b[..|b| - 1]);
      assert b[1..][..|b| - 2] == b[..|b| - 1][1..];
    }
  }

  lemma {:induction false} TrimmingKeepsTheValue(b: bytes)
    ensures Value(TrimLeadingZeros(b)) == Value(b)
  {
    if b != [] && b[0] == 0 {
      TrimmingKeepsTheValue(b[1..]);
      LeadingZeroAddsNothing(b);
    }
  }

  ghost predicate Trimmed(b: bytes) {
    b != [] ==> b[0] != 0
  }

  lemma {:induction false} TrimmedIsZeroOnlyIfEmpty(b: bytes)
    requires Trimmed(b) && b != []
    ensures Value(b) > 0
  {
    if |b| > 1 { TrimmedIsZeroOnlyIfEmpty(b[..|b| - 1]); }
  }

  /** Trimmed byte strings are determined by their values. */
  lemma {:induction false} TrimmedIsCanonical(a: bytes, b: bytes)
    requires Trimmed(a) && Trimmed(b) && Value(a) == Value(b)
    ensures a == b
  {
    if a == [] || b == [] {
      if a != [] { TrimmedIsZeroOnlyIfEmpty(a); }
      if b != [] { TrimmedIsZeroOnlyIfEmpty(b); }
    } else {
      var a', b' := a[..|a| - 1], b[..|b| - 1];
      LastDigit(Value(a'), a[|a| - 1], Value(b'), b[|b| - 1]);
      TrimmedIsCanonical(a', b');
      assert a == a' + [a[|a| - 1]] && b == b' + [b[|b| - 1]];
    }
  }

  lemma LastDigit(x: nat, d: byte, y: nat, e: byte)
    requires 256 * x + d == 256 * y + e
    ensures x == y && d == e
  {
  }

  function Pow256(n: nat): (p: nat)
    ensures p >= 1
  {
    if n == 0 then 1 else 256 * Pow256(n - 1)
  }

  lemma {:induction false} ValueBounds(b: bytes)
    ensures Value(b) < Pow256(|b|)
    ensures Trimmed(b) && b != [] ==> Value(b) >= Pow256(|b| - 1)
  {
    if b != [] {
      ValueBounds(b[..|b| - 1]);
    }
  }

  lemma {:induction false} Pow256Grows(m: nat, n: nat)
    requires m <= n
    ensures Pow256(m) <= Pow256(n)
    decreases n
  {
    if m < n { Pow256Grows(m, n - 1); }
  }

  /** Encoding fails exactly for moduli that need more than 65535 bytes. */
  lemma EncodeFailsExactlyOnLargeModuli(modulus: bytes, exponent: bytes, limit: nat)
    requires limit == 65535
    ensures EncodeRsaPublicKey(modulus, exponent).Err? <==> Value(modulus) >= Pow256(limit)
  {
    var n := TrimLeadingZeros(modulus);
    TrimmingKeepsTheValue(modulus);
    ValueBounds(n);
    hide Value, Pow256, TrimLeadingZeros;
    if |n| > limit {
      Pow256Grows(limit, |n| - 1);
    } else {
      Pow256Grows(|n|, limit);
    }
  }

  lemma LengthReadsBack(n: nat)
    requires n < 0x10000
    ensures U16FromBigEndian(U16BigEndian(n)[0], U16BigEndian(n)[1]) == n
  {
  }

  lemma SplitAtLength(n: bytes, e: bytes)
    requires |n| < 0x10000
    ensures SplitRsaPublicKey(U16BigEndian(|n|) + n + e) == if e == [] then Err(InvalidResponse) else Ok((n, e))
  {
    LengthReadsBack(|n|);
    var prefix := U16BigEndian(|n|);
    hide U16BigEndian, U16FromBigEndian;
    var b := prefix + n + e;
    assert b[0] == prefix[0] && b[1] == prefix[1] && b[2..] == n + e;
    assert (n + e)[..|n|] == n && (n + e)[|n|..] == e;
  }

  /**
   The codec preserves values: whatever leading zeros there were, splitting an
   encoding gives the modulus and exponent values back, and a zero exponent is
   the one thing it rejects.
   */
  lemma SplitUndoesEncode(modulus: bytes, exponent: bytes)
    requires |TrimLeadingZeros(modulus)| <= 65535
    ensures EncodeRsaPublicKey(modulus, exponent).Ok?
    ensures var split := SplitRsaPublicKey(EncodeRsaPublicKey(modulus, exponent).value);
            && (split.Ok? <==> Value(exponent) != 0)
            && (split.Ok? ==> Value(split.value.0) == Value(modulus) && Value(split.value.1) == Value(exponent)
                              && Trimmed(split.value.0) && Trimmed(split.value.1))
  {
    var n, e := TrimLeadingZeros(modulus), TrimLeadingZeros(exponent);
    TrimmingKeepsTheValue(modulus);
    TrimmingKeepsTheValue(exponent);
    if e != [] { TrimmedIsZeroOnlyIfEmpty(e); }
    SplitAtLength(n, e);
    hide SplitRsaPublicKey, U16BigEndian, TrimLeadingZeros;
  }

  /** Equal values trim to equal bytes. */
  lemma SameValueSameBytes(a: bytes, b: bytes)
    requires Value(a) == Value(b)
    ensures TrimLeadingZeros(a) == TrimLeadingZeros(b)
  {
    TrimmingKeepsTheValue(a);
    TrimmingKeepsTheValue(b);
    TrimmedIsCanonical(TrimLeadingZeros(a), TrimLeadingZeros(b));
  }

  lemma SameValuesSameEncoding(n: bytes, e: bytes, n': bytes, e': bytes)
    requires Value(n) == Value(n') && Value(e) == Value(e')
    ensures EncodeRsaPublicKey(n, e) == EncodeRsaPublicKey(n', e')
  {
    SameValueSameBytes(n, n');
    SameValueSameBytes(e, e');
    hide TrimLeadingZeros, Value, U16BigEndian;
  }

  /** Two keys are stored as the same bytes exactly when their numbers are the same. */
  lemma EncodingIsCanonical(n: bytes, e: bytes, n': bytes, e': bytes)
    requires |TrimLeadingZeros(n)| <= 65535 && |TrimLeadingZeros(n')| <= 65535
    requires Value(e) != 0 && Value(e') != 0
    ensures EncodeRsaPublicKey(n, e) == EncodeRsaPublicKey(n', e') <==> Value(n) == Value(n') && Value(e) == Value(e')
  {
    hide *;
    if EncodeRsaPublicKey(n, e) == EncodeRsaPublicKey(n', e') {
      SplitUndoesEncode(n, e);
      SplitUndoesEncode(n', e');
    }
    if Value(n) == Value(n') && Value(e) == Value(e') {
      SameValuesSameEncoding(n, e, n', e');
    }
  }
}
