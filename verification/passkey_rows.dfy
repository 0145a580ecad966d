/**
 Passkey ceremonies on the table itself: which row answers an assertion, what each
 refusal says, and that nothing about a credential but its counter ever changes.
 */
module PasskeyRows {
  import opened Prelude
  import opened Webauthn

  // -------------------------------------------------------------------- the answer

  /** Row `k` is the user's first that is unreadable or has this credential id. */
  ghost predicate First(rows: Rows, user: nat, credentialId: string, k: nat) {
    && k < |rows| && Stops(rows[k], user, credentialId)
    && forall j :: 0 <= j < k ==> !Stops(rows[j], user, credentialId)
  }

  predicate Stops(row: Row, user: nat, credentialId: string) {
    row.user == user && (row.passkey.None? || row.passkey.value.credentialId == credentialId)
  }

  /** What a row the search stops at makes of it. */
  function Verdict(row: Row): Result<Option<(nat, Stored)>, Error> {
    match row.passkey
    case None => Err(InvalidResponse)
    case Some(stored) => Ok(Some((row.id, stored)))
  }

  lemma {:induction false} MatchOneMore(listed: Rows, row: Row, credentialId: string, i: nat)
    requires i <= |listed|
    ensures Match(listed + [row], credentialId, i)
            == if Match(listed, credentialId, i) != Ok(None) then Match(listed, credentialId, i)
               else if Stops(row, row.user, credentialId) then Verdict(row)
               else Ok(None)
    decreases |listed| - i
  {
    if i == |listed| {
      assert Match(listed + [row], credentialId, i + 1) == Ok(None);
    } else {
      MatchOneMore(listed, row, credentialId, i + 1);
    }
  }

  /** No row stops the search. */
  ghost predicate NoneStops(rows: Rows, user: nat, credentialId: string) {
    forall j :: 0 <= j < |rows| ==> !Stops(rows[j], user, credentialId)
  }

  lemma SearchGoesOn(init: Rows, last: Row, user: nat, credentialId: string)
    ensures forall k: nat :: First(init, user, credentialId, k) ==>
              First(init + [last], user, credentialId, k) && (init + [last])[k] == init[k]
    ensures NoneStops(init, user, credentialId) ==>
              if Stops(last, user, credentialId) then First(init + [last], user, credentialId, |init|)
              else NoneStops(init + [last], user, credentialId)
  {
    hide Stops;
    assert forall j :: 0 <= j < |init| ==> (init + [last])[j] == init[j];
  }

  lemma ListedOneMore(init: Rows, last: Row, user: nat)
    ensures Listed(init + [last], user) == Listed(init, user) + if last.user == user then [last] else []
  {
    assert (init + [last])[..|init|] == init;
  }

  lemma StopsHisOnly(row: Row, user: nat, credentialId: string)
    ensures Stops(row, user, credentialId) <==> row.user == user && Stops(row, row.user, credentialId)
  {
  }

  lemma {:induction false} MatchInTheTable(rows: Rows, user: nat, credentialId: string) returns (found: Option<nat>)
    ensures match found
            case Some(k) =>
              First(rows, user, credentialId, k) && Match(Listed(rows, user), credentialId, 0) == Verdict(rows[k])
            case None =>
              Match(Listed(rows, user), credentialId, 0) == Ok(None) && NoneStops(rows, user, credentialId)
  {
    if rows == [] {
      found := None;
    } else {
      var init, last := rows[..|rows| - 1], rows[|rows| - 1];
      assert rows == init + [last];
      found := MatchInTheTable(init, user, credentialId);
      if found.Some? { NeverNothing(init[found.value]); }
      hide *;
      SearchGoesOn(init, last, user, credentialId);
      ListedOneMore(init, last, user);
      MatchOneMore(Listed(init, user), last, credentialId, 0);
      StopsHisOnly(last, user, credentialId);
      if found.None? && Stops(last, user, credentialId) {
        found := Some(|init|);
      }
    }
  }

  lemma NeverNothing(row: Row)
    ensures Verdict(row) != Ok(None)
  {
  }

  lemma OneFirst(rows: Rows, user: nat, credentialId: string, k: nat)
    ensures First(rows, user, credentialId, k) ==>
              && !NoneStops(rows, user, credentialId) && rows[k] in rows && rows[k].user == user
              && forall j: nat :: First(rows, user, credentialId, j) ==> j == k
  {
  }

  /**
   The answer to any assertion: an invalid ceremony token comes first, then a user
   without credentials; then the first row that is unreadable or has the credential id
   decides, an unreadable one and a missing one being an invalid response; then the
   checks of the response; and last the counter, which must not have gone back. An
   accepted assertion changes the counter of that row's credential and nothing else of it.
   */
  lemma AnswersExactly(rows: Rows, a: Assertion, k: nat)
    ensures a.token.Some? ==> Accepted(rows, a) == Err(a.token.value)
    ensures a.token.None? && (forall row :: row in rows ==> row.user != a.user) ==>
              Accepted(rows, a) == Err(NoCredentials)
    ensures a.token.None? && (exists row :: row in rows && row.user == a.user)
            && (forall j: nat :: !First(rows, a.user, a.credentialId, j)) ==>
              Accepted(rows, a) == Err(InvalidResponse)
    ensures a.token.None? && First(rows, a.user, a.credentialId, k) ==>
              var counter := match a.counter case Some(c) => c case None => 0;
              match rows[k].passkey
              case None => Accepted(rows, a) == Err(InvalidResponse)
              case Some(p) =>
                if a.response.Some? then Accepted(rows, a) == Err(a.response.value)
                else if counter <= p.signCount && !(counter == 0 && p.signCount == 0) then
                  Accepted(rows, a) == Err(InvalidResponse)
                else Accepted(rows, a) == Ok((rows[k].id, Stored(p.credentialId, p.publicKey, counter)))
  {
    var found := MatchInTheTable(rows, a.user, a.credentialId);
    assert forall row :: row in Listed(rows, a.user) <==> row in rows && row.user == a.user;
    if found.Some? { OneFirst(rows, a.user, a.credentialId, found.value); }
    OneFirst(rows, a.user, a.credentialId, k);
    hide Listed, Match, First, NoneStops;
  }

  // ------------------------------------------------------------------------- runs

  lemma AcceptedKeepsTheRest(rows: Rows, a: Assertion)
    ensures Accepted(rows, a).Ok? ==>
              var (id, stored) := Accepted(rows, a).value;
              exists row :: row in rows && row.id == id && row.passkey.Some?
                            && stored == Stored(row.passkey.value.credentialId, row.passkey.value.publicKey, stored.signCount)
  {
    hide Listed, Match;
    var found := MatchInTheTable(rows, a.user, a.credentialId);
    if Accepted(rows, a).Ok? {
      assert rows[found.value] in rows;
    }
  }

  /** All rows with this id are `row` but for the counter. */
  ghost predicate OnlyCounterDiffers(rows: Rows, id: nat, user: nat, passkey: Stored) {
    forall row :: row in rows && row.id == id ==>
      && row.user == user && row.passkey.Some?
      && row.passkey.value.credentialId == passkey.credentialId && row.passkey.value.publicKey == passkey.publicKey
  }

  ghost predicate Present(rows: Rows, id: nat) {
    exists row :: row in rows && row.id == id
  }

  lemma StepKeepsCredential(rows: Rows, e: Event, id: nat, user: nat, passkey: Stored)
    requires OnlyCounterDiffers(rows, id, user, passkey) && !(e.Register? && e.id == id)
    ensures OnlyCounterDiffers(Step(rows, e), id, user, passkey)
    ensures Present(Step(rows, e), id) <==> Present(rows, id) && e != Revoke(user, id)
  {
    hide Accepted;
    match e
    case Register(_, _, _) =>
      forall row | row in rows ensures row in Step(rows, e) {}
    case Revoke(_, _) =>
    case Authenticate(a) =>
      AcceptedKeepsTheRest(rows, a);
      var rows' := Step(rows, e);
      if Present(rows, id) {
        var i :| 0 <= i < |rows| && rows[i].id == id;
        assert rows'[i].id == id && rows'[i] in rows';
      }
      if Present(rows', id) {
        var i :| 0 <= i < |rows'| && rows'[i].id == id;
        assert rows[i].id == id && rows[i] in rows;
      }
  }

  ghost predicate RevokedSince(es: seq<Event>, i: nat, user: nat, id: nat) {
    exists j :: i < j < |es| && es[j] == Revoke(user, id)
  }

  /**
   In every run a registered credential is in the table until its user revokes it, for
   the user, under the credential id and with the public key it was registered with.
   */
  lemma {:induction false} CredentialsStayAsRegistered(es: seq<Event>, i: nat, id: nat, user: nat, passkey: Stored)
    requires FreshIds([], es) && i < |es| && es[i] == Register(id, user, passkey)
    ensures OnlyCounterDiffers(After([], es), id, user, passkey)
    ensures Present(After([], es), id) <==> !RevokedSince(es, i, user, id)
  {
    var before, e := es[..|es| - 1], es[|es| - 1];
    assert es == before + [e];
    if i == |before| {
      forall j | 0 <= j < |before| && before[j].Register? ensures before[j].id != id { assert es[j] == before[j]; }
      NotYetRegistered([], before, id);
      assert Row(id, user, Some(passkey)) in After([], es);
    } else {
      assert before[i] == es[i];
      CredentialsStayAsRegistered(before, i, id, user, passkey);
      hide Step, OnlyCounterDiffers, Present;
      StepKeepsCredential(After([], before), e, id, user, passkey);
      if RevokedSince(before, i, user, id) {
        var j :| i < j < |before| && before[j] == Revoke(user, id);
        assert es[j] == before[j];
      }
      if RevokedSince(es, i, user, id) && e != Revoke(user, id) {
        var j :| i < j < |es| && es[j] == Revoke(user, id);
        assert before[j] == es[j];
      }
    }
  }

  // ---------------------------------------------------------------------- RSA keys

  /** The stored bytes: the length of the modulus, high byte first, the modulus, the exponent. */
  lemma EncodingLayout(modulus: bytes, exponent: bytes, n: bytes, e: bytes)
    requires Trimmed(n) && Trimmed(e) && Value(n) == Value(modulus) && Value(e) == Value(exponent) && |n| <= 65535
    ensures EncodeRsaPublicKey(modulus, exponent) == Ok([|n| / 256, |n| % 256] + n + e)
  {
    TrimmingKeepsTheValue(modulus);
    TrimmingKeepsTheValue(exponent);
    TrimmedIsCanonical(TrimLeadingZeros(modulus), n);
    TrimmedIsCanonical(TrimLeadingZeros(exponent), e);
    hide TrimLeadingZeros, Value;
  }
}
