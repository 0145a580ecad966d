/**
 `secrets rotate`: every stored blob is loaded, re-encrypted under the primary
 key, and written back row by row; the first blob that does not decrypt aborts it.
 */
module SecretRotation {
  import opened Prelude
  import opened SecretBox

  /** Which table a blob lives in, and the id of its row there. */
  datatype Slot = Totp(userId: string) | Webhook(id: string)

  /** The `secret_ciphertext` columns of both tables. */
  type Rows = map<Slot, bytes>

  datatype StoredSecret = StoredSecret(slot: Slot, ciphertext: bytes)

  datatype RotationError = RotationError(slot: Slot, cause: SecretBoxError)

  /** `UPDATE .. SET secret_ciphertext = ? WHERE id = ?`. */
  function Overwritten(rows: Rows, s: Slot, ciphertext: bytes): Rows {
    if s in rows then rows[s := ciphertext] else rows
  }

  /** `secrets` lists every row once. */
  ghost predicate Lists(secrets: seq<StoredSecret>, rows: Rows) {
    && (forall i, j :: 0 <= i < j < |secrets| ==> secrets[i].slot != secrets[j].slot)
    && (forall s :: s in secrets ==> s.slot in rows && rows[s.slot] == s.ciphertext)
    && (forall slot :: slot in rows ==> StoredSecret(slot, rows[slot]) in secrets)
  }

  /** Updates of existing rows by other clients. */
  function Written(rows: Rows, writes: Rows): Rows {
    map s | s in rows :: if s in writes then writes[s] else rows[s]
  }

  /**
   The loop on a live table: `others(k)` is what the server writes right before
   turn `k`. The loop re-encrypts what it loaded, not what the row holds now.
   */
  function RotatedAmid(
    c: Cipher, keys: Keys, rows: Rows, secrets: seq<StoredSecret>, nonces: nat -> bytes, others: nat -> Rows, n: nat): Rows
    requires Usable(keys) && n <= |secrets|
  {
    if n == 0 then rows
    else
      var s := secrets[n - 1];
      var before := Written(RotatedAmid(c, keys, rows, secrets, nonces, others, n - 1), others(n - 1));
      match Opened(c, keys, s.ciphertext)
      case Ok(p) => Overwritten(before, s.slot, Sealed(c, keys, p, nonces(n - 1)))
      case Err(_) => before
  }

  /** The rows after the first `n` turns when nobody else writes. */
  function Rotated(
    c: Cipher, keys: Keys, rows: Rows, secrets: seq<StoredSecret>, nonces: nat -> bytes, n: nat): Rows
    requires Usable(keys) && n <= |secrets|
  {
    RotatedAmid(c, keys, rows, secrets, nonces, Nothing, n)
  }

  function Nothing(turn: nat): Rows {
    map[]
  }

  /** The first secret that does not decrypt, or the number of secrets. */
  function FirstFailure(c: Cipher, keys: Keys, secrets: seq<StoredSecret>): (n: nat)
    requires Usable(keys)
    ensures n <= |secrets|
    ensures n < |secrets| ==> Opened(c, keys, secrets[n].ciphertext).Err?
    ensures forall i :: 0 <= i < n ==> Opened(c, keys, secrets[i].ciphertext).Ok?
  {
    if secrets == [] then 0
    else if Opened(c, keys, secrets[0].ciphertext).Err? then 0
    else 1 + FirstFailure(c, keys, secrets[1..])
  }

  /** The last of the writes before turns `from` to `to - 1` that hits `slot`. */
  function LastWrite(others: nat -> Rows, slot: Slot, from: nat, to: nat): Option<bytes> {
    if to <= from then None
    else if slot in others(to - 1) then Some(others(to - 1)[slot])
    else LastWrite(others, slot, from, to - 1)
  }

  /**
   The lost update: of what the server writes to a row during the rotation exactly
   the writes after the row's own turn survive; any earlier one is replaced by the
   re-encrypted old value.
   */
  lemma {:induction false} WritesSurviveExactlyAfterTheirTurn(
    c: Cipher, keys: Keys, rows: Rows, secrets: seq<StoredSecret>, nonces: nat -> bytes, others: nat -> Rows, n: nat, i: nat)
    requires Usable(keys) && Lists(secrets, rows) && n <= |secrets| && i < |secrets|
    requires forall k :: 0 <= k < n ==> Opened(c, keys, secrets[k].ciphertext).Ok?
    ensures var after, slot := RotatedAmid(c, keys, rows, secrets, nonces, others, n), secrets[i].slot;
            && after.Keys == rows.Keys && slot in after
            && after[slot] == match LastWrite(others, slot, if i < n then i + 1 else 0, n)
                              case Some(written) => written
                              case None =>
                                if i < n then Sealed(c, keys, Opened(c, keys, secrets[i].ciphertext).value, nonces(i))
                                else secrets[i].ciphertext
  {
    hide RotatedAmid, Opened, Sealed, Usable, Lists;
    DifferentSlots(rows, secrets, i, i);
    if n == 0 {
      NoTurnYet(c, keys, rows, secrets, nonces, others);
    } else {
      WritesSurviveExactlyAfterTheirTurn(c, keys, rows, secrets, nonces, others, n - 1, i);
      OneTurn(c, keys, rows, secrets, nonces, others, n - 1, secrets[i].slot);
      DifferentSlots(rows, secrets, n - 1, i);
    }
  }

  lemma NoTurnYet(
    c: Cipher, keys: Keys, rows: Rows, secrets: seq<StoredSecret>, nonces: nat -> bytes, others: nat -> Rows)
    requires Usable(keys)
    ensures RotatedAmid(c, keys, rows, secrets, nonces, others, 0) == rows
  {
  }

  lemma DifferentSlots(rows: Rows, secrets: seq<StoredSecret>, i: nat, j: nat)
    requires Lists(secrets, rows) && i < |secrets| && j < |secrets|
    ensures secrets[j].slot in rows && rows[secrets[j].slot] == secrets[j].ciphertext
    ensures secrets[i].slot == secrets[j].slot ==> i == j
  {
    assert secrets[j] in secrets;
  }

  /** What one turn of the loop leaves in the row `slot`. */
  lemma OneTurn(
    c: Cipher, keys: Keys, rows: Rows, secrets: seq<StoredSecret>, nonces: nat -> bytes, others: nat -> Rows, n: nat,
    slot: Slot)
    requires Usable(keys) && n < |secrets| && Opened(c, keys, secrets[n].ciphertext).Ok?
    requires slot in RotatedAmid(c, keys, rows, secrets, nonces, others, n)
    ensures var before := RotatedAmid(c, keys, rows, secrets, nonces, others, n);
            var after := RotatedAmid(c, keys, rows, secrets, nonces, others, n + 1);
            && after.Keys == before.Keys
            && after[slot] == if slot == secrets[n].slot
                              then Sealed(c, keys, Opened(c, keys, secrets[n].ciphertext).value, nonces(n))
                              else if slot in others(n) then others(n)[slot] else before[slot]
  {
    hide Opened, Sealed, Usable;
  }

  lemma {:induction false} NobodyWrote(slot: Slot, from: nat, to: nat)
    ensures LastWrite(Nothing, slot, from, to) == None
  {
    if from < to { NobodyWrote(slot, from, to - 1); }
  }

  /** After `n` undisturbed turns: secrets before `n` carry their new blob, the others their old one. */
  lemma RotatedRow(
    c: Cipher, keys: Keys, rows: Rows, secrets: seq<StoredSecret>, nonces: nat -> bytes, n: nat, i: nat)
    requires Usable(keys) && Lists(secrets, rows) && n <= |secrets| && i < |secrets|
    requires forall k :: 0 <= k < n ==> Opened(c, keys, secrets[k].ciphertext).Ok?
    ensures var after := Rotated(c, keys, rows, secrets, nonces, n);
            && after.Keys == rows.Keys
            && secrets[i].slot in after
            && after[secrets[i].slot]
               == if i < n then Sealed(c, keys, Opened(c, keys, secrets[i].ciphertext).value, nonces(i))
                  else secrets[i].ciphertext
  {
    hide RotatedAmid, Opened, Sealed, Usable, Lists, LastWrite;
    WritesSurviveExactlyAfterTheirTurn(c, keys, rows, secrets, nonces, Nothing, n, i);
    NobodyWrote(secrets[i].slot, if i < n then i + 1 else 0, n);
  }

  lemma NothingRotated(c: Cipher, keys: Keys, rows: Rows, secrets: seq<StoredSecret>, nonces: nat -> bytes)
    requires Usable(keys)
    ensures Rotated(c, keys, rows, secrets, nonces, 0) == rows
  {
  }

  /** One more undisturbed turn. */
  lemma QuietTurn(
    c: Cipher, keys: Keys, rows: Rows, secrets: seq<StoredSecret>, nonces: nat -> bytes, n: nat)
    requires Usable(keys) && n < |secrets| && Opened(c, keys, secrets[n].ciphertext).Ok?
    ensures Rotated(c, keys, rows, secrets, nonces, n + 1)
            == Overwritten(Rotated(c, keys, rows, secrets, nonces, n), secrets[n].slot,
                           Sealed(c, keys, Opened(c, keys, secrets[n].ciphertext).value, nonces(n)))
  {
    hide Opened, Sealed, Usable;
    var before := Rotated(c, keys, rows, secrets, nonces, n);
    assert Written(before, Nothing(n)) == before;
  }

  /**
   At every point of the loop, whether it goes on, aborts or is killed there:
   every blob that decrypted before decrypts to the same plaintext now, under
   the same key set, and no row is added or lost.
   */
  lemma NothingIsLostOnTheWay(
    c: Cipher, keys: Keys, rows: Rows, secrets: seq<StoredSecret>, nonces: nat -> bytes, n: nat, slot: Slot)
    requires Lawful(c) && Usable(keys) && Lists(secrets, rows)
    requires n <= FirstFailure(c, keys, secrets)
    requires forall k :: |nonces(k)| == NONCE_LEN
    requires slot in rows
    ensures var after := Rotated(c, keys, rows, secrets, nonces, n);
            && after.Keys == rows.Keys
            && (Opened(c, keys, rows[slot]).Ok? ==>
                  Opened(c, keys, after[slot]) == Opened(c, keys, rows[slot]))
            && (Opened(c, keys, rows[slot]).Err? ==> after[slot] == rows[slot])
  {
    var i :| 0 <= i < |secrets| && secrets[i] == StoredSecret(slot, rows[slot]);
    RotatedRow(c, keys, rows, secrets, nonces, n, i);
    if i < n {
      DecryptUndoesEncrypt(c, keys, Opened(c, keys, rows[slot]).value, nonces(i));
    }
  }

  /**
   When the loop finishes, every blob is stamped with the primary id and decrypts to its
   plaintext under any key set that has the primary key, whatever else it has or lacks:
   the older keys can be dropped.
   */
  lemma OlderKeysCanBeDropped(
    c: Cipher, keys: Keys, rows: Rows, secrets: seq<StoredSecret>, nonces: nat -> bytes, slot: Slot, kept: Keys)
    requires Lawful(c) && Usable(keys) && Lists(secrets, rows)
    requires FirstFailure(c, keys, secrets) == |secrets|
    requires forall k :: |nonces(k)| == NONCE_LEN
    requires slot in rows
    requires kept.primaryId in kept.byId
    requires keys.primaryId in kept.byId && kept.byId[keys.primaryId] == keys.byId[keys.primaryId]
    ensures var after := Rotated(c, keys, rows, secrets, nonces, |secrets|);
            && slot in after
            && ParseVersioned(after[slot]).Some?
            && ParseVersioned(after[slot]).value.0 == keys.primaryId
            && Opened(c, keys, rows[slot]).Ok?
            && Opened(c, kept, after[slot]) == Opened(c, keys, rows[slot])
  {
    var n := |secrets|;
    var i :| 0 <= i < n && secrets[i] == StoredSecret(slot, rows[slot]);
    RotatedRow(c, keys, rows, secrets, nonces, n, i);
    DecryptUndoesEncrypt(c, keys, Opened(c, keys, rows[slot]).value, nonces(i));
    hide Rotated, Sealed, ParseVersioned;
  }

  /** The order in which the database returns the rows of the two tables. */
  ghost predicate RowOrder(order: seq<Slot>, rows: Rows, totp: bool) {
    && (forall i, j :: 0 <= i < j < |order| ==> order[i] != order[j])
    && (forall s :: s in order <==> s in rows && s.Totp? == totp)
  }

  class SecretTables {
    var rows: Rows
    const box: Box

    constructor (rows: Rows, box: Box)
      ensures this.rows == rows && this.box == box
    {
      this.rows, this.box := rows, box;
    }

    method LoadAll(totps: seq<Slot>, webhooks: seq<Slot>) returns (out: seq<StoredSecret>)
      requires RowOrder(totps, rows, true) && RowOrder(webhooks, rows, false)
      ensures Lists(out, rows)
    {
      out := [];
      for i := 0 to |totps|
        invariant |out| == i
        invariant forall k :: 0 <= k < i ==> totps[k] in rows && out[k] == StoredSecret(totps[k], rows[totps[k]])
      {
        assert totps[i] in totps;
        out := out + [StoredSecret(totps[i], rows[totps[i]])];
      }
      for i := 0 to |webhooks|
        invariant |out| == |totps| + i
        invariant forall k :: 0 <= k < |totps| ==> totps[k] in rows && out[k] == StoredSecret(totps[k], rows[totps[k]])
        invariant forall k :: 0 <= k < i ==>
                    webhooks[k] in rows && out[|totps| + k] == StoredSecret(webhooks[k], rows[webhooks[k]])
      {
        assert webhooks[i] in webhooks;
        out := out + [StoredSecret(webhooks[i], rows[webhooks[i]])];
      }
      ListsBoth(totps, webhooks, rows, out);
    }

    method Store(secret: StoredSecret, ciphertext: bytes)
      modifies this
      ensures rows == Overwritten(old(rows), secret.slot, ciphertext)
    {
      if secret.slot in rows {
        rows := rows[secret.slot := ciphertext];
      }
    }

    /** The command: it ends where the first blob fails, or with every blob rewritten. */
    method RotateSecrets(totps: seq<Slot>, webhooks: seq<Slot>, nonces: nat -> bytes)
      returns (ghost secrets: seq<StoredSecret>, res: Result<nat, RotationError>)
      requires RowOrder(totps, rows, true) && RowOrder(webhooks, rows, false)
      requires Lawful(box.cipher) && box.Installed().Some? && Usable(box.Installed().value)
      requires forall k :: |nonces(k)| == NONCE_LEN
      modifies this
      ensures box.Installed() == old(box.Installed())
      ensures var keys := box.Installed().value;
              var n := FirstFailure(box.cipher, keys, secrets);
              && Lists(secrets, old(rows))
              && rows == Rotated(box.cipher, keys, old(rows), secrets, nonces, n)
              && (res.Ok? <==> n == |secrets|)
              && (res.Ok? ==> res.value == n)
              && (res.Err? ==> res.error.slot == secrets[n].slot)
    {
      hide Opened, Sealed, RowOrder, Lists, FirstFailure, Rotated;
      var loaded := LoadAll(totps, webhooks);
      secrets := loaded;
      ghost var keys := box.Installed().value;
      var rotated := 0;
      NothingRotated(box.cipher, keys, rows, loaded, nonces);
      while rotated < |loaded|
        invariant rotated <= |loaded|
        invariant box.Installed() == Some(keys)
        invariant forall k :: 0 <= k < rotated ==> Opened(box.cipher, keys, loaded[k].ciphertext).Ok?
        invariant rows == Rotated(box.cipher, keys, old(rows), loaded, nonces, rotated)
      {
        var reencrypted := box.Reencrypt(loaded[rotated].ciphertext, nonces(rotated));
        if reencrypted.Err? {
          FailureIs(box.cipher, keys, loaded, rotated);
          return secrets, Err(RotationError(loaded[rotated].slot, reencrypted.error));
        }
        Store(loaded[rotated], reencrypted.value);
        QuietTurn(box.cipher, keys, old(rows), loaded, nonces, rotated);
        rotated := rotated + 1;
      }
      FailureIs(box.cipher, keys, loaded, rotated);
      return secrets, Ok(rotated);
    }
  }

  lemma FailureIs(c: Cipher, keys: Keys, secrets: seq<StoredSecret>, n: nat)
    requires Usable(keys) && n <= |secrets|
    requires n < |secrets| ==> Opened(c, keys, secrets[n].ciphertext).Err?
    requires forall k :: 0 <= k < n ==> Opened(c, keys, secrets[k].ciphertext).Ok?
    ensures FirstFailure(c, keys, secrets) == n
  {
  }

  lemma ListsBoth(totps: seq<Slot>, webhooks: seq<Slot>, rows: Rows, out: seq<StoredSecret>)
    requires RowOrder(totps, rows, true) && RowOrder(webhooks, rows, false)
    requires |out| == |totps| + |webhooks|
    requires forall k :: 0 <= k < |totps| ==> totps[k] in rows && out[k] == StoredSecret(totps[k], rows[totps[k]])
    requires forall k :: 0 <= k < |webhooks| ==>
               webhooks[k] in rows && out[|totps| + k] == StoredSecret(webhooks[k], rows[webhooks[k]])
    ensures Lists(out, rows)
  {
    forall i | 0 <= i < |out|
      ensures out[i].slot in rows && rows[out[i].slot] == out[i].ciphertext
      ensures out[i].slot.Totp? <==> i < |totps|
    {
      if i < |totps| {
        assert totps[i] in totps;
      } else {
        assert out[i] == out[|totps| + (i - |totps|)] && webhooks[i - |totps|] in webhooks;
      }
    }
    forall i, j | 0 <= i < j < |out| ensures out[i].slot != out[j].slot {
      assert out[i].slot.Totp? <==> i < |totps|;
      assert out[j].slot.Totp? <==> j < |totps|;
      if i >= |totps| {
        var k, l := i - |totps|, j - |totps|;
        assert out[|totps| + k].slot == webhooks[k] && out[|totps| + l].slot == webhooks[l];
        assert webhooks[k] != webhooks[l];
      } else if j < |totps| {
        assert totps[i] != totps[j];
      }
    }
    forall slot | slot in rows ensures StoredSecret(slot, rows[slot]) in out {
      if slot.Totp? {
        var k :| 0 <= k < |totps| && totps[k] == slot;
        assert out[k] == StoredSecret(slot, rows[slot]);
      } else {
        var k :| 0 <= k < |webhooks| && webhooks[k] == slot;
        assert out[|totps| + k] == StoredSecret(slot, rows[slot]);
      }
    }
  }
}
