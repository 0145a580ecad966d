/**
 Encryption of stored secrets: the stamped blob `0x01 | id length | id | nonce |
 ciphertext`, the choice of key by the stamped id, and the legacy layout read
 under the primary key. AES-256-GCM is a parameter of which only two laws are
 assumed: opening inverts sealing, and a ciphertext is never empty.
 */
module SecretBox {
  import opened Prelude
  import opened Utf8Encoding

  const NONCE_LEN: nat := 12
  const FORMAT_TAG: byte := 0x01
  const MAX_ID_LEN: nat := 32

  type Key = bytes

  datatype Cipher = Cipher(
    seal: (Key, bytes, bytes) -> bytes,
    open: (Key, bytes, bytes) -> Option<bytes>)

  ghost predicate Lawful(c: Cipher) {
    forall k: Key, n: bytes, p: bytes ::
      c.open(k, n, c.seal(k, n, p)) == Some(p) && |c.seal(k, n, p)| >= 1
  }

  datatype SecretBoxError = NotConfigured | Corrupted

  datatype Keys = Keys(byId: map<bytes, Key>, primaryId: bytes, primaryBytes: Key)

  // ----------------------------------------------------------------- the key set

  function FirstNamed(keys: seq<(bytes, Key)>, id: bytes): Option<Key> {
    if keys == [] then None
    else if keys[0].0 == id then Some(keys[0].1)
    else FirstNamed(keys[1..], id)
  }

  /** Collecting pairs into a map: a later pair with the same id replaces an earlier one. */
  function Collected(keys: seq<(bytes, Key)>): map<bytes, Key> {
    if keys == [] then map[] else Collected(keys[..|keys| - 1])[keys[|keys| - 1].0 := keys[|keys| - 1].1]
  }

  /** The key set `init` installs; the configuration guarantees a listed primary. */
  function Resolve(keys: seq<(bytes, Key)>, primaryId: Option<bytes>): Option<Keys>
    requires primaryId.Some? && keys != [] ==> FirstNamed(keys, primaryId.value).Some?
  {
    if primaryId.Some? && keys != []
    then Some(Keys(Collected(keys), primaryId.value, FirstNamed(keys, primaryId.value).value))
    else None
  }

  ghost predicate DistinctIds(keys: seq<(bytes, Key)>) {
    forall i, j :: 0 <= i < j < |keys| ==> keys[i].0 != keys[j].0
  }

  /** An id that a blob can be stamped with and be found under again. */
  predicate StampableId(id: bytes) {
    1 <= |id| <= MAX_ID_LEN && ValidUtf8(id)
  }

  /** A usable key set: its primary is among its keys and can be stamped. */
  predicate Usable(keys: Keys) {
    keys.primaryId in keys.byId && StampableId(keys.primaryId)
  }

  // -------------------------------------------------------------------- the blob

  function Stamp(id: bytes, nonce: bytes, ciphertext: bytes): bytes
    requires |id| < 256
  {
    [FORMAT_TAG, |id|] + id + nonce + ciphertext
  }

  function ParseVersioned(stored: bytes): Option<(bytes, bytes, bytes)> {
    if |stored| < 2 || stored[0] != FORMAT_TAG then None
    else
      var idLen, rest := stored[1] as nat, stored[2..];
      if idLen == 0 || idLen > MAX_ID_LEN || |rest| < idLen + NONCE_LEN + 1 then None
      else if !ValidUtf8(rest[..idLen]) then None
      else Some((rest[..idLen], rest[idLen..idLen + NONCE_LEN], rest[idLen + NONCE_LEN..]))
  }

  function Sealed(c: Cipher, keys: Keys, plaintext: bytes, nonce: bytes): bytes
    requires keys.primaryId in keys.byId && |keys.primaryId| < 256
  {
    Stamp(keys.primaryId, nonce, c.seal(keys.byId[keys.primaryId], nonce, plaintext))
  }

  function OpenWith(c: Cipher, key: Key, nonce: bytes, ciphertext: bytes): Result<bytes, SecretBoxError> {
    match c.open(key, nonce, ciphertext)
    case Some(p) => Ok(p)
    case None => Err(Corrupted)
  }

  function Opened(c: Cipher, keys: Keys, stored: bytes): Result<bytes, SecretBoxError>
    requires keys.primaryId in keys.byId
  {
    match ParseVersioned(stored)
    case Some((id, nonce, ciphertext)) =>
      if id in keys.byId then OpenWith(c, keys.byId[id], nonce, ciphertext) else Err(Corrupted)
    case None =>
      if |stored| < NONCE_LEN then Err(Corrupted)
      else OpenWith(c, keys.byId[keys.primaryId], stored[..NONCE_LEN], stored[NONCE_LEN..])
  }

  /** Parsing recovers exactly what was stamped, if and only if the id has 1 to 32 bytes. */
  lemma StampIsRecoveredExactly(id: bytes, nonce: bytes, ciphertext: bytes)
    requires |id| < 256 && ValidUtf8(id) && |nonce| == NONCE_LEN && |ciphertext| >= 1
    ensures ParseVersioned(Stamp(id, nonce, ciphertext)) == Some((id, nonce, ciphertext))
            <==> 1 <= |id| <= MAX_ID_LEN
  {
    hide ValidUtf8;
    var rest := Stamp(id, nonce, ciphertext)[2..];
    assert rest == id + nonce + ciphertext;
    assert rest[..|id|] == id;
    assert rest[|id|..|id| + NONCE_LEN] == nonce;
    assert rest[|id| + NONCE_LEN..] == ciphertext;
  }

  lemma DecryptUndoesEncrypt(c: Cipher, keys: Keys, plaintext: bytes, nonce: bytes)
    requires Lawful(c) && Usable(keys) && |nonce| == NONCE_LEN
    ensures Opened(c, keys, Sealed(c, keys, plaintext, nonce)) == Ok(plaintext)
    ensures ParseVersioned(Sealed(c, keys, plaintext, nonce)).Some?
    ensures ParseVersioned(Sealed(c, keys, plaintext, nonce)).value.0 == keys.primaryId
  {
    var ct := c.seal(keys.byId[keys.primaryId], nonce, plaintext);
    StampIsRecoveredExactly(keys.primaryId, nonce, ct);
  }

  lemma {:induction false} CollectedFinds(keys: seq<(bytes, Key)>, i: nat)
    requires DistinctIds(keys) && i < |keys|
    ensures keys[i].0 in Collected(keys) && Collected(keys)[keys[i].0] == keys[i].1
  {
    if i < |keys| - 1 {
      CollectedFinds(keys[..|keys| - 1], i);
    }
  }

  /**
   What a stamped blob decrypts to depends only on the key its id names: adding,
   dropping or reordering other keys, or changing the primary, is invisible.
   */
  lemma OtherKeysAreIrrelevant(
    c: Cipher, a: seq<(bytes, Key)>, b: seq<(bytes, Key)>, primaryA: bytes, primaryB: bytes,
    id: bytes, key: Key, nonce: bytes, ciphertext: bytes)
    requires DistinctIds(a) && DistinctIds(b) && (id, key) in a && (id, key) in b
    requires FirstNamed(a, primaryA).Some? && FirstNamed(b, primaryB).Some?
    requires StampableId(id) && |nonce| == NONCE_LEN && |ciphertext| >= 1
    ensures var ka, kb := Resolve(a, Some(primaryA)).value, Resolve(b, Some(primaryB)).value;
            && ka.primaryId in ka.byId && kb.primaryId in kb.byId
            && Opened(c, ka, Stamp(id, nonce, ciphertext)) == OpenWith(c, key, nonce, ciphertext)
            && Opened(c, kb, Stamp(id, nonce, ciphertext)) == OpenWith(c, key, nonce, ciphertext)
  {
    StampIsRecoveredExactly(id, nonce, ciphertext);
    var i :| 0 <= i < |a| && a[i] == (id, key);
    var j :| 0 <= j < |b| && b[j] == (id, key);
    CollectedFinds(a, i);
    CollectedFinds(b, j);
    NamedIsCollected(a, primaryA);
    NamedIsCollected(b, primaryB);
  }

  lemma {:induction false} NamedIsCollected(keys: seq<(bytes, Key)>, id: bytes)
    requires FirstNamed(keys, id).Some?
    ensures id in Collected(keys)
  {
    var i := NamedAt(keys, id);
    CollectedHas(keys, i);
  }

  lemma {:induction false} NamedAt(keys: seq<(bytes, Key)>, id: bytes) returns (i: nat)
    requires FirstNamed(keys, id).Some?
    ensures i < |keys| && keys[i].0 == id && FirstNamed(keys, id) == Some(keys[i].1)
  {
    if keys[0].0 == id {
      i := 0;
    } else {
      i := NamedAt(keys[1..], id);
      i := i + 1;
    }
  }

  lemma {:induction false} CollectedHas(keys: seq<(bytes, Key)>, i: nat)
    requires i < |keys|
    ensures keys[i].0 in Collected(keys)
  {
    if i < |keys| - 1 { CollectedHas(keys[..|keys| - 1], i); }
  }

  // ------------------------------------------------------------ which key opens what

  /** `stored` is `1`, the length of `id`, `id`, a 12-byte nonce and a ciphertext, in this order. */
  predicate StampedWith(stored: bytes, id: bytes, nonce: bytes, ciphertext: bytes) {
    && 1 <= |id| <= 32 && |nonce| == 12 && |ciphertext| >= 1 && ValidUtf8(id)
    && stored == [1, |id|] + id + nonce + ciphertext
  }

  lemma StampedExactly(stored: bytes, id: bytes, nonce: bytes, ciphertext: bytes)
    ensures ParseVersioned(stored) == Some((id, nonce, ciphertext)) <==> StampedWith(stored, id, nonce, ciphertext)
  {
    hide ValidUtf8;
    if ParseVersioned(stored) == Some((id, nonce, ciphertext)) {
      var rest := stored[2..];
      assert rest == rest[..|id|] + rest[|id|..|id| + 12] + rest[|id| + 12..];
      assert stored == stored[..2] + rest && stored[..2] == [1, |id|];
    }
    if StampedWith(stored, id, nonce, ciphertext) {
      StampIsRecoveredExactly(id, nonce, ciphertext);
    }
  }

  /**
   A stamped blob opens under the key its id names and under no other; without that key
   it is corrupted. Every other blob of at least 12 bytes is a nonce and a ciphertext
   from before the stamps and opens under the primary key. Whatever fails is corrupted.
   */
  lemma BlobsOpenExactly(c: Cipher, keys: Keys, stored: bytes)
    requires keys.primaryId in keys.byId
    ensures forall id, nonce, ciphertext :: StampedWith(stored, id, nonce, ciphertext) ==>
              forall p :: Opened(c, keys, stored) == Ok(p)
                          <==> id in keys.byId && c.open(keys.byId[id], nonce, ciphertext) == Some(p)
    ensures (forall id, nonce, ciphertext :: !StampedWith(stored, id, nonce, ciphertext)) ==>
              forall p :: Opened(c, keys, stored) == Ok(p)
                          <==> |stored| >= 12 && c.open(keys.byId[keys.primaryId], stored[..12], stored[12..]) == Some(p)
    ensures Opened(c, keys, stored).Ok? || Opened(c, keys, stored) == Err(Corrupted)
  {
    forall id, nonce, ciphertext
      ensures ParseVersioned(stored) == Some((id, nonce, ciphertext)) <==> StampedWith(stored, id, nonce, ciphertext)
    {
      StampedExactly(stored, id, nonce, ciphertext);
    }
    hide ParseVersioned, StampedWith;
  }

  /** A sealed blob is stamped with the primary id and holds what its key sealed. */
  lemma SealedIsStamped(c: Cipher, keys: Keys, plaintext: bytes, nonce: bytes)
    requires Lawful(c) && Usable(keys) && |nonce| == 12
    ensures StampedWith(Sealed(c, keys, plaintext, nonce), keys.primaryId, nonce,
                        c.seal(keys.byId[keys.primaryId], nonce, plaintext))
  {
    StampIsRecoveredExactly(keys.primaryId, nonce, c.seal(keys.byId[keys.primaryId], nonce, plaintext));
  }

  // ---------------------------------------------------------------- the process

  /** What the installed key set holds, in terms of the list it was made from. */
  lemma InstalledKeys(keys: seq<(bytes, Key)>, primaryId: Option<bytes>)
    requires primaryId.Some? && keys != [] ==> FirstNamed(keys, primaryId.value).Some?
    ensures Resolve(keys, primaryId).Some? <==> primaryId.Some? && keys != []
    ensures Resolve(keys, primaryId).Some? ==>
              var installed := Resolve(keys, primaryId).value;
              && installed.primaryId == primaryId.value && installed.primaryId in installed.byId
              && (forall id :: id in installed.byId <==> exists i :: 0 <= i < |keys| && keys[i].0 == id)
              && (DistinctIds(keys) ==>
                    (forall i :: 0 <= i < |keys| ==> installed.byId[keys[i].0] == keys[i].1)
                    && installed.primaryBytes == installed.byId[installed.primaryId])
  {
    hide Collected, FirstNamed;
    CollectedIds(keys);
    if primaryId.Some? && keys != [] {
      var i := NamedAt(keys, primaryId.value);
    }
    if DistinctIds(keys) {
      forall i | 0 <= i < |keys| ensures keys[i].0 in Collected(keys) && Collected(keys)[keys[i].0] == keys[i].1 {
        CollectedFinds(keys, i);
      }
    }
  }

  lemma {:induction false} CollectedIds(keys: seq<(bytes, Key)>)
    ensures forall id :: id in Collected(keys) <==> exists i :: 0 <= i < |keys| && keys[i].0 == id
  {
    if keys != [] {
      var before, last := keys[..|keys| - 1], keys[|keys| - 1];
      CollectedIds(before);
      forall id ensures id in Collected(keys) <==> exists i :: 0 <= i < |keys| && keys[i].0 == id {
        if id in Collected(before) {
          var i :| 0 <= i < |before| && before[i].0 == id;
          assert keys[i].0 == id;
        }
        if i :| 0 <= i < |keys| && keys[i].0 == id {
          if i < |before| { assert before[i].0 == id; }
        }
      }
    }
  }

  /** The process-wide key slot and the operations on it. */
  class Box {
    const cipher: Cipher
    /** Unset until `Init`; the first call wins. */
    var slot: Option<Option<Keys>>

    constructor (cipher: Cipher)
      ensures this.cipher == cipher && slot == None
    {
      this.cipher := cipher;
      slot := None;
    }

    /**
     Fills the slot once; a second call changes nothing. With a primary id and some
     keys, that id is what new blobs are stamped with, and every listed key decrypts
     the blobs stamped with its id. Without either, nothing is configured.
     */
    method Init(keys: seq<(bytes, Key)>, primaryId: Option<bytes>)
      requires primaryId.Some? && keys != [] ==> FirstNamed(keys, primaryId.value).Some?
      modifies this
      ensures slot.Some? && (old(slot).Some? ==> slot == old(slot))
      ensures old(slot).None? ==> (Installed().Some? <==> primaryId.Some? && keys != [])
      ensures old(slot).None? && Installed().Some? ==>
                var installed := Installed().value;
                && installed.primaryId == primaryId.value && installed.primaryId in installed.byId
                && (forall id :: id in installed.byId <==> exists i :: 0 <= i < |keys| && keys[i].0 == id)
                && (DistinctIds(keys) ==>
                      (forall i :: 0 <= i < |keys| ==> installed.byId[keys[i].0] == keys[i].1)
                      && installed.primaryBytes == installed.byId[installed.primaryId])
                && (StampableId(primaryId.value) ==> Usable(installed))
      ensures old(Valid()) && (primaryId.Some? ==> |primaryId.value| < 256) ==> Valid()
    {
      if slot.None? {
        InstalledKeys(keys, primaryId);
        slot := Some(Resolve(keys, primaryId));
      }
    }

    /** The installed keys, when there are any. */
    function Installed(): Option<Keys>
      reads this
    {
      if slot.Some? then slot.value else None
    }

    /** A slot filled by `Init` from the configuration. */
    predicate Valid()
      reads this
    {
      Installed().Some? ==>
        Installed().value.primaryId in Installed().value.byId && |Installed().value.primaryId| < 256
    }

    method Encrypt(plaintext: bytes, nonce: bytes) returns (r: Result<bytes, SecretBoxError>)
      requires Valid() && |nonce| == NONCE_LEN
      ensures r == if Installed().Some? then Ok(Sealed(cipher, Installed().value, plaintext, nonce))
                   else Err(NotConfigured)
    {
      if Installed().None? {
        return Err(NotConfigured);
      }
      var keys := Installed().value;
      var id := keys.primaryId;
      var ciphertext := cipher.seal(keys.byId[id], nonce, plaintext);
      var out: bytes := [];
      out := out + [FORMAT_TAG];
      out := out + [|id|];
      out := out + id;
      out := out + nonce;
      out := out + ciphertext;
      assert out == Stamp(id, nonce, ciphertext);
      return Ok(out);
    }

    method Decrypt(stored: bytes) returns (r: Result<bytes, SecretBoxError>)
      requires Valid()
      ensures r == if Installed().Some? then Opened(cipher, Installed().value, stored) else Err(NotConfigured)
    {
      r := if Installed().Some? then Opened(cipher, Installed().value, stored) else Err(NotConfigured);
    }

    /** Re-encrypts a blob under the primary, whatever key it was written with. */
    method Reencrypt(stored: bytes, nonce: bytes) returns (r: Result<bytes, SecretBoxError>)
      requires Valid() && |nonce| == NONCE_LEN
      requires Installed().Some? ==> Usable(Installed().value)
      requires Lawful(cipher)
      ensures Installed().None? ==> r == Err(NotConfigured)
      ensures Installed().Some? ==>
                var keys := Installed().value;
                match Opened(cipher, keys, stored)
                case Err(e) => r == Err(e)
                case Ok(p) => r == Ok(Sealed(cipher, keys, p, nonce))
                              && Opened(cipher, keys, r.value) == Ok(p)
    {
      var plaintext := Decrypt(stored);
      if plaintext.Err? {
        return Err(plaintext.error);
      }
      DecryptUndoesEncrypt(cipher, Installed().value, plaintext.value, nonce);
      r := Encrypt(plaintext.value, nonce);
    }
  }
}
