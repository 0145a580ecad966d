/**
 Start-up: the key list parsed from the configuration is handed to the secret box.
 Whatever the variable holds, the keys it yields make a usable key set.
 */
module InstalledKeys {
  import opened Prelude
  import opened Utf8Encoding
  import Config
  import SecretBox

  /** Key ids as the bytes they are stamped with. */
  function Encoded(keys: seq<(string, Config.Key)>): (r: seq<(bytes, SecretBox.Key)>)
    ensures |r| == |keys|
  {
    seq(|keys|, i requires 0 <= i < |keys| => (Utf8(keys[i].0), keys[i].1))
  }

  /** The first entry is the primary. */
  function PrimaryId(keys: seq<(string, Config.Key)>): Option<bytes> {
    if keys == [] then None else Some(Utf8(keys[0].0))
  }

  lemma EncodedIdsStayDistinct(keys: seq<(string, Config.Key)>)
    requires Config.DistinctIds(keys)
    ensures SecretBox.DistinctIds(Encoded(keys))
  {
    forall i, j | 0 <= i < j < |keys| ensures Encoded(keys)[i].0 != Encoded(keys)[j].0 {
      if Utf8(keys[i].0) == Utf8(keys[j].0) {
        Utf8IsInjective(keys[i].0, keys[j].0);
      }
    }
  }

  lemma {:induction false} FirstIsNamed(keys: seq<(bytes, SecretBox.Key)>)
    requires keys != []
    ensures SecretBox.FirstNamed(keys, keys[0].0).Some?
  {
  }

  /** What start-up makes of a key list: the first entry is the primary, and every entry decrypts what carries its id. */
  ghost predicate InstallsUsable(keys: seq<(string, Config.Key)>)
    requires keys != []
  {
    && SecretBox.FirstNamed(Encoded(keys), Utf8(keys[0].0)).Some?
    && SecretBox.Resolve(Encoded(keys), PrimaryId(keys)).Some?
    && var installed := SecretBox.Resolve(Encoded(keys), PrimaryId(keys)).value;
       && SecretBox.Usable(installed)
       && installed.primaryId == Utf8(keys[0].0) && installed.primaryBytes == keys[0].1
       && forall i :: 0 <= i < |keys| ==>
            Utf8(keys[i].0) in installed.byId && installed.byId[Utf8(keys[i].0)] == keys[i].1
  }

  lemma GoodListsInstallUsable(keys: seq<(string, Config.Key)>)
    requires keys != [] && Config.DistinctIds(keys) && Config.GoodId(keys[0].0)
    ensures InstallsUsable(keys)
  {
    StringsAreUtf8(keys[0].0);
    FirstStampable(keys[0].0);
    EncodedIdsStayDistinct(keys);
    hide SecretBox.FirstNamed, ValidUtf8, Utf8, SecretBox.Collected, SecretBox.StampableId, Config.GoodId;
    var encoded := Encoded(keys);
    assert encoded[0].0 == Utf8(keys[0].0);
    FirstIsNamed(encoded);
    SecretBox.InstalledKeys(encoded, PrimaryId(keys));
    forall i | 0 <= i < |keys| ensures encoded[i] == (Utf8(keys[i].0), keys[i].1) {}
  }

  lemma FirstStampable(id: string)
    requires Config.GoodId(id) && ValidUtf8(Utf8(id))
    ensures SecretBox.StampableId(Utf8(id))
  {
    hide ValidUtf8;
    assert id != "" ==> Utf8(id) == Utf8(id[..|id| - 1]) + Utf8Char(id[|id| - 1]);
  }

  /** Whatever the variable holds, the keys parsed from it, if any, install a usable key set. */
  lemma ParsedKeysAreUsable(vars: map<string, string>)
    requires Config.Keys(Config.SecretOutcomes(vars)) != []
    ensures InstallsUsable(Config.Keys(Config.SecretOutcomes(vars)))
  {
    hide *;
    var keys := Config.Keys(Config.SecretOutcomes(vars));
    Config.EveryItemIsAccountedFor(vars);
    assert keys[0] in keys;
    GoodListsInstallUsable(keys);
  }
}
