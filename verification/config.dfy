/**
 The `EDDA_SECRET_KEYS` parser: a comma-separated list of `id:hex` entries whose
 problems are accumulated, one per rejected entry, instead of stopping at the first.
 */
module Config {
  import opened Prelude
  import opened Text
  import opened Utf8Encoding

  const SECRET_KEYS := "EDDA_SECRET_KEYS"

  type Key = bytes

  datatype Problem =
    | NeedsId
    | BadIdLength(id: string)
    | DuplicateId(id: string)
    | BadKey(id: string)

  datatype ConfigError = ConfigError(variable: string, problem: Problem)

  // -------------------------------------------------------------------- encoding

  function HexDigit(b: byte): Option<byte> {
    if 0x30 <= b <= 0x39 then Some(b - 0x30)
    else if 0x61 <= b <= 0x66 then Some(b - 0x57)
    else if 0x41 <= b <= 0x46 then Some(b - 0x37)
    else None
  }

  /** `u8::from_str_radix` on two bytes: both digits, or a plus sign and one digit. */
  function HexByte(hi: byte, lo: byte): Option<byte> {
    match (HexDigit(hi), HexDigit(lo))
    case (Some(h), Some(l)) => Some(16 * h + l)
    case (None, Some(l)) => if hi == 0x2B then Some(l) else None
    case (_, None) => None
  }

  function DecodeHex32(input: string): (r: Option<Key>)
    ensures r.Some? ==> |r.value| == 32
    ensures var b := Utf8(Trim(input));
            r.Some? ==> |b| == 64 && forall i :: 0 <= i < 32 ==> HexByte(b[2 * i], b[2 * i + 1]) == Some(r.value[i])
  {
    var b := Utf8(Trim(input));
    if |b| == 64 && forall i :: 0 <= i < 32 ==> HexByte(b[2 * i], b[2 * i + 1]).Some?
    then Some(seq(32, i requires 0 <= i < 32 => HexByte(b[2 * i], b[2 * i + 1]).value))
    else None
  }

  lemma SameBytes(b: bytes, x: bytes, y: bytes)
    requires |b| == 64 && |x| == |y| == 32
    requires forall k :: 0 <= k < 32 ==> HexByte(b[2 * k], b[2 * k + 1]) == Some(x[k])
    requires forall k :: 0 <= k < 32 ==> HexByte(b[2 * k], b[2 * k + 1]) == Some(y[k])
    ensures x == y
  {
    forall k | 0 <= k < 32 ensures x[k] == y[k] {
      assert HexByte(b[2 * k], b[2 * k + 1]) == Some(x[k]);
    }
  }

  method DecodeHex32Loop(input: string) returns (r: Option<Key>)
    ensures r == DecodeHex32(input)
  {
    var b := Utf8(Trim(input));
    if |b| != 64 {
      return None;
    }
    var out := new byte[32](_ => 0);
    for i := 0 to 32
      invariant forall k :: 0 <= k < i ==> HexByte(b[2 * k], b[2 * k + 1]) == Some(out[k])
    {
      var v := HexByte(b[2 * i], b[2 * i + 1]);
      if v.None? {
        return None;
      }
      out[i] := v.value;
    }
    SameBytes(b, DecodeHex32(input).value, out[..]);
    return Some(out[..]);
  }

  // --------------------------------------------------------------------- splitting

  /** `split(c)`: never empty, one part more than there are separators. */
  function Split(s: string, c: char): (parts: seq<string>)
    ensures parts != []
    decreases |s|
  {
    match Find(s, c, 0)
    case None => [s]
    case Some(k) => [s[..k]] + Split(s[k + 1..], c)
  }

  function TrimmedNonBlank(parts: seq<string>): seq<string> {
    if parts == [] then []
    else (if Trim(parts[0]) == "" then [] else [Trim(parts[0])]) + TrimmedNonBlank(parts[1..])
  }

  function Items(raw: string): seq<string> {
    TrimmedNonBlank(Split(raw, ','))
  }

  /** The id and hex part of an item; a bare key is `default` when it is the only item. */
  function IdAndHex(item: string, sole: bool): Option<(string, string)> {
    match Find(item, ':', 0)
    case Some(k) => Some((Trim(item[..k]), Trim(item[k + 1..])))
    case None => if sole then Some(("default", Trim(item))) else None
  }

  predicate GoodId(id: string) {
    id != "" && |Utf8(id)| <= 32
  }

  // ----------------------------------------------------------------------- parsing

  type Outcome = Result<(string, Key), Problem>

  /** What one item yields, given the ids seen in the items before it. */
  function ItemOutcome(item: string, sole: bool, seen: set<string>): Outcome {
    match IdAndHex(item, sole)
    case None => Err(NeedsId)
    case Some((id, hex)) =>
      if !GoodId(id) then Err(BadIdLength(id))
      else if id in seen then Err(DuplicateId(id))
      else
        match DecodeHex32(hex)
        case Some(key) => Ok((id, key))
        case None => Err(BadKey(id))
  }

  /** An id counts as seen even when its key turns out malformed. */
  function SeenAfter(item: string, sole: bool, seen: set<string>): set<string> {
    match IdAndHex(item, sole)
    case Some((id, _)) => if GoodId(id) then seen + {id} else seen
    case None => seen
  }

  function Seen(items: seq<string>, sole: bool): set<string> {
    if items == [] then {}
    else SeenAfter(items[|items| - 1], sole, Seen(items[..|items| - 1], sole))
  }

  /** One outcome per item, in order. */
  function Outcomes(items: seq<string>, sole: bool): (os: seq<Outcome>)
    ensures |os| == |items|
  {
    if items == [] then []
    else
      var before := items[..|items| - 1];
      Outcomes(before, sole) + [ItemOutcome(items[|items| - 1], sole, Seen(before, sole))]
  }

  function KeyOf(o: Outcome): seq<(string, Key)> {
    if o.Ok? then [o.value] else []
  }

  function ProblemOf(o: Outcome): seq<ConfigError> {
    if o.Err? then [ConfigError(SECRET_KEYS, o.error)] else []
  }

  function Keys(os: seq<Outcome>): seq<(string, Key)> {
    if os == [] then [] else Keys(os[..|os| - 1]) + KeyOf(os[|os| - 1])
  }

  function Problems(os: seq<Outcome>): seq<ConfigError> {
    if os == [] then [] else Problems(os[..|os| - 1]) + ProblemOf(os[|os| - 1])
  }

  /** The value of a variable: present, not blank, trimmed. */
  function Get(vars: map<string, string>, name: string): Option<string> {
    if name in vars && Trim(vars[name]) != "" then Some(Trim(vars[name])) else None
  }

  /** The items of the variable, none when it is unset. */
  function SecretItems(vars: map<string, string>): seq<string> {
    match Get(vars, SECRET_KEYS)
    case Some(raw) => Items(raw)
    case None => []
  }

  function SecretOutcomes(vars: map<string, string>): seq<Outcome> {
    Outcomes(SecretItems(vars), |SecretItems(vars)| == 1)
  }

  class Env {
    const vars: map<string, string>
    var errors: seq<ConfigError>

    constructor (vars: map<string, string>)
      ensures this.vars == vars && errors == []
    {
      this.vars := vars;
      errors := [];
    }

    method Fail(problem: Problem)
      modifies this
      ensures errors == old(errors) + [ConfigError(SECRET_KEYS, problem)]
    {
      errors := errors + [ConfigError(SECRET_KEYS, problem)];
    }

    /** One turn of the loop: one item gives a key or an error, never both. */
    method ParseItem(item: string, sole: bool, entries: seq<(string, Key)>, seen: set<string>)
      returns (entries': seq<(string, Key)>, seen': set<string>)
      modifies this
      ensures entries' == entries + KeyOf(ItemOutcome(item, sole, seen))
      ensures errors == old(errors) + ProblemOf(ItemOutcome(item, sole, seen))
      ensures seen' == SeenAfter(item, sole, seen)
    {
      hide GoodId, IdAndHex, DecodeHex32;
      entries', seen' := entries, seen;
      var parts := IdAndHex(item, sole);
      if parts.None? {
        Fail(NeedsId);
        return;
      }
      var (id, hex) := parts.value;
      if !GoodId(id) {
        Fail(BadIdLength(id));
        return;
      }
      if id in seen {
        Fail(DuplicateId(id));
        assert seen + {id} == seen;
        return;
      }
      seen' := seen + {id};
      var key := DecodeHex32Loop(hex);
      match key {
        case Some(k) => entries' := entries + [(id, k)];
        case None => Fail(BadKey(id));
      }
    }

    /** The keys of the good items, and one more error for each of the others. */
    method ParseSecretKeys() returns (entries: seq<(string, Key)>)
      modifies this
      ensures entries == Keys(SecretOutcomes(vars))
      ensures errors == old(errors) + Problems(SecretOutcomes(vars))
    {
      hide *;
      NoneYet(false);
      ReadsTheVariable(vars);
      var raw := Get(vars, SECRET_KEYS);
      entries := [];
      if raw.None? {
        return;
      }
      var items := Items(raw.value);
      var sole := |items| == 1;
      var seen: set<string> := {};
      NoneYet(sole);
      assert items[..0] == [];
      for i := 0 to |items|
        invariant entries == Keys(Outcomes(items[..i], sole))
        invariant errors == old(errors) + Problems(Outcomes(items[..i], sole))
        invariant seen == Seen(items[..i], sole)
      {
        OneMore(items, sole, i);
        entries, seen := ParseItem(items[i], sole, entries, seen);
      }
      assert items[..|items|] == items;
    }
  }

  lemma ReadsTheVariable(vars: map<string, string>)
    ensures match Get(vars, SECRET_KEYS)
            case Some(raw) => SecretItems(vars) == Items(raw)
            case None => SecretItems(vars) == []
    ensures SecretOutcomes(vars) == Outcomes(SecretItems(vars), |SecretItems(vars)| == 1)
  {
  }

  lemma NoneYet(sole: bool)
    ensures Outcomes([], sole) == [] && Keys([]) == [] && Problems([]) == [] && Seen([], sole) == {}
  {
  }

  lemma OneMore(items: seq<string>, sole: bool, i: nat)
    requires i < |items|
    ensures var o, os := ItemOutcome(items[i], sole, Seen(items[..i], sole)), Outcomes(items[..i], sole);
            && Outcomes(items[..i + 1], sole) == os + [o]
            && Keys(Outcomes(items[..i + 1], sole)) == Keys(os) + KeyOf(o)
            && Problems(Outcomes(items[..i + 1], sole)) == Problems(os) + ProblemOf(o)
            && Seen(items[..i + 1], sole) == SeenAfter(items[i], sole, Seen(items[..i], sole))
  {
    hide ItemOutcome, SeenAfter, KeyOf, ProblemOf;
    assert items[..i + 1][..i] == items[..i];
    var os := Outcomes(items[..i + 1], sole);
    assert os[..i] == Outcomes(items[..i], sole);
  }

  // ------------------------------------------------- every item is accounted for

  lemma {:induction false} KeysAndProblemsAddUp(os: seq<Outcome>)
    ensures |Keys(os)| + |Problems(os)| == |os|
  {
    if os != [] { KeysAndProblemsAddUp(os[..|os| - 1]); }
  }

  ghost predicate DistinctIds(keys: seq<(string, Key)>) {
    forall i, j :: 0 <= i < j < |keys| ==> keys[i].0 != keys[j].0
  }

  /** Distinct good ids, all among `seen`. */
  ghost predicate Accepted(keys: seq<(string, Key)>, seen: set<string>) {
    && DistinctIds(keys)
    && forall e :: e in keys ==> e.0 in seen && GoodId(e.0) && |e.1| == 32
  }

  lemma AcceptOneMore(keys: seq<(string, Key)>, item: string, sole: bool, seen: set<string>)
    requires Accepted(keys, seen)
    ensures var o := ItemOutcome(item, sole, seen);
            Accepted(keys + KeyOf(o), SeenAfter(item, sole, seen))
  {
    SeenGrows(item, sole, seen);
    hide ItemOutcome, SeenAfter, GoodId;
  }

  lemma {:induction false} AcceptedIdsAreSeen(items: seq<string>, sole: bool, n: nat)
    requires n <= |items|
    ensures Accepted(Keys(Outcomes(items[..n], sole)), Seen(items[..n], sole))
  {
    NoneYet(sole);
    if n > 0 {
      hide Outcomes, Keys, Seen, Problems, ItemOutcome, SeenAfter, Accepted;
      AcceptedIdsAreSeen(items, sole, n - 1);
      OneMore(items, sole, n - 1);
      AcceptOneMore(Keys(Outcomes(items[..n - 1], sole)), items[n - 1], sole, Seen(items[..n - 1], sole));
    }
  }

  lemma SeenGrows(item: string, sole: bool, seen: set<string>)
    ensures seen <= SeenAfter(item, sole, seen)
    ensures var o := ItemOutcome(item, sole, seen);
            o.Ok? ==> o.value.0 !in seen && o.value.0 in SeenAfter(item, sole, seen)
                      && GoodId(o.value.0) && |o.value.1| == 32
  {
    hide Utf8, Trim, DecodeHex32, GoodId, IdAndHex;
  }

  /**
   On every input each nonblank item yields exactly one key or exactly one error,
   and the accepted ids are pairwise distinct, 1 to 32 bytes long, with 32-byte keys.
   */
  lemma EveryItemIsAccountedFor(vars: map<string, string>)
    ensures var os := SecretOutcomes(vars);
            && |os| == |SecretItems(vars)|
            && |Keys(os)| + |Problems(os)| == |SecretItems(vars)|
            && DistinctIds(Keys(os))
            && (forall e :: e in Keys(os) ==> GoodId(e.0) && |e.1| == 32)
  {
    KeysAndProblemsAddUp(SecretOutcomes(vars));
    var items := SecretItems(vars);
    AcceptedIdsAreSeen(items, |items| == 1, |items|);
    assert items[..|items|] == items;
  }

  // --------------------------------------------------------- parsing undoes printing

  function HexChar(d: int): char
    requires 0 <= d < 16
  {
    if d < 10 then '0' + d as char else 'a' + (d - 10) as char
  }

  function Hex(key: Key): (s: string)
    ensures |s| == 2 * |key|
  {
    seq(2 * |key|, i requires 0 <= i < 2 * |key| =>
          HexChar(if i % 2 == 0 then key[i / 2] / 16 else key[i / 2] % 16))
  }

  function Entry(e: (string, Key)): string {
    e.0 + ":" + Hex(e.1)
  }

  function Printed(keys: seq<(string, Key)>): string {
    if keys == [] then ""
    else if |keys| == 1 then Entry(keys[0])
    else Entry(keys[0]) + "," + Printed(keys[1..])
  }

  /** Trimmed ids of 1 to 32 bytes without `,` or `:`, pairwise distinct; 32-byte keys. */
  ghost predicate Printable(keys: seq<(string, Key)>) {
    && DistinctIds(keys)
    && forall e :: e in keys ==>
         GoodId(e.0) && Trim(e.0) == e.0 && ',' !in e.0 && ':' !in e.0 && |e.1| == 32
  }

  lemma HexIsPlain(key: Key)
    ensures forall c :: c in Hex(key) ==> '0' <= c <= '9' || 'a' <= c <= 'f'
  {
    forall c | c in Hex(key) ensures '0' <= c <= '9' || 'a' <= c <= 'f' {
      var i :| 0 <= i < |Hex(key)| && Hex(key)[i] == c;
    }
  }

  lemma TrimsToItself(s: string)
    requires s != "" && !IsWhitespace(s[0]) && !IsWhitespace(s[|s| - 1])
    ensures Trim(s) == s
  {
    assert TrimStartMatches(s, IsWhitespace) == s;
  }

  lemma TrimmedEnds(s: string)
    requires Trim(s) == s && s != ""
    ensures !IsWhitespace(s[0]) && !IsWhitespace(s[|s| - 1])
  {
    var t := TrimStartMatches(s, IsWhitespace);
    assert |TrimEndMatches(t, IsWhitespace)| <= |t| <= |s|;
    assert t == s;
  }

  lemma HexByteOfChars(b: byte)
    ensures HexByte(HexChar(b / 16) as int, HexChar(b % 16) as int) == Some(b)
  {
  }

  lemma HexDecodes(key: Key)
    requires |key| == 32
    ensures DecodeHex32(Hex(key)) == Some(key) && Trim(Hex(key)) == Hex(key)
  {
    var s := Hex(key);
    HexIsPlain(key);
    assert s[0] in s && s[63] in s;
    TrimsToItself(s);
    forall i | 0 <= i < |s| ensures s[i] < '\U{0080}' { assert s[i] in s; }
    AsciiBytes(s);
    var b := Utf8(s);
    hide Utf8, Trim;
    forall i | 0 <= i < 32 ensures HexByte(b[2 * i], b[2 * i + 1]) == Some(key[i]) {
      HexPair(key, i);
      HexByteOfChars(key[i]);
    }
    assert DecodeHex32(s).Some?;
    SameBytes(b, DecodeHex32(s).value, key);
  }

  lemma HexPair(key: Key, i: nat)
    requires i < |key|
    ensures Hex(key)[2 * i] == HexChar(key[i] / 16) && Hex(key)[2 * i + 1] == HexChar(key[i] % 16)
  {
    assert 2 * i / 2 == i && (2 * i + 1) / 2 == i && (2 * i) % 2 == 0 && (2 * i + 1) % 2 == 1;
  }

  /** One printed entry reads back as its id and key. */
  lemma EntryReads(e: (string, Key), sole: bool)
    requires GoodId(e.0) && Trim(e.0) == e.0 && ':' !in e.0 && |e.1| == 32
    ensures IdAndHex(Entry(e), sole) == Some((e.0, Hex(e.1)))
    ensures DecodeHex32(Hex(e.1)) == Some(e.1)
  {
    var item := Entry(e);
    HexDecodes(e.1);
    assert item[0..|e.0|] == e.0;
    FindIs(item, ':', 0, |e.0|);
    assert item[..|e.0|] == e.0 && item[|e.0| + 1..] == Hex(e.1);
  }

  lemma EntryIsOneTrimmedItem(e: (string, Key))
    requires GoodId(e.0) && Trim(e.0) == e.0 && ',' !in e.0 && |e.1| == 32
    ensures Entry(e) != "" && Trim(Entry(e)) == Entry(e) && ',' !in Entry(e)
    ensures !IsWhitespace(Entry(e)[0]) && !IsWhitespace(Entry(e)[|Entry(e)| - 1])
  {
    HexIsPlain(e.1);
    TrimmedEnds(e.0);
    var item := Entry(e);
    assert item[|item| - 1] == Hex(e.1)[63] && Hex(e.1)[63] in Hex(e.1);
    TrimsToItself(item);
  }

  function Entries(keys: seq<(string, Key)>): (r: seq<string>)
    ensures |r| == |keys|
    ensures forall i :: 0 <= i < |keys| ==> r[i] == Entry(keys[i])
  {
    if keys == [] then [] else [Entry(keys[0])] + Entries(keys[1..])
  }

  lemma OneItem(s: string)
    requires ',' !in s && Trim(s) != ""
    ensures Items(s) == [Trim(s)]
  {
    assert Find(s, ',', 0).None?;
    hide Trim;
    var parts := Split(s, ',');
    assert parts == [s] && parts[1..] == [];
    assert TrimmedNonBlank(parts) == [Trim(s)] + TrimmedNonBlank(parts[1..]);
    assert TrimmedNonBlank([]) == [];
  }

  /** Splitting peels one comma-free part off the front. */
  lemma OneMoreItem(e: string, rest: string)
    requires ',' !in e && Trim(e) == e && e != ""
    ensures Items(e + "," + rest) == [e] + Items(rest)
  {
    hide Trim;
    var s := e + "," + rest;
    assert s[0..|e|] == e;
    FindIs(s, ',', 0, |e|);
    assert s[..|e|] == e && s[|e| + 1..] == rest;
    var parts := Split(s, ',');
    assert parts[0] == e && parts[1..] == Split(rest, ',');
  }

  lemma {:induction false} PrintedSplits(keys: seq<(string, Key)>)
    requires Printable(keys) && keys != []
    ensures Items(Printed(keys)) == Entries(keys)
    ensures var s := Printed(keys);
            s != "" && !IsWhitespace(s[0]) && !IsWhitespace(s[|s| - 1])
    decreases |keys|
  {
    hide Trim, IsWhitespace, Entry, GoodId, Items;
    var e := Entry(keys[0]);
    assert keys[0] in keys;
    EntryIsOneTrimmedItem(keys[0]);
    if |keys| == 1 {
      OneItem(e);
      assert Entries(keys) == [e] by { assert Entries(keys[1..]) == []; }
    } else {
      PrintedSplits(keys[1..]);
      var rest := Printed(keys[1..]);
      OneMoreItem(e, rest);
      assert (e + "," + rest)[|e| + |rest|] == rest[|rest| - 1];
    }
  }

  /** The first `n` ids. */
  function IdsUpTo(keys: seq<(string, Key)>, n: nat): set<string>
    requires n <= |keys|
  {
    set i | 0 <= i < n :: keys[i].0
  }

  lemma PrintedEntryIsAccepted(keys: seq<(string, Key)>, sole: bool, i: nat, seen: set<string>)
    requires Printable(keys) && i < |keys| && seen <= IdsUpTo(keys, i)
    ensures var o := ItemOutcome(Entry(keys[i]), sole, seen);
            KeyOf(o) == [keys[i]] && ProblemOf(o) == []
    ensures SeenAfter(Entry(keys[i]), sole, seen) <= IdsUpTo(keys, i + 1)
  {
    assert keys[i] in keys;
    EntryReads(keys[i], sole);
    hide Entry, DecodeHex32, IdAndHex, GoodId;
    assert keys[i].0 !in seen;
  }

  lemma {:induction false} EntriesParse(keys: seq<(string, Key)>, sole: bool, n: nat)
    requires Printable(keys) && n <= |keys|
    ensures Keys(Outcomes(Entries(keys)[..n], sole)) == keys[..n]
    ensures Problems(Outcomes(Entries(keys)[..n], sole)) == []
    ensures Seen(Entries(keys)[..n], sole) <= IdsUpTo(keys, n)
  {
    hide *;
    var items := Entries(keys);
    if n == 0 {
      assert items[..0] == [] && keys[..0] == [];
      NoneYet(sole);
    } else {
      EntriesParse(keys, sole, n - 1);
      OneMore(items, sole, n - 1);
      PrintedEntryIsAccepted(keys, sole, n - 1, Seen(items[..n - 1], sole));
      assert items[n - 1] == Entry(keys[n - 1]);
      assert keys[..n] == keys[..n - 1] + [keys[n - 1]];
    }
  }

  lemma PrintedItems(vars: map<string, string>, keys: seq<(string, Key)>)
    requires Printable(keys) && keys != [] && SECRET_KEYS in vars && vars[SECRET_KEYS] == Printed(keys)
    ensures SecretItems(vars) == Entries(keys)
  {
    PrintedSplits(keys);
    TrimsToItself(Printed(keys));
    hide Trim, Items, Printed, Entries;
  }

  /**
   Parsing undoes printing, for key lists of any length: the same keys in the
   same order and no error.
   */
  lemma ParsingUndoesPrinting(vars: map<string, string>, keys: seq<(string, Key)>)
    requires Printable(keys) && SECRET_KEYS in vars && vars[SECRET_KEYS] == Printed(keys)
    ensures Keys(SecretOutcomes(vars)) == keys && Problems(SecretOutcomes(vars)) == []
  {
    var sole := |keys| == 1;
    if keys == [] {
      assert Trim("") == "" && SecretItems(vars) == [];
    } else {
      PrintedItems(vars, keys);
      hide *;
      assert Entries(keys)[..|keys|] == Entries(keys) && keys[..|keys|] == keys;
      EntriesParse(keys, sole, |keys|);
      ReadsTheVariable(vars);
    }
  }
}
