/**
 What each item of `EDDA_SECRET_KEYS` yields, said without the parser: which items are
 accepted, and with which of the four problems each of the others is refused.
 */
module ConfigExact {
  import opened Prelude
  import opened Text
  import opened Utf8Encoding
  import opened Config

  // ------------------------------------------------------------------- hexadecimal

  /** `b` is the digit with value `v`, in either case. */
  predicate DigitWithValue(b: byte, v: int) {
    0 <= v < 16 && (b == "0123456789abcdef"[v] as int || b == "0123456789ABCDEF"[v] as int)
  }

  /** Two hex digits, or a plus sign and one. */
  ghost predicate PairSpells(hi: byte, lo: byte, v: byte) {
    || (DigitWithValue(hi, v / 16) && DigitWithValue(lo, v % 16))
    || (hi == '+' as int && DigitWithValue(lo, v))
  }

  lemma DigitExactly(b: byte, v: int)
    ensures HexDigit(b) == Some(v) <==> DigitWithValue(b, v)
  {
  }

  lemma DigitsAreSmall(b: byte)
    ensures HexDigit(b).Some? ==> HexDigit(b).value < 16
    ensures HexDigit('+' as int) == None
  {
  }

  lemma Sixteenths(h: int, l: int, v: int)
    requires 0 <= h < 16 && 0 <= l < 16
    ensures 16 * h + l == v <==> h == v / 16 && l == v % 16
  {
  }

  lemma PairExactly(hi: byte, lo: byte, v: byte)
    ensures HexByte(hi, lo) == Some(v) <==> PairSpells(hi, lo, v)
  {
    DigitExactly(hi, v / 16);
    DigitExactly(lo, v % 16);
    DigitExactly(lo, v);
    DigitsAreSmall(hi);
    DigitsAreSmall(lo);
    if HexDigit(hi).Some? && HexDigit(lo).Some? { Sixteenths(HexDigit(hi).value, HexDigit(lo).value, v); }
    hide HexDigit, DigitWithValue;
  }

  /** `hex` is 64 bytes, each two of which spell a byte of `key`. */
  ghost predicate Spells(hex: string, key: Key) {
    var b := Utf8(Trim(hex));
    |key| == 32 && |b| == 64 && forall i :: 0 <= i < 32 ==> PairSpells(b[2 * i], b[2 * i + 1], key[i])
  }

  lemma DecodesExactly(hex: string, key: Key)
    ensures DecodeHex32(hex) == Some(key) <==> Spells(hex, key)
  {
    hide PairSpells, HexByte;
    var b := Utf8(Trim(hex));
    if |b| == 64 && |key| == 32 {
      forall i | 0 <= i < 32
        ensures HexByte(b[2 * i], b[2 * i + 1]) == Some(key[i]) <==> PairSpells(b[2 * i], b[2 * i + 1], key[i])
      {
        PairExactly(b[2 * i], b[2 * i + 1], key[i]);
      }
      if Spells(hex, key) { SameBytes(b, DecodeHex32(hex).value, key); }
    }
  }

  // ------------------------------------------------------------------------- items

  /** A comma separates items; a part that is blank is none; the others are trimmed. */
  lemma ItemsAreTheTrimmedParts(raw: string, part: string)
    requires ',' !in part
    ensures Items(part + "," + raw) == (if Trim(part) == "" then [] else [Trim(part)]) + Items(raw)
    ensures Items(part) == if Trim(part) == "" then [] else [Trim(part)]
  {
    var all := part + "," + raw;
    assert all[0..|part|] == part;
    FindIs(all, ',', 0, |part|);
    assert all[..|part|] == part && all[|part| + 1..] == raw;
    assert Split(all, ',') == [part] + Split(raw, ',');
    assert ([part] + Split(raw, ','))[1..] == Split(raw, ',');
    assert part[0..] == part;
    assert Split(part, ',') == [part];
    OnePart(part);
    hide Trim, Split;
  }

  lemma OnePart(part: string)
    ensures TrimmedNonBlank([part]) == if Trim(part) == "" then [] else [Trim(part)]
  {
    hide Trim;
    assert [part][1..] == [] && TrimmedNonBlank([]) == [];
  }

  lemma ItemsOfTheVariable(vars: map<string, string>)
    ensures SecretItems(vars)
            == if "EDDA_SECRET_KEYS" in vars then Items(Trim(vars["EDDA_SECRET_KEYS"])) else []
  {
    hide Trim, Find;
    NothingInNothing();
  }

  lemma NothingInNothing()
    ensures Items("") == []
  {
    assert Trim("") == "";
    ItemsAreTheTrimmedParts("", "");
  }

  // ---------------------------------------------------------------------- outcomes

  /** What stands before the first colon, trimmed, and what stands behind it, trimmed. */
  ghost predicate SplitAtColon(item: string, id: string, hex: string) {
    exists before, behind :: ':' !in before && item == before + ":" + behind && id == Trim(before) && hex == Trim(behind)
  }

  /** The id and key text of item `i`; a key alone in its list may come without an id. */
  ghost predicate Reads(items: seq<string>, i: nat, id: string, hex: string)
    requires i < |items|
  {
    || SplitAtColon(items[i], id, hex)
    || (|items| == 1 && ':' !in items[i] && id == "default" && hex == Trim(items[i]))
  }

  ghost predicate Usable(id: string) {
    1 <= |Utf8(id)| <= 32
  }

  /** An earlier item has the id too, whatever its key. */
  ghost predicate Repeats(items: seq<string>, i: nat, id: string)
    requires i <= |items|
  {
    exists j, hex :: 0 <= j < i && Reads(items, j, id, hex)
  }

  lemma ReadsExactly(items: seq<string>, i: nat, id: string, hex: string)
    requires i < |items|
    ensures IdAndHex(items[i], |items| == 1) == Some((id, hex)) <==> Reads(items, i, id, hex)
  {
    hide Trim;
    var item := items[i];
    match Find(item, ':', 0)
    case Some(k) =>
      assert item[..k] == item[0..k] && item == item[..k] + ":" + item[k + 1..];
      if before, behind :| ':' !in before && item == before + ":" + behind && id == Trim(before) && hex == Trim(behind) {
        assert item[0..|before|] == before;
        FindIs(item, ':', 0, |before|);
        assert item[..k] == before && item[k + 1..] == behind;
      }
    case None =>
      assert item[0..] == item;
      forall before: string, behind: string ensures item != before + ":" + behind {
        assert (before + ":" + behind)[|before|] == ':';
      }
  }

  lemma UsableExactly(id: string)
    ensures GoodId(id) <==> Usable(id)
  {
    if id != "" { Utf8Unfolds(id); }
  }

  lemma Utf8Unfolds(s: string)
    requires s != ""
    ensures |Utf8(s)| >= 1
  {
  }

  lemma {:induction false} OutcomeAt(items: seq<string>, sole: bool, i: nat)
    requires i < |items|
    ensures Outcomes(items, sole)[i] == ItemOutcome(items[i], sole, Seen(items[..i], sole))
    decreases |items|
  {
    hide ItemOutcome, Seen;
    var before := items[..|items| - 1];
    if i < |before| {
      OutcomeAt(before, sole, i);
      assert before[..i] == items[..i];
    }
  }

  lemma RepeatsOneMore(items: seq<string>, n: nat, id: string)
    requires n < |items|
    ensures Repeats(items, n + 1, id) <==> Repeats(items, n, id) || exists hex :: Reads(items, n, id, hex)
  {
    hide Reads;
  }

  lemma SeenOneMore(items: seq<string>, n: nat, sole: bool)
    requires n < |items|
    ensures Seen(items[..n + 1], sole) == SeenAfter(items[n], sole, Seen(items[..n], sole))
  {
    hide SeenAfter;
    assert items[..n + 1][..n] == items[..n];
  }

  lemma ReadsInOneWay(items: seq<string>, i: nat)
    requires i < |items|
    ensures match IdAndHex(items[i], |items| == 1)
            case Some((id, hex)) => forall id', hex' :: Reads(items, i, id', hex') <==> id' == id && hex' == hex
            case None => forall id, hex :: !Reads(items, i, id, hex)
  {
    forall id, hex ensures Reads(items, i, id, hex) <==> IdAndHex(items[i], |items| == 1) == Some((id, hex)) {
      ReadsExactly(items, i, id, hex);
    }
    hide Reads, IdAndHex;
  }

  lemma SeenByReading(items: seq<string>, i: nat, id: string, seen: set<string>)
    requires i < |items|
    ensures id in SeenAfter(items[i], |items| == 1, seen)
            <==> id in seen || (Usable(id) && exists hex :: Reads(items, i, id, hex))
  {
    ReadsInOneWay(items, i);
    UsableExactly(id);
    hide IdAndHex, Reads, GoodId, Usable;
    if IdAndHex(items[i], |items| == 1).Some? {
      var (read, hex) := IdAndHex(items[i], |items| == 1).value;
      assert Reads(items, i, read, hex);
    }
  }

  lemma {:induction false} SeenExactly(items: seq<string>, n: nat, id: string)
    requires n <= |items|
    ensures id in Seen(items[..n], |items| == 1) <==> Usable(id) && Repeats(items, n, id)
    decreases n
  {
    if n == 0 {
      NoneYet(|items| == 1);
      assert items[..0] == [];
    } else {
      SeenExactly(items, n - 1, id);
      hide *;
      SeenOneMore(items, n - 1, |items| == 1);
      RepeatsOneMore(items, n - 1, id);
      SeenByReading(items, n - 1, id, Seen(items[..n - 1], |items| == 1));
    }
  }

  lemma NothingReads(items: seq<string>, i: nat)
    requires i < |items|
    ensures IdAndHex(items[i], |items| == 1).None? <==> ':' !in items[i] && |items| > 1
  {
    hide Trim;
    assert items[i][0..] == items[i];
  }

  /** The four ways to be refused, and what it takes to be accepted. */
  ghost predicate Judged(items: seq<string>, i: nat, o: Outcome)
    requires i < |items|
  {
    match o
    case Err(NeedsId) => ':' !in items[i] && |items| > 1
    case Err(BadIdLength(id)) => (exists hex :: Reads(items, i, id, hex)) && !Usable(id)
    case Err(DuplicateId(id)) => (exists hex :: Reads(items, i, id, hex)) && Usable(id) && Repeats(items, i, id)
    case Err(BadKey(id)) =>
      && Usable(id) && !Repeats(items, i, id)
      && exists hex :: Reads(items, i, id, hex) && forall key :: !Spells(hex, key)
    case Ok((id, key)) =>
      && Usable(id) && !Repeats(items, i, id)
      && exists hex :: Reads(items, i, id, hex) && Spells(hex, key)
  }

  /** How an item with one reading is judged. */
  lemma JudgedByItsReading(items: seq<string>, i: nat, id: string, hex: string, o: Outcome)
    requires i < |items| && forall id', hex' :: Reads(items, i, id', hex') <==> id' == id && hex' == hex
    requires ':' in items[i] || |items| == 1
    ensures Judged(items, i, o)
            <==> match o
                 case Err(NeedsId) => false
                 case Err(BadIdLength(x)) => x == id && !Usable(id)
                 case Err(DuplicateId(x)) => x == id && Usable(id) && Repeats(items, i, id)
                 case Err(BadKey(x)) => x == id && Usable(id) && !Repeats(items, i, id) && forall key :: !Spells(hex, key)
                 case Ok((x, key)) => x == id && Usable(id) && !Repeats(items, i, id) && Spells(hex, key)
  {
    assert Reads(items, i, id, hex);
    hide Reads, Usable, Repeats, Spells;
  }

  lemma JudgedWithoutReading(items: seq<string>, i: nat, o: Outcome)
    requires i < |items| && forall id, hex :: !Reads(items, i, id, hex)
    requires ':' !in items[i] && |items| > 1
    ensures Judged(items, i, o) <==> o == Err(NeedsId)
  {
    hide Reads, Usable, Repeats, Spells;
  }

  /**
   Each item is accepted, or refused with one of the four problems, exactly as its own
   text and the ids of the items before it say.
   */
  lemma OutcomesExactly(vars: map<string, string>, i: nat, o: Outcome)
    requires i < |SecretItems(vars)|
    ensures SecretOutcomes(vars)[i] == o <==> Judged(SecretItems(vars), i, o)
  {
    var items := SecretItems(vars);
    OutcomeAt(items, |items| == 1, i);
    ItemIsJudged(items, i, o);
    hide Judged, ItemOutcome, SecretItems, Seen, Outcomes;
  }

  lemma ItemIsJudged(items: seq<string>, i: nat, o: Outcome)
    requires i < |items|
    ensures ItemOutcome(items[i], |items| == 1, Seen(items[..i], |items| == 1)) == o <==> Judged(items, i, o)
  {
    hide Reads, IdAndHex, Spells, DecodeHex32, Usable, Repeats, Seen, GoodId, Judged;
    NothingReads(items, i);
    ReadsInOneWay(items, i);
    match IdAndHex(items[i], |items| == 1)
    case None =>
      JudgedWithoutReading(items, i, o);
    case Some((id, hex)) =>
      UsableExactly(id);
      SeenExactly(items, i, id);
      forall key ensures Spells(hex, key) <==> DecodeHex32(hex) == Some(key) { DecodesExactly(hex, key); }
      JudgedByItsReading(items, i, id, hex, o);
  }

  // ----------------------------------------------------------------- keys and errors

  /** The keys and the errors of a list are those of its items, in order. */
  lemma {:induction false} KeysAndErrorsInOrder(os: seq<Outcome>, more: seq<Outcome>)
    ensures Keys(os + more) == Keys(os) + Keys(more) && Problems(os + more) == Problems(os) + Problems(more)
    decreases |more|
  {
    if more == [] {
      assert os + more == os;
    } else {
      hide Keys, Problems, KeyOf, ProblemOf;
      var init, last := more[..|more| - 1], more[|more| - 1];
      assert more == init + [last] && os + more == os + init + [last];
      KeysAndErrorsInOrder(os, init);
      OneOutcomeMore(init, last);
      OneOutcomeMore(os + init, last);
    }
  }

  lemma OneOutcomeMore(os: seq<Outcome>, o: Outcome)
    ensures Keys(os + [o]) == Keys(os) + KeyOf(o) && Problems(os + [o]) == Problems(os) + ProblemOf(o)
  {
    hide KeyOf, ProblemOf;
    assert (os + [o])[..|os|] == os;
  }

  lemma OneOutcome(o: Outcome)
    ensures Keys([o]) == if o.Ok? then [o.value] else []
    ensures Problems([o]) == if o.Ok? then [] else [ConfigError("EDDA_SECRET_KEYS", o.error)]
  {
    assert [o][..0] == [];
  }
}
