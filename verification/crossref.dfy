/**
 The cross-reference scanner: `#5` and `owner/repo#5` tokens of a text, outside
 code spans and fenced blocks. Offsets count characters; every character the
 scanner compares is ASCII, so it makes the same decisions on bytes.
 */
module CrossRef {
  import opened Prelude
  import opened Text

  datatype CrossReference = CrossReference(repository: Option<(string, string)>, number: nat)

  datatype Ref = Ref(start: nat, end: nat, cref: CrossReference)

  predicate IsNameChar(c: char) {
    IsAlphanumeric(c) || c == '.' || c == '-' || c == '_'
  }

  /** The value of a run of decimal digits. */
  function NumberOf(digits: string): nat {
    if digits == "" then 0
    else NumberOf(digits[..|digits| - 1]) * 10 + DigitValue(digits[|digits| - 1])
  }

  function DigitValue(c: char): (v: nat)
    ensures v < 10
  {
    if IsDigit(c) then (c - '0') as nat else 0
  }

  /** The number and end of a clean digit run at `start`, at most 18 digits, not glued to a word. */
  function ParseNumber(t: string, start: nat): (r: Option<(nat, nat)>)
    requires start <= |t|
    ensures r.Some? ==> start < r.value.1 <= |t| && IsDigit(t[r.value.1 - 1]) && r.value.0 >= 1
  {
    var end := RunEnd(t, start, IsDigit);
    if end == start || end - start > 18 then None
    else if end < |t| && (IsAlphanumeric(t[end]) || t[end] == '_') then None
    else
      var number := NumberOf(t[start..end]);
      if number >= 1 then Some((number, end)) else None
  }

  /** Repository names come from the name characters only. */
  predicate PlainNames(cref: CrossReference) {
    cref.repository.Some? ==>
      && (forall c :: c in cref.repository.value.0 ==> IsNameChar(c))
      && (forall c :: c in cref.repository.value.1 ==> IsNameChar(c))
  }

  function ParseQualified(t: string, start: nat): (r: Option<Ref>)
    requires start <= |t|
    ensures r.Some? ==> PlainNames(r.value.cref)
    ensures r.Some? ==> r.value.start == start < r.value.end <= |t| && IsDigit(t[r.value.end - 1])
    ensures r.Some? ==> r.value.cref.repository.Some?
  {
    var i := RunEnd(t, start, IsNameChar);
    if i == start || i == |t| || t[i] != '/' then None
    else
      var j := RunEnd(t, i + 1, IsNameChar);
      if j == i + 1 || j == |t| || t[j] != '#' then None
      else
        match ParseNumber(t, j + 1)
        case None => None
        case Some((number, end)) =>
          Some(Ref(start, end, CrossReference(Some((t[start..i], t[i + 1..j])), number)))
  }

  /** The reference that starts exactly at `i`, given what precedes it. */
  function RefAt(t: string, i: nat): (r: Option<Ref>)
    requires i < |t|
    ensures r.Some? ==> r.value.start == i < r.value.end <= |t| && IsDigit(t[r.value.end - 1])
    ensures r.Some? ==> PlainNames(r.value.cref)
    ensures r.Some? ==> (t[i] == '#' || IsNameChar(t[i])) && !(i > 0 && IsAlphanumeric(t[i - 1]))
  {
    var precededByAlnum := i > 0 && IsAlphanumeric(t[i - 1]);
    if t[i] == '#' && !precededByAlnum && ParseNumber(t, i + 1).Some? then
      var (number, end) := ParseNumber(t, i + 1).value;
      Some(Ref(i, end, CrossReference(None, number)))
    else if IsNameChar(t[i]) && !precededByAlnum && !(i > 0 && t[i - 1] == '/') then
      ParseQualified(t, i)
    else None
  }

  datatype Mode = Mode(inFence: bool, inCodeSpan: bool, atLineStart: bool)

  const START := Mode(false, false, true)
  const MID_LINE := Mode(false, false, false)

  /** A fence marker opens at `i` after at most three spaces. */
  predicate FenceAt(t: string, i: nat)
    requires i <= |t|
  {
    var j := Min(RunEnd(t, i, IsSpace), i + 3);
    ThreeAt(t, j, '`') || ThreeAt(t, j, '~')
  }

  predicate ThreeAt(t: string, j: nat, c: char) {
    j + 3 <= |t| && t[j] == c && t[j + 1] == c && t[j + 2] == c
  }

  function LineEnd(t: string, i: nat): (e: nat)
    requires i <= |t|
    ensures i <= e <= |t|
    ensures i < |t| && t[i] != '\n' ==> i < e
  {
    RunEnd(t, i, NotNewline)
  }

  /** One turn of the scan at `i`: the reference found there, if any, and where to go on, in which mode. */
  function Next(t: string, i: nat, m: Mode): (r: (Option<Ref>, nat, Mode))
    requires i < |t|
    ensures i < r.1 <= |t|
    ensures r.0.Some? ==> r.0.value.start == i && r.0.value.end == r.1
    ensures r.0.Some? ==> RefAt(t, i) == r.0 && r.2 == MID_LINE
  {
    if t[i] == '\n' then (None, i + 1, Mode(m.inFence, false, true))
    else if m.atLineStart && FenceAt(t, i) then (None, LineEnd(t, i), m.(inFence := !m.inFence))
    else if m.inFence then (None, i + 1, m.(atLineStart := false))
    else if t[i] == '`' then (None, i + 1, Mode(false, !m.inCodeSpan, false))
    else if m.inCodeSpan then (None, i + 1, m.(atLineStart := false))
    else
      match RefAt(t, i)
      case Some(r) => (Some(r), r.end, MID_LINE)
      case None => (None, i + 1, MID_LINE)
  }

  /** Every reference at or after `i`, scanning on from mode `m`. */
  function ScanFrom(t: string, i: nat, m: Mode): seq<Ref>
    requires i <= |t|
    decreases |t| - i
  {
    if i == |t| then []
    else
      var (found, next, mode) := Next(t, i, m);
      (if found.Some? then [found.value] else []) + ScanFrom(t, next, mode)
  }

  function ScanRefs(t: string): seq<Ref> {
    ScanFrom(t, 0, START)
  }

  // ------------------------------------------------------------------ the loops

  method ParseNumberLoop(t: string, start: nat) returns (r: Option<(nat, nat)>)
    requires start <= |t|
    ensures r == ParseNumber(t, start)
  {
    var end := start;
    while end < |t| && IsDigit(t[end])
      invariant start <= end <= |t|
      invariant forall k :: start <= k < end ==> IsDigit(t[k])
    {
      end := end + 1;
    }
    RunEndIs(t, start, IsDigit, end);
    if end == start || end - start > 18 {
      return None;
    }
    if end < |t| && (IsAlphanumeric(t[end]) || t[end] == '_') {
      return None;
    }
    var number := NumberOf(t[start..end]);
    r := if number >= 1 then Some((number, end)) else None;
  }

  method ParseQualifiedLoop(t: string, start: nat) returns (r: Option<Ref>)
    requires start <= |t|
    ensures r == ParseQualified(t, start)
  {
    hide RunEnd, NumberOf, ParseNumber;
    var i := start;
    while i < |t| && IsNameChar(t[i])
      invariant start <= i <= |t|
      invariant forall k :: start <= k < i ==> IsNameChar(t[k])
    {
      i := i + 1;
    }
    RunEndIs(t, start, IsNameChar, i);
    if i == start || i == |t| || t[i] != '/' {
      return None;
    }
    var j := i + 1;
    while j < |t| && IsNameChar(t[j])
      invariant i + 1 <= j <= |t|
      invariant forall k :: i + 1 <= k < j ==> IsNameChar(t[k])
    {
      j := j + 1;
    }
    RunEndIs(t, i + 1, IsNameChar, j);
    if j == i + 1 || j == |t| || t[j] != '#' {
      return None;
    }
    var number := ParseNumberLoop(t, j + 1);
    if number.None? {
      return None;
    }
    r := Some(Ref(start, number.value.1,
                  CrossReference(Some((t[start..i], t[i + 1..j])), number.value.0)));
  }

  /** The body of the scan loop. */
  method ScanTurn(t: string, i: nat, m: Mode) returns (found: Option<Ref>, next: nat, mode: Mode)
    requires i < |t|
    ensures (found, next, mode) == Next(t, i, m)
  {
    found, mode := None, m;
    if t[i] == '\n' {
      return None, i + 1, Mode(m.inFence, false, true);
    }
    if m.atLineStart && FenceAt(t, i) {
      return None, LineEnd(t, i), m.(inFence := !m.inFence);
    }
    mode := mode.(atLineStart := false);
    if m.inFence {
      return None, i + 1, mode;
    }
    if t[i] == '`' {
      return None, i + 1, mode.(inCodeSpan := !m.inCodeSpan);
    }
    if m.inCodeSpan {
      return None, i + 1, mode;
    }
    var precededByAlnum := i > 0 && IsAlphanumeric(t[i - 1]);
    if t[i] == '#' && !precededByAlnum {
      var number := ParseNumberLoop(t, i + 1);
      if number.Some? {
        return Some(Ref(i, number.value.1, CrossReference(None, number.value.0))), number.value.1, mode;
      }
    }
    if IsNameChar(t[i]) && !precededByAlnum && !(i > 0 && t[i - 1] == '/') {
      var reference := ParseQualifiedLoop(t, i);
      if reference.Some? {
        return reference, reference.value.end, mode;
      }
    }
    next := i + 1;
  }

  /** The scanner's single pass finds exactly the references of `ScanRefs`, in order. */
  method ScanRefsLoop(t: string) returns (out: seq<Ref>)
    ensures out == ScanRefs(t)
  {
    out := [];
    var i := 0;
    var m := START;
    while i < |t|
      invariant i <= |t|
      invariant out + ScanFrom(t, i, m) == ScanRefs(t)
    {
      var found, next, mode := ScanTurn(t, i, m);
      if found.Some? {
        out := out + [found.value];
      }
      i, m := next, mode;
    }
  }

  // ------------------------------------------------------------------- the spans

  /** The spans are nonempty, in bounds, increasing and disjoint, all at or after `lo`. */
  ghost predicate Ordered(refs: seq<Ref>, lo: nat, hi: nat)
    decreases |refs|
  {
    if refs == [] then lo <= hi
    else lo <= refs[0].start < refs[0].end <= hi && Ordered(refs[1..], refs[0].end, hi)
  }

  lemma {:induction false} SpansAreOrdered(t: string, i: nat, m: Mode)
    requires i <= |t|
    ensures Ordered(ScanFrom(t, i, m), i, |t|)
    decreases |t| - i
  {
    if i < |t| {
      var (found, next, mode) := Next(t, i, m);
      SpansAreOrdered(t, next, mode);
      if found.Some? {
        assert ScanFrom(t, i, m)[1..] == ScanFrom(t, next, mode);
      } else {
        assert ScanFrom(t, i, m) == ScanFrom(t, next, mode);
      }
    }
  }

  /** `token` is `#digits`, or `owner/repo#digits`, for the repository and number of `cref`. */
  predicate IsToken(token: string, cref: CrossReference, digits: string) {
    && NumberOf(digits) == cref.number
    && (forall c :: c in digits ==> IsDigit(c))
    && token == (if cref.repository.None? then "#" + digits
                 else cref.repository.value.0 + "/" + cref.repository.value.1 + "#" + digits)
  }

  /** What a scanned span says: its text is the written form of its reference. */
  ghost predicate Reads(token: string, cref: CrossReference) {
    exists digits :: IsToken(token, cref, digits)
  }

  lemma RefReadsItsToken(t: string, i: nat)
    requires i < |t| && RefAt(t, i).Some?
    ensures Reads(t[i..RefAt(t, i).value.end], RefAt(t, i).value.cref)
  {
    hide RunEnd, NumberOf;
    var r := RefAt(t, i).value;
    if r.cref.repository.None? {
      assert t[i..r.end] == "#" + t[i + 1..r.end];
      assert IsToken(t[i..r.end], r.cref, t[i + 1..r.end]);
    } else {
      QualifiedReadsItsToken(t, i);
    }
  }

  lemma QualifiedReadsItsToken(t: string, i: nat)
    requires i < |t| && ParseQualified(t, i).Some?
    ensures Reads(t[i..ParseQualified(t, i).value.end], ParseQualified(t, i).value.cref)
  {
    hide RunEnd, NumberOf;
    var r := ParseQualified(t, i).value;
    var (owner, repo) := r.cref.repository.value;
    var hash := i + |owner| + 1 + |repo|;
    assert t[i..i + |owner|] == owner;
    assert t[i + |owner| + 1..hash] == repo;
    assert t[i..r.end] == owner + "/" + repo + "#" + t[hash + 1..r.end];
    assert IsToken(t[i..r.end], r.cref, t[hash + 1..r.end]);
  }

  /** Every span of a scan reads as the reference it carries. */
  lemma {:induction false} SpansReadTheirTokens(t: string, i: nat, m: Mode, r: Ref)
    requires i <= |t| && r in ScanFrom(t, i, m)
    ensures i <= r.start < r.end <= |t| && Reads(t[r.start..r.end], r.cref) && PlainNames(r.cref)
    decreases |t| - i
  {
    var (found, next, mode) := Next(t, i, m);
    if found == Some(r) {
      RefReadsItsToken(t, i);
    } else {
      SpansReadTheirTokens(t, next, mode, r);
    }
  }

  // ------------------------------------------------------- scanning a gap afresh

  /** The first reference of `refs` starts at `b`; there is none exactly when `b` is the text's end. */
  ghost predicate FirstAt(refs: seq<Ref>, t: string, b: nat) {
    && b <= |t|
    && (refs == [] <==> b == |t|)
    && (refs != [] ==> refs[0].start == b)
    && (b < |t| ==> RefAt(t, b).Some?)
  }

  lemma NumberInSlice(t: string, lo: nat, b: nat, p: nat)
    requires lo <= lo + p <= b <= |t|
    requires b < |t| ==> RefAt(t, b).Some?
    requires ParseNumber(t[lo..b], p).Some?
    ensures ParseNumber(t, lo + p).Some?
  {
    var e := RunEnd(t[lo..b], p, IsDigit);
    RunEndInSlice(t, lo, b, p, IsDigit);
    SliceOfSlice(t, lo, b, p, e);
    assert t[lo..b][e - 1] == t[lo + e - 1];
    assert e < b - lo ==> t[lo..b][e] == t[lo + e];
  }

  lemma QualifiedInSlice(t: string, lo: nat, b: nat, p: nat)
    requires lo <= lo + p <= b <= |t|
    requires b < |t| ==> RefAt(t, b).Some?
    requires ParseQualified(t[lo..b], p).Some?
    ensures ParseQualified(t, lo + p).Some?
  {
    hide RefAt, RunEnd, ParseNumber;
    var g := t[lo..b];
    var i := RunEnd(g, p, IsNameChar);
    RunEndInSlice(t, lo, b, p, IsNameChar);
    assert g[i] == t[lo + i];
    var j := RunEnd(g, i + 1, IsNameChar);
    RunEndInSlice(t, lo, b, i + 1, IsNameChar);
    assert g[j] == t[lo + j];
    NumberInSlice(t, lo, b, j + 1);
  }

  /**
   A reference seen inside a slice is one of the whole text, when the slice ends
   at a reference or at the end, and what precedes the position is in the slice.
   */
  lemma RefInSlice(t: string, lo: nat, b: nat, p: nat)
    requires lo <= lo + p < b <= |t| && (lo == 0 || p > 0)
    requires b < |t| ==> RefAt(t, b).Some?
    requires RefAt(t[lo..b], p).Some?
    ensures RefAt(t, lo + p).Some?
  {
    hide ParseNumber, ParseQualified;
    if t[lo + p] == '#' && ParseNumber(t[lo..b], p + 1).Some? {
      NumberInSlice(t, lo, b, p + 1);
    } else {
      QualifiedInSlice(t, lo, b, p);
    }
  }

  lemma FenceInSlice(t: string, lo: nat, b: nat, p: nat)
    requires lo <= lo + p < b <= |t|
    requires b < |t| ==> RefAt(t, b).Some?
    ensures FenceAt(t[lo..b], p) == FenceAt(t, lo + p)
  {
    hide RefAt, RunEnd, ThreeAt;
    RunEndInSlice(t, lo, b, p, IsSpace);
    var j := Min(RunEnd(t, lo + p, IsSpace), lo + p + 3);
    assert b < |t| ==> t[b] != ' ' && t[b] != '`' && t[b] != '~';
    assert j <= b;
    ThreeInSlice(t, lo, b, j, '`');
    ThreeInSlice(t, lo, b, j, '~');
  }

  lemma ThreeInSlice(t: string, lo: nat, b: nat, j: nat, c: char)
    requires lo <= j <= b <= |t|
    requires b < |t| ==> t[b] != c
    ensures ThreeAt(t[lo..b], j - lo, c) == ThreeAt(t, j, c)
  {
  }

  lemma LineEndInSlice(t: string, lo: nat, b: nat, p: nat)
    requires lo <= lo + p <= b <= |t|
    ensures LineEnd(t[lo..b], p) == Min(LineEnd(t, lo + p), b) - lo
  {
    RunEndInSlice(t, lo, b, p, NotNewline);
  }

  lemma NextInSlice(t: string, lo: nat, b: nat, p: nat, m: Mode)
    requires lo <= lo + p < b <= |t| && (lo == 0 || p > 0)
    requires b < |t| ==> RefAt(t, b).Some?
    requires Next(t, lo + p, m).0.None? && Next(t, lo + p, m).1 <= b
    ensures Next(t[lo..b], p, m) == (None, Next(t, lo + p, m).1 - lo, Next(t, lo + p, m).2)
  {
    hide RefAt, FenceAt, RunEnd, LineEnd;
    FenceInSlice(t, lo, b, p);
    LineEndInSlice(t, lo, b, p);
    if RefAt(t[lo..b], p).Some? { RefInSlice(t, lo, b, p); }
  }

  /** Before the first reference of a scan there is none, and the scan goes on to it. */
  lemma NothingYet(t: string, i: nat, m: Mode, b: nat)
    requires i < b <= |t| && FirstAt(ScanFrom(t, i, m), t, b)
    ensures Next(t, i, m).0.None? && Next(t, i, m).1 <= b
    ensures FirstAt(ScanFrom(t, Next(t, i, m).1, Next(t, i, m).2), t, b)
    ensures b < |t| ==> RefAt(t, b).Some?
  {
    hide Next, RefAt;
    var (found, next, mode) := Next(t, i, m);
    SpansAreOrdered(t, next, mode);
    ScanGoesOn(t, i, m);
  }

  /** One turn of the scan. */
  lemma ScanGoesOn(t: string, i: nat, m: Mode)
    requires i < |t|
    ensures var (found, next, mode) := Next(t, i, m);
            ScanFrom(t, i, m) == if found.Some? then [found.value] + ScanFrom(t, next, mode) else ScanFrom(t, next, mode)
  {
    hide Next;
    var (found, next, mode) := Next(t, i, m);
    assert [] + ScanFrom(t, next, mode) == ScanFrom(t, next, mode);
  }

  lemma NothingAtTheEnd(t: string, m: Mode)
    ensures ScanFrom(t, |t|, m) == []
  {
  }

  /**
   Scanning a slice from inside, in the mode the whole scan has there, finds
   nothing if the whole scan finds nothing before the slice's end.
   */
  lemma {:induction false} NothingInSlice(t: string, lo: nat, b: nat, p: nat, m: Mode)
    requires lo <= lo + p <= b <= |t| && (lo == 0 || p > 0)
    requires FirstAt(ScanFrom(t, lo + p, m), t, b)
    ensures ScanFrom(t[lo..b], p, m) == []
    decreases b - p
  {
    hide *;
    if lo + p == b {
      NothingAtTheEnd(t[lo..b], m);
    } else {
      NothingYet(t, lo + p, m, b);
      NextInSlice(t, lo, b, p, m);
      var (_, next, mode) := Next(t, lo + p, m);
      NothingInSlice(t, lo, b, next - lo, mode);
      ScanGoesOn(t[lo..b], p, m);
    }
  }

  /** The first turn over a gap that starts no reference does what the whole scan does there. */
  lemma FreshStep(t: string, e: nat, b: nat)
    requires e < b <= |t| && !FenceAt(t[e..b], 0)
    requires Next(t, e, MID_LINE).0.None?
    ensures var (_, next, mode) := Next(t, e, MID_LINE);
            RefAt(t[e..b], 0).None? ==> next == e + 1 && Next(t[e..b], 0, START) == (None, 1, mode)
    ensures RefAt(t[e..b], 0).Some? ==> Next(t[e..b], 0, START).0.Some?
  {
    hide RefAt, FenceAt;
  }

  /**
   The gap between a reference ending at `e` and the next one at `b`, scanned as
   a text of its own, holds a reference exactly when it begins with one, unless a
   fence marker stands at its beginning: the scan of the whole text knew that a
   digit precedes the gap and that it is not at the start of a line.
   */
  lemma GapScannedAfresh(t: string, e: nat, b: nat)
    requires e <= b <= |t|
    requires FirstAt(ScanFrom(t, e, MID_LINE), t, b)
    requires !FenceAt(t[e..b], 0)
    ensures ScanRefs(t[e..b]) == [] <==> b == e || RefAt(t[e..b], 0).None?
  {
    var g := t[e..b];
    if e < b {
      var (_, next, mode) := Next(t, e, MID_LINE);
      NothingYet(t, e, MID_LINE, b);
      FreshStep(t, e, b);
      hide Next, RefAt, FenceAt, ScanFrom, FirstAt;
      ScanGoesOn(g, 0, START);
      if RefAt(g, 0).None? {
        NothingInSlice(t, e, b, 1, mode);
      }
    }
  }

  /** After a reference the scan goes on in the middle of a line, outside code. */
  lemma {:induction false} ScanContinues(t: string, i: nat, m: Mode)
    requires i <= |t| && ScanFrom(t, i, m) != []
    ensures var r := ScanFrom(t, i, m)[0];
            && r.start < |t| && RefAt(t, r.start) == Some(r)
            && ScanFrom(t, i, m)[1..] == ScanFrom(t, r.end, MID_LINE)
    decreases |t| - i
  {
    var (found, next, mode) := Next(t, i, m);
    if found.None? {
      ScanContinues(t, next, mode);
    }
  }
}
