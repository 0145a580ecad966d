/**
 Which references the scanner finds, said without the scanner: the tokens written in
 the text with nothing glued to them, outside code, and not inside an earlier one.
 */
module CrossRefExact {
  import opened Prelude
  import opened Text
  import opened CrossRef

  // ---------------------------------------------------------------------- tokens

  predicate Letter(c: char) {
    '0' <= c <= '9' || 'a' <= c <= 'z' || 'A' <= c <= 'Z'
  }

  predicate Name(s: string) {
    s != "" && forall c :: c in s ==> Letter(c) || c == '.' || c == '-' || c == '_'
  }

  /** `#` and one to eighteen digits, not all zero, up to `e`, with no word going on there. */
  predicate NumberWritten(t: string, i: nat, e: nat, digits: string) {
    && i + 1 + |digits| == e <= |t| && t[i] == '#' && t[i + 1..e] == digits
    && 1 <= |digits| <= 18 && (forall c :: c in digits ==> '0' <= c <= '9') && (exists c :: c in digits && c != '0')
    && (e < |t| ==> !Letter(t[e]) && t[e] != '_')
  }

  /** `r` is written in `t` where its span says, as `#digits` or as `owner/repo#digits`. */
  ghost predicate Written(t: string, r: Ref) {
    && r.start < r.end <= |t|
    && (r.start > 0 ==> !Letter(t[r.start - 1]))
    && match r.cref.repository
       case None => exists digits :: NumberWritten(t, r.start, r.end, digits) && r.cref.number == NumberOf(digits)
       case Some((owner, repo)) =>
         && Name(owner) && Name(repo) && (r.start > 0 ==> t[r.start - 1] != '/')
         && var hash := r.start + |owner| + 1 + |repo|;
            hash < r.end && t[r.start..hash] == owner + "/" + repo
            && exists digits :: NumberWritten(t, hash, r.end, digits) && r.cref.number == NumberOf(digits)
  }

  lemma {:induction false} PositiveExactly(digits: string)
    requires forall c :: c in digits ==> '0' <= c <= '9'
    ensures NumberOf(digits) >= 1 <==> exists c :: c in digits && c != '0'
  {
    if digits != "" {
      var init, last := digits[..|digits| - 1], digits[|digits| - 1];
      assert forall c :: c in init ==> c in digits;
      PositiveExactly(init);
      assert digits == init + [last];
      if NumberOf(init) >= 1 {
        var c :| c in init && c != '0';
        assert c in digits;
      }
      assert last in digits;
    }
  }

  lemma NumberParsesExactly(t: string, i: nat, n: nat, e: nat)
    requires i < |t| && t[i] == '#'
    ensures ParseNumber(t, i + 1) == Some((n, e))
            <==> exists digits :: NumberWritten(t, i, e, digits) && n == NumberOf(digits)
  {
    hide NumberOf;
    var end := RunEnd(t, i + 1, IsDigit);
    var run := t[i + 1..end];
    PositiveExactly(run);
    if ParseNumber(t, i + 1) == Some((n, e)) {
      assert NumberWritten(t, i, e, run);
    }
    if digits :| NumberWritten(t, i, e, digits) && n == NumberOf(digits) {
      forall k | i + 1 <= k < e ensures IsDigit(t[k]) {
        assert t[k] == digits[k - (i + 1)] && digits[k - (i + 1)] in digits;
      }
      RunEndIs(t, i + 1, IsDigit, e);
      assert run == digits;
    }
  }

  /** Where the parts of a qualified token end. */
  lemma QualifiedParts(t: string, i: nat, owner: string, repo: string)
    requires Name(owner) && Name(repo) && i + |owner| + 1 + |repo| < |t|
    requires t[i..i + |owner| + 1 + |repo|] == owner + "/" + repo && t[i + |owner| + 1 + |repo|] == '#'
    ensures var slash := i + |owner|;
            && t[slash] == '/' && t[i..slash] == owner && t[slash + 1..slash + 1 + |repo|] == repo
            && RunEnd(t, i, IsNameChar) == slash && RunEnd(t, slash + 1, IsNameChar) == slash + 1 + |repo|
  {
    var slash, s := i + |owner|, owner + "/" + repo;
    var hash := slash + 1 + |repo|;
    forall k | 0 <= k < |s| ensures t[i + k] == s[k] { assert t[i..hash][k] == t[i + k]; }
    forall k | i <= k < slash ensures IsNameChar(t[k]) {
      assert t[k] == s[k - i] && owner[k - i] in owner;
    }
    assert t[slash] == s[|owner|];
    forall k | slash + 1 <= k < hash ensures IsNameChar(t[k]) {
      assert t[k] == s[k - i] && repo[k - (slash + 1)] in repo;
    }
    RunEndIs(t, i, IsNameChar, slash);
    RunEndIs(t, slash + 1, IsNameChar, hash);
    assert t[i..slash] == s[..|owner|] && t[slash + 1..hash] == s[|owner| + 1..];
  }

  lemma WrittenParts(t: string, r: Ref, owner: string, repo: string)
    requires r.cref.repository == Some((owner, repo)) && Written(t, r)
    ensures var hash := r.start + |owner| + 1 + |repo|;
            && Name(owner) && Name(repo) && hash < |t| && t[r.start..hash] == owner + "/" + repo && t[hash] == '#'
            && ParseNumber(t, hash + 1) == Some((r.cref.number, r.end))
  {
    hide NumberOf, ParseNumber;
    var hash := r.start + |owner| + 1 + |repo|;
    NumberParsesExactly(t, hash, r.cref.number, r.end);
  }

  lemma QualifiedFromParts(t: string, i: nat, slash: nat, hash: nat, n: nat, e: nat)
    requires i < slash && slash + 1 < hash < |t| && t[slash] == '/' && t[hash] == '#'
    requires RunEnd(t, i, IsNameChar) == slash && RunEnd(t, slash + 1, IsNameChar) == hash
    requires ParseNumber(t, hash + 1) == Some((n, e))
    ensures ParseQualified(t, i) == Some(Ref(i, e, CrossReference(Some((t[i..slash], t[slash + 1..hash])), n)))
  {
    hide RunEnd, ParseNumber;
  }

  lemma WrittenQualifiedParses(t: string, r: Ref)
    requires r.cref.repository.Some? && Written(t, r)
    ensures ParseQualified(t, r.start) == Some(r)
  {
    hide *;
    var (owner, repo) := r.cref.repository.value;
    WrittenParts(t, r, owner, repo);
    QualifiedParts(t, r.start, owner, repo);
    NameIsNotEmpty(owner);
    NameIsNotEmpty(repo);
    var slash := r.start + |owner|;
    QualifiedFromParts(t, r.start, slash, slash + 1 + |repo|, r.cref.number, r.end);
  }

  lemma NameIsNotEmpty(s: string)
    requires Name(s)
    ensures s != ""
  {
  }

  lemma ParsedQualifiedIsWritten(t: string, r: Ref)
    requires r.start < |t| && r.cref.repository.Some? && ParseQualified(t, r.start) == Some(r)
    requires r.start > 0 ==> !Letter(t[r.start - 1]) && t[r.start - 1] != '/'
    ensures Written(t, r)
  {
    hide NumberOf, ParseNumber, RunEnd;
    var (owner, repo) := r.cref.repository.value;
    var hash := r.start + |owner| + 1 + |repo|;
    NumberParsesExactly(t, hash, r.cref.number, r.end);
    assert t[r.start..hash] == owner + "/" + repo;
  }

  /** The scanner reads a reference at a position exactly when one is written there. */
  lemma RefAtExactly(t: string, r: Ref)
    requires r.start < |t|
    ensures RefAt(t, r.start) == Some(r) <==> Written(t, r)
  {
    hide NumberOf, ParseNumber, ParseQualified;
    if r.cref.repository.None? {
      if t[r.start] == '#' { NumberParsesExactly(t, r.start, r.cref.number, r.end); }
    } else if Written(t, r) {
      WrittenQualifiedParses(t, r);
      var (owner, repo) := r.cref.repository.value;
      QualifiedParts(t, r.start, owner, repo);
      assert t[r.start] == owner[0] && owner[0] in owner;
    } else if !(r.start > 0 && (Letter(t[r.start - 1]) || t[r.start - 1] == '/')) {
      if ParseQualified(t, r.start) == Some(r) { ParsedQualifiedIsWritten(t, r); }
    }
  }

  // ------------------------------------------------------------------------ code

  function LineStart(t: string, i: nat): (s: nat)
    requires i <= |t|
    ensures s <= i && (s == 0 || t[s - 1] == '\n')
    ensures forall k :: s <= k < i ==> t[k] != '\n'
  {
    if i == 0 || t[i - 1] == '\n' then i else LineStart(t, i - 1)
  }

  /** The line at `s` is a fence marker: at most three spaces, then three backticks or tildes. */
  ghost predicate FenceMarker(t: string, s: nat) {
    exists n: nat :: MarkerAfter(t, s, n)
  }

  predicate MarkerAfter(t: string, s: nat, n: nat) {
    && n <= 3 && s + n + 3 <= |t| && t[s..s + n] == "   "[..n]
    && (t[s + n..s + n + 3] == "```" || t[s + n..s + n + 3] == "~~~")
  }

  /** How many fence markers there are before `j`. */
  ghost function Fences(t: string, j: nat): nat
    requires j <= |t|
  {
    if j == 0 then 0
    else Fences(t, j - 1) + if LineStart(t, j - 1) == j - 1 && FenceMarker(t, j - 1) then 1 else 0
  }

  /** The backticks of `t[s..i]`. */
  function Ticks(t: string, s: nat, i: nat): nat
    requires s <= i <= |t|
  {
    if s == i then 0 else Ticks(t, s, i - 1) + if t[i - 1] == '`' then 1 else 0
  }

  /** Position `i` is in a fenced block, on a marker line, or behind an odd number of backticks of its line. */
  ghost predicate InCode(t: string, i: nat)
    requires i <= |t|
  {
    var s := LineStart(t, i);
    FenceMarker(t, s) || Fences(t, s) % 2 == 1 || Ticks(t, s, i) % 2 == 1
  }

  lemma FenceIsMarker(t: string, s: nat)
    requires s <= |t| && FenceAt(t, s)
    ensures FenceMarker(t, s)
  {
    var j := Min(RunEnd(t, s, IsSpace), s + 3);
    assert t[s..j] == "   "[..j - s];
    assert MarkerAfter(t, s, j - s);
  }

  lemma MarkerIsFence(t: string, s: nat, n: nat)
    requires s <= |t| && MarkerAfter(t, s, n)
    ensures FenceAt(t, s)
  {
    forall k | s <= k < s + n ensures IsSpace(t[k]) {
      assert t[s..s + n][k - s] == "   "[k - s];
    }
    var three := t[s + n..s + n + 3];
    assert t[s + n] == three[0] && t[s + n + 1] == three[1] && t[s + n + 2] == three[2];
    RunEndIs(t, s, IsSpace, s + n);
  }

  lemma FenceAtExactly(t: string, s: nat)
    requires s <= |t|
    ensures FenceAt(t, s) <==> FenceMarker(t, s)
  {
    hide FenceAt, MarkerAfter;
    if FenceAt(t, s) { FenceIsMarker(t, s); }
    if n: nat :| MarkerAfter(t, s, n) { MarkerIsFence(t, s, n); }
  }

  lemma LineStartIs(t: string, s: nat, i: nat)
    requires s <= i <= |t| && (s == 0 || t[s - 1] == '\n') && forall k :: s <= k < i ==> t[k] != '\n'
    ensures LineStart(t, i) == s
  {
  }

  /** Along a line only its start can be a marker. */
  lemma {:induction false} FencesAlongLine(t: string, s: nat, i: nat)
    requires s < i <= |t| && (s == 0 || t[s - 1] == '\n') && forall k :: s <= k < i - 1 ==> t[k] != '\n'
    ensures Fences(t, i) == Fences(t, s) + if FenceMarker(t, s) then 1 else 0
    decreases i
  {
    hide FenceMarker;
    LineStartIs(t, s, i - 1);
    if s < i - 1 { FencesAlongLine(t, s, i - 1); }
  }

  lemma {:induction false} TicksAlong(t: string, s: nat, i: nat, j: nat)
    requires s <= i <= j <= |t| && forall k :: i <= k < j ==> t[k] != '`'
    ensures Ticks(t, s, j) == Ticks(t, s, i)
    decreases j
  {
    if i < j { TicksAlong(t, s, i, j - 1); }
  }

  // ------------------------------------------------------------------------ modes

  /** The scanner at `i` in mode `m` knows whether `i` is in code. */
  ghost predicate Knows(t: string, i: nat, m: Mode)
    requires i <= |t|
  {
    var s := LineStart(t, i);
    if s < i && FenceMarker(t, s) then
      (i < |t| ==> t[i] == '\n') && m.inFence == (Fences(t, s) % 2 == 0)
    else
      && m.inFence == (Fences(t, s) % 2 == 1)
      && m.atLineStart == (i == s)
      && (!m.inFence ==> m.inCodeSpan == (Ticks(t, s, i) % 2 == 1))
  }

  lemma KnowsAtTheStart(t: string)
    ensures Knows(t, 0, START)
  {
  }

  /** What a turn that finds nothing passes over. */
  lemma NothingPassedOver(t: string, i: nat, m: Mode, p: nat)
    requires i < |t| && Knows(t, i, m) && Next(t, i, m).0.None? && i <= p < Next(t, i, m).1
    ensures RefAt(t, p).None? || InCode(t, p)
  {
    hide RefAt, Fences, Ticks, FenceAt, FenceMarker;
    var s := LineStart(t, i);
    FenceAtExactly(t, s);
    if p > i {
      LineStartIs(t, s, p);
    }
  }

  /** A reference is found only outside code. */
  lemma FoundOutsideCode(t: string, i: nat, m: Mode)
    requires i < |t| && Knows(t, i, m) && Next(t, i, m).0.Some?
    ensures !InCode(t, i)
  {
    hide RefAt, Fences, Ticks, FenceAt, FenceMarker;
    FenceAtExactly(t, LineStart(t, i));
  }

  /** A reference has neither line breaks nor backticks. */
  lemma ReferencesStayInLine(t: string, r: Ref)
    requires Written(t, r)
    ensures forall k :: r.start <= k < r.end ==> t[k] != '\n' && t[k] != '`'
  {
    var head := match r.cref.repository case None => r.start case Some((o, n)) => r.start + |o| + 1 + |n|;
    var digits :| NumberWritten(t, head, r.end, digits) && r.cref.number == NumberOf(digits);
    hide NumberOf;
    forall k | head < k < r.end ensures t[k] != '\n' && t[k] != '`' {
      assert t[k] == digits[k - (head + 1)] && digits[k - (head + 1)] in digits;
    }
    if r.cref.repository.Some? {
      var (o, n) := r.cref.repository.value;
      forall k | r.start <= k < head ensures t[k] != '\n' && t[k] != '`' {
        assert t[r.start..head][k - r.start] == (o + "/" + n)[k - r.start];
        if k < r.start + |o| {
          assert o[k - r.start] in o;
        } else if k > r.start + |o| {
          assert n[k - (r.start + |o| + 1)] in n;
        }
      }
    }
  }

  lemma KnowsAfterReference(t: string, i: nat, m: Mode)
    requires i < |t| && Knows(t, i, m) && Next(t, i, m).0.Some?
    ensures Knows(t, Next(t, i, m).1, Next(t, i, m).2)
  {
    var r := Next(t, i, m).0.value;
    FoundOutsideCode(t, i, m);
    RefAtExactly(t, r);
    ReferencesStayInLine(t, r);
    hide RefAt, Written, FenceMarker, FenceAt, Fences, Ticks, Next;
    var s := LineStart(t, i);
    LineStartIs(t, s, r.end);
    TicksAlong(t, s, i, r.end);
  }

  lemma KnowsAfterLineBreak(t: string, i: nat, m: Mode)
    requires i < |t| && Knows(t, i, m) && t[i] == '\n'
    ensures Knows(t, i + 1, Next(t, i, m).2)
  {
    hide RefAt, FenceMarker, FenceAt, Fences;
    var s := LineStart(t, i);
    FencesAlongLine(t, s, i + 1);
    LineStartIs(t, i + 1, i + 1);
    if i == s { NoMarkerOnEmptyLine(t, s); }
  }

  lemma KnowsAfterMarker(t: string, i: nat, m: Mode)
    requires i < |t| && Knows(t, i, m) && t[i] != '\n' && m.atLineStart && FenceAt(t, i)
    ensures Knows(t, Next(t, i, m).1, Next(t, i, m).2)
  {
    hide RefAt, FenceMarker, FenceAt, Fences;
    FenceAtExactly(t, i);
    var s := LineStart(t, i);
    LineStartIs(t, s, Next(t, i, m).1);
    NoMarkerInside(t, s, i, m);
  }

  lemma KnowsAfterCharacter(t: string, i: nat, m: Mode)
    requires i < |t| && Knows(t, i, m) && t[i] != '\n' && !(m.atLineStart && FenceAt(t, i))
    requires Next(t, i, m).0.None?
    ensures Knows(t, Next(t, i, m).1, Next(t, i, m).2)
  {
    hide RefAt, FenceMarker, FenceAt, Fences;
    var s := LineStart(t, i);
    FenceAtExactly(t, s);
    LineStartIs(t, s, i + 1);
    NoMarkerInside(t, s, i, m);
  }

  lemma KnowsAfterOther(t: string, i: nat, m: Mode)
    requires i < |t| && Knows(t, i, m) && Next(t, i, m).0.None?
    ensures Knows(t, Next(t, i, m).1, Next(t, i, m).2)
  {
    hide RefAt, FenceAt, Knows, InCode, LineEnd;
    if t[i] == '\n' {
      KnowsAfterLineBreak(t, i, m);
    } else if m.atLineStart && FenceAt(t, i) {
      KnowsAfterMarker(t, i, m);
    } else {
      KnowsAfterCharacter(t, i, m);
    }
  }

  lemma NoMarkerOnEmptyLine(t: string, s: nat)
    requires s < |t| && t[s] == '\n'
    ensures !FenceMarker(t, s)
  {
    forall n: nat ensures !MarkerAfter(t, s, n) {
      if n == 0 && s + 3 <= |t| { assert t[s..s + 3][0] == t[s]; }
      if n > 0 && s + n <= |t| { assert n <= 3 ==> t[s..s + n][0] == t[s] && "   "[..n][0] == ' '; }
    }
  }

  lemma NoMarkerInside(t: string, s: nat, i: nat, m: Mode)
    requires i < |t| && s == LineStart(t, i) && t[i] != '\n' && Knows(t, i, m)
    ensures s < i ==> !FenceMarker(t, s)
  {
    hide FenceMarker;
  }

  // ------------------------------------------------------------------ the theorem

  /** Position `p` lies inside one of these references. */
  ghost predicate Inside(refs: seq<Ref>, p: nat) {
    exists q :: q in refs && q.start < p < q.end
  }

  lemma InsideOneMore(first: Ref, rest: seq<Ref>, p: nat)
    ensures Inside([first] + rest, p) <==> first.start < p < first.end || Inside(rest, p)
  {
    if q :| q in rest && q.start < p < q.end { assert q in [first] + rest; }
    assert first in [first] + rest;
  }

  /** One turn of the scan, seen from a reference. */
  lemma TurnFindsExactly(t: string, i: nat, m: Mode, r: Ref)
    requires i < |t| && Knows(t, i, m)
    ensures var (found, next, _) := Next(t, i, m);
            && (found.Some? ==> found.value.start == i && found.value.end == next
                                && (r == found.value <==> r.start == i && Written(t, r)) && !InCode(t, i))
            && (found.None? && i <= r.start < next ==> !Written(t, r) || InCode(t, r.start))
  {
    var (found, next, _) := Next(t, i, m);
    if found.Some? {
      FoundOutsideCode(t, i, m);
      if r.start == i { RefAtExactly(t, r); }
      RefAtExactly(t, found.value);
    } else if i <= r.start < next {
      NothingPassedOver(t, i, m, r.start);
      RefAtExactly(t, r);
    }
    hide Written, InCode, RefAt;
  }

  lemma {:induction false} ScanFromFindsExactly(t: string, i: nat, m: Mode, r: Ref)
    requires i <= |t| && Knows(t, i, m)
    ensures r in ScanFrom(t, i, m)
            <==> i <= r.start < |t| && Written(t, r) && !InCode(t, r.start) && !Inside(ScanFrom(t, i, m), r.start)
    decreases |t| - i
  {
    hide *;
    if i == |t| {
      NothingAtTheEnd(t, m);
    } else {
      var (found, next, mode) := Next(t, i, m);
      var rest := ScanFrom(t, next, mode);
      ScanGoesOn(t, i, m);
      TurnFindsExactly(t, i, m, r);
      if found.Some? {
        KnowsAfterReference(t, i, m);
        InsideOneMore(found.value, rest, r.start);
      } else {
        KnowsAfterOther(t, i, m);
      }
      ScanFromFindsExactly(t, next, mode, r);
      LaterOnly(t, next, mode, i);
    }
  }

  /** What a scan finds from `next` on lies behind `p`. */
  lemma {:induction false} LaterOnly(t: string, next: nat, m: Mode, p: nat)
    requires p < next <= |t|
    ensures !Inside(ScanFrom(t, next, m), p) && forall q :: q in ScanFrom(t, next, m) ==> q.start >= next
  {
    hide ScanFrom;
    forall q | q in ScanFrom(t, next, m) ensures q.start >= next {
      SpansReadTheirTokens(t, next, m, q);
    }
  }

  /**
   The scanner finds exactly the references that are written in the text with nothing
   glued to them, outside fenced blocks and code spans, and not inside another it found.
   */
  lemma ScanFindsExactly(t: string, r: Ref)
    ensures r in ScanRefs(t)
            <==> r.start < |t| && Written(t, r) && !InCode(t, r.start) && !Inside(ScanRefs(t), r.start)
  {
    KnowsAtTheStart(t);
    ScanFromFindsExactly(t, 0, START, r);
    hide ScanFrom, Written, InCode, Inside;
  }
}
