/** What the linkifier keeps, and exactly when a second pass changes nothing. */
module RenderProofs {
  import opened Prelude
  import opened Text
  import opened CrossRef
  import opened Render

  // ------------------------------------------------------------ the inserted tags

  /** A context whose names cannot end a tag early. */
  predicate SafeContext(ctx: RefContext) {
    '>' !in ctx.owner && '>' !in ctx.repo
  }

  lemma OpenTagRaisesDepth(cref: CrossReference, ctx: RefContext)
    ensures SkipTagEffect(OpenTag(cref, ctx)) == 1
  {
    hide HrefFor;
    var tag := OpenTag(cref, ctx);
    var s := tag[1..];
    assert s[0] == 'a' && s[1] == ' ' && s[|s| - 1] == '>';
    assert TrimStartMatches(tag, IsLess) == s;
    var inner := s[..|s| - 1];
    assert inner[|inner| - 1] == '"';
    assert TrimEndMatches(s, IsGreater) == inner;
    assert TrimEndMatches(inner, IsSlash) == inner;
    assert Trim(inner) == inner;
    assert FirstWord(inner[1..]) == "";
    assert FirstWord(inner) == "a";
    assert AsciiLower("a") == "a";
  }

  lemma CloseTagLowersDepth()
    ensures SkipTagEffect(CLOSE_TAG) == -1
  {
    assert TrimStartMatches(CLOSE_TAG, IsLess) == "/a>";
    assert TrimEndMatches("/a>", IsGreater) == "/a";
    assert TrimEndMatches("/a", IsSlash) == "/a";
    assert Trim("/a") == "/a";
    assert "/a"[1..] == "a";
    assert Trim("a") == "a";
    assert FirstWord("a") == "a";
    assert AsciiLower("a") == "a";
  }

  lemma {:induction false} DecimalIsPlain(n: nat)
    ensures '>' !in Decimal(n)
  {
    if n >= 10 { DecimalIsPlain(n / 10); }
  }

  lemma HrefIsPlain(cref: CrossReference, ctx: RefContext)
    requires SafeContext(ctx) && PlainNames(cref)
    ensures '>' !in HrefFor(cref, ctx)
  {
    DecimalIsPlain(cref.number);
    assert forall c :: IsNameChar(c) ==> c != '>';
  }

  // --------------------------------------------------------------- one more pass

  ghost predicate AtTag(rest: string) {
    rest == "" || rest[0] == '<'
  }

  /** A text run in front of a tag, or of the end, is rewritten on its own. */
  lemma RunThenRest(t: string, rest: string, depth: nat, ctx: RefContext)
    requires '<' !in t && AtTag(rest)
    ensures LinkifyFrom(t + rest, depth, ctx)
            == (if depth == 0 then LinkifyText(t, ctx) else t) + LinkifyFrom(rest, depth, ctx)
  {
    hide LinkifyText, LinkifyFrom;
    var h := t + rest;
    if t == "" {
      assert h == rest;
      EmptyRun(ctx);
    } else {
      TextUnfolds(h, depth, ctx);
      RunEndsAtTag(t, rest);
      assert h[..|t|] == t && h[|t|..] == rest;
    }
  }

  lemma RunEndsAtTag(t: string, rest: string)
    requires '<' !in t && AtTag(rest)
    ensures TextEnd(t + rest) == |t|
  {
    var h := t + rest;
    if rest == "" {
      assert h == t;
    } else {
      assert h[0..|t|] == t;
      FindIs(h, '<', 0, |t|);
    }
  }

  lemma EmptyRun(ctx: RefContext)
    ensures LinkifyText("", ctx) == ""
  {
    assert ScanRefs("") == [];
  }

  lemma TagThenRest(tag: string, rest: string, depth: nat, ctx: RefContext)
    requires |tag| >= 2 && tag[0] == '<' && tag[|tag| - 1] == '>' && '>' !in tag[..|tag| - 1]
    ensures LinkifyFrom(tag + rest, depth, ctx)
            == tag + LinkifyFrom(rest, NewDepth(depth, tag), ctx)
  {
    hide LinkifyFrom, NewDepth;
    var h, k := tag + rest, |tag| - 1;
    assert h[0..k] == tag[..k];
    FindIs(h, '>', 0, k);
    TagUnfolds(h, depth, ctx, k);
    assert h[..k + 1] == tag && h[k + 1..] == rest;
  }

  lemma WrappedThenRest(open: string, token: string, rest: string, ctx: RefContext)
    requires |open| >= 2 && open[0] == '<' && open[|open| - 1] == '>' && '>' !in open[..|open| - 1]
    requires SkipTagEffect(open) == 1 && '<' !in token
    ensures LinkifyFrom(open + (token + (CLOSE_TAG + rest)), 0, ctx)
            == open + (token + (CLOSE_TAG + LinkifyFrom(rest, 0, ctx)))
  {
    hide LinkifyFrom, LinkifyText, SkipTagEffect;
    CloseTagLowersDepth();
    TagThenRest(open, token + (CLOSE_TAG + rest), 0, ctx);
    RunThenRest(token, CLOSE_TAG + rest, 1, ctx);
    TagThenRest(CLOSE_TAG, rest, 1, ctx);
  }

  /** The pass walks over a link it inserted itself and is back at depth 0 behind it. */
  lemma LinkThenRest(t: string, refs: seq<Ref>, k: nat, rest: string, ctx: RefContext)
    requires Fits(t, refs) && k < |refs| && '<' !in t
    requires SafeContext(ctx) && PlainNames(refs[k].cref)
    ensures LinkifyFrom(Link(t, refs, k, ctx) + rest, 0, ctx)
            == Link(t, refs, k, ctx) + LinkifyFrom(rest, 0, ctx)
  {
    var open, token := OpenTag(refs[k].cref, ctx), Token(t, refs, k);
    HrefIsPlain(refs[k].cref, ctx);
    OpenTagRaisesDepth(refs[k].cref, ctx);
    OpenTagShape(refs[k].cref, ctx);
    hide LinkifyFrom, SkipTagEffect, OpenTag;
    WrappedThenRest(open, token, rest, ctx);
    Regroup(open, token, CLOSE_TAG, rest);
    Regroup(open, token, CLOSE_TAG, LinkifyFrom(rest, 0, ctx));
  }

  lemma Regroup(a: string, b: string, c: string, d: string)
    ensures a + b + c + d == a + (b + (c + d))
  {
  }

  lemma OpenTagShape(cref: CrossReference, ctx: RefContext)
    requires '>' !in HrefFor(cref, ctx)
    ensures var tag := OpenTag(cref, ctx);
            |tag| >= 2 && tag[0] == '<' && tag[|tag| - 1] == '>' && '>' !in tag[..|tag| - 1]
  {
    hide HrefFor;
    var tag := OpenTag(cref, ctx);
    assert tag[..|tag| - 1] == "<a href=\"" + HrefFor(cref, ctx) + "\"";
  }

  /** The rewritten run rewritten again: links stay, every gap is rewritten on its own. */
  function RelinkFrom(t: string, refs: seq<Ref>, k: nat, ctx: RefContext): string
    requires Fits(t, refs) && k <= |refs|
    decreases |refs| - k
  {
    LinkifyText(Gap(t, refs, k), ctx)
    + if k == |refs| then "" else Link(t, refs, k, ctx) + RelinkFrom(t, refs, k + 1, ctx)
  }

  ghost predicate PlainRefs(refs: seq<Ref>) {
    forall r :: r in refs ==> PlainNames(r.cref)
  }

  lemma SpansArePlain(t: string)
    ensures PlainRefs(Spans(t))
  {
    forall r | r in Spans(t) ensures PlainNames(r.cref) {
      SpansReadTheirTokens(t, 0, START, r);
    }
  }

  lemma GapHasNoTag(t: string, refs: seq<Ref>, k: nat)
    requires Fits(t, refs) && k <= |refs| && '<' !in t
    ensures '<' !in Gap(t, refs, k)
  {
  }

  lemma {:induction false} SecondPassOverRun(t: string, refs: seq<Ref>, k: nat, rest: string, ctx: RefContext)
    requires Fits(t, refs) && k <= |refs| && '<' !in t && AtTag(rest)
    requires SafeContext(ctx) && PlainRefs(refs)
    ensures LinkifyFrom(LinkFrom(t, refs, k, ctx) + rest, 0, ctx)
            == RelinkFrom(t, refs, k, ctx) + LinkifyFrom(rest, 0, ctx)
    decreases |refs| - k
  {
    hide LinkifyFrom, LinkifyText, Link, Gap, Token, OpenTag, SafeContext;
    var gap := Gap(t, refs, k);
    GapHasNoTag(t, refs, k);
    if k == |refs| {
      RunThenRest(gap, rest, 0, ctx);
      assert LinkFrom(t, refs, k, ctx) == gap;
      assert RelinkFrom(t, refs, k, ctx) == LinkifyText(gap, ctx);
    } else {
      var link, more := Link(t, refs, k, ctx), LinkFrom(t, refs, k + 1, ctx) + rest;
      LinkStartsATag(t, refs, k, ctx);
      SecondPassOverRun(t, refs, k + 1, rest, ctx);
      LinkThenRest(t, refs, k, more, ctx);
      RunThenRest(gap, link + more, 0, ctx);
      assert LinkFrom(t, refs, k, ctx) + rest == gap + (link + more);
      assert RelinkFrom(t, refs, k, ctx) + LinkifyFrom(rest, 0, ctx)
             == LinkifyText(gap, ctx) + (link + (RelinkFrom(t, refs, k + 1, ctx) + LinkifyFrom(rest, 0, ctx)));
    }
  }

  lemma LinkStartsATag(t: string, refs: seq<Ref>, k: nat, ctx: RefContext)
    requires Fits(t, refs) && k < |refs|
    ensures Link(t, refs, k, ctx) != "" && Link(t, refs, k, ctx)[0] == '<'
  {
  }

  /** The result of two passes, written along the structure of the original text. */
  function Twice(h: string, depth: nat, ctx: RefContext): string
    decreases |h|
  {
    if h == "" then ""
    else if h[0] == '<' then
      match Find(h, '>', 0)
      case None => h
      case Some(k) => h[..k + 1] + Twice(h[k + 1..], NewDepth(depth, h[..k + 1]), ctx)
    else
      var t := h[..TextEnd(h)];
      (if depth == 0 then RelinkFrom(t, Spans(t), 0, ctx) else t) + Twice(h[TextEnd(h)..], depth, ctx)
  }

  lemma PassKeepsTagStart(h: string, depth: nat, ctx: RefContext)
    requires AtTag(h)
    ensures AtTag(LinkifyFrom(h, depth, ctx))
  {
  }

  lemma {:induction false} SecondPassIsTwice(h: string, depth: nat, ctx: RefContext)
    requires SafeContext(ctx)
    ensures LinkifyFrom(LinkifyFrom(h, depth, ctx), depth, ctx) == Twice(h, depth, ctx)
    decreases |h|
  {
    hide LinkifyFrom, LinkifyText, NewDepth, RelinkFrom, Spans;
    if h == "" {
      EndUnfolds(ctx);
    } else if h[0] == '<' {
      match Find(h, '>', 0)
      case None =>
        UnclosedUnfolds(h, depth, ctx);
      case Some(k) =>
        var tag, rest := h[..k + 1], h[k + 1..];
        TagUnfolds(h, depth, ctx, k);
        SecondPassIsTwice(rest, NewDepth(depth, tag), ctx);
        assert tag[..|tag| - 1] == h[0..k];
        TagThenRest(tag, LinkifyFrom(rest, NewDepth(depth, tag), ctx), depth, ctx);
    } else {
      SecondPassOverText(h, depth, ctx);
      SecondPassIsTwice(h[TextEnd(h)..], depth, ctx);
    }
  }

  lemma SecondPassOverText(h: string, depth: nat, ctx: RefContext)
    requires SafeContext(ctx) && h != "" && h[0] != '<'
    ensures var t, rest := h[..TextEnd(h)], LinkifyFrom(h[TextEnd(h)..], depth, ctx);
            && TextEnd(h) > 0
            && LinkifyFrom(LinkifyFrom(h, depth, ctx), depth, ctx)
               == (if depth == 0 then RelinkFrom(t, Spans(t), 0, ctx) else t) + LinkifyFrom(rest, depth, ctx)
  {
    var t, tail := h[..TextEnd(h)], h[TextEnd(h)..];
    TextUnfolds(h, depth, ctx);
    PassKeepsTagStart(tail, depth, ctx);
    hide LinkifyFrom, RelinkFrom;
    var rest := LinkifyFrom(tail, depth, ctx);
    if depth == 0 {
      SpansArePlain(t);
      SecondPassOverRun(t, Spans(t), 0, rest, ctx);
    } else {
      RunThenRest(t, rest, depth, ctx);
    }
  }

  // ------------------------------------------------------ when nothing is left to do

  /** No gap of the run `t` holds a reference when it is scanned as a text of its own. */
  predicate CleanGaps(t: string, refs: seq<Ref>, k: nat)
    requires k <= |refs|
    requires Spans(t) == refs
    decreases |refs| - k
  {
    Spans(Gap(t, refs, k)) == [] && (k < |refs| ==> CleanGaps(t, refs, k + 1))
  }

  /** Every text run at skip depth 0 has clean gaps. */
  predicate Clean(h: string, depth: nat)
    decreases |h|
  {
    if h == "" then true
    else if h[0] == '<' then
      match Find(h, '>', 0)
      case None => true
      case Some(k) => Clean(h[k + 1..], NewDepth(depth, h[..k + 1]))
    else
      var t := h[..TextEnd(h)];
      (depth == 0 ==> CleanGaps(t, Spans(t), 0)) && Clean(h[TextEnd(h)..], depth)
  }

  /** Linking always lengthens. */
  lemma {:induction false} LinkFromLengthens(t: string, refs: seq<Ref>, k: nat, ctx: RefContext)
    requires Fits(t, refs) && k <= |refs|
    ensures var from := if k == 0 then 0 else refs[k - 1].end;
            if k == |refs| then LinkFrom(t, refs, k, ctx) == t[from..]
            else |LinkFrom(t, refs, k, ctx)| > |t| - from
    decreases |refs| - k
  {
    hide OpenTag;
    if k < |refs| { LinkFromLengthens(t, refs, k + 1, ctx); }
  }

  lemma {:induction false} RelinkedGaps(t: string, refs: seq<Ref>, k: nat, ctx: RefContext)
    requires refs == Spans(t) && k <= |refs|
    ensures if CleanGaps(t, refs, k) then RelinkFrom(t, refs, k, ctx) == LinkFrom(t, refs, k, ctx)
            else |RelinkFrom(t, refs, k, ctx)| > |LinkFrom(t, refs, k, ctx)|
    decreases |refs| - k
  {
    hide Spans, Link;
    var gap := Gap(t, refs, k);
    LinkFromLengthens(gap, Spans(gap), 0, ctx);
    if k < |refs| { RelinkedGaps(t, refs, k + 1, ctx); }
    RelinkedGapsCanShrink(t, refs, k, ctx);
  }

  lemma {:induction false} RelinkedGapsCanShrink(t: string, refs: seq<Ref>, k: nat, ctx: RefContext)
    requires Fits(t, refs) && k <= |refs|
    ensures |RelinkFrom(t, refs, k, ctx)| >= |LinkFrom(t, refs, k, ctx)|
    decreases |refs| - k
  {
    hide Spans, Link;
    var gap := Gap(t, refs, k);
    LinkFromLengthens(gap, Spans(gap), 0, ctx);
    if k < |refs| { RelinkedGapsCanShrink(t, refs, k + 1, ctx); }
  }

  lemma {:induction false} TwiceAgainstOnce(h: string, depth: nat, ctx: RefContext)
    ensures if Clean(h, depth) then Twice(h, depth, ctx) == LinkifyFrom(h, depth, ctx)
            else |Twice(h, depth, ctx)| > |LinkifyFrom(h, depth, ctx)|
    decreases |h|
  {
    hide NewDepth, CleanGaps, RelinkFrom, LinkFrom, Spans;
    if h == "" {
    } else if h[0] == '<' {
      match Find(h, '>', 0)
      case None =>
      case Some(k) => TwiceAgainstOnce(h[k + 1..], NewDepth(depth, h[..k + 1]), ctx);
    } else {
      var t := h[..TextEnd(h)];
      RelinkedGaps(t, Spans(t), 0, ctx);
      TwiceAgainstOnce(h[TextEnd(h)..], depth, ctx);
    }
  }

  /**
   A second pass changes nothing if and only if, in every text run outside
   `<a>`, `<code>` and `<pre>`, the gaps between the references hold no reference
   when read on their own.
   */
  lemma IdempotentExactlyWhenClean(html: string, ctx: RefContext)
    requires SafeContext(ctx)
    ensures Linkify(Linkify(html, ctx), ctx) == Linkify(html, ctx) <==> Clean(html, 0)
  {
    SecondPassIsTwice(html, 0, ctx);
    TwiceAgainstOnce(html, 0, ctx);
  }

  // ------------------------------------------------------------ what makes a gap unclean

  lemma {:induction false} ScanContinuesAfter(t: string, k: nat)
    requires 1 <= k <= |Spans(t)|
    ensures ScanFrom(t, Spans(t)[k - 1].end, MID_LINE) == Spans(t)[k..]
  {
    if k == 1 {
      ScanContinues(t, 0, START);
    } else {
      ScanContinuesAfter(t, k - 1);
      ScanContinues(t, Spans(t)[k - 2].end, MID_LINE);
      assert Spans(t)[k - 1..][1..] == Spans(t)[k..];
    }
  }

  lemma NextSpanIsFirst(t: string, k: nat)
    requires k <= |Spans(t)|
    ensures FirstAt(Spans(t)[k..], t, if k == |Spans(t)| then |t| else Spans(t)[k].start)
  {
    if k < |Spans(t)| {
      if k == 0 {
        ScanContinues(t, 0, START);
      } else {
        ScanContinuesAfter(t, k);
        ScanContinues(t, Spans(t)[k - 1].end, MID_LINE);
      }
    }
  }

  /** The gap behind the `k`-th reference begins, on its own, with a reference. */
  predicate GluedAfter(t: string, k: nat)
    requires 1 <= k <= |Spans(t)|
  {
    var gap := Gap(t, Spans(t), k);
    gap != "" && RefAt(gap, 0).Some?
  }

  predicate FenceAfter(t: string, k: nat)
    requires 1 <= k <= |Spans(t)|
  {
    FenceAt(Gap(t, Spans(t), k), 0)
  }

  /** The gap before the first reference is always clean; a later one is unless a reference is glued on. */
  lemma GapIsClean(t: string, k: nat)
    requires k <= |Spans(t)|
    requires k > 0 ==> !FenceAfter(t, k)
    ensures Spans(Gap(t, Spans(t), k)) == [] <==> k == 0 || !GluedAfter(t, k)
  {
    hide ScanFrom, RefAt, FenceAt, FirstAt;
    var b := if k == |Spans(t)| then |t| else Spans(t)[k].start;
    NextSpanIsFirst(t, k);
    if k == 0 {
      assert Spans(t)[0..] == Spans(t);
      NothingInSlice(t, 0, b, 0, START);
    } else {
      ScanContinuesAfter(t, k);
      GapScannedAfresh(t, Spans(t)[k - 1].end, b);
    }
  }

  lemma {:induction false} CleanGapsFrom(t: string, k: nat)
    requires k <= |Spans(t)|
    requires forall j :: 1 <= j <= |Spans(t)| ==> !FenceAfter(t, j)
    ensures CleanGaps(t, Spans(t), k) <==>
            forall j :: 1 <= j <= |Spans(t)| && k <= j ==> !GluedAfter(t, j)
    decreases |Spans(t)| - k
  {
    hide Spans, GluedAfter, FenceAfter;
    GapIsClean(t, k);
    if k < |Spans(t)| { CleanGapsFrom(t, k + 1); }
  }

  /**
   In a run where no fence marker follows a reference, the only thing a second
   pass can still link is a reference glued to the end of another: the first pass
   passed it over for the digit in front of it, which the second no longer sees.
   */
  lemma OnlyGluedReferencesAreMissed(t: string)
    requires forall k :: 1 <= k <= |Spans(t)| ==> !FenceAfter(t, k)
    ensures CleanGaps(t, Spans(t), 0) <==> forall k :: 1 <= k <= |Spans(t)| ==> !GluedAfter(t, k)
  {
    CleanGapsFrom(t, 0);
  }

  /** `#` and one digit, with neither letter nor digit around them. */
  lemma OneDigitReference(t: string, i: nat)
    requires i + 2 <= |t| && t[i] == '#' && '1' <= t[i + 1] <= '9'
    requires i > 0 ==> !IsAlphanumeric(t[i - 1])
    requires i + 2 < |t| ==> !IsAlphanumeric(t[i + 2]) && t[i + 2] != '_'
    ensures RefAt(t, i) == Some(Ref(i, i + 2, CrossReference(None, DigitValue(t[i + 1]))))
  {
    RunEndIs(t, i + 1, IsDigit, i + 2);
    OneDigit(t[i + 1..i + 2]);
    hide ParseQualified, RunEnd, NumberOf;
  }

  lemma OneDigit(digits: string)
    requires |digits| == 1 && IsDigit(digits[0])
    ensures NumberOf(digits) == DigitValue(digits[0])
  {
    assert digits[..0] == "";
  }

  lemma GluedScan()
    ensures Spans("#1#2") == [Ref(0, 2, CrossReference(None, 1))]
  {
    hide RefAt, ParseNumber, ParseQualified;
    var t := "#1#2";
    OneDigitReference(t, 0);
    GluedIsNone(t);
    assert !FenceAt(t, 0);
    assert Next(t, 0, START) == (RefAt(t, 0), 2, MID_LINE);
    assert Next(t, 2, MID_LINE) == (None, 3, MID_LINE);
    assert Next(t, 3, MID_LINE) == (None, 4, MID_LINE);
    hide Next;
    assert ScanFrom(t, 3, MID_LINE) == [];
    assert ScanFrom(t, 2, MID_LINE) == [];
  }

  /** Behind a digit `#` starts nothing, and a last digit alone is no qualified reference. */
  lemma GluedIsNone(t: string)
    requires t == "#1#2"
    ensures RefAt(t, 2) == None && RefAt(t, 3) == None
  {
    RunEndIs(t, 3, IsNameChar, 4);
  }

  lemma GluedGap()
    ensures RefAt("#2", 0).Some?
  {
    OneDigitReference("#2", 0);
  }

  /** Linkifying is not idempotent in general: of `#1#2` the second pass links what the first left. */
  lemma SecondPassCanLinkMore(ctx: RefContext)
    requires SafeContext(ctx)
    ensures Linkify(Linkify("#1#2", ctx), ctx) != Linkify("#1#2", ctx)
  {
    var t := "#1#2";
    GluedScan();
    GluedGap();
    assert Gap(t, Spans(t), 1) == "#2";
    assert GluedAfter(t, 1);
    assert !FenceAfter(t, 1);
    OnlyGluedReferencesAreMissed(t);
    assert TextEnd(t) == |t| && t[..|t|] == t;
    IdempotentExactlyWhenClean(t, ctx);
  }

  const FENCED := "#1```\n```\n#2"

  /** The first pass: the marker behind `#1` is no fence, the one after it is, and it swallows `#2`. */
  lemma NothingBehindTheFence()
    ensures ScanFrom(FENCED, 2, MID_LINE) == []
  {
    hide RefAt, RunEnd;
    var t, code, fence := FENCED, Mode(false, true, false), Mode(true, false, true);
    RunEndIs(t, 6, IsSpace, 6);
    RunEndIs(t, 6, NotNewline, 9);
    RunEndIs(t, 10, IsSpace, 10);
    assert Next(t, 2, MID_LINE) == (None, 3, code) && Next(t, 3, code) == (None, 4, MID_LINE);
    assert Next(t, 4, MID_LINE) == (None, 5, code) && Next(t, 5, code) == (None, 6, START);
    assert Next(t, 6, START) == (None, 9, fence) && Next(t, 9, fence) == (None, 10, fence);
    assert Next(t, 10, fence) == (None, 11, Mode(true, false, false));
    assert Next(t, 11, Mode(true, false, false)) == (None, 12, Mode(true, false, false));
    hide Next, RunEnd;
    assert ScanFrom(t, 10, fence) == [];
    assert ScanFrom(t, 6, START) == [];
    assert ScanFrom(t, 4, MID_LINE) == [];
  }

  lemma FencedScan()
    ensures Spans(FENCED) == [Ref(0, 2, CrossReference(None, 1))]
  {
    hide RefAt, RunEnd;
    var t := FENCED;
    NothingBehindTheFence();
    OneDigitReference(t, 0);
    RunEndIs(t, 0, IsSpace, 0);
    assert Next(t, 0, START) == (RefAt(t, 0), 2, MID_LINE);
    hide Next;
    assert ScanFrom(t, 0, START) == [Ref(0, 2, CrossReference(None, 1))] + ScanFrom(t, 2, MID_LINE);
  }

  /** The gap on its own: a fence that opens and closes, then a reference. */
  lemma FencedGap()
    ensures Spans("```\n```\n#2") != []
  {
    hide RefAt, RunEnd;
    var g, fence := "```\n```\n#2", Mode(true, false, true);
    OneDigitReference(g, 8);
    RunEndIs(g, 0, IsSpace, 0);
    RunEndIs(g, 0, NotNewline, 3);
    RunEndIs(g, 4, IsSpace, 4);
    RunEndIs(g, 4, NotNewline, 7);
    RunEndIs(g, 8, IsSpace, 8);
    assert Next(g, 0, START) == (None, 3, fence) && Next(g, 3, fence) == (None, 4, fence);
    assert Next(g, 4, fence) == (None, 7, START) && Next(g, 7, START) == (None, 8, START);
    assert Next(g, 8, START).0.Some?;
    hide Next;
    assert ScanFrom(g, 8, START) != [];
    assert ScanFrom(g, 4, fence) != [];
  }

  /** Nor with a fence behind a reference: of `FENCED` the second pass links `#2` as well. */
  lemma SecondPassCanLeaveAFence(ctx: RefContext)
    requires SafeContext(ctx)
    ensures Linkify(Linkify(FENCED, ctx), ctx) != Linkify(FENCED, ctx)
  {
    FencedIsUnclean(FENCED);
    hide *;
    IdempotentExactlyWhenClean(FENCED, ctx);
  }

  lemma FencedIsUnclean(t: string)
    requires t == FENCED
    ensures !Clean(t, 0)
  {
    hide ScanFrom;
    FencedScan();
    FencedGap();
    LastGapIs(t, Spans(t), "```\n```\n#2");
    assert t[0] != '<' && '<' !in t;
    hide *;
    NotCleanInside(t, 1);
    NoTagInside(t);
    NotCleanText(t);
  }

  lemma LastGapIs(t: string, refs: seq<Ref>, gap: string)
    requires Fits(t, refs) && |refs| == 1 && t[refs[0].end..] == gap
    ensures Gap(t, refs, 1) == gap
  {
  }

  lemma NoTagInside(t: string)
    requires '<' !in t
    ensures TextEnd(t) == |t|
  {
  }

  lemma NotCleanInside(t: string, k: nat)
    requires k <= |Spans(t)| && Spans(Gap(t, Spans(t), k)) != []
    ensures !CleanGaps(t, Spans(t), 0)
  {
    NotCleanFrom(t, 0, k);
  }

  lemma {:induction false} NotCleanFrom(t: string, i: nat, k: nat)
    requires i <= k <= |Spans(t)| && Spans(Gap(t, Spans(t), k)) != []
    ensures !CleanGaps(t, Spans(t), i)
    decreases k - i
  {
    hide Spans, Gap;
    if i < k { NotCleanFrom(t, i + 1, k); }
  }

  lemma NotCleanText(t: string)
    requires t != "" && t[0] != '<' && TextEnd(t) == |t| && !CleanGaps(t, Spans(t), 0)
    ensures !Clean(t, 0)
  {
    hide Spans, CleanGaps;
    assert t[..|t|] == t;
  }

  // -------------------------------------------------------------- erasing the links

  /** The output cut into what the input had and what the pass inserted. */
  datatype Piece = Kept(text: string) | Inserted(text: string)

  function RunPieces(t: string, refs: seq<Ref>, k: nat, ctx: RefContext): seq<Piece>
    requires Fits(t, refs) && k <= |refs|
    decreases |refs| - k
  {
    [Kept(Gap(t, refs, k))]
    + if k == |refs| then []
      else [Inserted(OpenTag(refs[k].cref, ctx)), Kept(Token(t, refs, k)), Inserted(CLOSE_TAG)]
           + RunPieces(t, refs, k + 1, ctx)
  }

  function Pieces(h: string, depth: nat, ctx: RefContext): seq<Piece>
    decreases |h|
  {
    if h == "" then []
    else if h[0] == '<' then
      match Find(h, '>', 0)
      case None => [Kept(h)]
      case Some(k) => [Kept(h[..k + 1])] + Pieces(h[k + 1..], NewDepth(depth, h[..k + 1]), ctx)
    else
      var t := h[..TextEnd(h)];
      (if depth == 0 then RunPieces(t, Spans(t), 0, ctx) else [Kept(t)]) + Pieces(h[TextEnd(h)..], depth, ctx)
  }

  function Shown(p: Piece, keptOnly: bool): string {
    if keptOnly && p.Inserted? then "" else p.text
  }

  function TextOf(ps: seq<Piece>, keptOnly: bool): string {
    if ps == [] then "" else Shown(ps[0], keptOnly) + TextOf(ps[1..], keptOnly)
  }

  function AllText(ps: seq<Piece>): string {
    TextOf(ps, false)
  }

  function KeptText(ps: seq<Piece>): string {
    TextOf(ps, true)
  }

  lemma {:induction false} TextOfBoth(a: seq<Piece>, b: seq<Piece>, keptOnly: bool)
    ensures TextOf(a + b, keptOnly) == TextOf(a, keptOnly) + TextOf(b, keptOnly)
  {
    if a == [] {
      assert a + b == b;
    } else {
      hide Shown;
      assert (a + b)[1..] == a[1..] + b;
      TextOfBoth(a[1..], b, keptOnly);
      Associate(Shown(a[0], keptOnly), TextOf(a[1..], keptOnly), TextOf(b, keptOnly));
    }
  }

  lemma TextOfConcat(a: seq<Piece>, b: seq<Piece>)
    ensures AllText(a + b) == AllText(a) + AllText(b)
    ensures KeptText(a + b) == KeptText(a) + KeptText(b)
  {
    TextOfBoth(a, b, false);
    TextOfBoth(a, b, true);
  }

  lemma OnePiece(p: Piece)
    ensures AllText([p]) == p.text && KeptText([p]) == if p.Kept? then p.text else ""
  {
    var ps := [p];
    assert ps[0] == p && ps[1..] == [];
    assert TextOf([], false) == "" && TextOf([], true) == "";
    assert TextOf(ps, false) == Shown(p, false) + TextOf(ps[1..], false);
    assert TextOf(ps, true) == Shown(p, true) + TextOf(ps[1..], true);
  }

  lemma RunPiecesUnfold(t: string, refs: seq<Ref>, k: nat, ctx: RefContext)
    requires Fits(t, refs) && k < |refs|
    ensures RunPieces(t, refs, k, ctx)
            == [Kept(Gap(t, refs, k)), Inserted(OpenTag(refs[k].cref, ctx)), Kept(Token(t, refs, k)),
                Inserted(CLOSE_TAG)] + RunPieces(t, refs, k + 1, ctx)
  {
    hide OpenTag, Gap, Token;
  }

  lemma GapTokenRest(t: string, refs: seq<Ref>, k: nat)
    requires Fits(t, refs) && k < |refs|
    ensures Gap(t, refs, k) + Token(t, refs, k) + t[refs[k].end..]
            == t[if k == 0 then 0 else refs[k - 1].end..]
  {
    var from := if k == 0 then 0 else refs[k - 1].end;
    ThreeParts(t, from, refs[k].start, refs[k].end);
  }

  lemma ThreeParts(t: string, a: nat, b: nat, c: nat)
    requires a <= b <= c <= |t|
    ensures t[a..b] + t[b..c] + t[c..] == t[a..]
  {
  }

  lemma {:induction false} RunPiecesText(t: string, refs: seq<Ref>, k: nat, ctx: RefContext)
    requires Fits(t, refs) && k <= |refs|
    ensures AllText(RunPieces(t, refs, k, ctx)) == LinkFrom(t, refs, k, ctx)
    ensures KeptText(RunPieces(t, refs, k, ctx)) == t[if k == 0 then 0 else refs[k - 1].end..]
    decreases |refs| - k
  {
    if k == |refs| {
      assert RunPieces(t, refs, k, ctx) == [Kept(Gap(t, refs, k))];
      OnePiece(Kept(Gap(t, refs, k)));
    } else {
      hide AllText, KeptText, RunPieces, OpenTag, Gap, Token;
      var gap, open, token := Gap(t, refs, k), OpenTag(refs[k].cref, ctx), Token(t, refs, k);
      var more := RunPieces(t, refs, k + 1, ctx);
      RunPiecesUnfold(t, refs, k, ctx);
      GapTokenRest(t, refs, k);
      RunPiecesText(t, refs, k + 1, ctx);
      TextOfConcat([Kept(gap), Inserted(open), Kept(token), Inserted(CLOSE_TAG)], more);
      FourPieces(gap, open, token, CLOSE_TAG);
      Associate(gap, open + token + CLOSE_TAG, LinkFrom(t, refs, k + 1, ctx));
    }
  }

  lemma FourPieces(gap: string, open: string, token: string, close: string)
    ensures var ps := [Kept(gap), Inserted(open), Kept(token), Inserted(close)];
            AllText(ps) == gap + (open + token + close) && KeptText(ps) == gap + token
  {
    var ps := [Kept(gap), Inserted(open), Kept(token), Inserted(close)];
    var three, two, one := ps[1..], ps[2..], ps[3..];
    assert three[1..] == two && two[1..] == one && one[1..] == [];
    OnePiece(Inserted(close));
    assert AllText(two) == token + close && KeptText(two) == token;
    assert AllText(three) == open + (token + close) && KeptText(three) == token;
    Associate(open, token, close);
  }

  lemma PiecesOfTag(h: string, depth: nat, ctx: RefContext, k: nat)
    requires h != "" && h[0] == '<' && Find(h, '>', 0) == Some(k)
    ensures Pieces(h, depth, ctx)
            == [Kept(h[..k + 1])] + Pieces(h[k + 1..], NewDepth(depth, h[..k + 1]), ctx)
  {
  }

  /** The pieces of the text run `h` begins with. */
  function HeadPieces(h: string, depth: nat, ctx: RefContext): seq<Piece> {
    var t := h[..TextEnd(h)];
    if depth == 0 then RunPieces(t, Spans(t), 0, ctx) else [Kept(t)]
  }

  lemma PiecesOfText(h: string, depth: nat, ctx: RefContext)
    requires h != "" && h[0] != '<'
    ensures Pieces(h, depth, ctx) == HeadPieces(h, depth, ctx) + Pieces(h[TextEnd(h)..], depth, ctx)
  {
  }

  lemma HeadPiecesText(h: string, depth: nat, ctx: RefContext)
    ensures AllText(HeadPieces(h, depth, ctx))
            == if depth == 0 then LinkifyText(h[..TextEnd(h)], ctx) else h[..TextEnd(h)]
    ensures KeptText(HeadPieces(h, depth, ctx)) == h[..TextEnd(h)]
  {
    hide AllText, KeptText, RunPieces, Spans;
    var t := h[..TextEnd(h)];
    RunPiecesText(t, Spans(t), 0, ctx);
    OnePiece(Kept(t));
  }

  lemma TakeDrop(h: string, k: nat)
    requires k <= |h|
    ensures h[..k] + h[k..] == h
  {
  }

  /** Erasing exactly the inserted tags gives the input back, for every input. */
  lemma {:induction false} ErasingTheLinksRestoresTheInput(h: string, depth: nat, ctx: RefContext)
    ensures AllText(Pieces(h, depth, ctx)) == LinkifyFrom(h, depth, ctx)
    ensures KeptText(Pieces(h, depth, ctx)) == h
    decreases |h|
  {
    if h == "" {
    } else if h[0] == '<' {
      match Find(h, '>', 0)
      case None =>
        assert Pieces(h, depth, ctx) == [Kept(h)];
        OnePiece(Kept(h));
      case Some(k) =>
        hide *;
        var tag, d := h[..k + 1], NewDepth(depth, h[..k + 1]);
        var more := Pieces(h[k + 1..], d, ctx);
        ErasingTheLinksRestoresTheInput(h[k + 1..], d, ctx);
        TagUnfolds(h, depth, ctx, k);
        PiecesOfTag(h, depth, ctx, k);
        OnePiece(Kept(tag));
        TextOfConcat([Kept(tag)], more);
        TakeDrop(h, k + 1);
    } else {
      hide *;
      TextUnfolds(h, depth, ctx);
      ErasingTheLinksRestoresTheInput(h[TextEnd(h)..], depth, ctx);
      PiecesOfText(h, depth, ctx);
      HeadPiecesText(h, depth, ctx);
      TextOfConcat(HeadPieces(h, depth, ctx), Pieces(h[TextEnd(h)..], depth, ctx));
      TakeDrop(h, TextEnd(h));
    }
  }

  // --------------------------------------------------------- where links are inserted

  /** Where a reader stands after `p`: in text or in an unfinished tag, at which depth. */
  datatype Place = InText(depth: nat) | InTag(depth: nat)

  function PlaceAfter(p: string, depth: nat): Place
    decreases |p|
  {
    if p == "" then InText(depth)
    else if p[0] != '<' then PlaceAfter(p[1..], depth)
    else
      match Find(p, '>', 0)
      case None => InTag(depth)
      case Some(k) => PlaceAfter(p[k + 1..], NewDepth(depth, p[..k + 1]))
  }

  lemma {:induction false} TextMovesNothing(t: string, rest: string, depth: nat)
    requires '<' !in t
    ensures PlaceAfter(t + rest, depth) == PlaceAfter(rest, depth)
  {
    if t == "" {
      assert t + rest == rest;
    } else {
      assert (t + rest)[1..] == t[1..] + rest;
      TextMovesNothing(t[1..], rest, depth);
    }
  }

  lemma TagMovesDepth(tag: string, rest: string, depth: nat)
    requires |tag| >= 2 && tag[0] == '<' && tag[|tag| - 1] == '>' && '>' !in tag[..|tag| - 1]
    ensures PlaceAfter(tag + rest, depth) == PlaceAfter(rest, NewDepth(depth, tag))
  {
    hide NewDepth;
    var h, k := tag + rest, |tag| - 1;
    assert h[0..k] == tag[..k];
    FindIs(h, '>', 0, k);
    assert h[..k + 1] == tag && h[k + 1..] == rest;
  }

  lemma TokenHasNoTag(t: string, refs: seq<Ref>, k: nat)
    requires Fits(t, refs) && k < |refs| && '<' !in t
    ensures '<' !in Token(t, refs, k)
  {
  }

  lemma LastPiece(t: string, refs: seq<Ref>, ctx: RefContext)
    requires Fits(t, refs)
    ensures RunPieces(t, refs, |refs|, ctx) == [Kept(Gap(t, refs, |refs|))]
  {
  }

  lemma {:induction false} RunKeepsNoTag(t: string, refs: seq<Ref>, k: nat, ctx: RefContext)
    requires Fits(t, refs) && k <= |refs| && '<' !in t
    ensures forall p :: p in RunPieces(t, refs, k, ctx) && p.Kept? ==> '<' !in p.text
    decreases |refs| - k
  {
    hide *;
    GapHasNoTag(t, refs, k);
    if k == |refs| {
      LastPiece(t, refs, ctx);
    } else {
      TokenHasNoTag(t, refs, k);
      RunPiecesUnfold(t, refs, k, ctx);
      RunKeepsNoTag(t, refs, k + 1, ctx);
    }
  }

  lemma {:induction false} KeptOfPieces(ps: seq<Piece>)
    requires forall p :: p in ps && p.Kept? ==> '<' !in p.text
    ensures '<' !in KeptText(ps)
  {
    if ps != [] { KeptOfPieces(ps[1..]); }
  }

  /** Everything inserted stands in text, outside every tag, at skip depth 0. */
  lemma {:induction false} LinksGoIntoPlainText(h: string, depth: nat, ctx: RefContext, i: nat)
    requires i < |Pieces(h, depth, ctx)| && Pieces(h, depth, ctx)[i].Inserted?
    ensures PlaceAfter(KeptText(Pieces(h, depth, ctx)[..i]), depth) == InText(0)
    decreases |h|
  {
    hide RunPieces, Spans, NewDepth, PlaceAfter;
    var ps := Pieces(h, depth, ctx);
    if h[0] == '<' {
      var k := Find(h, '>', 0).value;
      var tag, d := h[..k + 1], NewDepth(depth, h[..k + 1]);
      var more := Pieces(h[k + 1..], d, ctx);
      assert ps == [Kept(tag)] + more;
      hide Pieces;
      LinksGoIntoPlainText(h[k + 1..], d, ctx, i - 1);
      KeptBehindTag(tag, more, i);
      assert tag[..|tag| - 1] == h[0..k];
      TagMovesDepth(tag, KeptText(more[..i - 1]), depth);
    } else {
      LinksGoIntoText(h, depth, ctx, i);
    }
  }

  lemma KeptBehindTag(tag: string, more: seq<Piece>, i: nat)
    requires 0 < i <= |more| + 1
    ensures KeptText(([Kept(tag)] + more)[..i]) == tag + KeptText(more[..i - 1])
  {
    var ps := ([Kept(tag)] + more)[..i];
    assert ps[0] == Kept(tag) && ps[1..] == more[..i - 1];
  }

  lemma LinksGoIntoText(h: string, depth: nat, ctx: RefContext, i: nat)
    requires h != "" && h[0] != '<'
    requires i < |Pieces(h, depth, ctx)| && Pieces(h, depth, ctx)[i].Inserted?
    ensures PlaceAfter(KeptText(Pieces(h, depth, ctx)[..i]), depth) == InText(0)
    decreases |h|, 0
  {
    hide RunPieces, Spans, TextOf, PlaceAfter, HeadPieces, Pieces, KeptText, AllText;
    var t, tail := h[..TextEnd(h)], h[TextEnd(h)..];
    var run, more := HeadPieces(h, depth, ctx), Pieces(tail, depth, ctx);
    PiecesOfText(h, depth, ctx);
    HeadPiecesText(h, depth, ctx);
    if i < |run| {
      assert (run + more)[..i] == run[..i];
      LinksInRun(h, depth, ctx, i);
    } else {
      assert (run + more)[..i] == run + more[..i - |run|];
      LinksGoIntoPlainText(tail, depth, ctx, i - |run|);
      TextOfConcat(run, more[..i - |run|]);
      TextMovesNothing(t, KeptText(more[..i - |run|]), depth);
    }
  }

  lemma LinksInRun(h: string, depth: nat, ctx: RefContext, i: nat)
    requires i < |HeadPieces(h, depth, ctx)| && HeadPieces(h, depth, ctx)[i].Inserted?
    ensures PlaceAfter(KeptText(HeadPieces(h, depth, ctx)[..i]), depth) == InText(0)
  {
    hide RunPieces, Spans, TextOf, KeptText;
    var t := h[..TextEnd(h)];
    RunKeepsNoTag(t, Spans(t), 0, ctx);
    KeptOfPieces(HeadPieces(h, depth, ctx)[..i]);
    var kept := KeptText(HeadPieces(h, depth, ctx)[..i]);
    assert kept + "" == kept;
    TextMovesNothing(kept, "", depth);
  }
}
