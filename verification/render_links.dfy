/**
 Where the inserted links lead, said from the text of their tokens, and which tags the
 linkifier takes for anchors and code.
 */
module RenderLinks {
  import opened Prelude
  import opened Text
  import opened CrossRef
  import opened CrossRefExact
  import opened Render
  import opened RenderProofs

  // --------------------------------------------------------------------- numbers

  predicate AllDigits(s: string) {
    forall c :: c in s ==> '0' <= c <= '9'
  }

  function WithoutLeadingZeros(digits: string): string {
    if |digits| > 1 && digits[0] == '0' then WithoutLeadingZeros(digits[1..]) else digits
  }

  /** Printing a number and reading it gives the number. */
  lemma {:induction false} NumberOfDecimal(n: nat)
    ensures NumberOf(Decimal(n)) == n
  {
    if n < 10 {
      assert Decimal(n)[..0] == "";
    } else {
      NumberOfDecimal(n / 10);
      assert Decimal(n)[..|Decimal(n)| - 1] == Decimal(n / 10);
    }
  }

  lemma {:induction false} TrimmingOneMore(init: string, last: char)
    requires AllDigits(init) && init != ""
    ensures WithoutLeadingZeros(init + [last])
            == if NumberOf(init) == 0 then [last] else WithoutLeadingZeros(init) + [last]
  {
    ZeroExactly(init);
    assert (init + [last])[1..] == init[1..] + [last];
    if init[0] == '0' && |init| > 1 {
      assert forall c :: c in init[1..] ==> c in init;
      ZeroExactly(init[1..]);
      TrimmingOneMore(init[1..], last);
    }
    assert |init| == 1 ==> init[1..] == "" && init == [init[0]];
  }

  lemma {:induction false} ZeroExactly(digits: string)
    requires AllDigits(digits)
    ensures NumberOf(digits) == 0 <==> forall i :: 0 <= i < |digits| ==> digits[i] == '0'
  {
    if digits != "" {
      var init, last := digits[..|digits| - 1], digits[|digits| - 1];
      assert forall c :: c in init ==> c in digits;
      assert last in digits;
      ZeroExactly(init);
      assert digits == init + [last];
    }
  }

  /** Reading digits and printing the number gives the digits without leading zeros. */
  lemma {:induction false} DecimalOfNumber(digits: string)
    requires AllDigits(digits) && digits != ""
    ensures Decimal(NumberOf(digits)) == WithoutLeadingZeros(digits)
  {
    hide *;
    var init, last := digits[..|digits| - 1], digits[|digits| - 1];
    assert digits == init + [last];
    DigitsSplit(init, last);
    NumberUnfolds(init, last);
    DecimalUnfolds(NumberOf(init), last);
    if init == "" {
      OneDigitAlone(last);
      assert digits == [last];
    } else {
      DecimalOfNumber(init);
      TrimmingOneMore(init, last);
    }
  }

  lemma DigitsSplit(init: string, last: char)
    ensures AllDigits(init + [last]) <==> AllDigits(init) && '0' <= last <= '9'
  {
    assert last in init + [last];
    assert forall c :: c in init ==> c in init + [last];
  }

  lemma NumberUnfolds(init: string, last: char)
    ensures NumberOf(init + [last]) == NumberOf(init) * 10 + DigitValue(last) && NumberOf("") == 0
  {
    assert (init + [last])[..|init|] == init;
  }

  lemma DecimalUnfolds(n: nat, last: char)
    requires '0' <= last <= '9'
    ensures Decimal(n * 10 + DigitValue(last)) == if n == 0 then [last] else Decimal(n) + [last]
  {
    var v := DigitValue(last);
    assert DigitChar(v) == last;
    assert (n * 10 + v) / 10 == n && (n * 10 + v) % 10 == v;
  }

  lemma OneDigitAlone(last: char)
    ensures WithoutLeadingZeros([last]) == [last]
  {
  }

  // ----------------------------------------------------------------------- links

  /** The tag that links to issue `digits` of `owner/repo`. */
  function LinkTo(owner: string, repo: string, digits: string): string {
    "<a href=\"" + ("/" + owner + "/" + repo + "/issues/" + WithoutLeadingZeros(digits)) + "\">"
  }

  /** `open` links `token` to what it spells: its own repository, else that of the body. */
  ghost predicate LeadsWhereItSays(open: string, token: string, ctx: RefContext) {
    exists digits :: AllDigits(digits) && digits != "" && LeadsTo(open, token, ctx, digits)
  }

  ghost predicate LeadsTo(open: string, token: string, ctx: RefContext, digits: string) {
    || (token == "#" + digits && open == LinkTo(ctx.owner, ctx.repo, digits))
    || exists owner, repo :: NamesOf(token, owner, repo, digits) && open == LinkTo(owner, repo, digits)
  }

  predicate NamesOf(token: string, owner: string, repo: string, digits: string) {
    token == owner + "/" + repo + "#" + digits && '/' !in owner && '/' !in repo && '#' !in owner && '#' !in repo
  }

  /** Where the `#` of a written reference stands. */
  function HashOf(r: Ref): nat {
    match r.cref.repository
    case None => r.start
    case Some((owner, repo)) => r.start + |owner| + 1 + |repo|
  }

  lemma WrittenDigits(t: string, r: Ref) returns (digits: string)
    requires Written(t, r)
    ensures NumberWritten(t, HashOf(r), r.end, digits) && r.cref.number == NumberOf(digits)
  {
    hide NumberOf, NumberWritten;
    digits :| NumberWritten(t, HashOf(r), r.end, digits) && r.cref.number == NumberOf(digits);
  }

  lemma OpenTagSpells(cref: CrossReference, ctx: RefContext, digits: string)
    requires AllDigits(digits) && digits != "" && cref.number == NumberOf(digits)
    ensures OpenTag(cref, ctx) == match cref.repository
                                  case None => LinkTo(ctx.owner, ctx.repo, digits)
                                  case Some((owner, repo)) => LinkTo(owner, repo, digits)
  {
    DecimalOfNumber(digits);
    hide NumberOf, Decimal, WithoutLeadingZeros;
  }

  lemma BareToken(t: string, r: Ref, digits: string)
    requires r.start < r.end <= |t| && NumberWritten(t, r.start, r.end, digits)
    ensures t[r.start..r.end] == "#" + digits && AllDigits(digits) && digits != ""
  {
    assert t[r.start..r.end] == [t[r.start]] + t[r.start + 1..r.end];
  }

  lemma QualifiedToken(t: string, r: Ref, owner: string, repo: string, digits: string)
    requires r.cref.repository == Some((owner, repo)) && Written(t, r) && NumberWritten(t, HashOf(r), r.end, digits)
    ensures NamesOf(t[r.start..r.end], owner, repo, digits) && AllDigits(digits) && digits != ""
  {
    hide NumberOf;
    var hash := HashOf(r);
    assert t[r.start..r.end] == t[r.start..hash] + [t[hash]] + t[hash + 1..r.end];
  }

  /** A found token is linked to what it spells. */
  lemma TokenIsLinked(t: string, r: Ref, ctx: RefContext)
    requires Written(t, r) && r.start < r.end <= |t|
    ensures LeadsWhereItSays(OpenTag(r.cref, ctx), t[r.start..r.end], ctx)
  {
    hide Written, NumberOf, NumberWritten, OpenTag, LinkTo, NamesOf, AllDigits;
    var digits := WrittenDigits(t, r);
    match r.cref.repository {
      case None => BareToken(t, r, digits);
      case Some((owner, repo)) => QualifiedToken(t, r, owner, repo, digits);
    }
    OpenTagSpells(r.cref, ctx, digits);
    assert LeadsTo(OpenTag(r.cref, ctx), t[r.start..r.end], ctx, digits);
  }

  /** Behind an inserted opening tag come the token it links and the closing tag. */
  ghost predicate LinksItsToken(ps: seq<Piece>, i: nat, ctx: RefContext) {
    && i + 2 < |ps| && ps[i].Inserted? && ps[i + 1].Kept? && ps[i + 2] == Inserted("</a>")
    && LeadsWhereItSays(ps[i].text, ps[i + 1].text, ctx)
  }

  lemma OpenTagIsNoClose(cref: CrossReference, ctx: RefContext)
    ensures OpenTag(cref, ctx) != "</a>"
  {
    assert OpenTag(cref, ctx)[1] == 'a';
  }

  lemma {:induction false} RunLinksItsTokens(t: string, refs: seq<Ref>, k: nat, ctx: RefContext, i: nat)
    requires Fits(t, refs) && k <= |refs| && forall r :: r in refs ==> Written(t, r)
    requires i < |RunPieces(t, refs, k, ctx)| && RunPieces(t, refs, k, ctx)[i].Inserted?
    requires RunPieces(t, refs, k, ctx)[i].text != "</a>"
    ensures LinksItsToken(RunPieces(t, refs, k, ctx), i, ctx)
    decreases |refs| - k
  {
    hide Written, Gap, OpenTag, LeadsWhereItSays, RunPieces;
    var ps := RunPieces(t, refs, k, ctx);
    if k == |refs| {
      LastPiece(t, refs, ctx);
    } else {
      RunPiecesUnfold(t, refs, k, ctx);
      var rest := RunPieces(t, refs, k + 1, ctx);
      assert refs[k] in refs;
      if i < 4 {
        TokenIsLinked(t, refs[k], ctx);
      } else {
        RunLinksItsTokens(t, refs, k + 1, ctx, i - 4);
        assert ps[i] == rest[i - 4] && ps[i + 1] == rest[i - 3] && ps[i + 2] == rest[i - 2];
      }
    }
  }

  lemma HeadLinksItsTokens(h: string, depth: nat, ctx: RefContext, i: nat)
    requires i < |HeadPieces(h, depth, ctx)| && HeadPieces(h, depth, ctx)[i].Inserted?
    requires HeadPieces(h, depth, ctx)[i].text != "</a>"
    ensures LinksItsToken(HeadPieces(h, depth, ctx), i, ctx)
  {
    hide RunPieces, LeadsWhereItSays, Written, ScanFrom;
    var t := h[..TextEnd(h)];
    forall r | r in Spans(t) ensures Written(t, r) { ScanFindsExactly(t, r); }
    RunLinksItsTokens(t, Spans(t), 0, ctx, i);
  }

  /**
   Every link inserted anywhere leads where its token says: `owner/repo#12` to issue 12
   of that repository, `#12` to issue 12 of the repository the body belongs to.
   */
  lemma {:induction false} LinksLeadWhereTheySay(h: string, depth: nat, ctx: RefContext, i: nat)
    requires i < |Pieces(h, depth, ctx)| && Pieces(h, depth, ctx)[i].Inserted?
    requires Pieces(h, depth, ctx)[i].text != "</a>"
    ensures LinksItsToken(Pieces(h, depth, ctx), i, ctx)
    decreases |h|
  {
    NoPiecesOfNothing(depth, ctx);
    UnclosedIsKept(h, depth, ctx);
    hide *;
    var ps := Pieces(h, depth, ctx);
    if h[0] == '<' {
      var k := Find(h, '>', 0).value;
      var d := NewDepth(depth, h[..k + 1]);
      PiecesOfTag(h, depth, ctx, k);
      LinksLeadWhereTheySay(h[k + 1..], d, ctx, i - 1);
      LinkBehind([Kept(h[..k + 1])], Pieces(h[k + 1..], d, ctx), i - 1, ctx);
    } else {
      PiecesOfText(h, depth, ctx);
      var run, more := HeadPieces(h, depth, ctx), Pieces(h[TextEnd(h)..], depth, ctx);
      if i < |run| {
        HeadLinksItsTokens(h, depth, ctx, i);
        LinkInFront(run, more, i, ctx);
      } else {
        TextIsNotEmpty(h);
        LinksLeadWhereTheySay(h[TextEnd(h)..], depth, ctx, i - |run|);
        LinkBehind(run, more, i - |run|, ctx);
      }
    }
  }

  lemma NoPiecesOfNothing(depth: nat, ctx: RefContext)
    ensures Pieces("", depth, ctx) == []
  {
  }

  lemma UnclosedIsKept(h: string, depth: nat, ctx: RefContext)
    ensures h != "" && h[0] == '<' && Find(h, '>', 0).None? ==> Pieces(h, depth, ctx) == [Kept(h)]
  {
  }

  lemma TextIsNotEmpty(h: string)
    requires h != "" && h[0] != '<'
    ensures TextEnd(h) > 0
  {
  }

  lemma LinkBehind(front: seq<Piece>, ps: seq<Piece>, i: nat, ctx: RefContext)
    requires LinksItsToken(ps, i, ctx)
    ensures LinksItsToken(front + ps, |front| + i, ctx)
  {
    hide LeadsWhereItSays;
  }

  lemma LinkInFront(ps: seq<Piece>, rest: seq<Piece>, i: nat, ctx: RefContext)
    requires LinksItsToken(ps, i, ctx)
    ensures LinksItsToken(ps + rest, i, ctx)
  {
    hide LeadsWhereItSays;
  }

  // ---------------------------------------------------- every reference is linked

  /** `h[a..b]` is the text between two tags, or an end of `h`, and stands at depth 0. */
  ghost predicate OpenRun(h: string, depth: nat, a: nat, b: nat) {
    && a <= b <= |h| && '<' !in h[a..b] && (b < |h| ==> h[b] == '<')
    && PlaceAfter(h[..a], depth) == InText(0) && (a > 0 ==> PlaceAfter(h[..a - 1], depth).InTag?)
  }

  /** Behind the piece `i` the token `h[start..end]` is kept, between its link's tags. */
  ghost predicate LinksSpan(ps: seq<Piece>, i: nat, h: string, start: nat, end: nat) {
    && start <= end <= |h| && i + 2 < |ps| && ps[i].Inserted? && ps[i].text != "</a>"
    && KeptText(ps[..i]) == h[..start] && ps[i + 1] == Kept(h[start..end]) && ps[i + 2] == Inserted("</a>")
  }

  /** Text cut in three. */
  lemma ThreeSlices(t: string, a: nat, b: nat, c: nat, d: nat)
    requires a <= b <= c <= d <= |t|
    ensures t[a..b] + t[b..c] + t[c..d] == t[a..d]
  {
  }

  lemma FourInFront(four: seq<Piece>, more: seq<Piece>, n: nat)
    requires |four| == 4 && n + 3 < |more|
    ensures var ps := four + more;
            && ps[n + 5] == more[n + 1] && ps[n + 6] == more[n + 2] && ps[n + 7] == more[n + 3]
            && KeptText(ps[..n + 5]) == KeptText(four) + KeptText(more[..n + 1])
  {
    hide KeptText, AllText;
    assert (four + more)[..n + 5] == four + more[..n + 1];
    TextOfConcat(four, more[..n + 1]);
  }

  lemma {:induction false} KeptInRun(t: string, refs: seq<Ref>, k: nat, ctx: RefContext, j: nat)
    requires Fits(t, refs) && k <= j < |refs|
    ensures var ps, from := RunPieces(t, refs, k, ctx), if k == 0 then 0 else refs[k - 1].end;
            && from <= refs[j].start && 4 * (j - k) + 3 < |ps|
            && ps[4 * (j - k) + 1] == Inserted(OpenTag(refs[j].cref, ctx))
            && ps[4 * (j - k) + 2] == Kept(t[refs[j].start..refs[j].end]) && ps[4 * (j - k) + 3] == Inserted("</a>")
            && KeptText(ps[..4 * (j - k) + 1]) == t[from..refs[j].start]
    decreases j - k
  {
    hide OpenTag, RunPieces, TextOf;
    RunPiecesUnfold(t, refs, k, ctx);
    var ps, more := RunPieces(t, refs, k, ctx), RunPieces(t, refs, k + 1, ctx);
    var gap, open, token := Gap(t, refs, k), OpenTag(refs[k].cref, ctx), Token(t, refs, k);
    if j == k {
      assert ps[..1] == [Kept(gap)];
      OnePiece(Kept(gap));
    } else {
      KeptInRun(t, refs, k + 1, ctx, j);
      hide *;
      FourInFront([Kept(gap), Inserted(open), Kept(token), Inserted(CLOSE_TAG)], more, 4 * (j - k - 1));
      FourPieces(gap, open, token, CLOSE_TAG);
      GapAndToken(t, refs, k);
      ThreeSlices(t, if k == 0 then 0 else refs[k - 1].end, refs[k].start, refs[k].end, refs[j].start);
    }
  }

  lemma GapAndToken(t: string, refs: seq<Ref>, k: nat)
    requires Fits(t, refs) && k < |refs|
    ensures refs[k].start < refs[k].end <= |t| && (k > 0 ==> refs[k - 1].end <= refs[k].start)
    ensures Gap(t, refs, k) == t[if k == 0 then 0 else refs[k - 1].end..refs[k].start]
    ensures Token(t, refs, k) == t[refs[k].start..refs[k].end]
  {
  }

  lemma SpanFits(t: string, r: Ref)
    requires r in ScanRefs(t)
    ensures r.start < r.end <= |t|
  {
    var j := SpanIndex(t, r);
    hide ScanRefs;
    assert Fits(t, Spans(t));
  }

  lemma SpanIndex(t: string, r: Ref) returns (j: nat)
    requires r in ScanRefs(t)
    ensures j < |Spans(t)| && Spans(t)[j] == r
  {
    hide ScanFrom;
    j :| 0 <= j < |Spans(t)| && Spans(t)[j] == r;
  }

  lemma PrefixSlices(h: string, n: nat, a: nat, b: nat)
    requires a <= b <= n <= |h|
    ensures h[..n][0..a] == h[..a] && h[..n][a..b] == h[a..b]
  {
  }

  lemma RunIsLinked(h: string, ctx: RefContext, j: nat)
    requires h != "" && h[0] != '<' && j < |Spans(h[..TextEnd(h)])|
    ensures var r := Spans(h[..TextEnd(h)])[j];
            r.start < r.end <= TextEnd(h) && LinksSpan(HeadPieces(h, 0, ctx), 4 * j + 1, h, r.start, r.end)
  {
    hide LinksSpan, RunPieces, ScanRefs, TextEnd;
    SpanInRun(h, TextEnd(h), Spans(h[..TextEnd(h)]), ctx, j);
  }

  lemma SpanInRun(h: string, n: nat, refs: seq<Ref>, ctx: RefContext, j: nat)
    requires n <= |h| && Fits(h[..n], refs) && j < |refs|
    ensures LinksSpan(RunPieces(h[..n], refs, 0, ctx), 4 * j + 1, h, refs[j].start, refs[j].end)
    ensures refs[j].start < refs[j].end <= n
  {
    hide RunPieces, OpenTag, KeptText;
    KeptInRun(h[..n], refs, 0, ctx, j);
    OpenTagIsNoClose(refs[j].cref, ctx);
    PrefixSlices(h, n, refs[j].start, refs[j].end);
  }

  lemma SpanInFront(ps: seq<Piece>, more: seq<Piece>, i: nat, h: string, start: nat, end: nat)
    requires LinksSpan(ps, i, h, start, end)
    ensures LinksSpan(ps + more, i, h, start, end)
  {
    hide TextOf;
    assert (ps + more)[..i] == ps[..i];
  }

  lemma SpanBehind(front: seq<Piece>, ps: seq<Piece>, i: nat, h: string, k: nat, start: nat, end: nat)
    requires k <= |h| && KeptText(front) == h[..k] && LinksSpan(ps, i, h[k..], start, end)
    ensures LinksSpan(front + ps, |front| + i, h, k + start, k + end)
  {
    hide TextOf;
    assert (front + ps)[..|front| + i] == front + ps[..i];
    TextOfConcat(front, ps[..i]);
    assert h[..k] + h[k..][..start] == h[..k + start] && h[k..][start..end] == h[k + start..k + end];
  }

  // -- open runs behind a tag and behind text

  lemma InsideATag(h: string, depth: nat, a: nat)
    requires 0 < a <= |h| && h[0] == '<' && '>' !in h[..a]
    ensures PlaceAfter(h[..a], depth) == InTag(depth)
  {
    hide NewDepth;
    assert h[..a][0..] == h[..a];
  }

  lemma PlaceBehindTag(h: string, depth: nat, k: nat, a: nat)
    requires h != "" && h[0] == '<' && Find(h, '>', 0) == Some(k) && k < a <= |h|
    ensures PlaceAfter(h[..a], depth) == PlaceAfter(h[k + 1..][..a - k - 1], NewDepth(depth, h[..k + 1]))
  {
    hide NewDepth, PlaceAfter;
    assert h[..k + 1][..k] == h[0..k] && h[..a] == h[..k + 1] + h[k + 1..][..a - k - 1];
    TagMovesDepth(h[..k + 1], h[k + 1..][..a - k - 1], depth);
  }

  lemma PlaceBehindText(h: string, depth: nat, a: nat)
    requires a <= |h|
    ensures a <= TextEnd(h) ==> PlaceAfter(h[..a], depth) == InText(depth)
    ensures a > TextEnd(h) ==> PlaceAfter(h[..a], depth) == PlaceAfter(h[TextEnd(h)..][..a - TextEnd(h)], depth)
  {
    var e := TextEnd(h);
    if a <= e {
      assert h[..a] + "" == h[..a] && forall c :: c in h[..a] ==> c in h[..e];
      TextMovesNothing(h[..a], "", depth);
    } else {
      assert h[..a] == h[..e] + h[e..][..a - e];
      TextMovesNothing(h[..e], h[e..][..a - e], depth);
    }
  }

  /** A run with something in it stands behind the tag that `h` begins with, as it does in the rest. */
  lemma OpenRunBehindTag(h: string, depth: nat, a: nat, b: nat, k: nat)
    requires h != "" && h[0] == '<' && Find(h, '>', 0) == Some(k) && k + 1 <= a < b
    ensures OpenRun(h, depth, a, b) <==> OpenRun(h[k + 1..], NewDepth(depth, h[..k + 1]), a - k - 1, b - k - 1)
  {
    hide PlaceAfter, NewDepth;
    if b <= |h| {
      var rest := h[k + 1..];
      assert rest[a - k - 1..b - k - 1] == h[a..b] && (b < |h| ==> rest[b - k - 1] == h[b]);
      PlaceBehindTag(h, depth, k, a);
      if a == k + 1 {
        assert h[..k] == h[0..k];
        InsideATag(h, depth, k);
        NothingIsText(rest, NewDepth(depth, h[..k + 1]));
      } else {
        PlaceBehindTag(h, depth, k, a - 1);
      }
    }
  }

  lemma NothingIsText(h: string, depth: nat)
    ensures PlaceAfter(h[..0], depth) == InText(depth)
  {
  }

  lemma OpenRunAfterTagStart(h: string, depth: nat, a: nat, b: nat)
    requires h != "" && h[0] == '<' && OpenRun(h, depth, a, b) && a < b
    ensures Find(h, '>', 0).Some? && Find(h, '>', 0).value < a
  {
    hide PlaceAfter;
    assert h[0..b][0] == '<' && h[0..] == h;
    if Find(h, '>', 0).None? {
      assert forall c :: c in h[..a] ==> c in h;
      InsideATag(h, depth, a);
    } else if a <= Find(h, '>', 0).value {
      assert forall c :: c in h[..a] ==> c in h[0..Find(h, '>', 0).value];
      InsideATag(h, depth, a);
    }
  }

  lemma OpenRunBehindText(h: string, depth: nat, a: nat, b: nat)
    requires h != "" && h[0] != '<' && TextEnd(h) < a < b
    ensures OpenRun(h, depth, a, b) <==> OpenRun(h[TextEnd(h)..], depth, a - TextEnd(h), b - TextEnd(h))
  {
    hide PlaceAfter;
    var e := TextEnd(h);
    if b <= |h| {
      assert h[e..][a - e..b - e] == h[a..b] && (b < |h| ==> h[e..][b - e] == h[b]);
      PlaceBehindText(h, depth, a);
      PlaceBehindText(h, depth, a - 1);
      assert h[e] == '<' && e < a;
      if a - 1 == e { NothingIsText(h[e..], depth); }
    }
  }

  lemma OpenRunInText(h: string, depth: nat, a: nat, b: nat)
    requires h != "" && h[0] != '<' && a <= TextEnd(h) && a < b
    ensures OpenRun(h, depth, a, b) <==> a == 0 && b == TextEnd(h) && depth == 0
  {
    hide PlaceAfter;
    PlaceBehindText(h, depth, a);
    if a > 0 { PlaceBehindText(h, depth, a - 1); }
    if a == 0 && b <= |h| {
      assert h[0..b] == h[..b];
      if b < TextEnd(h) { assert h[..TextEnd(h)][b] == h[b]; }
      if b > TextEnd(h) { assert h[..b][TextEnd(h)] == '<'; }
    }
  }

  lemma SpanBehindTag(h: string, depth: nat, ctx: RefContext, k: nat, i: nat, start: nat, end: nat)
    requires h != "" && h[0] == '<' && Find(h, '>', 0) == Some(k)
    requires LinksSpan(Pieces(h[k + 1..], NewDepth(depth, h[..k + 1]), ctx), i, h[k + 1..], start, end)
    ensures LinksSpan(Pieces(h, depth, ctx), i + 1, h, k + 1 + start, k + 1 + end)
  {
    hide *;
    OnePiece(Kept(h[..k + 1]));
    PiecesOfTag(h, depth, ctx, k);
    SpanBehind([Kept(h[..k + 1])], Pieces(h[k + 1..], NewDepth(depth, h[..k + 1]), ctx), i, h, k + 1, start, end);
  }

  lemma SpanBehindText(h: string, depth: nat, ctx: RefContext, i: nat, start: nat, end: nat)
    requires h != "" && h[0] != '<'
    requires LinksSpan(Pieces(h[TextEnd(h)..], depth, ctx), i, h[TextEnd(h)..], start, end)
    ensures LinksSpan(Pieces(h, depth, ctx), |HeadPieces(h, depth, ctx)| + i, h, TextEnd(h) + start, TextEnd(h) + end)
  {
    hide *;
    HeadPiecesText(h, depth, ctx);
    PiecesOfText(h, depth, ctx);
    SpanBehind(HeadPieces(h, depth, ctx), Pieces(h[TextEnd(h)..], depth, ctx), i, h, TextEnd(h), start, end);
  }

  lemma ReferenceInText(h: string, ctx: RefContext, r: Ref) returns (i: nat)
    requires h != "" && h[0] != '<' && r in ScanRefs(h[..TextEnd(h)])
    ensures LinksSpan(Pieces(h, 0, ctx), i, h, r.start, r.end)
  {
    hide *;
    var j := SpanIndex(h[..TextEnd(h)], r);
    RunIsLinked(h, ctx, j);
    i := 4 * j + 1;
    PiecesOfText(h, 0, ctx);
    SpanInFront(HeadPieces(h, 0, ctx), Pieces(h[TextEnd(h)..], 0, ctx), i, h, r.start, r.end);
  }

  ghost predicate Occurs(h: string, a: nat, t: string) {
    a + |t| <= |h| && h[a..a + |t|] == t
  }

  /** `t` stands at `a` in `h`, is the text between two tags, or at an end of `h`, and at depth 0. */
  ghost predicate TextRun(h: string, depth: nat, a: nat, t: string) {
    Occurs(h, a, t) && OpenRun(h, depth, a, a + |t|)
  }

  lemma OccursBehind(h: string, k: nat, a: nat, a': nat, t: string)
    requires k <= |h| && a == k + a'
    ensures Occurs(h, a, t) <==> Occurs(h[k..], a', t)
  {
    if a + |t| <= |h| { assert h[k..][a'..a' + |t|] == h[a..a + |t|]; }
  }

  lemma RunAt(h: string, depth: nat, a: nat, t: string)
    ensures TextRun(h, depth, a, t) <==> Occurs(h, a, t) && OpenRun(h, depth, a, a + |t|)
  {
    hide OpenRun, Occurs;
  }

  lemma TextRunBehindTag(h: string, depth: nat, a: nat, t: string, k: nat)
    requires h != "" && h[0] == '<' && Find(h, '>', 0) == Some(k) && t != "" && k + 1 <= a
    ensures TextRun(h, depth, a, t) <==> TextRun(h[k + 1..], NewDepth(depth, h[..k + 1]), a - k - 1, t)
  {
    hide *;
    var a', rest, d := a - k - 1, h[k + 1..], NewDepth(depth, h[..k + 1]);
    OpenRunBehindTag(h, depth, a, a + |t|, k);
    assert a + |t| - k - 1 == a' + |t|;
    SameRun(h, depth, a, rest, d, k + 1, a', t);
  }

  lemma SameRun(h: string, depth: nat, a: nat, rest: string, depth': nat, k: nat, a': nat, t: string)
    requires k <= |h| && a == k + a' && rest == h[k..]
    requires OpenRun(h, depth, a, a + |t|) <==> OpenRun(rest, depth', a', a' + |t|)
    ensures TextRun(h, depth, a, t) <==> TextRun(rest, depth', a', t)
  {
    hide *;
    OccursBehind(h, k, a, a', t);
    RunAt(h, depth, a, t);
    RunAt(rest, depth', a', t);
  }

  lemma TextRunAfterTagStart(h: string, depth: nat, a: nat, t: string)
    requires h != "" && h[0] == '<' && t != "" && TextRun(h, depth, a, t)
    ensures Find(h, '>', 0).Some? && Find(h, '>', 0).value < a
  {
    hide OpenRun;
    OpenRunAfterTagStart(h, depth, a, a + |t|);
  }

  lemma TextRunBehindText(h: string, depth: nat, a: nat, t: string)
    requires h != "" && h[0] != '<' && t != "" && TextEnd(h) < a
    ensures TextRun(h, depth, a, t) <==> TextRun(h[TextEnd(h)..], depth, a - TextEnd(h), t)
  {
    hide *;
    var e := TextEnd(h);
    var a', rest := a - e, h[e..];
    OpenRunBehindText(h, depth, a, a + |t|);
    assert a + |t| - e == a' + |t|;
    SameRun(h, depth, a, rest, depth, e, a', t);
  }

  lemma TextRunInText(h: string, depth: nat, a: nat, t: string)
    requires h != "" && h[0] != '<' && t != "" && a <= TextEnd(h)
    ensures TextRun(h, depth, a, t) <==> a == 0 && t == h[..TextEnd(h)] && depth == 0
  {
    OpenRunInText(h, depth, a, a + |t|);
    hide OpenRun;
    assert h[0..TextEnd(h)] == h[..TextEnd(h)];
  }

  lemma NothingToScan(t: string, r: Ref)
    requires r in ScanRefs(t)
    ensures t != ""
  {
    SpanFits(t, r);
  }

  lemma RunsAreSomewhere(h: string, depth: nat, a: nat, t: string)
    requires t != "" && TextRun(h, depth, a, t)
    ensures h != ""
  {
  }

  /** Each reference of a run between tags at depth 0 is linked where it stands. */
  lemma {:induction false} ReferencesAreLinked(h: string, depth: nat, ctx: RefContext, a: nat, t: string, r: Ref)
    returns (i: nat)
    requires TextRun(h, depth, a, t) && r in ScanRefs(t)
    ensures LinksSpan(Pieces(h, depth, ctx), i, h, a + r.start, a + r.end)
    decreases |h|
  {
    hide *;
    NothingToScan(t, r);
    RunsAreSomewhere(h, depth, a, t);
    if h[0] == '<' {
      TextRunAfterTagStart(h, depth, a, t);
      var k := Find(h, '>', 0).value;
      TextRunBehindTag(h, depth, a, t, k);
      i := ReferencesAreLinked(h[k + 1..], NewDepth(depth, h[..k + 1]), ctx, a - k - 1, t, r);
      SpanBehindTag(h, depth, ctx, k, i, a - k - 1 + r.start, a - k - 1 + r.end);
      i := i + 1;
    } else if a <= TextEnd(h) {
      TextRunInText(h, depth, a, t);
      i := ReferenceInText(h, ctx, r);
    } else {
      TextRunBehindText(h, depth, a, t);
      TextIsNotEmpty(h);
      i := ReferencesAreLinked(h[TextEnd(h)..], depth, ctx, a - TextEnd(h), t, r);
      SpanBehindText(h, depth, ctx, i, a - TextEnd(h) + r.start, a - TextEnd(h) + r.end);
      i := |HeadPieces(h, depth, ctx)| + i;
    }
  }

  lemma {:induction false} OpeningTagsOfRun(t: string, refs: seq<Ref>, k: nat, ctx: RefContext, i: nat) returns (j: nat)
    requires Fits(t, refs) && k <= |refs| && i < |RunPieces(t, refs, k, ctx)|
    requires RunPieces(t, refs, k, ctx)[i].Inserted? && RunPieces(t, refs, k, ctx)[i].text != "</a>"
    ensures k <= j < |refs| && i == 4 * (j - k) + 1
    decreases |refs| - k
  {
    hide OpenTag, Gap, Token, RunPieces;
    if k == |refs| {
      LastPiece(t, refs, ctx);
    } else {
      RunPiecesUnfold(t, refs, k, ctx);
      j := k;
      if i >= 4 { j := OpeningTagsOfRun(t, refs, k + 1, ctx, i - 4); }
    }
  }

  /** Each link is that of a reference of such a run. */
  lemma {:induction false} LinksAreOfReferences(h: string, depth: nat, ctx: RefContext, i: nat)
    returns (a: nat, t: string, r: Ref)
    requires i < |Pieces(h, depth, ctx)| && Pieces(h, depth, ctx)[i].Inserted?
    requires Pieces(h, depth, ctx)[i].text != "</a>"
    ensures TextRun(h, depth, a, t) && r in ScanRefs(t) && t != ""
    ensures LinksSpan(Pieces(h, depth, ctx), i, h, a + r.start, a + r.end)
    decreases |h|
  {
    NoPiecesOfNothing(depth, ctx);
    UnclosedIsKept(h, depth, ctx);
    hide *;
    if h[0] == '<' {
      var k := Find(h, '>', 0).value;
      var rest, d := h[k + 1..], NewDepth(depth, h[..k + 1]);
      PiecesOfTag(h, depth, ctx, k);
      a, t, r := LinksAreOfReferences(rest, d, ctx, i - 1);
      SpanBehindTag(h, depth, ctx, k, i - 1, a + r.start, a + r.end);
      a := a + k + 1;
      TextRunBehindTag(h, depth, a, t, k);
    } else {
      PiecesOfText(h, depth, ctx);
      var run, e := HeadPieces(h, depth, ctx), TextEnd(h);
      var more := Pieces(h[e..], depth, ctx);
      if i < |run| {
        t, r := LinksOfHead(h, depth, ctx, i);
        a := 0;
        SpanInFront(run, more, i, h, r.start, r.end);
      } else {
        TextIsNotEmpty(h);
        a, t, r := LinksAreOfReferences(h[e..], depth, ctx, i - |run|);
        SpanBehindText(h, depth, ctx, i - |run|, a + r.start, a + r.end);
        TailStartsATag(h, depth, a, t);
        a := a + e;
        TextRunBehindText(h, depth, a, t);
      }
    }
  }

  lemma TailStartsATag(h: string, depth: nat, a: nat, t: string)
    requires h != "" && TextRun(h[TextEnd(h)..], depth, a, t) && t != ""
    ensures a > 0
  {
    hide PlaceAfter;
    var tail := h[TextEnd(h)..];
    assert tail[0..|t|][0] == tail[0] == h[TextEnd(h)];
  }

  lemma LinksOfHead(h: string, depth: nat, ctx: RefContext, i: nat) returns (t: string, r: Ref)
    requires h != "" && h[0] != '<' && i < |HeadPieces(h, depth, ctx)| && HeadPieces(h, depth, ctx)[i].Inserted?
    requires HeadPieces(h, depth, ctx)[i].text != "</a>"
    ensures TextRun(h, depth, 0, t) && r in ScanRefs(t) && t != ""
    ensures LinksSpan(HeadPieces(h, depth, ctx), i, h, r.start, r.end)
  {
    hide RunPieces, ScanRefs, OpenRun, LinksSpan, TextRun;
    t := h[..TextEnd(h)];
    var j := OpeningTagsOfRun(t, Spans(t), 0, ctx, i);
    RunIsLinked(h, ctx, j);
    r := Spans(t)[j];
    TextIsNotEmpty(h);
    TextRunInText(h, depth, 0, t);
  }

  /** Some link of the result is that of the token `h[start..end]`. */
  ghost predicate IsLinked(h: string, ctx: RefContext, start: nat, end: nat) {
    exists i: nat :: LinksSpan(Pieces(h, 0, ctx), i, h, start, end)
  }

  /** The token `h[start..end]` is the reference `r` of the run `t` at `a`. */
  ghost predicate ReferenceOf(h: string, a: nat, t: string, r: Ref, start: nat, end: nat) {
    TextRun(h, 0, a, t) && r in ScanRefs(t) && start == a + r.start && end == a + r.end
  }

  /**
   The linkifier links exactly the references: a token of the HTML is wrapped in a link
   if and only if it is a reference of the text between two tags and that text stands
   outside anchors and code.
   */
  lemma LinkedExactlyWhereReferencesStand(h: string, ctx: RefContext, start: nat, end: nat)
    ensures IsLinked(h, ctx, start, end) <==> exists a: nat, t, r :: ReferenceOf(h, a, t, r, start, end)
  {
    hide TextRun, LinksSpan, ScanRefs, Pieces;
    if IsLinked(h, ctx, start, end) {
      var i: nat :| LinksSpan(Pieces(h, 0, ctx), i, h, start, end);
      SpanIsAnOpening(Pieces(h, 0, ctx), i, h, start, end);
      var a, t, r := LinksAreOfReferences(h, 0, ctx, i);
      OneSpanPerLink(Pieces(h, 0, ctx), i, h, start, end, a + r.start, a + r.end);
      assert ReferenceOf(h, a, t, r, start, end);
    }
    if a: nat, t, r :| ReferenceOf(h, a, t, r, start, end) {
      var i := ReferencesAreLinked(h, 0, ctx, a, t, r);
    }
  }

  lemma SpanIsAnOpening(ps: seq<Piece>, i: nat, h: string, start: nat, end: nat)
    requires LinksSpan(ps, i, h, start, end)
    ensures i < |ps| && ps[i].Inserted? && ps[i].text != "</a>"
  {
  }

  lemma OneSpanPerLink(ps: seq<Piece>, i: nat, h: string, start: nat, end: nat, start': nat, end': nat)
    requires LinksSpan(ps, i, h, start, end) && LinksSpan(ps, i, h, start', end')
    ensures start == start' && end == end'
  {
    hide TextOf;
    assert |h[..start]| == start && |h[..start']| == start';
    assert |h[start..end]| == end - start && |h[start'..end']| == end' - start';
  }

  // ------------------------------------------------------------------------ tags

  /** The same word but for the case of its letters. */
  predicate SpelledLike(name: string, word: string) {
    |name| == |word| && forall i :: 0 <= i < |name| ==>
      name[i] == word[i] || ('A' <= name[i] <= 'Z' && name[i] as int + 32 == word[i] as int)
  }

  lemma CharSpells(c: char, w: char)
    requires !('A' <= w <= 'Z')
    ensures ToLower(c) == w <==> c == w || ('A' <= c <= 'Z' && c as int + 32 == w as int)
  {
  }

  lemma {:induction false} LowerAt(s: string, i: nat)
    requires i < |s|
    ensures AsciiLower(s)[i] == ToLower(s[i])
  {
    if i > 0 { LowerAt(s[1..], i - 1); }
  }

  lemma LowerSpells(name: string, word: string)
    requires forall c :: c in word ==> !('A' <= c <= 'Z')
    ensures AsciiLower(name) == word <==> SpelledLike(name, word)
  {
    hide AsciiLower, ToLower;
    if |name| == |word| {
      forall i | 0 <= i < |name|
        ensures AsciiLower(name)[i] == word[i]
                <==> name[i] == word[i] || ('A' <= name[i] <= 'Z' && name[i] as int + 32 == word[i] as int)
      {
        LowerAt(name, i);
        assert word[i] in word;
        CharSpells(name[i], word[i]);
      }
    }
  }

  /** Trimming at the end keeps everything up to a character that stays. */
  lemma {:induction false} TrimEndKeeps(s: string, p: char -> bool, k: nat)
    requires 0 < k <= |s| && !p(s[k - 1])
    ensures s[..k] <= TrimEndMatches(s, p) <= s
    decreases |s|
  {
    if k < |s| && p(s[|s| - 1]) {
      TrimEndKeeps(s[..|s| - 1], p, k);
      assert s[..|s| - 1][..k] == s[..k];
    }
  }

  lemma {:induction false} FirstWordIs(name: string, rest: string)
    requires forall c :: c in name ==> !IsWhitespace(c)
    requires rest != "" ==> IsWhitespace(rest[0])
    ensures FirstWord(name + rest) == name
  {
    if name == "" {
      assert name + rest == rest;
    } else {
      assert name[0] in name && forall c :: c in name[1..] ==> c in name;
      assert (name + rest)[1..] == name[1..] + rest;
      FirstWordIs(name[1..], rest);
    }
  }

  predicate Word(name: string) {
    name != "" && forall c :: c in name ==> '0' <= c <= '9' || 'a' <= c <= 'z' || 'A' <= c <= 'Z'
  }

  /** What may stand between the name of a tag and its `>`. */
  predicate Attributes(attrs: string) {
    attrs == "" || attrs == "/" || IsWhitespace(attrs[0])
  }

  /** Trimming the end of `core + w` keeps `core` and a beginning of `w`. */
  lemma TrimmedEnd(core: string, w: string, p: char -> bool) returns (v: string)
    requires core != "" && !p(core[|core| - 1])
    ensures TrimEndMatches(core + w, p) == core + v && v <= w
    ensures v != "" ==> !p(v[|v| - 1])
  {
    var s := TrimEndMatches(core + w, p);
    assert (core + w)[..|core|] == core;
    TrimEndKeeps(core + w, p, |core|);
    v := s[|core|..];
    assert s == core + v;
  }

  /** Trimming `core + w` on both sides takes away only from `w`. */
  lemma TrimmedBoth(core: string, w: string) returns (v: string)
    requires core != "" && !IsWhitespace(core[0]) && !IsWhitespace(core[|core| - 1])
    ensures Trim(core + w) == core + v && v <= w
  {
    assert TrimStartMatches(core + w, IsWhitespace) == core + w;
    v := TrimmedEnd(core, w, IsWhitespace);
  }

  /** What is left of a tag without its brackets: the name and whole attributes, if any. */
  lemma WithoutOpening(core: string, attrs: string)
    requires core != "" && core[0] != '<'
    ensures TrimStartMatches("<" + core + attrs + ">", IsLess) == core + (attrs + ">")
  {
    var tag, tail := "<" + core + attrs + ">", core + (attrs + ">");
    assert tag[1..] == tail && tag[0] == '<';
    assert TrimStartMatches(tail, IsLess) == tail;
  }

  lemma InnerOf(core: string, attrs: string) returns (v: string)
    requires core != "" && core[0] != '<' && !IsWhitespace(core[0]) && IsAlphanumeric(core[|core| - 1])
    requires Attributes(attrs)
    ensures Trim(TrimEndMatches(TrimEndMatches(TrimStartMatches("<" + core + attrs + ">", IsLess), IsGreater), IsSlash))
            == core + v
    ensures v != "" ==> IsWhitespace(v[0])
  {
    hide TrimStartMatches, TrimEndMatches, Trim;
    var tail := attrs + ">";
    WithoutOpening(core, attrs);
    var a := TrimmedEnd(core, tail, IsGreater);
    var b := TrimmedEnd(core, a, IsSlash);
    v := TrimmedBoth(core, b);
    if v != "" {
      assert v[0] == b[0] == a[0] == tail[0];
      assert attrs == "" ==> a == tail;
    }
  }

  /**
   A tag `<name ...>` or `</name ...>` opens or closes a stretch that is left alone exactly
   when its name is `a`, `code` or `pre`, in any case; `<abbr>` and `<article>` do not.
   */
  lemma TagSkipsExactly(closing: bool, name: string, attrs: string, depth: nat)
    requires Word(name) && Attributes(attrs)
    ensures var tag := (if closing then "</" else "<") + name + attrs + ">";
            NewDepth(depth, tag)
            == if !(SpelledLike(name, "a") || SpelledLike(name, "code") || SpelledLike(name, "pre")) then depth
               else if !closing then depth + 1
               else if depth == 0 then 0 else depth - 1
  {
    var slash := if closing then "/" else "";
    var tag, core := (if closing then "</" else "<") + name + attrs + ">", slash + name;
    hide *;
    NoSpacesInWords(name);
    CoreEnds(slash, name);
    var v := InnerOf(core, attrs);
    assert tag == "<" + core + attrs + ">";
    if closing {
      var w := TrimmedBoth(name, v);
      assert (core + v)[1..] == name + v && (core + v)[0] == '/';
      EffectOfName(tag, core + v, name, w);
    } else {
      assert core == name;
      EffectOfName(tag, core + v, name, v);
    }
    DepthUnfolds(depth, tag);
  }

  lemma DepthUnfolds(depth: nat, tag: string)
    ensures NewDepth(depth, tag) == if depth + SkipTagEffect(tag) < 0 then 0 else depth + SkipTagEffect(tag)
  {
    hide SkipTagEffect;
  }

  lemma NoSpacesInWords(name: string)
    requires Word(name)
    ensures name != "" && name[0] != '/' && name[0] != '<' && forall c :: c in name ==> !IsWhitespace(c) && IsAlphanumeric(c)
    ensures !IsWhitespace(name[0]) && !IsWhitespace(name[|name| - 1]) && IsAlphanumeric(name[|name| - 1])
  {
    assert name[0] in name && name[|name| - 1] in name;
  }

  lemma CoreEnds(slash: string, name: string)
    requires (slash == "" || slash == "/") && name != ""
    requires !IsWhitespace(name[0]) && name[0] != '<'
    ensures var core := slash + name;
            core[0] != '<' && !IsWhitespace(core[0]) && core[|core| - 1] == name[|name| - 1]
  {
  }

  lemma EffectUnfolds(tag: string, inner: string, rest: string)
    requires inner == Trim(TrimEndMatches(TrimEndMatches(TrimStartMatches(tag, IsLess), IsGreater), IsSlash))
    requires inner != "" && rest == if inner[0] == '/' then Trim(inner[1..]) else inner
    ensures var lower := AsciiLower(FirstWord(rest));
            SkipTagEffect(tag)
            == if lower == "a" || lower == "code" || lower == "pre" then (if inner[0] == '/' then -1 else 1) else 0
  {
    hide Trim, TrimEndMatches, TrimStartMatches, FirstWord, AsciiLower;
  }

  lemma EffectOfName(tag: string, inner: string, name: string, w: string)
    requires inner == Trim(TrimEndMatches(TrimEndMatches(TrimStartMatches(tag, IsLess), IsGreater), IsSlash))
    requires inner != "" && Word(name) && (w != "" ==> IsWhitespace(w[0]))
    requires name + w == if inner[0] == '/' then Trim(inner[1..]) else inner
    ensures SkipTagEffect(tag)
            == if !(SpelledLike(name, "a") || SpelledLike(name, "code") || SpelledLike(name, "pre")) then 0
               else if inner[0] == '/' then -1 else 1
  {
    hide *;
    EffectUnfolds(tag, inner, name + w);
    NoSpacesInWords(name);
    FirstWordIs(name, w);
    LowerSpells(name, "a");
    LowerSpells(name, "code");
    LowerSpells(name, "pre");
  }
}
