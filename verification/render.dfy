/**
 The linkifier: one pass over rendered HTML that turns cross-references in text
 runs into links, leaving tags and the inside of `<a>`, `<code>`, `<pre>` alone.
 */
module Render {
  import opened Prelude
  import opened Text
  import opened CrossRef

  /** The repository a body belongs to. */
  datatype RefContext = RefContext(owner: string, repo: string)

  function Decimal(n: nat): string {
    if n < 10 then [DigitChar(n)] else Decimal(n / 10) + [DigitChar(n % 10)]
  }

  function DigitChar(d: nat): char
    requires d < 10
  {
    '0' + d as char
  }

  function HrefFor(cref: CrossReference, ctx: RefContext): string {
    var (owner, repo) := if cref.repository.Some? then cref.repository.value else (ctx.owner, ctx.repo);
    "/" + owner + "/" + repo + "/issues/" + Decimal(cref.number)
  }

  function FirstWord(s: string): string {
    if s == "" || IsWhitespace(s[0]) then "" else [s[0]] + FirstWord(s[1..])
  }

  predicate IsLess(c: char) { c == '<' }
  predicate IsGreater(c: char) { c == '>' }
  predicate IsSlash(c: char) { c == '/' }

  /** `+1` for an opening `<a>`, `<code>` or `<pre>`, `-1` for its close, `0` for anything else. */
  function SkipTagEffect(tag: string): int {
    var inner := Trim(TrimEndMatches(TrimEndMatches(TrimStartMatches(tag, IsLess), IsGreater), IsSlash));
    var closing := inner != "" && inner[0] == '/';
    var rest := if closing then Trim(inner[1..]) else inner;
    if AsciiLower(FirstWord(rest)) in ["a", "code", "pre"] then (if closing then -1 else 1) else 0
  }

  function NewDepth(depth: nat, tag: string): nat {
    Max(depth + SkipTagEffect(tag), 0)
  }

  // ------------------------------------------------------------------- text runs

  ghost predicate Fits(t: string, refs: seq<Ref>) {
    && (forall k :: 0 <= k < |refs| ==> refs[k].start < refs[k].end <= |t|)
    && (forall k :: 1 <= k < |refs| ==> refs[k - 1].end <= refs[k].start)
  }

  /** The text before the `k`-th span: the last gap ends where the text ends. */
  function Gap(t: string, refs: seq<Ref>, k: nat): string
    requires Fits(t, refs) && k <= |refs|
  {
    t[if k == 0 then 0 else refs[k - 1].end..if k == |refs| then |t| else refs[k].start]
  }

  function Token(t: string, refs: seq<Ref>, k: nat): string
    requires Fits(t, refs) && k < |refs|
  {
    t[refs[k].start..refs[k].end]
  }

  function OpenTag(cref: CrossReference, ctx: RefContext): string {
    "<a href=\"" + HrefFor(cref, ctx) + "\">"
  }

  const CLOSE_TAG := "</a>"

  function Link(t: string, refs: seq<Ref>, k: nat, ctx: RefContext): string
    requires Fits(t, refs) && k < |refs|
  {
    OpenTag(refs[k].cref, ctx) + Token(t, refs, k) + CLOSE_TAG
  }

  /** The rewritten text from the `k`-th gap on. */
  function LinkFrom(t: string, refs: seq<Ref>, k: nat, ctx: RefContext): string
    requires Fits(t, refs) && k <= |refs|
    decreases |refs| - k
  {
    Gap(t, refs, k) + if k == |refs| then "" else Link(t, refs, k, ctx) + LinkFrom(t, refs, k + 1, ctx)
  }

  lemma {:induction false} OrderedFits(t: string, refs: seq<Ref>, lo: nat)
    requires Ordered(refs, lo, |t|)
    ensures Fits(t, refs)
    ensures refs != [] ==> lo <= refs[0].start
    decreases |refs|
  {
    if refs != [] {
      OrderedFits(t, refs[1..], refs[0].end);
      forall k | 0 <= k < |refs| ensures refs[k].start < refs[k].end <= |t| {
        if k > 0 { assert refs[1..][k - 1] == refs[k]; }
      }
      forall k | 1 <= k < |refs| ensures refs[k - 1].end <= refs[k].start {
        assert refs[1..][k - 1] == refs[k];
        if k > 1 { assert refs[1..][k - 2] == refs[k - 1]; }
      }
    }
  }

  /** The spans of a scan satisfy what the slicing of the rewrite needs. */
  function Spans(t: string): (refs: seq<Ref>)
    ensures Fits(t, refs)
  {
    SpansAreOrdered(t, 0, START);
    OrderedFits(t, ScanRefs(t), 0);
    ScanRefs(t)
  }

  function LinkifyText(t: string, ctx: RefContext): string {
    LinkFrom(t, Spans(t), 0, ctx)
  }

  method LinkifyTextRun(t: string, ctx: RefContext) returns (out: string)
    ensures out == LinkifyText(t, ctx)
  {
    var spans := ScanRefsLoop(t);
    ghost var refs := Spans(t);
    if spans == [] {
      return t;
    }
    out := "";
    var cursor := 0;
    hide ScanRefs, HrefFor, LinkFrom;
    LastGap(t, refs, ctx);
    for k := 0 to |spans|
      invariant cursor == if k == 0 then 0 else spans[k - 1].end
      invariant out + LinkFrom(t, refs, k, ctx) == LinkifyText(t, ctx)
    {
      var gap, token := t[cursor..spans[k].start], t[spans[k].start..spans[k].end];
      var link := "<a href=\"" + HrefFor(spans[k].cref, ctx) + "\">" + token + "</a>";
      LinkStep(t, refs, k, ctx, out);
      out := out + gap + link;
      cursor := spans[k].end;
    }
    out := out + t[cursor..];
  }

  lemma LastGap(t: string, refs: seq<Ref>, ctx: RefContext)
    requires Fits(t, refs)
    ensures LinkFrom(t, refs, |refs|, ctx) == t[if refs == [] then 0 else refs[|refs| - 1].end..]
  {
  }

  lemma LinkStep(t: string, refs: seq<Ref>, k: nat, ctx: RefContext, out: string)
    requires Fits(t, refs) && k < |refs|
    ensures out + LinkFrom(t, refs, k, ctx)
            == out + Gap(t, refs, k) + Link(t, refs, k, ctx) + LinkFrom(t, refs, k + 1, ctx)
  {
    hide Gap, Link;
    Associate(out, Gap(t, refs, k), Link(t, refs, k, ctx) + LinkFrom(t, refs, k + 1, ctx));
    Associate(out + Gap(t, refs, k), Link(t, refs, k, ctx), LinkFrom(t, refs, k + 1, ctx));
  }

  lemma Associate(a: string, b: string, c: string)
    ensures a + (b + c) == a + b + c
  {
  }

  // ------------------------------------------------------------------- the pass

  function TextEnd(h: string): (k: nat)
    ensures k <= |h| && '<' !in h[..k]
    ensures k < |h| ==> h[k] == '<'
  {
    match Find(h, '<', 0)
    case Some(k) => assert h[0..k] == h[..k]; k
    case None => assert h[0..] == h[..|h|]; |h|
  }

  /** The rest of the pass over `h`, entered at skip depth `depth`. */
  function LinkifyFrom(h: string, depth: nat, ctx: RefContext): string
    decreases |h|
  {
    if h == "" then ""
    else if h[0] == '<' then
      match Find(h, '>', 0)
      case None => h
      case Some(k) => h[..k + 1] + LinkifyFrom(h[k + 1..], NewDepth(depth, h[..k + 1]), ctx)
    else
      var k := TextEnd(h);
      (if depth == 0 then LinkifyText(h[..k], ctx) else h[..k]) + LinkifyFrom(h[k..], depth, ctx)
  }

  function Linkify(html: string, ctx: RefContext): string {
    LinkifyFrom(html, 0, ctx)
  }

  method LinkifyCrossReferences(html: string, ctx: RefContext) returns (out: string)
    ensures out == Linkify(html, ctx)
  {
    hide LinkifyText, NewDepth, LinkifyFrom, Find, TextEnd;
    EndUnfolds(ctx);
    out := "";
    var i := 0;
    var skipDepth := 0;
    while i < |html|
      invariant 0 <= i <= |html|
      invariant out + LinkifyFrom(html[i..], skipDepth, ctx) == Linkify(html, ctx)
      decreases |html| - i
    {
      var rest := html[i..];
      if rest[0] == '<' {
        var end := Find(rest, '>', 0);
        if end.None? {
          UnclosedUnfolds(rest, skipDepth, ctx);
          out := out + rest;
          return;
        }
        var tag := rest[..end.value + 1];
        TagUnfolds(rest, skipDepth, ctx, end.value);
        DropDrop(html, i, end.value + 1);
        skipDepth := NewDepth(skipDepth, tag);
        Associate(out, tag, LinkifyFrom(html[i + end.value + 1..], skipDepth, ctx));
        out := out + tag;
        i := i + end.value + 1;
        continue;
      }
      var k := TextEnd(rest);
      var text := rest[..k];
      TextUnfolds(rest, skipDepth, ctx);
      DropDrop(html, i, k);
      if skipDepth == 0 {
        text := LinkifyTextRun(text, ctx);
      }
      Associate(out, text, LinkifyFrom(html[i + k..], skipDepth, ctx));
      out := out + text;
      i := i + k;
    }
    assert html[i..] == "";
  }

  lemma DropDrop(h: string, i: nat, j: nat)
    requires i + j <= |h|
    ensures h[i..][j..] == h[i + j..]
  {
  }

  lemma EndUnfolds(ctx: RefContext)
    ensures forall depth :: LinkifyFrom("", depth, ctx) == ""
  {
  }

  lemma UnclosedUnfolds(h: string, depth: nat, ctx: RefContext)
    requires h != "" && h[0] == '<' && Find(h, '>', 0).None?
    ensures LinkifyFrom(h, depth, ctx) == h
  {
  }

  lemma TagUnfolds(h: string, depth: nat, ctx: RefContext, k: nat)
    requires h != "" && h[0] == '<' && Find(h, '>', 0) == Some(k)
    ensures LinkifyFrom(h, depth, ctx)
            == h[..k + 1] + LinkifyFrom(h[k + 1..], NewDepth(depth, h[..k + 1]), ctx)
  {
  }

  lemma TextUnfolds(h: string, depth: nat, ctx: RefContext)
    requires h != "" && h[0] != '<'
    ensures TextEnd(h) > 0
    ensures LinkifyFrom(h, depth, ctx)
            == (if depth == 0 then LinkifyText(h[..TextEnd(h)], ctx) else h[..TextEnd(h)])
               + LinkifyFrom(h[TextEnd(h)..], depth, ctx)
  {
  }
}
