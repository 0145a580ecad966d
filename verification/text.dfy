/** The character classes and string operations the parsers are written with. */
module Text {
  import opened Prelude

  predicate IsDigit(c: char) {
    '0' <= c <= '9'
  }

  predicate IsAlphanumeric(c: char) {
    IsDigit(c) || 'a' <= c <= 'z' || 'A' <= c <= 'Z'
  }

  /** The Unicode property White_Space. */
  predicate IsWhitespace(c: char) {
    || '\t' <= c <= '\r' || c == ' ' || c == '\U{0085}' || c == '\U{00A0}' || c == '\U{1680}'
    || '\U{2000}' <= c <= '\U{200A}' || c == '\U{2028}' || c == '\U{2029}' || c == '\U{202F}'
    || c == '\U{205F}' || c == '\U{3000}'
  }

  lemma WhiteSpaceByNumber(c: char)
    ensures IsWhitespace(c) <==> c as int in {
              0x9, 0xA, 0xB, 0xC, 0xD, 0x20, 0x85, 0xA0, 0x1680, 0x2000, 0x2001, 0x2002, 0x2003, 0x2004, 0x2005, 0x2006,
              0x2007, 0x2008, 0x2009, 0x200A, 0x2028, 0x2029, 0x202F, 0x205F, 0x3000}
  {
  }

  predicate IsSpace(c: char) {
    c == ' '
  }

  predicate NotNewline(c: char) {
    c != '\n'
  }

  function ToLower(c: char): char {
    if 'A' <= c <= 'Z' then c - 'A' + 'a' else c
  }

  function AsciiLower(s: string): (r: string)
    ensures |r| == |s|
  {
    if s == "" then "" else [ToLower(s[0])] + AsciiLower(s[1..])
  }

  /** The end of the run of characters satisfying `p` that starts at `i`. */
  function RunEnd(t: string, i: nat, p: char -> bool): (e: nat)
    requires i <= |t|
    ensures i <= e <= |t|
    ensures forall k :: i <= k < e ==> p(t[k])
    ensures e < |t| ==> !p(t[e])
    decreases |t| - i
  {
    if i < |t| && p(t[i]) then RunEnd(t, i + 1, p) else i
  }

  lemma RunEndIs(t: string, i: nat, p: char -> bool, e: nat)
    requires i <= e <= |t|
    requires forall k :: i <= k < e ==> p(t[k])
    requires e < |t| ==> !p(t[e])
    ensures RunEnd(t, i, p) == e
  {
  }

  /** A run inside a slice ends where it ends in the whole text, or at the slice's end. */
  lemma RunEndInSlice(t: string, lo: nat, hi: nat, i: nat, p: char -> bool)
    requires lo <= lo + i <= hi <= |t|
    ensures RunEnd(t[lo..hi], i, p) == Min(RunEnd(t, lo + i, p), hi) - lo
    ensures RunEnd(t[lo..hi], i, p) < hi - lo ==> RunEnd(t, lo + i, p) == lo + RunEnd(t[lo..hi], i, p)
  {
    var e := Min(RunEnd(t, lo + i, p), hi) - lo;
    forall k | i <= k < e ensures p(t[lo..hi][k]) {
      assert t[lo..hi][k] == t[lo + k];
    }
    RunEndIs(t[lo..hi], i, p, e);
  }

  lemma SliceOfSlice<T>(t: seq<T>, lo: nat, hi: nat, a: nat, b: nat)
    requires lo <= hi <= |t| && a <= b <= hi - lo
    ensures t[lo..hi][a..b] == t[lo + a..lo + b]
  {
    var s := t[lo..hi];
    forall k | 0 <= k < b - a ensures s[a..b][k] == t[lo + a..lo + b][k] {
      assert s[a + k] == t[lo + a + k];
    }
  }

  /** The first position of `c` at or after `i`. */
  function Find(t: string, c: char, i: nat): (r: Option<nat>)
    requires i <= |t|
    ensures r.Some? ==> i <= r.value < |t| && t[r.value] == c && c !in t[i..r.value]
    ensures r.None? ==> c !in t[i..]
    decreases |t| - i
  {
    if i == |t| then None
    else if t[i] == c then Some(i)
    else Find(t, c, i + 1)
  }

  lemma FindIs(t: string, c: char, i: nat, k: nat)
    requires i <= k < |t| && t[k] == c && c !in t[i..k]
    ensures Find(t, c, i) == Some(k)
    decreases k - i
  {
    if i < k {
      assert t[i..k][0] == t[i] && t[i + 1..k] == t[i..k][1..];
      FindIs(t, c, i + 1, k);
    }
  }

  function TrimStartMatches(s: string, p: char -> bool): (r: string)
    ensures |r| <= |s|
    ensures r != "" ==> !p(r[0])
  {
    if s != "" && p(s[0]) then TrimStartMatches(s[1..], p) else s
  }

  function TrimEndMatches(s: string, p: char -> bool): (r: string)
    ensures |r| <= |s| && r <= s
    ensures r != "" ==> !p(r[|r| - 1])
  {
    if s != "" && p(s[|s| - 1]) then TrimEndMatches(s[..|s| - 1], p) else s
  }

  function Trim(s: string): (r: string)
    ensures |r| <= |s|
  {
    TrimEndMatches(TrimStartMatches(s, IsWhitespace), IsWhitespace)
  }

  ghost predicate All(s: string, p: char -> bool) {
    forall c :: c in s ==> p(c)
  }

  lemma {:induction false} TrimmedStart(s: string, p: char -> bool) returns (a: string)
    ensures s == a + TrimStartMatches(s, p) && All(a, p)
  {
    if s != "" && p(s[0]) {
      a := TrimmedStart(s[1..], p);
      a := [s[0]] + a;
    } else {
      a := "";
    }
  }

  lemma {:induction false} TrimmedTail(s: string, p: char -> bool) returns (b: string)
    ensures s == TrimEndMatches(s, p) + b && All(b, p)
    decreases |s|
  {
    if s != "" && p(s[|s| - 1]) {
      b := TrimmedTail(s[..|s| - 1], p);
      b := b + [s[|s| - 1]];
    } else {
      b := "";
    }
  }

  /** Trimming takes white space off both ends and stops at other characters. */
  lemma TrimExactly(s: string) returns (a: string, b: string)
    ensures s == a + Trim(s) + b && All(a, IsWhitespace) && All(b, IsWhitespace)
    ensures Trim(s) != "" ==> !IsWhitespace(Trim(s)[0]) && !IsWhitespace(Trim(s)[|Trim(s)| - 1])
  {
    a := TrimmedStart(s, IsWhitespace);
    b := TrimmedTail(TrimStartMatches(s, IsWhitespace), IsWhitespace);
  }
}
