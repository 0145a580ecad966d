/** UTF-8: what strings are as bytes, and which byte strings are UTF-8 (RFC 3629). */
module Utf8Encoding {
  import opened Prelude

  function Utf8Char(c: char): (b: bytes)
    ensures c < '\U{0080}' ==> b == [c as int]
    ensures |b| >= 1
  {
    var v := c as int;
    if v < 0x80 then [v]
    else if v < 0x800 then [0xC0 + v / 0x40, 0x80 + v % 0x40]
    else if v < 0x10000 then [0xE0 + v / 0x40 / 0x40, 0x80 + v / 0x40 % 0x40, 0x80 + v % 0x40]
    else [0xF0 + v / 0x40 / 0x40 / 0x40, 0x80 + v / 0x40 / 0x40 % 0x40, 0x80 + v / 0x40 % 0x40, 0x80 + v % 0x40]
  }

  /** The bytes of a string; its `len()` counts these. */
  function Utf8(s: string): bytes {
    if s == "" then [] else Utf8(s[..|s| - 1]) + Utf8Char(s[|s| - 1])
  }

  predicate IsAscii(s: string) {
    forall i :: 0 <= i < |s| ==> s[i] < '\U{0080}'
  }

  lemma {:induction false} AsciiBytes(s: string)
    requires IsAscii(s)
    ensures |Utf8(s)| == |s|
    ensures forall i :: 0 <= i < |s| ==> Utf8(s)[i] == s[i] as int
  {
    if s != "" { AsciiBytes(s[..|s| - 1]); }
  }

  predicate Continues(b: bytes, i: nat, n: nat) {
    i + n <= |b| && forall k :: i <= k < i + n ==> 0x80 <= b[k] < 0xC0
  }

  /** The length of the well-formed UTF-8 character at `i`, or 0 (section 4 of RFC 3629). */
  function Utf8CharAt(b: bytes, i: nat): nat
    requires i < |b|
  {
    if b[i] < 0x80 then 1
    else if 0xC2 <= b[i] < 0xE0 && Continues(b, i + 1, 1) then 2
    else if 0xE0 <= b[i] < 0xF0 && Continues(b, i + 1, 2)
            && (b[i] == 0xE0 ==> b[i + 1] >= 0xA0) && (b[i] == 0xED ==> b[i + 1] < 0xA0) then 3
    else if 0xF0 <= b[i] < 0xF5 && Continues(b, i + 1, 3)
            && (b[i] == 0xF0 ==> b[i + 1] >= 0x90) && (b[i] == 0xF4 ==> b[i + 1] < 0x90) then 4
    else 0
  }

  predicate ValidUtf8From(b: bytes, i: nat)
    requires i <= |b|
    decreases |b| - i
  {
    i == |b| || (Utf8CharAt(b, i) > 0 && ValidUtf8From(b, i + Utf8CharAt(b, i)))
  }

  predicate ValidUtf8(b: bytes) {
    ValidUtf8From(b, 0)
  }

  lemma {:induction false} ValidBehind(a: bytes, b: bytes, j: nat)
    requires j <= |b| && ValidUtf8From(b, j)
    ensures ValidUtf8From(a + b, |a| + j)
    decreases |b| - j
  {
    if j < |b| {
      assert forall k :: 0 <= k < |b| ==> (a + b)[|a| + k] == b[k];
      assert Utf8CharAt(a + b, |a| + j) == Utf8CharAt(b, j);
      ValidBehind(a, b, j + Utf8CharAt(b, j));
    }
  }

  lemma {:induction false} ValidBefore(a: bytes, b: bytes, i: nat)
    requires i <= |a| && ValidUtf8From(a, i) && ValidUtf8(b)
    ensures ValidUtf8From(a + b, i)
    decreases |a| - i
  {
    if i == |a| {
      ValidBehind(a, b, 0);
    } else {
      assert forall k :: 0 <= k < |a| ==> (a + b)[k] == a[k];
      assert Utf8CharAt(a + b, i) == Utf8CharAt(a, i);
      ValidBefore(a, b, i + Utf8CharAt(a, i));
    }
  }

  lemma CharIsValid(c: char)
    ensures ValidUtf8(Utf8Char(c))
  {
    var b := Utf8Char(c);
    assert Utf8CharAt(b, 0) == |b|;
  }

  /** Every string is UTF-8. */
  lemma {:induction false} StringsAreUtf8(s: string)
    ensures ValidUtf8(Utf8(s))
  {
    if s != "" {
      StringsAreUtf8(s[..|s| - 1]);
      CharIsValid(s[|s| - 1]);
      ValidBefore(Utf8(s[..|s| - 1]), Utf8Char(s[|s| - 1]), 0);
    }
  }

  lemma LastCharLast(init: string, c: char)
    ensures Utf8(init + [c]) == Utf8(init) + Utf8Char(c)
  {
    assert (init + [c])[..|init|] == init;
  }

  lemma OneChar(c: char)
    ensures Utf8([c]) == Utf8Char(c) && Utf8("") == []
  {
    assert [c][..0] == "";
  }

  lemma {:induction false} FirstCharFirst(s: string)
    requires s != ""
    ensures Utf8(s) == Utf8Char(s[0]) + Utf8(s[1..])
  {
    hide *;
    OneChar(s[0]);
    if |s| == 1 {
      assert s == [s[0]] && s[1..] == "";
    } else {
      var init, last := s[..|s| - 1], s[|s| - 1];
      FirstCharFirst(init);
      assert s == init + [last] && s[1..] == init[1..] + [last];
      LastCharLast(init, last);
      LastCharLast(init[1..], last);
      assert Utf8Char(s[0]) + Utf8(init[1..]) + Utf8Char(last) == Utf8Char(s[0]) + (Utf8(init[1..]) + Utf8Char(last));
    }
  }

  /** The length of a character is in its first byte. */
  function LengthOf(first: byte): nat {
    if first < 0x80 then 1 else if first < 0xE0 then 2 else if first < 0xF0 then 3 else 4
  }

  lemma FirstByteTellsLength(c: char)
    ensures |Utf8Char(c)| == LengthOf(Utf8Char(c)[0])
  {
  }

  /** The code point a character's bytes spell. */
  function CodePoint(b: bytes): int {
    if |b| == 1 then b[0]
    else if |b| == 2 then 0x40 * (b[0] as int - 0xC0) + (b[1] as int - 0x80)
    else if |b| == 3 then 0x40 * (0x40 * (b[0] as int - 0xE0) + (b[1] as int - 0x80)) + (b[2] as int - 0x80)
    else if |b| == 4 then
      0x40 * (0x40 * (0x40 * (b[0] as int - 0xF0) + (b[1] as int - 0x80)) + (b[2] as int - 0x80)) + (b[3] as int - 0x80)
    else -1
  }

  lemma CharReadsBack(c: char)
    ensures CodePoint(Utf8Char(c)) == c as int
  {
    var v := c as int;
    assert v == 0x40 * (v / 0x40) + v % 0x40;
    assert v / 0x40 == 0x40 * (v / 0x40 / 0x40) + v / 0x40 % 0x40;
    assert v / 0x40 / 0x40 == 0x40 * (v / 0x40 / 0x40 / 0x40) + v / 0x40 / 0x40 % 0x40;
  }

  /** Different strings have different bytes. */
  lemma {:induction false} Utf8IsInjective(s: string, t: string)
    requires Utf8(s) == Utf8(t)
    ensures s == t
    decreases |s|
  {
    if s != "" { FirstCharFirst(s); }
    if t != "" { FirstCharFirst(t); }
    if s != "" && t != "" {
      SameFirstChar(s[0], t[0], Utf8(s[1..]), Utf8(t[1..]));
      Utf8IsInjective(s[1..], t[1..]);
      assert s == [s[0]] + s[1..] && t == [t[0]] + t[1..];
    }
  }

  /** Where bytes begin with a character, they begin with no other. */
  lemma SameFirstChar(c: char, d: char, a: bytes, b: bytes)
    requires Utf8Char(c) + a == Utf8Char(d) + b
    ensures c == d && a == b
  {
    FirstByteTellsLength(c);
    FirstByteTellsLength(d);
    CharReadsBack(c);
    CharReadsBack(d);
    hide Utf8Char, LengthOf, CodePoint;
    var x, y := Utf8Char(c), Utf8Char(d);
    assert (x + a)[0] == x[0] && (y + b)[0] == y[0];
    assert (x + a)[..|x|] == x && (y + b)[..|y|] == y;
    assert (x + a)[|x|..] == a && (y + b)[|y|..] == b;
  }

  lemma Digit64(high: int, low: int)
    requires 0 <= low < 0x40
    ensures (0x40 * high + low) / 0x40 == high && (0x40 * high + low) % 0x40 == low
  {
  }

  lemma TwoBytes(b: bytes) returns (c: char)
    requires |b| == 2 && Utf8CharAt(b, 0) == 2
    ensures Utf8Char(c) == b
  {
    Digit64(b[0] - 0xC0, b[1] - 0x80);
    c := CodePoint(b) as char;
  }

  lemma ThreeBytes(b: bytes) returns (c: char)
    requires |b| == 3 && Utf8CharAt(b, 0) == 3
    ensures Utf8Char(c) == b
  {
    var high := 0x40 * (b[0] as int - 0xE0) + (b[1] as int - 0x80);
    Digit64(b[0] - 0xE0, b[1] - 0x80);
    Digit64(high, b[2] - 0x80);
    c := CodePoint(b) as char;
  }

  lemma FourBytes(b: bytes) returns (c: char)
    requires |b| == 4 && Utf8CharAt(b, 0) == 4
    ensures Utf8Char(c) == b
  {
    var top := 0x40 * (b[0] as int - 0xF0) + (b[1] as int - 0x80);
    var high := 0x40 * top + (b[2] as int - 0x80);
    Digit64(b[0] - 0xF0, b[1] - 0x80);
    Digit64(top, b[2] - 0x80);
    Digit64(high, b[3] - 0x80);
    c := CodePoint(b) as char;
  }

  /** The well-formed characters are those of the scalar values. */
  lemma CharSpelledBy(b: bytes) returns (c: char)
    requires b != [] && Utf8CharAt(b, 0) == |b|
    ensures Utf8Char(c) == b
  {
    if |b| == 1 {
      c := CodePoint(b) as char;
    } else if |b| == 2 {
      c := TwoBytes(b);
    } else if |b| == 3 {
      c := ThreeBytes(b);
    } else {
      c := FourBytes(b);
    }
  }

  lemma CharInSlice(b: bytes, i: nat)
    requires i < |b| && Utf8CharAt(b, i) > 0
    ensures var e := i + Utf8CharAt(b, i); e <= |b| && Utf8CharAt(b[i..e], 0) == e - i
  {
    var e := i + Utf8CharAt(b, i);
    assert e <= |b|;
    assert forall k :: 0 <= k < e - i ==> b[i..e][k] == b[i + k];
  }

  lemma SliceThenRest(b: bytes, i: nat, e: nat)
    requires i <= e <= |b|
    ensures b[i..e] + b[e..] == b[i..]
  {
  }

  lemma {:induction false} ValidIsAString(b: bytes, i: nat) returns (s: string)
    requires i <= |b| && ValidUtf8From(b, i)
    ensures Utf8(s) == b[i..]
    decreases |b| - i
  {
    if i == |b| {
      s := "";
      assert b[i..] == [];
    } else {
      CharInSlice(b, i);
      var e := i + Utf8CharAt(b, i);
      assert ValidUtf8From(b, e);
      hide *;
      var c := CharSpelledBy(b[i..e]);
      var rest := ValidIsAString(b, e);
      s := [c] + rest;
      FirstCharFirst(s);
      assert s[1..] == rest;
      SliceThenRest(b, i, e);
    }
  }

  /** Bytes are UTF-8 exactly when they are the bytes of some string. */
  lemma Utf8Exactly(b: bytes)
    ensures ValidUtf8(b) <==> exists s :: Utf8(s) == b
  {
    if ValidUtf8(b) {
      var s := ValidIsAString(b, 0);
      assert b[0..] == b;
    }
    if s :| Utf8(s) == b { StringsAreUtf8(s); }
  }
}
