// Well-formed UTF-8 (section 4 of RFC 3629). A Rust string is its bytes, and they are always well-formed.

module Utf8 {
  import opened Basics

  predicate Continues(b: byte) {
    0x80 <= b < 0xC0
  }

  /** The length of the character at the front of `s`, or 0 when no well-formed one stands there. */
  function CharLength(s: seq<byte>): (n: nat)
    ensures n <= 4 && n <= |s|
  {
    if s == [] then 0
    else if s[0] < 0x80 then 1
    else if 0xC2 <= s[0] < 0xE0 && |s| >= 2 && Continues(s[1]) then 2
    else if 0xE0 <= s[0] < 0xF0 && |s| >= 3 && ThirdFits(s[0], s[1]) && Continues(s[2]) then 3
    else if 0xF0 <= s[0] < 0xF5 && |s| >= 4 && FourthFits(s[0], s[1]) && Continues(s[2]) && Continues(s[3]) then 4
    else 0
  }

  predicate ThirdFits(lead: byte, next: byte) {
    Continues(next) && (lead == 0xE0 ==> next >= 0xA0) && (lead == 0xED ==> next < 0xA0)
  }

  predicate FourthFits(lead: byte, next: byte) {
    Continues(next) && (lead == 0xF0 ==> next >= 0x90) && (lead == 0xF4 ==> next < 0x90)
  }

  predicate ValidUtf8(s: seq<byte>)
    decreases |s|
  {
    s == [] || (CharLength(s) > 0 && ValidUtf8(s[CharLength(s)..]))
  }

  /** A character is judged by its own bytes alone. */
  lemma CharLengthLocal(s: seq<byte>, more: seq<byte>)
    requires CharLength(s) > 0
    ensures CharLength(s + more) == CharLength(s)
  {
  }

  lemma {:induction false} ValidConcat(a: seq<byte>, b: seq<byte>)
    requires ValidUtf8(a) && ValidUtf8(b)
    ensures ValidUtf8(a + b)
    decreases |a|
  {
    hide CharLength;
    if a == [] {
      assert a + b == b;
    } else {
      CharLengthLocal(a, b);
      ValidConcat(a[CharLength(a)..], b);
      assert (a + b)[CharLength(a)..] == a[CharLength(a)..] + b;
    }
  }

  lemma ValidAscii(b: byte)
    requires b < 0x80
    ensures ValidUtf8([b])
  {
    assert CharLength([b]) == 1;
    assert [b][1..] == [];
  }

  lemma CharStops(a: seq<byte>, b: seq<byte>)
    requires a != [] && CharLength(a + b) > 0
    requires b == [] || !Continues(b[0])
    ensures CharLength(a) == CharLength(a + b)
  {
    if b == [] {
      assert a + b == a;
    }
  }

  /** Text may be cut before any byte that does not continue a character. */
  lemma {:induction false} ValidCut(a: seq<byte>, b: seq<byte>)
    requires ValidUtf8(a + b)
    requires b == [] || !Continues(b[0])
    ensures ValidUtf8(a) && ValidUtf8(b)
    decreases |a|
  {
    hide CharLength;
    if a == [] {
      assert a + b == b;
    } else {
      CharStops(a, b);
      var n := CharLength(a);
      assert (a + b)[n..] == a[n..] + b;
      ValidCut(a[n..], b);
    }
  }

  lemma RestAfterAscii(s: seq<byte>)
    requires s != [] && s[0] < 0x80 && ValidUtf8(s)
    ensures ValidUtf8(s[1..])
  {
    assert CharLength(s) == 1;
  }

  /** Text may be cut before any ASCII byte. */
  lemma CutBeforeAscii(s: seq<byte>, n: nat)
    requires ValidUtf8(s) && n <= |s| && (n < |s| ==> s[n] < 0x80)
    ensures ValidUtf8(s[..n]) && ValidUtf8(s[n..])
  {
    hide ValidUtf8;
    assert s == s[..n] + s[n..];
    ValidCut(s[..n], s[n..]);
  }
}
