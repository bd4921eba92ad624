// The JSONC comment stripper: comments become spaces, byte for byte, and string literals are left alone.

module StripComments {
  import opened Basics
  import opened Utf8

  /** What the scanner is inside of: `Closing` is the slash that ends a block comment. */
  datatype Mode = Code | Str | Escaped | Line | Block | Closing

  predicate IsByte(s: seq<byte>, i: nat, b: byte) {
    i < |s| && s[i] == b
  }

  /** A comment opens at `i`. */
  predicate Opens(s: seq<byte>, i: nat) {
    IsByte(s, i, SLASH) && (IsByte(s, i + 1, SLASH) || IsByte(s, i + 1, STAR))
  }

  function Next(s: seq<byte>, i: nat, mode: Mode): Mode
    requires i < |s|
  {
    match mode
    case Code =>
      if s[i] == QUOTE then Str
      else if Opens(s, i) then (if IsByte(s, i + 1, SLASH) then Line else Block)
      else Code
    case Str => if s[i] == BACKSLASH then Escaped else if s[i] == QUOTE then Code else Str
    case Escaped => Str
    case Line => if IsByte(s, i + 1, NEWLINE) then Code else Line
    case Block => if s[i] == STAR && IsByte(s, i + 1, SLASH) then Closing else Block
    case Closing => Code
  }

  function Emit(s: seq<byte>, i: nat, mode: Mode): byte
    requires i < |s|
  {
    match mode
    case Code => if Opens(s, i) then SPACE else s[i]
    case Str => s[i]
    case Escaped => s[i]
    case _ => if s[i] == NEWLINE then NEWLINE else SPACE
  }

  ghost function ModeAt(s: seq<byte>, i: nat): Mode
    requires i <= |s|
  {
    if i == 0 then Code else Next(s, i - 1, ModeAt(s, i - 1))
  }

  /** The stripped text: every byte as the mode it is met in decides. */
  ghost function Stripped(s: seq<byte>): (r: seq<byte>)
    ensures |r| == |s|
  {
    seq(|s|, i requires 0 <= i < |s| => Emit(s, i, ModeAt(s, i)))
  }

  // ----- the scanner -----

  ghost predicate Scanned(text: seq<byte>, index: nat, out: seq<byte>) {
    index <= |text| && out == Stripped(text)[..index]
  }

  /** One byte on. */
  lemma ScannedOne(text: seq<byte>, index: nat, out: seq<byte>)
    requires Scanned(text, index, out) && index < |text|
    ensures Scanned(text, index + 1, out + [Emit(text, index, ModeAt(text, index))])
    ensures ModeAt(text, index + 1) == Next(text, index, ModeAt(text, index))
  {
    assert Stripped(text)[..index + 1] == Stripped(text)[..index] + [Stripped(text)[index]];
  }

  /** Bytes of a longer character are copied, in code and in strings alike, and end any pending escape. */
  lemma {:induction false} ScannedWide(text: seq<byte>, index: nat, out: seq<byte>, n: nat)
    requires Scanned(text, index, out) && index + n <= |text|
    requires ModeAt(text, index) in {Code, Str, Escaped}
    requires forall i :: index <= i < index + n ==> text[i] >= 0x80
    ensures Scanned(text, index + n, out + text[index..index + n])
    ensures n > 0 ==> ModeAt(text, index + n) == if ModeAt(text, index) == Code then Code else Str
    decreases n
  {
    hide Scanned;
    if n == 0 {
      assert out + text[index..index] == out;
    } else {
      ScannedWide(text, index, out, n - 1);
      var more := out + text[index..index + n - 1];
      assert Scanned(text, index + n - 1, more);
      ScannedOne(text, index + n - 1, more);
      assert out + text[index..index + n] == more + [text[index + n - 1]];
    }
  }

  lemma WideBytes(s: seq<byte>)
    requires s != [] && s[0] >= 0x80 && ValidUtf8(s)
    ensures CharLength(s) > 0 && forall i :: 0 <= i < CharLength(s) ==> s[i] >= 0x80
    ensures ValidUtf8(s[..CharLength(s)]) && ValidUtf8(s[CharLength(s)..])
  {
    var n := CharLength(s);
    assert s == s[..n] + s[n..];
    assert n < |s| ==> !Continues(s[n]) by {
      if n < |s| {
        assert CharLength(s[n..]) > 0;
      }
    }
    ValidCut(s[..n], s[n..]);
  }

  lemma PushAscii(out: seq<byte>, b: byte)
    requires ValidUtf8(out) && b < 0x80
    ensures ValidUtf8(out + [b])
  {
    ValidAscii(b);
    ValidConcat(out, [b]);
  }

  method Strip(text: seq<byte>) returns (out: seq<byte>)
    requires ValidUtf8(text)
    ensures out == Stripped(text) && ValidUtf8(out)
  {
    hide ValidUtf8, ModeAt, Stripped, CharLength;
    out := [];
    var index, inString, escaped := 0, false, false;
    ScanStarts(text);
    while index < |text|
      invariant Scanned(text, index, out) && ValidUtf8(out) && ValidUtf8(text[index..])
      invariant index < |text| ==> ModeAt(text, index) == if !inString then Code else if escaped then Escaped else Str
      invariant !inString ==> !escaped
      decreases |text| - index
    {
      var b := text[index];
      if b >= 0x80 {
        WideBytes(text[index..]);
        var n := CharLength(text[index..]);
        ScannedWide(text, index, out, n);
        assert text[index..][..n] == text[index..index + n] && text[index..][n..] == text[index + n..];
        ValidConcat(out, text[index..index + n]);
        out := out + text[index..index + n];
        index := index + n;
        escaped := false;
        continue;
      }
      if !inString && b == SLASH && index + 1 < |text| && text[index + 1] == SLASH {
        index, out := StripLine(text, index, out);
        continue;
      }
      if !inString && b == SLASH && index + 1 < |text| && text[index + 1] == STAR {
        index, out := StripBlock(text, index, out);
        continue;
      }
      ScannedOne(text, index, out);
      PushAscii(out, b);
      RestAfterAscii(text[index..]);
      assert text[index..][1..] == text[index + 1..];
      out := out + [b];
      index := index + 1;
      if !inString {
        inString := b == QUOTE;
      } else if escaped {
        escaped := false;
      } else if b == BACKSLASH {
        escaped := true;
      } else if b == QUOTE {
        inString := false;
      }
    }
    ScanEnds(text, out);
  }

  lemma ScanStarts(text: seq<byte>)
    ensures Scanned(text, 0, []) && ModeAt(text, 0) == Code && ValidUtf8([]) && text[0..] == text
  {
  }

  lemma ScanEnds(text: seq<byte>, out: seq<byte>)
    requires Scanned(text, |text|, out)
    ensures out == Stripped(text)
  {
    hide Stripped;
    assert Stripped(text)[..|text|] == Stripped(text);
  }

  /** A line comment up to, and not including, its newline. */
  method StripLine(text: seq<byte>, start: nat, done: seq<byte>) returns (index: nat, out: seq<byte>)
    requires ValidUtf8(text) && ValidUtf8(done) && Scanned(text, start, done)
    requires ModeAt(text, start) == Code && Opens(text, start) && text[start + 1] == SLASH
    ensures start < index <= |text| && Scanned(text, index, out) && ValidUtf8(out) && ValidUtf8(text[index..])
    ensures index < |text| ==> ModeAt(text, index) == Code
  {
    hide Scanned, ModeAt, ValidUtf8;
    index, out := start, done;
    while index < |text| && text[index] != NEWLINE
      invariant start <= index <= |text| && Scanned(text, index, out) && ValidUtf8(out)
      invariant index < |text| ==>
        ModeAt(text, index) == if index == start then Code else if text[index] == NEWLINE then Code else Line
    {
      ScannedOne(text, index, out);
      PushAscii(out, SPACE);
      out := out + [SPACE];
      index := index + 1;
    }
    RestFromHere(text, index);
  }

  /** A block comment with its closing slash, or up to the end of a text that never closes it. */
  method StripBlock(text: seq<byte>, start: nat, done: seq<byte>) returns (index: nat, out: seq<byte>)
    requires ValidUtf8(text) && ValidUtf8(done) && Scanned(text, start, done)
    requires ModeAt(text, start) == Code && Opens(text, start) && text[start + 1] == STAR
    ensures start < index <= |text| && Scanned(text, index, out) && ValidUtf8(out) && ValidUtf8(text[index..])
    ensures index < |text| ==> ModeAt(text, index) == Code
  {
    hide Scanned, ModeAt, ValidUtf8;
    index, out := start, done;
    var closed := false;
    while index < |text|
      invariant start <= index <= |text| && Scanned(text, index, out) && ValidUtf8(out)
      invariant ModeAt(text, index) == if index == start then Code else if closed then Closing else Block
      invariant closed ==> index > start && IsByte(text, index, SLASH)
      decreases |text| - index
    {
      var current := text[index];
      ScannedOne(text, index, out);
      if current == NEWLINE {
        PushAscii(out, NEWLINE);
        out := out + [NEWLINE];
      } else {
        PushAscii(out, SPACE);
        out := out + [SPACE];
      }
      if closed {
        CutBeforeAscii(text, index);
        RestAfterAscii(text[index..]);
        assert text[index..][1..] == text[index + 1..];
        index := index + 1;
        return;
      }
      if current == STAR && index + 1 < |text| && text[index + 1] == SLASH {
        closed := true;
      }
      index := index + 1;
    }
    RestFromHere(text, index);
  }

  lemma RestFromHere(text: seq<byte>, index: nat)
    requires ValidUtf8(text) && index <= |text| && (index < |text| ==> text[index] < 0x80)
    ensures ValidUtf8(text[index..])
  {
    if index < |text| {
      CutBeforeAscii(text, index);
    }
  }

  // ----- what stripping keeps -----

  /** Lengths and newlines stay where they are, and a byte that changes becomes a space. */
  lemma StrippedKeepsPlaces(s: seq<byte>, i: nat)
    requires i < |s|
    ensures |Stripped(s)| == |s|
    ensures Stripped(s)[i] == s[i] || Stripped(s)[i] == SPACE
    ensures Stripped(s)[i] == NEWLINE <==> s[i] == NEWLINE
    ensures ModeAt(s, i) in {Str, Escaped} ==> Stripped(s)[i] == s[i]
  {
  }

  /** A comment opens outside string literals. */
  ghost predicate HasComment(s: seq<byte>) {
    exists i :: 0 <= i < |s| && ModeAt(s, i) == Code && Opens(s, i)
  }

  lemma {:induction false} NoCommentModes(s: seq<byte>, i: nat)
    requires !HasComment(s) && i <= |s|
    ensures ModeAt(s, i) in {Code, Str, Escaped}
  {
    if i > 0 {
      NoCommentModes(s, i - 1);
    }
  }

  /** Stripping changes nothing exactly when there is no comment. */
  lemma StrippedIsIdentity(s: seq<byte>)
    ensures Stripped(s) == s <==> !HasComment(s)
  {
    hide ModeAt;
    if HasComment(s) {
      var i :| 0 <= i < |s| && ModeAt(s, i) == Code && Opens(s, i);
      assert Stripped(s)[i] != s[i];
    } else {
      forall i: nat | i < |s| ensures Stripped(s)[i] == s[i] {
        NoCommentModes(s, i);
      }
    }
  }

  /** What the stripped text is read as: strings where they were, code for everything else. */
  function Flat(mode: Mode): Mode {
    if mode in {Str, Escaped} then mode else Code
  }

  lemma FlatTurn(s: seq<byte>, t: seq<byte>, i: nat, mode: Mode)
    requires i < |s| && i < |t| && t[i] == Emit(s, i, mode) && (mode !in {Str, Escaped} ==> !Opens(t, i))
    ensures Next(t, i, Flat(mode)) == Flat(Next(s, i, mode))
  {
  }

  lemma StrippedTurn(s: seq<byte>, i: nat)
    requires i < |s|
    ensures Stripped(s)[i] == Emit(s, i, ModeAt(s, i)) && ModeAt(s, i + 1) == Next(s, i, ModeAt(s, i))
  {
    hide Emit, Next;
  }

  /** In the stripped text the scanner is in the same string, and in code wherever it was in a comment. */
  lemma {:induction false} StrippedModes(s: seq<byte>, i: nat)
    requires i <= |s|
    ensures ModeAt(Stripped(s), i) == Flat(ModeAt(s, i))
  {
    hide Stripped, ModeAt, Emit, Next, Opens;
    if i == 0 {
      ScanStarts(s);
      ScanStarts(Stripped(s));
    } else {
      StrippedModes(s, i - 1);
      StrippedTurn(s, i - 1);
      StrippedTurn(Stripped(s), i - 1);
      if ModeAt(s, i - 1) !in {Str, Escaped} {
        NoOpener(s, i - 1);
      }
      FlatTurn(s, Stripped(s), i - 1, ModeAt(s, i - 1));
    }
  }

  lemma NoOpener(s: seq<byte>, i: nat)
    requires i < |s| && ModeAt(s, i) !in {Str, Escaped}
    ensures !Opens(Stripped(s), i)
  {
    assert Stripped(s)[i] == Emit(s, i, ModeAt(s, i));
    if i + 1 < |s| {
      assert Stripped(s)[i + 1] == Emit(s, i + 1, ModeAt(s, i + 1));
    }
  }

  /** Stripping leaves no comment, so stripping again changes nothing. */
  lemma StrippedTwice(s: seq<byte>)
    ensures Stripped(Stripped(s)) == Stripped(s)
  {
    hide ModeAt, Stripped;
    forall i: nat | i < |Stripped(s)| && ModeAt(Stripped(s), i) == Code ensures !Opens(Stripped(s), i) {
      StrippedModes(s, i);
      NoOpener(s, i);
    }
    StrippedIsIdentity(Stripped(s));
  }
}
