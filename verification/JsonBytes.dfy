// The JSON reader told in bytes: which bytes are white space and number bytes, what every escape stands for, and the
// words and marks of the grammar.

module JsonBytes {
  import opened Basics
  import opened Utf8
  import opened Json

  // ----- characters, section 3 of RFC 3629 -----

  /** The number a character of one to three bytes stands for. */
  function Scalar(s: seq<byte>): nat
    requires 1 <= |s| <= 3
    requires |s| == 2 ==> s[0] >= 0xC0 && s[1] >= 0x80
    requires |s| == 3 ==> s[0] >= 0xE0 && s[1] >= 0x80 && s[2] >= 0x80
  {
    if |s| == 1 then s[0]
    else if |s| == 2 then (s[0] - 0xC0) as int * 64 + (s[1] - 0x80)
    else (s[0] - 0xE0) as int * 4096 + (s[1] - 0x80) as int * 64 + (s[2] - 0x80)
  }

  /** A character is well-formed when it is no longer than its number needs, and no half of a surrogate pair. */
  lemma CharacterExact(s: seq<byte>)
    requires |s| >= 3
    ensures CharLength(s) == 1 <==> s[0] < 0x80
    ensures CharLength(s) == 2 <==>
      0xC0 <= s[0] < 0xE0 && 0x80 <= s[1] < 0xC0 && Scalar(s[..2]) >= 0x80
    ensures CharLength(s) == 3 <==>
      && 0xE0 <= s[0] < 0xF0 && 0x80 <= s[1] < 0xC0 && 0x80 <= s[2] < 0xC0
      && Scalar(s[..3]) >= 0x800 && !(0xD800 <= Scalar(s[..3]) < 0xE000)
  {
  }

  // ----- escapes -----

  /** What the letter behind a backslash stands for: itself, or one of five control characters. */
  function Letter(c: byte): Option<byte> {
    if c in {0x22, 0x5C, 0x2F} then Some(c)
    else if c == 0x62 then Some(0x08)
    else if c == 0x66 then Some(0x0C)
    else if c == 0x6E then Some(0x0A)
    else if c == 0x72 then Some(0x0D)
    else if c == 0x74 then Some(0x09)
    else None
  }

  /** Anywhere in a string, a backslash and a letter give one byte, or stop the reader. */
  lemma LetterExact(b: seq<byte>, p: nat, done: seq<byte>)
    requires p + 1 < |b| && b[p] == 0x5C && b[p + 1] != 0x75
    ensures var letter := Letter(b[p + 1]);
      ParseBody(b, p, done) ==
        if letter.Some? then ParseBody(b, p + 2, done + [letter.value]) else Fail(UnknownEscape)
  {
    hide ParseBody;
    BodyTurn(b, p, done);
  }

  lemma BodyTurn(b: seq<byte>, p: nat, done: seq<byte>)
    requires p < |b| && b[p] == 0x5C
    ensures var escape := ParseEscape(b, p + 1);
      ParseBody(b, p, done) ==
        if escape.Fail? then Fail(escape.error) else ParseBody(b, escape.end, done + escape.value)
  {
    hide ParseEscape, ValidUtf8;
  }

  /** The value of a hexadecimal digit of either case, or 16. */
  function HexValue(c: byte): nat {
    if 0x30 <= c <= 0x39 then c - 0x30
    else if 0x41 <= c <= 0x46 then c - 0x41 + 10
    else if 0x61 <= c <= 0x66 then c - 0x61 + 10
    else 16
  }

  /** Four digits, or a plus sign and three. */
  function HexNumber(a: byte, b: byte, c: byte, d: byte): Option<nat> {
    if HexValue(b) == 16 || HexValue(c) == 16 || HexValue(d) == 16 then None
    else if a == 0x2B then Some(256 * HexValue(b) + 16 * HexValue(c) + HexValue(d))
    else if HexValue(a) == 16 then None
    else Some(4096 * HexValue(a) + 256 * HexValue(b) + 16 * HexValue(c) + HexValue(d))
  }

  lemma DigitsTurn(d: seq<byte>)
    requires d != []
    ensures HexDigits(d) ==
      var high := HexDigits(d[..|d| - 1]);
      if high.Err? then Err(BadUnicodeEscape)
      else if HexValue(d[|d| - 1]) == 16 then Err(BadUnicodeEscape)
      else Ok(16 * high.value + HexValue(d[|d| - 1]))
  {
    DigitsFail(d[..|d| - 1]);
  }

  lemma {:induction false} DigitsFail(d: seq<byte>)
    ensures HexDigits(d).Err? ==> HexDigits(d) == Err(BadUnicodeEscape)
  {
    if d != [] {
      DigitsFail(d[..|d| - 1]);
    }
  }

  lemma DigitsAre(a: byte, b: byte, c: byte, d: byte)
    ensures HexDigits([a, b, c, d]) ==
      if HexValue(a) == 16 || HexValue(b) == 16 || HexValue(c) == 16 || HexValue(d) == 16 then Err(BadUnicodeEscape)
      else Ok(4096 * HexValue(a) + 256 * HexValue(b) + 16 * HexValue(c) + HexValue(d))
    ensures HexDigits([b, c, d]) ==
      if HexValue(b) == 16 || HexValue(c) == 16 || HexValue(d) == 16 then Err(BadUnicodeEscape)
      else Ok(256 * HexValue(b) + 16 * HexValue(c) + HexValue(d))
  {
    hide HexDigits, HexValue;
    NoDigits();
    DigitsTurn([a]);
    DigitsTurn([a, b]);
    DigitsTurn([a, b, c]);
    DigitsTurn([a, b, c, d]);
    DigitsTurn([b]);
    DigitsTurn([b, c]);
    DigitsTurn([b, c, d]);
    assert [a][..0] == [] && [a, b][..1] == [a] && [a, b, c][..2] == [a, b] && [a, b, c, d][..3] == [a, b, c];
    assert [b][..0] == [] && [b, c][..1] == [b] && [b, c, d][..2] == [b, c];
  }

  lemma NoDigits()
    ensures HexDigits([]) == Ok(0)
  {
  }

  lemma EscapeNumber(a: byte, b: byte, c: byte, d: byte)
    requires ValidUtf8([a, b, c, d])
    ensures var code := HexNumber(a, b, c, d);
      UnicodeEscape([a, b, c, d]) == if code.Some? then Ok(code.value) else Err(BadUnicodeEscape)
  {
    hide HexDigits, HexValue, ValidUtf8;
    DigitsAre(a, b, c, d);
    assert [a, b, c, d][1..] == [b, c, d];
    assert HexValue(0x2B) == 16 by {
      PlusIsNoDigit();
    }
  }

  lemma PlusIsNoDigit()
    ensures HexValue(0x2B) == 16
  {
  }

  /** The character a code stands for, in as many bytes as it needs; half a surrogate pair is U+FFFD. */
  ghost predicate IsCharacter(text: seq<byte>, code: nat) {
    if 0xD800 <= code < 0xE000 then text == [0xEF, 0xBF, 0xBD]
    else
      && |text| == (if code < 0x80 then 1 else if code < 0x800 then 2 else 3)
      && text != []
      && (|text| == 2 ==> text[0] >= 0xC0 && text[1] >= 0x80)
      && (|text| == 3 ==> text[0] >= 0xE0 && text[1] >= 0x80 && text[2] >= 0x80)
      && Scalar(text) == code
  }

  lemma CharacterOf(code: nat)
    requires code < 0x1_0000
    ensures IsCharacter(EscapedText(code), code) && ValidUtf8(EscapedText(code))
  {
    EscapedTextIsValid(code);
  }

  lemma NumberFits(a: byte, b: byte, c: byte, d: byte)
    ensures HexNumber(a, b, c, d).Some? ==> HexNumber(a, b, c, d).value < 0x1_0000
  {
  }

  /** Anywhere in a string, a unicode escape gives the character of its number. */
  lemma UnicodeExact(b: seq<byte>, p: nat, done: seq<byte>) returns (text: seq<byte>)
    requires p + 1 < |b| && b[p] == 0x5C && b[p + 1] == 0x75
    ensures p + 6 > |b| ==> ParseBody(b, p, done) == Fail(EndOfInput)
    ensures p + 6 <= |b| && !ValidUtf8(b[p + 2..p + 6]) ==> ParseBody(b, p, done) == Fail(NotUtf8)
    ensures p + 6 <= |b| && ValidUtf8(b[p + 2..p + 6]) ==>
      var code := HexNumber(b[p + 2], b[p + 3], b[p + 4], b[p + 5]);
      if code.None? then ParseBody(b, p, done) == Fail(BadUnicodeEscape)
      else
        && IsCharacter(text, code.value) && ValidUtf8(text)
        && ParseBody(b, p, done) == ParseBody(b, p + 6, done + text)
  {
    hide ParseBody, ValidUtf8, HexNumber, HexDigits, IsCharacter, EscapedText;
    text := [];
    BodyTurn(b, p, done);
    if p + 6 <= |b| && ValidUtf8(b[p + 2..p + 6]) {
      var digits := b[p + 2..p + 6];
      assert digits == [b[p + 2], b[p + 3], b[p + 4], b[p + 5]];
      EscapeNumber(b[p + 2], b[p + 3], b[p + 4], b[p + 5]);
      NumberFits(b[p + 2], b[p + 3], b[p + 4], b[p + 5]);
      var code := HexNumber(b[p + 2], b[p + 3], b[p + 4], b[p + 5]);
      if code.Some? {
        CharacterOf(code.value);
        text := EscapedText(code.value);
      }
    }
  }

  /** A whole string of one escape. */
  lemma OneEscape(c: byte)
    requires c != 0x75
    ensures ParseSpec([0x22, 0x5C, c, 0x22]) ==
      if Letter(c).Some? then Ok(Str([Letter(c).value])) else Err(UnknownEscape)
  {
    hide ParseBody, Letter;
    var b := [0x22, 0x5C, c, 0x22];
    StringText(b);
    LetterExact(b, 1, []);
    if Letter(c).Some? {
      StringEnds(b, 3, [Letter(c).value]);
      assert [] + [Letter(c).value] == [Letter(c).value];
    }
  }

  /** A text that starts with a quote is a string and perhaps white space. */
  lemma StringText(b: seq<byte>)
    requires b != [] && b[0] == 0x22
    ensures var body := ParseBody(b, 1, []);
      ParseSpec(b) ==
        if body.Fail? then Err(body.error)
        else if SkipSpaces(b, body.end) < |b| then Err(TrailingInput)
        else Ok(Str(body.value))
  {
    hide ParseBody;
    assert SkipSpaces(b, 0) == 0;
  }

  lemma StringEnds(b: seq<byte>, p: nat, done: seq<byte>)
    requires p + 1 == |b| && b[p] == 0x22
    ensures ParseBody(b, p, done) == Got(done, p + 1) && SkipSpaces(b, p + 1) == p + 1
  {
  }

  // ----- bytes between and in values -----

  /** A byte before a value is passed over when it is one of the four white-space characters. */
  lemma SpaceExact(b: seq<byte>, p: nat)
    requires p < |b|
    ensures b[p] in {0x20, 0x09, 0x0A, 0x0D} ==> SkipSpaces(b, p) == SkipSpaces(b, p + 1)
    ensures b[p] !in {0x20, 0x09, 0x0A, 0x0D} ==> SkipSpaces(b, p) == p
  {
  }

  /** A number goes on through digits, signs, points and the letter e of either case. */
  lemma NumberExact(b: seq<byte>, p: nat)
    requires p < |b|
    ensures 0x30 <= b[p] <= 0x39 || b[p] in {0x2D, 0x2B, 0x2E, 0x65, 0x45} ==> NumberEnd(b, p) == NumberEnd(b, p + 1)
    ensures !(0x30 <= b[p] <= 0x39 || b[p] in {0x2D, 0x2B, 0x2E, 0x65, 0x45}) ==> NumberEnd(b, p) == p
  {
  }

  /** A stretch of a string runs to the next quote or backslash, and must be well-formed. */
  lemma PlainExact(b: seq<byte>, p: nat, done: seq<byte>) returns (q: nat)
    requires p < |b| && b[p] !in {0x22, 0x5C}
    ensures p < q <= |b| && (q < |b| ==> b[q] in {0x22, 0x5C})
    ensures forall i :: p <= i < q ==> b[i] !in {0x22, 0x5C}
    ensures ParseBody(b, p, done) ==
      if ValidUtf8(b[p..q]) then ParseBody(b, q, done + b[p..q]) else Fail(NotUtf8)
  {
    hide ParseEscape, ValidUtf8;
    q := ChunkEnd(b, p);
    ChunkIs(b, p);
  }

  lemma {:induction false} ChunkIs(b: seq<byte>, p: nat)
    requires p <= |b|
    ensures var q := ChunkEnd(b, p);
      && (q < |b| ==> b[q] in {0x22, 0x5C})
      && (forall i :: p <= i < q ==> b[i] !in {0x22, 0x5C})
      && (p < |b| && b[p] !in {0x22, 0x5C} ==> q > p)
    decreases |b| - p
  {
    if p < |b| && b[p] !in {0x22, 0x5C} {
      ChunkIs(b, p + 1);
    }
  }

  /** The end of the text inside a string, and the quote that closes one. */
  lemma CloseExact(b: seq<byte>, p: nat, done: seq<byte>)
    ensures p >= |b| ==> ParseBody(b, p, done) == Fail(UnterminatedString)
    ensures p < |b| && b[p] == 0x22 ==> ParseBody(b, p, done) == Got(done, p + 1)
  {
    hide ParseEscape, ValidUtf8;
  }

  /** The text with a letter, a newline and another letter. */
  lemma NewlineRead()
    ensures ParseSpec([0x22, 0x61, 0x5C, 0x6E, 0x62, 0x22]) == Ok(Str([0x61, 0x0A, 0x62]))
  {
    hide ParseBody;
    var b := [0x22, 0x61, 0x5C, 0x6E, 0x62, 0x22];
    StringText(b);
    var q := PlainExact(b, 1, []);
    assert q == 2 && b[1..2] == [0x61] && [] + [0x61] == [0x61];
    ValidAscii(0x61);
    LetterExact(b, 2, [0x61]);
    assert [0x61] + [0x0A] == [0x61, 0x0A];
    var r := PlainExact(b, 4, [0x61, 0x0A]);
    assert r == 5 && b[4..5] == [0x62] && [0x61, 0x0A] + [0x62] == [0x61, 0x0A, 0x62];
    ValidAscii(0x62);
    StringEnds(b, 5, [0x61, 0x0A, 0x62]);
  }

  // ----- values -----

  ghost predicate WordAt(b: seq<byte>, p: nat, word: seq<byte>) {
    p + |word| <= |b| && b[p..p + |word|] == word
  }

  /** The first byte decides what a value is; the three words must be spelled out. */
  lemma ValueExact(b: seq<byte>, p: nat)
    requires p < |b| && b[p] !in {0x20, 0x09, 0x0A, 0x0D}
    ensures b[p] == 0x7B ==> ParseValue(b, p) == ParseObject(b, p)
    ensures b[p] == 0x5B ==> ParseValue(b, p) == ParseArray(b, p)
    ensures b[p] == 0x22 ==>
      var text := ParseBody(b, p + 1, []);
      ParseValue(b, p) == if text.Fail? then Fail(text.error) else Got(Str(text.value), text.end)
    ensures b[p] == 0x74 ==>
      ParseValue(b, p) ==
        if WordAt(b, p, [0x74, 0x72, 0x75, 0x65]) then Got(Bool(true), p + 4) else Fail(ExpectedLiteral)
    ensures b[p] == 0x66 ==>
      ParseValue(b, p) ==
        if WordAt(b, p, [0x66, 0x61, 0x6C, 0x73, 0x65]) then Got(Bool(false), p + 5) else Fail(ExpectedLiteral)
    ensures b[p] == 0x6E ==>
      ParseValue(b, p) ==
        if WordAt(b, p, [0x6E, 0x75, 0x6C, 0x6C]) then Got(Null, p + 4) else Fail(ExpectedLiteral)
    ensures b[p] !in {0x7B, 0x5B, 0x22, 0x74, 0x66, 0x6E} ==>
      var q := NumberEnd(b, p);
      ParseValue(b, p) == if q == p then Fail(UnexpectedByte) else Got(Num(b[p..q]), q)
  {
    hide ParseObject, ParseArray, ParseBody, NumberEnd, SkipSpaces;
    SpaceExact(b, p);
  }

  /** White space before a value changes nothing, and a value must come. */
  lemma LeadExact(b: seq<byte>, p: nat)
    requires p <= |b|
    ensures p == |b| ==> ParseValue(b, p) == Fail(EndOfInput)
    ensures p < |b| && b[p] in {0x20, 0x09, 0x0A, 0x0D} ==> ParseValue(b, p) == ParseValue(b, p + 1)
  {
    hide ParseObject, ParseArray, ParseString, ParseNumber;
  }

  ghost predicate ByteAt(b: seq<byte>, p: nat, c: byte) {
    p < |b| && b[p] == c
  }

  /** Items with commas between them and a bracket behind them. */
  lemma ItemsExact(b: seq<byte>, p: nat, done: seq<Json>)
    requires p <= |b|
    ensures var value := ParseValue(b, p);
      if value.Fail? then ParseItems(b, p, done) == Fail(value.error)
      else
        var q, longer := SkipSpaces(b, value.end), done + [value.value];
        ParseItems(b, p, done) ==
          if ByteAt(b, q, 0x2C) then ParseItems(b, q + 1, longer)
          else if ByteAt(b, q, 0x5D) then Got(Array(longer), q + 1)
          else Fail(ExpectedSeparator)
  {
    hide ParseValue, SkipSpaces;
  }

  /** Members, each a string, a colon and a value, with commas between them and a brace behind them. */
  lemma MembersExact(b: seq<byte>, p: nat, done: seq<(seq<byte>, Json)>)
    requires p <= |b|
    ensures var key := ParseKey(b, p);
      if key.Fail? then ParseMembers(b, p, done) == Fail(key.error)
      else
        var value := ParseValue(b, key.end);
        if value.Fail? then ParseMembers(b, p, done) == Fail(value.error)
        else
          var q, longer := SkipSpaces(b, value.end), done + [(key.value, value.value)];
          ParseMembers(b, p, done) ==
            if ByteAt(b, q, 0x2C) then ParseMembers(b, q + 1, longer)
            else if ByteAt(b, q, 0x7D) then Got(Object(longer), q + 1)
            else Fail(ExpectedSeparator)
  {
    hide ParseValue, ParseKey, SkipSpaces;
  }

  lemma KeyExact(b: seq<byte>, p: nat)
    requires p <= |b|
    ensures var start := SkipSpaces(b, p);
      if !ByteAt(b, start, 0x22) then ParseKey(b, p) == Fail(ExpectedByte)
      else
        var key := ParseBody(b, start + 1, []);
        if key.Fail? then ParseKey(b, p) == Fail(key.error)
        else
          var q := SkipSpaces(b, key.end);
          ParseKey(b, p) == if ByteAt(b, q, 0x3A) then Got(key.value, q + 1) else Fail(ExpectedByte)
  {
    hide ParseBody, SkipSpaces;
  }

  /** An empty array and an empty object, or the first item and the first member. */
  lemma OpenExact(b: seq<byte>, p: nat)
    requires p < |b|
    ensures var q := SkipSpaces(b, p + 1);
      && ParseArray(b, p) == (if ByteAt(b, q, 0x5D) then Got(Array([]), q + 1) else ParseItems(b, q, []))
      && ParseObject(b, p) == (if ByteAt(b, q, 0x7D) then Got(Object([]), q + 1) else ParseMembers(b, q, []))
  {
    hide ParseItems, ParseMembers, SkipSpaces;
  }
}
