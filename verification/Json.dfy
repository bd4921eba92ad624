// The minimal JSON reader: a recursive-descent parser over bytes with one moving index.

module Json {
  import opened Basics
  import opened Utf8

  /** Numbers keep their text; strings are UTF-8 bytes; members keep their order. */
  datatype Json =
    | Null
    | Bool(value: bool)
    | Num(text: seq<byte>)
    | Str(text: seq<byte>)
    | Array(items: seq<Json>)
    | Object(members: seq<(seq<byte>, Json)>)

  datatype JsonError =
    | EndOfInput
    | TrailingInput
    | ExpectedByte
    | ExpectedLiteral
    | ExpectedSeparator
    | UnterminatedString
    | UnterminatedEscape
    | UnknownEscape
    | BadUnicodeEscape
    | NotUtf8
    | UnexpectedByte

  type Parsed<+T> = Reading<T, JsonError>

  const COMMA: byte := 0x2C
  const OPEN_ARRAY: byte := 0x5B
  const CLOSE_ARRAY: byte := 0x5D
  const OPEN_OBJECT: byte := 0x7B
  const CLOSE_OBJECT: byte := 0x7D
  const TRUE: seq<byte> := [0x74, 0x72, 0x75, 0x65]
  const FALSE: seq<byte> := [0x66, 0x61, 0x6C, 0x73, 0x65]
  const NULL: seq<byte> := [0x6E, 0x75, 0x6C, 0x6C]

  predicate IsSpace(b: byte) {
    b == 0x20 || b == 0x09 || b == 0x0A || b == 0x0D
  }

  predicate IsNumberByte(b: byte) {
    b == 0x2D || b == 0x2B || b == 0x2E || b == 0x65 || b == 0x45 || 0x30 <= b <= 0x39
  }

  predicate HasByte(b: seq<byte>, p: nat, c: byte) {
    p < |b| && b[p] == c
  }

  // ----- the pieces -----

  function SkipSpaces(b: seq<byte>, p: nat): (q: nat)
    requires p <= |b|
    ensures p <= q <= |b|
    decreases |b| - p
  {
    if p < |b| && IsSpace(b[p]) then SkipSpaces(b, p + 1) else p
  }

  function NumberEnd(b: seq<byte>, p: nat): (q: nat)
    requires p <= |b|
    ensures p <= q <= |b|
    decreases |b| - p
  {
    if p < |b| && IsNumberByte(b[p]) then NumberEnd(b, p + 1) else p
  }

  /** A stretch of a string up to the next quote or backslash. */
  function ChunkEnd(b: seq<byte>, p: nat): (q: nat)
    requires p <= |b|
    ensures p <= q <= |b|
    decreases |b| - p
  {
    if p < |b| && b[p] != QUOTE && b[p] != BACKSLASH then ChunkEnd(b, p + 1) else p
  }

  ghost function ParseLiteral(b: seq<byte>, p: nat, text: seq<byte>, value: Json): (r: Parsed<Json>)
    ensures r.Got? ==> r.end == p + |text| <= |b|
  {
    if p + |text| <= |b| && b[p..p + |text|] == text then Got(value, p + |text|) else Fail(ExpectedLiteral)
  }

  ghost function ParseNumber(b: seq<byte>, p: nat): (r: Parsed<Json>)
    requires p <= |b|
    ensures r.Got? ==> p < r.end <= |b|
  {
    var q := NumberEnd(b, p);
    if q == p then Fail(UnexpectedByte) else Got(Num(b[p..q]), q)
  }

  /** The character a one-letter escape stands for. */
  function ShortEscape(c: byte): Result<byte, JsonError> {
    if c == 0x22 then Ok(0x22)
    else if c == 0x5C then Ok(0x5C)
    else if c == 0x2F then Ok(0x2F)
    else if c == 0x62 then Ok(0x08)
    else if c == 0x66 then Ok(0x0C)
    else if c == 0x6E then Ok(0x0A)
    else if c == 0x72 then Ok(0x0D)
    else if c == 0x74 then Ok(0x09)
    else Err(UnknownEscape)
  }

  function HexDigit(c: byte): (r: Result<nat, JsonError>)
    ensures r.Ok? ==> r.value < 16
  {
    if 0x30 <= c <= 0x39 then Ok(c - 0x30)
    else if 0x61 <= c <= 0x66 then Ok(c - 0x61 + 10)
    else if 0x41 <= c <= 0x46 then Ok(c - 0x41 + 10)
    else Err(BadUnicodeEscape)
  }

  function HexDigits(d: seq<byte>): (r: Result<nat, JsonError>)
    ensures r.Ok? ==> r.value < Power16(|d|)
  {
    if d == [] then Ok(0)
    else
      var high :- HexDigits(d[..|d| - 1]);
      var low :- HexDigit(d[|d| - 1]);
      Ok(16 * high + low)
  }

  function Power16(n: nat): (r: nat)
    ensures r > 0
  {
    if n == 0 then 1 else 16 * Power16(n - 1)
  }

  const PLUS: byte := 0x2B

  /** The four digits of a unicode escape. The number reader also takes a leading plus sign. */
  function UnicodeEscape(d: seq<byte>): (r: Result<nat, JsonError>)
    requires |d| == 4
    ensures r.Ok? ==> r.value < 0x1_0000
  {
    assert Power16(4) == 0x1_0000 && Power16(3) == 0x1000;
    if !ValidUtf8(d) then Err(NotUtf8) else if d[0] == PLUS then HexDigits(d[1..]) else HexDigits(d)
  }

  /** The UTF-8 of an escaped character; half of a surrogate pair becomes U+FFFD. */
  function EscapedText(code: nat): (s: seq<byte>)
    requires code < 0x1_0000
    ensures s != []
  {
    if 0xD800 <= code < 0xE000 then [0xEF, 0xBF, 0xBD]
    else if code < 0x80 then [code]
    else if code < 0x800 then [0xC0 + code / 64, 0x80 + code % 64]
    else [0xE0 + code / 4096, 0x80 + code / 64 % 64, 0x80 + code % 64]
  }

  lemma EscapedTextIsValid(code: nat)
    requires code < 0x1_0000
    ensures ValidUtf8(EscapedText(code))
  {
    var s := EscapedText(code);
    assert CharLength(s) == |s|;
    assert s[|s|..] == [];
  }

  ghost function ParseEscape(b: seq<byte>, p: nat): (r: Parsed<seq<byte>>)
    ensures r.Got? ==> p < r.end <= |b|
  {
    if p >= |b| then Fail(UnterminatedEscape)
    else if b[p] == 0x75 then
      if p + 5 > |b| then Fail(EndOfInput)
      else
        match UnicodeEscape(b[p + 1..p + 5])
        case Err(error) => Fail(error)
        case Ok(code) => Got(EscapedText(code), p + 5)
    else
      match ShortEscape(b[p])
      case Err(error) => Fail(error)
      case Ok(c) => Got([c], p + 1)
  }

  /** The rest of a string after its opening quote and `done`. */
  ghost function ParseBody(b: seq<byte>, p: nat, done: seq<byte>): (r: Parsed<seq<byte>>)
    ensures r.Got? ==> p < r.end <= |b|
    decreases |b| - p
  {
    if p >= |b| then Fail(UnterminatedString)
    else if b[p] == QUOTE then Got(done, p + 1)
    else if b[p] == BACKSLASH then
      var (text, q) :- ParseEscape(b, p + 1);
      ParseBody(b, q, done + text)
    else
      var q := ChunkEnd(b, p);
      if !ValidUtf8(b[p..q]) then Fail(NotUtf8) else ParseBody(b, q, done + b[p..q])
  }

  ghost function ParseString(b: seq<byte>, p: nat): (r: Parsed<seq<byte>>)
    ensures r.Got? ==> p < r.end <= |b|
  {
    if HasByte(b, p, QUOTE) then ParseBody(b, p + 1, []) else Fail(ExpectedByte)
  }

  // ----- values -----

  ghost function ParseValue(b: seq<byte>, start: nat): (r: Parsed<Json>)
    requires start <= |b|
    ensures r.Got? ==> start < r.end <= |b|
    decreases |b| - start, 2
  {
    var p := SkipSpaces(b, start);
    if p >= |b| then Fail(EndOfInput)
    else if b[p] == OPEN_OBJECT then ParseObject(b, p)
    else if b[p] == OPEN_ARRAY then ParseArray(b, p)
    else if b[p] == QUOTE then
      var (text, q) :- ParseString(b, p);
      Got(Str(text), q)
    else if b[p] == TRUE[0] then ParseLiteral(b, p, TRUE, Bool(true))
    else if b[p] == FALSE[0] then ParseLiteral(b, p, FALSE, Bool(false))
    else if b[p] == NULL[0] then ParseLiteral(b, p, NULL, Null)
    else ParseNumber(b, p)
  }

  ghost function ParseArray(b: seq<byte>, p: nat): (r: Parsed<Json>)
    requires p < |b|
    ensures r.Got? ==> p < r.end <= |b|
    decreases |b| - p, 1
  {
    var q := SkipSpaces(b, p + 1);
    if HasByte(b, q, CLOSE_ARRAY) then Got(Array([]), q + 1) else ParseItems(b, q, [])
  }

  ghost function ParseItems(b: seq<byte>, p: nat, done: seq<Json>): (r: Parsed<Json>)
    requires p <= |b|
    ensures r.Got? ==> p < r.end <= |b|
    decreases |b| - p, 3
  {
    var (value, q) :- ParseValue(b, p);
    var q := SkipSpaces(b, q);
    if HasByte(b, q, COMMA) then ParseItems(b, q + 1, done + [value])
    else if HasByte(b, q, CLOSE_ARRAY) then Got(Array(done + [value]), q + 1)
    else Fail(ExpectedSeparator)
  }

  ghost function ParseObject(b: seq<byte>, p: nat): (r: Parsed<Json>)
    requires p < |b|
    ensures r.Got? ==> p < r.end <= |b|
    decreases |b| - p, 1
  {
    var q := SkipSpaces(b, p + 1);
    if HasByte(b, q, CLOSE_OBJECT) then Got(Object([]), q + 1) else ParseMembers(b, q, [])
  }

  /** A key and the colon after it. */
  ghost function ParseKey(b: seq<byte>, p: nat): (r: Parsed<seq<byte>>)
    requires p <= |b|
    ensures r.Got? ==> p < r.end <= |b|
  {
    var (key, q) :- ParseString(b, SkipSpaces(b, p));
    var q := SkipSpaces(b, q);
    if HasByte(b, q, COLON) then Got(key, q + 1) else Fail(ExpectedByte)
  }

  ghost function ParseMembers(b: seq<byte>, p: nat, done: seq<(seq<byte>, Json)>): (r: Parsed<Json>)
    requires p <= |b|
    ensures r.Got? ==> p < r.end <= |b|
    decreases |b| - p, 3
  {
    var (key, q) :- ParseKey(b, p);
    var (value, q) :- ParseValue(b, q);
    var q := SkipSpaces(b, q);
    if HasByte(b, q, COMMA) then ParseMembers(b, q + 1, done + [(key, value)])
    else if HasByte(b, q, CLOSE_OBJECT) then Got(Object(done + [(key, value)]), q + 1)
    else Fail(ExpectedSeparator)
  }

  ghost function ParseSpec(b: seq<byte>): Result<Json, JsonError> {
    match ParseValue(b, 0)
    case Fail(error) => Err(error)
    case Got(value, end) => if SkipSpaces(b, end) < |b| then Err(TrailingInput) else Ok(value)
  }

  // ----- the parser -----

  class JsonParser {
    const bytes: seq<byte>
    var index: nat

    ghost predicate Valid()
      reads this
    {
      index <= |bytes|
    }

    constructor (bytes: seq<byte>)
      ensures Valid() && index == 0 && this.bytes == bytes
    {
      this.bytes := bytes;
      index := 0;
    }

    method SkipWhitespace()
      requires Valid()
      modifies this
      ensures Valid() && index == SkipSpaces(bytes, old(index))
    {
      ghost var goal := SkipSpaces(bytes, index);
      while index < |bytes| && IsSpace(bytes[index])
        invariant Valid() && goal == SkipSpaces(bytes, index)
      {
        index := index + 1;
      }
    }

    method Expect(c: byte) returns (r: Result<(), JsonError>)
      requires Valid()
      modifies this
      ensures Valid()
      ensures if HasByte(bytes, old(index), c) then r == Ok(()) && index == old(index) + 1 else r == Err(ExpectedByte)
    {
      if HasByte(bytes, index, c) {
        index := index + 1;
        return Ok(());
      }
      r := Err(ExpectedByte);
    }

    method Literal(text: seq<byte>, value: Json) returns (r: Result<Json, JsonError>)
      requires Valid()
      modifies this
      ensures Valid() && Agrees(r, index, ParseLiteral(bytes, old(index), text, value))
    {
      var end := index + |text|;
      if end <= |bytes| && bytes[index..end] == text {
        index := end;
        return Ok(value);
      }
      r := Err(ExpectedLiteral);
    }

    method Number() returns (r: Result<Json, JsonError>)
      requires Valid()
      modifies this
      ensures Valid() && Agrees(r, index, ParseNumber(bytes, old(index)))
    {
      var start := index;
      ghost var goal := NumberEnd(bytes, index);
      while index < |bytes| && IsNumberByte(bytes[index])
        invariant Valid() && index >= start && goal == NumberEnd(bytes, index)
      {
        index := index + 1;
      }
      if start == index {
        return Err(UnexpectedByte);
      }
      r := Ok(Num(bytes[start..index]));
    }

    method Escape() returns (r: Result<seq<byte>, JsonError>)
      requires Valid()
      modifies this
      ensures Valid() && Agrees(r, index, ParseEscape(bytes, old(index)))
    {
      if index >= |bytes| {
        return Err(UnterminatedEscape);
      }
      var escape := bytes[index];
      index := index + 1;
      if escape == 0x75 {
        var end := index + 4;
        if end > |bytes| {
          return Err(EndOfInput);
        }
        var code :- UnicodeEscape(bytes[index..end]);
        index := end;
        return Ok(EscapedText(code));
      }
      var c :- ShortEscape(escape);
      r := Ok([c]);
    }

    method String() returns (r: Result<seq<byte>, JsonError>)
      requires Valid()
      modifies this
      ensures Valid() && Agrees(r, index, ParseString(bytes, old(index)))
    {
      hide ParseEscape, ChunkEnd, ValidUtf8;
      var _ :- Expect(QUOTE);
      var out: seq<byte> := [];
      ghost var goal := ParseBody(bytes, index, out);
      while true
        invariant Valid() && goal == ParseBody(bytes, index, out)
        decreases |bytes| - index
      {
        if index >= |bytes| {
          return Err(UnterminatedString);
        }
        if bytes[index] == QUOTE {
          index := index + 1;
          return Ok(out);
        }
        if bytes[index] == BACKSLASH {
          index := index + 1;
          var text :- Escape();
          out := out + text;
        } else {
          var start := index;
          Chunk();
          if !ValidUtf8(bytes[start..index]) {
            return Err(NotUtf8);
          }
          out := out + bytes[start..index];
        }
      }
    }

    method Chunk()
      requires Valid() && index < |bytes| && bytes[index] != QUOTE && bytes[index] != BACKSLASH
      modifies this
      ensures Valid() && index == ChunkEnd(bytes, old(index)) > old(index)
    {
      ghost var goal := ChunkEnd(bytes, index);
      while index < |bytes| && bytes[index] != QUOTE && bytes[index] != BACKSLASH
        invariant Valid() && index >= old(index) && goal == ChunkEnd(bytes, index)
      {
        index := index + 1;
      }
    }

    method Value() returns (r: Result<Json, JsonError>)
      requires Valid()
      modifies this
      ensures Valid() && Agrees(r, index, ParseValue(bytes, old(index)))
      decreases |bytes| - index, 2
    {
      hide ParseObject, ParseArray, ParseString, ParseNumber, SkipSpaces;
      SkipWhitespace();
      if index >= |bytes| {
        return Err(EndOfInput);
      }
      var c := bytes[index];
      if c == OPEN_OBJECT {
        r := ObjectValue();
      } else if c == OPEN_ARRAY {
        r := ArrayValue();
      } else if c == QUOTE {
        var text :- String();
        r := Ok(Str(text));
      } else if c == TRUE[0] {
        r := Literal(TRUE, Bool(true));
      } else if c == FALSE[0] {
        r := Literal(FALSE, Bool(false));
      } else if c == NULL[0] {
        r := Literal(NULL, Null);
      } else {
        r := Number();
      }
    }

    method ArrayValue() returns (r: Result<Json, JsonError>)
      requires Valid() && HasByte(bytes, index, OPEN_ARRAY)
      modifies this
      ensures Valid() && Agrees(r, index, ParseArray(bytes, old(index)))
      decreases |bytes| - index, 1
    {
      hide ParseValue, SkipSpaces;
      var opening := Expect(OPEN_ARRAY);
      var items: seq<Json> := [];
      SkipWhitespace();
      if HasByte(bytes, index, CLOSE_ARRAY) {
        index := index + 1;
        return Ok(Array(items));
      }
      ghost var goal := ParseItems(bytes, index, items);
      while true
        invariant Valid() && index > old(index) && goal == ParseItems(bytes, index, items)
        decreases |bytes| - index
      {
        var value :- Value();
        items := items + [value];
        SkipWhitespace();
        if HasByte(bytes, index, COMMA) {
          index := index + 1;
        } else if HasByte(bytes, index, CLOSE_ARRAY) {
          index := index + 1;
          return Ok(Array(items));
        } else {
          return Err(ExpectedSeparator);
        }
      }
    }

    method Key() returns (r: Result<seq<byte>, JsonError>)
      requires Valid()
      modifies this
      ensures Valid() && Agrees(r, index, ParseKey(bytes, old(index)))
    {
      hide ParseString, SkipSpaces;
      SkipWhitespace();
      var key :- String();
      SkipWhitespace();
      var _ :- Expect(COLON);
      r := Ok(key);
    }

    method ObjectValue() returns (r: Result<Json, JsonError>)
      requires Valid() && HasByte(bytes, index, OPEN_OBJECT)
      modifies this
      ensures Valid() && Agrees(r, index, ParseObject(bytes, old(index)))
      decreases |bytes| - index, 1
    {
      hide ParseValue, ParseKey, SkipSpaces;
      var opening := Expect(OPEN_OBJECT);
      var members: seq<(seq<byte>, Json)> := [];
      SkipWhitespace();
      if HasByte(bytes, index, CLOSE_OBJECT) {
        index := index + 1;
        return Ok(Object(members));
      }
      ghost var goal := ParseMembers(bytes, index, members);
      while true
        invariant Valid() && index > old(index) && goal == ParseMembers(bytes, index, members)
        decreases |bytes| - index
      {
        var key :- Key();
        var value :- Value();
        members := members + [(key, value)];
        SkipWhitespace();
        if HasByte(bytes, index, COMMA) {
          index := index + 1;
        } else if HasByte(bytes, index, CLOSE_OBJECT) {
          index := index + 1;
          return Ok(Object(members));
        } else {
          return Err(ExpectedSeparator);
        }
      }
    }
  }

  method Parse(input: seq<byte>) returns (r: Result<Json, JsonError>)
    requires ValidUtf8(input)
    ensures r == ParseSpec(input)
  {
    hide ParseValue, SkipSpaces, ValidUtf8;
    var parser := new JsonParser(input);
    var value :- parser.Value();
    parser.SkipWhitespace();
    if parser.index < |parser.bytes| {
      return Err(TrailingInput);
    }
    r := Ok(value);
  }
}
