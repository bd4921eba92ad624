// The DEFLATE decoder: its methods, each proved to compute the function beside it.

module Inflater {
  import opened Basics
  import opened BitStrings
  import opened BitReader
  import opened HuffmanCodes
  import opened Huffman
  import opened Deflate

  // ----- symbols and tokens -----

  ghost function ReadSymbol(lengths: seq<nat>, s: seq<bit>, p: nat): (r: Read<nat>)
    ensures r.Got? ==> p < r.end <= |s|
  {
    DecodeSpec(CanonicalTable(lengths), s, p)
  }

  datatype Symbol = EndOfBlock | Coded(token: Token)

  ghost function ReadMatch(distances: seq<nat>, s: seq<bit>, p: nat, lengthSymbol: nat): (r: Read<Token>)
    requires lengthSymbol < 29
    ensures r.Got? ==> p < r.end <= |s| && r.value.Match? && TokenFits(r.value)
  {
    var (lengthExtra, q) :- TakeBits(s, p, LENGTH_EXTRA[lengthSymbol]);
    var (distanceSymbol, q) :- ReadSymbol(distances, s, q);
    if distanceSymbol >= 30 then Fail(DistanceSymbolOutOfRange)
    else
      var (distanceExtra, q) :- TakeBits(s, q, DISTANCE_EXTRA[distanceSymbol]);
      Got(Match(lengthSymbol, lengthExtra, distanceSymbol, distanceExtra), q)
  }

  ghost function ReadToken(codes: Codes, s: seq<bit>, p: nat): (r: Read<Symbol>)
    ensures r.Got? ==> p < r.end <= |s| && (r.value.Coded? ==> TokenFits(r.value.token))
  {
    var (symbol, q) :- ReadSymbol(codes.literals, s, p);
    if symbol < 256 then Got(Coded(Literal(symbol)), q)
    else if symbol == END_OF_BLOCK then Got(EndOfBlock, q)
    else if symbol - 257 >= 29 then Fail(LengthSymbolOutOfRange)
    else
      var (token, q) :- ReadMatch(codes.distances, s, q, symbol - 257);
      Got(Coded(token), q)
  }

  ghost function ReadTokens(codes: Codes, s: seq<bit>, p: nat, out: seq<byte>): (r: Read<seq<byte>>)
    ensures r.Got? ==> p < r.end <= |s|
    decreases |s| - p
  {
    var (symbol, q) :- ReadToken(codes, s, p);
    if symbol.EndOfBlock? then Got(out, q)
    else if !TokenApplies(symbol.token, out) then Fail(BackReferenceBeforeStart)
    else ReadTokens(codes, s, q, ApplyToken(symbol.token, out))
  }

  /** The copy loop of a match. */
  method CopyBack(start: seq<byte>, distance: nat, length: nat) returns (out: seq<byte>)
    requires 1 <= distance <= |start|
    ensures out == CopyMatch(start, distance, length)
  {
    out := start;
    for offset := 0 to length
      invariant |out| == |start| + offset
      invariant CopyMatch(start, distance, length) == CopyMatch(out, distance, length - offset)
    {
      out := out + [out[|start| - distance + offset]];
    }
  }

  /** One turn of the symbol loop. */
  lemma TokensTurn(codes: Codes, s: seq<bit>, p: nat, out: seq<byte>)
    ensures var next := ReadToken(codes, s, p);
      ReadTokens(codes, s, p, out)
      == if next.Fail? then Fail(next.error)
         else if next.value.EndOfBlock? then Got(out, next.end)
         else if !TokenApplies(next.value.token, out) then Fail(BackReferenceBeforeStart)
         else ReadTokens(codes, s, next.end, ApplyToken(next.value.token, out))
  {
    hide ReadToken, TokenApplies, ApplyToken;
  }

  method HuffmanBlock(bits: Bits, start: seq<byte>, literal: Table, distance: Table, ghost codes: Codes)
    returns (r: Result<seq<byte>, PngError>)
    requires bits.Valid()
    requires literal == CanonicalTable(codes.literals) && distance == CanonicalTable(codes.distances)
    modifies bits
    ensures bits.Valid()
    ensures Agrees(r, bits.Pos(), ReadTokens(codes, bits.Stream(), old(bits.Pos()), start))
  {
    hide ReadTokens, CanonicalTable, DecodeSpec, ReadMatch, CopyMatch;
    var out := start;
    ghost var s, goal := bits.Stream(), ReadTokens(codes, bits.Stream(), bits.Pos(), start);
    while true
      invariant bits.Valid() && bits.Stream() == s
      invariant goal == ReadTokens(codes, s, bits.Pos(), out)
      decreases |s| - bits.Pos()
    {
      ghost var p := bits.Pos();
      TokensTurn(codes, s, p, out);
      var symbol :- Decode(literal, bits);
      if symbol < 256 {
        assert ReadToken(codes, s, p) == Got(Coded(Literal(symbol)), bits.Pos());
        out := out + [symbol];
        continue;
      }
      if symbol == 256 {
        return Ok(out);
      }
      var index := symbol - 257;
      if index >= |LENGTH_BASE| {
        return Err(LengthSymbolOutOfRange);
      }
      var token :- MatchBody(bits, distance, index, codes.distances);
      assert ReadToken(codes, s, p) == Got(Coded(token), bits.Pos());
      var back := MatchDistance(token);
      if back > |out| {
        return Err(BackReferenceBeforeStart);
      }
      out := CopyBack(out, back, MatchLength(token));
    }
  }

  /** The extra bits and the distance of a match whose length symbol has been read. */
  method MatchBody(bits: Bits, distance: Table, index: nat, ghost distances: seq<nat>)
    returns (r: Result<Token, PngError>)
    requires bits.Valid() && index < 29 && distance == CanonicalTable(distances)
    modifies bits
    ensures bits.Valid() && Agrees(r, bits.Pos(), ReadMatch(distances, bits.Stream(), old(bits.Pos()), index))
  {
    var lengthExtra :- bits.Take(LENGTH_EXTRA[index]);
    var symbol :- Decode(distance, bits);
    if symbol >= |DISTANCE_BASE| {
      return Err(DistanceSymbolOutOfRange);
    }
    var distanceExtra :- bits.Take(DISTANCE_EXTRA[symbol]);
    r := Ok(Match(index, lengthExtra, symbol, distanceExtra));
  }

  // ----- stored blocks -----

  ghost function ReadByte(s: seq<bit>, p: nat): (r: Read<byte>)
    ensures r.Got? ==> r.end == p + 8 <= |s|
  {
    var (value, q) :- TakeBits(s, p, 8);
    EightBits(value);
    Got(value, q)
  }

  ghost function ReadBytes(s: seq<bit>, p: nat, count: nat): (r: Read<seq<byte>>)
    ensures r.Got? ==> r.end == p + 8 * count && (count > 0 ==> r.end <= |s|)
    decreases count
  {
    if count == 0 then Got([], p)
    else
      var (done, q) :- ReadBytes(s, p, count - 1);
      var (last, q) :- ReadByte(s, q);
      Got(done + [last], q)
  }

  lemma EightBits(value: nat)
    ensures value < Pow2(8) <==> value < 256
  {
    Pow2Adds(4, 4);
    assert Pow2(4) == 16;
  }

  ghost function ReadStored(s: seq<bit>, p: nat, out: seq<byte>): (r: Read<seq<byte>>)
    ensures r.Got? ==> p < r.end <= |s|
  {
    var (length, q) :- TakeBits(s, AlignUp(p), 16);
    var (complement, q) :- TakeBits(s, q, 16);
    SixteenBits(length);
    if 0xFFFF - length != complement then Fail(StoredLengthMismatch)
    else
      var (bytes, q) :- ReadBytes(s, q, length);
      Got(out + bytes, q)
  }

  lemma ReadBytesStops(s: seq<bit>, p: nat, short: nat, long: nat)
    requires short <= long && ReadBytes(s, p, short).Fail?
    ensures ReadBytes(s, p, long) == Fail(Truncated)
  {
  }

  method StoredBlock(bits: Bits, start: seq<byte>) returns (r: Result<seq<byte>, PngError>)
    requires bits.Valid()
    modifies bits
    ensures bits.Valid()
    ensures Agrees(r, bits.Pos(), ReadStored(bits.Stream(), old(bits.Pos()), start))
  {
    hide Pow2, ReadBytes;
    bits.Align();
    ghost var boundary := bits.index;
    var length :- bits.Take(16);
    var complement :- bits.Take(16);
    SixteenBits(length);
    if 0xFFFF - length != complement {
      return Err(StoredLengthMismatch);
    }
    AlignedCursor(bits.index, bits.bit, boundary + 4);
    var bytes :- CopyStored(bits, length);
    r := Ok(start + bytes);
  }

  lemma SixteenBits(value: nat)
    ensures value < Pow2(16) <==> value < 0x1_0000
  {
    Pow2Adds(8, 8);
    EightBits(value);
    assert Pow2(8) == 256;
  }

  lemma NextByte(data: seq<byte>, k: nat)
    requires k < |data|
    ensures ReadByte(Unpack(data), 8 * k) == Got(data[k], 8 * k + 8)
  {
    ByteOfBits(data, k);
  }

  lemma NoNextByte(data: seq<byte>, k: nat)
    requires k >= |data|
    ensures ReadByte(Unpack(data), 8 * k) == Fail(Truncated)
  {
  }

  lemma NoBytes(s: seq<bit>, p: nat)
    ensures ReadBytes(s, p, 0) == Got([], p)
  {
  }

  lemma BytesTurn(s: seq<bit>, p: nat, count: nat)
    requires ReadBytes(s, p, count).Got?
    ensures var got := ReadBytes(s, p, count); var next := ReadByte(s, got.end);
      ReadBytes(s, p, count + 1)
      == if next.Fail? then Fail(next.error) else Got(got.value + [next.value], next.end)
  {
    hide ReadByte;
  }

  /** The bytes of a stored block, read whole from a byte boundary. */
  method CopyStored(bits: Bits, count: nat) returns (r: Result<seq<byte>, PngError>)
    requires bits.Valid() && bits.bit == 0
    modifies bits
    ensures bits.Valid()
    ensures Agrees(r, bits.Pos(), ReadBytes(bits.Stream(), old(bits.Pos()), count))
  {
    hide ReadBytes, ReadByte, Unpack;
    var out: seq<byte> := [];
    ghost var s, p := bits.Stream(), bits.Pos();
    NoBytes(s, p);
    for i := 0 to count
      invariant bits.Valid() && bits.bit == 0 && bits.Pos() == p + 8 * i
      invariant ReadBytes(s, p, i) == Got(out, bits.Pos())
    {
      AlignedCursor(bits.index, bits.bit, bits.index);
      BytesTurn(s, p, i);
      if bits.index >= |bits.data| {
        NoNextByte(bits.data, bits.index);
        ReadBytesStops(s, p, i + 1, count);
        return Err(Truncated);
      }
      NextByte(bits.data, bits.index);
      out := out + [bits.data[bits.index]];
      bits.index := bits.index + 1;
    }
    r := Ok(out);
  }

  // ----- dynamic headers -----

  ghost function ReadCodeLengths(s: seq<bit>, p: nat, from: nat, sent: nat, lengths: seq<nat>): (r: Read<seq<nat>>)
    requires from <= sent <= 19 && |lengths| == 19
    requires forall i :: 0 <= i < 19 ==> lengths[i] < 8
    ensures r.Got? ==> r.end == p + 3 * (sent - from) && (r.end <= |s| || from == sent)
    ensures r.Got? ==> |r.value| == 19 && forall i :: 0 <= i < 19 ==> r.value[i] < 8
    decreases sent - from
  {
    if from == sent then Got(lengths, p)
    else
      var (length, q) :- TakeBits(s, p, 3);
      ReadCodeLengths(s, q, from + 1, sent, lengths[CODE_LENGTH_ORDER[from] := length])
  }

  /** One run-length operation read after `done`; `Fail` as the decoder fails. */
  ghost function ReadOp(lengths: seq<nat>, s: seq<bit>, p: nat, done: seq<nat>): (r: Read<LengthOp>)
    ensures r.Got? ==> p < r.end <= |s| && OpApplies(r.value, done)
  {
    var (symbol, q) :- ReadSymbol(lengths, s, p);
    if symbol > 18 then Fail(CodeLengthSymbolOutOfRange)
    else if symbol == 16 && done == [] then Fail(RepeatWithoutPrevious)
    else
      var (extra, q) :- TakeBits(s, q, RunWidth(symbol));
      Got(LengthOp(symbol, extra), q)
  }

  ghost function ReadLengths(lengths: seq<nat>, s: seq<bit>, p: nat, total: nat, done: seq<nat>): (r: Read<seq<nat>>)
    requires LengthsFit(done)
    ensures r.Got? ==> p <= r.end && (p < r.end ==> r.end <= |s|) && LengthsFit(r.value)
    decreases |s| - p
  {
    if |done| >= total then Got(done, p)
    else
      var (op, q) :- ReadOp(lengths, s, p, done);
      ReadLengths(lengths, s, q, total, ApplyOp(op, done))
  }

  /** HLIT, HDIST and HCLEN, with their offsets added. */
  ghost function ReadSizes(s: seq<bit>, p: nat): (r: Read<Sizes>)
    ensures r.Got? ==> r.end == p + 14 <= |s|
    ensures r.Got? ==> SizesFit(r.value)
  {
    var (hlit, q) :- TakeBits(s, p, 5);
    var (hdist, q) :- TakeBits(s, q, 5);
    var (hclen, q) :- TakeBits(s, q, 4);
    assert Pow2(5) == 32 && Pow2(4) == 16;
    Got(Sizes(hlit + 257, hdist + 1, hclen + 4), q)
  }

  ghost function ReadCodes(sizes: Sizes, codeLengths: seq<nat>, s: seq<bit>, p: nat): (r: Read<Codes>)
    ensures r.Got? ==> p <= r.end && (p < r.end ==> r.end <= |s|)
    ensures r.Got? ==> LengthsFit(r.value.literals) && LengthsFit(r.value.distances)
    ensures r.Got? ==> |r.value.literals| == sizes.literals && |r.value.distances| == sizes.distances
  {
    var (lengths, q) :- ReadLengths(codeLengths, s, p, sizes.literals + sizes.distances, []);
    if |lengths| != sizes.literals + sizes.distances then Fail(CodeLengthsOverrun)
    else Got(SplitLengths(sizes, lengths), q)
  }

  ghost function ReadHeader(s: seq<bit>, p: nat): (r: Read<Codes>)
    ensures r.Got? ==> p < r.end <= |s|
    ensures r.Got? ==> LengthsFit(r.value.literals) && LengthsFit(r.value.distances)
    ensures r.Got? ==> |r.value.literals| <= 288 && |r.value.distances| <= 32
  {
    var (sizes, q) :- ReadSizes(s, p);
    var (codeLengths, q) :- ReadCodeLengths(s, q, 0, sizes.sent, Copies(0, 19));
    ReadCodes(sizes, codeLengths, s, q)
  }

  /** One turn of the code-length loop. */
  method ExpandOp(bits: Bits, code: Table, done: seq<nat>, ghost codeLengths: seq<nat>)
    returns (r: Result<seq<nat>, PngError>)
    requires bits.Valid() && code == CanonicalTable(codeLengths)
    modifies bits
    ensures bits.Valid()
    ensures match ReadOp(codeLengths, bits.Stream(), old(bits.Pos()), done)
            case Fail(error) => r == Err(error)
            case Got(op, end) => r == Ok(ApplyOp(op, done)) && bits.Pos() == end
  {
    hide DecodeSpec, CanonicalTable;
    var symbol :- Decode(code, bits);
    if symbol <= 15 {
      return Ok(done + [symbol]);
    }
    match symbol
    case 16 =>
      if done == [] {
        return Err(RepeatWithoutPrevious);
      }
      var extra :- bits.Take(2);
      r := Ok(done + Copies(done[|done| - 1], 3 + extra));
    case 17 =>
      var extra :- bits.Take(3);
      r := Ok(done + Copies(0, 3 + extra));
    case 18 =>
      var extra :- bits.Take(7);
      r := Ok(done + Copies(0, 11 + extra));
    case _ =>
      r := Err(CodeLengthSymbolOutOfRange);
  }

  lemma LengthsTurn(lengths: seq<nat>, s: seq<bit>, p: nat, total: nat, done: seq<nat>)
    requires LengthsFit(done)
    ensures var next := ReadOp(lengths, s, p, done);
      ReadLengths(lengths, s, p, total, done)
      == if |done| >= total then Got(done, p)
         else if next.Fail? then Fail(next.error)
         else ReadLengths(lengths, s, next.end, total, ApplyOp(next.value, done))
  {
    hide ReadOp, ApplyOp;
  }

  method ExpandLengths(bits: Bits, code: Table, total: nat, ghost codeLengths: seq<nat>)
    returns (r: Result<seq<nat>, PngError>)
    requires bits.Valid() && code == CanonicalTable(codeLengths)
    modifies bits
    ensures bits.Valid()
    ensures Agrees(r, bits.Pos(), ReadLengths(codeLengths, bits.Stream(), old(bits.Pos()), total, []))
  {
    hide ReadOp, ReadLengths, CanonicalTable, DecodeSpec;
    var lengths: seq<nat> := [];
    ghost var s, goal := bits.Stream(), ReadLengths(codeLengths, bits.Stream(), bits.Pos(), total, []);
    while |lengths| < total
      invariant bits.Valid() && bits.Stream() == s && LengthsFit(lengths)
      invariant goal == ReadLengths(codeLengths, s, bits.Pos(), total, lengths)
      decreases |s| - bits.Pos()
    {
      LengthsTurn(codeLengths, s, bits.Pos(), total, lengths);
      lengths :- ExpandOp(bits, code, lengths, codeLengths);
    }
    LengthsTurn(codeLengths, s, bits.Pos(), total, lengths);
    r := Ok(lengths);
  }

  lemma CodeLengthsTurn(s: seq<bit>, p: nat, from: nat, sent: nat, lengths: seq<nat>)
    requires from <= sent <= 19 && |lengths| == 19
    requires forall i :: 0 <= i < 19 ==> lengths[i] < 8
    ensures var next := TakeBits(s, p, 3);
      ReadCodeLengths(s, p, from, sent, lengths)
      == if from == sent then Got(lengths, p)
         else if next.Fail? then Fail(next.error)
         else ReadCodeLengths(s, next.end, from + 1, sent, lengths[CODE_LENGTH_ORDER[from] := next.value])
  {
    hide TakeBits;
  }

  method CodeLengthTable(bits: Bits, sent: nat) returns (r: Result<seq<nat>, PngError>)
    requires bits.Valid() && sent <= 19
    modifies bits
    ensures bits.Valid()
    ensures Agrees(r, bits.Pos(), ReadCodeLengths(bits.Stream(), old(bits.Pos()), 0, sent, Copies(0, 19)))
  {
    hide ReadCodeLengths, TakeBits;
    var lengths := new nat[19](_ => 0);
    ghost var s, goal := bits.Stream(), ReadCodeLengths(bits.Stream(), bits.Pos(), 0, sent, Copies(0, 19));
    assert lengths[..] == Copies(0, 19);
    for position := 0 to sent
      invariant bits.Valid() && bits.Stream() == s
      invariant forall i :: 0 <= i < 19 ==> lengths[..][i] < 8
      invariant goal == ReadCodeLengths(s, bits.Pos(), position, sent, lengths[..])
    {
      CodeLengthsTurn(s, bits.Pos(), position, sent, lengths[..]);
      var value :- bits.Take(3);
      assert Pow2(3) == 8;
      ghost var before := lengths[..];
      lengths[CODE_LENGTH_ORDER[position]] := value;
      assert lengths[..] == before[CODE_LENGTH_ORDER[position] := value];
    }
    CodeLengthsTurn(s, bits.Pos(), sent, sent, lengths[..]);
    r := Ok(lengths[..]);
  }

  method HeaderSizes(bits: Bits) returns (r: Result<Sizes, PngError>)
    requires bits.Valid()
    modifies bits
    ensures bits.Valid()
    ensures Agrees(r, bits.Pos(), ReadSizes(bits.Stream(), old(bits.Pos())))
  {
    var hlit :- bits.Take(5);
    var hdist :- bits.Take(5);
    var hclen :- bits.Take(4);
    r := Ok(Sizes(hlit + 257, hdist + 1, hclen + 4));
  }

  /** The two lists of code lengths a dynamic block announces. */
  method DynamicLengths(bits: Bits) returns (r: Result<Codes, PngError>)
    requires bits.Valid()
    modifies bits
    ensures bits.Valid()
    ensures Agrees(r, bits.Pos(), ReadHeader(bits.Stream(), old(bits.Pos())))
  {
    var sizes :- HeaderSizes(bits);
    var codeLengths :- CodeLengthTable(bits, sizes.sent);
    r := BlockCodes(bits, sizes, codeLengths);
  }

  /** The code lengths written with the code-length code, split between the two alphabets. */
  method BlockCodes(bits: Bits, sizes: Sizes, codeLengths: seq<nat>) returns (r: Result<Codes, PngError>)
    requires bits.Valid() && LengthsFit(codeLengths) && |codeLengths| == 19
    modifies bits
    ensures bits.Valid()
    ensures Agrees(r, bits.Pos(), ReadCodes(sizes, codeLengths, bits.Stream(), old(bits.Pos())))
  {
    hide ReadLengths, CanonicalTable;
    FewLengthsHold(codeLengths);
    var code := Build(codeLengths);
    var total := sizes.literals + sizes.distances;
    var lengths :- ExpandLengths(bits, code.value, total, codeLengths);
    if |lengths| != total {
      return Err(CodeLengthsOverrun);
    }
    r := Ok(Codes(lengths[..sizes.literals], lengths[sizes.literals..]));
  }

  method DynamicTables(bits: Bits) returns (r: Result<(Table, Table), PngError>, ghost codes: Codes)
    requires bits.Valid()
    modifies bits
    ensures bits.Valid()
    ensures match ReadHeader(bits.Stream(), old(bits.Pos()))
            case Fail(error) => r == Err(error)
            case Got(read, end) =>
              codes == read && bits.Pos() == end &&
              r == Ok((CanonicalTable(codes.literals), CanonicalTable(codes.distances)))
  {
    codes := Codes([], []);
    var lengths :- DynamicLengths(bits);
    codes := lengths;
    FewLengthsHold(lengths.literals);
    FewLengthsHold(lengths.distances);
    var literal := Build(lengths.literals);
    var distance := Build(lengths.distances);
    r := Ok((literal.value, distance.value));
  }

  // ----- the stream -----

  ghost function ReadBlock(s: seq<bit>, p: nat, kind: nat, out: seq<byte>): (r: Read<seq<byte>>)
    ensures r.Got? ==> p < r.end <= |s|
  {
    if kind == 0 then ReadStored(s, p, out)
    else if kind == 1 then ReadTokens(FixedCodes(), s, p, out)
    else if kind == 2 then
      var (codes, q) :- ReadHeader(s, p);
      ReadTokens(codes, s, q, out)
    else Fail(ReservedBlockType)
  }

  ghost function ReadStream(s: seq<bit>, p: nat, out: seq<byte>): (r: Read<seq<byte>>)
    ensures r.Got? ==> p < r.end <= |s|
    decreases |s| - p
  {
    var (last, q) :- TakeBits(s, p, 1);
    var (kind, q) :- TakeBits(s, q, 2);
    var (more, q) :- ReadBlock(s, q, kind, out);
    if last == 1 then Got(more, q) else ReadStream(s, q, more)
  }

  /** The output of a raw DEFLATE stream, and the index of the first byte after it. */
  ghost function InflateSpec(data: seq<byte>): Result<(seq<byte>, nat), PngError> {
    Inflated(ReadStream(Unpack(data), 0, []))
  }

  ghost function Inflated(read: Read<seq<byte>>): Result<(seq<byte>, nat), PngError> {
    match read
    case Got(out, end) => Ok((out, AlignUp(end) / 8))
    case Fail(error) => Err(error)
  }

  method FixedLiteral() returns (table: Table)
    ensures table == CanonicalTable(FixedLiterals())
  {
    var lengths := new nat[288](_ => 8);
    for symbol := 0 to 288
      invariant forall i :: 0 <= i < symbol ==> lengths[i] == FixedLiteralLength(i)
    {
      lengths[symbol] := if symbol < 144 then 8 else if symbol < 256 then 9 else if symbol < 280 then 7 else 8;
    }
    assert lengths[..] == FixedLiterals();
    FewLengthsHold(lengths[..]);
    var built := Build(lengths[..]);
    table := built.value;
  }

  method FixedDistance() returns (table: Table)
    ensures table == CanonicalTable(FixedDistances())
  {
    var lengths := seq(30, _ => 5);
    assert lengths == FixedDistances();
    FewLengthsHold(lengths);
    var built := Build(lengths);
    table := built.value;
  }

  method Inflate(data: seq<byte>) returns (r: Result<(seq<byte>, nat), PngError>)
    ensures r == InflateSpec(data)
  {
    hide ReadStream, AlignUp;
    var bits := new Bits(data);
    ghost var read := ReadStream(Unpack(data), bits.Pos(), []);
    assert InflateSpec(data) == Inflated(read);
    var out :- InflateBlocks(bits);
    bits.Align();
    assert 8 * bits.index == AlignUp(read.end);
    r := Ok((out, bits.index));
  }

  method InflateBlocks(bits: Bits) returns (r: Result<seq<byte>, PngError>)
    requires bits.Valid()
    modifies bits
    ensures bits.Valid()
    ensures Agrees(r, bits.Pos(), ReadStream(bits.Stream(), old(bits.Pos()), []))
  {
    var out: seq<byte> := [];
    ghost var s, goal := bits.Stream(), ReadStream(bits.Stream(), bits.Pos(), []);
    while true
      invariant bits.Valid() && bits.Stream() == s
      invariant goal == ReadStream(s, bits.Pos(), out)
      decreases |s| - bits.Pos()
    {
      var last :- bits.Take(1);
      var kind :- bits.Take(2);
      out :- InflateBlock(bits, kind, out);
      if last == 1 {
        break;
      }
    }
    r := Ok(out);
  }

  method InflateBlock(bits: Bits, kind: nat, start: seq<byte>) returns (r: Result<seq<byte>, PngError>)
    requires bits.Valid()
    modifies bits
    ensures bits.Valid()
    ensures Agrees(r, bits.Pos(), ReadBlock(bits.Stream(), old(bits.Pos()), kind, start))
  {
    match kind
    case 0 =>
      r := StoredBlock(bits, start);
    case 1 =>
      var literal := FixedLiteral();
      var distance := FixedDistance();
      r := HuffmanBlock(bits, start, literal, distance, FixedCodes());
    case 2 =>
      var tables, codes :- DynamicTables(bits);
      r := HuffmanBlock(bits, start, tables.0, tables.1, codes);
    case _ =>
      r := Err(ReservedBlockType);
  }
}
