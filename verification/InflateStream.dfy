// Whole DEFLATE streams: the decoder accepts exactly the streams the format allows, returns exactly
// what they expand to, and never returns more than the format can pack into the bits it read.

module InflateStream {
  import opened Basics
  import opened BitStrings
  import opened BitReader
  import opened Deflate
  import opened Inflater
  import opened InflateTokens
  import opened InflateHeaders

  // ----- stored blocks -----

  lemma ByteFound(b: byte, s: seq<bit>, p: nat)
    requires At(s, p, LsbBits(b, 8))
    ensures ReadByte(s, p) == Got(b, p + 8)
  {
    EightBits(b);
    TakeInverts(s, p, b, 8);
  }

  lemma ByteSound(s: seq<bit>, p: nat)
    requires ReadByte(s, p).Got?
    ensures At(s, p, LsbBits(ReadByte(s, p).value, 8))
  {
    TakeSound(s, p, 8);
  }

  lemma {:induction false} BytesFound(bytes: seq<byte>, s: seq<bit>, p: nat)
    requires At(s, p, BytesBits(bytes))
    ensures ReadBytes(s, p, |bytes|) == Got(bytes, p + 8 * |bytes|)
    decreases |bytes|
  {
    hide At, LsbBits, ReadByte;
    if bytes != [] {
      var init, last := bytes[..|bytes| - 1], bytes[|bytes| - 1];
      AtSplits(s, p, BytesBits(init), LsbBits(last, 8));
      BytesFound(init, s, p);
      ByteFound(last, s, p + 8 * |init|);
      assert bytes == init + [last];
    }
  }

  lemma {:induction false} BytesSound(s: seq<bit>, p: nat, count: nat)
    requires ReadBytes(s, p, count).Got? && p <= |s|
    ensures |ReadBytes(s, p, count).value| == count
    ensures At(s, p, BytesBits(ReadBytes(s, p, count).value))
    decreases count
  {
    hide LsbBits, ReadByte;
    if count > 0 {
      BytesSound(s, p, count - 1);
      var init := ReadBytes(s, p, count - 1).value;
      var last := ReadByte(s, p + 8 * (count - 1)).value;
      ByteSound(s, p + 8 * (count - 1));
      AtSplits(s, p, BytesBits(init), LsbBits(last, 8));
      var bytes := ReadBytes(s, p, count).value;
      assert bytes[..|bytes| - 1] == init && bytes[|bytes| - 1] == last;
    }
  }

  ghost function StoredBits(padding: seq<bit>, bytes: seq<byte>): seq<bit>
    requires |bytes| < 0x1_0000
  {
    padding + (LsbBits(|bytes|, 16) + (LsbBits(0xFFFF - |bytes|, 16) + BytesBits(bytes)))
  }

  lemma StoredReads(s: seq<bit>, p: nat, out: seq<byte>, bytes: seq<byte>)
    requires |bytes| < 0x1_0000
    requires TakeBits(s, AlignUp(p), 16) == Got(|bytes|, AlignUp(p) + 16)
    requires TakeBits(s, AlignUp(p) + 16, 16) == Got(0xFFFF - |bytes|, AlignUp(p) + 32)
    requires ReadBytes(s, AlignUp(p) + 32, |bytes|) == Got(bytes, AlignUp(p) + 32 + 8 * |bytes|)
    ensures ReadStored(s, p, out) == Got(out + bytes, AlignUp(p) + 32 + 8 * |bytes|)
  {
    hide TakeBits, ReadBytes, AlignUp;
  }

  lemma StoredSplits(padding: seq<bit>, bytes: seq<byte>, s: seq<bit>, p: nat)
    requires |bytes| < 0x1_0000
    ensures |StoredBits(padding, bytes)| == |padding| + 32 + 8 * |bytes|
    ensures At(s, p, StoredBits(padding, bytes)) <==>
      && At(s, p, padding)
      && At(s, p + |padding|, LsbBits(|bytes|, 16))
      && At(s, p + |padding| + 16, LsbBits(0xFFFF - |bytes|, 16))
      && At(s, p + |padding| + 32, BytesBits(bytes))
  {
    hide At, LsbBits, BytesBits;
    var a, b, c := LsbBits(|bytes|, 16), LsbBits(0xFFFF - |bytes|, 16), BytesBits(bytes);
    AtSplits(s, p, padding, a + (b + c));
    AtSplits(s, p + |padding|, a, b + c);
    AtSplits(s, p + |padding| + 16, b, c);
  }

  lemma StoredFound(padding: seq<bit>, bytes: seq<byte>, s: seq<bit>, p: nat, out: seq<byte>)
    requires p + |padding| == AlignUp(p) && |bytes| < 0x1_0000
    requires At(s, p, StoredBits(padding, bytes))
    ensures ReadStored(s, p, out) == Got(out + bytes, p + |StoredBits(padding, bytes)|)
  {
    hide At, LsbBits, BytesBits, StoredBits, TakeBits, ReadBytes, ReadStored, AlignUp, Pow2;
    var q := AlignUp(p);
    StoredSplits(padding, bytes, s, p);
    SixteenBits(|bytes|);
    SixteenBits(0xFFFF - |bytes|);
    TakeInverts(s, q, |bytes|, 16);
    TakeInverts(s, q + 16, 0xFFFF - |bytes|, 16);
    BytesFound(bytes, s, q + 32);
    StoredReads(s, p, out, bytes);
  }

  lemma StoredSound(s: seq<bit>, p: nat, out: seq<byte>) returns (padding: seq<bit>, bytes: seq<byte>)
    requires ReadStored(s, p, out).Got?
    ensures p + |padding| == AlignUp(p) && |bytes| < 0x1_0000
    ensures At(s, p, StoredBits(padding, bytes))
    ensures ReadStored(s, p, out) == Got(out + bytes, p + |StoredBits(padding, bytes)|)
  {
    hide At, LsbBits, BytesBits, StoredBits, ReadBytes, AlignUp, Pow2;
    var q := AlignUp(p);
    padding := s[p..q];
    var length := TakeBits(s, q, 16).value;
    bytes := ReadBytes(s, q + 32, length).value;
    SixteenBits(length);
    TakeSound(s, q, 16);
    TakeSound(s, q + 16, 16);
    BytesSound(s, q + 32, length);
    SliceStands(s, p, q);
    StoredSplits(padding, bytes, s, p);
  }

  // ----- blocks -----

  lemma BlockFound(b: Block, s: seq<bit>, p: nat, out: seq<byte>)
    requires BlockFits(b, p, out)
    requires At(s, p + 3, BlockBody(b, p, out))
    ensures ReadBlock(s, p + 3, BlockKind(b), out) == Got(BlockOutput(b, p, out), p + 3 + |BlockBody(b, p, out)|)
  {
    hide At, ReadStored, ReadTokens, ReadHeader, TokensBits, HeaderBits, ApplyTokens, TokensEncodable, TokensApply,
      HeaderFits, HeaderCodes, FixedCodes, LsbBits, BytesBits;
    match b
    case Stored(padding, bytes) =>
      StoredFound(padding, bytes, s, p + 3, out);
    case Fixed(tokens) =>
      TokensFound(FixedCodes(), tokens, s, p + 3, out);
    case Dynamic(header, tokens) =>
      AtSplits(s, p + 3, HeaderBits(header), TokensBits(HeaderCodes(header), tokens));
      HeaderFound(header, s, p + 3);
      TokensFound(HeaderCodes(header), tokens, s, p + 3 + |HeaderBits(header)|, out);
  }

  lemma BlockSound(s: seq<bit>, p: nat, kind: nat, out: seq<byte>) returns (b: Block)
    requires ReadBlock(s, p + 3, kind, out).Got?
    ensures BlockFits(b, p, out) && BlockKind(b) == kind
    ensures At(s, p + 3, BlockBody(b, p, out))
  {
    hide At, ReadStored, ReadTokens, ReadHeader, TokensBits, HeaderBits, ApplyTokens, TokensEncodable, TokensApply,
      HeaderFits, HeaderCodes, FixedCodes, LsbBits, BytesBits;
    if kind == 0 {
      var padding, bytes := StoredSound(s, p + 3, out);
      b := Stored(padding, bytes);
    } else if kind == 1 {
      var tokens := TokensSound(FixedCodes(), s, p + 3, out);
      b := Fixed(tokens);
    } else {
      var header := HeaderSound(s, p + 3);
      var tokens := TokensSound(HeaderCodes(header), s, p + 3 + |HeaderBits(header)|, out);
      b := Dynamic(header, tokens);
      AtSplits(s, p + 3, HeaderBits(header), TokensBits(HeaderCodes(header), tokens));
    }
  }

  /** One turn of the block loop over a block written at `p`. */
  lemma BlockTurn(b: Block, s: seq<bit>, p: nat, out: seq<byte>, last: bool)
    requires BlockFits(b, p, out)
    requires At(s, p, BlockBits(b, p, out, last))
    ensures TakeBits(s, p, 1) == Got(if last then 1 else 0, p + 1)
    ensures TakeBits(s, p + 1, 2) == Got(BlockKind(b), p + 3)
    ensures ReadBlock(s, p + 3, BlockKind(b), out) == Got(BlockOutput(b, p, out), p + |BlockBits(b, p, out, last)|)
  {
    hide At, ReadBlock, BlockFits, BlockBody, BlockOutput, LsbBits, TakeBits;
    var final := if last then 1 else 0;
    AtSplits(s, p, LsbBits(final, 1), LsbBits(BlockKind(b), 2) + BlockBody(b, p, out));
    AtSplits(s, p + 1, LsbBits(BlockKind(b), 2), BlockBody(b, p, out));
    assert Pow2(1) == 2 && Pow2(2) == 4;
    TakeInverts(s, p, final, 1);
    TakeInverts(s, p + 1, BlockKind(b), 2);
    BlockFound(b, s, p, out);
  }

  // ----- streams -----

  lemma {:induction false} StreamFound(blocks: seq<Block>, s: seq<bit>, p: nat, out: seq<byte>)
    requires StreamFits(blocks, p, out)
    requires At(s, p, StreamBits(blocks, p, out))
    ensures ReadStream(s, p, out) == Got(StreamOutput(blocks, p, out), p + |StreamBits(blocks, p, out)|)
    decreases |blocks|
  {
    hide At, ReadBlock, BlockFits, BlockBits, BlockOutput, TakeBits;
    if |blocks| == 1 {
      BlockTurn(blocks[0], s, p, out, true);
    } else {
      var bits, end := BlockBits(blocks[0], p, out, false), BlockEnd(blocks[0], p, out);
      var more := BlockOutput(blocks[0], p, out);
      AtSplits(s, p, bits, StreamBits(blocks[1..], end, more));
      BlockTurn(blocks[0], s, p, out, false);
      StreamFound(blocks[1..], s, end, more);
    }
  }

  lemma BlockBitsSound(s: seq<bit>, p: nat, out: seq<byte>, last: bool) returns (b: Block)
    requires TakeBits(s, p, 1) == Got(if last then 1 else 0, p + 1)
    requires TakeBits(s, p + 1, 2).Got?
    requires ReadBlock(s, p + 3, TakeBits(s, p + 1, 2).value, out).Got?
    ensures BlockFits(b, p, out)
    ensures At(s, p, BlockBits(b, p, out, last))
  {
    hide At, ReadBlock, BlockFits, BlockBody, LsbBits;
    var kind := TakeBits(s, p + 1, 2).value;
    b := BlockSound(s, p, kind, out);
    TakeSound(s, p, 1);
    TakeSound(s, p + 1, 2);
    AtSplits(s, p + 1, LsbBits(kind, 2), BlockBody(b, p, out));
    AtSplits(s, p, LsbBits(if last then 1 else 0, 1), LsbBits(kind, 2) + BlockBody(b, p, out));
  }

  lemma {:induction false} StreamSound(s: seq<bit>, p: nat, out: seq<byte>) returns (blocks: seq<Block>)
    requires ReadStream(s, p, out).Got?
    ensures StreamFits(blocks, p, out)
    ensures At(s, p, StreamBits(blocks, p, out))
    decreases |s| - p
  {
    hide At, ReadBlock, BlockFits, BlockBits, BlockOutput;
    var last := TakeBits(s, p, 1).value == 1;
    assert Pow2(1) == 2;
    var b := BlockBitsSound(s, p, out, last);
    BlockTurn(b, s, p, out, last);
    if last {
      blocks := [b];
    } else {
      var end, more := BlockEnd(b, p, out), BlockOutput(b, p, out);
      var rest := StreamSound(s, end, more);
      blocks := [b] + rest;
      assert blocks[1..] == rest;
      AtSplits(s, p, BlockBits(b, p, out, false), StreamBits(rest, end, more));
    }
  }

  /** The bytes begin with the bits of this stream. */
  ghost predicate Holds(data: seq<byte>, blocks: seq<Block>) {
    StreamFits(blocks, 0, []) && At(Unpack(data), 0, StreamBits(blocks, 0, []))
  }

  /** Decoding a stream gives its expansion and the index of the first byte after its last, padded one. */
  lemma InflateInverts(data: seq<byte>, blocks: seq<Block>)
    requires Holds(data, blocks)
    ensures InflateSpec(data) == Ok((StreamOutput(blocks, 0, []), AlignUp(|StreamBits(blocks, 0, [])|) / 8))
  {
    hide At, ReadStream, StreamFits, StreamBits, StreamOutput;
    StreamFound(blocks, Unpack(data), 0, []);
  }

  /** The decoder returns this output and this end exactly when some well-formed stream there gives them. */
  lemma InflateExact(data: seq<byte>, out: seq<byte>, end: nat)
    ensures InflateSpec(data) == Ok((out, end)) <==>
            exists blocks :: && Holds(data, blocks)
                             && StreamOutput(blocks, 0, []) == out
                             && AlignUp(|StreamBits(blocks, 0, [])|) / 8 == end
  {
    hide At, ReadStream, StreamFits, StreamBits, StreamOutput;
    if InflateSpec(data) == Ok((out, end)) {
      var blocks := StreamSound(Unpack(data), 0, []);
      assert Holds(data, blocks);
      InflateInverts(data, blocks);
    }
    forall blocks | Holds(data, blocks)
      ensures InflateSpec(data) == Ok((StreamOutput(blocks, 0, []), AlignUp(|StreamBits(blocks, 0, [])|) / 8))
    {
      InflateInverts(data, blocks);
    }
  }

  /** Two readings of the same bytes expand to the same output and end at the same byte. */
  lemma ExpansionIsUnique(data: seq<byte>, a: seq<Block>, b: seq<Block>)
    requires Holds(data, a) && Holds(data, b)
    ensures StreamOutput(a, 0, []) == StreamOutput(b, 0, [])
    ensures AlignUp(|StreamBits(a, 0, [])|) == AlignUp(|StreamBits(b, 0, [])|)
  {
    hide At, ReadStream, StreamFits, StreamBits, StreamOutput;
    StreamFound(a, Unpack(data), 0, []);
    StreamFound(b, Unpack(data), 0, []);
  }

  // ----- how much a stream can expand -----

  /** The most bytes one bit of a stream can stand for: half of a longest match. */
  const MAX_PER_BIT := 129

  lemma MatchLengthBound(t: Token)
    requires t.Match? && TokenFits(t)
    ensures 3 <= MatchLength(t) <= 258
  {
    hide Pow2;
    SmallPower(LENGTH_EXTRA[t.lengthSymbol]);
  }

  /** A token takes at least one bit, and a match at least two, so each pays for its bytes. */
  lemma TokenBound(codes: Codes, t: Token, s: seq<bit>, p: nat, out: seq<byte>)
    requires ReadToken(codes, s, p).Got? && ReadToken(codes, s, p).value == Coded(t)
    requires TokenApplies(t, out)
    ensures |ApplyToken(t, out)| <= |out| + MAX_PER_BIT * (ReadToken(codes, s, p).end - p)
  {
    hide At;
    TokenSound(codes, s, p);
    if t.Match? {
      MatchLengthBound(t);
    }
  }

  lemma {:induction false} TokensBound(codes: Codes, s: seq<bit>, p: nat, out: seq<byte>)
    requires ReadTokens(codes, s, p, out).Got?
    ensures |ReadTokens(codes, s, p, out).value| <= |out| + MAX_PER_BIT * (ReadTokens(codes, s, p, out).end - p)
    decreases |s| - p
  {
    hide ReadToken, ApplyToken, TokenApplies;
    var Got(symbol, q) := ReadToken(codes, s, p);
    if symbol.Coded? {
      TokenBound(codes, symbol.token, s, p, out);
      TokensBound(codes, s, q, ApplyToken(symbol.token, out));
    }
  }

  lemma BlockBound(s: seq<bit>, p: nat, kind: nat, out: seq<byte>)
    requires ReadBlock(s, p, kind, out).Got?
    ensures |ReadBlock(s, p, kind, out).value| <= |out| + MAX_PER_BIT * (ReadBlock(s, p, kind, out).end - p)
  {
    hide ReadTokens, ReadHeader, ReadBytes;
    if kind == 0 {
      var q := AlignUp(p) + 32;
      BytesSound(s, q, TakeBits(s, AlignUp(p), 16).value);
    } else if kind == 1 {
      TokensBound(FixedCodes(), s, p, out);
    } else {
      var Got(codes, q) := ReadHeader(s, p);
      TokensBound(codes, s, q, out);
    }
  }

  lemma {:induction false} StreamBound(s: seq<bit>, p: nat, out: seq<byte>)
    requires ReadStream(s, p, out).Got?
    ensures |ReadStream(s, p, out).value| <= |out| + MAX_PER_BIT * (ReadStream(s, p, out).end - p)
    decreases |s| - p
  {
    hide ReadBlock;
    var kind := TakeBits(s, p + 1, 2).value;
    BlockBound(s, p + 3, kind, out);
    var Got(more, q) := ReadBlock(s, p + 3, kind, out);
    if TakeBits(s, p, 1).value != 1 {
      StreamBound(s, q, more);
    }
  }

  /** The end lies within the input, and the output is at most 1032 times what was read. */
  lemma InflateBound(data: seq<byte>)
    requires InflateSpec(data).Ok?
    ensures var (out, end) := InflateSpec(data).value; 0 < end <= |data| && |out| <= 1032 * end
  {
    hide ReadStream;
    StreamBound(Unpack(data), 0, []);
  }
}
