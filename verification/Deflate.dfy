// The DEFLATE format as section 3.2 of RFC 1951 defines it: what a stream of blocks means, and every
// way its bits may be written. Encoders are free in their tokens, block kinds, code lengths and
// run-length operations, so all of those are part of the value that is encoded.

module Deflate {
  import opened Basics
  import opened BitStrings
  import opened BitReader
  import opened HuffmanCodes

  const LENGTH_BASE: seq<nat> := [
    3, 4, 5, 6, 7, 8, 9, 10, 11, 13, 15, 17, 19, 23, 27, 31, 35, 43, 51, 59, 67, 83, 99, 115, 131, 163, 195, 227, 258
  ]
  const LENGTH_EXTRA: seq<nat> := [
    0, 0, 0, 0, 0, 0, 0, 0, 1, 1, 1, 1, 2, 2, 2, 2, 3, 3, 3, 3, 4, 4, 4, 4, 5, 5, 5, 5, 0
  ]
  const DISTANCE_BASE: seq<nat> := [
    1, 2, 3, 4, 5, 7, 9, 13, 17, 25, 33, 49, 65, 97, 129, 193, 257, 385, 513, 769, 1025, 1537, 2049, 3073, 4097, 6145,
    8193, 12289, 16385, 24577
  ]
  const DISTANCE_EXTRA: seq<nat> := [
    0, 0, 0, 0, 1, 1, 2, 2, 3, 3, 4, 4, 5, 5, 6, 6, 7, 7, 8, 8, 9, 9, 10, 10, 11, 11, 12, 12, 13, 13
  ]
  /** The order in which a dynamic header sends the code-length code's own lengths. */
  const CODE_LENGTH_ORDER: seq<nat> := [16, 17, 18, 0, 8, 7, 9, 6, 10, 5, 11, 4, 12, 3, 13, 2, 14, 1, 15]
  const END_OF_BLOCK := 256

  // ----- tokens and what they expand to -----

  /** A literal byte, or a match by its length and distance symbols (counted from 0) and extra bits. */
  datatype Token =
    | Literal(value: byte)
    | Match(lengthSymbol: nat, lengthExtra: nat, distanceSymbol: nat, distanceExtra: nat)

  predicate TokenFits(t: Token) {
    match t
    case Literal(_) => true
    case Match(ls, le, ds, de) =>
      ls < 29 && ds < 30 && le < Pow2(LENGTH_EXTRA[ls]) && de < Pow2(DISTANCE_EXTRA[ds])
  }

  const SMALL_POWERS: seq<nat> := [1, 2, 4, 8, 16, 32, 64, 128, 256, 512, 1024, 2048, 4096, 8192]

  lemma {:induction false} SmallPower(n: nat)
    requires n < 14
    ensures Pow2(n) == SMALL_POWERS[n]
  {
    if n > 0 {
      SmallPower(n - 1);
    }
  }

  function MatchLength(t: Token): nat
    requires t.Match? && TokenFits(t)
  {
    LENGTH_BASE[t.lengthSymbol] + t.lengthExtra
  }

  function MatchDistance(t: Token): (d: nat)
    requires t.Match? && TokenFits(t)
    ensures d >= 1
  {
    DistanceBasesPositive();
    DISTANCE_BASE[t.distanceSymbol] + t.distanceExtra
  }

  lemma DistanceBasesPositive()
    ensures forall i :: 0 <= i < 30 ==> DISTANCE_BASE[i] >= 1
  {
  }

  /** A match repeats what stands `distance` back, byte by byte, so it may overlap what it writes. */
  function CopyMatch(out: seq<byte>, distance: nat, length: nat): (r: seq<byte>)
    requires 1 <= distance <= |out|
    ensures |r| == |out| + length
    decreases length
  {
    if length == 0 then out else CopyMatch(out + [out[|out| - distance]], distance, length - 1)
  }

  /** Section 3.2.3: the copy leaves the past alone and makes the output periodic from there on. */
  lemma {:induction false} CopyMatchIsPeriodic(out: seq<byte>, distance: nat, length: nat)
    requires 1 <= distance <= |out|
    ensures out <= CopyMatch(out, distance, length)
    ensures forall i :: |out| <= i < |out| + length ==>
      CopyMatch(out, distance, length)[i] == CopyMatch(out, distance, length)[i - distance]
    decreases length
  {
    if length > 0 {
      var more := out + [out[|out| - distance]];
      CopyMatchIsPeriodic(more, distance, length - 1);
      assert CopyMatch(out, distance, length)[|out|] == more[|out|];
      assert CopyMatch(out, distance, length)[|out| - distance] == more[|out| - distance];
    }
  }

  predicate TokenApplies(t: Token, out: seq<byte>) {
    TokenFits(t) && (t.Match? ==> MatchDistance(t) <= |out|)
  }

  function ApplyToken(t: Token, out: seq<byte>): (r: seq<byte>)
    requires TokenApplies(t, out)
  {
    match t
    case Literal(value) => out + [value]
    case Match(_, _, _, _) => CopyMatch(out, MatchDistance(t), MatchLength(t))
  }

  /** No distance reaches back past the start of the output. */
  ghost predicate TokensApply(tokens: seq<Token>, out: seq<byte>) {
    tokens == [] || (TokenApplies(tokens[0], out) && TokensApply(tokens[1..], ApplyToken(tokens[0], out)))
  }

  ghost function ApplyTokens(tokens: seq<Token>, out: seq<byte>): seq<byte>
    requires TokensApply(tokens, out)
  {
    if tokens == [] then out else ApplyTokens(tokens[1..], ApplyToken(tokens[0], out))
  }

  // ----- the bits of compressed data -----

  /** The code lengths of the literal/length and distance alphabets. */
  datatype Codes = Codes(literals: seq<nat>, distances: seq<nat>)

  ghost predicate MatchEncodable(distances: seq<nat>, t: Token) {
    t.Match? && TokenFits(t) && Encodable(distances, t.distanceSymbol)
  }

  /** A match after its length symbol: extra length bits, distance symbol, extra distance bits. */
  ghost function MatchBits(distances: seq<nat>, t: Token): seq<bit>
    requires MatchEncodable(distances, t)
  {
    LsbBits(t.lengthExtra, LENGTH_EXTRA[t.lengthSymbol]) +
    (CodeBits(distances, t.distanceSymbol) + LsbBits(t.distanceExtra, DISTANCE_EXTRA[t.distanceSymbol]))
  }

  ghost predicate TokenEncodable(codes: Codes, t: Token) {
    match t
    case Literal(value) => Encodable(codes.literals, value)
    case Match(ls, _, _, _) => Encodable(codes.literals, 257 + ls) && MatchEncodable(codes.distances, t)
  }

  ghost function TokenBits(codes: Codes, t: Token): seq<bit>
    requires TokenEncodable(codes, t)
  {
    match t
    case Literal(value) => CodeBits(codes.literals, value)
    case Match(ls, _, _, _) => CodeBits(codes.literals, 257 + ls) + MatchBits(codes.distances, t)
  }

  ghost predicate TokensEncodable(codes: Codes, tokens: seq<Token>) {
    && Encodable(codes.literals, END_OF_BLOCK)
    && forall i :: 0 <= i < |tokens| ==> TokenEncodable(codes, tokens[i])
  }

  ghost function TokensBits(codes: Codes, tokens: seq<Token>): seq<bit>
    requires TokensEncodable(codes, tokens)
  {
    if tokens == [] then CodeBits(codes.literals, END_OF_BLOCK)
    else TokenBits(codes, tokens[0]) + TokensBits(codes, tokens[1..])
  }

  // ----- the fixed codes, section 3.2.6 -----

  function FixedLiteralLength(symbol: nat): nat {
    if symbol < 144 then 8 else if symbol < 256 then 9 else if symbol < 280 then 7 else 8
  }

  function FixedLiterals(): (lengths: seq<nat>)
    ensures |lengths| == 288
  {
    seq(288, symbol requires symbol >= 0 => FixedLiteralLength(symbol))
  }

  function FixedDistances(): (lengths: seq<nat>)
    ensures |lengths| == 30
  {
    seq(30, _ => 5)
  }

  function FixedCodes(): Codes {
    Codes(FixedLiterals(), FixedDistances())
  }

  // ----- dynamic headers, section 3.2.7 -----

  /** A symbol of the code-length alphabet with its extra bits: a length, or a run. */
  datatype LengthOp = LengthOp(symbol: nat, extra: nat)

  /** How many extra bits follow each code-length symbol. */
  function RunWidth(symbol: nat): nat {
    if symbol == 16 then 2 else if symbol == 17 then 3 else if symbol == 18 then 7 else 0
  }

  predicate OpApplies(op: LengthOp, done: seq<nat>) {
    op.symbol <= 18 && op.extra < Pow2(RunWidth(op.symbol)) && (op.symbol == 16 ==> done != [])
  }

  function Copies(value: nat, count: nat): (r: seq<nat>)
    ensures |r| == count
  {
    seq(count, _ => value)
  }

  /** 0 to 15 are lengths; 16 repeats the last length 3 to 6 times; 17 and 18 give 3 to 10 and 11 to 138 zeros. */
  function ApplyOp(op: LengthOp, done: seq<nat>): (r: seq<nat>)
    requires OpApplies(op, done)
    ensures |r| > |done|
  {
    if op.symbol <= 15 then done + [op.symbol]
    else if op.symbol == 16 then done + Copies(done[|done| - 1], 3 + op.extra)
    else if op.symbol == 17 then done + Copies(0, 3 + op.extra)
    else done + Copies(0, 11 + op.extra)
  }

  ghost predicate OpsApply(ops: seq<LengthOp>, done: seq<nat>) {
    ops == [] || (OpApplies(ops[0], done) && OpsApply(ops[1..], ApplyOp(ops[0], done)))
  }

  ghost function ApplyOps(ops: seq<LengthOp>, done: seq<nat>): seq<nat>
    requires OpsApply(ops, done)
  {
    if ops == [] then done else ApplyOps(ops[1..], ApplyOp(ops[0], done))
  }

  ghost predicate OpsEncodable(lengths: seq<nat>, ops: seq<LengthOp>) {
    forall i :: 0 <= i < |ops| ==> Encodable(lengths, ops[i].symbol)
  }

  ghost function OpBits(lengths: seq<nat>, op: LengthOp): seq<bit>
    requires Encodable(lengths, op.symbol)
  {
    CodeBits(lengths, op.symbol) + LsbBits(op.extra, RunWidth(op.symbol))
  }

  ghost function OpsBits(lengths: seq<nat>, ops: seq<LengthOp>): seq<bit>
    requires OpsEncodable(lengths, ops)
  {
    if ops == [] then [] else OpBits(lengths, ops[0]) + OpsBits(lengths, ops[1..])
  }

  /** The sizes of the two alphabets, and how many lengths of the code-length code are sent. */
  datatype Sizes = Sizes(literals: nat, distances: nat, sent: nat)

  predicate SizesFit(sizes: Sizes) {
    257 <= sizes.literals <= 288 && 1 <= sizes.distances <= 32 && 4 <= sizes.sent <= 19
  }

  /** HLIT, HDIST and HCLEN. */
  ghost function SizesBits(sizes: Sizes): (bits: seq<bit>)
    requires SizesFit(sizes)
    ensures |bits| == 14
  {
    LsbBits(sizes.literals - 257, 5) + (LsbBits(sizes.distances - 1, 5) + LsbBits(sizes.sent - 4, 4))
  }

  /** A dynamic header: the sizes, the lengths of the code-length code, and the runs written with it. */
  datatype Header = Header(sizes: Sizes, codeLengths: seq<nat>, ops: seq<LengthOp>)

  /** Code lengths of three bits each, zero past the `sent` ones in sending order. */
  ghost predicate CodeLengthsFit(codeLengths: seq<nat>, sent: nat)
  {
    && |codeLengths| == 19
    && (forall i :: 0 <= i < 19 ==> codeLengths[i] < 8)
    && (forall i :: sent <= i < 19 ==> codeLengths[CODE_LENGTH_ORDER[i]] == 0)
  }

  ghost predicate HeaderFits(h: Header) {
    && SizesFit(h.sizes)
    && CodeLengthsFit(h.codeLengths, h.sizes.sent)
    && OpsApply(h.ops, []) && OpsEncodable(h.codeLengths, h.ops)
    && |ApplyOps(h.ops, [])| == h.sizes.literals + h.sizes.distances
  }

  ghost function SplitLengths(sizes: Sizes, lengths: seq<nat>): Codes
    requires |lengths| == sizes.literals + sizes.distances
  {
    Codes(lengths[..sizes.literals], lengths[sizes.literals..])
  }

  ghost function HeaderCodes(h: Header): Codes
    requires HeaderFits(h)
  {
    SplitLengths(h.sizes, ApplyOps(h.ops, []))
  }

  ghost function CodeLengthBits(codeLengths: seq<nat>, from: nat, sent: nat): seq<bit>
    requires |codeLengths| == 19 && from <= sent <= 19
    decreases sent - from
  {
    if from == sent then []
    else LsbBits(codeLengths[CODE_LENGTH_ORDER[from]], 3) + CodeLengthBits(codeLengths, from + 1, sent)
  }

  ghost function HeaderBits(h: Header): seq<bit>
    requires HeaderFits(h)
  {
    SizesBits(h.sizes) + (CodeLengthBits(h.codeLengths, 0, h.sizes.sent) + OpsBits(h.codeLengths, h.ops))
  }

  // ----- blocks -----

  /** A block. The padding of a stored block is whatever bits run up to the byte boundary. */
  datatype Block =
    | Stored(padding: seq<bit>, bytes: seq<byte>)
    | Fixed(tokens: seq<Token>)
    | Dynamic(header: Header, tokens: seq<Token>)

  /** The block can be written at bit `p` (before its three header bits) of a stream that has given `out`. */
  ghost predicate BlockFits(b: Block, p: nat, out: seq<byte>) {
    match b
    case Stored(padding, bytes) => p + 3 + |padding| == AlignUp(p + 3) && |bytes| < 0x1_0000
    case Fixed(tokens) => TokensEncodable(FixedCodes(), tokens) && TokensApply(tokens, out)
    case Dynamic(header, tokens) =>
      HeaderFits(header) && TokensEncodable(HeaderCodes(header), tokens) && TokensApply(tokens, out)
  }

  ghost function BlockOutput(b: Block, p: nat, out: seq<byte>): seq<byte>
    requires BlockFits(b, p, out)
  {
    match b
    case Stored(_, bytes) => out + bytes
    case Fixed(tokens) => ApplyTokens(tokens, out)
    case Dynamic(_, tokens) => ApplyTokens(tokens, out)
  }

  ghost function BytesBits(bytes: seq<byte>): (bits: seq<bit>)
    ensures |bits| == 8 * |bytes|
  {
    if bytes == [] then [] else BytesBits(bytes[..|bytes| - 1]) + LsbBits(bytes[|bytes| - 1], 8)
  }

  ghost function BlockKind(b: Block): nat {
    match b
    case Stored(_, _) => 0
    case Fixed(_) => 1
    case Dynamic(_, _) => 2
  }

  ghost function BlockBody(b: Block, p: nat, out: seq<byte>): seq<bit>
    requires BlockFits(b, p, out)
  {
    match b
    case Stored(padding, bytes) =>
      padding + (LsbBits(|bytes|, 16) + (LsbBits(0xFFFF - |bytes|, 16) + BytesBits(bytes)))
    case Fixed(tokens) => TokensBits(FixedCodes(), tokens)
    case Dynamic(header, tokens) => HeaderBits(header) + TokensBits(HeaderCodes(header), tokens)
  }

  ghost function BlockBits(b: Block, p: nat, out: seq<byte>, last: bool): seq<bit>
    requires BlockFits(b, p, out)
  {
    LsbBits(if last then 1 else 0, 1) + (LsbBits(BlockKind(b), 2) + BlockBody(b, p, out))
  }

  /** Where a block that is not the last one ends. */
  ghost function BlockEnd(b: Block, p: nat, out: seq<byte>): nat
    requires BlockFits(b, p, out)
  {
    p + |BlockBits(b, p, out, false)|
  }

  /** A stream is one or more blocks; the last one, and only it, carries the final bit. */
  ghost predicate StreamFits(blocks: seq<Block>, p: nat, out: seq<byte>)
    decreases |blocks|
  {
    && blocks != []
    && BlockFits(blocks[0], p, out)
    && (|blocks| == 1 || StreamFits(blocks[1..], BlockEnd(blocks[0], p, out), BlockOutput(blocks[0], p, out)))
  }

  ghost function StreamBits(blocks: seq<Block>, p: nat, out: seq<byte>): seq<bit>
    requires StreamFits(blocks, p, out)
    decreases |blocks|
  {
    if |blocks| == 1 then BlockBits(blocks[0], p, out, true)
    else
      BlockBits(blocks[0], p, out, false) +
      StreamBits(blocks[1..], BlockEnd(blocks[0], p, out), BlockOutput(blocks[0], p, out))
  }

  ghost function StreamOutput(blocks: seq<Block>, p: nat, out: seq<byte>): seq<byte>
    requires StreamFits(blocks, p, out)
    decreases |blocks|
  {
    if |blocks| == 1 then BlockOutput(blocks[0], p, out)
    else StreamOutput(blocks[1..], BlockEnd(blocks[0], p, out), BlockOutput(blocks[0], p, out))
  }
}
