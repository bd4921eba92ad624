// Five bytes decoded by hand: a fixed block of two literals and the longest match.

module KnownStream {
  import opened Basics
  import opened BitStrings
  import opened BitReader
  import opened Huffman
  import opened Deflate
  import opened Inflater
  import opened FormatFacts
  import opened SymbolMeanings
  import opened StreamMeanings

  const DATA: seq<byte> := [0x4B, 0x4C, 0x1C, 0x05, 0x00]

  /** Eight bits that add up to a byte are its bits. */
  lemma ByteBits(b: byte, bits: seq<bit>, i: nat)
    requires |bits| == 8 && i < 8 && b == Sum8(bits)
    ensures bits[i] == b / Pow2(i) % 2
  {
    hide Lsb, LsbBits, Pow2;
    LsbIsSum(bits);
    BitsOfLsb(bits);
    LsbBitsPointwise(b, 8);
  }

  function Sum8(bits: seq<bit>): nat
    requires |bits| == 8
  {
    bits[0] as int + 2 * bits[1] as int + 4 * bits[2] as int + 8 * bits[3] as int +
    16 * bits[4] as int + 32 * bits[5] as int + 64 * bits[6] as int + 128 * bits[7] as int
  }

  lemma LsbTurn(b: bit, bits: seq<bit>)
    ensures Lsb([b] + bits) == b as int + 2 * Lsb(bits)
  {
    assert ([b] + bits)[1..] == bits;
  }

  lemma LsbIsSum(bits: seq<bit>)
    requires |bits| == 8
    ensures Lsb(bits) == Sum8(bits)
  {
    hide Lsb;
    var e := [bits[7]];
    LsbTurn(bits[7], []);
    LsbTurn(bits[6], bits[7..]);
    LsbTurn(bits[5], bits[6..]);
    LsbTurn(bits[4], bits[5..]);
    LsbTurn(bits[3], bits[4..]);
    LsbTurn(bits[2], bits[3..]);
    LsbTurn(bits[1], bits[2..]);
    LsbTurn(bits[0], bits[1..]);
    NoLsb();
    assert bits[7..] == [bits[7]] + [] && bits[6..] == [bits[6]] + bits[7..] && bits[5..] == [bits[5]] + bits[6..];
    assert bits[4..] == [bits[4]] + bits[5..] && bits[3..] == [bits[3]] + bits[4..];
    assert bits[2..] == [bits[2]] + bits[3..] && bits[1..] == [bits[1]] + bits[2..] && bits == [bits[0]] + bits[1..];
  }

  lemma NoLsb()
    ensures Lsb([]) == 0
  {
  }

  lemma RowAt(k: nat, bits: seq<bit>)
    requires k < |DATA| && |bits| == 8 && DATA[k] == Sum8(bits)
    ensures At(Unpack(DATA), 8 * k, bits)
  {
    hide Sum8, Unpack, DATA, Pow2;
    BitsExact(DATA, k, 0);
    forall i: nat | i < 8 ensures Unpack(DATA)[8 * k + i] == bits[i] {
      ByteBits(DATA[k], bits, i);
      BitsExact(DATA, k, i);
    }
    assert Unpack(DATA)[8 * k..8 * k + 8] == bits;
  }

  /** The five bytes as bits, cut where the fields of the block meet. */
  ghost predicate DataBits(s: seq<bit>) {
    && |s| == 40
    && At(s, 0, [1, 1, 0] + [1, 0, 0, 1, 0]) && At(s, 8, [0, 0, 1] + [1, 0, 0, 1, 0])
    && At(s, 16, [0, 0, 1] + [1, 1, 0, 0, 0]) && At(s, 24, [1, 0, 1] + [0, 0, 0, 0, 0])
    && At(s, 32, [0, 0, 0, 0, 0, 0, 0] + [0])
  }

  lemma DataIsBits()
    ensures DataBits(Unpack(DATA))
  {
    hide Unpack, At;
    RowAt(0, [1, 1, 0] + [1, 0, 0, 1, 0]);
    RowAt(1, [0, 0, 1] + [1, 0, 0, 1, 0]);
    RowAt(2, [0, 0, 1] + [1, 1, 0, 0, 0]);
    RowAt(3, [1, 0, 1] + [0, 0, 0, 0, 0]);
    RowAt(4, [0, 0, 0, 0, 0, 0, 0] + [0]);
    BitsExact(DATA, 0, 0);
  }

  const LETTER_BITS: seq<bit> := [1, 0, 0, 1, 0] + [0, 0, 1]
  const LONGEST_BITS: seq<bit> := [1, 1, 0, 0, 0] + [1, 0, 1]

  lemma CodesStand(s: seq<bit>)
    requires DataBits(s)
    ensures s[0] == 1 && s[1] == 1 && s[2] == 0
    ensures At(s, 3, LETTER_BITS) && At(s, 11, LETTER_BITS) && At(s, 19, LONGEST_BITS)
    ensures At(s, 27, [0, 0, 0, 0, 0]) && At(s, 32, [0, 0, 0, 0, 0, 0, 0])
  {
    AtIndex(s, 0, [1, 1, 0] + [1, 0, 0, 1, 0], 0);
    AtIndex(s, 0, [1, 1, 0] + [1, 0, 0, 1, 0], 1);
    AtIndex(s, 0, [1, 1, 0] + [1, 0, 0, 1, 0], 2);
    FieldsStand(s);
  }

  lemma FieldsStand(s: seq<bit>)
    requires DataBits(s)
    ensures At(s, 3, LETTER_BITS) && At(s, 11, LETTER_BITS) && At(s, 19, LONGEST_BITS)
    ensures At(s, 27, [0, 0, 0, 0, 0]) && At(s, 32, [0, 0, 0, 0, 0, 0, 0])
  {
    hide At;
    AtSplits(s, 0, [1, 1, 0], [1, 0, 0, 1, 0]);
    AtSplits(s, 8, [0, 0, 1], [1, 0, 0, 1, 0]);
    AtSplits(s, 16, [0, 0, 1], [1, 1, 0, 0, 0]);
    AtSplits(s, 24, [1, 0, 1], [0, 0, 0, 0, 0]);
    AtSplits(s, 32, [0, 0, 0, 0, 0, 0, 0], [0]);
    AtSplits(s, 3, [1, 0, 0, 1, 0], [0, 0, 1]);
    AtSplits(s, 11, [1, 0, 0, 1, 0], [0, 0, 1]);
    AtSplits(s, 19, [1, 1, 0, 0, 0], [1, 0, 1]);
  }

  /** A fixed code standing at `p` is read. */
  lemma FixedRead(s: seq<bit>, p: nat, symbol: nat, code: seq<bit>)
    requires symbol < 288 && At(s, p, code) && code == MsbBits(FixedLiteralCode(symbol), FixedLiteralLength(symbol))
    ensures DecodeSpec(CanonicalTable(FixedCodes().literals), s, p) == Got(symbol, p + |code|)
  {
    hide At, MsbBits, DecodeSpec, CanonicalTable;
    FixedLiteralCodesAreTheTable(symbol);
    DecodeInverts(FixedLiterals(), symbol, s, p);
  }

  lemma FixedDistanceRead(s: seq<bit>, p: nat, symbol: nat, code: seq<bit>)
    requires symbol < 30 && At(s, p, code) && code == MsbBits(symbol, 5)
    ensures DecodeSpec(CanonicalTable(FixedCodes().distances), s, p) == Got(symbol, p + 5)
  {
    hide At, MsbBits, DecodeSpec, CanonicalTable;
    FixedDistanceCodesAreNumbers(symbol);
    DecodeInverts(FixedDistances(), symbol, s, p);
  }

  lemma LetterCode()
    ensures MsbBits(FixedLiteralCode(0x61), FixedLiteralLength(0x61)) == LETTER_BITS
  {
    assert MsbBits(0x91, 8) == [1, 0, 0, 1, 0, 0, 0, 1];
  }

  lemma LongestCode()
    ensures MsbBits(FixedLiteralCode(285), FixedLiteralLength(285)) == LONGEST_BITS
  {
    assert MsbBits(0xC5, 8) == [1, 1, 0, 0, 0, 1, 0, 1];
  }

  lemma EndCode()
    ensures MsbBits(FixedLiteralCode(256), FixedLiteralLength(256)) == [0, 0, 0, 0, 0, 0, 0]
    ensures MsbBits(0, 5) == [0, 0, 0, 0, 0]
  {
    assert MsbBits(0, 7) == [0, 0, 0, 0, 0, 0, 0];
  }

  /** The letter over and over. */
  function Letters(n: nat): seq<byte> {
    seq(n, _ => 0x61)
  }

  lemma {:induction false} RepeatedLetters(more: seq<byte>, i: nat)
    requires Repeats(Letters(2), more, 1) && i < |more|
    ensures more[i] == 0x61
  {
    var all := Letters(2) + more;
    assert all[2 + i] == all[2 + i - 1];
    if i > 0 {
      RepeatedLetters(more, i - 1);
      assert all[2 + i - 1] == more[i - 1];
    }
  }

  lemma LongestMatch(s: seq<bit>) returns (more: seq<byte>)
    requires DataBits(s)
    ensures ReadTokens(FixedCodes(), s, 19, Letters(2)) == ReadTokens(FixedCodes(), s, 32, Letters(2) + more)
    ensures Letters(2) + more == Letters(260)
  {
    hide ReadTokens, DecodeSpec, CanonicalTable, TakeBits, FixedCodes, DataBits, MsbBits, At, LONGEST_BITS;
    CodesStand(s);
    LongestCode();
    EndCode();
    FixedRead(s, 19, 285, LONGEST_BITS);
    FixedDistanceRead(s, 27, 0, [0, 0, 0, 0, 0]);
    Size(s);
    NoField(s, 27);
    NoField(s, 32);
    assert MatchNumbers(FixedCodes().distances, s, 27, 28) == Got((258, 1), 32);
    more := MatchSymbols(FixedCodes(), s, 19, Letters(2), 285, 27);
    forall i: nat | i < |more| ensures more[i] == 0x61 {
      RepeatedLetters(more, i);
    }
  }

  lemma Size(s: seq<bit>)
    requires DataBits(s)
    ensures |s| == 40 && |LETTER_BITS| == |LONGEST_BITS| == 8
  {
  }

  lemma BlockReads(s: seq<bit>)
    requires DataBits(s)
    ensures ReadTokens(FixedCodes(), s, 3, []) == Got(Letters(260), 39)
  {
    hide ReadTokens, DecodeSpec, CanonicalTable, FixedCodes, DataBits, MsbBits, At, LETTER_BITS, LONGEST_BITS;
    CodesStand(s);
    Size(s);
    LetterCode();
    EndCode();
    FixedRead(s, 3, 0x61, LETTER_BITS);
    PlainSymbols(FixedCodes(), s, 3, [], 0x61, 11);
    FixedRead(s, 11, 0x61, LETTER_BITS);
    PlainSymbols(FixedCodes(), s, 11, [0x61], 0x61, 19);
    assert [] + [0x61] == [0x61] && [0x61] + [0x61] == Letters(2);
    var more := LongestMatch(s);
    FixedRead(s, 32, 256, [0, 0, 0, 0, 0, 0, 0]);
    PlainSymbols(FixedCodes(), s, 32, Letters(260), 256, 39);
  }

  lemma OnlyBlock(s: seq<bit>)
    requires DataBits(s)
    ensures BlockOf(s, 3, 1, []) == Got(Letters(260), 39)
  {
    hide ReadTokens, FixedCodes, FixedLengths, DataBits;
    FixedCodesAre();
    BlockReads(s);
  }

  lemma StreamReads(s: seq<bit>)
    requires DataBits(s)
    ensures ReadStream(s, 0, []) == Got(Letters(260), 39)
  {
    hide ReadStream, BlockOf, DataBits, At, Letters;
    BlocksExact(s, 0, []);
    OnlyBlock(s);
    CodesStand(s);
    Size(s);
  }

  /** The bytes decode to 260 letters, and all five are read. */
  lemma KnownOutput()
    ensures InflateSpec([0x4B, 0x4C, 0x1C, 0x05, 0x00]) == Ok((seq(260, _ => 0x61), 5))
  {
    hide ReadStream, InflateSpec, Unpack, DataBits;
    DataIsBits();
    StreamExact(DATA);
    StreamReads(Unpack(DATA));
    assert Letters(260) == seq(260, _ => 0x61);
  }
}
