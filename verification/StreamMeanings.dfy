// How a DEFLATE stream is cut into fields and blocks, told on its bits and bytes (sections 3.1.1, 3.2.3 and 3.2.4 of
// RFC 1951).

module StreamMeanings {
  import opened Basics
  import opened BitStrings
  import opened BitReader
  import opened HuffmanCodes
  import opened Huffman
  import opened Deflate
  import opened Inflater

  // ----- fields -----

  lemma OneBit(s: seq<bit>, p: nat)
    requires p < |s|
    ensures TakeBits(s, p, 1) == Got(s[p], p + 1)
  {
    assert s[p..p + 1] == [s[p]] && s[p..p + 1][1..] == [];
  }

  /** A longer field has its next bit above all it had. */
  lemma FieldGrows(s: seq<bit>, p: nat, n: nat)
    requires p + n < |s|
    ensures TakeBits(s, p, n + 1) == Got(TakeBits(s, p, n).value + s[p + n] * Pow2(n), p + n + 1)
  {
    hide Lsb, Pow2;
    LsbAppends(s[p..p + n], s[p + n]);
    assert s[p..p + (n + 1)] == s[p..p + n] + [s[p + n]];
  }

  /** Fields one behind the other make one field. */
  lemma {:induction false} FieldsJoin(s: seq<bit>, p: nat, m: nat, n: nat)
    requires p + m + n <= |s|
    ensures TakeBits(s, p, m + n) ==
      Got(TakeBits(s, p, m).value + Pow2(m) * TakeBits(s, p + m, n).value, p + m + n)
    decreases n
  {
    hide TakeBits, Pow2;
    if n == 0 {
      NoField(s, p + m);
    } else {
      FieldsJoin(s, p, m, n - 1);
      FieldGrows(s, p, m + n - 1);
      FieldGrows(s, p + m, n - 1);
      Pow2Adds(m, n - 1);
      Distributes(Pow2(m), TakeBits(s, p + m, n - 1).value, s[p + m + n - 1], Pow2(n - 1));
    }
  }

  lemma NoField(s: seq<bit>, p: nat)
    requires p <= |s|
    ensures TakeBits(s, p, 0) == Got(0, p)
  {
  }

  lemma Distributes(a: nat, v: nat, x: nat, b: nat)
    ensures a * (v + x * b) == a * v + x * (a * b)
  {
  }

  /** Sixteen bits at a byte boundary are two bytes, the low one first. */
  lemma TwoBytes(data: seq<byte>, k: nat)
    requires k + 2 <= |data|
    ensures TakeBits(Unpack(data), 8 * k, 16) == Got(data[k] as int + 256 * data[k + 1] as int, 8 * k + 16)
  {
    hide TakeBits, Unpack, Pow2;
    FieldsJoin(Unpack(data), 8 * k, 8, 8);
    ByteOfBits(data, k);
    ByteOfBits(data, k + 1);
    EightIs256();
  }

  lemma EightIs256()
    ensures Pow2(8) == 256
  {
    Pow2Adds(4, 4);
    assert Pow2(4) == 16;
  }

  // ----- stored blocks -----

  lemma {:induction false} BytesAreSlice(data: seq<byte>, k: nat, count: nat)
    requires k <= |data|
    ensures ReadBytes(Unpack(data), 8 * k, count) ==
      if k + count <= |data| then Got(data[k..k + count], 8 * (k + count)) else Fail(Truncated)
    decreases count
  {
    hide ReadBytes, ReadByte, Unpack;
    if count == 0 {
      NoBytes(Unpack(data), 8 * k);
    } else {
      BytesAreSlice(data, k, count - 1);
      if k + count - 1 <= |data| {
        BytesTurn(Unpack(data), 8 * k, count - 1);
        if k + count <= |data| {
          NextByte(data, k + count - 1);
          assert data[k..k + count] == data[k..k + count - 1] + [data[k + count - 1]];
        } else {
          NoNextByte(data, k + count - 1);
        }
      } else {
        ReadBytesStops(Unpack(data), 8 * k, count - 1, count);
      }
    }
  }

  lemma NoField16(s: seq<bit>, p: nat)
    ensures p + 16 > |s| ==> TakeBits(s, p, 16) == Fail(Truncated)
  {
  }

  /** A stored block starts at the next byte: two bytes of length, two of its complement, and that many bytes. */
  lemma StoredExact(data: seq<byte>, p: nat, out: seq<byte>)
    ensures var k := (p + 7) / 8;
      ReadStored(Unpack(data), p, out) ==
        if k + 4 > |data| then Fail(Truncated)
        else
          var length := data[k] as int + 256 * data[k + 1] as int;
          if length + (data[k + 2] as int + 256 * data[k + 3] as int) != 65535 then Fail(StoredLengthMismatch)
          else if k + 4 + length > |data| then Fail(Truncated)
          else Got(out + data[k + 4..k + 4 + length], 8 * (k + 4 + length))
  {
    hide TakeBits, ReadBytes, Unpack, Pow2;
    var k := (p + 7) / 8;
    AlignedByte(p);
    NoField16(Unpack(data), 8 * k);
    NoField16(Unpack(data), 8 * k + 16);
    if k + 2 <= |data| {
      TwoBytes(data, k);
      if k + 4 <= |data| {
        TwoBytes(data, k + 2);
        BytesAreSlice(data, k + 4, data[k] as int + 256 * data[k + 1] as int);
      }
    }
  }

  lemma AlignedByte(p: nat)
    ensures AlignUp(p) == 8 * ((p + 7) / 8)
  {
  }

  // ----- blocks -----

  /** The block of each kind. */
  ghost function BlockOf(s: seq<bit>, p: nat, kind: nat, out: seq<byte>): Read<seq<byte>> {
    if kind == 0 then ReadStored(s, p, out)
    else if kind == 1 then ReadTokens(Codes(FixedLengths(), seq(30, _ => 5)), s, p, out)
    else if kind == 2 then
      var (codes, q) :- ReadHeader(s, p);
      ReadTokens(codes, s, q, out)
    else Fail(ReservedBlockType)
  }

  function FixedLengths(): seq<nat> {
    seq(144, _ => 8) + (seq(112, _ => 9) + (seq(24, _ => 7) + seq(8, _ => 8)))
  }

  lemma FixedCodesAre()
    ensures FixedCodes() == Codes(FixedLengths(), seq(30, _ => 5))
  {
    assert FixedLiterals() == FixedLengths();
    assert FixedDistances() == seq(30, _ => 5);
  }

  /** One bit says whether a block is the last, two say what kind it is, and the stream goes on where it ends. */
  lemma BlocksExact(s: seq<bit>, p: nat, out: seq<byte>)
    ensures p + 3 > |s| ==> ReadStream(s, p, out) == Fail(Truncated)
    ensures p + 3 <= |s| ==>
      var block := BlockOf(s, p + 3, s[p + 1] as int + 2 * s[p + 2] as int, out);
      ReadStream(s, p, out) ==
        if block.Fail? then Fail(block.error)
        else if s[p] == 1 then block
        else ReadStream(s, block.end, block.value)
  {
    hide TakeBits, ReadStored, ReadTokens, ReadHeader, Pow2, FixedCodes, FixedLengths, BlockOf, ReadBlock;
    if p + 3 <= |s| {
      OneBit(s, p);
      OneBit(s, p + 1);
      FieldGrows(s, p + 1, 1);
      assert Pow2(1) == 2 by {
        TwoIs();
      }
      BlockIs(s, p + 3, s[p + 1] as int + 2 * s[p + 2] as int, out);
    } else {
      ShortHeader(s, p);
    }
  }

  lemma TwoIs()
    ensures Pow2(1) == 2
  {
  }

  lemma ShortHeader(s: seq<bit>, p: nat)
    requires p + 3 > |s|
    ensures TakeBits(s, p, 1).Fail? || TakeBits(s, p + 1, 2) == Fail(Truncated)
    ensures TakeBits(s, p, 1).Fail? ==> TakeBits(s, p, 1) == Fail(Truncated)
  {
  }

  lemma BlockIs(s: seq<bit>, p: nat, kind: nat, out: seq<byte>)
    ensures ReadBlock(s, p, kind, out) == BlockOf(s, p, kind, out)
  {
    hide ReadStored, ReadTokens, ReadHeader, FixedCodes, FixedLengths;
    FixedCodesAre();
  }

  /** The stream starts at the first bit, and the index given back is that of the first byte behind its last bit. */
  lemma StreamExact(data: seq<byte>)
    ensures var read := ReadStream(Unpack(data), 0, []);
      InflateSpec(data) == if read.Fail? then Err(read.error) else Ok((read.value, (read.end + 7) / 8))
  {
    hide ReadStream, Unpack;
  }

  /** The bits of a byte, the lowest first. */
  lemma BitsExact(data: seq<byte>, k: nat, i: nat)
    requires k < |data| && i < 8
    ensures |Unpack(data)| == 8 * |data| && Unpack(data)[8 * k + i] == data[k] / Pow2(i) % 2
  {
    UnpackedBit(data, k, i);
  }

  // ----- codes -----

  /** Which lists of lengths build a table. */
  lemma BuildExact(lengths: seq<nat>)
    ensures BuildSpec(lengths) == Err(CodeLengthOver15) <==> exists t :: 0 <= t < |lengths| && lengths[t] > 15
    ensures BuildSpec(lengths) == Err(SymbolTooLarge) <==>
      && (forall t :: 0 <= t < |lengths| ==> lengths[t] <= 15)
      && exists t :: 65536 <= t < |lengths| && lengths[t] != 0
    ensures BuildSpec(lengths).Err? ==> BuildSpec(lengths).error in {CodeLengthOver15, SymbolTooLarge}
  {
    hide CanonicalTable;
  }

  /** A symbol has a code when its length is 1 to 15 and the code that the counts of shorter codes give it fits. */
  lemma EncodableExact(lengths: seq<nat>, symbol: nat)
    ensures Encodable(lengths, symbol) <==>
      && symbol < |lengths| && 1 <= lengths[symbol] <= 15
      && Code(lengths, symbol) < Pow2(lengths[symbol])
  {
    hide Code, Pow2;
  }

  lemma {:induction false} WalkFails(
      table: Table, s: seq<bit>, start: nat, p: nat, code: nat, first: nat, index: nat)
    requires |table.counts| == 16 && start <= p < start + 16 && first <= code && (p == start || p <= |s|)
    ensures var walk := DecodeFrom(table, s, start, p, code, first, index);
      walk.Fail? && walk.error != IncompleteCode ==>
        walk.error == if start + 15 <= |s| then CodeTooLong else Truncated
    decreases start + 16 - p
  {
    hide DecodeFrom;
    DecodeTurn(table, s, start, p, code, first, index);
    if p < start + 15 && p < |s| {
      var c, count := code + s[p], table.counts[p - start + 1];
      if c >= first + count {
        WalkFails(table, s, start, p + 1, 2 * c, 2 * (first + count), index + count);
      }
    }
  }

  /** No symbol: with fifteen bits left none of them was a code, with fewer the stream was too short. */
  lemma DecodeFailsExact(lengths: seq<nat>, s: seq<bit>, p: nat)
    requires DecodeSpec(CanonicalTable(lengths), s, p).Fail?
    ensures DecodeSpec(CanonicalTable(lengths), s, p) == Fail(if p + 15 <= |s| then CodeTooLong else Truncated)
  {
    hide DecodeSpec, DecodeFrom, Decoded;
    DecodeSound(lengths, s, p);
    NoFailure(lengths, s, p);
    DecodeStarts(CanonicalTable(lengths), s, p);
    WalkFails(CanonicalTable(lengths), s, p, p, 0, 0, 0);
  }

  lemma NoFailure(lengths: seq<nat>, s: seq<bit>, p: nat)
    requires Decoded(lengths, s, p, DecodeSpec(CanonicalTable(lengths), s, p))
    ensures DecodeSpec(CanonicalTable(lengths), s, p) != Fail(IncompleteCode)
  {
    hide DecodeSpec, CanonicalTable;
  }

  /** The lengths behind a header's own may be as many as its sizes say, and no more. */
  lemma OverrunExact(sizes: Sizes, codeLengths: seq<nat>, s: seq<bit>, p: nat)
    ensures var total, read := sizes.literals + sizes.distances, ReadCodes(sizes, codeLengths, s, p);
      var lengths := ReadLengths(codeLengths, s, p, total, []);
      && (lengths.Fail? ==> read == Fail(lengths.error))
      && (lengths.Got? && |lengths.value| > total ==> read == Fail(CodeLengthsOverrun))
      && (lengths.Got? && |lengths.value| == total ==> read.Got?)
      && (lengths.Got? ==> |lengths.value| >= total)
  {
    hide ReadLengths;
    EnoughLengths(codeLengths, s, p, sizes.literals + sizes.distances, []);
  }

  lemma {:induction false} EnoughLengths(lengths: seq<nat>, s: seq<bit>, p: nat, total: nat, done: seq<nat>)
    requires LengthsFit(done)
    ensures var read := ReadLengths(lengths, s, p, total, done); read.Got? ==> |read.value| >= total
    decreases |s| - p
  {
    hide ReadLengths, ReadOp, Pow2;
    LengthsTurn(lengths, s, p, total, done);
    var next := ReadOp(lengths, s, p, done);
    if |done| < total && next.Got? {
      EnoughLengths(lengths, s, next.end, total, ApplyOp(next.value, done));
    }
  }
}
