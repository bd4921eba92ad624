// The zlib wrapper of RFC 1950 around a DEFLATE stream, and its Adler-32 checksum.

module Adler {
  import opened Basics

  const MODULUS := 65521

  /** RFC 1950, section 2.2: one plus the sum of all bytes. */
  ghost function S1(data: seq<byte>): nat {
    if data == [] then 1 else S1(data[..|data| - 1]) + data[|data| - 1]
  }

  /** The sum of all the values S1 takes. */
  ghost function S2(data: seq<byte>): nat {
    if data == [] then 0 else S2(data[..|data| - 1]) + S1(data)
  }

  ghost function AdlerSpec(data: seq<byte>): nat {
    S2(data) % MODULUS * 0x1_0000 + S1(data) % MODULUS
  }

  lemma ModAbsorbs(a: nat, b: nat)
    ensures (a % MODULUS + b) % MODULUS == (a + b) % MODULUS
  {
  }

  method Adler32(data: seq<byte>) returns (sum: nat)
    ensures sum == AdlerSpec(data)
  {
    var low, high := 1, 0;
    for i := 0 to |data|
      invariant low == S1(data[..i]) % MODULUS && high == S2(data[..i]) % MODULUS
    {
      assert data[..i + 1][..i] == data[..i];
      ModAbsorbs(S1(data[..i]), data[i]);
      ModAbsorbs(S2(data[..i]), S1(data[..i + 1]) % MODULUS);
      ModAbsorbs(S1(data[..i + 1]), S2(data[..i]));
      low := (low + data[i]) % MODULUS;
      high := (high + low) % MODULUS;
    }
    assert data[..|data|] == data;
    sum := high * 0x1_0000 + low;
  }

  // ----- what a change does to the sums -----

  /** The sums in closed form: byte `i` of `n` counts once in the first and n - i times in the second. */
  ghost function ByteSum(data: seq<byte>): nat {
    if data == [] then 0 else data[0] + ByteSum(data[1..])
  }

  ghost function WeightedSum(data: seq<byte>): nat {
    if data == [] then 0 else |data| * data[0] + WeightedSum(data[1..])
  }

  lemma {:induction false} ByteSumAppends(data: seq<byte>, last: byte)
    ensures ByteSum(data + [last]) == ByteSum(data) + last
    ensures WeightedSum(data + [last]) == WeightedSum(data) + ByteSum(data) + last
  {
    if data != [] {
      ByteSumAppends(data[1..], last);
      assert (data + [last])[1..] == data[1..] + [last];
      assert (|data| + 1) * data[0] == |data| * data[0] + data[0];
    }
  }

  lemma {:induction false} SumsClosedForm(data: seq<byte>)
    ensures S1(data) == 1 + ByteSum(data)
    ensures S2(data) == |data| + WeightedSum(data)
  {
    if data != [] {
      var init, last := data[..|data| - 1], data[|data| - 1];
      SumsClosedForm(init);
      ByteSumAppends(init, last);
      assert data == init + [last];
    }
  }

  lemma SumsTurn(data: seq<byte>, tail: seq<byte>)
    requires tail != []
    ensures var init, last := tail[..|tail| - 1], tail[|tail| - 1];
      && S1(data + tail) == S1(data + init) + last
      && S2(data + tail) == S2(data + init) + S1(data + init) + last
  {
    assert (data + tail)[..|data + tail| - 1] == data + tail[..|tail| - 1];
  }

  lemma {:induction false} SumsAfterTail(a: seq<byte>, b: seq<byte>, tail: seq<byte>)
    ensures S1(a + tail) - S1(b + tail) == S1(a) - S1(b)
    ensures S1(a) == S1(b) ==> S2(a + tail) - S2(b + tail) == S2(a) - S2(b)
  {
    hide S1, S2;
    if tail == [] {
      assert a + tail == a && b + tail == b;
    } else {
      SumsAfterTail(a, b, tail[..|tail| - 1]);
      SumsTurn(a, tail);
      SumsTurn(b, tail);
    }
  }

  lemma SmallGapsShow(a: nat, b: nat)
    requires a != b && -MODULUS < a - b < MODULUS
    ensures a % MODULUS != b % MODULUS
  {
  }

  lemma HalvesDecide(a: nat, b: nat, c: nat, d: nat)
    requires a % MODULUS != c % MODULUS || b % MODULUS != d % MODULUS
    ensures a % MODULUS * 0x1_0000 + b % MODULUS != c % MODULUS * 0x1_0000 + d % MODULUS
  {
  }

  /** Changing any one byte changes the checksum, wherever it is and however long the data. */
  lemma OneByteShows(before: seq<byte>, x: byte, y: byte, after: seq<byte>)
    requires x != y
    ensures AdlerSpec(before + [x] + after) != AdlerSpec(before + [y] + after)
  {
    var a, b := before + [x], before + [y];
    assert a[..|before|] == before && b[..|before|] == before;
    SumsAfterTail(a, b, after);
    SmallGapsShow(S1(a + after), S1(b + after));
    HalvesDecide(S2(a + after), S1(a + after), S2(b + after), S1(b + after));
  }

  /** So does swapping two unequal neighbours, which a plain sum would miss. */
  lemma SwapShows(before: seq<byte>, x: byte, y: byte, after: seq<byte>)
    requires x != y
    ensures AdlerSpec(before + [x, y] + after) != AdlerSpec(before + [y, x] + after)
  {
    var a, b := before + [x, y], before + [y, x];
    assert a[..|a| - 1] == before + [x] && b[..|b| - 1] == before + [y];
    assert (before + [x])[..|before|] == before && (before + [y])[..|before|] == before;
    SumsAfterTail(a, b, after);
    SmallGapsShow(S2(a + after), S2(b + after));
    HalvesDecide(S2(a + after), S1(a + after), S2(b + after), S1(b + after));
  }
}

// Big-endian fields of zlib and PNG.
module BigEndian {
  import opened Basics
  import opened BitReader

  function Value(bytes: seq<byte>): nat {
    if bytes == [] then 0 else 256 * Value(bytes[..|bytes| - 1]) + bytes[|bytes| - 1]
  }

  function U32Bytes(value: nat): (bytes: seq<byte>)
    requires value < 0x1_0000_0000
    ensures |bytes| == 4
  {
    [value / 0x100_0000, value / 0x1_0000 % 0x100, value / 0x100 % 0x100, value % 0x100]
  }

  function Fields(a: nat, b: nat, c: nat, d: nat): nat {
    ((a * 256 + b) * 256 + c) * 256 + d
  }

  lemma ValueOfFour(bytes: seq<byte>)
    requires |bytes| == 4
    ensures Value(bytes) == Fields(bytes[0], bytes[1], bytes[2], bytes[3]) < 0x1_0000_0000
  {
    assert bytes[..3][..2] == bytes[..2] && bytes[..2][..1] == bytes[..1] && bytes[..1][..0] == [];
    assert Value(bytes[..1]) == bytes[0];
    assert Value(bytes[..2]) == Value(bytes[..1]) * 256 + bytes[1];
    assert Value(bytes[..3]) == Value(bytes[..2]) * 256 + bytes[2];
  }

  lemma U32RoundTrip(value: nat)
    requires value < 0x1_0000_0000
    ensures Value(U32Bytes(value)) == value
  {
    ValueOfFour(U32Bytes(value));
    assert value / 0x100 / 0x100 == value / 0x1_0000;
    assert value / 0x1_0000 / 0x100 == value / 0x100_0000;
  }

  ghost function ReadU32Spec(bytes: seq<byte>, offset: nat): Result<nat, PngError> {
    if offset + 4 <= |bytes| then Ok(Value(bytes[offset..offset + 4])) else Err(Truncated)
  }

  method ReadU32(bytes: seq<byte>, offset: nat) returns (r: Result<nat, PngError>)
    ensures r == ReadU32Spec(bytes, offset)
  {
    if offset + 4 > |bytes| {
      return Err(Truncated);
    }
    var value: nat := 0;
    var slice := bytes[offset..offset + 4];
    for i := 0 to 4
      invariant value == Value(slice[..i])
    {
      assert slice[..i + 1][..i] == slice[..i];
      value := value * 256 + slice[i];
    }
    assert slice[..4] == slice;
    r := Ok(value);
  }
}

module Zlib {
  import opened Basics
  import opened BitStrings
  import opened BitReader
  import opened Deflate
  import opened Inflater
  import opened InflateStream
  import opened Adler
  import BigEndian

  /** Method 8, a header that is a multiple of 31, and no preset dictionary. */
  predicate HeaderOk(cmf: nat, flg: nat) {
    cmf % 16 == 8 && (cmf * 256 + flg) % 31 == 0 && (flg / 32) % 2 == 0
  }

  /** The trailer is compared only when all four of its bytes are there. */
  ghost predicate TrailerOk(body: seq<byte>, end: nat, out: seq<byte>) {
    end + 4 <= |body| ==> BigEndian.Value(body[end..end + 4]) == AdlerSpec(out)
  }

  ghost function ZlibSpec(stream: seq<byte>): Result<seq<byte>, PngError> {
    if |stream| < 2 then Err(Truncated)
    else
      var cmf: nat, flg: nat := stream[0], stream[1];
      if cmf % 16 != 8 then Err(NotDeflate)
      else if (cmf * 256 + flg) % 31 != 0 then Err(ZlibHeaderCheck)
      else if (flg / 32) % 2 != 0 then Err(PresetDictionary)
      else
      match InflateSpec(stream[2..])
      case Err(error) => Err(error)
      case Ok((out, end)) => if TrailerOk(stream[2..], end, out) then Ok(out) else Err(ChecksumMismatch)
  }

  method ZlibDecompress(stream: seq<byte>) returns (r: Result<seq<byte>, PngError>)
    ensures r == ZlibSpec(stream)
  {
    if |stream| < 2 {
      return Err(Truncated);
    }
    var cmf: nat, flg: nat := stream[0], stream[1];
    if cmf % 16 != 8 {
      return Err(NotDeflate);
    }
    if (cmf * 256 + flg) % 31 != 0 {
      return Err(ZlibHeaderCheck);
    }
    if (flg / 32) % 2 != 0 {
      return Err(PresetDictionary);
    }
    var body := stream[2..];
    var inflated :- Inflate(body);
    var (out, end) := inflated;
    if end + 4 <= |body| {
      var stated := BigEndian.ReadU32(body, end);
      var actual := Adler32(out);
      if stated.value != actual {
        return Err(ChecksumMismatch);
      }
    }
    r := Ok(out);
  }

  /** `stream` is a zlib stream for `blocks`: header, deflated blocks, and a trailer that is right or cut short. */
  ghost predicate Wraps(stream: seq<byte>, blocks: seq<Block>) {
    && |stream| >= 2
    && HeaderOk(stream[0], stream[1])
    && Holds(stream[2..], blocks)
    && TrailerOk(stream[2..], AlignUp(|StreamBits(blocks, 0, [])|) / 8, StreamOutput(blocks, 0, []))
  }

  lemma ZlibInverts(stream: seq<byte>, blocks: seq<Block>)
    requires Wraps(stream, blocks)
    ensures ZlibSpec(stream) == Ok(StreamOutput(blocks, 0, []))
  {
    hide InflateSpec, StreamBits, StreamOutput, StreamFits, At;
    InflateInverts(stream[2..], blocks);
  }

  /** The output of a zlib stream is `out` exactly when some blocks it wraps expand to `out`. */
  lemma ZlibExact(stream: seq<byte>, out: seq<byte>)
    ensures ZlibSpec(stream) == Ok(out) <==>
      exists blocks :: Wraps(stream, blocks) && StreamOutput(blocks, 0, []) == out
  {
    hide InflateSpec, StreamBits, StreamOutput, StreamFits, At;
    if ZlibSpec(stream) == Ok(out) {
      var (o, end) := InflateSpec(stream[2..]).value;
      InflateExact(stream[2..], o, end);
      var blocks :| && Holds(stream[2..], blocks) && StreamOutput(blocks, 0, []) == o
                    && AlignUp(|StreamBits(blocks, 0, [])|) / 8 == end;
      assert Wraps(stream, blocks);
    }
    forall blocks | Wraps(stream, blocks) ensures ZlibSpec(stream) == Ok(StreamOutput(blocks, 0, [])) {
      ZlibInverts(stream, blocks);
    }
  }

  /** A wrong checksum is caught exactly when the stream goes on for four bytes after the deflated data. */
  lemma ChecksumExact(stream: seq<byte>, blocks: seq<Block>)
    requires |stream| >= 2 && HeaderOk(stream[0], stream[1]) && Holds(stream[2..], blocks)
    ensures var end, out := 2 + AlignUp(|StreamBits(blocks, 0, [])|) / 8, StreamOutput(blocks, 0, []);
      var matches := end + 4 <= |stream| && BigEndian.Value(stream[end..end + 4]) == AdlerSpec(out);
      ZlibSpec(stream) == if matches || |stream| < end + 4 then Ok(out) else Err(ChecksumMismatch)
  {
    hide InflateSpec, StreamBits, StreamOutput, StreamFits, At, AdlerSpec;
    InflateInverts(stream[2..], blocks);
    var end := AlignUp(|StreamBits(blocks, 0, [])|) / 8;
    if end + 6 <= |stream| {
      assert stream[2..][end..end + 4] == stream[end + 2..end + 6];
    }
  }

  // ----- a stream whose trailer is cut off -----

  lemma {:induction false} UnpackedBytes(data: seq<byte>)
    ensures Unpack(data) == BytesBits(data)
  {
    hide LsbBits, BitAt;
    if data != [] {
      var init, last := data[..|data| - 1], |data| - 1;
      UnpackedBytes(init);
      ByteOfBits(data, last);
      UnpackedInit(data);
      assert Unpack(data) == Unpack(data)[..8 * last] + Unpack(data)[8 * last..8 * last + 8];
    }
  }

  lemma UnpackedInit(data: seq<byte>)
    requires data != []
    ensures Unpack(data)[..8 * (|data| - 1)] == Unpack(data[..|data| - 1])
  {
  }

  /** A field of `m + n` bits is one of `m` bits, then one of `n`. */
  lemma {:induction false} FieldSplits(value: nat, m: nat, n: nat, high: nat)
    requires value / Pow2(m) == high
    ensures LsbBits(value, m + n) == LsbBits(value, m) + LsbBits(high, n)
    decreases m
  {
    if m > 0 {
      HalvingDivides(value, Pow2(m - 1));
      FieldSplits(value / 2, m - 1, n, high);
      assert LsbBits(value, m + n) == [value % 2] + LsbBits(value / 2, m - 1 + n);
    }
  }

  lemma LowBit(value: nat, more: nat, n: nat)
    requires n > 0
    ensures LsbBits(value + 2 * more, n) == [value % 2] + LsbBits(value / 2 + more, n - 1)
  {
    assert (value + 2 * more) / 2 == value / 2 + more && (value + 2 * more) % 2 == value % 2;
  }

  lemma PowerTurn(n: nat, high: nat)
    requires n > 0
    ensures Pow2(n) * high == 2 * (Pow2(n - 1) * high)
  {
  }

  lemma {:induction false} HighBitsDrop(value: nat, high: nat, n: nat)
    ensures LsbBits(value + Pow2(n) * high, n) == LsbBits(value, n)
    decreases n
  {
    if n == 0 {
      hide Pow2;
    } else {
      hide LsbBits, Pow2;
      PowerTurn(n, high);
      LowBit(value, Pow2(n - 1) * high, n);
      LowBit(value, 0, n);
      HighBitsDrop(value / 2, high, n - 1);
    }
  }

  /** The header bits and the two length fields of a stored block of one byte, byte by byte. */
  lemma OneByteFields()
    ensures LsbBits(1, 1) + (LsbBits(0, 2) + LsbBits(0, 5)) == LsbBits(1, 8)
    ensures LsbBits(1, 16) == LsbBits(1, 8) + LsbBits(0, 8)
    ensures LsbBits(0xFFFE, 16) == LsbBits(0xFE, 8) + LsbBits(0xFF, 8)
  {
    hide LsbBits, Pow2;
    PowersUsed();
    FieldSplits(1, 1, 7, 0);
    FieldSplits(0, 2, 5, 0);
    FieldSplits(1, 8, 8, 0);
    FieldSplits(0xFFFE, 8, 8, 0xFF);
    HighBitsDrop(0xFE, 0xFF, 8);
  }

  lemma PowersUsed()
    ensures Pow2(1) == 2 && Pow2(2) == 4 && Pow2(8) == 256
  {
    Pow2Adds(4, 4);
    assert Pow2(4) == 16;
  }

  lemma Appended(a: seq<byte>, b: byte)
    ensures BytesBits(a + [b]) == BytesBits(a) + LsbBits(b, 8)
  {
    hide LsbBits;
    assert (a + [b])[..|a|] == a;
  }

  lemma SixBytes(a: byte, b: byte, c: byte, d: byte, e: byte, f: byte)
    ensures BytesBits([a, b, c, d, e, f]) ==
      LsbBits(a, 8) + LsbBits(b, 8) + LsbBits(c, 8) + LsbBits(d, 8) + LsbBits(e, 8) + LsbBits(f, 8)
  {
    hide LsbBits, BytesBits;
    var one: seq<byte> := [] + [a];
    var two := one + [b];
    var three := two + [c];
    var four := three + [d];
    var five := four + [e];
    NoBytes();
    Appended([], a);
    Appended(one, b);
    Appended(two, c);
    Appended(three, d);
    Appended(four, e);
    Appended(five, f);
    assert [] + LsbBits(a, 8) == LsbBits(a, 8);
    assert five + [f] == [a, b, c, d, e, f];
  }

  lemma NoBytes()
    ensures BytesBits([]) == []
  {
  }

  lemma Regroup<T>(last: seq<T>, kind: seq<T>, padding: seq<T>, b: seq<T>, c: seq<T>, d: seq<T>, e: seq<T>, x: seq<T>)
    ensures last + (kind + (padding + ((b + c) + ((d + e) + x)))) == (last + (kind + padding)) + b + c + d + e + x
  {
  }

  lemma StoredBlockBits(x: byte)
    ensures var b := Stored(LsbBits(0, 5), [x]);
      && BlockFits(b, 0, []) && BlockOutput(b, 0, []) == [x]
      && BlockBits(b, 0, [], true) == BytesBits([0x01, 0x01, 0x00, 0xFE, 0xFF, x])
  {
    hide LsbBits, BytesBits;
    OneByteFields();
    SixBytes(0x01, 0x01, 0x00, 0xFE, 0xFF, x);
    OneByteBits(x);
    Regroup(LsbBits(1, 1), LsbBits(0, 2), LsbBits(0, 5), LsbBits(1, 8), LsbBits(0, 8), LsbBits(0xFE, 8),
            LsbBits(0xFF, 8), LsbBits(x, 8));
  }

  lemma OneByteBits(x: byte)
    ensures BytesBits([x]) == LsbBits(x, 8)
  {
    hide LsbBits, BytesBits;
    NoBytes();
    Appended([], x);
    assert [] + [x] == [x];
    assert [] + LsbBits(x, 8) == LsbBits(x, 8);
  }

  lemma OneStoredByte(x: byte)
    ensures var blocks := [Stored(LsbBits(0, 5), [x])];
      && Holds([0x01, 0x01, 0x00, 0xFE, 0xFF, x], blocks)
      && |StreamBits(blocks, 0, [])| == 48 && StreamOutput(blocks, 0, []) == [x]
  {
    hide LsbBits, BytesBits, BlockBits, BlockFits, BlockOutput, At, Unpack;
    var data: seq<byte> := [0x01, 0x01, 0x00, 0xFE, 0xFF, x];
    var blocks := [Stored(LsbBits(0, 5), [x])];
    StoredBlockBits(x);
    UnpackedBytes(data);
    SliceStands(Unpack(data), 0, 48);
    assert Unpack(data)[0..48] == Unpack(data);
  }

  /** So a stream cut off in its trailer hides any damage: this one gives whatever byte stands at its end. */
  lemma CutTrailerHidesDamage(x: byte)
    ensures ZlibSpec([0x78, 0x01, 0x01, 0x01, 0x00, 0xFE, 0xFF, x]) == Ok([x])
  {
    hide InflateSpec, At, AdlerSpec, StreamFits, StreamBits, StreamOutput, LsbBits, BytesBits;
    var stream: seq<byte> := [0x78, 0x01, 0x01, 0x01, 0x00, 0xFE, 0xFF, x];
    var blocks := [Stored(LsbBits(0, 5), [x])];
    OneStoredByte(x);
    assert stream[2..] == [0x01, 0x01, 0x00, 0xFE, 0xFF, x];
    ChecksumExact(stream, blocks);
  }
}
