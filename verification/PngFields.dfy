// The numbers of the zlib and PNG containers, written out: headers, trailers, signatures and chunk kinds.

module PngFields {
  import opened Basics
  import opened BitReader
  import opened Adler
  import opened Inflater
  import opened Zlib
  import opened Png
  import Filters
  import BigEndian

  /** Four bytes, the most significant first. */
  function Word(b: seq<byte>, p: nat): nat
    requires p + 4 <= |b|
  {
    b[p] as int * 0x100_0000 + b[p + 1] as int * 0x1_0000 + b[p + 2] as int * 0x100 + b[p + 3]
  }

  lemma ValueIsWord(b: seq<byte>, p: nat)
    requires p + 4 <= |b|
    ensures BigEndian.Value(b[p..p + 4]) == Word(b, p)
  {
    hide BigEndian.Value;
    BigEndian.ValueOfFour(b[p..p + 4]);
  }

  // ----- zlib -----

  /** Section 2.2 of RFC 1950, with its numbers. */
  lemma AdlerIs(data: seq<byte>)
    ensures AdlerSpec(data) ==
      0x1_0000 * ((|data| + WeightedSum(data)) % 65521) + (1 + ByteSum(data)) % 65521
  {
    hide S1, S2;
    SumsClosedForm(data);
  }

  /** Which two bytes may start a stream, and what is said of the others. */
  lemma ZlibHeaderExact(stream: seq<byte>)
    ensures |stream| < 2 ==> ZlibSpec(stream) == Err(Truncated)
    ensures |stream| >= 2 ==>
      var cmf, flg := stream[0] as int, stream[1] as int;
      && (cmf % 16 != 8 ==> ZlibSpec(stream) == Err(NotDeflate))
      && (cmf % 16 == 8 && (256 * cmf + flg) % 31 != 0 ==> ZlibSpec(stream) == Err(ZlibHeaderCheck))
      && (cmf % 16 == 8 && (256 * cmf + flg) % 31 == 0 && flg / 32 % 2 == 1 ==>
          ZlibSpec(stream) == Err(PresetDictionary))
      && (ZlibSpec(stream).Ok? ==> cmf % 16 == 8 && (256 * cmf + flg) % 31 == 0 && flg / 32 % 2 == 0)
  {
    hide InflateSpec, TrailerOk;
  }

  /** The output of a stream with a good header: the inflated data, when the four bytes behind it, if there are four,
      are its two sums modulo 65521, the weighted one first. */
  lemma TrailerExact(stream: seq<byte>, out: seq<byte>, end: nat)
    requires |stream| >= 2 && stream[0] % 16 == 8 && stream[1] / 32 % 2 == 0
    requires (stream[0] as int * 256 + stream[1]) % 31 == 0
    requires InflateSpec(stream[2..]) == Ok((out, end))
    ensures ZlibSpec(stream) ==
      if end + 6 <= |stream| && Word(stream, end + 2) !=
           0x1_0000 * ((|out| + WeightedSum(out)) % 65521) + (1 + ByteSum(out)) % 65521
      then Err(ChecksumMismatch) else Ok(out)
  {
    hide InflateSpec, AdlerSpec, BigEndian.Value;
    AdlerIs(out);
    if end + 6 <= |stream| {
      ValueIsWord(stream, end + 2);
      assert stream[2..][end..end + 4] == stream[end + 2..end + 6];
    }
  }

  // ----- chunks -----

  lemma ReadIsWord(b: seq<byte>, p: nat)
    ensures BigEndian.ReadU32Spec(b, p) == if p + 4 <= |b| then Ok(Word(b, p)) else Err(Truncated)
  {
    hide BigEndian.Value;
    if p + 4 <= |b| {
      ValueIsWord(b, p);
    }
  }

  /** What a header chunk says: width, height, eight bits a channel, red-green-blue with or without alpha, rows in
      order. The two method bytes are not looked at. */
  lemma HeaderExact(found: Found, body: seq<byte>)
    ensures Absorb(found, [0x49, 0x48, 0x44, 0x52], body) ==
      if |body| < 8 then Err(Truncated)
      else if |body| < 13 then Err(ShortHeader)
      else if body[8] != 8 || body[9] !in {2, 6} || body[12] != 0 then Err(UnsupportedImage)
      else Ok(Found(true, Word(body, 0), Word(body, 4), if body[9] == 2 then 3 else 4, found.compressed))
  {
    hide BigEndian.ReadU32Spec, Word;
    ReadIsWord(body, 0);
    ReadIsWord(body, 4);
  }

  /** Image data is gathered, every other kind but the header and the end is passed over. */
  lemma OtherChunks(found: Found, kind: seq<byte>, body: seq<byte>)
    requires kind != [0x49, 0x48, 0x44, 0x52]
    ensures Absorb(found, kind, body) ==
      if kind == [0x49, 0x44, 0x41, 0x54] then Ok(found.(compressed := found.compressed + body)) else Ok(found)
  {
  }

  /** The walk at a chunk: its length and its kind, the end chunk that stops it, and the checksum it steps over. */
  lemma WalkExact(bytes: seq<byte>, p: nat, found: Found)
    ensures p + 8 > |bytes| ==> Walk(bytes, p, found) == Ok(found)
    ensures p + 8 <= |bytes| ==>
      var n, kind := Word(bytes, p), bytes[p + 4..p + 8];
      && (p + 8 + n > |bytes| ==> Walk(bytes, p, found) == Err(Truncated))
      && (p + 8 + n <= |bytes| && kind == [0x49, 0x45, 0x4E, 0x44] ==> Walk(bytes, p, found) == Ok(found))
      && (p + 8 + n <= |bytes| && kind != [0x49, 0x45, 0x4E, 0x44] ==>
          var more := Absorb(found, kind, bytes[p + 8..p + 8 + n]);
          Walk(bytes, p, found) == if more.Err? then Err(more.error) else Walk(bytes, p + 12 + n, more.value))
  {
    hide Absorb, Word, BigEndian.Value;
    if p + 8 <= |bytes| {
      ValueIsWord(bytes, p);
    }
  }

  /** A file that does not start with the eight bytes of the signature is refused, and the walk starts behind them. */
  lemma SignatureExact(bytes: seq<byte>)
    ensures var signed := |bytes| >= 8 && bytes[..8] == [0x89, 0x50, 0x4E, 0x47, 0x0D, 0x0A, 0x1A, 0x0A];
      && (!signed ==> DecodeSpec(bytes) == Err(NotAPng))
      && (signed && Walk(bytes, 8, Found(false, 0, 0, 0, [])).Err? ==>
          DecodeSpec(bytes) == Err(Walk(bytes, 8, Found(false, 0, 0, 0, [])).error))
      && (signed && Walk(bytes, 8, Found(false, 0, 0, 0, [])).Ok? ==>
          DecodeSpec(bytes) == DecodeFound(Walk(bytes, 8, Found(false, 0, 0, 0, [])).value))
  {
    hide Walk, DecodeFound;
  }

  /** What was gathered becomes an image: both a header and data must be there, the data must inflate, and the rows must
      be as many and as long as the header says. */
  lemma GatheredExact(found: Found)
    ensures !found.seen ==> DecodeFound(found) == Err(NoHeader)
    ensures found.seen && found.compressed == [] ==> DecodeFound(found) == Err(NoImageData)
    ensures found.seen && found.compressed != [] ==>
      var raw := ZlibSpec(found.compressed);
      && (raw.Err? ==> DecodeFound(found) == Err(raw.error))
      && (raw.Ok? ==>
          var pixels := Filters.UnfilterSpec(raw.value, found.width, found.height, found.channels);
          DecodeFound(found) == if pixels.Err? then Err(pixels.error)
                                else Ok(Image(found.width, found.height, found.channels, pixels.value)))
  {
    hide ZlibSpec, Filters.UnfilterSpec;
  }
}
