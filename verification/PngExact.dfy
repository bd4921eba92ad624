// Exactly which files the PNG decoder accepts, and as which image: odd endings, repeated headers and all.

module PngExact {
  import opened Basics
  import opened BitReader
  import opened Deflate
  import opened Zlib
  import opened Filters
  import opened Png
  import BigEndian

  // ----- files as chunks -----

  /** How the walk may stop: too few bytes for a chunk, an end chunk, or a chunk whose checksum is cut off. */
  datatype Ending = Short(rest: seq<byte>) | EndChunk(body: seq<byte>, rest: seq<byte>) | CutChunk(chunk: Chunk)

  ghost predicate EndingFits(ending: Ending) {
    match ending
    case Short(rest) => |rest| < 8
    case EndChunk(body, _) => |body| < 0x1_0000_0000
    case CutChunk(c) => |c.kind| == 4 && c.kind != IEND && |c.body| < 0x1_0000_0000 && |c.crc| < 4
  }

  ghost function Framed(kind: seq<byte>, body: seq<byte>, rest: seq<byte>): seq<byte>
    requires |body| < 0x1_0000_0000
  {
    BigEndian.U32Bytes(|body|) + (kind + (body + rest))
  }

  ghost function EndingBytes(ending: Ending): seq<byte>
    requires EndingFits(ending)
  {
    match ending
    case Short(rest) => rest
    case EndChunk(body, rest) => Framed(IEND, body, rest)
    case CutChunk(c) => Framed(c.kind, c.body, c.crc)
  }

  ghost predicate NoneEnds(chunks: seq<Chunk>) {
    forall i :: 0 <= i < |chunks| ==> chunks[i].kind != IEND
  }

  /** The chunks the walk looks into. */
  ghost function Read(chunks: seq<Chunk>, ending: Ending): seq<Chunk> {
    if ending.CutChunk? then chunks + [ending.chunk] else chunks
  }

  ghost predicate Chunked(bytes: seq<byte>, chunks: seq<Chunk>, ending: Ending) {
    ChunksFit(chunks) && NoneEnds(chunks) && EndingFits(ending) && bytes == ChunksBytes(chunks) + EndingBytes(ending)
  }

  ghost function Absorbed(found: Found, chunks: seq<Chunk>): Result<Found, PngError>
    decreases |chunks|
  {
    if chunks == [] then Ok(found)
    else
      var more :- Absorb(found, chunks[0].kind, chunks[0].body);
      Absorbed(more, chunks[1..])
  }

  // ----- the walk sees exactly the chunks -----

  lemma LastByte(high: nat, low: byte)
    ensures (high * 256 + low) / 256 == high && (high * 256 + low) % 256 == low as nat
  {
  }

  lemma FourBytes(b: seq<byte>)
    requires |b| == 4
    ensures BigEndian.Value(b) < 0x1_0000_0000 && BigEndian.U32Bytes(BigEndian.Value(b)) == b
  {
    BigEndian.ValueOfFour(b);
    var one := b[0] as nat;
    var two := one * 256 + b[1];
    var three := two * 256 + b[2];
    LastByte(one, b[1]);
    LastByte(two, b[2]);
    LastByte(three, b[3]);
    DividedTwice(BigEndian.Value(b));
  }

  lemma DividedTwice(v: nat)
    ensures v / 0x1_0000 == v / 0x100 / 0x100 && v / 0x100_0000 == v / 0x100 / 0x100 / 0x100
  {
  }

  lemma FramedRead(bytes: seq<byte>, p: nat, kind: seq<byte>, body: seq<byte>, rest: seq<byte>)
    requires p <= |bytes| && |kind| == 4 && |body| < 0x1_0000_0000 && bytes[p..] == Framed(kind, body, rest)
    ensures p + 8 + |body| + |rest| == |bytes|
    ensures BigEndian.Value(bytes[p..p + 4]) == |body|
    ensures bytes[p + 4..p + 8] == kind && bytes[p + 8..p + 8 + |body|] == body && bytes[p + 8 + |body|..] == rest
  {
    hide At, BigEndian.Value;
    var length := BigEndian.U32Bytes(|body|);
    BigEndian.U32RoundTrip(|body|);
    SliceStands(bytes, p, |bytes|);
    assert bytes[p..|bytes|] == bytes[p..];
    AtSplits(bytes, p, length, kind + (body + rest));
    AtSplits(bytes, p + 4, kind, body + rest);
    AtSplits(bytes, p + 8, body, rest);
    PartStands(bytes, p, length);
    PartStands(bytes, p + 4, kind);
    PartStands(bytes, p + 8, body);
    PartStands(bytes, p + 8 + |body|, rest);
    assert bytes[p + 8 + |body|..] == bytes[p + 8 + |body|..|bytes|];
  }

  lemma PartStands(bytes: seq<byte>, p: nat, part: seq<byte>)
    requires At(bytes, p, part)
    ensures p + |part| <= |bytes| && bytes[p..p + |part|] == part
  {
  }

  lemma EndingRead(ending: Ending, bytes: seq<byte>, p: nat, found: Found)
    requires EndingFits(ending) && p <= |bytes| && bytes[p..] == EndingBytes(ending)
    ensures Walk(bytes, p, found) == Absorbed(found, Read([], ending))
  {
    hide Framed, Absorb;
    match ending
    case Short(_) =>
    case EndChunk(body, rest) =>
      FramedRead(bytes, p, IEND, body, rest);
    case CutChunk(c) =>
      FramedRead(bytes, p, c.kind, c.body, c.crc);
      assert Read([], ending) == [c] && [c][1..] == [];
  }

  lemma ChunksTurn(chunks: seq<Chunk>)
    requires chunks != [] && ChunksFit(chunks)
    ensures ChunkFits(chunks[0]) && ChunksFit(chunks[1..])
    ensures ChunksBytes(chunks) == ChunkBytes(chunks[0]) + ChunksBytes(chunks[1..])
  {
    hide ChunkBytes, ChunkFits;
  }

  lemma FirstChunk(chunks: seq<Chunk>, ending: Ending)
    requires chunks != [] && ChunksFit(chunks) && EndingFits(ending)
    ensures ChunksBytes(chunks) + EndingBytes(ending) ==
            Framed(chunks[0].kind, chunks[0].body, chunks[0].crc + (ChunksBytes(chunks[1..]) + EndingBytes(ending)))
    ensures Read(chunks, ending) == [chunks[0]] + Read(chunks[1..], ending)
  {
    hide EndingBytes, EndingFits, ChunksBytes, ChunksFit, BigEndian.U32Bytes;
    ChunksTurn(chunks);
    var c, rest, end := chunks[0], ChunksBytes(chunks[1..]), EndingBytes(ending);
    Regroup(BigEndian.U32Bytes(|c.body|), c.kind, c.body, c.crc, rest, end);
    assert chunks == [c] + chunks[1..];
  }

  lemma Regroup(a: seq<byte>, b: seq<byte>, c: seq<byte>, d: seq<byte>, e: seq<byte>, f: seq<byte>)
    ensures ((a + (b + (c + d))) + e) + f == a + (b + (c + (d + (e + f))))
  {
  }

  /** One turn of the walk over a chunk with its checksum. */
  lemma ChunkTurn(bytes: seq<byte>, p: nat, c: Chunk, rest: seq<byte>, found: Found)
    requires |c.kind| == 4 && |c.crc| == 4 && |c.body| < 0x1_0000_0000 && c.kind != IEND
    requires p <= |bytes| && bytes[p..] == Framed(c.kind, c.body, c.crc + rest)
    ensures var q := p + 12 + |c.body|;
      && q <= |bytes| && bytes[q..] == rest
      && Walk(bytes, p, found) ==
           match Absorb(found, c.kind, c.body)
           case Err(error) => Err(error)
           case Ok(more) => Walk(bytes, q, more)
  {
    hide Framed, Absorb;
    FramedRead(bytes, p, c.kind, c.body, c.crc + rest);
    assert bytes[p + 12 + |c.body|..] == bytes[p + 8 + |c.body|..][4..] == rest;
  }

  lemma {:induction false} WalkFound(chunks: seq<Chunk>, ending: Ending, bytes: seq<byte>, p: nat, found: Found)
    requires p <= |bytes| && Chunked(bytes[p..], chunks, ending)
    ensures Walk(bytes, p, found) == Absorbed(found, Read(chunks, ending))
    decreases |chunks|
  {
    hide Framed, Absorb, EndingBytes, EndingFits, ChunkFits, ChunksBytes, Walk, Read;
    if chunks == [] {
      NoChunks();
      assert [] + EndingBytes(ending) == EndingBytes(ending);
      EndingRead(ending, bytes, p, found);
    } else {
      var c, rest := chunks[0], ChunksBytes(chunks[1..]) + EndingBytes(ending);
      FirstChunk(chunks, ending);
      OneFits(c);
      ChunkTurn(bytes, p, c, rest, found);
      assert Read(chunks, ending)[1..] == Read(chunks[1..], ending);
      if Absorb(found, c.kind, c.body).Ok? {
        WalkFound(chunks[1..], ending, bytes, p + 12 + |c.body|, Absorb(found, c.kind, c.body).value);
      }
    }
  }

  lemma OneFits(c: Chunk)
    requires ChunkFits(c)
    ensures |c.kind| == 4 && |c.crc| == 4 && |c.body| < 0x1_0000_0000
  {
  }

  lemma NoChunks()
    ensures ChunksBytes([]) == []
  {
  }

  /** The chunk that stands at `p`, its checksum as far as the file goes. */
  lemma ChunkStands(bytes: seq<byte>, p: nat) returns (c: Chunk, rest: seq<byte>)
    requires p + 8 <= |bytes| && p + 8 + BigEndian.Value(bytes[p..p + 4]) <= |bytes|
    ensures |c.kind| == 4 && |c.body| == BigEndian.Value(bytes[p..p + 4]) < 0x1_0000_0000
    ensures c.kind == bytes[p + 4..p + 8] && c.body == bytes[p + 8..p + 8 + |c.body|]
    ensures rest == bytes[p + 8 + |c.body|..] && bytes[p..] == Framed(c.kind, c.body, rest)
    ensures c.crc == if |rest| < 4 then rest else rest[..4]
  {
    FourBytes(bytes[p..p + 4]);
    var length := BigEndian.Value(bytes[p..p + 4]);
    rest := bytes[p + 8 + length..];
    c := Chunk(bytes[p + 4..p + 8], bytes[p + 8..p + 8 + length], if |rest| < 4 then rest else rest[..4]);
    assert bytes[p..] == bytes[p..p + 4] + (c.kind + (c.body + rest));
  }

  lemma {:induction false} WalkSound(bytes: seq<byte>, p: nat, found: Found)
    returns (chunks: seq<Chunk>, ending: Ending)
    requires p <= |bytes| && Walk(bytes, p, found).Ok?
    ensures Chunked(bytes[p..], chunks, ending)
    decreases |bytes| - p
  {
    hide Framed, Absorb, ChunkFits, ChunksBytes;
    if p + 8 > |bytes| {
      chunks, ending := [], Short(bytes[p..]);
      EndsHere(bytes, p, ending);
    } else {
      var c, rest := ChunkStands(bytes, p);
      if c.kind == IEND {
        chunks, ending := [], EndChunk(c.body, rest);
        EndsHere(bytes, p, ending);
      } else if |rest| < 4 {
        chunks, ending := [], CutChunk(c);
        EndsHere(bytes, p, ending);
      } else {
        var q := p + 12 + |c.body|;
        var more;
        more, ending := WalkSound(bytes, q, Absorb(found, c.kind, c.body).value);
        chunks := [c] + more;
        assert bytes[q..] == rest[4..] && rest == c.crc + rest[4..];
        ChunkAdds(c, more, ending);
      }
    }
  }

  lemma EndsHere(bytes: seq<byte>, p: nat, ending: Ending)
    requires p <= |bytes| && EndingFits(ending) && bytes[p..] == EndingBytes(ending)
    ensures Chunked(bytes[p..], [], ending)
  {
    hide EndingFits, EndingBytes;
    NoChunks();
    assert [] + EndingBytes(ending) == EndingBytes(ending);
  }

  lemma ChunkAdds(c: Chunk, more: seq<Chunk>, ending: Ending)
    requires |c.kind| == 4 && |c.crc| == 4 && |c.body| < 0x1_0000_0000 && c.kind != IEND
    requires ChunksFit(more) && NoneEnds(more) && EndingFits(ending)
    ensures ChunksFit([c] + more) && NoneEnds([c] + more)
    ensures ChunksBytes([c] + more) + EndingBytes(ending) ==
            Framed(c.kind, c.body, c.crc + (ChunksBytes(more) + EndingBytes(ending)))
  {
    hide EndingFits, EndingBytes, Framed, ChunksBytes;
    var chunks := [c] + more;
    assert ChunkFits(c);
    assert chunks[1..] == more;
    FirstChunk(chunks, ending);
  }

  // ----- what the chunks say -----

  ghost predicate HeaderReads(body: seq<byte>) {
    |body| > 12 && body[8] == 8 && body[12] == 0 && (body[9] == 2 || body[9] == 6)
  }

  /** The last header of a run of chunks counts. */
  ghost function LastHeader(chunks: seq<Chunk>): Option<seq<byte>> {
    if chunks == [] then None
    else if chunks[|chunks| - 1].kind == IHDR then Some(chunks[|chunks| - 1].body)
    else LastHeader(chunks[..|chunks| - 1])
  }

  ghost predicate HeadersRead(chunks: seq<Chunk>) {
    forall i :: 0 <= i < |chunks| && chunks[i].kind == IHDR ==> HeaderReads(chunks[i].body)
  }

  ghost predicate HeaderSays(body: seq<byte>, width: nat, height: nat, channels: nat) {
    && HeaderReads(body)
    && width == BigEndian.Value(body[0..4]) && height == BigEndian.Value(body[4..8])
    && channels == if body[9] == 2 then 3 else 4
  }

  lemma {:induction false} AbsorbedSplits(found: Found, chunks: seq<Chunk>, c: Chunk)
    ensures Absorbed(found, chunks + [c]) ==
      match Absorbed(found, chunks)
      case Err(error) => Err(error)
      case Ok(more) => Absorb(more, c.kind, c.body)
    decreases |chunks|
  {
    hide Absorb;
    if chunks == [] {
      assert ([] + [c])[1..] == [];
    } else {
      assert (chunks + [c])[1..] == chunks[1..] + [c];
      if Absorb(found, chunks[0].kind, chunks[0].body).Ok? {
        AbsorbedSplits(Absorb(found, chunks[0].kind, chunks[0].body).value, chunks[1..], c);
      }
    }
  }

  ghost function DataOf(c: Chunk): seq<byte> {
    if c.kind == IDAT then c.body else []
  }

  lemma ImageDataTurn(chunks: seq<Chunk>)
    requires chunks != []
    ensures ImageData(chunks) == DataOf(chunks[0]) + ImageData(chunks[1..])
  {
  }

  lemma {:induction false} ImageDataSplits(chunks: seq<Chunk>, c: Chunk)
    ensures ImageData(chunks + [c]) == ImageData(chunks) + DataOf(c)
    decreases |chunks|
  {
    hide ImageData, DataOf;
    ImageDataTurn(chunks + [c]);
    if chunks == [] {
      NoImageData();
      assert ([] + [c])[1..] == [];
      assert DataOf(c) + [] == [] + DataOf(c);
    } else {
      assert (chunks + [c])[1..] == chunks[1..] + [c];
      ImageDataSplits(chunks[1..], c);
      ImageDataTurn(chunks);
    }
  }

  /** What the walk gathers: all image data in order, and the last header. */
  ghost predicate Gathers(found: Found, chunks: seq<Chunk>) {
    && found.compressed == ImageData(chunks)
    && match LastHeader(chunks)
       case None => !found.seen
       case Some(body) => found.seen && HeaderSays(body, found.width, found.height, found.channels)
  }

  lemma {:induction false} AbsorbedGathers(chunks: seq<Chunk>)
    ensures Absorbed(NOTHING, chunks).Ok? <==> HeadersRead(chunks)
    ensures Absorbed(NOTHING, chunks).Ok? ==> Gathers(Absorbed(NOTHING, chunks).value, chunks)
    decreases |chunks|
  {
    hide Absorb, HeaderReads, HeaderSays, ImageData;
    if chunks == [] {
      NoImageData();
    } else {
      var init, c := chunks[..|chunks| - 1], chunks[|chunks| - 1];
      assert chunks == init + [c];
      AbsorbedGathers(init);
      AbsorbedSplits(NOTHING, init, c);
      ImageDataSplits(init, c);
      if Absorbed(NOTHING, init).Ok? {
        OneAbsorbed(Absorbed(NOTHING, init).value, c);
      }
    }
  }

  lemma NoImageData()
    ensures ImageData([]) == []
  {
  }

  lemma OneAbsorbed(found: Found, c: Chunk)
    ensures Absorb(found, c.kind, c.body).Ok? <==> c.kind != IHDR || HeaderReads(c.body)
    ensures Absorb(found, c.kind, c.body).Ok? ==>
      var more := Absorb(found, c.kind, c.body).value;
      && more.compressed == found.compressed + DataOf(c)
      && if c.kind == IHDR then more.seen && HeaderSays(c.body, more.width, more.height, more.channels)
         else more == found.(compressed := more.compressed)
  {
    assert found.compressed + [] == found.compressed;
  }

  // ----- the decoder, exactly -----

  /** The file's chunks up to where the walk stops, the image their last header announces, and the data in them. */
  ghost predicate Encodes(bytes: seq<byte>, image: Image, chunks: seq<Chunk>, ending: Ending, blocks: seq<Block>) {
    && |bytes| >= 8 && bytes[..8] == SIGNATURE && Chunked(bytes[8..], chunks, ending)
    && var all := Read(chunks, ending);
    && HeadersRead(all) && LastHeader(all).Some?
    && HeaderSays(LastHeader(all).value, image.width, image.height, image.channels)
    && Wraps(ImageData(all), blocks)
    && RowsOf(StreamOutput(blocks, 0, []), image.width, image.height, image.channels, image.pixels)
  }

  lemma EncodedDecodes(bytes: seq<byte>, image: Image, chunks: seq<Chunk>, ending: Ending, blocks: seq<Block>)
    requires Encodes(bytes, image, chunks, ending, blocks)
    ensures DecodeSpec(bytes) == Ok(image)
  {
    hide Walk, Chunked, Read, HeadersRead, LastHeader, HeaderSays, RowsOf, ImageData, StreamOutput, StreamFits,
      StreamBits, HeaderOk, TrailerOk, ZlibSpec, UnfilterSpec, Absorbed, At;
    var all := Read(chunks, ending);
    WalkFound(chunks, ending, bytes, 8, NOTHING);
    AbsorbedGathers(all);
    var found := Absorbed(NOTHING, all).value;
    SameHeader(LastHeader(all).value, found, image);
    WrapsSomething(ImageData(all), blocks);
    ZlibInverts(ImageData(all), blocks);
    UnfilterExact(StreamOutput(blocks, 0, []), image.width, image.height, image.channels, image.pixels);
  }

  lemma SameHeader(body: seq<byte>, found: Found, image: Image)
    requires HeaderSays(body, found.width, found.height, found.channels)
    requires HeaderSays(body, image.width, image.height, image.channels)
    ensures found.width == image.width && found.height == image.height && found.channels == image.channels
  {
  }

  lemma DecodedIsEncoded(bytes: seq<byte>, image: Image)
    returns (chunks: seq<Chunk>, ending: Ending, blocks: seq<Block>)
    requires DecodeSpec(bytes) == Ok(image)
    ensures Encodes(bytes, image, chunks, ending, blocks)
  {
    hide Walk, Chunked, Read, HeadersRead, LastHeader, HeaderSays, RowsOf, ImageData, StreamOutput, StreamFits,
      StreamBits, HeaderOk, TrailerOk, ZlibSpec, UnfilterSpec, Absorbed, At;
    chunks, ending := WalkSound(bytes, 8, NOTHING);
    WalkFound(chunks, ending, bytes, 8, NOTHING);
    var all := Read(chunks, ending);
    AbsorbedGathers(all);
    var found := Absorbed(NOTHING, all).value;
    var raw := ZlibSpec(found.compressed).value;
    ZlibExact(found.compressed, raw);
    blocks :| Wraps(found.compressed, blocks) && StreamOutput(blocks, 0, []) == raw;
    UnfilterExact(raw, image.width, image.height, image.channels, image.pixels);
  }

  /** A file decodes to an image if and only if its chunks announce and hold that image. */
  lemma DecodeExact(bytes: seq<byte>, image: Image)
    ensures DecodeSpec(bytes) == Ok(image) <==>
      exists chunks, ending, blocks :: Encodes(bytes, image, chunks, ending, blocks)
  {
    hide DecodeSpec, Encodes;
    if DecodeSpec(bytes) == Ok(image) {
      var chunks, ending, blocks := DecodedIsEncoded(bytes, image);
    }
    forall chunks, ending, blocks | Encodes(bytes, image, chunks, ending, blocks)
      ensures DecodeSpec(bytes) == Ok(image)
    {
      EncodedDecodes(bytes, image, chunks, ending, blocks);
    }
  }
}
