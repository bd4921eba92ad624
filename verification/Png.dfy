// The PNG container (sections 3.2 and 4.1.1 of RFC 2083): walking the chunks, and whole images.

module Png {
  import opened Basics
  import opened BitReader
  import opened Deflate
  import opened InflateStream
  import opened Zlib
  import opened Filters
  import BigEndian

  datatype Image = Image(width: nat, height: nat, channels: nat, pixels: seq<byte>)

  const SIGNATURE: seq<byte> := [0x89, 0x50, 0x4E, 0x47, 0x0D, 0x0A, 0x1A, 0x0A]
  const IHDR: seq<byte> := [0x49, 0x48, 0x44, 0x52]
  const IDAT: seq<byte> := [0x49, 0x44, 0x41, 0x54]
  const IEND: seq<byte> := [0x49, 0x45, 0x4E, 0x44]

  /** What the walk has gathered: the last header seen, and the image data so far. */
  datatype Found = Found(seen: bool, width: nat, height: nat, channels: nat, compressed: seq<byte>)

  const NOTHING := Found(false, 0, 0, 0, [])

  /** Only 8-bit non-interlaced RGB and RGBA. */
  ghost function AbsorbHeader(found: Found, body: seq<byte>): Result<Found, PngError> {
    var width :- BigEndian.ReadU32Spec(body, 0);
    var height :- BigEndian.ReadU32Spec(body, 4);
    if |body| <= 12 then Err(ShortHeader)
    else if body[8] != 8 || body[12] != 0 || (body[9] != 2 && body[9] != 6) then Err(UnsupportedImage)
    else Ok(Found(true, width, height, if body[9] == 2 then 3 else 4, found.compressed))
  }

  ghost function Absorb(found: Found, kind: seq<byte>, body: seq<byte>): Result<Found, PngError> {
    if kind == IHDR then AbsorbHeader(found, body)
    else if kind == IDAT then Ok(found.(compressed := found.compressed + body))
    else Ok(found)
  }

  /** The chunk walk: checksums are skipped, and fewer than eight bytes end it as the end chunk does. */
  ghost function Walk(bytes: seq<byte>, position: nat, found: Found): Result<Found, PngError>
    decreases |bytes| - position
  {
    if position + 8 > |bytes| then Ok(found)
    else
      var length := BigEndian.Value(bytes[position..position + 4]);
      var kind, bodyEnd := bytes[position + 4..position + 8], position + 8 + length;
      if bodyEnd > |bytes| then Err(Truncated)
      else if kind == IEND then Ok(found)
      else
        var more :- Absorb(found, kind, bytes[position + 8..bodyEnd]);
        Walk(bytes, bodyEnd + 4, more)
  }

  ghost function DecodeFound(found: Found): Result<Image, PngError> {
    if !found.seen then Err(NoHeader)
    else if found.compressed == [] then Err(NoImageData)
    else
      var raw :- ZlibSpec(found.compressed);
      var pixels :- UnfilterSpec(raw, found.width, found.height, found.channels);
      Ok(Image(found.width, found.height, found.channels, pixels))
  }

  ghost function DecodeSpec(bytes: seq<byte>): Result<Image, PngError> {
    if |bytes| < 8 || bytes[..8] != SIGNATURE then Err(NotAPng)
    else
      var found :- Walk(bytes, 8, NOTHING);
      DecodeFound(found)
  }

  // ----- the decoder -----

  method ReadHeader(found: Found, body: seq<byte>) returns (r: Result<Found, PngError>)
    ensures r == AbsorbHeader(found, body)
  {
    var width :- BigEndian.ReadU32(body, 0);
    var height :- BigEndian.ReadU32(body, 4);
    if |body| <= 12 {
      return Err(ShortHeader);
    }
    var depth, colour, interlace := body[8], body[9], body[12];
    if depth != 8 || interlace != 0 || (colour != 2 && colour != 6) {
      return Err(UnsupportedImage);
    }
    r := Ok(Found(true, width, height, if colour == 2 then 3 else 4, found.compressed));
  }

  method WalkChunks(bytes: seq<byte>) returns (r: Result<Found, PngError>)
    requires |bytes| >= 8
    ensures r == Walk(bytes, 8, NOTHING)
  {
    hide AbsorbHeader;
    var found, position := NOTHING, 8;
    while position + 8 <= |bytes|
      invariant Walk(bytes, 8, NOTHING) == Walk(bytes, position, found)
      decreases |bytes| - position
    {
      var field := BigEndian.ReadU32(bytes, position);
      var length := field.value;
      var kind := bytes[position + 4..position + 8];
      var bodyStart := position + 8;
      var bodyEnd := bodyStart + length;
      if bodyEnd > |bytes| {
        return Err(Truncated);
      }
      var body := bytes[bodyStart..bodyEnd];
      if kind == IHDR {
        found :- ReadHeader(found, body);
      } else if kind == IDAT {
        found := found.(compressed := found.compressed + body);
      } else if kind == IEND {
        break;
      }
      position := bodyEnd + 4;
    }
    r := Ok(found);
  }

  method Decode(bytes: seq<byte>) returns (r: Result<Image, PngError>)
    ensures r == DecodeSpec(bytes)
  {
    if |bytes| < 8 || bytes[..8] != SIGNATURE {
      return Err(NotAPng);
    }
    var found :- WalkChunks(bytes);
    if !found.seen {
      return Err(NoHeader);
    }
    if found.compressed == [] {
      return Err(NoImageData);
    }
    var raw :- ZlibDecompress(found.compressed);
    var pixels :- Unfilter(raw, found.width, found.height, found.channels);
    r := Ok(Image(found.width, found.height, found.channels, pixels));
  }

  /** A header that was seen has 32-bit sizes and three or four channels. */
  ghost predicate HeaderIsSane(found: Found) {
    found.seen ==>
      found.width < 0x1_0000_0000 && found.height < 0x1_0000_0000 && found.channels in {3, 4}
  }

  lemma AbsorbKeeps(found: Found, kind: seq<byte>, body: seq<byte>)
    requires HeaderIsSane(found)
    ensures Absorb(found, kind, body).Ok? ==> HeaderIsSane(Absorb(found, kind, body).value)
  {
    if |body| >= 8 {
      BigEndian.ValueOfFour(body[0..4]);
      BigEndian.ValueOfFour(body[4..8]);
    }
  }

  lemma {:induction false} WalkHeader(bytes: seq<byte>, position: nat, found: Found)
    requires HeaderIsSane(found)
    ensures Walk(bytes, position, found).Ok? ==> HeaderIsSane(Walk(bytes, position, found).value)
    decreases |bytes| - position
  {
    hide Absorb, HeaderIsSane, BigEndian.Value;
    if position + 8 <= |bytes| {
      var bodyEnd := position + 8 + BigEndian.Value(bytes[position..position + 4]);
      if bodyEnd <= |bytes| {
        var kind, body := bytes[position + 4..position + 8], bytes[position + 8..bodyEnd];
        AbsorbKeeps(found, kind, body);
        if kind != IEND && Absorb(found, kind, body).Ok? {
          WalkHeader(bytes, bodyEnd + 4, Absorb(found, kind, body).value);
        }
      }
    }
  }

  /** Whatever the bytes, a decoded image has exactly the pixels its header announces. */
  lemma DecodedIsWellFormed(bytes: seq<byte>)
    requires DecodeSpec(bytes).Ok?
    ensures var image := DecodeSpec(bytes).value;
      && image.channels in {3, 4}
      && image.width < 0x1_0000_0000 && image.height < 0x1_0000_0000
      && |image.pixels| == image.height * (image.width * image.channels)
  {
    hide Walk, ZlibSpec, UnfilterSpec;
    WalkHeader(bytes, 8, NOTHING);
  }

  // ----- encoding -----

  datatype Chunk = Chunk(kind: seq<byte>, body: seq<byte>, crc: seq<byte>)

  ghost predicate ChunkFits(c: Chunk) {
    |c.kind| == 4 && |c.crc| == 4 && |c.body| < 0x1_0000_0000
  }

  ghost function ChunkBytes(c: Chunk): (bytes: seq<byte>)
    requires ChunkFits(c)
    ensures |bytes| == 12 + |c.body|
  {
    BigEndian.U32Bytes(|c.body|) + (c.kind + (c.body + c.crc))
  }

  ghost predicate ChunksFit(chunks: seq<Chunk>) {
    forall i :: 0 <= i < |chunks| ==> ChunkFits(chunks[i])
  }

  ghost function ChunksBytes(chunks: seq<Chunk>): seq<byte>
    requires ChunksFit(chunks)
  {
    if chunks == [] then [] else ChunkBytes(chunks[0]) + ChunksBytes(chunks[1..])
  }

  /** The image data of a run of chunks: the bodies of its IDAT chunks, whatever stands between them. */
  ghost function ImageData(chunks: seq<Chunk>): seq<byte> {
    if chunks == [] then []
    else (if chunks[0].kind == IDAT then chunks[0].body else []) + ImageData(chunks[1..])
  }

  /** Neither a header nor the end: image data and ancillary chunks of any kind. */
  ghost predicate Middle(chunks: seq<Chunk>) {
    forall i :: 0 <= i < |chunks| ==> chunks[i].kind != IHDR && chunks[i].kind != IEND
  }

  /** What follows the middle: an end chunk and anything after it, or too little to be a chunk at all. */
  ghost predicate Ends(tail: seq<byte>) {
    |tail| < 8 || exists end :: ChunkFits(end) && end.kind == IEND && At(tail, 0, ChunkBytes(end))
  }

  ghost function HeaderBody(image: Image, compression: byte, filterMethod: byte): seq<byte>
    requires image.width < 0x1_0000_0000 && image.height < 0x1_0000_0000
  {
    BigEndian.U32Bytes(image.width) + (BigEndian.U32Bytes(image.height) +
    [8, if image.channels == 3 then 2 else 6, compression, filterMethod, 0])
  }

  /** Everything an encoder is free to choose. */
  datatype Choices = Choices(
    filters: seq<byte>, blocks: seq<Block>, chunks: seq<Chunk>, compression: byte, filterMethod: byte,
    headerCrc: seq<byte>, tail: seq<byte>)

  ghost predicate ImageFits(image: Image) {
    && image.channels in {3, 4}
    && image.width < 0x1_0000_0000 && image.height < 0x1_0000_0000
    && |image.pixels| == image.height * (image.width * image.channels)
    && image.height * (image.width * image.channels + 1) < USIZE_LIMIT
  }

  /** The image data that one filter a row makes of the image. */
  ghost function Filtered(image: Image, filters: seq<byte>): seq<byte>
    requires ImageFits(image) && |filters| == image.height
  {
    FilterImage(filters, image.pixels, image.width * image.channels, image.channels)
  }

  ghost predicate FiltersFit(image: Image, filters: seq<byte>) {
    |filters| == image.height && forall i :: 0 <= i < |filters| ==> filters[i] <= 4
  }

  /** The chunks around the image data, and the header's own checksum, are well-formed. */
  ghost predicate FramingFits(e: Choices) {
    |e.headerCrc| == 4 && ChunksFit(e.chunks) && Middle(e.chunks) && Ends(e.tail)
  }

  /** `e` describes an encoding of the image: one filter a row, any deflated form of the rows, any split over chunks. */
  ghost predicate Describes(image: Image, e: Choices) {
    && ImageFits(image) && FiltersFit(image, e.filters) && FramingFits(e)
    && Wraps(ImageData(e.chunks), e.blocks)
    && StreamOutput(e.blocks, 0, []) == Filtered(image, e.filters)
  }

  ghost function FileBytes(image: Image, e: Choices): seq<byte>
    requires ImageFits(image) && FramingFits(e)
  {
    SIGNATURE + (ChunkBytes(HeaderChunk(image, e)) + (ChunksBytes(e.chunks) + e.tail))
  }

  ghost function HeaderChunk(image: Image, e: Choices): (c: Chunk)
    requires ImageFits(image) && |e.headerCrc| == 4
    ensures ChunkFits(c)
  {
    Chunk(IHDR, HeaderBody(image, e.compression, e.filterMethod), e.headerCrc)
  }

  // ----- the walk over encoded chunks -----

  /** One turn of the walk over a chunk that stands in the file. */
  lemma ChunkRead(bytes: seq<byte>, p: nat, c: Chunk)
    requires ChunkFits(c) && At(bytes, p, ChunkBytes(c))
    ensures p + 12 + |c.body| <= |bytes|
    ensures BigEndian.Value(bytes[p..p + 4]) == |c.body|
    ensures bytes[p + 4..p + 8] == c.kind && bytes[p + 8..p + 8 + |c.body|] == c.body
  {
    var length := BigEndian.U32Bytes(|c.body|);
    AtSplits(bytes, p, length, c.kind + (c.body + c.crc));
    AtSplits(bytes, p + 4, c.kind, c.body + c.crc);
    AtSplits(bytes, p + 8, c.body, c.crc);
    BigEndian.U32RoundTrip(|c.body|);
  }

  lemma MiddleTurn(bytes: seq<byte>, p: nat, c: Chunk, found: Found)
    requires ChunkFits(c) && c.kind != IHDR && c.kind != IEND
    requires At(bytes, p, ChunkBytes(c))
    ensures Walk(bytes, p, found) == Walk(bytes, p + |ChunkBytes(c)|, Gained(found, ImageData([c])))
  {
    hide ChunkBytes, AbsorbHeader, At;
    ChunkRead(bytes, p, c);
    assert ImageData([c]) == if c.kind == IDAT then c.body else [];
    assert found.compressed + [] == found.compressed;
  }

  ghost function Gained(found: Found, data: seq<byte>): Found {
    found.(compressed := found.compressed + data)
  }

  lemma GainedTwice(found: Found, a: seq<byte>, b: seq<byte>)
    ensures Gained(Gained(found, a), b) == Gained(found, a + b) && Gained(found, []) == found
  {
  }

  lemma OneChunkMore(chunks: seq<Chunk>)
    requires chunks != []
    ensures ImageData(chunks) == ImageData([chunks[0]]) + ImageData(chunks[1..])
  {
  }

  lemma {:induction false} WalkMiddle(bytes: seq<byte>, p: nat, chunks: seq<Chunk>, found: Found)
    requires ChunksFit(chunks) && Middle(chunks)
    requires At(bytes, p, ChunksBytes(chunks))
    ensures Walk(bytes, p, found) == Walk(bytes, p + |ChunksBytes(chunks)|, Gained(found, ImageData(chunks)))
    decreases |chunks|
  {
    hide ChunkBytes, At, Walk, Gained;
    if chunks == [] {
      GainedTwice(found, [], []);
    } else {
      var c, rest := chunks[0], chunks[1..];
      AtSplits(bytes, p, ChunkBytes(c), ChunksBytes(rest));
      MiddleTurn(bytes, p, c, found);
      WalkMiddle(bytes, p + |ChunkBytes(c)|, rest, Gained(found, ImageData([c])));
      GainedTwice(found, ImageData([c]), ImageData(rest));
      OneChunkMore(chunks);
    }
  }

  lemma WalkEnds(bytes: seq<byte>, p: nat, found: Found)
    requires p <= |bytes| && Ends(bytes[p..])
    ensures Walk(bytes, p, found) == Ok(found)
  {
    if |bytes| - p >= 8 {
      var end :| ChunkFits(end) && end.kind == IEND && At(bytes[p..], 0, ChunkBytes(end));
      AtInSlice(bytes, p, 0, ChunkBytes(end));
      ChunkRead(bytes, p, end);
    }
  }

  lemma HeaderAbsorbed(image: Image, compression: byte, filterMethod: byte)
    requires ImageFits(image)
    ensures AbsorbHeader(NOTHING, HeaderBody(image, compression, filterMethod))
            == Ok(Found(true, image.width, image.height, image.channels, []))
  {
    var body := HeaderBody(image, compression, filterMethod);
    assert body[0..4] == BigEndian.U32Bytes(image.width);
    assert body[4..8] == BigEndian.U32Bytes(image.height);
    BigEndian.U32RoundTrip(image.width);
    BigEndian.U32RoundTrip(image.height);
  }

  lemma HeaderTurn(bytes: seq<byte>, image: Image, e: Choices)
    requires ImageFits(image) && |e.headerCrc| == 4
    requires At(bytes, 8, ChunkBytes(HeaderChunk(image, e)))
    ensures Walk(bytes, 8, NOTHING) == Walk(bytes, 8 + |ChunkBytes(HeaderChunk(image, e))|,
                                            Found(true, image.width, image.height, image.channels, []))
  {
    hide AbsorbHeader, HeaderBody, ChunkBytes, At, ImageFits;
    ChunkRead(bytes, 8, HeaderChunk(image, e));
    HeaderAbsorbed(image, e.compression, e.filterMethod);
  }

  lemma WalkFile(bytes: seq<byte>, image: Image, e: Choices)
    requires ImageFits(image) && FramingFits(e) && bytes == FileBytes(image, e)
    ensures |bytes| >= 8 && bytes[..8] == SIGNATURE
    ensures Walk(bytes, 8, NOTHING) == Ok(Found(true, image.width, image.height, image.channels, ImageData(e.chunks)))
  {
    hide ChunkBytes, ChunksBytes, Ends, Walk, ImageFits, ImageData;
    var head, middle := ChunkBytes(HeaderChunk(image, e)), ChunksBytes(e.chunks);
    var q := 8 + |head|;
    SliceStands(bytes, 8, |bytes|);
    assert bytes[8..] == head + (middle + e.tail);
    AtSplits(bytes, 8, head, middle + e.tail);
    AtSplits(bytes, q, middle, e.tail);
    HeaderTurn(bytes, image, e);
    var found := Found(true, image.width, image.height, image.channels, []);
    WalkMiddle(bytes, q, e.chunks, found);
    assert bytes[q + |middle|..] == e.tail;
    assert [] + ImageData(e.chunks) == ImageData(e.chunks);
    WalkEnds(bytes, q + |middle|, Gained(found, ImageData(e.chunks)));
  }

  /** Decoding any encoding of an image gives the image back: its size, its channels and every pixel. */
  lemma DecodeInverts(image: Image, e: Choices)
    requires Describes(image, e)
    ensures DecodeSpec(FileBytes(image, e)) == Ok(image)
  {
    hide Walk, FileBytes, Wraps, Filtered, StreamOutput, ZlibSpec, UnfilterSpec, Ends;
    var data := ImageData(e.chunks);
    WalkFile(FileBytes(image, e), image, e);
    ZlibInverts(data, e.blocks);
    WrapsSomething(data, e.blocks);
    FilteredIsRestored(image, e.filters);
  }

  lemma WrapsSomething(stream: seq<byte>, blocks: seq<Block>)
    requires Wraps(stream, blocks)
    ensures stream != []
  {
    hide Holds, TrailerOk;
  }

  lemma FilteredIsRestored(image: Image, filters: seq<byte>)
    requires ImageFits(image) && FiltersFit(image, filters)
    ensures UnfilterSpec(Filtered(image, filters), image.width, image.height, image.channels) == Ok(image.pixels)
  {
    hide FilterRows, UnfilterRows;
    UnfilterRowsInverts(filters, image.pixels, Zeros(image.width * image.channels), image.channels);
    assert image.width * image.channels < USIZE_LIMIT;
  }
}
