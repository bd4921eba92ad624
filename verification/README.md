# The hand-written codecs of `xtask`, modelled and proved

`xtask` decodes PNG screenshots, compares them with golden images, packs and unpacks zip archives, reads JSON with
comments and checks a benchmark's report, all with the Rust standard library alone. This project models those codecs in
Dafny and proves what each pair of them promises: decoders invert every encoding their format allows and accept nothing
else, archives and folders round-trip, damage is caught, comments vanish without moving a byte, and the line one program
prints is the line another understands.

Run `dafny verify dfyconfig.toml` here to check everything.

## How it is laid out

| files | what they hold |
|---|---|
| `Basics`, `Sorting`, `Utf8`, `Paths` | bytes, bits, reads with a cursor, sorting by any total order, well-formed UTF-8 (RFC 3629), byte order and paths |
| `Bits`, `HuffmanCodes`, `Huffman` | the bit cursor, canonical codes (section 3.2.2 of RFC 1951), the counts-and-symbols decoder |
| `Deflate`, `FormatFacts` | the DEFLATE format itself: every stream an encoder may write and what it means (section 3.2 of RFC 1951) |
| `Inflate`, `InflateTokens`, `InflateHeaders`, `InflateStream` | the decoder, and the proof that it inverts exactly that format |
| `Zlib`, `Filters`, `Png`, `PngExact`, `Compare` | the zlib wrapper and Adler-32 (RFC 1950), row filters and chunks (RFC 2083), the image comparator |
| `Crc`, `Zip`, `ZipRoundTrip`, `ZipExact`, `ZipWritten` | CRC-32 against bitwise division, the archive writer and reader (APPNOTE 4.3.7, 4.3.12, 4.3.16), exactly what the reader accepts, and which of that was written |
| `Folder`, `FolderOrder`, `FolderRoundTrip`, `FolderExact` | a folder's tree as archive entries and its order, extraction into a map-valued file system, and which folders come back whole |
| `StripComments`, `StripLexemes`, `Json`, `JsonText`, `JsonRoundTrip`, `JsonSound`, `JsonValues`, `JsonComments`, `JsonCommentsSound` | the comment stripper, what it does to any text lexeme by lexeme, the JSON parser, every way a value can be written, and the proofs relating them |
| `Stats`, `Report`, `ReportAgreement` | the benchmark's summary, its report line, and the reader of that line |
| `SymbolMeanings`, `StreamMeanings`, `KnownStream`, `PngFields`, `FilterPixels`, `CompareFigures`, `Checksums`, `ZipFields`, `TreeNames`, `JsonBytes`, `ReportFigures` | what each operation does told in bytes, offsets and numbers alone, without the tables and small functions that the format definitions and the code share |

Code that the source runs as loops over cursors, buffers and fields is a method or a class here (`BitReader.Bits`,
`Json.JsonParser`, `Folder.FileSystem`), and each such method is proved to compute a function of its inputs or of its old
state, errors included. The results are about those functions, against formats defined independently of them.

Six places where the code differs from what its text suggests are modelled as the code has them:

- `png.rs` says the Adler-32 trailer is checked rather than skipped, but a stream with fewer than four bytes after the
  deflated data passes unchecked: `Zlib.ChecksumExact` says exactly when the check happens, and
  `Zlib.CutTrailerHidesDamage` gives a stream that passes with any byte at its end.
- The Huffman errors for over-subscribed and incomplete codes can never be raised: over-subscribed lengths build a table
  (`Huffman.Build`), and decoding only fails for want of bits or past fifteen of them (`Huffman.DecodeSound`).
- `tree` says it lists every directory, but it only walks files, so an empty folder is lost
  (`FolderExact.EmptyFolderIsLost`); `FolderExact.GivenBackExact` says exactly which folders packing and extracting give
  back.
- Two files may be listed under one name, since backslashes become slashes (`FolderOrder.TwoFilesOneName`), and a name
  that ends in either slash is a folder's name too; `FolderOrder.TreeIsIncreasing` says exactly when no name is repeated.
- `/*/` closes the block comment it opens (`JsonText.TightComment`), and a block comment may be left open at the end.
- `zip.rs` says only the subset its writer produces is accepted, which is false: the reader looks at one count and the
  start in the end record, only steps over extra fields and comments (the last record's may lie past the file), and of a
  local record reads the signature and two lengths, never its name, size, checksum or method. `ZipWritten.ReaderTakesMore`
  gives files that list and were never written, `ZipExact.ListExact` and `ZipExact.DataExact` say exactly what is
  accepted, and `ZipWritten.WrittenExact` says exactly which archives the promise holds of.

## Model

| member | source | states |
|---|---|---|
| BitReader.Bits.Bit | xtask/src/png.rs:579-591 | one call gives the next bit of the stream, lowest bit of a byte first, and moves on by exactly one; at the end it fails |
| BitReader.Bits.Take | xtask/src/png.rs:593-599 | `count` bits read as one number, first bit lowest, or a failure when fewer are left |
| BitReader.Bits.Align | xtask/src/png.rs:601-606 | the cursor moves to the next byte boundary and not past one it stands on |
| BitReader.TakeInverts | xtask/src/png.rs:593-599 | reading a field where a value was packed gives that value back |
| BitReader.TakeSound | xtask/src/png.rs:593-599 | what a read returns is what stands packed at its position |
| HuffmanCodes.KraftDecidesEncodable | xtask/src/png.rs:638-679 | all canonical codes fit their lengths if and only if the Kraft sum is at most one |
| HuffmanCodes.ByLengthSorts | xtask/src/png.rs:659-676 | the symbol list is the used symbols, each once, sorted by length and then by symbol |
| Huffman.CountLengths | xtask/src/png.rs:639-645 | counts how many symbols have each length, and refuses exactly the lists with a length over 15 |
| Huffman.SortSymbols | xtask/src/png.rs:659-676 | the counting sort leaves the used symbols in stable order of length, zeros behind them, or stops at a used symbol past 16 bits |
| Huffman.Build | xtask/src/png.rs:638-679 | every list of lengths up to 15 builds its canonical table, over-subscribed and incomplete lists too; only a longer length or a used symbol past 16 bits is refused |
| Huffman.Decode | xtask/src/png.rs:681-707 | the bit-at-a-time walk, its result, its final position and its failures |
| Huffman.DecodeInverts | xtask/src/png.rs:681-707 | decoding the canonical code of any fitting symbol gives the symbol and consumes exactly its bits |
| Huffman.DecodeSound | xtask/src/png.rs:681-707 | whatever the lengths, a decoded symbol's own code stands there, and the only failures are truncation and passing 15 bits |
| Huffman.DecodeExact | xtask/src/png.rs:681-707 | a symbol is returned if and only if its fitting code stands at the cursor |
| StreamMeanings.DecodeFailsExact | xtask/src/png.rs:681-707 | a failed decoding says that fifteen bits held no code, or that the stream had fewer |
| Huffman.CodesArePrefixFree | xtask/src/png.rs:638-707 | no fitting code is a prefix of another symbol's |
| FormatFacts.FixedLiteralCodesAreTheTable | xtask/src/png.rs:710-724 | the fixed literal lengths yield the code table of section 3.2.6 of RFC 1951 |
| FormatFacts.FixedDistanceCodesAreNumbers | xtask/src/png.rs:726-728 | the fixed distance codes are the five-bit numbers |
| FormatFacts.EveryMatchHasAToken | xtask/src/png.rs:609-623 | the tables reach every match of 3 to 258 bytes at distance 1 to 32768 |
| Deflate.CopyMatchIsPeriodic | xtask/src/png.rs:884-891 | a match, overlapping ones included, keeps the output before it and repeats with its distance as period |
| Inflater.CopyBack | xtask/src/png.rs:884-891 | the copy loop appends exactly the match |
| Inflater.HuffmanBlock | xtask/src/png.rs:849-894 | a compressed block read to its end-of-block symbol, with each failure |
| Inflater.StoredBlock | xtask/src/png.rs:763-780 | a stored block: alignment, length and complement, then its bytes |
| Inflater.ExpandLengths | xtask/src/png.rs:805-834 | the code-length loop with its three repeat operations |
| Inflater.DynamicTables | xtask/src/png.rs:782-847 | a dynamic header read to its two tables |
| Inflater.FixedLiteral | xtask/src/png.rs:710-724 | the loop fills the fixed literal lengths and builds their table |
| Inflater.Inflate | xtask/src/png.rs:732-761 | the block loop: the output and the byte index behind the padded stream, or the first failure |
| InflateTokens.TokensFound | xtask/src/png.rs:849-894 | any encodable token sequence, written with any code lengths, decodes to its LZ77 expansion and ends where it was written to |
| InflateTokens.TokensSound | xtask/src/png.rs:849-894 | whatever a block decodes to, some token sequence whose bits stand there expands to it |
| InflateHeaders.HeaderFound | xtask/src/png.rs:782-847 | any dynamic header, with any use of the repeat operations 16, 17 and 18, is read back to its code lengths |
| InflateHeaders.HeaderSound | xtask/src/png.rs:782-847 | a header that is accepted is a well-formed one for the lengths returned |
| InflateStream.InflateInverts | xtask/src/png.rs:732-894 | decoding any sequence of stored, fixed and dynamic blocks gives its expansion and the index of the first byte after it |
| InflateStream.InflateExact | xtask/src/png.rs:732-894 | an output and an end are returned if and only if some well-formed stream at the front of the bytes has them |
| InflateStream.ExpansionIsUnique | xtask/src/png.rs:732-894 | two ways of reading the same bytes as a stream never disagree on output or end |
| InflateStream.InflateBound | xtask/src/png.rs:732-761 | the end lies within the input and the output is at most 1032 times the bytes read |
| SymbolMeanings.PlainSymbols | xtask/src/png.rs:849-863 | symbols below 256 append themselves, 256 ends the block, symbols past 285 are refused |
| SymbolMeanings.MatchSymbols | xtask/src/png.rs:864-892 | a match appends base plus extra bits many bytes, each the one its distance back, where bases and widths are given by formula: groups of four length symbols and two distance symbols, and 258 for the last |
| SymbolMeanings.HeaderMeans | xtask/src/png.rs:782-803 | a header's three sizes are 257, 1 and 4 plus fields of 5, 5 and 4 bits, and its three-bit lengths go to 16, 17, 18, 0 and then 8, 7, 9, 6 and on outwards |
| SymbolMeanings.RunSymbols | xtask/src/png.rs:805-834 | a length, 3 to 6 copies of the last one, 3 to 10 zeros or 11 to 138 zeros |
| StreamMeanings.BlocksExact | xtask/src/png.rs:732-761 | one bit says whether a block is the last, two bits which kind it is, and kind 3 is refused |
| StreamMeanings.StoredExact | xtask/src/png.rs:763-780 | a stored block starts at the next byte, with two bytes of length and two of complement, low byte first |
| StreamMeanings.BuildExact | xtask/src/png.rs:638-679 | a list of lengths is refused if and only if a length is above 15 or a used symbol above 65535 |
| KnownStream.KnownOutput | xtask/src/png.rs:732-894 | the five bytes 4B 4C 1C 05 00 decode to 260 letters |
| Adler.Adler32 | xtask/src/png.rs:560-568 | the loop computes the two sums of section 2.2 of RFC 1950, each reduced modulo 65521 |
| Adler.SumsClosedForm | xtask/src/png.rs:560-568 | the running sums in closed form: byte i of n counts once in the low sum and n - i times in the high one |
| Adler.OneByteShows | xtask/src/png.rs:560-568 | changing any single byte changes the checksum |
| Adler.SwapShows | xtask/src/png.rs:560-568 | swapping two unequal neighbouring bytes changes the checksum |
| PngFields.AdlerIs | xtask/src/png.rs:560-568 | the checksum with its modulus 65521 and its two weighted sums written out |
| Checksums.CheckValue | xtask/src/zip.rs:474-478 | the CRC-32 of the text 123456789 is 0xCBF43926 |
| BigEndian.ReadU32 | xtask/src/png.rs:409-421 | the four bytes at an offset as a big-endian number, or a failure past the end |
| BigEndian.U32RoundTrip | xtask/src/png.rs:409-421 | reading the big-endian bytes of a 32-bit number gives it back |
| Zlib.ZlibDecompress | xtask/src/png.rs:515-558 | header checks in order, the deflated data, then the trailer when all of it is there |
| Zlib.ZlibExact | xtask/src/png.rs:515-558 | a stream decompresses to an output if and only if it wraps deflated blocks that expand to it |
| Zlib.ChecksumExact | xtask/src/png.rs:539-556 | a wrong trailer is caught if and only if four bytes follow the deflated data |
| Zlib.CutTrailerHidesDamage | xtask/src/png.rs:539-556 | a concrete stream with a cut trailer that is accepted whatever its last data byte is |
| PngFields.ZlibHeaderExact | xtask/src/png.rs:515-535 | method 8, a multiple of 31 and no preset dictionary, with the refusal for each, in terms of the two bytes |
| PngFields.TrailerExact | xtask/src/png.rs:539-556 | the four bytes behind the data, when there are four, must be the two sums modulo 65521 |
| Filters.PaethIsNearest | xtask/src/png.rs:497-509 | the predictor is the neighbour nearest to left + above - above-left, ties going left, above, above-left |
| Filters.RestoreInverts | xtask/src/png.rs:448-486 | restoring a filtered row gives the row back, for any filter and pixel width |
| Filters.FilterInverts | xtask/src/png.rs:448-486 | filtering a restored row gives the line back, so each filter is a bijection on rows |
| Filters.UnfilterLine | xtask/src/png.rs:448-486 | one row restored in place, byte by byte from the bytes already restored |
| Filters.Unfilter | xtask/src/png.rs:424-495 | overflow and size checks, then every row; an unknown filter stops it only in a row that has bytes |
| FilterPixels.PixelBytes | xtask/src/png.rs:448-509 | every byte of every decoded image is its data byte plus, modulo 256, nothing, the byte to the left, the byte above, half their sum or the nearest of three neighbours, zeros standing outside the image |
| FilterPixels.RefusedExact | xtask/src/png.rs:424-486 | the rows are refused if and only if a size passes 64 bits, the data is not as long as the rows, or a row that has bytes has a filter byte above 4 |
| Filters.UnfilterExact | xtask/src/png.rs:424-495 | for every size and channel count, pixels are returned if and only if the sizes fit a word and some choice of one filter a row turns them into the data; rows without bytes may carry any filter byte |
| Png.WalkChunks | xtask/src/png.rs:353-394 | the chunk walk: the last header, all image data in order, checksums skipped, the end chunk or too few bytes ending it |
| PngFields.HeaderExact | xtask/src/png.rs:372-383 | the thirteen bytes of a header: where width, height, depth, colour and interlace stand and which values are taken |
| PngFields.WalkExact | xtask/src/png.rs:353-394 | a chunk is four bytes of length, four of kind, its body and four bytes that are skipped, up to the end chunk |
| PngFields.SignatureExact | xtask/src/png.rs:342-352 | a file is refused unless it starts with the eight bytes of the signature |
| Png.Decode | xtask/src/png.rs:342-407 | the whole decoder with every error in its place |
| Png.DecodeInverts | xtask/src/png.rs:342-407 | any encoding of an image, with any row filters, any deflated form, any split over chunks and any chunks between, decodes to its size, channels and pixels |
| PngExact.DecodeExact | xtask/src/png.rs:342-407 | a file decodes to an image if and only if its chunks, up to wherever the walk stops, hold readable headers the last of which announces the image, and image data that deflates to rows of it |
| Png.DecodedIsWellFormed | xtask/src/png.rs:395-407 | a decoded image holds exactly the pixels its header announces, whatever the bytes |
| Compare.CompareImages | xtask/src/png.rs:280-333 | the figures of a comparison are the sizes of the sets of differing and hard pixels, the worst delta and the saturated sum |
| CompareFigures.FiguresExact | xtask/src/png.rs:280-333 | when two images compare, and every figure from the colour bytes of the two buffers: pixels with any gap, pixels with a gap above 32, the largest gap, and the sum of all gaps up to the largest word |
| CompareFigures.SameBytesExact | xtask/src/png.rs:280-333 | no pixel differs if and only if all colour bytes are the same, and then every figure is 0 |
| Compare.CompareIsSymmetric | xtask/src/png.rs:280-333 | swapping the images changes no figure and no error |
| Compare.CheckExact | xtask/src/png.rs:210-216 | for every pair of limits, the verdict is that the mean and the share of hard pixels are within them, cross-multiplied without rounding; a limit whose side reaches the largest word accepts anything |
| CompareFigures.VerdictExact | xtask/src/png.rs:210-216 | the verdict for any limits from the bytes of the images |
| Compare.ShippedLimits | xtask/src/png.rs:71-78 | the limits 4 and 0 accept if and only if no channel differs by more than 32 and 1000 times the sum is at most 12 times the pixels, or 12 times the pixels saturates a word |
| Compare.DecodedImagesCompare | xtask/src/png.rs:280-333 | two decoded images of one size never run into the short-buffer error |
| Crc.CrcTable | xtask/src/zip.rs:86-98 | every table entry is eight steps of the reflected polynomial division |
| Crc.TableTurn | xtask/src/zip.rs:101-111 | one table lookup does the work of eight bits of division |
| Crc.Crc32 | xtask/src/zip.rs:101-111 | the table-driven loop equals bit-at-a-time division by 0xEDB88320 of the whole string |
| Crc.DivideInjective | xtask/src/zip.rs:101-111 | a byte string carries different states to different states |
| Crc.ShortChangeShows | xtask/src/zip.rs:101-111 | replacing up to four consecutive bytes keeps the checksum if and only if they stay the same |
| Zip.Write | xtask/src/zip.rs:193-282 | local records, directory and end record byte by byte, or the error for the first thing past the limits |
| ZipFields.LocalExact | xtask/src/zip.rs:193-240 | every local record of every written archive, field by field at its offset, then the name and the data |
| ZipFields.CentralExact | xtask/src/zip.rs:241-269 | every directory record, all seventeen fields at their offsets, then the name, the modes 0o100755, 0o100644 and 0o040755 among them |
| ZipFields.EndExact | xtask/src/zip.rs:270-282 | the end record, field by field, behind the directory |
| ZipFields.LimitsExact | xtask/src/zip.rs:193-282 | entries are written if and only if they number below 2^16, their names are shorter than that, start with no slash and hold no backslash, and the archive stays below 2^32 bytes |
| Zip.List | xtask/src/zip.rs:359-407 | the directory loop from the end record, with each refusal in its place |
| Zip.Data | xtask/src/zip.rs:410-426 | an entry's bytes found through its local header and checked against the recorded checksum |
| ZipFields.RecordReadExact | xtask/src/zip.rs:374-405 | a directory record is read from its offsets, or refused for the first of six reasons |
| ZipFields.DataReadExact | xtask/src/zip.rs:410-426 | an entry's data is read through the two lengths of its local record, or refused for the first of four reasons |
| ZipRoundTrip.WriteThenRead | xtask/src/zip.rs:193-426 | listing a written archive gives the entries in order with name, mode, checksum and size, and reading each gives its bytes |
| ZipRoundTrip.WriteExact | xtask/src/zip.rs:193-282 | an entry list is written if and only if its names are relative and every count and length is within the classic limits |
| ZipRoundTrip.OffsetsTile | xtask/src/zip.rs:193-236 | the local records follow one another without a gap up to the start the end record gives |
| ZipRoundTrip.DirectoryTiles | xtask/src/zip.rs:237-282 | from there the directory and the end record fill the rest of the archive exactly |
| ZipExact.ListExact | xtask/src/zip.rs:359-407 | a file lists as given if and only if an end record in its last 22 bytes gives the start and the count of records that stand one after another with those fields, whatever their extra and comment lengths and all other bytes |
| ZipExact.DataExact | xtask/src/zip.rs:410-426 | an entry reads to given bytes if and only if a local record at its offset, with any header fields, name and extra field, is followed by as many bytes with the recorded checksum |
| ZipWritten.ReaderTakesMore | xtask/src/zip.rs:356-381 | an end record alone with a disk number that is not 0 lists as an empty archive, though no entries are ever written so |
| ZipWritten.WrittenExact | xtask/src/zip.rs:193-426 | bytes are what some entries are written as if and only if they list, every entry can be recorded and agrees with its local record, and local records, directory and end record are as written and tile the file |
| ZipRoundTrip.DamageIsCaught | xtask/src/zip.rs:410-426 | any change within four consecutive bytes of an entry's data makes reading it fail its checksum |
| Folder.Tree | xtask/src/zip.rs:127-166 | the loops and sorts list the files and the folders above them |
| Folder.TreeContents | xtask/src/zip.rs:127-166 | the listing holds each file as it came and each folder above one exactly once, in byte order of the names |
| TreeNames.ListedExact | xtask/src/zip.rs:127-166 | a tree lists exactly the files, under the prefix with forward slashes, executable if that name is among the executable ones, and a folder for the prefix and each slash in a name |
| TreeNames.LessExact | xtask/src/zip.rs:164 | names are compared at the first byte where they part, and a name comes before what it is a front of |
| TreeNames.ModesExact | xtask/src/zip.rs:127-302 | in a packed archive each entry has the mode of its source |
| FolderOrder.TreeIsIncreasing | xtask/src/zip.rs:127-166 | every name is listed once, in strictly increasing byte order, if and only if no two files have one name once backslashes are slashes and no file's name is empty or ends in a slash of either kind |
| FolderOrder.TwoFilesOneName | xtask/src/zip.rs:133-152 | a file `a\b` beside a file `b` in a folder `a`: two files listed under one name |
| FolderOrder.FoldersComeFirst | xtask/src/zip.rs:127-166 | whatever the files, a folder is listed before everything it holds |
| Folder.Pack | xtask/src/zip.rs:285-302 | every source's bytes are read in order, and their archive is written to the destination and its length returned; on a failure nothing is written |
| TreeNames.TakenExact | xtask/src/zip.rs:432-444 | a name is extracted if and only if it has no backslash, no colon and, but for one slash at its end, no part that is empty, one dot or two |
| TreeNames.FileEntryExact | xtask/src/zip.rs:448-466 | a file entry makes the folders it needs and replaces what file was there, or fails for the first of three reasons |
| Folder.MakeFoldersExact | xtask/src/zip.rs:455-463 | a folder and those above it can be made if and only if no file stands at or above it; then exactly they are added, as folders, and everything else stays |
| Folder.Extract | xtask/src/zip.rs:448-468 | the extraction loop: its result, and the folder it leaves behind when it stops early as well |
| FolderRoundTrip.PackedThenExtracted | xtask/src/zip.rs:127-468 | packing a folder and extracting the archive elsewhere recreates every file with its bytes, and exactly the folders they need |
| FolderExact.GivenBackExact | xtask/src/zip.rs:124-468 | packing any folder and extracting the archive gives the folder back, files, bytes and folders, if and only if its names are portable and every folder has a file somewhere below it |
| FolderExact.EmptyFolderIsLost | xtask/src/main.rs:3976-3993 | a folder with nothing in it does not come back |
| FolderRoundTrip.ExtractionStaysInside | xtask/src/zip.rs:432-468 | whatever the archive bytes, extraction removes nothing, turns no folder into a file, leaves every path that no entry names as it was, and adds only paths of plain parts that an entry names or that lie above one |
| StripComments.Strip | xtask/src/scenario.rs:845-941 | the scanner's loops compute one pass of the mode machine over the text, and the result is well-formed UTF-8 |
| StripComments.StripBlock | xtask/src/scenario.rs:902-919 | the inner loop over a block comment, up to its closing slash or the end of the text |
| StripComments.StrippedKeepsPlaces | xtask/src/scenario.rs:841-941 | the length and every newline stay, and a byte that changes becomes a space |
| StripLexemes.StrippedExact | xtask/src/scenario.rs:841-941 | stripping any text gives a result if and only if the text is some run of code bytes, string literals and comments, defined without the scanner's modes, and the result is that run with its comments blanked |
| StripLexemes.LexemeBytes | xtask/src/scenario.rs:841-941 | the lexemes with every byte written out |
| StripLexemes.LiteralsStay | xtask/src/scenario.rs:841-941 | a string literal, from its quote to the first unescaped one or the end of the text, keeps every byte |
| StripComments.StrippedIsIdentity | xtask/src/scenario.rs:841-941 | stripping changes nothing if and only if no comment opens outside a string |
| StripComments.StrippedTwice | xtask/src/scenario.rs:841-941 | stripping is idempotent |
| Json.JsonParser.String | xtask/src/main.rs:3643-3706 | the string loop: chunks, escapes, and each of its failures |
| Json.JsonParser.Value | xtask/src/main.rs:3570-3591 | one value read by recursive descent, the index strictly advancing |
| Json.JsonParser.ObjectValue | xtask/src/main.rs:3593-3618 | the member loop of an object |
| Json.JsonParser.ArrayValue | xtask/src/main.rs:3620-3641 | the item loop of an array |
| Json.Parse | xtask/src/main.rs:3478-3489 | a whole text: one value, then nothing but white space |
| Json.EscapedTextIsValid | xtask/src/main.rs:3666-3682 | what a unicode escape pushes is well-formed UTF-8, surrogate halves included |
| JsonBytes.LetterExact | xtask/src/main.rs:3661-3686 | anywhere in a string, each of the eight letters behind a backslash gives its byte, and any other stops the reader |
| JsonBytes.UnicodeExact | xtask/src/main.rs:3670-3682 | four hexadecimal digits of either case, or a plus sign and three, give the character whose number they are, in UTF-8, and half a surrogate pair gives U+FFFD |
| JsonBytes.ValueExact | xtask/src/main.rs:3570-3591 | the first byte decides what a value is, and the three words must be spelled out |
| JsonBytes.NumberExact | xtask/src/main.rs:3708-3720 | a number runs through digits, signs, points and the letter e of either case |
| JsonRoundTrip.FileFound | xtask/src/main.rs:3478-3720 | any written form of a value, with any white space between tokens and any mix of escapes, parses to that value |
| JsonSound.ParseExact | xtask/src/main.rs:3478-3720 | a text parses to a value if and only if it is a written form of that value |
| JsonValues.ValuesExact | xtask/src/main.rs:3478-3720 | the values some UTF-8 text parses to are exactly those with UTF-8 strings and numbers that are runs of number bytes |
| JsonValues.SuffixExact | xtask/src/main.rs:3478-3489 | text after a complete file is accepted if and only if it is white space, or lengthens a number the file ends in before white space |
| JsonValues.NumberSuffix | xtask/src/main.rs:3708-3720 | a number at the end of a file takes every number byte that follows it |
| JsonComments.StrippedFile | xtask/src/scenario.rs:845-941 | stripping a text with comments between any of its tokens blanks the comments and leaves every other byte where it was |
| JsonComments.CommentedFileFound | xtask/src/scenario.rs:845-941 | parsing the stripped text of any commented value gives that value |
| JsonCommentsSound.CommentedExact | xtask/src/scenario.rs:845-941 | a text strips and parses to a value if and only if it is that value written with comments only between tokens, the last one possibly left open |
| Stats.PercentileIsNearestRank | crates/bench/src/stats.rs:22-34 | the percentile is the least value of the sample that has at least that share of the sample at or below it |
| Stats.Of | crates/bench/src/stats.rs:69-79 | the durations are sorted where they stand and summarised |
| Stats.SummaryExact | crates/bench/src/stats.rs:69-79 | a summary exists if and only if the sample is not empty and its arithmetic fits, and its figures are those of the unsorted sample |
| ReportFigures.SummaryLimits | crates/bench/src/stats.rs:22-79 | a summary exists if and only if the sample is not empty, its sum is below 2^128 and its ranks fit 64 bits |
| Stats.FiguresAgree | crates/bench/src/stats.rs:69-79 | p50 <= p99 <= max and mean <= max |
| Report.Parse | xtask/src/g3.rs:140-200 | the report reader: finding the one line, filling the slots, and each refusal in order |
| ReportFigures.NumberExact | xtask/src/g3.rs:166-169 | a figure is a run of digits, perhaps behind a plus sign, below 2^128, and the number they stand for |
| ReportFigures.TokenExact | xtask/src/g3.rs:153-170 | a token names one of six fields before its first equals sign and gives its figure behind it, or is refused for the first of four reasons |
| ReportFigures.LookedForExact | xtask/src/g3.rs:141-150 | a report line is the prefix `g3-budget-report v1` alone or followed by a space |
| ReportFigures.RefusalExact | xtask/src/g3.rs:181-200 | the five reasons for refusing a full report, in their order |
| Report.DecimalParses | crates/bench/src/g3.rs:446-457 | a printed figure below 2^128 parses back to itself |
| ReportAgreement.RestExact | xtask/src/g3.rs:154-200 | a report is read to given figures if and only if each field is there once, in some order, and the figures are consistent |
| ReportAgreement.LineReads | xtask/src/g3.rs:140-200 | a line with its fields in any order, among any other output, is read to its figures or refused for what is wrong with them |
| ReportAgreement.SummaryReportReads | crates/bench/src/g3.rs:446-457 | the line printed for any summarised sample with enough ticks is read back to the same figures |

## Left out

- Error texts, notices, `Diff::describe`, `Diff::mean_thousandths`, `Diff::hard_ppm` and other rendering: errors are kept
  apart as constructors, their wording is not modelled.
- `Image::red_variance`: a sampling statistic with no promise beyond its own formula.
- Process spawning, git, cargo, environment reads and real file access: reading files is a map lookup, and the file
  system of `extract` is a map from paths to files and folders, without links, permissions or case folding.
- `walk`: the files of a folder are given as a list of their paths, in any order; `to_string_lossy` is not modelled, so
  each path is well-formed text already.
- `Path::components` in `stays_inside`: with backslashes, colons and empty, `.` and `..` parts refused already it can
  refuse nothing more, so it is not modelled.
- `sort`, `sort_unstable` and `sort_by` of the standard library are modelled as the insertion sort in `Sorting`.
- The growing output buffers that `inflate`, `stored_block` and `huffman_block` pass by mutable reference are passed and
  returned as sequences, as are `out` and `written` in `write`; only fixed-size tables, rows and cursors are arrays or fields.
- Machine-word overflow is modelled where a result depends on it (`Filters`, `Compare`, `Stats`, the 32-bit zip and PNG
  fields); indices and lengths of buffers that exist in memory are unbounded.
- Huffman.Build: takes only lengths whose counts stay below 2^16 (`Huffman.CountersHold`), as the source does, whose
  16-bit counters would overflow; its callers pass at most 288 lengths.
- Png.DecodeInverts: is stated for files whose one header comes first; `PngExact.DecodeExact` covers every other file.
- `Json::get`, `as_str`, `as_array` and `as_object`: lookups of one line each.
- `verdict` and the alarm bars in `g3.rs`, the rest of the benchmark's report, and `micros`, `millis` and `per_mille`:
  comparisons and formatting.
- The shard split (`shard.rs`): a hash modulo the number of shards, so each unit falls to one shard by construction.
- The scenario rules behind the JSON reader, the step table, the command line and packaging policy.
