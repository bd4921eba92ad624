// The counts-and-symbols Huffman decoder: its counting-sort construction and its bit-at-a-time walk.

module Huffman {
  import opened Basics
  import opened BitStrings
  import opened BitReader
  import opened HuffmanCodes

  datatype Table = Table(counts: seq<nat>, symbols: seq<nat>)

  const U16_LIMIT := 0x1_0000

  ghost function ZeroPadded(s: seq<nat>, size: nat): (r: seq<nat>)
    requires |s| <= size
  {
    s + seq(size - |s|, _ => 0)
  }

  /** The table of a length list: how many codes each length has, and the used symbols in code order. */
  ghost function CanonicalTable(lengths: seq<nat>): (table: Table)
    ensures |table.counts| == 16 && |table.symbols| == |lengths|
  {
    ByLengthFits(lengths, |lengths|, MAX_LENGTH);
    Table(seq(16, l requires 0 <= l < 16 => if l == 0 then 0 else Count(lengths, l)),
          ZeroPadded(ByLength(lengths, |lengths|, MAX_LENGTH), |lengths|))
  }

  ghost function Used(lengths: seq<nat>): nat {
    |ByLength(lengths, |lengths|, MAX_LENGTH)|
  }

  /** The 16-bit counts and offsets do not overflow; the unused symbols are counted too. */
  ghost predicate CountersHold(lengths: seq<nat>) {
    Used(lengths) < U16_LIMIT && forall l :: 0 <= l <= MAX_LENGTH ==> Count(lengths, l) < U16_LIMIT
  }

  /** Every used symbol is a 16-bit number. */
  ghost predicate SymbolsFit(lengths: seq<nat>) {
    forall t :: 0 <= t < |lengths| && lengths[t] != 0 ==> t < U16_LIMIT
  }

  /** Over-subscribed and incomplete lengths build like any others; only a length past 15 or a symbol past 16 bits is
      refused. */
  ghost function BuildSpec(lengths: seq<nat>): (r: Result<Table, PngError>) {
    if !LengthsFit(lengths) then Err(CodeLengthOver15)
    else if !SymbolsFit(lengths) then Err(SymbolTooLarge)
    else Ok(CanonicalTable(lengths))
  }

  lemma {:induction false} BucketIsSmall(lengths: seq<nat>, n: nat, length: nat)
    requires n <= |lengths|
    ensures |Bucket(lengths, n, length)| <= n
  {
    if n > 0 {
      BucketIsSmall(lengths, n - 1, length);
    }
  }

  /** Fewer than 65536 lengths overflow nothing. */
  lemma FewLengthsHold(lengths: seq<nat>)
    requires |lengths| < U16_LIMIT
    ensures CountersHold(lengths) && SymbolsFit(lengths)
  {
    hide Bucket, ByLength;
    ByLengthFits(lengths, |lengths|, MAX_LENGTH);
    forall l: nat | l <= MAX_LENGTH ensures Count(lengths, l) < U16_LIMIT {
      BucketIsSmall(lengths, |lengths|, l);
    }
  }

  // ----- construction -----

  method CountLengths(lengths: seq<nat>, counts: array<nat>) returns (fits: bool)
    requires counts.Length == 16 && forall l :: 0 <= l < 16 ==> counts[l] == 0
    modifies counts
    ensures fits <==> LengthsFit(lengths)
    ensures fits ==> forall l :: 0 <= l < 16 ==> counts[l] == Count(lengths, l)
  {
    for t := 0 to |lengths|
      invariant forall j :: 0 <= j < t ==> lengths[j] <= MAX_LENGTH
      invariant forall l :: 0 <= l < 16 ==> counts[l] == |Bucket(lengths, t, l)|
    {
      if lengths[t] >= counts.Length {
        return false;
      }
      counts[lengths[t]] := counts[lengths[t]] + 1;
    }
    return true;
  }

  /** Where the next symbol of each length goes once the first `n` symbols are placed. */
  ghost predicate OffsetsAfter(lengths: seq<nat>, n: nat, offsets: seq<nat>)
    requires n <= |lengths|
  {
    && |offsets| == 16
    && forall l :: 1 <= l < 16 ==> offsets[l] == Offset(lengths, l) + |Bucket(lengths, n, l)|
  }

  ghost predicate BucketPlaced(lengths: seq<nat>, n: nat, symbols: seq<nat>, l: nat)
    requires n <= |lengths| && l >= 1
  {
    At(symbols, Offset(lengths, l), Bucket(lengths, n, l))
  }

  /** The first `n` symbols stand in their buckets, and zeros past the `used` places of the used symbols. */
  ghost predicate Placed(lengths: seq<nat>, n: nat, symbols: seq<nat>, used: nat)
    requires n <= |lengths|
  {
    && |symbols| == |lengths|
    && (forall l :: 1 <= l < 16 ==> BucketPlaced(lengths, n, symbols, l))
    && (forall i :: used <= i < |symbols| ==> symbols[i] == 0)
  }

  /** The place of the next symbol lies among the used places. */
  lemma NextPlace(lengths: seq<nat>, n: nat)
    requires n < |lengths| && 1 <= lengths[n] <= MAX_LENGTH
    ensures Offset(lengths, lengths[n]) + Rank(lengths, n) < Used(lengths) <= |lengths|
  {
    RankInBucket(lengths, n);
    BucketInByLength(lengths, lengths[n], MAX_LENGTH);
    ByLengthFits(lengths, |lengths|, MAX_LENGTH);
  }

  lemma PlaceNext(lengths: seq<nat>, n: nat, before: seq<nat>, after: seq<nat>, used: nat)
    requires n < |lengths| && 1 <= lengths[n] <= MAX_LENGTH
    requires Placed(lengths, n, before, used)
    requires Offset(lengths, lengths[n]) + Rank(lengths, n) < |before|
    requires Offset(lengths, lengths[n]) + Rank(lengths, n) < used
    requires after == before[Offset(lengths, lengths[n]) + Rank(lengths, n) := n]
    ensures Placed(lengths, n + 1, after, used)
  {
    var next := n + 1;
    forall l: nat | 1 <= l < 16 ensures BucketPlaced(lengths, next, after, l) {
      assert BucketPlaced(lengths, n, before, l);
      BucketAfterNext(lengths, n, before, after, l);
    }
  }

  /** A symbol without a code moves nothing. */
  lemma SkipNext(lengths: seq<nat>, n: nat, symbols: seq<nat>, used: nat, offsets: seq<nat>)
    requires n < |lengths| && lengths[n] == 0
    requires Placed(lengths, n, symbols, used) && OffsetsAfter(lengths, n, offsets)
    ensures Placed(lengths, n + 1, symbols, used) && OffsetsAfter(lengths, n + 1, offsets)
  {
    var next := n + 1;
    forall l: nat | 1 <= l < 16 ensures BucketPlaced(lengths, next, symbols, l) {
      assert BucketPlaced(lengths, n, symbols, l);
    }
  }

  lemma BucketAfterNext(lengths: seq<nat>, n: nat, before: seq<nat>, after: seq<nat>, l: nat)
    requires n < |lengths| && 1 <= lengths[n] <= MAX_LENGTH && 1 <= l < 16
    requires At(before, Offset(lengths, l), Bucket(lengths, n, l))
    requires Offset(lengths, lengths[n]) + Rank(lengths, n) < |before|
    requires after == before[Offset(lengths, lengths[n]) + Rank(lengths, n) := n]
    ensures At(after, Offset(lengths, l), Bucket(lengths, n + 1, l))
  {
    var length, base, bucket := lengths[n], Offset(lengths, l), Bucket(lengths, n, l);
    if l == length {
      assert after[base..base + |bucket|] == before[base..base + |bucket|];
      assert after[base..base + |bucket| + 1] == after[base..base + |bucket|] + [n];
    } else {
      RankInBucket(lengths, n);
      BucketGrows(lengths, n, |lengths|, l);
      if l < length {
        BucketsLieApart(lengths, l, length);
      } else {
        BucketsLieApart(lengths, length, l);
      }
      assert after[base..base + |bucket|] == before[base..base + |bucket|];
    }
  }

  /** With every bucket in place the array is the sorted list. */
  lemma {:induction false} PlacedIsSorted(lengths: seq<nat>, symbols: seq<nat>, top: nat)
    requires forall l :: 1 <= l <= top ==> BucketPlaced(lengths, |lengths|, symbols, l)
    ensures |ByLength(lengths, |lengths|, top)| <= |symbols|
    ensures symbols[..|ByLength(lengths, |lengths|, top)|] == ByLength(lengths, |lengths|, top)
  {
    hide Bucket;
    if top > 0 {
      PlacedIsSorted(lengths, symbols, top - 1);
      var base, bucket := Offset(lengths, top), Bucket(lengths, |lengths|, top);
      assert BucketPlaced(lengths, |lengths|, symbols, top);
      assert symbols[..base + |bucket|] == symbols[..base] + symbols[base..base + |bucket|];
    }
  }

  lemma {:induction false} NothingPlaced(lengths: seq<nat>, symbols: seq<nat>)
    requires |symbols| == |lengths| && forall i :: 0 <= i < |symbols| ==> symbols[i] == 0
    ensures Placed(lengths, 0, symbols, Used(lengths))
  {
    forall l | 1 <= l < 16 ensures BucketPlaced(lengths, 0, symbols, l) {
      ByLengthFits(lengths, |lengths|, l - 1);
    }
  }

  lemma AllPlaced(lengths: seq<nat>, symbols: seq<nat>)
    requires Placed(lengths, |lengths|, symbols, Used(lengths))
    ensures symbols == CanonicalTable(lengths).symbols
  {
    var top: nat := MAX_LENGTH;
    PlacedIsSorted(lengths, symbols, top);
    assert symbols == symbols[..Used(lengths)] + symbols[Used(lengths)..];
  }

  method StartOffsets(counts: array<nat>, ghost lengths: seq<nat>) returns (offsets: array<nat>)
    requires counts.Length == 16 && counts[0] == 0
    requires forall l :: 1 <= l < 16 ==> counts[l] == Count(lengths, l)
    ensures fresh(offsets) && OffsetsAfter(lengths, 0, offsets[..])
  {
    hide Bucket;
    offsets := new nat[16](_ => 0);
    ghost var counted := counts[..];
    for l := 1 to 16
      invariant counts[..] == counted && offsets[0] == 0
      invariant forall j :: 1 <= j < l ==> offsets[j] == Offset(lengths, j)
    {
      offsets[l] := offsets[l - 1] + counts[l - 1];
      assert offsets[l] == Offset(lengths, l) by {
        if l > 1 {
          assert counted[l - 1] == Count(lengths, l - 1) && offsets[l - 1] == Offset(lengths, l - 1);
        }
      }
    }
    NothingOffset(lengths);
  }

  lemma NothingOffset(lengths: seq<nat>)
    ensures forall l :: |Bucket(lengths, 0, l)| == 0
  {
  }

  method SortSymbols(lengths: seq<nat>, offsets: array<nat>) returns (symbols: array<nat>, fits: bool)
    requires LengthsFit(lengths) && OffsetsAfter(lengths, 0, offsets[..])
    modifies offsets
    ensures fresh(symbols) && (fits <==> SymbolsFit(lengths))
    ensures fits ==> symbols[..] == CanonicalTable(lengths).symbols
  {
    hide ByLength, BucketPlaced;
    symbols := new nat[|lengths|](_ => 0);
    NothingPlaced(lengths, symbols[..]);
    for t := 0 to |lengths|
      invariant forall j :: 0 <= j < t && lengths[j] != 0 ==> j < U16_LIMIT
      invariant OffsetsAfter(lengths, t, offsets[..])
      invariant Placed(lengths, t, symbols[..], Used(lengths))
    {
      var length := lengths[t];
      if length != 0 {
        NextPlace(lengths, t);
        var position := offsets[length];
        assert position == offsets[..][length] == Offset(lengths, length) + Rank(lengths, t);
        if t >= U16_LIMIT {
          return symbols, false;
        }
        ghost var before := symbols[..];
        symbols[position] := t;
        offsets[length] := position + 1;
        PlaceNext(lengths, t, before, symbols[..], Used(lengths));
      } else {
        SkipNext(lengths, t, symbols[..], Used(lengths), offsets[..]);
      }
    }
    AllPlaced(lengths, symbols[..]);
    fits := true;
  }

  method Build(lengths: seq<nat>) returns (r: Result<Table, PngError>)
    requires CountersHold(lengths)
    ensures r == BuildSpec(lengths)
  {
    hide ByLength, Bucket, OffsetsAfter;
    var counts := new nat[16](_ => 0);
    var fits := CountLengths(lengths, counts);
    if !fits {
      return Err(CodeLengthOver15);
    }
    counts[0] := 0;
    ghost var counted := counts[..];
    var offsets := StartOffsets(counts, lengths);
    var symbols;
    symbols, fits := SortSymbols(lengths, offsets);
    if !fits {
      return Err(SymbolTooLarge);
    }
    assert counts[..] == counted == CanonicalTable(lengths).counts;
    r := Ok(Table(counts[..], symbols[..]));
  }

  // ----- decoding -----

  /** The decoder's walk over a code that starts at bit `start`, about to read bit `p`. */
  ghost function DecodeFrom(table: Table, s: seq<bit>, start: nat, p: nat, code: nat, first: nat, index: nat)
    : (r: Read<nat>)
    requires |table.counts| == 16 && start <= p < start + 16 && first <= code
    ensures r.Got? ==> p < r.end <= |s|
    decreases start + 16 - p
  {
    var length := p - start + 1;
    if length == 16 then Fail(CodeTooLong)
    else if p >= |s| then Fail(Truncated)
    else
      var c, count := code + s[p], table.counts[length];
      if c < first + count then
        if index + (c - first) < |table.symbols| then Got(table.symbols[index + (c - first)], p + 1)
        else Fail(IncompleteCode)
      else DecodeFrom(table, s, start, p + 1, 2 * c, 2 * (first + count), index + count)
  }

  ghost function DecodeSpec(table: Table, s: seq<bit>, p: nat): (r: Read<nat>)
    requires |table.counts| == 16
    ensures r.Got? ==> p < r.end <= |s|
  {
    DecodeFrom(table, s, p, p, 0, 0, 0)
  }

  lemma DecodeStarts(table: Table, s: seq<bit>, p: nat)
    requires |table.counts| == 16
    ensures DecodeSpec(table, s, p) == DecodeFrom(table, s, p, p, 0, 0, 0)
  {
  }

  /** One turn of the walk: past fifteen bits, at the end of the stream, at a symbol, or on to the next bit. */
  lemma DecodeTurn(table: Table, s: seq<bit>, start: nat, p: nat, code: nat, first: nat, index: nat)
    requires |table.counts| == 16 && start <= p < start + 16 && first <= code
    ensures p == start + 15 ==> DecodeFrom(table, s, start, p, code, first, index) == Fail(CodeTooLong)
    ensures p < start + 15 && p >= |s| ==> DecodeFrom(table, s, start, p, code, first, index) == Fail(Truncated)
    ensures p < start + 15 && p < |s| ==>
      var c, count := code + s[p], table.counts[p - start + 1];
      DecodeFrom(table, s, start, p, code, first, index)
      == if c >= first + count then DecodeFrom(table, s, start, p + 1, 2 * c, 2 * (first + count), index + count)
         else if index + (c - first) < |table.symbols| then Got(table.symbols[index + (c - first)], p + 1)
         else Fail(IncompleteCode)
  {
  }

  method Decode(table: Table, bits: Bits) returns (r: Result<nat, PngError>)
    requires |table.counts| == 16
    requires bits.Valid()
    modifies bits
    ensures bits.Valid() && bits.Pos() >= old(bits.Pos())
    ensures Agrees(r, bits.Pos(), DecodeSpec(table, bits.Stream(), old(bits.Pos())))
  {
    hide DecodeSpec, DecodeFrom, BitAt;
    var code: nat, first: nat, index: nat := 0, 0, 0;
    ghost var p := bits.Pos();
    DecodeStarts(table, bits.Stream(), p);
    for length := 1 to 16
      invariant bits.Valid() && bits.Pos() == p + length - 1 && first <= code && index >= 0
      invariant DecodeSpec(table, bits.Stream(), p) ==
                DecodeFrom(table, bits.Stream(), p, bits.Pos(), code, first, index)
    {
      DecodeTurn(table, bits.Stream(), p, bits.Pos(), code, first, index);
      var b := bits.Bit();
      if b.Err? {
        return Err(Truncated);
      }
      code := code + b.value;
      var count := table.counts[length];
      if code < first + count {
        var offset := code - first;
        if index + offset >= |table.symbols| {
          return Err(IncompleteCode);
        }
        return Ok(table.symbols[index + offset]);
      }
      index := index + count;
      first := 2 * (first + count);
      code := 2 * code;
    }
    DecodeTurn(table, bits.Stream(), p, bits.Pos(), code, first, index);
    r := Err(CodeTooLong);
  }

  // ----- the decoder inverts exactly the canonical code -----

  ghost predicate DescribesLength(table: Table, lengths: seq<nat>, l: nat)
    requires |table.counts| == 16 && 1 <= l < 16
  {
    table.counts[l] == Count(lengths, l) && At(table.symbols, Offset(lengths, l), Bucket(lengths, |lengths|, l))
  }

  /** What the walk needs of a table: the counts of its lengths, and every bucket where its offset says. */
  ghost predicate Describes(table: Table, lengths: seq<nat>) {
    && |table.counts| == 16
    && forall l :: 1 <= l < 16 ==> DescribesLength(table, lengths, l)
  }

  lemma CanonicalTableDescribes(lengths: seq<nat>)
    ensures Describes(CanonicalTable(lengths), lengths)
  {
    var table, top: nat := CanonicalTable(lengths), MAX_LENGTH;
    ByLengthFits(lengths, |lengths|, top);
    forall l | 1 <= l < 16 ensures DescribesLength(table, lengths, l) {
      BucketInByLength(lengths, l, top);
      var base, bucket := Offset(lengths, l), Bucket(lengths, |lengths|, l);
      assert table.symbols[base..base + |bucket|] == ByLength(lengths, |lengths|, top)[base..base + |bucket|];
    }
  }

  /** The bits a code's prefix has when the walk reaches `length`. */
  lemma PrefixInStream(lengths: seq<nat>, symbol: nat, s: seq<bit>, p: nat, length: nat)
    requires Encodable(lengths, symbol) && At(s, p, CodeBits(lengths, symbol))
    requires length <= lengths[symbol]
    ensures p + length <= |s|
    ensures Msb(s[p..p + length]) == Code(lengths, symbol) / Pow2(lengths[symbol] - length)
  {
    MsbPrefix(Code(lengths, symbol), lengths[symbol], length);
    assert s[p..p + length] == CodeBits(lengths, symbol)[..length];
  }

  lemma MsbExtends(s: seq<bit>, p: nat, length: nat)
    requires p + length < |s|
    ensures Msb(s[p..p + length + 1]) == 2 * Msb(s[p..p + length]) + s[p + length]
  {
    var longer := s[p..p + length + 1];
    assert longer[..length] == s[p..p + length];
  }

  /** No proper prefix of a fitting code is itself a code. */
  lemma PrefixIsNoCode(lengths: seq<nat>, symbol: nat, length: nat)
    requires Encodable(lengths, symbol) && 1 <= length < lengths[symbol]
    ensures Code(lengths, symbol) / Pow2(lengths[symbol] - length) >= First(lengths, length) + Count(lengths, length)
  {
    var scale := Pow2(lengths[symbol] - length);
    var base := First(lengths, length) + Count(lengths, length);
    FirstDominates(lengths, length, lengths[symbol]);
    DivideAtLeast(Code(lengths, symbol), scale, base);
  }

  /** What the walk has read when it reaches `length`: past every code of that length, or the symbol's own code. */
  lemma PrefixRead(lengths: seq<nat>, symbol: nat, s: seq<bit>, p: nat, length: nat)
    requires Encodable(lengths, symbol) && At(s, p, CodeBits(lengths, symbol))
    requires 1 <= length <= lengths[symbol]
    ensures p + length <= |s|
    ensures length < lengths[symbol] ==> Msb(s[p..p + length]) >= First(lengths, length) + Count(lengths, length)
    ensures length == lengths[symbol] ==> Msb(s[p..p + length]) == Code(lengths, symbol)
  {
    hide Msb, CodeBits, Bucket, First;
    PrefixInStream(lengths, symbol, s, p, length);
    if length < lengths[symbol] {
      PrefixIsNoCode(lengths, symbol, length);
    }
  }

  lemma DivideAtLeast(value: nat, d: nat, q: nat)
    requires d > 0 && value >= d * q
    ensures value / d >= q
  {
    var gap := q - value / d;
    assert d * gap == d * q - d * (value / d);
    if gap > 0 {
      MultipleAtLeast(gap, d);
    }
  }

  /** One turn of the walk, which reads `code` in all and either stops or goes on with `next` and `offset`. */
  lemma WalkTurn(
      table: Table, lengths: seq<nat>, s: seq<bit>, start: nat, length: nat, before: nat, code: nat, next: nat,
      offset: nat)
    requires Describes(table, lengths) && 1 <= length < 16
    requires start + length <= |s| && code == 2 * before + s[start + length - 1]
    requires First(lengths, length) <= 2 * before
    requires next == First(lengths, length + 1) && offset == Offset(lengths, length + 1)
    ensures code < First(lengths, length) + Count(lengths, length) ==>
      DecodeFrom(table, s, start, start + length - 1, 2 * before, First(lengths, length), Offset(lengths, length))
      == Got(Bucket(lengths, |lengths|, length)[code - First(lengths, length)], start + length)
    ensures code >= First(lengths, length) + Count(lengths, length) ==>
      && next <= 2 * code
      && DecodeFrom(table, s, start, start + length - 1, 2 * before, First(lengths, length), Offset(lengths, length))
         == DecodeFrom(table, s, start, start + length, 2 * code, next, offset)
  {
    var first, count, index := First(lengths, length), Count(lengths, length), Offset(lengths, length);
    assert DescribesLength(table, lengths, length);
    if code < first + count {
      AtIndex(table.symbols, index, Bucket(lengths, |lengths|, length), code - first);
    } else {
      assert next == 2 * (first + count);
      assert offset == index + count;
    }
  }

  /** The first `length` bits are past every code of that length. */
  ghost predicate Past(lengths: seq<nat>, s: seq<bit>, p: nat, length: nat) {
    p + length <= |s| && Msb(s[p..p + length]) >= First(lengths, length) + Count(lengths, length)
  }

  lemma WalkBegins(table: Table, lengths: seq<nat>, s: seq<bit>, p: nat)
    requires Describes(table, lengths) && p <= |s|
    ensures Msb(s[p..p]) == 0 && First(lengths, 1) == 0 && Offset(lengths, 1) == 0
    ensures DecodeSpec(table, s, p) == DecodeFrom(table, s, p, p, 0, 0, 0)
  {
  }

  /** While the bits stay past every code, the walk goes on. */
  lemma {:induction false} WalkPast(table: Table, lengths: seq<nat>, s: seq<bit>, p: nat, length: nat)
    returns (before: nat)
    requires Describes(table, lengths) && 1 <= length <= 16 && p + length - 1 <= |s|
    requires forall j :: 1 <= j < length ==> Past(lengths, s, p, j)
    ensures before == Msb(s[p..p + length - 1]) && First(lengths, length) <= 2 * before
    ensures DecodeSpec(table, s, p) ==
            DecodeFrom(table, s, p, p + length - 1, 2 * before, First(lengths, length), Offset(lengths, length))
    decreases length
  {
    hide Bucket, Describes, DescribesLength, Msb, First, Offset, Count, DecodeFrom, DecodeSpec;
    if length == 1 {
      before := 0;
      WalkBegins(table, lengths, s, p);
    } else {
      var earlier := WalkPast(table, lengths, s, p, length - 1);
      before := Msb(s[p..p + length - 1]);
      MsbExtends(s, p, length - 2);
      assert Past(lengths, s, p, length - 1);
      WalkTurn(table, lengths, s, p, length - 1, earlier, before, First(lengths, length), Offset(lengths, length));
    }
  }

  /** And it stops at the symbol whose code it has read. */
  lemma WalkStops(table: Table, lengths: seq<nat>, symbol: nat, s: seq<bit>, p: nat)
    requires Describes(table, lengths) && symbol < |lengths| && 1 <= lengths[symbol] <= MAX_LENGTH
    requires forall j :: 1 <= j < lengths[symbol] ==> Past(lengths, s, p, j)
    requires p + lengths[symbol] <= |s|
    requires Msb(s[p..p + lengths[symbol]]) == Code(lengths, symbol)
    ensures DecodeSpec(table, s, p) == Got(symbol, p + lengths[symbol])
  {
    hide Msb, Bucket, First, Offset, Describes, DecodeFrom;
    var length := lengths[symbol];
    var before := WalkPast(table, lengths, s, p, length);
    MsbExtends(s, p, length - 1);
    RankInBucket(lengths, symbol);
    WalkTurn(table, lengths, s, p, length, before, Code(lengths, symbol),
             First(lengths, length + 1), Offset(lengths, length + 1));
  }

  lemma PrefixesArePast(lengths: seq<nat>, symbol: nat, s: seq<bit>, p: nat)
    requires Encodable(lengths, symbol) && At(s, p, CodeBits(lengths, symbol))
    ensures forall j :: 1 <= j < lengths[symbol] ==> Past(lengths, s, p, j)
    ensures p + lengths[symbol] <= |s|
    ensures Msb(s[p..p + lengths[symbol]]) == Code(lengths, symbol)
  {
    forall j: nat | 1 <= j < lengths[symbol] ensures Past(lengths, s, p, j) {
      PrefixRead(lengths, symbol, s, p, j);
    }
    PrefixRead(lengths, symbol, s, p, lengths[symbol]);
  }

  /** Decoding a symbol's code gives the symbol and consumes exactly its bits. */
  lemma DecodeInverts(lengths: seq<nat>, symbol: nat, s: seq<bit>, p: nat)
    requires Encodable(lengths, symbol) && At(s, p, CodeBits(lengths, symbol))
    ensures DecodeSpec(CanonicalTable(lengths), s, p) == Got(symbol, p + lengths[symbol])
  {
    CanonicalTableDescribes(lengths);
    PrefixesArePast(lengths, symbol, s, p);
    WalkStops(CanonicalTable(lengths), lengths, symbol, s, p);
  }

  /** When the bits read fall inside a length's codes, the symbol there is the one whose code they are. */
  lemma StopIsDecoded(lengths: seq<nat>, s: seq<bit>, p: nat, length: nat)
    requires 1 <= length < 16 && p + length <= |s|
    requires First(lengths, length) <= Msb(s[p..p + length]) < First(lengths, length) + Count(lengths, length)
    ensures Decoded(lengths, s, p,
                    Got(Bucket(lengths, |lengths|, length)[Msb(s[p..p + length]) - First(lengths, length)], p + length))
  {
    hide Bucket, Rank, First, Msb, MsbBits;
    var code := Msb(s[p..p + length]);
    BucketRank(lengths, |lengths|, length, code - First(lengths, length));
    BitsOfMsb(s[p..p + length]);
  }

  lemma {:induction false} DecodeFromSound(
      table: Table, lengths: seq<nat>, s: seq<bit>, p: nat, q: nat, length: nat, before: nat, walk: Read<nat>)
    requires Describes(table, lengths)
    requires 1 <= length <= 16 && q == p + length - 1 <= |s|
    requires before == Msb(s[p..q]) && First(lengths, length) <= 2 * before
    requires walk == DecodeFrom(table, s, p, q, 2 * before, First(lengths, length), Offset(lengths, length))
    ensures Decoded(lengths, s, p, walk)
    decreases 16 - length
  {
    hide Msb, CodeBits, Encodable, At, Bucket, First, Offset, Describes;
    if length < 16 && q < |s| {
      MsbExtends(s, p, length - 1);
      var code := Msb(s[p..q + 1]);
      var next, offset := First(lengths, length + 1), Offset(lengths, length + 1);
      WalkTurn(table, lengths, s, p, length, before, code, next, offset);
      if code < First(lengths, length) + Count(lengths, length) {
        StopIsDecoded(lengths, s, p, length);
      } else {
        DecodeFromSound(table, lengths, s, p, q + 1, length + 1, code, walk);
      }
    }
  }

  /** A decoded symbol's fitting code stands at `p`; a failure is for want of bits or past 15 of them. */
  ghost predicate Decoded(lengths: seq<nat>, s: seq<bit>, p: nat, r: Read<nat>) {
    match r
    case Got(symbol, end) =>
      Encodable(lengths, symbol) && end == p + lengths[symbol] && At(s, p, CodeBits(lengths, symbol))
    case Fail(error) => error == Truncated || error == CodeTooLong
  }

  lemma DecodeSound(lengths: seq<nat>, s: seq<bit>, p: nat)
    ensures Decoded(lengths, s, p, DecodeSpec(CanonicalTable(lengths), s, p))
  {
    CanonicalTableDescribes(lengths);
    if p <= |s| {
      assert s[p..p] == [];
      assert Offset(lengths, 1) == 0;
      DecodeFromSound(CanonicalTable(lengths), lengths, s, p, p, 1, 0, DecodeSpec(CanonicalTable(lengths), s, p));
    }
  }

  /** Whatever the lengths, the decoder returns a symbol exactly when that symbol's fitting code stands there. */
  lemma DecodeExact(lengths: seq<nat>, s: seq<bit>, p: nat, symbol: nat, end: nat)
    ensures DecodeSpec(CanonicalTable(lengths), s, p) == Got(symbol, end) <==>
            && Encodable(lengths, symbol)
            && At(s, p, CodeBits(lengths, symbol))
            && end == p + lengths[symbol]
  {
    if Encodable(lengths, symbol) && At(s, p, CodeBits(lengths, symbol)) {
      DecodeInverts(lengths, symbol, s, p);
    }
    DecodeSound(lengths, s, p);
  }

  /** No code that fits is a prefix of another symbol's. */
  lemma CodesArePrefixFree(lengths: seq<nat>, a: nat, b: nat)
    requires Encodable(lengths, a) && Encodable(lengths, b)
    requires CodeBits(lengths, a) <= CodeBits(lengths, b)
    ensures a == b
  {
    var s := CodeBits(lengths, b);
    assert s[0..|s|] == s && s[0..lengths[a]] == CodeBits(lengths, a);
    DecodeInverts(lengths, a, s, 0);
    DecodeInverts(lengths, b, s, 0);
  }
}
