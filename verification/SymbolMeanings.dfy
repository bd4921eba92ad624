// What every symbol and field of a DEFLATE stream does to the output, with the numbers of section 3.2 of RFC 1951
// written as formulas instead of tables.

module SymbolMeanings {
  import opened Basics
  import opened BitReader
  import opened HuffmanCodes
  import opened Huffman
  import opened Deflate
  import opened Inflater

  // ----- the length and distance symbols, section 3.2.5 -----

  /** Groups of four symbols share their number of extra bits; the last symbol stands apart. */
  function LengthBits(ls: nat): nat
    requires ls < 29
  {
    if ls < 4 || ls == 28 then 0 else ls / 4 - 1
  }

  function LeastLength(ls: nat): nat
    requires ls < 29
  {
    if ls == 28 then 258 else if ls < 4 then 3 + ls else 3 + (4 + ls % 4) * Pow2(ls / 4 - 1)
  }

  /** Groups of two. */
  function DistanceBits(ds: nat): nat
    requires ds < 30
  {
    if ds < 2 then 0 else ds / 2 - 1
  }

  function LeastDistance(ds: nat): nat
    requires ds < 30
  {
    if ds < 2 then 1 + ds else 1 + (2 + ds % 2) * Pow2(ds / 2 - 1)
  }

  lemma ShortLengths(ls: nat)
    requires 4 <= ls < 16
    ensures LENGTH_EXTRA[ls] == ls / 4 - 1 && LENGTH_BASE[ls] == 3 + (4 + ls % 4) * SMALL_POWERS[ls / 4 - 1]
  {
  }

  lemma LongLengths(ls: nat)
    requires 16 <= ls < 28
    ensures LENGTH_EXTRA[ls] == ls / 4 - 1 && LENGTH_BASE[ls] == 3 + (4 + ls % 4) * SMALL_POWERS[ls / 4 - 1]
  {
  }

  lemma LengthTables(ls: nat)
    requires ls < 29
    ensures LENGTH_EXTRA[ls] == LengthBits(ls) && LENGTH_BASE[ls] == LeastLength(ls)
  {
    hide Pow2;
    if 4 <= ls < 28 {
      SmallPower(ls / 4 - 1);
      if ls < 16 {
        ShortLengths(ls);
      } else {
        LongLengths(ls);
      }
    }
  }

  lemma DistancesNear(ds: nat)
    requires 2 <= ds < 7
    ensures DISTANCE_EXTRA[ds] == ds / 2 - 1 && DISTANCE_BASE[ds] == 1 + (2 + ds % 2) * SMALL_POWERS[ds / 2 - 1]
  {
  }

  lemma DistancesNext(ds: nat)
    requires 7 <= ds < 12
    ensures DISTANCE_EXTRA[ds] == ds / 2 - 1 && DISTANCE_BASE[ds] == 1 + (2 + ds % 2) * SMALL_POWERS[ds / 2 - 1]
  {
  }

  lemma DistancesMid(ds: nat)
    requires 12 <= ds < 17
    ensures DISTANCE_EXTRA[ds] == ds / 2 - 1 && DISTANCE_BASE[ds] == 1 + (2 + ds % 2) * SMALL_POWERS[ds / 2 - 1]
  {
  }

  lemma DistancesMiddle(ds: nat)
    requires 17 <= ds < 22
    ensures DISTANCE_EXTRA[ds] == ds / 2 - 1 && DISTANCE_BASE[ds] == 1 + (2 + ds % 2) * SMALL_POWERS[ds / 2 - 1]
  {
  }

  lemma DistancesFar(ds: nat)
    requires 22 <= ds < 30
    ensures DISTANCE_EXTRA[ds] == ds / 2 - 1 && DISTANCE_BASE[ds] == 1 + (2 + ds % 2) * SMALL_POWERS[ds / 2 - 1]
  {
  }

  lemma DistanceTables(ds: nat)
    requires ds < 30
    ensures DISTANCE_EXTRA[ds] == DistanceBits(ds) && DISTANCE_BASE[ds] == LeastDistance(ds)
  {
    hide Pow2;
    if 2 <= ds {
      SmallPower(ds / 2 - 1);
      if ds < 7 {
        DistancesNear(ds);
      } else if ds < 12 {
        DistancesNext(ds);
      } else if ds < 17 {
        DistancesMid(ds);
      } else if ds < 22 {
        DistancesMiddle(ds);
      } else {
        DistancesFar(ds);
      }
    }
  }

  // ----- one symbol of compressed data -----

  /** A literal is appended, the end of the block ends it, and symbols past 285 are refused. */
  lemma PlainSymbols(codes: Codes, s: seq<bit>, p: nat, out: seq<byte>, symbol: nat, q: nat)
    requires DecodeSpec(CanonicalTable(codes.literals), s, p) == Got(symbol, q)
    ensures symbol < 256 ==> ReadTokens(codes, s, p, out) == ReadTokens(codes, s, q, out + [symbol])
    ensures symbol == 256 ==> ReadTokens(codes, s, p, out) == Got(out, q)
    ensures symbol > 285 ==> ReadTokens(codes, s, p, out) == Fail(LengthSymbolOutOfRange)
  {
    hide ReadTokens, DecodeSpec, CanonicalTable, ReadMatch;
    TokensTurn(codes, s, p, out);
  }

  /** `more` repeats what stands `distance` back in `out` and in itself. */
  ghost predicate Repeats(out: seq<byte>, more: seq<byte>, distance: nat) {
    && 1 <= distance <= |out|
    && forall i :: |out| <= i < |out| + |more| ==> (out + more)[i] == (out + more)[i - distance]
  }

  lemma CopyRepeats(out: seq<byte>, distance: nat, length: nat) returns (more: seq<byte>)
    requires 1 <= distance <= |out|
    ensures |more| == length && CopyMatch(out, distance, length) == out + more && Repeats(out, more, distance)
  {
    CopyMatchIsPeriodic(out, distance, length);
    more := CopyMatch(out, distance, length)[|out|..];
    assert CopyMatch(out, distance, length) == out + more;
  }

  /** The length and the distance of a match behind its length symbol: the least ones of their symbols and the extra
      bits. */
  ghost function MatchNumbers(distances: seq<nat>, s: seq<bit>, q: nat, ls: nat): Read<(nat, nat)>
    requires ls < 29
  {
    var (lengthExtra, q) :- TakeBits(s, q, LengthBits(ls));
    var (ds, q) :- DecodeSpec(CanonicalTable(distances), s, q);
    if ds >= 30 then Fail(DistanceSymbolOutOfRange)
    else
      var (distanceExtra, q) :- TakeBits(s, q, DistanceBits(ds));
      Got((LeastLength(ls) + lengthExtra, LeastDistance(ds) + distanceExtra), q)
  }

  lemma TokenNumbers(t: Token)
    requires t.Match? && TokenFits(t)
    ensures t.lengthSymbol < 29 && t.distanceSymbol < 30
    ensures MatchLength(t) == LeastLength(t.lengthSymbol) + t.lengthExtra
    ensures MatchDistance(t) == LeastDistance(t.distanceSymbol) + t.distanceExtra
  {
    hide Pow2, LeastLength, LeastDistance, LengthBits, DistanceBits;
    LengthTables(t.lengthSymbol);
    DistanceTables(t.distanceSymbol);
  }

  lemma NumbersRead(distances: seq<nat>, s: seq<bit>, q: nat, ls: nat)
    requires ls < 29
    ensures var read, numbers := ReadMatch(distances, s, q, ls), MatchNumbers(distances, s, q, ls);
      && (read.Fail? ==> numbers == Fail(read.error))
      && (read.Got? ==> numbers == Got((MatchLength(read.value), MatchDistance(read.value)), read.end))
  {
    hide DecodeSpec, CanonicalTable, TakeBits, Pow2, LengthBits, LeastLength, DistanceBits, LeastDistance, MatchLength,
      MatchDistance, TokenFits, LENGTH_EXTRA, DISTANCE_EXTRA;
    LengthTables(ls);
    var read := ReadMatch(distances, s, q, ls);
    if read.Got? {
      TokenNumbers(read.value);
    }
    var le := TakeBits(s, q, LengthBits(ls));
    if le.Got? {
      var ds := DecodeSpec(CanonicalTable(distances), s, le.end);
      if ds.Got? && ds.value < 30 {
        DistanceTables(ds.value);
      }
    }
  }

  /** A match appends that many bytes, each the one that stands its distance back. */
  lemma MatchSymbols(codes: Codes, s: seq<bit>, p: nat, out: seq<byte>, symbol: nat, q: nat) returns (more: seq<byte>)
    requires DecodeSpec(CanonicalTable(codes.literals), s, p) == Got(symbol, q) && 257 <= symbol <= 285
    ensures var numbers := MatchNumbers(codes.distances, s, q, symbol - 257);
      && (numbers.Fail? ==> ReadTokens(codes, s, p, out) == Fail(numbers.error))
      && (numbers.Got? && numbers.value.1 > |out| ==>
          ReadTokens(codes, s, p, out) == Fail(BackReferenceBeforeStart))
      && (numbers.Got? && numbers.value.1 <= |out| ==>
          && |more| == numbers.value.0 && Repeats(out, more, numbers.value.1)
          && ReadTokens(codes, s, p, out) == ReadTokens(codes, s, numbers.end, out + more))
  {
    hide ReadTokens, ReadMatch, MatchNumbers, DecodeSpec, CanonicalTable, CopyMatch, Repeats, Pow2, MatchLength;
    more := [];
    TokensTurn(codes, s, p, out);
    NumbersRead(codes.distances, s, q, symbol - 257);
    var read := ReadMatch(codes.distances, s, q, symbol - 257);
    if read.Got? && MatchDistance(read.value) <= |out| {
      more := CopyRepeats(out, MatchDistance(read.value), MatchLength(read.value));
    }
  }

  // ----- a dynamic header, section 3.2.7 -----

  /** The sending order: the three runs and zero, then outwards from the middle, 8 7 9 6 10 and on. */
  function Sending(i: nat): (symbol: nat)
    requires i < 19
    ensures symbol < 19
  {
    if i < 3 then 16 + i else if i == 3 then 0 else if i % 2 == 0 then 8 + (i - 4) / 2 else 7 - (i - 5) / 2
  }

  lemma SendingOrder(i: nat)
    requires i < 19
    ensures CODE_LENGTH_ORDER[i] == Sending(i) < 19
  {
  }

  lemma SendingOnce(i: nat, j: nat)
    requires i < j < 19
    ensures Sending(i) != Sending(j)
  {
  }

  /** The length of the code-length symbol sent in place `i`: three bits, one field behind the other from `start`. */
  ghost predicate FieldSent(s: seq<bit>, start: nat, lengths: seq<nat>, i: nat)
    requires i < 19 && |lengths| == 19
  {
    var field := TakeBits(s, start + 3 * i, 3);
    field.Got? && lengths[Sending(i)] == field.value
  }

  ghost predicate LengthsSent(s: seq<bit>, start: nat, from: nat, sent: nat, lengths: seq<nat>)
    requires sent <= 19 && |lengths| == 19
  {
    forall i: nat :: from <= i < sent ==> FieldSent(s, start, lengths, i)
  }

  lemma OnlyOneChanges(lengths: seq<nat>, from: nat, v: nat)
    requires |lengths| == 19 && from < 19
    ensures forall i: nat :: i < 19 && i != from ==> lengths[Sending(from) := v][Sending(i)] == lengths[Sending(i)]
  {
    hide Sending;
    forall i: nat | i < 19 && i != from ensures lengths[Sending(from) := v][Sending(i)] == lengths[Sending(i)] {
      if i < from {
        SendingOnce(i, from);
      } else {
        SendingOnce(from, i);
      }
    }
  }

  lemma {:induction false} CodeLengthsMean(s: seq<bit>, start: nat, from: nat, sent: nat, lengths: seq<nat>)
    requires from <= sent <= 19 && |lengths| == 19 && forall i :: 0 <= i < 19 ==> lengths[i] < 8
    requires ReadCodeLengths(s, start + 3 * from, from, sent, lengths).Got?
    ensures var got := ReadCodeLengths(s, start + 3 * from, from, sent, lengths).value;
      && |got| == 19 && LengthsSent(s, start, from, sent, got)
      && forall i: nat :: i < 19 && (i < from || i >= sent) ==> got[Sending(i)] == lengths[Sending(i)]
    decreases sent - from
  {
    hide ReadCodeLengths, TakeBits, Sending, CODE_LENGTH_ORDER;
    CodeLengthsTurn(s, start + 3 * from, from, sent, lengths);
    if from < sent {
      var field := TakeBits(s, start + 3 * from, 3);
      SendingOrder(from);
      ThreeBits(s, start + 3 * from);
      OnlyOneChanges(lengths, from, field.value);
      CodeLengthsMean(s, start, from + 1, sent, lengths[Sending(from) := field.value]);
    }
  }

  lemma ThreeBits(s: seq<bit>, p: nat)
    ensures TakeBits(s, p, 3).Got? ==> TakeBits(s, p, 3).value < 8
  {
    assert Pow2(3) == 8;
  }

  /** A header that is accepted: three sizes of five, five and four bits, the code lengths it sends, and then the two
      lists of lengths written with them, one behind the other. */
  lemma HeaderMeans(s: seq<bit>, p: nat) returns (codeLengths: seq<nat>)
    requires ReadHeader(s, p).Got?
    ensures var codes := ReadHeader(s, p).value;
      && TakeBits(s, p, 5).Got? && TakeBits(s, p + 5, 5).Got? && TakeBits(s, p + 10, 4).Got?
      && |codes.literals| == 257 + TakeBits(s, p, 5).value
      && |codes.distances| == 1 + TakeBits(s, p + 5, 5).value
      && var sent := 4 + TakeBits(s, p + 10, 4).value;
      && sent <= 19 && |codeLengths| == 19 && LengthsSent(s, p + 14, 0, sent, codeLengths)
      && (forall i: nat :: sent <= i < 19 ==> codeLengths[Sending(i)] == 0)
      && ReadLengths(codeLengths, s, p + 14 + 3 * sent, |codes.literals| + |codes.distances|, []) ==
         Got(codes.literals + codes.distances, ReadHeader(s, p).end)
  {
    hide ReadLengths, ReadCodeLengths, TakeBits, Sending, LengthsSent, CODE_LENGTH_ORDER;
    var sizes := ReadSizes(s, p).value;
    codeLengths := ReadCodeLengths(s, p + 14, 0, sizes.sent, Copies(0, 19)).value;
    CodeLengthsMean(s, p + 14, 0, sizes.sent, Copies(0, 19));
    forall i: nat | sizes.sent <= i < 19 ensures codeLengths[Sending(i)] == 0 {
      SendingOrder(i);
    }
    var codes := ReadHeader(s, p).value;
    var lengths := ReadLengths(codeLengths, s, p + 14 + 3 * sizes.sent, sizes.literals + sizes.distances, []).value;
    assert codes.literals + codes.distances == lengths;
  }

  /** One symbol of the code-length code: a length, 3 to 6 copies of the last one, or 3 to 10 or 11 to 138 zeros. */
  lemma RunSymbols(lengths: seq<nat>, s: seq<bit>, p: nat, total: nat, done: seq<nat>, symbol: nat, q: nat)
    requires LengthsFit(done) && |done| < total && DecodeSpec(CanonicalTable(lengths), s, p) == Got(symbol, q)
    ensures symbol <= 15 ==>
      LengthsFit(done + [symbol]) && ReadLengths(lengths, s, p, total, done) ==
      ReadLengths(lengths, s, q, total, done + [symbol])
    ensures symbol == 16 && done == [] ==> ReadLengths(lengths, s, p, total, done) == Fail(RepeatWithoutPrevious)
    ensures symbol == 16 && done != [] ==>
      RunOf(lengths, s, p, total, done, TakeBits(s, q, 2), done[|done| - 1], 3)
    ensures symbol == 17 ==> RunOf(lengths, s, p, total, done, TakeBits(s, q, 3), 0, 3)
    ensures symbol == 18 ==> RunOf(lengths, s, p, total, done, TakeBits(s, q, 7), 0, 11)
    ensures symbol > 18 ==> ReadLengths(lengths, s, p, total, done) == Fail(CodeLengthSymbolOutOfRange)
  {
    hide ReadLengths, DecodeSpec, CanonicalTable, TakeBits, LengthsFit, Pow2;
    LengthsTurn(lengths, s, p, total, done);
    if symbol <= 15 {
      NoExtra(s, q);
      OneMoreFits(done, symbol);
    } else if symbol == 16 && done != [] {
      LastFits(done);
    }
    if symbol in {16, 17, 18} && (symbol == 16 ==> done != []) {
      var value := if symbol == 16 then done[|done| - 1] else 0;
      var extra := TakeBits(s, q, if symbol == 16 then 2 else if symbol == 17 then 3 else 7);
      if extra.Got? {
        RunFits(done, value, (if symbol == 18 then 11 else 3) + extra.value);
      }
    }
  }

  /** The reading goes on behind a run of `value`, `least` times and as often as the extra bits say. */
  ghost predicate RunOf(
      lengths: seq<nat>, s: seq<bit>, p: nat, total: nat, done: seq<nat>, extra: Read<nat>, value: nat, least: nat)
    requires LengthsFit(done)
  {
    match extra
    case Fail(error) => ReadLengths(lengths, s, p, total, done) == Fail(error)
    case Got(more, end) =>
      var longer := done + seq(least + more, i => value);
      LengthsFit(longer) &&
      ReadLengths(lengths, s, p, total, done) == ReadLengths(lengths, s, end, total, longer)
  }

  lemma NoExtra(s: seq<bit>, q: nat)
    ensures q <= |s| ==> TakeBits(s, q, 0) == Got(0, q)
  {
  }

  lemma OneMoreFits(done: seq<nat>, x: nat)
    requires LengthsFit(done) && x <= 15
    ensures LengthsFit(done + [x])
  {
  }

  lemma LastFits(done: seq<nat>)
    requires LengthsFit(done) && done != []
    ensures done[|done| - 1] <= 15
  {
  }

  lemma RunFits(done: seq<nat>, value: nat, count: nat)
    requires LengthsFit(done) && value <= 15
    ensures LengthsFit(done + seq(count, i => value)) && Copies(value, count) == seq(count, i => value)
  {
  }
}
