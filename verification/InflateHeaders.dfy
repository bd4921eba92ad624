// Dynamic headers: the decoder reads back exactly the headers that section 3.2.7 of RFC 1951 allows.

module InflateHeaders {
  import opened Basics
  import opened BitStrings
  import opened BitReader
  import opened HuffmanCodes
  import opened Huffman
  import opened Deflate
  import opened Inflater

  // ----- run-length operations -----

  lemma OpFound(lengths: seq<nat>, op: LengthOp, s: seq<bit>, p: nat, done: seq<nat>)
    requires OpApplies(op, done) && Encodable(lengths, op.symbol)
    requires At(s, p, OpBits(lengths, op))
    ensures ReadOp(lengths, s, p, done) == Got(op, p + |OpBits(lengths, op)|)
  {
    var code, width := CodeBits(lengths, op.symbol), RunWidth(op.symbol);
    AtSplits(s, p, code, LsbBits(op.extra, width));
    DecodeInverts(lengths, op.symbol, s, p);
    TakeInverts(s, p + |code|, op.extra, width);
  }

  lemma OpSound(lengths: seq<nat>, s: seq<bit>, p: nat, done: seq<nat>)
    requires ReadOp(lengths, s, p, done).Got?
    ensures var Got(op, end) := ReadOp(lengths, s, p, done);
      && Encodable(lengths, op.symbol)
      && At(s, p, OpBits(lengths, op))
      && end == p + |OpBits(lengths, op)|
  {
    DecodeSound(lengths, s, p);
    var Got(symbol, q) := ReadSymbol(lengths, s, p);
    TakeSound(s, q, RunWidth(symbol));
    AtSplits(s, p, CodeBits(lengths, symbol), LsbBits(TakeBits(s, q, RunWidth(symbol)).value, RunWidth(symbol)));
  }

  lemma {:induction false} OpsLengthen(ops: seq<LengthOp>, done: seq<nat>)
    requires OpsApply(ops, done)
    ensures |ApplyOps(ops, done)| >= |done| + |ops|
    decreases |ops|
  {
    if ops != [] {
      OpsLengthen(ops[1..], ApplyOp(ops[0], done));
    }
  }

  lemma OpKeepsFit(op: LengthOp, done: seq<nat>)
    requires OpApplies(op, done) && LengthsFit(done)
    ensures LengthsFit(ApplyOp(op, done))
  {
  }

  lemma {:induction false} OpsFound(
      lengths: seq<nat>, ops: seq<LengthOp>, s: seq<bit>, p: nat, total: nat, done: seq<nat>)
    requires LengthsFit(done) && OpsApply(ops, done) && OpsEncodable(lengths, ops)
    requires |ApplyOps(ops, done)| == total
    requires At(s, p, OpsBits(lengths, ops))
    ensures ReadLengths(lengths, s, p, total, done) == Got(ApplyOps(ops, done), p + |OpsBits(lengths, ops)|)
    decreases |ops|
  {
    hide At, ReadOp, OpBits, Encodable, ApplyOp, LengthsFit;
    if ops != [] {
      OpsLengthen(ops, done);
      var head, rest := OpBits(lengths, ops[0]), OpsBits(lengths, ops[1..]);
      AtSplits(s, p, head, rest);
      OpFound(lengths, ops[0], s, p, done);
      OpKeepsFit(ops[0], done);
      OpsFound(lengths, ops[1..], s, p + |head|, total, ApplyOp(ops[0], done));
    }
  }

  lemma {:induction false} OpsSound(lengths: seq<nat>, s: seq<bit>, p: nat, total: nat, done: seq<nat>)
    returns (ops: seq<LengthOp>)
    requires LengthsFit(done) && ReadLengths(lengths, s, p, total, done).Got?
    requires p <= |s|
    ensures OpsApply(ops, done) && OpsEncodable(lengths, ops)
    ensures ApplyOps(ops, done) == ReadLengths(lengths, s, p, total, done).value
    ensures At(s, p, OpsBits(lengths, ops))
    ensures ReadLengths(lengths, s, p, total, done).end == p + |OpsBits(lengths, ops)|
    decreases |s| - p
  {
    hide At, ReadOp, OpBits, Encodable, ApplyOp, LengthsFit;
    if |done| >= total {
      NothingStands(s, p);
      ops := [];
    } else {
      OpSound(lengths, s, p, done);
      var Got(op, q) := ReadOp(lengths, s, p, done);
      OpKeepsFit(op, done);
      var rest := OpsSound(lengths, s, q, total, ApplyOp(op, done));
      ops := [op] + rest;
      assert ops[1..] == rest;
      AtSplits(s, p, OpBits(lengths, op), OpsBits(lengths, rest));
    }
  }

  // ----- the code-length code's own lengths -----

  /** Where each code-length symbol stands in the sending order. */
  const ORDER_PLACE: seq<nat> := [3, 17, 15, 13, 11, 9, 7, 5, 4, 6, 8, 10, 12, 14, 16, 18, 0, 1, 2]

  lemma OrderIsPermutation()
    ensures forall i :: 0 <= i < 19 ==> CODE_LENGTH_ORDER[i] < 19 && ORDER_PLACE[CODE_LENGTH_ORDER[i]] == i
    ensures forall k :: 0 <= k < 19 ==> ORDER_PLACE[k] < 19 && CODE_LENGTH_ORDER[ORDER_PLACE[k]] == k
  {
  }

  /** The lengths sent before `from` are in place, the others still zero. */
  ghost predicate SentBefore(target: seq<nat>, from: nat, lengths: seq<nat>)
    requires |target| == 19 && |lengths| == 19
  {
    forall k :: 0 <= k < 19 ==> lengths[k] == if ORDER_PLACE[k] < from then target[k] else 0
  }

  lemma CodeLengthBitsTurn(target: seq<nat>, from: nat, sent: nat)
    requires |target| == 19 && from < sent <= 19
    ensures CODE_LENGTH_ORDER[from] < 19
    ensures CodeLengthBits(target, from, sent) ==
            LsbBits(target[CODE_LENGTH_ORDER[from]], 3) + CodeLengthBits(target, from + 1, sent)
  {
    hide LsbBits;
    OrderIsPermutation();
  }

  lemma EightLengths(target: seq<nat>, sent: nat, k: nat)
    requires CodeLengthsFit(target, sent) && k < 19
    ensures |target| == 19 && target[k] < Pow2(3) && target[k] < 8
  {
    assert Pow2(3) == 8;
  }

  lemma NoMoreLengths(target: seq<nat>, s: seq<bit>, p: nat, sent: nat, lengths: seq<nat>)
    requires |target| == 19 && |lengths| == 19 && sent <= 19 && forall k :: 0 <= k < 19 ==> lengths[k] < 8
    ensures ReadCodeLengths(s, p, sent, sent, lengths) == Got(lengths, p) && CodeLengthBits(target, sent, sent) == []
  {
  }

  lemma {:induction false} CodeLengthsFound(
      target: seq<nat>, s: seq<bit>, p: nat, from: nat, sent: nat, lengths: seq<nat>)
    requires CodeLengthsFit(target, sent) && |lengths| == 19 && from <= sent <= 19
    requires forall k :: 0 <= k < 19 ==> lengths[k] < 8
    requires SentBefore(target, from, lengths)
    requires At(s, p, CodeLengthBits(target, from, sent))
    ensures ReadCodeLengths(s, p, from, sent, lengths) == Got(target, p + |CodeLengthBits(target, from, sent)|)
    decreases sent - from
  {
    hide At, LsbBits, TakeBits, SentBefore, ReadCodeLengths, CodeLengthBits;
    if from == sent {
      AllSent(target, sent, lengths);
      NoMoreLengths(target, s, p, sent, lengths);
    } else {
      CodeLengthBitsTurn(target, from, sent);
      var k := CODE_LENGTH_ORDER[from];
      EightLengths(target, sent, k);
      AtSplits(s, p, LsbBits(target[k], 3), CodeLengthBits(target, from + 1, sent));
      TakeInverts(s, p, target[k], 3);
      NextSent(target, from, lengths);
      CodeLengthsTurn(s, p, from, sent, lengths);
      CodeLengthsFound(target, s, p + 3, from + 1, sent, lengths[k := target[k]]);
    }
  }

  lemma AllSent(target: seq<nat>, sent: nat, lengths: seq<nat>)
    requires CodeLengthsFit(target, sent) && |lengths| == 19 && sent <= 19
    requires SentBefore(target, sent, lengths)
    ensures lengths == target
  {
    OrderIsPermutation();
    forall k | 0 <= k < 19 ensures lengths[k] == target[k] {
      assert CODE_LENGTH_ORDER[ORDER_PLACE[k]] == k;
    }
  }

  lemma NextSent(target: seq<nat>, from: nat, lengths: seq<nat>)
    requires |target| == 19 && |lengths| == 19 && from < 19
    requires SentBefore(target, from, lengths)
    ensures var k := CODE_LENGTH_ORDER[from]; k < 19 && SentBefore(target, from + 1, lengths[k := target[k]])
  {
    OrderIsPermutation();
  }

  lemma PlaceOfOrder(from: nat)
    requires from < 19
    ensures CODE_LENGTH_ORDER[from] < 19
    ensures forall k :: 0 <= k < 19 ==> (ORDER_PLACE[k] == from <==> k == CODE_LENGTH_ORDER[from])
  {
    OrderIsPermutation();
  }

  lemma {:induction false} CodeLengthsSound(s: seq<bit>, p: nat, from: nat, sent: nat, lengths: seq<nat>)
    requires |lengths| == 19 && from <= sent <= 19 && p <= |s|
    requires forall k :: 0 <= k < 19 ==> lengths[k] < 8
    requires ReadCodeLengths(s, p, from, sent, lengths).Got?
    ensures var Got(target, end) := ReadCodeLengths(s, p, from, sent, lengths);
      && At(s, p, CodeLengthBits(target, from, sent))
      && end == p + |CodeLengthBits(target, from, sent)|
      && forall k :: 0 <= k < 19 && !(from <= ORDER_PLACE[k] < sent) ==> target[k] == lengths[k]
    decreases sent - from
  {
    hide At, LsbBits, TakeBits, ReadCodeLengths, CodeLengthBits;
    var target := ReadCodeLengths(s, p, from, sent, lengths).value;
    if from == sent {
      NoMoreLengths(target, s, p, sent, lengths);
      NothingStands(s, p);
    } else {
      CodeLengthsTurn(s, p, from, sent, lengths);
      PlaceOfOrder(from);
      var k, length := CODE_LENGTH_ORDER[from], TakeBits(s, p, 3).value;
      assert Pow2(3) == 8;
      TakeSound(s, p, 3);
      CodeLengthsSound(s, p + 3, from + 1, sent, lengths[k := length]);
      assert target[k] == length;
      CodeLengthBitsTurn(target, from, sent);
      AtSplits(s, p, LsbBits(length, 3), CodeLengthBits(target, from + 1, sent));
    }
  }

  // ----- whole headers -----

  lemma SizesFound(sizes: Sizes, s: seq<bit>, p: nat)
    requires SizesFit(sizes)
    requires At(s, p, SizesBits(sizes))
    ensures ReadSizes(s, p) == Got(sizes, p + 14)
  {
    hide At, LsbBits;
    var a, b, c := LsbBits(sizes.literals - 257, 5), LsbBits(sizes.distances - 1, 5), LsbBits(sizes.sent - 4, 4);
    AtSplits(s, p, a, b + c);
    AtSplits(s, p + 5, b, c);
    assert Pow2(5) == 32 && Pow2(4) == 16;
    TakeInverts(s, p, sizes.literals - 257, 5);
    TakeInverts(s, p + 5, sizes.distances - 1, 5);
    TakeInverts(s, p + 10, sizes.sent - 4, 4);
  }

  lemma SizesSound(s: seq<bit>, p: nat)
    requires ReadSizes(s, p).Got?
    ensures At(s, p, SizesBits(ReadSizes(s, p).value))
  {
    hide At, LsbBits;
    var sizes := ReadSizes(s, p).value;
    TakeSound(s, p, 5);
    TakeSound(s, p + 5, 5);
    TakeSound(s, p + 10, 4);
    AtSplits(s, p + 5, LsbBits(sizes.distances - 1, 5), LsbBits(sizes.sent - 4, 4));
    AtSplits(s, p, LsbBits(sizes.literals - 257, 5), LsbBits(sizes.distances - 1, 5) + LsbBits(sizes.sent - 4, 4));
  }

  lemma HeaderFound(h: Header, s: seq<bit>, p: nat)
    requires HeaderFits(h)
    requires At(s, p, HeaderBits(h))
    ensures ReadHeader(s, p) == Got(HeaderCodes(h), p + |HeaderBits(h)|)
  {
    hide At, ReadSizes, SizesBits, ReadCodeLengths, CodeLengthBits, OpsBits, ReadLengths, OpsApply, ApplyOps,
      OpsEncodable;
    var sizes, lens := SizesBits(h.sizes), CodeLengthBits(h.codeLengths, 0, h.sizes.sent);
    var ops := OpsBits(h.codeLengths, h.ops);
    AtSplits(s, p, sizes, lens + ops);
    AtSplits(s, p + 14, lens, ops);
    SizesFound(h.sizes, s, p);
    CodeLengthsFound(h.codeLengths, s, p + 14, 0, h.sizes.sent, Copies(0, 19));
    OpsFound(h.codeLengths, h.ops, s, p + 14 + |lens|, h.sizes.literals + h.sizes.distances, []);
  }

  lemma HeaderSound(s: seq<bit>, p: nat) returns (h: Header)
    requires ReadHeader(s, p).Got?
    ensures HeaderFits(h)
    ensures At(s, p, HeaderBits(h))
    ensures ReadHeader(s, p) == Got(HeaderCodes(h), p + |HeaderBits(h)|)
  {
    hide At, ReadSizes, SizesBits, ReadCodeLengths, CodeLengthBits, OpsBits, ReadLengths, OpsApply, ApplyOps,
      OpsEncodable;
    SizesSound(s, p);
    var sizes := ReadSizes(s, p).value;
    CodeLengthsSound(s, p + 14, 0, sizes.sent, Copies(0, 19));
    var Got(codeLengths, q) := ReadCodeLengths(s, p + 14, 0, sizes.sent, Copies(0, 19));
    var ops := OpsSound(codeLengths, s, q, sizes.literals + sizes.distances, []);
    h := Header(sizes, codeLengths, ops);
    UnsentAreZero(codeLengths, sizes.sent);
    AtSplits(s, p + 14, CodeLengthBits(codeLengths, 0, sizes.sent), OpsBits(codeLengths, ops));
    AtSplits(s, p, SizesBits(sizes), CodeLengthBits(codeLengths, 0, sizes.sent) + OpsBits(codeLengths, ops));
  }

  lemma UnsentAreZero(codeLengths: seq<nat>, sent: nat)
    requires |codeLengths| == 19 && sent <= 19
    requires forall k :: 0 <= k < 19 && !(0 <= ORDER_PLACE[k] < sent) ==> codeLengths[k] == Copies(0, 19)[k]
    ensures forall i :: sent <= i < 19 ==> codeLengths[CODE_LENGTH_ORDER[i]] == 0
  {
    OrderIsPermutation();
  }
}
