// Compressed data: the decoder reads back exactly the token streams that section 3.2.3 of RFC 1951 allows.

module InflateTokens {
  import opened Basics
  import opened BitStrings
  import opened BitReader
  import opened HuffmanCodes
  import opened Huffman
  import opened Deflate
  import opened Inflater

  lemma MatchReads(distances: seq<nat>, t: Token, s: seq<bit>, p: nat, q: nat, r: nat, end: nat)
    requires t.Match? && TokenFits(t)
    requires TakeBits(s, p, LENGTH_EXTRA[t.lengthSymbol]) == Got(t.lengthExtra, q)
    requires ReadSymbol(distances, s, q) == Got(t.distanceSymbol, r)
    requires TakeBits(s, r, DISTANCE_EXTRA[t.distanceSymbol]) == Got(t.distanceExtra, end)
    ensures ReadMatch(distances, s, p, t.lengthSymbol) == Got(t, end)
  {
    hide ReadSymbol, TakeBits, Pow2;
  }

  lemma MatchFound(distances: seq<nat>, t: Token, s: seq<bit>, p: nat)
    requires MatchEncodable(distances, t)
    requires At(s, p, MatchBits(distances, t))
    ensures ReadMatch(distances, s, p, t.lengthSymbol) == Got(t, p + |MatchBits(distances, t)|)
  {
    hide At, DecodeSpec, CanonicalTable, CodeBits, Code, TakeBits, LsbBits, ReadMatch, Pow2;
    var lengthBits, distanceBits := LENGTH_EXTRA[t.lengthSymbol], DISTANCE_EXTRA[t.distanceSymbol];
    var a, b := LsbBits(t.lengthExtra, lengthBits), CodeBits(distances, t.distanceSymbol);
    var c := LsbBits(t.distanceExtra, distanceBits);
    AtSplits(s, p, a, b + c);
    AtSplits(s, p + |a|, b, c);
    TakeInverts(s, p, t.lengthExtra, lengthBits);
    DecodeInverts(distances, t.distanceSymbol, s, p + |a|);
    TakeInverts(s, p + |a| + |b|, t.distanceExtra, distanceBits);
    MatchReads(distances, t, s, p, p + |a|, p + |a| + |b|, p + |a| + |b| + |c|);
  }

  lemma LiteralFound(codes: Codes, value: byte, s: seq<bit>, p: nat)
    requires Encodable(codes.literals, value)
    requires At(s, p, CodeBits(codes.literals, value))
    ensures ReadToken(codes, s, p) == Got(Coded(Literal(value)), p + |CodeBits(codes.literals, value)|)
  {
    hide At, DecodeSpec, CanonicalTable, CodeBits, Code, ReadMatch;
    DecodeInverts(codes.literals, value, s, p);
  }

  lemma CopyFound(codes: Codes, t: Token, s: seq<bit>, p: nat)
    requires t.Match? && t.lengthSymbol < 29
    requires MatchEncodable(codes.distances, t) && Encodable(codes.literals, 257 + t.lengthSymbol)
    requires At(s, p, CodeBits(codes.literals, 257 + t.lengthSymbol) + MatchBits(codes.distances, t))
    ensures ReadToken(codes, s, p) ==
            Got(Coded(t), p + |CodeBits(codes.literals, 257 + t.lengthSymbol)| + |MatchBits(codes.distances, t)|)
  {
    hide At, DecodeSpec, CanonicalTable, CodeBits, Code, ReadMatch, MatchBits, MatchEncodable, TokenFits, Pow2;
    var head := CodeBits(codes.literals, 257 + t.lengthSymbol);
    AtSplits(s, p, head, MatchBits(codes.distances, t));
    DecodeInverts(codes.literals, 257 + t.lengthSymbol, s, p);
    MatchFound(codes.distances, t, s, p + |head|);
  }

  lemma TokenFound(codes: Codes, t: Token, s: seq<bit>, p: nat)
    requires TokenEncodable(codes, t)
    requires At(s, p, TokenBits(codes, t))
    ensures ReadToken(codes, s, p) == Got(Coded(t), p + |TokenBits(codes, t)|)
  {
    hide At, ReadToken, CodeBits, MatchBits, Encodable;
    match t
    case Literal(value) => LiteralFound(codes, value, s, p);
    case Match(_, _, _, _) => CopyFound(codes, t, s, p);
  }

  lemma EndFound(codes: Codes, s: seq<bit>, p: nat)
    requires Encodable(codes.literals, END_OF_BLOCK)
    requires At(s, p, CodeBits(codes.literals, END_OF_BLOCK))
    ensures ReadToken(codes, s, p) == Got(EndOfBlock, p + |CodeBits(codes.literals, END_OF_BLOCK)|)
  {
    DecodeInverts(codes.literals, END_OF_BLOCK, s, p);
  }

  lemma {:induction false} TokensFound(codes: Codes, tokens: seq<Token>, s: seq<bit>, p: nat, out: seq<byte>)
    requires TokensEncodable(codes, tokens) && TokensApply(tokens, out)
    requires At(s, p, TokensBits(codes, tokens))
    ensures ReadTokens(codes, s, p, out) == Got(ApplyTokens(tokens, out), p + |TokensBits(codes, tokens)|)
    decreases |tokens|
  {
    hide At, ReadToken, TokenEncodable, TokenBits, TokenApplies, ApplyToken;
    if tokens == [] {
      EndFound(codes, s, p);
    } else {
      var head, rest := TokenBits(codes, tokens[0]), TokensBits(codes, tokens[1..]);
      AtSplits(s, p, head, rest);
      TokenFound(codes, tokens[0], s, p);
      TokensFound(codes, tokens[1..], s, p + |head|, ApplyToken(tokens[0], out));
    }
  }

  lemma MatchSound(distances: seq<nat>, s: seq<bit>, p: nat, ls: nat)
    requires ls < 29 && ReadMatch(distances, s, p, ls).Got?
    ensures var Got(t, end) := ReadMatch(distances, s, p, ls);
      && t.lengthSymbol == ls
      && MatchEncodable(distances, t)
      && At(s, p, MatchBits(distances, t))
      && end == p + |MatchBits(distances, t)|
  {
    hide At, DecodeSpec, CanonicalTable, CodeBits, Code, LsbBits, Pow2;
    var t := ReadMatch(distances, s, p, ls).value;
    var first := TakeBits(s, p, LENGTH_EXTRA[ls]);
    var middle := ReadSymbol(distances, s, first.end);
    var distanceBits := DISTANCE_EXTRA[middle.value];
    TakeSound(s, p, LENGTH_EXTRA[ls]);
    DecodeSound(distances, s, first.end);
    TakeSound(s, middle.end, distanceBits);
    var b, c := CodeBits(distances, middle.value), LsbBits(t.distanceExtra, distanceBits);
    AtSplits(s, first.end, b, c);
    AtSplits(s, p, LsbBits(first.value, LENGTH_EXTRA[ls]), b + c);
  }

  /** A token that is read is encodable and its bits are what was read; so is the end of block. */
  lemma TokenSound(codes: Codes, s: seq<bit>, p: nat)
    requires ReadToken(codes, s, p).Got?
    ensures match ReadToken(codes, s, p).value
            case EndOfBlock =>
              && Encodable(codes.literals, END_OF_BLOCK)
              && At(s, p, CodeBits(codes.literals, END_OF_BLOCK))
              && ReadToken(codes, s, p).end == p + |CodeBits(codes.literals, END_OF_BLOCK)|
            case Coded(t) =>
              && TokenEncodable(codes, t)
              && At(s, p, TokenBits(codes, t))
              && ReadToken(codes, s, p).end == p + |TokenBits(codes, t)|
  {
    hide At, DecodeSpec, CanonicalTable, CodeBits, Code, ReadMatch, MatchBits;
    DecodeSound(codes.literals, s, p);
    var Got(symbol, q) := ReadSymbol(codes.literals, s, p);
    if symbol > END_OF_BLOCK {
      MatchSound(codes.distances, s, q, symbol - 257);
      AtSplits(s, p, CodeBits(codes.literals, symbol), MatchBits(codes.distances, ReadToken(codes, s, p).value.token));
    }
  }

  lemma {:induction false} TokensSound(codes: Codes, s: seq<bit>, p: nat, out: seq<byte>) returns (tokens: seq<Token>)
    requires ReadTokens(codes, s, p, out).Got?
    ensures TokensEncodable(codes, tokens) && TokensApply(tokens, out)
    ensures At(s, p, TokensBits(codes, tokens))
    ensures ReadTokens(codes, s, p, out) == Got(ApplyTokens(tokens, out), p + |TokensBits(codes, tokens)|)
    decreases |s| - p
  {
    hide At, ReadToken, TokenEncodable, TokenBits, ApplyToken;
    TokenSound(codes, s, p);
    var Got(symbol, q) := ReadToken(codes, s, p);
    if symbol.EndOfBlock? {
      tokens := [];
    } else {
      var rest := TokensSound(codes, s, q, ApplyToken(symbol.token, out));
      tokens := [symbol.token] + rest;
      assert tokens[1..] == rest;
      AtSplits(s, p, TokenBits(codes, symbol.token), TokensBits(codes, rest));
      TokensFound(codes, tokens, s, p, out);
    }
  }
}
