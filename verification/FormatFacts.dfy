// The format definitions against RFC 1951's own tables: the fixed codes, and the reach of the
// length and distance symbols.

module FormatFacts {
  import opened Basics
  import opened HuffmanCodes
  import opened Deflate

  // ----- the table of section 3.2.6 -----

  /** The fixed literal/length code of a symbol, as the table of section 3.2.6 prints it. */
  function FixedLiteralCode(symbol: nat): nat
    requires symbol < 288
  {
    if symbol < 144 then 0x30 + symbol
    else if symbol < 256 then 0x190 + (symbol - 144)
    else if symbol < 280 then symbol - 256
    else 0xC0 + (symbol - 280)
  }

  /** How many of the first `n` fixed literal lengths are `length`. */
  function FixedCount(n: nat, length: nat): nat {
    if length == 7 then (if n <= 256 then 0 else if n <= 280 then n - 256 else 24)
    else if length == 8 then (if n <= 144 then n else if n <= 280 then 144 else n - 136)
    else if length == 9 then (if n <= 144 then 0 else if n <= 256 then n - 144 else 112)
    else 0
  }

  lemma {:induction false} FixedBuckets(n: nat, length: nat)
    requires n <= 288
    ensures |Bucket(FixedLiterals(), n, length)| == FixedCount(n, length)
  {
    if n > 0 {
      FixedBuckets(n - 1, length);
      assert FixedLiterals()[n - 1] == FixedLiteralLength(n - 1);
    }
  }

  lemma {:induction false} NoShortFixedCodes(length: nat)
    requires length <= 7
    ensures First(FixedLiterals(), length) == 0
  {
    if length > 1 {
      NoShortFixedCodes(length - 1);
      FixedBuckets(288, length - 1);
    }
  }

  /** The canonical codes of the fixed lengths are the codes of the table, and every one of them fits. */
  lemma FixedLiteralCodesAreTheTable(symbol: nat)
    requires symbol < 288
    ensures Code(FixedLiterals(), symbol) == FixedLiteralCode(symbol)
    ensures Encodable(FixedLiterals(), symbol)
  {
    var lengths := FixedLiterals();
    NoShortFixedCodes(7);
    FixedBuckets(288, 7);
    FixedBuckets(288, 8);
    assert First(lengths, 8) == 48;
    assert First(lengths, 9) == 400;
    FixedBuckets(symbol, lengths[symbol]);
    assert Pow2(7) == 128 && Pow2(8) == 256 && Pow2(9) == 512;
  }

  lemma {:induction false} FixedDistanceBuckets(n: nat, length: nat)
    requires n <= 30
    ensures |Bucket(FixedDistances(), n, length)| == if length == 5 then n else 0
  {
    if n > 0 {
      FixedDistanceBuckets(n - 1, length);
    }
  }

  lemma {:induction false} NoShortFixedDistances(length: nat)
    requires length <= 5
    ensures First(FixedDistances(), length) == 0
  {
    if length > 1 {
      NoShortFixedDistances(length - 1);
      FixedDistanceBuckets(30, length - 1);
    }
  }

  /** Fixed distance codes are the five-bit numbers themselves. */
  lemma FixedDistanceCodesAreNumbers(symbol: nat)
    requires symbol < 30
    ensures Code(FixedDistances(), symbol) == symbol
    ensures Encodable(FixedDistances(), symbol)
  {
    NoShortFixedDistances(5);
    FixedDistanceBuckets(symbol, 5);
    assert Pow2(5) == 32;
  }

  // ----- every length and distance has a symbol -----

  lemma LengthStepsMeet(ls: nat)
    requires ls < 28
    ensures LENGTH_BASE[ls] + Pow2(LENGTH_EXTRA[ls]) == if ls == 27 then 259 else LENGTH_BASE[ls + 1]
  {
    hide Pow2;
    if ls < 8 {
      SmallPower(0);
    } else {
      SmallPower(LENGTH_EXTRA[ls]);
    }
  }

  lemma DistanceStepsMeet(ds: nat)
    requires ds < 30
    ensures DISTANCE_BASE[ds] + Pow2(DISTANCE_EXTRA[ds]) == if ds == 29 then 32769 else DISTANCE_BASE[ds + 1]
  {
    if ds < 16 {
      ShortDistanceSteps(ds);
    } else {
      LongDistanceSteps(ds);
    }
  }

  lemma ShortDistanceSteps(ds: nat)
    requires ds < 16
    ensures DISTANCE_BASE[ds] + Pow2(DISTANCE_EXTRA[ds]) == DISTANCE_BASE[ds + 1]
  {
    hide Pow2;
    SmallPower(DISTANCE_EXTRA[ds]);
  }

  lemma LongDistanceSteps(ds: nat)
    requires 16 <= ds < 30
    ensures DISTANCE_BASE[ds] + Pow2(DISTANCE_EXTRA[ds]) == if ds == 29 then 32769 else DISTANCE_BASE[ds + 1]
  {
    hide Pow2;
    SmallPower(DISTANCE_EXTRA[ds]);
  }

  /** Every match of 3 to 258 bytes at distance 1 to 32768 can be written as a token. */
  lemma EveryMatchHasAToken(length: nat, distance: nat) returns (t: Token)
    requires 3 <= length <= 258 && 1 <= distance <= 32768
    ensures t.Match? && TokenFits(t) && MatchLength(t) == length && MatchDistance(t) == distance
  {
    var ls: nat := 0;
    while length >= LENGTH_BASE[ls] + Pow2(LENGTH_EXTRA[ls])
      invariant ls < 28 && LENGTH_BASE[ls] <= length
      decreases 28 - ls
    {
      LengthStepsMeet(ls);
      ls := ls + 1;
    }
    var ds: nat := 0;
    while distance >= DISTANCE_BASE[ds] + Pow2(DISTANCE_EXTRA[ds])
      invariant ds < 30 && DISTANCE_BASE[ds] <= distance
      decreases 30 - ds
    {
      DistanceStepsMeet(ds);
      ds := ds + 1;
    }
    t := Match(ls, length - LENGTH_BASE[ls], ds, distance - DISTANCE_BASE[ds]);
  }
}
