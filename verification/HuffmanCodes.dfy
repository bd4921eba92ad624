// Canonical Huffman codes as section 3.2.2 of RFC 1951 defines them from a list of code lengths.

module HuffmanCodes {
  import opened Basics
  import opened BitStrings

  const MAX_LENGTH := 15

  ghost predicate LengthsFit(lengths: seq<nat>) {
    forall t :: 0 <= t < |lengths| ==> lengths[t] <= MAX_LENGTH
  }

  /** The symbols below `n` whose code has `length` bits, in symbol order. */
  ghost function Bucket(lengths: seq<nat>, n: nat, length: nat): (b: seq<nat>)
    requires n <= |lengths|
  {
    if n == 0 then []
    else if lengths[n - 1] == length then Bucket(lengths, n - 1, length) + [n - 1]
    else Bucket(lengths, n - 1, length)
  }

  ghost function Count(lengths: seq<nat>, length: nat): nat {
    |Bucket(lengths, |lengths|, length)|
  }

  /** How many earlier symbols have a code as long as `symbol`'s. */
  ghost function Rank(lengths: seq<nat>, symbol: nat): nat
    requires symbol < |lengths|
  {
    |Bucket(lengths, symbol, lengths[symbol])|
  }

  /** The first code of each length: step 2 of the algorithm in section 3.2.2. */
  ghost function First(lengths: seq<nat>, length: nat): nat {
    if length <= 1 then 0 else 2 * (First(lengths, length - 1) + Count(lengths, length - 1))
  }

  /** The code of a used symbol: step 3 of the algorithm. */
  ghost function Code(lengths: seq<nat>, symbol: nat): nat
    requires symbol < |lengths|
  {
    First(lengths, lengths[symbol]) + Rank(lengths, symbol)
  }

  /** The symbol is used and its code fits in its length. */
  ghost predicate Encodable(lengths: seq<nat>, symbol: nat) {
    && symbol < |lengths|
    && 1 <= lengths[symbol] <= MAX_LENGTH
    && Code(lengths, symbol) < Pow2(lengths[symbol])
  }

  /** The bits of a symbol's code, most significant first (section 3.1.1 of RFC 1951). */
  ghost function CodeBits(lengths: seq<nat>, symbol: nat): (bits: seq<bit>)
    requires symbol < |lengths|
    ensures |bits| == lengths[symbol]
  {
    MsbBits(Code(lengths, symbol), lengths[symbol])
  }

  /** The Kraft sum of the lengths, in units of 2^-15. */
  ghost function KraftSum(lengths: seq<nat>): nat
    requires LengthsFit(lengths)
  {
    if lengths == [] then 0
    else
      var init, last := lengths[..|lengths| - 1], lengths[|lengths| - 1];
      KraftSum(init) + if last == 0 then 0 else Pow2(MAX_LENGTH - last)
  }

  /** All used symbols with codes of at most `length` bits, shorter codes first, then by symbol. */
  ghost function ByLength(lengths: seq<nat>, n: nat, length: nat): (b: seq<nat>)
    requires n <= |lengths|
  {
    if length == 0 then [] else ByLength(lengths, n, length - 1) + Bucket(lengths, n, length)
  }

  ghost function Offset(lengths: seq<nat>, length: nat): nat
    requires length >= 1
  {
    |ByLength(lengths, |lengths|, length - 1)|
  }

  // ----- buckets, ranks and offsets -----

  lemma {:induction false} BucketSorted(lengths: seq<nat>, n: nat, length: nat)
    requires n <= |lengths|
    ensures forall k :: 0 <= k < |Bucket(lengths, n, length)| ==>
      Bucket(lengths, n, length)[k] < n && lengths[Bucket(lengths, n, length)[k]] == length
    ensures forall j, k :: 0 <= j < k < |Bucket(lengths, n, length)| ==>
      Bucket(lengths, n, length)[j] < Bucket(lengths, n, length)[k]
  {
    if n > 0 {
      BucketSorted(lengths, n - 1, length);
    }
  }

  lemma {:induction false} BucketGrows(lengths: seq<nat>, m: nat, n: nat, length: nat)
    requires m <= n <= |lengths|
    ensures Bucket(lengths, m, length) <= Bucket(lengths, n, length)
  {
    if m < n {
      BucketGrows(lengths, m, n - 1, length);
    }
  }

  /** A symbol stands at its rank in its bucket. */
  lemma RankInBucket(lengths: seq<nat>, symbol: nat)
    requires symbol < |lengths|
    ensures Rank(lengths, symbol) < Count(lengths, lengths[symbol])
    ensures Bucket(lengths, |lengths|, lengths[symbol])[Rank(lengths, symbol)] == symbol
  {
    var length := lengths[symbol];
    BucketGrows(lengths, symbol + 1, |lengths|, length);
    assert Bucket(lengths, symbol + 1, length)[Rank(lengths, symbol)] == symbol;
  }

  /** Every place of a bucket is the rank of the symbol there. */
  lemma {:induction false} BucketRank(lengths: seq<nat>, n: nat, length: nat, k: nat)
    requires n <= |lengths| && k < |Bucket(lengths, n, length)|
    ensures Bucket(lengths, n, length)[k] < n && lengths[Bucket(lengths, n, length)[k]] == length
    ensures Rank(lengths, Bucket(lengths, n, length)[k]) == k
  {
    if k < |Bucket(lengths, n - 1, length)| {
      BucketRank(lengths, n - 1, length, k);
    }
  }

  lemma {:induction false} ByLengthGrows(lengths: seq<nat>, n: nat, length: nat)
    requires n < |lengths|
    ensures |ByLength(lengths, n + 1, length)| ==
            |ByLength(lengths, n, length)| + if 1 <= lengths[n] <= length then 1 else 0
  {
    if length > 0 {
      ByLengthGrows(lengths, n, length - 1);
    }
  }

  lemma {:induction false} ByLengthFits(lengths: seq<nat>, n: nat, length: nat)
    requires n <= |lengths|
    ensures |ByLength(lengths, n, length)| <= n
  {
    if n == 0 {
      EmptyByLength(lengths, length);
    } else {
      ByLengthFits(lengths, n - 1, length);
      ByLengthGrows(lengths, n - 1, length);
    }
  }

  lemma {:induction false} EmptyByLength(lengths: seq<nat>, length: nat)
    ensures ByLength(lengths, 0, length) == []
  {
    if length > 0 {
      EmptyByLength(lengths, length - 1);
    }
  }

  lemma {:induction false} ByLengthExtends(lengths: seq<nat>, n: nat, short: nat, long: nat)
    requires n <= |lengths| && short <= long
    ensures ByLength(lengths, n, short) <= ByLength(lengths, n, long)
  {
    if short < long {
      ByLengthExtends(lengths, n, short, long - 1);
    }
  }

  /** Where a bucket lies in the sorted list of used symbols. */
  lemma BucketInByLength(lengths: seq<nat>, length: nat, top: nat)
    requires 1 <= length <= top
    ensures At(ByLength(lengths, |lengths|, top), Offset(lengths, length), Bucket(lengths, |lengths|, length))
  {
    ByLengthExtends(lengths, |lengths|, length, top);
    var upTo := ByLength(lengths, |lengths|, length);
    var base := Offset(lengths, length);
    assert upTo[base..] == Bucket(lengths, |lengths|, length);
    assert ByLength(lengths, |lengths|, top)[base..|upTo|] == upTo[base..];
  }

  /** Buckets of different lengths lie apart. */
  lemma BucketsLieApart(lengths: seq<nat>, short: nat, long: nat)
    requires 1 <= short < long
    ensures Offset(lengths, short) + Count(lengths, short) <= Offset(lengths, long)
  {
    ByLengthExtends(lengths, |lengths|, short, long - 1);
  }

  /** The list is the used symbols, each once, sorted by length and, within a length, by symbol. */
  lemma {:induction false} ByLengthSorts(lengths: seq<nat>, top: nat)
    ensures forall k :: 0 <= k < |ByLength(lengths, |lengths|, top)| ==>
      ByLength(lengths, |lengths|, top)[k] < |lengths| && 1 <= lengths[ByLength(lengths, |lengths|, top)[k]] <= top
    ensures forall j, k :: 0 <= j < k < |ByLength(lengths, |lengths|, top)| ==>
      var a, b := ByLength(lengths, |lengths|, top)[j], ByLength(lengths, |lengths|, top)[k];
      lengths[a] < lengths[b] || (lengths[a] == lengths[b] && a < b)
    ensures forall t :: 0 <= t < |lengths| && 1 <= lengths[t] <= top ==> t in ByLength(lengths, |lengths|, top)
  {
    if top > 0 {
      ByLengthSorts(lengths, top - 1);
      BucketSorted(lengths, |lengths|, top);
      forall t | 0 <= t < |lengths| && lengths[t] == top ensures t in Bucket(lengths, |lengths|, top) {
        RankInBucket(lengths, t);
      }
    }
  }

  // ----- when the codes fit -----

  lemma Doubled(scale: nat, base: nat, first: nat, count: nat)
    requires first >= scale * base
    ensures 2 * (first + count) >= (2 * scale) * base
  {
    assert (2 * scale) * base == 2 * (scale * base);
  }

  lemma FirstTurn(lengths: seq<nat>, length: nat)
    requires length > 1
    ensures First(lengths, length) == 2 * (First(lengths, length - 1) + Count(lengths, length - 1))
  {
  }

  /** First codes double at each step, so a first code bounds every shorter prefix. */
  lemma {:induction false} FirstDominates(lengths: seq<nat>, short: nat, long: nat)
    requires 1 <= short < long
    ensures First(lengths, long) >= Pow2(long - short) * (First(lengths, short) + Count(lengths, short))
    decreases long
  {
    hide First, Count;
    FirstTurn(lengths, long);
    var base := First(lengths, short) + Count(lengths, short);
    if short + 1 < long {
      FirstDominates(lengths, short, long - 1);
      Doubled(Pow2(long - 1 - short), base, First(lengths, long - 1), Count(lengths, long - 1));
    } else {
      assert Pow2(1) == 2;
    }
  }

  /** The weight of the codes of at most `length` bits, in units of 2^-length. */
  ghost function Filled(lengths: seq<nat>, length: nat): nat {
    First(lengths, length) + if length == 0 then 0 else Count(lengths, length)
  }

  lemma {:induction false} FilledGrows(init: seq<nat>, last: nat, length: nat)
    requires length >= 1
    ensures Filled(init + [last], length) ==
            Filled(init, length) + if 1 <= last <= length then Pow2(length - last) else 0
  {
    CountGrows(init, last, length);
    if length > 1 {
      FilledGrows(init, last, length - 1);
    }
  }

  lemma CountGrows(init: seq<nat>, last: nat, length: nat)
    ensures Count(init + [last], length) == Count(init, length) + if last == length then 1 else 0
  {
    BucketOfPrefix(init, [last], |init|, length);
  }

  lemma {:induction false} BucketOfPrefix(lengths: seq<nat>, more: seq<nat>, n: nat, length: nat)
    requires n <= |lengths|
    ensures Bucket(lengths + more, n, length) == Bucket(lengths, n, length)
  {
    if n > 0 {
      BucketOfPrefix(lengths, more, n - 1, length);
    }
  }

  lemma {:induction false} FilledOfNothing(length: nat)
    ensures Filled([], length) == 0
  {
    if length > 1 {
      FilledOfNothing(length - 1);
    }
  }

  lemma {:induction false} KraftIsFilled(lengths: seq<nat>)
    requires LengthsFit(lengths)
    ensures KraftSum(lengths) == Filled(lengths, MAX_LENGTH)
  {
    if lengths == [] {
      FilledOfNothing(MAX_LENGTH);
    } else {
      var init, last := lengths[..|lengths| - 1], lengths[|lengths| - 1];
      KraftIsFilled(init);
      FilledGrows(init, last, MAX_LENGTH);
      assert lengths == init + [last];
    }
  }

  lemma FilledTurn(lengths: seq<nat>, length: nat)
    requires length > 1
    ensures Filled(lengths, length) == 2 * Filled(lengths, length - 1) + Count(lengths, length)
  {
    hide Count;
  }

  lemma OneLengthMore(filled: nat, count: nat, scale: nat, base: nat)
    requires filled >= scale * base
    ensures 2 * filled + count >= 2 * scale * base
    ensures count == 0 && filled == scale * base ==> 2 * filled + count == 2 * scale * base
  {
    assert 2 * scale * base == 2 * (scale * base);
  }

  /** The weight of the shorter codes doubles with each length, and is all there is where nothing longer is in use. */
  lemma {:induction false} FilledScales(lengths: seq<nat>, short: nat, long: nat)
    requires 1 <= short <= long
    ensures Filled(lengths, long) >= Pow2(long - short) * Filled(lengths, short)
    ensures (forall l :: short < l <= long ==> Count(lengths, l) == 0) ==>
      Filled(lengths, long) == Pow2(long - short) * Filled(lengths, short)
    decreases long
  {
    hide Filled, Count;
    if short < long {
      FilledScales(lengths, short, long - 1);
      FilledTurn(lengths, long);
      OneLengthMore(Filled(lengths, long - 1), Count(lengths, long), Pow2(long - 1 - short), Filled(lengths, short));
    }
  }

  lemma CancelPow2(a: nat, b: nat, scale: nat)
    ensures Pow2(scale) * a <= Pow2(scale) * b <==> a <= b
  {
    if a > b {
      assert Pow2(scale) * a == Pow2(scale) * b + Pow2(scale) * (a - b);
      MultipleAtLeast(a - b, Pow2(scale));
    } else {
      assert Pow2(scale) * b == Pow2(scale) * a + Pow2(scale) * (b - a);
    }
  }

  /** The codes all fit exactly when the lengths are not over-subscribed. */
  lemma KraftDecidesEncodable(lengths: seq<nat>)
    requires LengthsFit(lengths)
    ensures KraftSum(lengths) <= Pow2(MAX_LENGTH) <==>
            forall t :: 0 <= t < |lengths| && lengths[t] > 0 ==> Encodable(lengths, t)
  {
    hide Bucket, First, ByLength;
    KraftIsFilled(lengths);
    if KraftSum(lengths) <= Pow2(MAX_LENGTH) {
      forall t | 0 <= t < |lengths| && lengths[t] > 0 ensures Encodable(lengths, t) {
        var length := lengths[t];
        RankInBucket(lengths, t);
        FilledScales(lengths, length, MAX_LENGTH);
        Pow2Adds(MAX_LENGTH - length, length);
        CancelPow2(Filled(lengths, length), Pow2(length), MAX_LENGTH - length);
      }
    } else {
      var t := LongestSymbol(lengths);
      var length := lengths[t];
      FilledScales(lengths, length, MAX_LENGTH);
      Pow2Adds(MAX_LENGTH - length, length);
      CancelPow2(Filled(lengths, length), Pow2(length), MAX_LENGTH - length);
      assert !Encodable(lengths, t);
    }
  }

  /** The last symbol of the longest length in use. */
  lemma LongestSymbol(lengths: seq<nat>) returns (t: nat)
    requires LengthsFit(lengths)
    requires KraftSum(lengths) > 0
    ensures t < |lengths| && lengths[t] > 0
    ensures Rank(lengths, t) == Count(lengths, lengths[t]) - 1
    ensures forall l :: lengths[t] < l <= MAX_LENGTH ==> Count(lengths, l) == 0
  {
    KraftIsFilled(lengths);
    var length: nat := MAX_LENGTH;
    while length > 0 && Count(lengths, length) == 0
      invariant length <= MAX_LENGTH
      invariant forall l :: length < l <= MAX_LENGTH ==> Count(lengths, l) == 0
    {
      length := length - 1;
    }
    if length == 0 {
      FilledScales(lengths, 1, MAX_LENGTH);
      assert false;
    }
    t := Bucket(lengths, |lengths|, length)[Count(lengths, length) - 1];
    BucketRank(lengths, |lengths|, length, Count(lengths, length) - 1);
  }
}
