// The golden comparison: per-channel differences of two images, summed with saturation, and its verdict.

module Compare {
  import opened Basics
  import opened BitStrings
  import opened Png

  const U64_MAX := 0xFFFF_FFFF_FFFF_FFFF
  const HARD_DELTA := 32

  datatype CompareError = SizeMismatch | ShortBuffer

  datatype Diff = Diff(pixels: nat, differing: nat, hard: nat, worst: nat, total: nat)

  function Saturate(value: nat): nat {
    if value > U64_MAX then U64_MAX else value
  }

  function Max(a: nat, b: nat): nat {
    if a < b then b else a
  }

  function AbsDiff(a: byte, b: byte): (d: nat)
    ensures d < 256
  {
    if a < b then b - a else a - b
  }

  /** The buffer holds three colour channels for each of `count` pixels. */
  ghost predicate Covers(image: Image, count: nat) {
    forall i :: 0 <= i < count ==> PixelInside(image, i)
  }

  ghost predicate PixelInside(image: Image, i: nat) {
    i * image.channels + 3 <= |image.pixels|
  }

  /** The colour channels of a pixel; an alpha channel is not compared. */
  function Colours(image: Image, i: nat): (c: seq<byte>)
    requires i * image.channels + 3 <= |image.pixels|
    ensures |c| == 3
  {
    image.pixels[i * image.channels..i * image.channels + 3]
  }

  ghost function WorstOf(a: seq<byte>, b: seq<byte>, n: nat): (w: nat)
    requires n <= |a| == |b|
  {
    if n == 0 then 0 else Max(WorstOf(a, b, n - 1), AbsDiff(a[n - 1], b[n - 1]))
  }

  ghost function SumOf(a: seq<byte>, b: seq<byte>, n: nat): (sum: nat)
    requires n <= |a| == |b|
    ensures sum <= 255 * n
  {
    if n == 0 then 0 else SumOf(a, b, n - 1) + AbsDiff(a[n - 1], b[n - 1])
  }

  ghost function PixelWorst(shot: Image, golden: Image, i: nat): nat
    requires PixelInside(shot, i) && PixelInside(golden, i)
  {
    WorstOf(Colours(shot, i), Colours(golden, i), 3)
  }

  ghost function PixelSum(shot: Image, golden: Image, i: nat): (sum: nat)
    requires PixelInside(shot, i) && PixelInside(golden, i)
    ensures sum <= 765
  {
    SumOf(Colours(shot, i), Colours(golden, i), 3)
  }

  /** The pixels of the first `n` whose worst channel is over `bar`. */
  ghost function Over(shot: Image, golden: Image, n: nat, bar: nat): set<nat>
    requires Covers(shot, n) && Covers(golden, n)
  {
    set i: nat | i < n && PixelInside(shot, i) && PixelInside(golden, i) && PixelWorst(shot, golden, i) > bar
  }

  ghost function Sum(shot: Image, golden: Image, n: nat): nat
    requires Covers(shot, n) && Covers(golden, n)
  {
    if n == 0 then 0
    else
      assert PixelInside(shot, n - 1) && PixelInside(golden, n - 1);
      Sum(shot, golden, n - 1) + PixelSum(shot, golden, n - 1)
  }

  ghost function Worst(shot: Image, golden: Image, n: nat): nat
    requires Covers(shot, n) && Covers(golden, n)
  {
    if n == 0 then 0
    else
      assert PixelInside(shot, n - 1) && PixelInside(golden, n - 1);
      Max(Worst(shot, golden, n - 1), PixelWorst(shot, golden, n - 1))
  }

  /** Sizes must agree; then the figures are the pixel counts, the worst delta and the saturated sum. */
  ghost function CompareSpec(shot: Image, golden: Image): Result<Diff, CompareError> {
    var count := shot.width * shot.height;
    if shot.width != golden.width || shot.height != golden.height then Err(SizeMismatch)
    else if !Covers(shot, count) || !Covers(golden, count) then Err(ShortBuffer)
    else
      Ok(Diff(count, |Over(shot, golden, count, 0)|, |Over(shot, golden, count, HARD_DELTA)|,
              Worst(shot, golden, count), Saturate(Sum(shot, golden, count))))
  }

  lemma OverGrows(shot: Image, golden: Image, n: nat, bar: nat)
    requires Covers(shot, n + 1) && Covers(golden, n + 1)
    ensures PixelInside(shot, n) && PixelInside(golden, n)
    ensures |Over(shot, golden, n + 1, bar)| ==
            |Over(shot, golden, n, bar)| + if PixelWorst(shot, golden, n) > bar then 1 else 0
  {
    hide PixelInside, PixelWorst;
    assert PixelInside(shot, n) && PixelInside(golden, n);
    var before, after := Over(shot, golden, n, bar), Over(shot, golden, n + 1, bar);
    if PixelWorst(shot, golden, n) > bar {
      assert after == before + {n};
    } else {
      assert after == before;
    }
  }

  // ----- the loops -----

  /** One pixel's channels, added to `start` with saturation. */
  method ComparePixel(left: seq<byte>, right: seq<byte>, start: nat) returns (worst: nat, total: nat)
    requires |left| == |right| == 3 && start <= U64_MAX
    ensures worst == WorstOf(left, right, 3)
    ensures total == Saturate(start + SumOf(left, right, 3))
  {
    worst, total := 0, start;
    for channel := 0 to 3
      invariant worst == WorstOf(left, right, channel)
      invariant total == Saturate(start + SumOf(left, right, channel))
    {
      var delta := AbsDiff(left[channel], right[channel]);
      total := Saturate(total + delta);
      worst := Max(worst, delta);
    }
  }

  method CompareImages(shot: Image, golden: Image) returns (r: Result<Diff, CompareError>)
    ensures r == CompareSpec(shot, golden)
  {
    hide Over, PixelWorst, WorstOf, SumOf;
    if shot.width != golden.width || shot.height != golden.height {
      return Err(SizeMismatch);
    }
    var pixels := shot.width * shot.height;
    var total, differing, hard, worst := 0, 0, 0, 0;
    NothingOver(shot, golden);
    for index := 0 to pixels
      invariant Covers(shot, index) && Covers(golden, index)
      invariant total == Saturate(Sum(shot, golden, index)) && worst == Worst(shot, golden, index)
      invariant differing == |Over(shot, golden, index, 0)| && hard == |Over(shot, golden, index, HARD_DELTA)|
    {
      if index * shot.channels + 3 > |shot.pixels| || index * golden.channels + 3 > |golden.pixels| {
        assert !PixelInside(shot, index) || !PixelInside(golden, index);
        return Err(ShortBuffer);
      }
      var pixelWorst;
      ghost var before := total;
      pixelWorst, total := ComparePixel(Colours(shot, index), Colours(golden, index), total);
      assert pixelWorst == PixelWorst(shot, golden, index) by {
        PixelWorstIs(shot, golden, index);
      }
      OverGrows(shot, golden, index, 0);
      OverGrows(shot, golden, index, HARD_DELTA);
      if pixelWorst > 0 {
        differing := differing + 1;
      }
      if pixelWorst > HARD_DELTA {
        hard := hard + 1;
      }
      worst := Max(worst, pixelWorst);
    }
    r := Ok(Diff(pixels, differing, hard, worst, total));
  }

  lemma PixelWorstIs(shot: Image, golden: Image, i: nat)
    requires PixelInside(shot, i) && PixelInside(golden, i)
    ensures PixelWorst(shot, golden, i) == WorstOf(Colours(shot, i), Colours(golden, i), 3)
  {
  }

  lemma NothingOver(shot: Image, golden: Image)
    ensures Over(shot, golden, 0, 0) == {} && Over(shot, golden, 0, HARD_DELTA) == {}
  {
  }

  /** The verdict cross-multiplies, so nothing is rounded towards a pass. */
  function Check(d: Diff, maxMeanThousandths: nat, maxHardPpm: nat): bool {
    && Saturate(d.total * 1000) <= Saturate(maxMeanThousandths * Saturate(d.pixels * 3))
    && Saturate(d.hard * 1_000_000) <= Saturate(maxHardPpm * d.pixels)
  }

  // ----- what the figures mean -----

  lemma WorstOfBounds(a: seq<byte>, b: seq<byte>, n: nat, bar: nat)
    requires n <= |a| == |b|
    ensures WorstOf(a, b, n) <= bar <==> forall c :: 0 <= c < n ==> AbsDiff(a[c], b[c]) <= bar
  {
  }

  /** Every colour channel of every one of the first `n` pixels is within `bar`. */
  ghost predicate Within(shot: Image, golden: Image, n: nat, bar: nat)
    requires Covers(shot, n) && Covers(golden, n)
  {
    forall i, c :: 0 <= i < n && 0 <= c < 3 && PixelInside(shot, i) && PixelInside(golden, i) ==>
      AbsDiff(Colours(shot, i)[c], Colours(golden, i)[c]) <= bar
  }

  lemma NoneOverIffWithin(shot: Image, golden: Image, n: nat, bar: nat)
    requires Covers(shot, n) && Covers(golden, n)
    ensures Over(shot, golden, n, bar) == {} <==> Within(shot, golden, n, bar)
  {
    forall i: nat | i < n && PixelInside(shot, i) && PixelInside(golden, i)
      ensures i !in Over(shot, golden, n, bar) <==>
              forall c :: 0 <= c < 3 ==> AbsDiff(Colours(shot, i)[c], Colours(golden, i)[c]) <= bar
    {
      WorstOfBounds(Colours(shot, i), Colours(golden, i), 3, bar);
    }
  }

  lemma FactorAtLeast(limit: nat, v: nat)
    requires limit > 0
    ensures limit * v >= v
  {
  }

  /** A limit saturates away only where the side it is compared with would pass a word. */
  lemma LimitHolds(value: nat, scale: nat, limit: nat, size: nat)
    requires scale > 0
    ensures Saturate(Saturate(value) * scale) <= Saturate(limit * Saturate(size)) <==>
      scale * value <= limit * size || limit * size >= U64_MAX
  {
    if limit > 0 {
      FactorAtLeast(limit, Saturate(size));
      FactorAtLeast(limit, size);
    }
    FactorAtLeast(scale, Saturate(value));
    FactorAtLeast(scale, value);
  }

  /** What a comparison is let through on, whatever the limits: a mean and a share of hard pixels no larger than they
      say, except that a limit whose side of the comparison reaches the largest word lets anything through. */
  lemma CheckExact(shot: Image, golden: Image, maxMeanThousandths: nat, maxHardPpm: nat)
    requires CompareSpec(shot, golden).Ok?
    ensures var count := shot.width * shot.height;
      var mean, hard := maxMeanThousandths * (3 * count), maxHardPpm * count;
      Check(CompareSpec(shot, golden).value, maxMeanThousandths, maxHardPpm) <==>
        && (1000 * Sum(shot, golden, count) <= mean || mean >= U64_MAX)
        && (1_000_000 * |Over(shot, golden, count, HARD_DELTA)| <= hard || hard >= U64_MAX)
  {
    hide Over, Sum, Within, Worst, Covers;
    var count := shot.width * shot.height;
    LimitHolds(Sum(shot, golden, count), 1000, maxMeanThousandths, 3 * count);
    HardHolds(|Over(shot, golden, count, HARD_DELTA)|, maxHardPpm * count);
  }

  lemma HardHolds(hard: nat, limit: nat)
    ensures Saturate(hard * 1_000_000) <= Saturate(limit) <==> 1_000_000 * hard <= limit || limit >= U64_MAX
  {
  }

  /** The shipped limits, four thousandths and no hard pixel, accept exactly the images that keep both promises. */
  lemma ShippedLimits(shot: Image, golden: Image)
    requires CompareSpec(shot, golden).Ok?
    ensures var count := shot.width * shot.height;
      Check(CompareSpec(shot, golden).value, 4, 0) <==>
        && Within(shot, golden, count, HARD_DELTA)
        && (1000 * Sum(shot, golden, count) <= 12 * count || 12 * count >= U64_MAX)
  {
    hide Over, Sum, Within, Worst, Covers, Check;
    var count := shot.width * shot.height;
    NoneOverIffWithin(shot, golden, count, HARD_DELTA);
    CheckExact(shot, golden, 4, 0);
  }

  lemma {:induction false} SwappedOf(a: seq<byte>, b: seq<byte>, n: nat)
    requires n <= |a| == |b|
    ensures WorstOf(a, b, n) == WorstOf(b, a, n) && SumOf(a, b, n) == SumOf(b, a, n)
  {
    if n > 0 {
      SwappedOf(a, b, n - 1);
    }
  }

  lemma {:induction false} SwappedUpTo(shot: Image, golden: Image, n: nat)
    requires Covers(shot, n) && Covers(golden, n)
    ensures Sum(shot, golden, n) == Sum(golden, shot, n) && Worst(shot, golden, n) == Worst(golden, shot, n)
    ensures forall bar :: Over(shot, golden, n, bar) == Over(golden, shot, n, bar)
  {
    forall i: nat | i < n && PixelInside(shot, i) && PixelInside(golden, i)
      ensures PixelWorst(shot, golden, i) == PixelWorst(golden, shot, i)
      ensures PixelSum(shot, golden, i) == PixelSum(golden, shot, i)
    {
      SwappedOf(Colours(shot, i), Colours(golden, i), 3);
    }
    if n > 0 {
      SwappedUpTo(shot, golden, n - 1);
      assert PixelInside(shot, n - 1) && PixelInside(golden, n - 1);
    }
  }

  /** Comparing is symmetric: swapping the images changes no figure, error or verdict. */
  lemma CompareIsSymmetric(shot: Image, golden: Image)
    ensures CompareSpec(shot, golden) == CompareSpec(golden, shot)
  {
    var count := shot.width * shot.height;
    if CompareSpec(shot, golden).Ok? {
      SwappedUpTo(shot, golden, count);
    }
  }

  lemma PixelFits(i: nat, count: nat, channels: nat)
    requires i < count && channels >= 3
    ensures i * channels + 3 <= count * channels
  {
    assert count * channels == i * channels + (count - i) * channels;
    assert (count - i) * channels >= channels by {
      MultipleAtLeast(count - i, channels);
    }
  }

  /** Two decoded images of one size always compare: their buffers are never short. */
  lemma DecodedImagesCompare(a: seq<byte>, b: seq<byte>)
    requires DecodeSpec(a).Ok? && DecodeSpec(b).Ok?
    requires DecodeSpec(a).value.width == DecodeSpec(b).value.width
    requires DecodeSpec(a).value.height == DecodeSpec(b).value.height
    ensures CompareSpec(DecodeSpec(a).value, DecodeSpec(b).value).Ok?
  {
    hide DecodeSpec, Over, Sum, Worst;
    var shot, golden := DecodeSpec(a).value, DecodeSpec(b).value;
    var count := shot.width * shot.height;
    DecodedIsWellFormed(a);
    DecodedIsWellFormed(b);
    WholeImageCovers(shot);
    WholeImageCovers(golden);
  }

  lemma WholeImageCovers(image: Image)
    requires image.channels >= 3 && |image.pixels| == image.height * (image.width * image.channels)
    ensures Covers(image, image.width * image.height)
  {
    var count := image.width * image.height;
    assert |image.pixels| == count * image.channels;
    forall i: nat | i < count ensures PixelInside(image, i) {
      PixelFits(i, count, image.channels);
    }
  }
}
