// The figures of a comparison told from the two pixel buffers, byte by byte.

module CompareFigures {
  import opened Basics
  import opened Png
  import opened Compare

  /** The larger of two bytes less the smaller. */
  function Gap(a: int, b: int): nat {
    if a < b then b - a else a - b
  }

  /** Both buffers hold the three colour bytes of the first `n` pixels. */
  ghost predicate Hold(shot: Image, golden: Image, n: nat) {
    forall i: nat :: i < n ==> i * shot.channels + 3 <= |shot.pixels| && i * golden.channels + 3 <= |golden.pixels|
  }

  ghost function GapAt(shot: Image, golden: Image, i: nat, c: nat): nat {
    var p, q := i * shot.channels + c, i * golden.channels + c;
    if p < |shot.pixels| && q < |golden.pixels| then Gap(shot.pixels[p], golden.pixels[q]) else 0
  }

  /** The gaps of all colour bytes of the first `n` pixels, added up. */
  ghost function Total(shot: Image, golden: Image, n: nat): nat {
    if n == 0 then 0
    else
      Total(shot, golden, n - 1) +
      GapAt(shot, golden, n - 1, 0) + GapAt(shot, golden, n - 1, 1) + GapAt(shot, golden, n - 1, 2)
  }

  /** Some colour byte of the pixel is apart by more than `bar`. */
  ghost predicate Apart(shot: Image, golden: Image, i: nat, bar: nat) {
    exists c: nat :: c < 3 && GapAt(shot, golden, i, c) > bar
  }

  // ----- one pixel -----

  lemma HoldIsCovers(shot: Image, golden: Image, n: nat)
    ensures Hold(shot, golden, n) <==> Covers(shot, n) && Covers(golden, n)
  {
    if Covers(shot, n) && Covers(golden, n) {
      forall i: nat | i < n
        ensures i * shot.channels + 3 <= |shot.pixels| && i * golden.channels + 3 <= |golden.pixels|
      {
        assert PixelInside(shot, i) && PixelInside(golden, i);
      }
    }
  }

  lemma ColourGap(shot: Image, golden: Image, i: nat, c: nat)
    requires PixelInside(shot, i) && PixelInside(golden, i) && c < 3
    ensures AbsDiff(Colours(shot, i)[c], Colours(golden, i)[c]) == GapAt(shot, golden, i, c)
  {
  }

  lemma PixelIs(shot: Image, golden: Image, i: nat)
    requires PixelInside(shot, i) && PixelInside(golden, i)
    ensures PixelSum(shot, golden, i) ==
      GapAt(shot, golden, i, 0) + GapAt(shot, golden, i, 1) + GapAt(shot, golden, i, 2)
    ensures forall c: nat :: c < 3 ==> GapAt(shot, golden, i, c) <= PixelWorst(shot, golden, i)
    ensures exists c: nat :: c < 3 && GapAt(shot, golden, i, c) == PixelWorst(shot, golden, i)
  {
    hide GapAt, AbsDiff, Colours;
    var a, b := Colours(shot, i), Colours(golden, i);
    ColourGap(shot, golden, i, 0);
    ColourGap(shot, golden, i, 1);
    ColourGap(shot, golden, i, 2);
    ThreeOf(a, b);
    assert GapAt(shot, golden, i, 0) == AbsDiff(a[0], b[0]);
    assert GapAt(shot, golden, i, 1) == AbsDiff(a[1], b[1]);
    assert GapAt(shot, golden, i, 2) == AbsDiff(a[2], b[2]);
  }

  lemma ThreeOf(a: seq<byte>, b: seq<byte>)
    requires |a| == |b| == 3
    ensures SumOf(a, b, 3) == AbsDiff(a[0], b[0]) + AbsDiff(a[1], b[1]) + AbsDiff(a[2], b[2])
    ensures var w := WorstOf(a, b, 3);
      && AbsDiff(a[0], b[0]) <= w && AbsDiff(a[1], b[1]) <= w && AbsDiff(a[2], b[2]) <= w
      && (w == AbsDiff(a[0], b[0]) || w == AbsDiff(a[1], b[1]) || w == AbsDiff(a[2], b[2]))
  {
    hide AbsDiff;
    assert SumOf(a, b, 1) == AbsDiff(a[0], b[0]);
    assert SumOf(a, b, 2) == SumOf(a, b, 1) + AbsDiff(a[1], b[1]);
    assert WorstOf(a, b, 1) == AbsDiff(a[0], b[0]);
    assert WorstOf(a, b, 2) == Max(WorstOf(a, b, 1), AbsDiff(a[1], b[1]));
  }

  lemma ApartIs(shot: Image, golden: Image, i: nat, bar: nat)
    requires PixelInside(shot, i) && PixelInside(golden, i)
    ensures PixelWorst(shot, golden, i) > bar <==> Apart(shot, golden, i, bar)
  {
    hide GapAt, PixelSum, PixelWorst;
    PixelIs(shot, golden, i);
  }

  // ----- whole images -----

  lemma {:induction false} SumIsTotal(shot: Image, golden: Image, n: nat)
    requires Covers(shot, n) && Covers(golden, n)
    ensures Sum(shot, golden, n) == Total(shot, golden, n)
  {
    hide GapAt, PixelSum, PixelWorst, PixelInside;
    if n > 0 {
      SumIsTotal(shot, golden, n - 1);
      assert PixelInside(shot, n - 1) && PixelInside(golden, n - 1);
      PixelIs(shot, golden, n - 1);
    }
  }

  lemma {:induction false} WorstIs(shot: Image, golden: Image, n: nat)
    requires Covers(shot, n) && Covers(golden, n)
    ensures forall i: nat, c: nat :: i < n && c < 3 ==> GapAt(shot, golden, i, c) <= Worst(shot, golden, n)
    ensures Worst(shot, golden, n) == 0 ||
      exists i: nat, c: nat :: i < n && c < 3 && GapAt(shot, golden, i, c) == Worst(shot, golden, n)
  {
    hide GapAt, PixelSum, PixelWorst, PixelInside;
    if n > 0 {
      WorstIs(shot, golden, n - 1);
      assert PixelInside(shot, n - 1) && PixelInside(golden, n - 1);
      PixelIs(shot, golden, n - 1);
      if PixelWorst(shot, golden, n - 1) == Worst(shot, golden, n) {
        var c: nat :| c < 3 && GapAt(shot, golden, n - 1, c) == PixelWorst(shot, golden, n - 1);
      }
    }
  }

  lemma OverIs(shot: Image, golden: Image, n: nat, bar: nat)
    requires Covers(shot, n) && Covers(golden, n)
    ensures Over(shot, golden, n, bar) == set i: nat | i < n && Apart(shot, golden, i, bar)
  {
    hide Apart, PixelWorst, PixelInside;
    forall i: nat | i < n ensures i in Over(shot, golden, n, bar) <==> Apart(shot, golden, i, bar) {
      assert PixelInside(shot, i) && PixelInside(golden, i);
      ApartIs(shot, golden, i, bar);
    }
  }

  /** When images compare, and every figure from their bytes: the pixels that differ anywhere, those with a colour byte
      more than 32 apart, the largest gap of all, and the sum of all gaps up to the largest 64-bit word. */
  lemma FiguresExact(shot: Image, golden: Image)
    ensures var count := shot.width * shot.height;
      match CompareSpec(shot, golden)
      case Err(SizeMismatch) => shot.width != golden.width || shot.height != golden.height
      case Err(ShortBuffer) =>
        shot.width == golden.width && shot.height == golden.height && !Hold(shot, golden, count)
      case Ok(d) =>
        && shot.width == golden.width && shot.height == golden.height && Hold(shot, golden, count)
        && d.pixels == count
        && d.differing == |set i: nat | i < count && Apart(shot, golden, i, 0)|
        && d.hard == |set i: nat | i < count && Apart(shot, golden, i, 32)|
        && (forall i: nat, c: nat :: i < count && c < 3 ==> GapAt(shot, golden, i, c) <= d.worst)
        && (d.worst == 0 || exists i: nat, c: nat :: i < count && c < 3 && GapAt(shot, golden, i, c) == d.worst)
        && d.total == if Total(shot, golden, count) > 0xFFFF_FFFF_FFFF_FFFF then 0xFFFF_FFFF_FFFF_FFFF
                      else Total(shot, golden, count)
  {
    hide Apart, GapAt, Over, Worst, Sum, Covers, Hold, Total;
    var count := shot.width * shot.height;
    HoldIsCovers(shot, golden, count);
    if Covers(shot, count) && Covers(golden, count) {
      OverIs(shot, golden, count, 0);
      OverIs(shot, golden, count, 32);
      WorstIs(shot, golden, count);
      SumIsTotal(shot, golden, count);
    }
  }

  /** The verdict for any limits, from the bytes. */
  lemma VerdictExact(shot: Image, golden: Image, maxMeanThousandths: nat, maxHardPpm: nat)
    requires CompareSpec(shot, golden).Ok?
    ensures var count := shot.width * shot.height;
      var hard := |set i: nat | i < count && Apart(shot, golden, i, 32)|;
      Check(CompareSpec(shot, golden).value, maxMeanThousandths, maxHardPpm) <==>
        && (1000 * Total(shot, golden, count) <= maxMeanThousandths * (3 * count) ||
            maxMeanThousandths * (3 * count) >= 0xFFFF_FFFF_FFFF_FFFF)
        && (1_000_000 * hard <= maxHardPpm * count || maxHardPpm * count >= 0xFFFF_FFFF_FFFF_FFFF)
  {
    hide Apart, GapAt, Over, Worst, Sum, Total, Check;
    var count := shot.width * shot.height;
    CheckExact(shot, golden, maxMeanThousandths, maxHardPpm);
    OverIs(shot, golden, count, 32);
    SumIsTotal(shot, golden, count);
  }

  lemma {:induction false} TotalIsNought(shot: Image, golden: Image, n: nat)
    requires forall i: nat, c: nat :: i < n && c < 3 ==> GapAt(shot, golden, i, c) == 0
    ensures Total(shot, golden, n) == 0
  {
    hide GapAt;
    if n > 0 {
      TotalIsNought(shot, golden, n - 1);
      assert GapAt(shot, golden, n - 1, 0) == 0 && GapAt(shot, golden, n - 1, 1) == 0;
      assert GapAt(shot, golden, n - 1, 2) == 0;
    }
  }

  ghost predicate SameColours(shot: Image, golden: Image, n: nat) {
    forall i: nat, c: nat :: i < n && c < 3 ==> GapAt(shot, golden, i, c) == 0
  }

  /** Images with the same colour bytes differ nowhere, and only they. */
  lemma SameBytesExact(shot: Image, golden: Image)
    requires CompareSpec(shot, golden).Ok?
    ensures var count, d := shot.width * shot.height, CompareSpec(shot, golden).value;
      && (SameColours(shot, golden, count) ==> d == Diff(count, 0, 0, 0, 0))
      && (d.differing == 0 ==> SameColours(shot, golden, count))
  {
    hide GapAt, Total, Hold, CompareSpec;
    var count, d := shot.width * shot.height, CompareSpec(shot, golden).value;
    FiguresExact(shot, golden);
    if SameColours(shot, golden, count) {
      assert (set i: nat | i < count && Apart(shot, golden, i, 0)) == {};
      assert (set i: nat | i < count && Apart(shot, golden, i, 32)) == {};
      TotalIsNought(shot, golden, count);
    }
    if d.differing == 0 {
      var differing := set i: nat | i < count && Apart(shot, golden, i, 0);
      assert differing == {};
      forall i: nat, c: nat | i < count && c < 3 ensures GapAt(shot, golden, i, c) == 0 {
        assert i !in differing;
      }
    }
  }
}
