// What undoing the filters gives, pixel byte by pixel byte, as section 6 of RFC 2083 prints it.

module FilterPixels {
  import opened Basics
  import opened BitReader
  import opened Filters

  // ----- the standard's predictors -----

  function Distance(a: int, b: int): nat {
    if a < b then b - a else a - b
  }

  /** Section 6.6: of the three neighbours the one nearest to left + up - upLeft, in that order on a tie. */
  function Nearest(left: nat, up: nat, upLeft: nat): nat {
    var e := left + up - upLeft;
    if Distance(e, left) <= Distance(e, up) && Distance(e, left) <= Distance(e, upLeft) then left
    else if Distance(e, up) <= Distance(e, upLeft) then up
    else upLeft
  }

  /** None, Sub, Up, Average and Paeth. */
  function Predicted(filter: nat, left: nat, up: nat, upLeft: nat): nat
    requires filter <= 4
  {
    match filter
    case 0 => 0
    case 1 => left
    case 2 => up
    case 3 => (left + up) / 2
    case 4 => Nearest(left, up, upLeft)
  }

  // ----- one row -----

  lemma PredictIs(filter: nat, row: seq<byte>, above: seq<byte>, i: nat, bpp: nat)
    requires filter <= 4 && i < |row| == |above| && bpp > 0
    ensures Predict(filter, row[..i], above, i, bpp) ==
      Predicted(filter, if i < bpp then 0 else row[i - bpp], above[i], if i < bpp then 0 else above[i - bpp])
  {
  }

  lemma RestoredAt(filter: nat, line: seq<byte>, above: seq<byte>, bpp: nat, i: nat)
    requires filter <= 4 && i < |line| == |above| && bpp > 0
    ensures var row := RestoreRow(filter, line, above, bpp, |line|);
      row[i] == (line[i] +
        Predicted(filter, if i < bpp then 0 else row[i - bpp], above[i], if i < bpp then 0 else above[i - bpp])) % 256
  {
    hide Predict, Predicted, RestoreRow;
    var row := RestoreRow(filter, line, above, bpp, |line|);
    RestoreGrows(filter, line, above, bpp, i, |line|);
    RestoreGrows(filter, line, above, bpp, i + 1, |line|);
    RestoreStep(filter, line, above, bpp, i);
    PredictIs(filter, row, above, i, bpp);
    assert row[i] == row[..i + 1][i];
  }

  // ----- whole images -----

  /** Byte `i` of row `r` of an image with `n` bytes a row, or of the row above the first. */
  function ByteOf(pixels: seq<byte>, above: seq<byte>, n: nat, r: int, i: int): byte {
    if i < 0 then 0
    else if r < 0 then (if i < |above| then above[i] else 0)
    else if r * n + i < 0 || r * n + i >= |pixels| then 0
    else pixels[r * n + i]
  }

  lemma OneRowLess(r: nat, n: nat)
    requires r > 0
    ensures r * n == (r - 1) * n + n
  {
  }

  lemma InsideImage(rows: nat, n: nat, r: nat, i: nat)
    requires r < rows && i < n
    ensures r * n + i < rows * n && r * (n + 1) + 1 + i < rows * (n + 1)
  {
    var k := rows - 1 - r;
    assert rows * n == r * n + k * n + n;
    assert rows * (n + 1) == r * (n + 1) + k * (n + 1) + (n + 1);
  }

  lemma RowBelow(row: seq<byte>, rest: seq<byte>, above: seq<byte>, n: nat, r: int, i: int)
    requires |row| == |above| == n && r >= 0 && i < n
    ensures ByteOf(row + rest, above, n, r, i) == ByteOf(rest, row, n, r - 1, i)
  {
    if r > 0 {
      OneRowLess(r, n);
    }
  }

  lemma FirstRow(row: seq<byte>, rest: seq<byte>, above: seq<byte>, n: nat, i: int)
    requires |row| == |above| == n && i < n
    ensures ByteOf(row + rest, above, n, 0, i) == if i < 0 then 0 else row[i]
    ensures ByteOf(row + rest, above, n, -1, i) == if i < 0 then 0 else above[i]
  {
    assert 0 * n == 0;
  }

  /** Byte `i` of row `r` is the data byte plus its prediction from the bytes around it. */
  ghost predicate ByteIs(raw: seq<byte>, pixels: seq<byte>, above: seq<byte>, bpp: nat, r: nat, i: nat) {
    var n := |above|;
    && r * n + i < |pixels| && r * (n + 1) + 1 + i < |raw| && raw[r * (n + 1)] <= 4
    && pixels[r * n + i] == (raw[r * (n + 1) + 1 + i] + Predicted(raw[r * (n + 1)],
         ByteOf(pixels, above, n, r, i - bpp), ByteOf(pixels, above, n, r - 1, i),
         ByteOf(pixels, above, n, r - 1, i - bpp))) % 256
  }

  lemma FirstByte(raw: seq<byte>, above: seq<byte>, bpp: nat, row: seq<byte>, rest: seq<byte>, i: nat)
    requires i < |above| < |raw| && bpp > 0 && raw[0] <= 4
    requires row == RestoreRow(raw[0], raw[1..|above| + 1], above, bpp, |above|)
    ensures ByteIs(raw, row + rest, above, bpp, 0, i)
  {
    hide RestoreRow, Predicted, ByteOf;
    var n := |above|;
    RestoredAt(raw[0], raw[1..n + 1], above, bpp, i);
    FirstRow(row, rest, above, n, i - bpp);
    FirstRow(row, rest, above, n, i);
    FirstIs(raw, row + rest, n, i);
  }

  lemma Behind(row: seq<byte>, rest: seq<byte>, n: nat, r: nat, i: nat)
    requires |row| == n && r > 0 && (r - 1) * n + i < |rest|
    ensures r * n + i < |row + rest| && (row + rest)[r * n + i] == rest[(r - 1) * n + i]
  {
    OneRowLess(r, n);
  }

  lemma LaterByte(raw: seq<byte>, above: seq<byte>, bpp: nat, row: seq<byte>, rest: seq<byte>, r: nat, i: nat)
    requires i < |above| == |row| < |raw| && r > 0 && bpp > 0
    requires ByteIs(raw[|above| + 1..], rest, row, bpp, r - 1, i)
    ensures ByteIs(raw, row + rest, above, bpp, r, i)
  {
    hide Predicted, ByteOf;
    var n := |above|;
    Behind(row, rest, n, r, i);
    Behind(raw[..n + 1], raw[n + 1..], n + 1, r, 0);
    Behind(raw[..n + 1], raw[n + 1..], n + 1, r, 1 + i);
    assert raw == raw[..n + 1] + raw[n + 1..];
    RowBelow(row, rest, above, n, r, i - bpp);
    RowAbove(row, rest, above, n, r, i);
    RowAbove(row, rest, above, n, r, i - bpp);
  }

  lemma {:induction false} ByteRestored(
      raw: seq<byte>, rows: nat, above: seq<byte>, bpp: nat, pixels: seq<byte>, r: nat, i: nat)
    requires |raw| == rows * (|above| + 1) && UnfilterRows(raw, rows, above, bpp) == Ok(pixels)
    requires r < rows && i < |above| && bpp > 0
    ensures ByteIs(raw, pixels, above, bpp, r, i)
    decreases rows
  {
    hide RestoreRow, UnfilterRows, ByteIs;
    var n := |above|;
    UnfilterTurn(raw, rows, above, bpp);
    var row := RestoreRow(raw[0], raw[1..n + 1], above, bpp, n);
    var rest := UnfilterRows(raw[n + 1..], rows - 1, row, bpp).value;
    assert pixels == row + rest;
    if r == 0 {
      FirstByte(raw, above, bpp, row, rest, i);
    } else {
      ByteRestored(raw[n + 1..], rows - 1, row, bpp, rest, r - 1, i);
      LaterByte(raw, above, bpp, row, rest, r, i);
    }
  }

  lemma FirstIs(raw: seq<byte>, pixels: seq<byte>, n: nat, i: nat)
    requires i < n && n < |raw| && i < |pixels|
    ensures 0 * n == 0 && 0 * (n + 1) == 0 && raw[1..n + 1][i] == raw[1 + i]
  {
  }

  lemma RowAbove(row: seq<byte>, rest: seq<byte>, above: seq<byte>, n: nat, r: nat, i: int)
    requires |row| == |above| == n && r > 0 && i < n
    ensures ByteOf(row + rest, above, n, r - 1, i) == ByteOf(rest, row, n, r - 2, i)
  {
    if r == 1 {
      FirstRow(row, rest, above, n, i);
    } else {
      RowBelow(row, rest, above, n, r - 1, i);
    }
  }

  lemma NothingAbove(pixels: seq<byte>, n: nat, i: int)
    ensures ByteOf(pixels, Zeros(n), n, -1, i) == 0
  {
  }

  lemma InsideIs(pixels: seq<byte>, above: seq<byte>, n: nat, r: nat, i: nat)
    requires r * n + i < |pixels|
    ensures ByteOf(pixels, above, n, r, i) == pixels[r * n + i]
  {
  }

  /** The three neighbours of a pixel byte, as places in the pixels. */
  lemma Neighbours(pixels: seq<byte>, n: nat, r: nat, i: nat, channels: nat)
    requires i < n && r * n + i < |pixels|
    ensures var at := r * n + i;
      && (i >= channels ==> at >= channels) && (r > 0 ==> at >= n) && (i >= channels && r > 0 ==> at >= n + channels)
      && ByteOf(pixels, Zeros(n), n, r, i - channels) == (if i < channels then 0 else pixels[at - channels])
      && ByteOf(pixels, Zeros(n), n, r - 1, i) == (if r == 0 then 0 else pixels[at - n])
      && ByteOf(pixels, Zeros(n), n, r - 1, i - channels) ==
         if i < channels || r == 0 then 0 else pixels[at - n - channels]
  {
    hide ByteOf;
    if i >= channels {
      InsideIs(pixels, Zeros(n), n, r, i - channels);
    } else {
      LeftEdge(pixels, Zeros(n), n, r, i - channels);
      LeftEdge(pixels, Zeros(n), n, r - 1, i - channels);
    }
    if r == 0 {
      NothingAbove(pixels, n, i);
      NothingAbove(pixels, n, i - channels);
    } else {
      OneRowLess(r, n);
      InsideIs(pixels, Zeros(n), n, r - 1, i);
      if i >= channels {
        InsideIs(pixels, Zeros(n), n, r - 1, i - channels);
      }
    }
  }

  lemma SomeChannels(width: nat, channels: nat, i: nat)
    requires i < width * channels
    ensures channels > 0
  {
  }

  lemma SpecIsRows(raw: seq<byte>, width: nat, height: nat, channels: nat, pixels: seq<byte>)
    requires UnfilterSpec(raw, width, height, channels) == Ok(pixels)
    ensures var n := width * channels;
      |raw| == height * (n + 1) && UnfilterRows(raw, height, Zeros(n), channels) == Ok(pixels)
  {
    hide UnfilterRows;
  }

  /** Every byte of every decoded image: the data byte plus, modulo 256, nothing, the pixel to the left, the pixel
      above, half their sum, or the nearest neighbour, with zeros beyond the left edge and above the first row. */
  lemma PixelBytes(raw: seq<byte>, width: nat, height: nat, channels: nat, pixels: seq<byte>, r: nat, i: nat)
    requires UnfilterSpec(raw, width, height, channels) == Ok(pixels) && r < height && i < width * channels
    ensures var n := width * channels; var at, line := r * n + i, r * (n + 1);
      && at < |pixels| && line + 1 + i < |raw| && raw[line] <= 4
      && (i >= channels ==> at >= channels) && (r > 0 ==> at >= n) && (i >= channels && r > 0 ==> at >= n + channels)
      && var left := if i < channels then 0 else pixels[at - channels];
         var up := if r == 0 then 0 else pixels[at - n];
         var upLeft := if i < channels || r == 0 then 0 else pixels[at - n - channels];
         pixels[at] == (raw[line + 1 + i] + (
           if raw[line] == 0 then 0
           else if raw[line] == 1 then left
           else if raw[line] == 2 then up
           else if raw[line] == 3 then (left + up) / 2
           else Nearest(left, up, upLeft))) % 256
  {
    hide UnfilterRows, UnfilterSpec, Nearest, ByteOf;
    var n := width * channels;
    SpecIsRows(raw, width, height, channels, pixels);
    SomeChannels(width, channels, i);
    ByteRestored(raw, height, Zeros(n), channels, pixels, r, i);
    Neighbours(pixels, n, r, i, channels);
  }

  lemma LeftEdge(pixels: seq<byte>, above: seq<byte>, n: nat, r: int, i: int)
    requires i < 0
    ensures ByteOf(pixels, above, n, r, i) == 0
  {
  }

  // ----- what is refused -----

  ghost predicate UnknownRow(raw: seq<byte>, n: nat, r: nat) {
    r * (n + 1) < |raw| && raw[r * (n + 1)] > 4
  }

  lemma UnknownBelow(raw: seq<byte>, n: nat, r: nat)
    requires n < |raw|
    ensures UnknownRow(raw[n + 1..], n, r) <==> UnknownRow(raw, n, r + 1)
  {
    OneRowLess(r + 1, n + 1);
  }

  lemma UnknownFirst(raw: seq<byte>, n: nat)
    requires n < |raw|
    ensures UnknownRow(raw, n, 0) <==> raw[0] > 4
  {
    assert 0 * (n + 1) == 0;
  }

  lemma {:induction false} RowsExact(raw: seq<byte>, rows: nat, above: seq<byte>, bpp: nat)
    requires |raw| == rows * (|above| + 1) && |above| > 0
    ensures var r := UnfilterRows(raw, rows, above, bpp);
      && (r.Err? ==> r.error == UnknownFilter)
      && (r.Err? <==> exists row: nat :: row < rows && UnknownRow(raw, |above|, row))
    decreases rows
  {
    hide UnfilterRows, UnknownRow, RestoreRow;
    if rows == 0 {
      NoRows([], above, bpp);
      assert raw == [];
    } else {
      var n := |above|;
      UnfilterTurn(raw, rows, above, bpp);
      UnknownFirst(raw, n);
      if raw[0] <= 4 {
        var row := RestoreRow(raw[0], raw[1..n + 1], above, bpp, n);
        var tail := raw[n + 1..];
        RowsExact(tail, rows - 1, row, bpp);
        if known: nat :| known < rows && UnknownRow(raw, n, known) {
          UnknownBelow(raw, n, known - 1);
          assert UnknownRow(tail, n, known - 1);
        }
        if below: nat :| below < rows - 1 && UnknownRow(tail, n, below) {
          UnknownBelow(raw, n, below);
          assert UnknownRow(raw, n, below + 1);
        }
      }
    }
  }

  /** When the rows are refused: sizes past 64 bits, too much or too little data, or a filter byte above 4 in front of a
      row that has bytes. */
  lemma RefusedExact(raw: seq<byte>, width: nat, height: nat, channels: nat)
    ensures var n, r := width * channels, UnfilterSpec(raw, width, height, channels);
      var tooLarge := n >= 18446744073709551616 || height * (n + 1) >= 18446744073709551616;
      && (r == Err(SizeOverflow) <==> tooLarge)
      && (r == Err(WrongImageSize) <==> !tooLarge && |raw| != height * (n + 1))
      && (r == Err(UnknownFilter) <==>
          !tooLarge && |raw| == height * (n + 1) && n > 0 && exists row: nat :: row < height && UnknownRow(raw, n, row))
      && (r.Err? ==> r.error in {SizeOverflow, WrongImageSize, UnknownFilter})
  {
    hide UnfilterRows, UnknownRow;
    var n := width * channels;
    if |raw| == height * (n + 1) {
      if n > 0 {
        RowsExact(raw, height, Zeros(n), channels);
      } else {
        assert Zeros(n) == [];
        EmptyRows(raw, height, channels);
      }
    }
  }
}
