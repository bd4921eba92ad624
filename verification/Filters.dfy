// The five PNG row filters (section 6 of RFC 2083) and the loop that reverses them.

module Filters {
  import opened Basics
  import opened BitReader

  /** Sizes are computed in 64-bit words; the products that could overflow are checked. */
  const USIZE_LIMIT := 0x1_0000_0000_0000_0000

  function Abs(x: int): nat {
    if x < 0 then -x else x
  }

  function Paeth(left: int, above: int, aboveLeft: int): (r: int)
    ensures r == left || r == above || r == aboveLeft
  {
    var estimate := left + above - aboveLeft;
    var da, db, dc := Abs(estimate - left), Abs(estimate - above), Abs(estimate - aboveLeft);
    if da <= db && da <= dc then left else if db <= dc then above else aboveLeft
  }

  /** Section 6.6: the predictor is the neighbour nearest left + above - aboveLeft; ties go to left, then above. */
  lemma PaethIsNearest(left: int, above: int, aboveLeft: int)
    ensures var e, r := left + above - aboveLeft, Paeth(left, above, aboveLeft);
      && Abs(e - r) <= Abs(e - left) && Abs(e - r) <= Abs(e - above) && Abs(e - r) <= Abs(e - aboveLeft)
      && (r != left ==> Abs(e - r) < Abs(e - left))
      && (r != left && r != above ==> Abs(e - r) < Abs(e - above))
  {
  }

  /** The byte `distance` places before `i` in a row, zero off its left edge. */
  function Before(row: seq<byte>, i: nat, distance: nat): byte
    requires i <= |row| + distance
  {
    if distance == 0 || i < distance || i - distance >= |row| then 0 else row[i - distance]
  }

  /** What filter `filter` predicts for byte `i` from the bytes before it and the row above. */
  function Predict(filter: nat, done: seq<byte>, above: seq<byte>, i: nat, bpp: nat): (r: nat)
    requires i <= |done| && i < |above|
  {
    match filter
    case 1 => Before(done, i, bpp)
    case 2 => above[i]
    case 3 => (Before(done, i, bpp) + above[i] as int) / 2
    case 4 => Paeth(Before(done, i, bpp), above[i], Before(above, i, bpp))
    case _ => 0
  }

  /** Filtering a row: each byte less its prediction, modulo 256. */
  function FilterRow(filter: nat, row: seq<byte>, above: seq<byte>, bpp: nat): (line: seq<byte>)
    requires |row| == |above|
    ensures |line| == |row|
  {
    seq(|row|, i requires 0 <= i < |row| => (row[i] - Predict(filter, row, above, i, bpp)) % 256)
  }

  /** The first `n` bytes of the row that `line` was filtered from. */
  function RestoreRow(filter: nat, line: seq<byte>, above: seq<byte>, bpp: nat, n: nat): (row: seq<byte>)
    requires n <= |line| == |above|
    ensures |row| == n
  {
    if n == 0 then []
    else
      var done := RestoreRow(filter, line, above, bpp, n - 1);
      done + [(line[n - 1] + Predict(filter, done, above, n - 1, bpp)) % 256]
  }

  lemma PredictLooksBack(filter: nat, row: seq<byte>, above: seq<byte>, i: nat, bpp: nat)
    requires i < |row| == |above| && bpp > 0
    ensures Predict(filter, row[..i], above, i, bpp) == Predict(filter, row, above, i, bpp)
  {
  }

  lemma DifferenceAddsBack(x: byte, p: nat)
    ensures ((x - p) % 256 + p) % 256 == x
  {
  }

  lemma {:induction false} RestoreInverts(filter: nat, row: seq<byte>, above: seq<byte>, bpp: nat, n: nat)
    requires n <= |row| == |above| && bpp > 0
    ensures RestoreRow(filter, FilterRow(filter, row, above, bpp), above, bpp, n) == row[..n]
  {
    hide Predict, RestoreRow;
    var line := FilterRow(filter, row, above, bpp);
    if n == 0 {
      NoBytesYet(filter, line, above, bpp);
    } else {
      RestoreInverts(filter, row, above, bpp, n - 1);
      RestoreStep(filter, line, above, bpp, n - 1);
      PredictLooksBack(filter, row, above, n - 1, bpp);
      DifferenceAddsBack(row[n - 1], Predict(filter, row, above, n - 1, bpp));
      assert row[..n] == row[..n - 1] + [row[n - 1]];
    }
  }

  lemma {:induction false} RestoreGrows(filter: nat, line: seq<byte>, above: seq<byte>, bpp: nat, m: nat, n: nat)
    requires m <= n <= |line| == |above|
    ensures RestoreRow(filter, line, above, bpp, n)[..m] == RestoreRow(filter, line, above, bpp, m)
  {
    if m < n {
      RestoreGrows(filter, line, above, bpp, m, n - 1);
    }
  }

  lemma NoBytesYet(filter: nat, line: seq<byte>, above: seq<byte>, bpp: nat)
    requires |line| == |above|
    ensures RestoreRow(filter, line, above, bpp, 0) == []
  {
  }

  lemma RestoreStep(filter: nat, line: seq<byte>, above: seq<byte>, bpp: nat, n: nat)
    requires n < |line| == |above|
    ensures var done := RestoreRow(filter, line, above, bpp, n);
      RestoreRow(filter, line, above, bpp, n + 1)
      == done + [(line[n] + Predict(filter, done, above, n, bpp)) % 256]
  {
  }

  lemma FilterInverts(filter: nat, line: seq<byte>, above: seq<byte>, bpp: nat)
    requires |line| == |above| && bpp > 0
    ensures FilterRow(filter, RestoreRow(filter, line, above, bpp, |line|), above, bpp) == line
  {
    hide Predict, RestoreRow;
    var row := RestoreRow(filter, line, above, bpp, |line|);
    forall i | 0 <= i < |line| ensures FilterRow(filter, row, above, bpp)[i] == line[i] {
      RestoreGrows(filter, line, above, bpp, i, |line|);
      RestoreGrows(filter, line, above, bpp, i + 1, |line|);
      PredictLooksBack(filter, row, above, i, bpp);
      RestoreStep(filter, line, above, bpp, i);
      assert row[i] == row[..i + 1][i];
    }
  }

  // ----- whole images -----

  function Zeros(n: nat): (r: seq<byte>)
    ensures |r| == n
  {
    seq(n, _ => 0)
  }

  lemma RowFits(rows: nat, stride: nat, size: nat)
    requires rows > 0 && size == rows * stride
    ensures stride <= size && size - stride == (rows - 1) * stride
    ensures rows * (stride + 1) == 1 + stride + (rows - 1) * (stride + 1)
  {
  }

  /** Each row behind its filter byte; `filters` picks one filter a row. */
  ghost function FilterRows(filters: seq<byte>, pixels: seq<byte>, above: seq<byte>, bpp: nat): (raw: seq<byte>)
    requires |pixels| == |filters| * |above|
    decreases |filters|
  {
    if filters == [] then []
    else
      RowFits(|filters|, |above|, |pixels|);
      var row := pixels[..|above|];
      [filters[0]] + (FilterRow(filters[0], row, above, bpp) + FilterRows(filters[1..], pixels[|above|..], row, bpp))
  }

  ghost function UnfilterRows(raw: seq<byte>, rows: nat, above: seq<byte>, bpp: nat): (r: Result<seq<byte>, PngError>)
    requires |raw| == rows * (|above| + 1)
    ensures r.Ok? ==> |r.value| == rows * |above|
    decreases rows
  {
    if rows == 0 then Ok([])
    else
      RowFits(rows, |above| + 1, |raw|);
      RowFits(rows, |above|, rows * |above|);
      if raw[0] > 4 && |above| > 0 then Err(UnknownFilter)
      else
        var row := RestoreRow(raw[0], raw[1..|above| + 1], above, bpp, |above|);
        Prepend(row, UnfilterRows(raw[|above| + 1..], rows - 1, row, bpp))
  }

  lemma RowParts(filter: byte, row: seq<byte>, rest: seq<byte>)
    ensures var raw := [filter] + (row + rest);
      raw[0] == filter && raw[1..|row| + 1] == row && raw[|row| + 1..] == rest
  {
  }

  lemma FilterTurn(filters: seq<byte>, pixels: seq<byte>, above: seq<byte>, bpp: nat)
    requires |pixels| == |filters| * |above| && filters != []
    ensures |above| <= |pixels| && |pixels[|above|..]| == |filters[1..]| * |above|
    ensures |FilterRows(filters, pixels, above, bpp)| > |above|
    ensures var raw, n := FilterRows(filters, pixels, above, bpp), |above|;
      && raw[0] == filters[0]
      && raw[1..n + 1] == FilterRow(filters[0], pixels[..n], above, bpp)
      && raw[n + 1..] == FilterRows(filters[1..], pixels[n..], pixels[..n], bpp)
  {
    hide FilterRow;
    RowFits(|filters|, |above|, |pixels|);
    var n := |above|;
    var row := FilterRow(filters[0], pixels[..n], above, bpp);
    var rest := FilterRows(filters[1..], pixels[n..], pixels[..n], bpp);
    assert FilterRows(filters, pixels, above, bpp) == [filters[0]] + (row + rest);
    RowParts(filters[0], row, rest);
  }

  lemma UnfilterTurn(raw: seq<byte>, rows: nat, above: seq<byte>, bpp: nat)
    requires |raw| == rows * (|above| + 1) && rows > 0
    ensures |raw| > |above| && |raw[|above| + 1..]| == (rows - 1) * (|above| + 1)
    ensures var row := RestoreRow(raw[0], raw[1..|above| + 1], above, bpp, |above|);
      UnfilterRows(raw, rows, above, bpp)
      == if raw[0] > 4 && |above| > 0 then Err(UnknownFilter)
         else Prepend(row, UnfilterRows(raw[|above| + 1..], rows - 1, row, bpp))
  {
    hide RestoreRow, Prepend;
    RowFits(rows, |above| + 1, |raw|);
  }

  /** An unknown filter stops the decoder only in a row that has bytes. */
  ghost function UnfilterSpec(raw: seq<byte>, width: nat, height: nat, channels: nat): (r: Result<seq<byte>, PngError>)
    ensures r.Ok? ==> |r.value| == height * (width * channels)
  {
    var stride := width * channels;
    if stride >= USIZE_LIMIT || height * (stride + 1) >= USIZE_LIMIT then Err(SizeOverflow)
    else if |raw| != height * (stride + 1) then Err(WrongImageSize)
    else UnfilterRows(raw, height, Zeros(stride), channels)
  }

  lemma {:induction false} FilterRowsSize(filters: seq<byte>, pixels: seq<byte>, above: seq<byte>, bpp: nat)
    requires |pixels| == |filters| * |above|
    ensures |FilterRows(filters, pixels, above, bpp)| == |filters| * (|above| + 1)
    decreases |filters|
  {
    hide FilterRow;
    if filters != [] {
      RowFits(|filters|, |above|, |pixels|);
      FilterRowsSize(filters[1..], pixels[|above|..], pixels[..|above|], bpp);
    }
  }

  lemma NoRows(pixels: seq<byte>, above: seq<byte>, bpp: nat)
    requires |pixels| == 0 * |above|
    ensures FilterRows([], pixels, above, bpp) == [] && UnfilterRows([], 0, above, bpp) == Ok(pixels)
  {
  }

  lemma OneRowMore(filters: seq<byte>, pixels: seq<byte>, above: seq<byte>, bpp: nat)
    requires |pixels| == |filters| * |above| && bpp > 0 && filters != [] && filters[0] <= 4
    requires |FilterRows(filters, pixels, above, bpp)| == |filters| * (|above| + 1)
    requires |above| <= |pixels| && |pixels[|above|..]| == |filters[1..]| * |above|
    requires var rest, row := pixels[|above|..], pixels[..|above|];
      var raw := FilterRows(filters[1..], rest, row, bpp);
      |raw| == |filters[1..]| * (|row| + 1) && UnfilterRows(raw, |filters[1..]|, row, bpp) == Ok(rest)
    ensures UnfilterRows(FilterRows(filters, pixels, above, bpp), |filters|, above, bpp) == Ok(pixels)
  {
    hide FilterRow, FilterRows, RestoreRow, UnfilterRows;
    var row, rest := pixels[..|above|], pixels[|above|..];
    FilterTurn(filters, pixels, above, bpp);
    UnfilterTurn(FilterRows(filters, pixels, above, bpp), |filters|, above, bpp);
    RestoreInverts(filters[0], row, above, bpp, |above|);
    assert pixels == row + rest && row[..|above|] == row;
  }

  lemma {:induction false} UnfilterRowsInverts(filters: seq<byte>, pixels: seq<byte>, above: seq<byte>, bpp: nat)
    requires |pixels| == |filters| * |above| && bpp > 0
    requires forall i :: 0 <= i < |filters| ==> filters[i] <= 4
    ensures |FilterRows(filters, pixels, above, bpp)| == |filters| * (|above| + 1)
    ensures UnfilterRows(FilterRows(filters, pixels, above, bpp), |filters|, above, bpp) == Ok(pixels)
    decreases |filters|
  {
    hide FilterRow, FilterRows, RestoreRow, UnfilterRows;
    FilterRowsSize(filters, pixels, above, bpp);
    if filters == [] {
      NoRows(pixels, above, bpp);
    } else {
      FilterTurn(filters, pixels, above, bpp);
      UnfilterRowsInverts(filters[1..], pixels[|above|..], pixels[..|above|], bpp);
      OneRowMore(filters, pixels, above, bpp);
    }
  }

  lemma {:induction false} FilterRowsInverts(raw: seq<byte>, rows: nat, above: seq<byte>, bpp: nat)
    returns (filters: seq<byte>)
    requires |raw| == rows * (|above| + 1) && |above| > 0 && bpp > 0
    requires UnfilterRows(raw, rows, above, bpp).Ok?
    ensures |filters| == rows && forall i :: 0 <= i < |filters| ==> filters[i] <= 4
    ensures FilterRows(filters, UnfilterRows(raw, rows, above, bpp).value, above, bpp) == raw
    decreases rows
  {
    hide FilterRow, RestoreRow;
    if rows == 0 {
      filters := [];
    } else {
      RowFits(rows, |above| + 1, |raw|);
      var line, tail := raw[1..|above| + 1], raw[|above| + 1..];
      var row := RestoreRow(raw[0], line, above, bpp, |above|);
      var rest := UnfilterRows(tail, rows - 1, row, bpp).value;
      var more := FilterRowsInverts(tail, rows - 1, row, bpp);
      filters := [raw[0]] + more;
      FilterInverts(raw[0], line, above, bpp);
      assert filters[1..] == more;
      assert (row + rest)[..|above|] == row && (row + rest)[|above|..] == rest;
      assert raw == [raw[0]] + (line + tail);
    }
  }

  /** The image data that a choice of one filter a row makes of the pixels. */
  ghost function FilterImage(filters: seq<byte>, pixels: seq<byte>, stride: nat, channels: nat): seq<byte>
    requires |pixels| == |filters| * stride
  {
    FilterRows(filters, pixels, Zeros(stride), channels)
  }

  ghost predicate SomeFilters(raw: seq<byte>, stride: nat, height: nat, channels: nat, pixels: seq<byte>) {
    exists filters: seq<byte> ::
      && |filters| == height && |pixels| == height * stride
      && (forall i :: 0 <= i < height ==> filters[i] <= 4)
      && raw == FilterImage(filters, pixels, stride, channels)
  }

  /** `raw` is the image's rows behind one filter byte each; a row without bytes may carry any filter byte. */
  ghost predicate RowsOf(raw: seq<byte>, width: nat, height: nat, channels: nat, pixels: seq<byte>) {
    var stride := width * channels;
    && stride < USIZE_LIMIT && height * (stride + 1) < USIZE_LIMIT
    && if stride == 0 then |raw| == height && pixels == [] else SomeFilters(raw, stride, height, channels, pixels)
  }

  lemma FiltersExact(raw: seq<byte>, stride: nat, height: nat, channels: nat, pixels: seq<byte>)
    requires stride > 0 && channels > 0 && |raw| == height * (stride + 1)
    ensures UnfilterRows(raw, height, Zeros(stride), channels) == Ok(pixels) <==>
      SomeFilters(raw, stride, height, channels, pixels)
  {
    hide FilterRows, UnfilterRows;
    if UnfilterRows(raw, height, Zeros(stride), channels) == Ok(pixels) {
      var filters := FilterRowsInverts(raw, height, Zeros(stride), channels);
      assert raw == FilterImage(filters, pixels, stride, channels);
    }
    forall filters: seq<byte> | && |filters| == height && |pixels| == height * stride
                                && (forall i :: 0 <= i < height ==> filters[i] <= 4)
                                && raw == FilterImage(filters, pixels, stride, channels)
      ensures UnfilterRows(raw, height, Zeros(stride), channels) == Ok(pixels)
    {
      UnfilterRowsInverts(filters, pixels, Zeros(stride), channels);
    }
  }

  lemma FilterImageSize(filters: seq<byte>, pixels: seq<byte>, stride: nat, channels: nat)
    requires |pixels| == |filters| * stride
    ensures |FilterImage(filters, pixels, stride, channels)| == |filters| * (stride + 1)
  {
    hide FilterRows;
    FilterRowsSize(filters, pixels, Zeros(stride), channels);
  }

  lemma FilteredSize(raw: seq<byte>, stride: nat, height: nat, channels: nat, pixels: seq<byte>)
    requires SomeFilters(raw, stride, height, channels, pixels)
    ensures |raw| == height * (stride + 1)
  {
    hide FilterImage;
    var filters: seq<byte> :| && |filters| == height && |pixels| == height * stride
                              && raw == FilterImage(filters, pixels, stride, channels);
    FilterImageSize(filters, pixels, stride, channels);
  }

  lemma {:induction false} EmptyRows(raw: seq<byte>, rows: nat, bpp: nat)
    requires |raw| == rows
    ensures UnfilterRows(raw, rows, [], bpp) == Ok([])
    decreases rows
  {
    if rows > 0 {
      EmptyRows(raw[1..], rows - 1, bpp);
    }
  }

  /** Reversing the filters gives `pixels` exactly for the data that some choice of filters makes of them. */
  lemma UnfilterExact(raw: seq<byte>, width: nat, height: nat, channels: nat, pixels: seq<byte>)
    ensures UnfilterSpec(raw, width, height, channels) == Ok(pixels) <==> RowsOf(raw, width, height, channels, pixels)
  {
    hide UnfilterRows, SomeFilters;
    var stride := width * channels;
    if stride == 0 {
      if |raw| == height {
        assert Zeros(stride) == [];
        EmptyRows(raw, height, channels);
      }
    } else {
      if SomeFilters(raw, stride, height, channels, pixels) {
        FilteredSize(raw, stride, height, channels, pixels);
      }
      if |raw| == height * (stride + 1) {
        FiltersExact(raw, stride, height, channels, pixels);
      }
    }
  }

  // ----- the loops -----

  /** One row, restored in place: bytes to the left of `index` are already pixels. */
  method UnfilterLine(line: array<byte>, filter: byte, previous: seq<byte>, channels: nat) returns (ok: bool)
    requires line.Length == |previous| && (channels > 0 || line.Length == 0)
    modifies line
    ensures ok <==> filter <= 4 || line.Length == 0
    ensures ok ==> line[..] == RestoreRow(filter, old(line[..]), previous, channels, |previous|)
  {
    hide RestoreRow, Paeth;
    ghost var filtered := line[..];
    NoBytesYet(filter, filtered, previous, channels);
    for index := 0 to line.Length
      invariant index > 0 ==> filter <= 4
      invariant line[..index] == RestoreRow(filter, filtered, previous, channels, index)
      invariant line[index..] == filtered[index..]
    {
      var left: int := if index >= channels then line[index - channels] else 0;
      var above: int := previous[index];
      var aboveLeft: int := if index >= channels then previous[index - channels] else 0;
      var addend: int;
      match filter {
        case 0 => addend := 0;
        case 1 => addend := left;
        case 2 => addend := above;
        case 3 => addend := (left + above) / 2;
        case 4 => addend := Paeth(left, above, aboveLeft);
        case _ => return false;
      }
      assert addend == Predict(filter, line[..index], previous, index, channels);
      assert line[index] == filtered[index];
      RestoreStep(filter, filtered, previous, channels, index);
      line[index] := (line[index] + addend) % 256;
    }
    assert line[..line.Length] == line[..];
    ok := true;
  }

  method Unfilter(raw: seq<byte>, width: nat, height: nat, channels: nat) returns (r: Result<seq<byte>, PngError>)
    ensures r == UnfilterSpec(raw, width, height, channels)
  {
    var stride := width * channels;
    if stride >= USIZE_LIMIT || height * (stride + 1) >= USIZE_LIMIT {
      return Err(SizeOverflow);
    }
    if |raw| != height * (stride + 1) {
      return Err(WrongImageSize);
    }
    r := UnfilterAll(raw, stride, height, channels);
  }

  lemma NoRowsLeft(out: seq<byte>, raw: seq<byte>, above: seq<byte>, bpp: nat)
    requires raw == []
    ensures Prepend(out, UnfilterRows(raw, 0, above, bpp)) == Ok(out)
  {
    assert out + [] == out;
  }

  lemma UnknownStops(out: seq<byte>)
    ensures Prepend<byte, PngError>(out, Err(UnknownFilter)) == Err(UnknownFilter)
  {
  }

  method UnfilterAll(raw: seq<byte>, stride: nat, height: nat, channels: nat) returns (r: Result<seq<byte>, PngError>)
    requires (channels > 0 || stride == 0) && |raw| == height * (stride + 1)
    ensures r == UnfilterRows(raw, height, Zeros(stride), channels)
  {
    hide RestoreRow, UnfilterRows, Prepend;
    var out: seq<byte> := [];
    var previous := Zeros(stride);
    var cursor := 0;
    ghost var goal := UnfilterRows(raw, height, previous, channels);
    PrependNothing(goal);
    assert raw[0..] == raw;
    for row := 0 to height
      invariant |previous| == stride && cursor <= |raw|
      invariant |raw| - cursor == (height - row) * (stride + 1)
      invariant goal == Prepend(out, UnfilterRows(raw[cursor..], height - row, previous, channels))
    {
      ghost var rows := height - row;
      ghost var rest := raw[cursor..];
      UnfilterTurn(rest, rows, previous, channels);
      var filter := raw[cursor];
      var line := new byte[stride](i requires 0 <= i < stride => raw[cursor + 1 + i]);
      assert line[..] == rest[1..stride + 1];
      assert rest[stride + 1..] == raw[cursor + 1 + stride..];
      var ok := UnfilterLine(line, filter, previous, channels);
      if !ok {
        UnknownStops(out);
        return Err(UnknownFilter);
      }
      cursor := cursor + 1 + stride;
      PrependTwice(out, line[..], UnfilterRows(raw[cursor..], rows - 1, line[..], channels));
      out := out + line[..];
      previous := line[..];
    }
    NoRowsLeft(out, raw[cursor..], previous, channels);
    r := Ok(out);
  }
}
