// The benchmark's report and summary with every name, digit and limit written out.

module ReportFigures {
  import opened Basics
  import opened Report
  import Stats

  // ----- characters -----

  /** The white space of Unicode, by code point. */
  lemma SpaceExact(c: char)
    ensures IsSpace(c) <==>
      var u := c as int;
      || 9 <= u <= 13 || 8192 <= u <= 8202
      || u in {32, 133, 160, 5760, 8232, 8233, 8239, 8287, 12288}
  {
  }

  lemma FieldNames()
    ensures FIELD_COUNT == 6
    ensures FieldName(0) == "ticks" && FieldName(1) == "segment_ticks" && FieldName(2) == "p50_ns"
    ensures FieldName(3) == "p99_ns" && FieldName(4) == "mean_ns" && FieldName(5) == "max_ns"
  {
  }

  /** The figure of each field. */
  lemma FieldFigures(r: Report)
    ensures Figure(r, 0) == r.ticks && Figure(r, 1) == r.segmentTicks && Figure(r, 2) == r.p50
    ensures Figure(r, 3) == r.p99 && Figure(r, 4) == r.mean && Figure(r, 5) == r.max
  {
  }

  // ----- numbers -----

  predicate IsNumeral(s: string) {
    s != [] && forall i :: 0 <= i < |s| ==> 48 <= s[i] as int <= 57
  }

  /** The number a run of digits stands for, the last digit counting once. */
  function NumberOf(s: string): nat
    requires forall i :: 0 <= i < |s| ==> 48 <= s[i] as int <= 57
  {
    if s == [] then 0 else 10 * NumberOf(s[..|s| - 1]) + (s[|s| - 1] as int - 48)
  }

  lemma {:induction false} ValueIsNumber(s: string)
    requires forall i :: 0 <= i < |s| ==> 48 <= s[i] as int <= 57
    ensures AllDigits(s) && Value(s) == NumberOf(s)
    decreases |s|
  {
    if s != [] {
      ValueIsNumber(s[..|s| - 1]);
    }
  }

  /** The text behind a plus sign, if one leads it. */
  function Unsigned(text: string): string {
    if text != [] && text[0] as int == 43 then text[1..] else text
  }

  lemma ParseIs(text: string)
    ensures !IsNumeral(Unsigned(text)) ==> ParseNumber(text) == None
    ensures IsNumeral(Unsigned(text)) ==>
      && AllDigits(Unsigned(text))
      && ParseNumber(text) == if Value(Unsigned(text)) >= U128_LIMIT then None else Some(Value(Unsigned(text)))
  {
    hide Value, U128_LIMIT;
    PlusIs(text);
    NumeralIs(Unsigned(text));
    assert Unsigned(text) == if text != [] && text[0] == '+' then text[1..] else text;
  }

  lemma NumeralIs(s: string)
    ensures IsNumeral(s) <==> s != [] && AllDigits(s)
  {
  }

  /** A number is a run of digits, perhaps behind a plus sign, below 2^128. */
  lemma NumberExact(text: string, v: nat)
    ensures ParseNumber(text) == Some(v) <==>
      && IsNumeral(Unsigned(text))
      && NumberOf(Unsigned(text)) == v && v < 340282366920938463463374607431768211456
  {
    hide Value, NumberOf, Unsigned, ParseNumber;
    ParseIs(text);
    LimitIs();
    if IsNumeral(Unsigned(text)) {
      ValueIsNumber(Unsigned(text));
    }
  }

  lemma PlusIs(text: string)
    ensures text != [] ==> (text[0] == '+' <==> text[0] as int == 43)
  {
  }

  lemma LimitIs()
    ensures U128_LIMIT == 340282366920938463463374607431768211456
  {
  }

  /** A number is printed in digits without a leading zero, and stands for itself. */
  lemma {:induction false} DecimalExact(n: nat)
    ensures IsNumeral(Decimal(n)) && NumberOf(Decimal(n)) == n
    ensures Decimal(n)[0] as int == 48 ==> n == 0 && |Decimal(n)| == 1
  {
    var s := Decimal(n);
    if n < 10 {
      assert s[..0] == [];
    } else {
      DecimalExact(n / 10);
      assert s[..|s| - 1] == Decimal(n / 10);
    }
  }

  // ----- lines -----

  lemma PrefixIs()
    ensures PREFIX == "g3-budget-report v1" && |PREFIX| == 19
  {
  }

  /** The line that is printed. */
  lemma PrintedExact(r: Report)
    ensures BudgetReportLine(r) ==
      "g3-budget-report v1" + (" ticks=" + Decimal(r.ticks)) + (" segment_ticks=" + Decimal(r.segmentTicks)) +
      (" p50_ns=" + Decimal(r.p50)) + (" p99_ns=" + Decimal(r.p99)) + (" mean_ns=" + Decimal(r.mean)) +
      (" max_ns=" + Decimal(r.max))
  {
    hide Decimal, PREFIX;
    PrefixIs();
  }

  /** The line that is looked for: the same prefix, and behind it nothing, or a space and more. */
  lemma LookedForExact(line: string, rest: string)
    ensures ReportRest(line) == Some(rest) <==>
      && TrimEnd(line) == "g3-budget-report v1" + rest
      && (rest == [] || rest[0] as int == 32)
  {
    hide TrimEnd, PREFIX;
    PrefixIs();
    var text := TrimEnd(line);
    if PREFIX <= text {
      assert text == PREFIX + text[|PREFIX|..];
    }
    if text == PREFIX + rest {
      assert text[|PREFIX|..] == rest;
    }
  }

  /** Why a full report is refused, the first of five reasons counting. */
  lemma RefusalExact(r: Report)
    ensures Check(r) ==
      if r.ticks == 0 then Err(NoTicks)
      else if r.segmentTicks > r.ticks then Err(ShortSegment(r.ticks, r.segmentTicks))
      else if r.p99 < r.p50 then Err(Inconsistent(P50AboveP99))
      else if r.max < r.p99 then Err(Inconsistent(P99AboveMax))
      else if r.max < r.mean then Err(Inconsistent(MeanAboveMax))
      else Ok(r)
  {
  }

  // ----- the summary -----

  lemma {:induction false} CountAppends(s: seq<nat>, x: nat, v: int)
    ensures Stats.Count(s + [x], v) == Stats.Count(s, v) + if x <= v then 1 else 0
    decreases |s|
  {
    if s == [] {
      assert s + [x] == [x] && [x][1..] == [];
    } else {
      CountAppends(s[1..], x, v);
      assert (s + [x])[1..] == s[1..] + [x];
    }
  }

  /** The places of a sample that are at most `v`, counted. */
  lemma {:induction false} CountIs(s: seq<nat>, v: int)
    ensures Stats.Count(s, v) == |set i: nat | i < |s| && s[i] <= v|
  {
    hide Stats.Count;
    var all := set i: nat | i < |s| && s[i] <= v;
    if s == [] {
      NoneCounted(v);
      assert all == {};
    } else {
      var init, last := s[..|s| - 1], |s| - 1;
      CountIs(init, v);
      CountAppends(init, s[last], v);
      assert s == init + [s[last]];
      var before := set i: nat | i < |init| && init[i] <= v;
      if s[last] <= v {
        assert all == before + {last};
      } else {
        assert all == before;
      }
    }
  }

  lemma NoneCounted(v: int)
    ensures Stats.Count([], v) == 0
  {
  }

  lemma SumIs(x: nat, s: seq<nat>)
    ensures Stats.Sum([]) == 0 && Stats.Sum([x] + s) == x + Stats.Sum(s)
  {
    assert ([x] + s)[1..] == s;
  }

  /** A summary exists for a sample that is not empty, whose sum stays below 2^128, and whose length allows its ranks to
      be taken in 64 bits. */
  lemma SummaryLimits(durations: seq<nat>)
    ensures Stats.SummaryOf(durations).Ok? <==>
      && durations != []
      && Stats.Sum(durations) < 340282366920938463463374607431768211456
      && 99 * |durations| + 99 < 18446744073709551616
  {
    hide Stats.SummaryOf, Stats.Sum, Stats.NearestRank, Stats.IsMax;
    Stats.SummaryExact(durations);
  }

  // ----- refusals -----

  /** The name of a field, or none of the six. */
  function FieldOf(key: string): Option<nat> {
    if key == "ticks" then Some(0)
    else if key == "segment_ticks" then Some(1)
    else if key == "p50_ns" then Some(2)
    else if key == "p99_ns" then Some(3)
    else if key == "mean_ns" then Some(4)
    else if key == "max_ns" then Some(5)
    else None
  }

  lemma FieldFound(key: string)
    ensures FindField(key, 0) == FieldOf(key)
  {
    FieldNames();
    NamesDiffer();
    assert FindField(key, 6) == None;
    assert FindField(key, 5) == if key == "max_ns" then Some(5) else None;
    assert FindField(key, 4) == if key == "mean_ns" then Some(4) else FindField(key, 5);
    assert FindField(key, 3) == if key == "p99_ns" then Some(3) else FindField(key, 4);
    assert FindField(key, 2) == if key == "p50_ns" then Some(2) else FindField(key, 3);
    assert FindField(key, 1) == if key == "segment_ticks" then Some(1) else FindField(key, 2);
  }

  lemma NamesDiffer()
    ensures |"ticks"| == 5 && |"segment_ticks"| == 13 && |"p50_ns"| == 6 && |"max_ns"| == 6
  {
  }

  /** What a token does: the part before its first equals sign names a field, the part behind it is the figure, and the
      first of four things wrong with it counts. */
  lemma TokenExact(token: string, slots: Slots, n: nat)
    requires n <= |token| && '=' !in token[..n] && (n < |token| ==> token[n] == '=')
    ensures n == |token| ==> ReadField(token, slots) == Err(NotAField(token))
    ensures n < |token| ==>
      var key, value := token[..n], token[n + 1..];
      var field := FieldOf(key);
      && (field.None? ==> ReadField(token, slots) == Err(UnknownField(key)))
      && (field.Some? && slots[field.value].Some? ==> ReadField(token, slots) == Err(DuplicateField(field.value)))
      && (field.Some? && slots[field.value].None? ==>
          ReadField(token, slots) ==
            if ParseNumber(value).None? then Err(BadValue(field.value, value))
            else Ok((field.value, ParseNumber(value).value)))
  {
    hide FindField, ParseNumber, FieldOf;
    KeyIs(token, n);
    if n < |token| {
      FieldFound(token[..n]);
      FieldBelow(token[..n]);
    }
  }

  lemma FieldBelow(key: string)
    ensures FieldOf(key).Some? ==> FieldOf(key).value < 6
  {
  }

  lemma {:induction false} KeyIs(token: string, n: nat)
    requires n <= |token| && '=' !in token[..n] && (n < |token| ==> token[n] == '=')
    ensures UpTo(token, '=') == token[..n]
    decreases n
  {
    if n > 0 {
      assert token[0] == token[..n][0];
      forall c | c in token[1..][..n - 1] ensures c in token[..n] {
        var i :| 0 <= i < n - 1 && token[1..][..n - 1][i] == c;
        assert token[..n][i + 1] == c;
      }
      KeyIs(token[1..], n - 1);
      assert token[..n] == [token[0]] + token[1..][..n - 1];
    }
  }

  /** With all tokens read, the first field that is missing is reported; none or several report lines are refused. */
  lemma MissingExact(slots: Slots, k: nat)
    requires k < 6 && slots[k].None? && forall i :: 0 <= i < k ==> slots[i].Some?
    ensures Filled(slots) == Err(MissingField(k))
  {
    FirstIs(slots, 0, k);
  }

  lemma {:induction false} FirstIs(slots: Slots, from: nat, k: nat)
    requires from <= k < 6 && slots[k].None? && forall i :: 0 <= i < k ==> slots[i].Some?
    ensures FirstMissing(slots, from) == Some(k)
    decreases k - from
  {
    if from < k {
      FirstIs(slots, from + 1, k);
    }
  }

  lemma OneReportExact(output: string)
    ensures var reports := Reports(Lines(output));
      ParseSpec(output) ==
        if |reports| == 0 then Err(NoReport)
        else if |reports| > 1 then Err(SeveralReports(|reports|))
        else ReadRest(reports[0])
  {
    hide Reports, Lines, ReadRest;
  }

  // ----- lines and tokens -----

  ghost predicate NoSpaces(text: string) {
    forall i :: 0 <= i < |text| ==> !IsSpace(text[i])
  }

  /** Tokens are the stretches between white space: these three rules give them for every text. */
  lemma TokensExact(space: char, word: string, rest: string)
    ensures Tokens([]) == []
    ensures IsSpace(space) ==> Tokens([space] + rest) == Tokens(rest)
    ensures word != [] && NoSpaces(word) && (rest == [] || IsSpace(rest[0])) ==>
      Tokens(word + rest) == [word] + Tokens(rest)
  {
    hide IsSpace;
    if IsSpace(space) {
      assert ([space] + rest)[1..] == rest;
      assert SkipSpaces([space] + rest) == SkipSpaces(rest);
    }
    if word != [] && NoSpaces(word) && (rest == [] || IsSpace(rest[0])) {
      assert (word + rest)[0] == word[0];
      assert SkipSpaces(word + rest) == word + rest;
      WordIs(word, rest);
      assert (word + rest)[|word|..] == rest;
    }
  }

  lemma {:induction false} WordIs(word: string, rest: string)
    requires NoSpaces(word) && (rest == [] || IsSpace(rest[0]))
    ensures Word(word + rest) == word
    decreases |word|
  {
    hide IsSpace;
    if word == [] {
      assert word + rest == rest;
    } else {
      assert (word + rest)[0] == word[0] && (word + rest)[1..] == word[1..] + rest;
      forall i | 0 <= i < |word[1..]| ensures !IsSpace(word[1..][i]) {
        assert word[1..][i] == word[i + 1];
      }
      WordIs(word[1..], rest);
    }
  }

  /** Lines end at newlines, and a last one need not. */
  lemma LinesExact(line: string, rest: string)
    requires '\n' !in line
    ensures Lines([]) == []
    ensures line != [] ==> Lines(line) == [line]
    ensures Lines(line + "\n" + rest) == [line] + Lines(rest)
  {
    NewlineEnds(line, []);
    NewlineEnds(line, "\n" + rest);
    assert line + [] == line && line + ("\n" + rest) == line + "\n" + rest;
    assert (line + "\n" + rest)[|line| + 1..] == rest;
  }

  lemma {:induction false} NewlineEnds(line: string, rest: string)
    requires '\n' !in line && (rest == [] || rest[0] == '\n')
    ensures UpTo(line + rest, '\n') == line
    decreases |line|
  {
    if line == [] {
      assert line + rest == rest;
    } else {
      assert (line + rest)[0] == line[0] && (line + rest)[1..] == line[1..] + rest;
      NewlineEnds(line[1..], rest);
    }
  }

  /** White space at the end of a line is taken off, and nothing else. */
  lemma {:induction false} TrimExact(text: string)
    ensures var n := |TrimEnd(text)|;
      && n <= |text| && TrimEnd(text) == text[..n]
      && (forall i :: n <= i < |text| ==> IsSpace(text[i])) && (n > 0 ==> !IsSpace(text[n - 1]))
    decreases |text|
  {
    hide IsSpace;
    if text != [] && IsSpace(text[|text| - 1]) {
      TrimExact(text[..|text| - 1]);
    } else {
      assert text[..|text|] == text;
    }
  }
}
