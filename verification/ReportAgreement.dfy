// The report reader understands exactly the lines whose fields are each given once, in any order, with figures
// that can be true together, and so it reads every line the benchmark prints back to the same figures.

module ReportAgreement {
  import opened Basics
  import opened Report
  import Stats

  // ----- names -----

  lemma NamesArePlain(k: nat)
    requires k < FIELD_COUNT
    ensures FieldName(k) != [] && forall c :: c in FieldName(k) ==> !IsSpace(c) && c != '='
  {
  }

  lemma NamesDiffer(i: nat, k: nat)
    requires i < FIELD_COUNT && k < FIELD_COUNT && i != k
    ensures FieldName(i) != FieldName(k)
  {
    assert FieldName(0)[0] == 't' && FieldName(1)[0] == 's' && FieldName(2)[1] == '5' && FieldName(3)[1] == '9';
    assert FieldName(4)[1] == 'e' && FieldName(5)[1] == 'a' && FieldName(0)[1] == 'i' && FieldName(1)[1] == 'e';
    assert FieldName(4)[0] == 'm';
  }

  lemma FieldFound(k: nat)
    requires k < FIELD_COUNT
    ensures FindField(FieldName(k), 0) == Some(k)
  {
    hide FieldName;
    forall i: nat | i < FIELD_COUNT && i != k ensures FieldName(i) != FieldName(k) {
      NamesDiffer(i, k);
    }
  }

  lemma {:induction false} UpToFound(a: string, c: char, rest: string)
    requires c !in a
    ensures UpTo(a + [c] + rest, c) == a
    decreases |a|
  {
    var text := a + [c] + rest;
    if a != [] {
      UpToFound(a[1..], c, rest);
      assert text[1..] == a[1..] + [c] + rest;
      assert a == [a[0]] + a[1..];
    }
  }

  // ----- one token -----

  /** The token names field `k` and gives it the figure `v`. */
  ghost predicate Gives(token: string, k: nat, v: nat)
    requires k < FIELD_COUNT
  {
    var n := |FieldName(k)|;
    n < |token| && token[..n] == FieldName(k) && token[n] == '=' && ParseNumber(token[n + 1..]) == Some(v)
  }

  lemma GivesReads(token: string, k: nat, v: nat, slots: Slots)
    requires k < FIELD_COUNT && Gives(token, k, v) && slots[k].None?
    ensures ReadField(token, slots) == Ok((k, v))
  {
    hide FieldName, ParseNumber;
    var n := |FieldName(k)|;
    NamesArePlain(k);
    FieldFound(k);
    UpToFound(FieldName(k), '=', token[n + 1..]);
    assert token == FieldName(k) + ['='] + token[n + 1..];
  }

  lemma ReadsGives(token: string, slots: Slots)
    requires ReadField(token, slots).Ok?
    ensures var (k, v) := ReadField(token, slots).value; Gives(token, k, v) && slots[k].None?
  {
    hide FieldName, ParseNumber;
  }

  lemma PrintedGives(r: Report, k: nat)
    requires k < FIELD_COUNT && Figure(r, k) < U128_LIMIT
    ensures Gives(FieldText(r, k), k, Figure(r, k))
  {
    hide FieldName, ParseNumber, Figure;
    var name, digits := FieldName(k), Decimal(Figure(r, k));
    DecimalParses(Figure(r, k));
    assert FieldText(r, k)[..|name|] == name && FieldText(r, k)[|name| + 1..] == digits;
  }

  // ----- all the tokens -----

  ghost predicate InOrder(tokens: seq<string>, order: seq<nat>, r: Report) {
    && |tokens| == |order|
    && (forall i :: 0 <= i < |order| ==> order[i] < FIELD_COUNT)
    && (forall i :: 0 <= i < |order| ==> Gives(tokens[i], order[i], Figure(r, order[i])))
  }

  ghost predicate Distinct(order: seq<nat>) {
    forall i, j :: 0 <= i < j < |order| ==> order[i] != order[j]
  }

  /** The slots once the fields of `order` are read on top of them. */
  ghost predicate FilledBy(before: Slots, after: Slots, order: seq<nat>, r: Report) {
    forall k: nat :: k < FIELD_COUNT ==> after[k] == if k in order then Some(Figure(r, k)) else before[k]
  }

  lemma {:induction false} OrderReads(tokens: seq<string>, order: seq<nat>, r: Report, slots: Slots)
    requires InOrder(tokens, order, r) && Distinct(order)
    requires forall i :: 0 <= i < |order| ==> slots[order[i]].None?
    ensures ReadFields(tokens, slots).Ok? && FilledBy(slots, ReadFields(tokens, slots).value, order, r)
    decreases |tokens|
  {
    hide Gives, Figure, ReadField;
    if tokens != [] {
      var k := order[0];
      GivesReads(tokens[0], k, Figure(r, k), slots);
      OrderReads(tokens[1..], order[1..], r, slots[k := Some(Figure(r, k))]);
      assert order == [k] + order[1..];
    }
  }

  /** The fields a successful reading filled, in the order of its tokens. */
  lemma {:induction false} ReadsInOrder(tokens: seq<string>, slots: Slots, r: Report) returns (order: seq<nat>)
    requires ReadFields(tokens, slots).Ok?
    requires forall k: nat :: k < FIELD_COUNT ==> ReadFields(tokens, slots).value[k] == Some(Figure(r, k))
    ensures InOrder(tokens, order, r) && Distinct(order)
    ensures forall k: nat :: k < FIELD_COUNT ==> (k in order <==> slots[k].None?)
    decreases |tokens|
  {
    hide Gives, Figure, ReadField;
    if tokens == [] {
      order := [];
    } else {
      ReadsGives(tokens[0], slots);
      var (k, v) := ReadField(tokens[0], slots).value;
      var more := slots[k := Some(v)];
      SlotsStay(tokens[1..], more, k);
      var rest := ReadsInOrder(tokens[1..], more, r);
      order := [k] + rest;
    }
  }

  /** A slot that is filled keeps its figure. */
  lemma {:induction false} SlotsStay(tokens: seq<string>, slots: Slots, k: nat)
    requires ReadFields(tokens, slots).Ok? && k < FIELD_COUNT && slots[k].Some?
    ensures ReadFields(tokens, slots).value[k] == slots[k]
    decreases |tokens|
  {
    hide ReadField;
    if tokens != [] {
      var field := ReadField(tokens[0], slots).value;
      SlotsStay(tokens[1..], slots[field.0 := Some(field.1)], k);
    }
  }

  lemma FilledIs(slots: Slots, r: Report)
    requires forall k: nat :: k < FIELD_COUNT ==> slots[k] == Some(Figure(r, k))
    ensures Filled(slots) == Check(r)
  {
    assert slots[0].value == Figure(r, 0) && slots[1].value == Figure(r, 1) && slots[2].value == Figure(r, 2);
    assert slots[3].value == Figure(r, 3) && slots[4].value == Figure(r, 4) && slots[5].value == Figure(r, 5);
  }

  lemma FilledFrom(slots: Slots)
    requires Filled(slots).Ok?
    ensures forall k: nat :: k < FIELD_COUNT ==> slots[k] == Some(Figure(Filled(slots).value, k))
  {
    assert slots[0].Some? && slots[1].Some? && slots[2].Some? && slots[3].Some? && slots[4].Some? && slots[5].Some?;
  }

  /** What can be true at once. */
  ghost predicate Consistent(r: Report) {
    r.ticks > 0 && r.ticks >= r.segmentTicks && r.p50 <= r.p99 <= r.max && r.mean <= r.max
  }

  /** A report's text is read exactly when each field is there once, in some order, and the figures agree. */
  lemma RestExact(rest: string, r: Report)
    ensures ReadRest(rest) == Ok(r) <==>
      Consistent(r) && exists order :: IsOrder(order) && InOrder(Tokens(rest), order, r)
  {
    hide Tokens, InOrder, ReadFields, Filled, Figure;
    var tokens := Tokens(rest);
    forall order | IsOrder(order) && InOrder(tokens, order, r) && Consistent(r) ensures ReadRest(rest) == Ok(r) {
      EmptySlots(order);
      OrderBounds(tokens, order, r);
      OrderReads(tokens, order, r, EMPTY);
      FilledIs(ReadFields(tokens, EMPTY).value, r);
    }
    if ReadRest(rest) == Ok(r) {
      var slots := ReadFields(tokens, EMPTY).value;
      FilledFrom(slots);
      FilledIs(slots, r);
      var order := ReadsInOrder(tokens, EMPTY, r);
      OrderBounds(tokens, order, r);
      assert IsOrder(order);
    }
  }

  lemma OrderBounds(tokens: seq<string>, order: seq<nat>, r: Report)
    requires InOrder(tokens, order, r)
    ensures forall i :: 0 <= i < |order| ==> order[i] < FIELD_COUNT
  {
  }

  lemma EmptySlots(order: seq<nat>)
    requires forall i :: 0 <= i < |order| ==> order[i] < FIELD_COUNT
    ensures forall i :: 0 <= i < |order| ==> EMPTY[order[i]].None?
  {
  }

  // ----- the printed line -----

  lemma {:induction false} WordIs(word: string, rest: string)
    requires (forall c :: c in word ==> !IsSpace(c)) && (rest == [] || IsSpace(rest[0]))
    ensures Word(word + rest) == word
    decreases |word|
  {
    if word == [] {
      assert word + rest == rest;
    } else {
      WordIs(word[1..], rest);
      assert (word + rest)[1..] == word[1..] + rest;
    }
  }

  lemma TokenSplits(word: string, rest: string)
    requires word != [] && (forall c :: c in word ==> !IsSpace(c)) && (rest == [] || IsSpace(rest[0]))
    ensures Tokens(" " + word + rest) == [word] + Tokens(rest)
  {
    hide IsSpace, Word;
    var text := " " + word + rest;
    assert text[1..] == word + rest;
    SpaceIsSpace();
    assert SkipSpaces(word + rest) == word + rest;
    assert SkipSpaces(text) == word + rest;
    WordIs(word, rest);
    assert (word + rest)[|word|..] == rest;
  }

  lemma SpaceIsSpace()
    ensures IsSpace(' ') && !IsSpace('=') && forall c :: IsDigit(c) ==> !IsSpace(c)
  {
  }

  lemma FieldIsWord(r: Report, k: nat)
    requires k < FIELD_COUNT
    ensures FieldText(r, k) != [] && forall c :: c in FieldText(r, k) ==> !IsSpace(c)
  {
    hide FieldName, Decimal, Figure, IsSpace, IsDigit;
    NamesArePlain(k);
    SpaceIsSpace();
    var digits := Decimal(Figure(r, k));
    assert forall c :: c in digits ==> IsDigit(c);
  }

  lemma {:induction false} PrintedTokens(r: Report, order: seq<nat>)
    requires forall i :: 0 <= i < |order| ==> order[i] < FIELD_COUNT
    ensures |Tokens(FieldsText(r, order))| == |order|
    ensures forall i :: 0 <= i < |order| ==> Tokens(FieldsText(r, order))[i] == FieldText(r, order[i])
    ensures order != [] ==> FieldsText(r, order) != [] && FieldsText(r, order)[0] == ' '
    decreases |order|
  {
    hide FieldText, Tokens;
    if order == [] {
      NoTokens();
    } else {
      PrintedTokens(r, order[1..]);
      FieldIsWord(r, order[0]);
      SpaceIsSpace();
      TokenSplits(FieldText(r, order[0]), FieldsText(r, order[1..]));
    }
  }

  lemma NoTokens()
    ensures Tokens("") == []
  {
  }

  /** Fields printed in any order are read to the figures, or refused for what is wrong with the figures. */
  lemma AnyOrderReads(r: Report, order: seq<nat>)
    requires IsOrder(order) && forall k: nat :: k < FIELD_COUNT ==> Figure(r, k) < U128_LIMIT
    ensures ReadRest(FieldsText(r, order)) == Check(r)
  {
    hide Tokens, FieldText, FieldsText, Figure, Gives, Filled, ReadFields;
    var tokens := Tokens(FieldsText(r, order));
    PrintedTokens(r, order);
    forall i | 0 <= i < |order| ensures Gives(tokens[i], order[i], Figure(r, order[i])) {
      PrintedGives(r, order[i]);
    }
    EmptySlots(order);
    OrderReads(tokens, order, r, EMPTY);
    FilledIs(ReadFields(tokens, EMPTY).value, r);
  }

  // ----- the line among other output -----

  lemma OneLineMore(line: string, lines: seq<string>)
    ensures Reports([line] + lines) == ReportOf(line) + Reports(lines)
  {
    hide ReportOf;
    assert ([line] + lines)[1..] == lines;
  }

  lemma {:induction false} ReportsJoin(a: seq<string>, b: seq<string>)
    ensures Reports(a + b) == Reports(a) + Reports(b)
    decreases |a|
  {
    hide ReportOf, Reports;
    if a == [] {
      assert a + b == b;
      NoReports();
    } else {
      var line, rest := a[0], a[1..];
      ReportsJoin(rest, b);
      OneLineMore(line, rest);
      OneLineMore(line, rest + b);
      assert [line] + rest == a && [line] + (rest + b) == a + b;
    }
  }

  lemma NoReports()
    ensures Reports([]) == []
  {
  }

  /** Text that ends its last line splits where it ends. */
  lemma {:induction false} LinesJoin(a: string, b: string)
    requires a == [] || a[|a| - 1] == '\n'
    ensures Lines(a + b) == Lines(a) + Lines(b)
    decreases |a|
  {
    hide UpTo;
    if a == [] {
      assert a + b == b;
    } else {
      var line := UpTo(a, '\n');
      assert |line| < |a|;
      var rest := a[|line| + 1..];
      assert a == line + ['\n'] + rest;
      assert a + b == line + ['\n'] + (rest + b);
      UpToFound(line, '\n', rest + b);
      assert (a + b)[|line| + 1..] == rest + b;
      LinesJoin(rest, b);
    }
  }

  lemma OneLine(line: string)
    requires '\n' !in line
    ensures Lines(line + "\n") == [line]
  {
    hide UpTo;
    UpToFound(line, '\n', "");
    assert line + ['\n'] + "" == line + "\n";
    assert (line + "\n")[|line| + 1..] == [];
    assert Lines([]) == [];
  }

  ghost function LineOf(r: Report, order: seq<nat>): string
    requires forall i :: 0 <= i < |order| ==> order[i] < FIELD_COUNT
  {
    PREFIX + FieldsText(r, order)
  }

  lemma {:induction false} FieldsEnd(r: Report, order: seq<nat>)
    requires order != [] && forall i :: 0 <= i < |order| ==> order[i] < FIELD_COUNT
    ensures var s := FieldsText(r, order); s != [] && s[0] == ' ' && !IsSpace(s[|s| - 1]) && '\n' !in s
    decreases |order|
  {
    hide IsSpace, FieldText;
    FieldIsWord(r, order[0]);
    NewlineIsSpace();
    var field := FieldText(r, order[0]);
    assert '\n' !in field;
    if |order| > 1 {
      FieldsEnd(r, order[1..]);
    }
  }

  lemma NewlineIsSpace()
    ensures IsSpace('\n')
  {
  }

  lemma LineIsReport(r: Report, order: seq<nat>)
    requires order != [] && forall i :: 0 <= i < |order| ==> order[i] < FIELD_COUNT
    ensures ReportRest(LineOf(r, order)) == Some(FieldsText(r, order)) && '\n' !in LineOf(r, order)
  {
    hide FieldsText, IsSpace;
    FieldsEnd(r, order);
    var line := LineOf(r, order);
    assert TrimEnd(line) == line;
    assert line[|PREFIX|..] == FieldsText(r, order);
    assert '\n' !in PREFIX;
  }

  /** A report line, its fields in any order, is found and read wherever it stands in the output. */
  lemma LineReads(r: Report, order: seq<nat>, before: string, after: string)
    requires IsOrder(order) && forall k: nat :: k < FIELD_COUNT ==> Figure(r, k) < U128_LIMIT
    requires before == [] || before[|before| - 1] == '\n'
    requires Reports(Lines(before)) == [] && Reports(Lines(after)) == []
    ensures ParseSpec(before + (LineOf(r, order) + "\n" + after)) == Check(r)
  {
    hide Lines, Reports, ReadRest, LineOf, FieldsText, Figure, Check;
    assert 0 in order;
    var line := LineOf(r, order);
    LineIsReport(r, order);
    OneLine(line);
    LinesJoin(line + "\n", after);
    LinesJoin(before, line + "\n" + after);
    ReportsJoin([line], Lines(after));
    ReportsJoin(Lines(before), [line] + Lines(after));
    OneReport(line, FieldsText(r, order));
    AnyOrderReads(r, order);
  }

  lemma OneReport(line: string, rest: string)
    requires ReportRest(line) == Some(rest)
    ensures Reports([line]) == [rest]
  {
    hide ReportRest;
    assert [line][1..] == [] && Reports([]) == [];
  }

  lemma OneFieldMore(r: Report, k: nat, rest: seq<nat>)
    requires k < FIELD_COUNT && forall i :: 0 <= i < |rest| ==> rest[i] < FIELD_COUNT
    ensures FieldsText(r, [k] + rest) == Spaced(r, k) + FieldsText(r, rest)
  {
    hide Spaced;
    assert ([k] + rest)[1..] == rest;
  }

  lemma MarkIsField(r: Report, k: nat, mark: string)
    requires k < FIELD_COUNT && mark == " " + FieldName(k) + "="
    ensures Spaced(r, k) == Marked(mark, Figure(r, k))
  {
    hide FieldName, Figure, Decimal;
    assert " " + (FieldName(k) + "=" + Decimal(Figure(r, k))) == " " + FieldName(k) + "=" + Decimal(Figure(r, k));
  }

  lemma FieldsInOrder(r: Report)
    ensures FieldsText(r, [0, 1, 2, 3, 4, 5]) ==
      Spaced(r, 0) + (Spaced(r, 1) + (Spaced(r, 2) + (Spaced(r, 3) + (Spaced(r, 4) + (Spaced(r, 5) + "")))))
  {
    hide Spaced, FieldsText;
    NoFields(r);
    OneFieldMore(r, 5, []);
    OneFieldMore(r, 4, [5]);
    OneFieldMore(r, 3, [4, 5]);
    OneFieldMore(r, 2, [3, 4, 5]);
    OneFieldMore(r, 1, [2, 3, 4, 5]);
    OneFieldMore(r, 0, [1, 2, 3, 4, 5]);
    assert [5] + [] == [5] && [4] + [5] == [4, 5] && [3] + [4, 5] == [3, 4, 5] && [2] + [3, 4, 5] == [2, 3, 4, 5];
    assert [1] + [2, 3, 4, 5] == [1, 2, 3, 4, 5] && [0] + [1, 2, 3, 4, 5] == [0, 1, 2, 3, 4, 5];
  }

  lemma PrintedInOrder(r: Report)
    ensures BudgetReportLine(r) == LineOf(r, [0, 1, 2, 3, 4, 5]) && IsOrder([0, 1, 2, 3, 4, 5])
  {
    hide BudgetReportLine, Spaced, FieldsText;
    PrintedMarks(r);
    FieldsInOrder(r);
    Regroup(PREFIX, Spaced(r, 0), Spaced(r, 1), Spaced(r, 2), Spaced(r, 3), Spaced(r, 4), Spaced(r, 5));
  }

  lemma PrintedMarks(r: Report)
    ensures BudgetReportLine(r) ==
      PREFIX + Spaced(r, 0) + Spaced(r, 1) + Spaced(r, 2) + Spaced(r, 3) + Spaced(r, 4) + Spaced(r, 5)
  {
    hide Marked, Spaced;
    MarkIsField(r, 0, " ticks=");
    MarkIsField(r, 1, " segment_ticks=");
    MarkIsField(r, 2, " p50_ns=");
    MarkIsField(r, 3, " p99_ns=");
    MarkIsField(r, 4, " mean_ns=");
    MarkIsField(r, 5, " max_ns=");
  }

  lemma NoFields(r: Report)
    ensures FieldsText(r, []) == ""
  {
  }

  lemma Regroup(p: string, a: string, b: string, c: string, d: string, e: string, f: string)
    ensures p + a + b + c + d + e + f == p + (a + (b + (c + (d + (e + (f + ""))))))
  {
  }

  /** The line printed for a summarised sample is read back to the same figures, from any surrounding output. */
  lemma SummaryReportReads(durations: seq<nat>, ticks: nat, segmentTicks: nat, before: string, after: string)
    requires Stats.SummaryOf(durations).Ok?
    requires 0 < ticks < Stats.U64_LIMIT && segmentTicks <= ticks
    requires before == [] || before[|before| - 1] == '\n'
    requires Reports(Lines(before)) == [] && Reports(Lines(after)) == []
    ensures var s := Stats.SummaryOf(durations).value;
      var r := Report(ticks, segmentTicks, s.p50, s.p99, s.mean, s.max);
      ParseSpec(before + (BudgetReportLine(r) + "\n" + after)) == Ok(r)
  {
    hide Stats.SummaryOf, Lines, Reports, BudgetReportLine, LineOf, ParseSpec;
    Stats.FiguresAgree(durations);
    var s := Stats.SummaryOf(durations).value;
    var r := Report(ticks, segmentTicks, s.p50, s.p99, s.mean, s.max);
    PrintedInOrder(r);
    LineReads(r, [0, 1, 2, 3, 4, 5], before, after);
  }
}
