// The benchmark's budget report: the one line it prints, and the reader that finds and checks it.

module Report {
  import opened Basics
  import Stats

  const U128_LIMIT := Stats.U128_LIMIT

  datatype Report = Report(ticks: nat, segmentTicks: nat, p50: nat, p99: nat, mean: nat, max: nat)

  datatype Inconsistency = P50AboveP99 | P99AboveMax | MeanAboveMax

  datatype BudgetError =
    | NoReport
    | SeveralReports(count: nat)
    | NotAField(token: string)
    | UnknownField(key: string)
    | DuplicateField(field: nat)
    | MissingField(field: nat)
    | BadValue(field: nat, value: string)
    | NoTicks
    | ShortSegment(ticks: nat, segmentTicks: nat)
    | Inconsistent(why: Inconsistency)

  const PREFIX := "g3-budget-report v1"
  const FIELD_COUNT := 6

  /** The fields in the order they are printed. */
  function FieldName(k: nat): string
    requires k < FIELD_COUNT
  {
    match k
    case 0 => "ticks"
    case 1 => "segment_ticks"
    case 2 => "p50_ns"
    case 3 => "p99_ns"
    case 4 => "mean_ns"
    case 5 => "max_ns"
  }

  function Figure(r: Report, k: nat): nat
    requires k < FIELD_COUNT
  {
    match k
    case 0 => r.ticks
    case 1 => r.segmentTicks
    case 2 => r.p50
    case 3 => r.p99
    case 4 => r.mean
    case 5 => r.max
  }

  // ----- decimal numbers -----

  predicate IsDigit(c: char) {
    '0' <= c <= '9'
  }

  function Digit(c: char): (d: nat)
    requires IsDigit(c)
    ensures d < 10
  {
    c as int - '0' as int
  }

  function Decimal(n: nat): (s: string)
    ensures s != [] && forall i :: 0 <= i < |s| ==> IsDigit(s[i])
  {
    var last := [(n % 10 + '0' as int) as char];
    if n < 10 then last else Decimal(n / 10) + last
  }

  predicate AllDigits(s: string) {
    forall i :: 0 <= i < |s| ==> IsDigit(s[i])
  }

  function Value(s: string): nat
    requires AllDigits(s)
  {
    if s == [] then 0 else 10 * Value(s[..|s| - 1]) + Digit(s[|s| - 1])
  }

  /** A whole number in 128 bits: digits, after an optional plus sign. */
  function ParseNumber(text: string): Option<nat> {
    var digits := if text != [] && text[0] == '+' then text[1..] else text;
    if digits == [] || !AllDigits(digits) then None
    else if Value(digits) >= U128_LIMIT then None
    else Some(Value(digits))
  }

  lemma {:induction false} DecimalReadsBack(n: nat)
    ensures Value(Decimal(n)) == n
  {
    var s := Decimal(n);
    if n < 10 {
      assert s[..|s| - 1] == [];
    } else {
      DecimalReadsBack(n / 10);
      assert s[..|s| - 1] == Decimal(n / 10);
    }
  }

  lemma DecimalParses(n: nat)
    requires n < U128_LIMIT
    ensures ParseNumber(Decimal(n)) == Some(n)
  {
    DecimalReadsBack(n);
    assert IsDigit(Decimal(n)[0]);
  }

  // ----- text -----

  /** The white space of Unicode. */
  predicate IsSpace(c: char) {
    var u := c as int;
    || 0x09 <= u <= 0x0D || u == 0x20 || u == 0x85 || u == 0xA0 || u == 0x1680
    || 0x2000 <= u <= 0x200A || u == 0x2028 || u == 0x2029 || u == 0x202F || u == 0x205F || u == 0x3000
  }

  /** The text up to the first `c`, or all of it. */
  function UpTo(text: string, c: char): (front: string)
    ensures |front| <= |text| && text[..|front|] == front
    ensures c !in front
    ensures |front| < |text| ==> text[|front|] == c
  {
    if text == [] || text[0] == c then [] else [text[0]] + UpTo(text[1..], c)
  }

  function Lines(text: string): seq<string>
    decreases |text|
  {
    if text == [] then []
    else
      var line := UpTo(text, '\n');
      if |line| == |text| then [line] else [line] + Lines(text[|line| + 1..])
  }

  function TrimEnd(text: string): (r: string)
    ensures r == [] || !IsSpace(r[|r| - 1])
  {
    if text != [] && IsSpace(text[|text| - 1]) then TrimEnd(text[..|text| - 1]) else text
  }

  /** What a report line holds after the prefix; a longer word that starts with it is no report. */
  function ReportRest(line: string): Option<string> {
    var text := TrimEnd(line);
    if PREFIX <= text && (|text| == |PREFIX| || text[|PREFIX|] == ' ') then Some(text[|PREFIX|..]) else None
  }

  function ReportOf(line: string): seq<string> {
    match ReportRest(line)
    case Some(rest) => [rest]
    case None => []
  }

  function Reports(lines: seq<string>): seq<string> {
    if lines == [] then [] else ReportOf(lines[0]) + Reports(lines[1..])
  }

  function SkipSpaces(text: string): (r: string)
    ensures |r| <= |text| && (r == [] || !IsSpace(r[0]))
  {
    if text != [] && IsSpace(text[0]) then SkipSpaces(text[1..]) else text
  }

  function Word(text: string): (w: string)
    ensures |w| <= |text|
    ensures text != [] && !IsSpace(text[0]) ==> w != []
  {
    if text == [] || IsSpace(text[0]) then [] else [text[0]] + Word(text[1..])
  }

  function Tokens(text: string): seq<string>
    decreases |text|
  {
    var start := SkipSpaces(text);
    if start == [] then [] else [Word(start)] + Tokens(start[|Word(start)|..])
  }

  // ----- the reader -----

  type Slots = s: seq<Option<nat>> | |s| == FIELD_COUNT witness [None, None, None, None, None, None]

  const EMPTY: Slots := [None, None, None, None, None, None]

  /** The first field from `k` on with this name. */
  function FindField(key: string, k: nat): (r: Option<nat>)
    requires k <= FIELD_COUNT
    ensures r.Some? ==> k <= r.value < FIELD_COUNT && FieldName(r.value) == key
    ensures r.None? ==> forall i :: k <= i < FIELD_COUNT ==> FieldName(i) != key
    decreases FIELD_COUNT - k
  {
    if k == FIELD_COUNT then None
    else if FieldName(k) == key then Some(k)
    else FindField(key, k + 1)
  }

  /** One token: the field it fills and the figure it gives. */
  function ReadField(token: string, slots: Slots): (r: Result<(nat, nat), BudgetError>)
    ensures r.Ok? ==> r.value.0 < FIELD_COUNT && slots[r.value.0].None?
  {
    var key := UpTo(token, '=');
    if |key| == |token| then Err(NotAField(token))
    else
      match FindField(key, 0)
      case None => Err(UnknownField(key))
      case Some(k) =>
        if slots[k].Some? then Err(DuplicateField(k))
        else
          match ParseNumber(token[|key| + 1..])
          case None => Err(BadValue(k, token[|key| + 1..]))
          case Some(v) => Ok((k, v))
  }

  function ReadFields(tokens: seq<string>, slots: Slots): Result<Slots, BudgetError> {
    if tokens == [] then Ok(slots)
    else
      var field :- ReadField(tokens[0], slots);
      ReadFields(tokens[1..], slots[field.0 := Some(field.1)])
  }

  /** The first field from `k` on that is still empty. */
  function FirstMissing(slots: Slots, k: nat): (r: Option<nat>)
    requires k <= FIELD_COUNT
    ensures r.None? <==> forall i :: k <= i < FIELD_COUNT ==> slots[i].Some?
    decreases FIELD_COUNT - k
  {
    if k == FIELD_COUNT then None
    else if slots[k].None? then Some(k)
    else FirstMissing(slots, k + 1)
  }

  function Check(r: Report): Result<Report, BudgetError> {
    if r.ticks == 0 then Err(NoTicks)
    else if r.ticks < r.segmentTicks then Err(ShortSegment(r.ticks, r.segmentTicks))
    else if r.p50 > r.p99 then Err(Inconsistent(P50AboveP99))
    else if r.p99 > r.max then Err(Inconsistent(P99AboveMax))
    else if r.mean > r.max then Err(Inconsistent(MeanAboveMax))
    else Ok(r)
  }

  function Filled(slots: Slots): Result<Report, BudgetError> {
    match FirstMissing(slots, 0)
    case Some(k) => Err(MissingField(k))
    case None =>
      Check(Report(slots[0].value, slots[1].value, slots[2].value, slots[3].value, slots[4].value, slots[5].value))
  }

  function ReadRest(rest: string): Result<Report, BudgetError> {
    var slots :- ReadFields(Tokens(rest), EMPTY);
    Filled(slots)
  }

  ghost function ParseSpec(output: string): Result<Report, BudgetError> {
    var reports := Reports(Lines(output));
    if |reports| == 0 then Err(NoReport)
    else if |reports| > 1 then Err(SeveralReports(|reports|))
    else ReadRest(reports[0])
  }

  lemma ReportsTurn(lines: seq<string>, i: nat)
    requires i < |lines|
    ensures Reports(lines[i..]) == ReportOf(lines[i]) + Reports(lines[i + 1..])
  {
    hide ReportOf;
  }

  lemma FieldsTurn(tokens: seq<string>, i: nat, slots: Slots)
    requires i < |tokens|
    ensures var field := ReadField(tokens[i], slots);
      ReadFields(tokens[i..], slots)
      == if field.Err? then Err(field.error)
         else ReadFields(tokens[i + 1..], slots[field.value.0 := Some(field.value.1)])
  {
    hide ReadField;
    assert tokens[i..][1..] == tokens[i + 1..];
  }

  lemma NothingLeft(lines: seq<string>, slots: Slots)
    ensures Reports(lines[|lines|..]) == [] && ReadFields(lines[|lines|..], slots) == Ok(slots)
  {
  }

  method Parse(output: string) returns (r: Result<Report, BudgetError>)
    ensures r == ParseSpec(output)
  {
    hide Lines, Reports, ReportRest, Tokens, ReadField, ReadFields, Filled;
    var lines := Lines(output);
    var reports: seq<string> := [];
    assert lines[0..] == lines && [] + Reports(lines) == Reports(lines);
    for i := 0 to |lines|
      invariant reports + Reports(lines[i..]) == Reports(lines)
    {
      ReportsTurn(lines, i);
      var rest := ReportRest(lines[i]);
      if rest.Some? {
        reports := reports + [rest.value];
      }
    }
    NothingLeft(lines, EMPTY);
    assert reports + [] == reports;
    if |reports| == 0 {
      return Err(NoReport);
    }
    if |reports| > 1 {
      return Err(SeveralReports(|reports|));
    }
    var tokens := Tokens(reports[0]);
    var slots: Slots := EMPTY;
    assert tokens[0..] == tokens;
    for i := 0 to |tokens|
      invariant ReadFields(tokens, EMPTY) == ReadFields(tokens[i..], slots)
    {
      FieldsTurn(tokens, i, slots);
      var field :- ReadField(tokens[i], slots);
      slots := slots[field.0 := Some(field.1)];
    }
    NothingLeft(tokens, slots);
    r := Filled(slots);
  }

  // ----- the printed line -----

  function FieldText(r: Report, k: nat): string
    requires k < FIELD_COUNT
  {
    FieldName(k) + "=" + Decimal(Figure(r, k))
  }

  function Spaced(r: Report, k: nat): string
    requires k < FIELD_COUNT
  {
    " " + FieldText(r, k)
  }

  function FieldsText(r: Report, order: seq<nat>): string
    requires forall i :: 0 <= i < |order| ==> order[i] < FIELD_COUNT
  {
    if order == [] then "" else Spaced(r, order[0]) + FieldsText(r, order[1..])
  }

  /** Every field once. */
  ghost predicate IsOrder(order: seq<nat>) {
    && (forall i :: 0 <= i < |order| ==> order[i] < FIELD_COUNT)
    && (forall i, j :: 0 <= i < j < |order| ==> order[i] != order[j])
    && (forall k: nat :: k < FIELD_COUNT ==> k in order)
  }

  function Marked(mark: string, n: nat): string {
    mark + Decimal(n)
  }

  function BudgetReportLine(r: Report): string {
    PREFIX + Marked(" ticks=", r.ticks) + Marked(" segment_ticks=", r.segmentTicks) + Marked(" p50_ns=", r.p50) +
    Marked(" p99_ns=", r.p99) + Marked(" mean_ns=", r.mean) + Marked(" max_ns=", r.max)
  }
}
