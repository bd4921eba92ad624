// Nearest-rank percentiles, the mean and the summary of a sample of durations, in whole nanoseconds.

module Stats {
  import opened Basics
  import opened Sorting
  import BitStrings

  const U64_LIMIT := 0x1_0000_0000_0000_0000
  const U128_LIMIT := 0x1_0000_0000_0000_0000_0000_0000_0000_0000

  datatype Summary = Summary(p50: nat, p99: nat, mean: nat, max: nat, samples: nat)

  datatype StatsError = Empty

  // ----- sorting -----

  predicate Ascending(a: nat, b: nat) {
    a <= b
  }

  lemma AscendingIsOrder()
    ensures IsOrder(Ascending)
  {
  }

  function Sum(s: seq<nat>): nat {
    if s == [] then 0 else s[0] + Sum(s[1..])
  }

  /** How many of the sample are at most `v`. */
  function Count(s: seq<nat>, v: int): (n: nat)
    ensures n <= |s|
  {
    if s == [] then 0 else (if s[0] <= v then 1 else 0) + Count(s[1..], v)
  }

  lemma {:induction false} InsertCounts(x: nat, s: seq<nat>, v: int)
    ensures |Insert(Ascending, x, s)| == |s| + 1
    ensures Sum(Insert(Ascending, x, s)) == x + Sum(s)
    ensures Count(Insert(Ascending, x, s), v) == (if x <= v then 1 else 0) + Count(s, v)
    decreases |s|
  {
    if s == [] || x <= s[0] {
      assert ([x] + s)[1..] == s;
    } else {
      InsertCounts(x, s[1..], v);
      assert ([s[0]] + Insert(Ascending, x, s[1..]))[1..] == Insert(Ascending, x, s[1..]);
    }
  }

  lemma {:induction false} SortedCounts(s: seq<nat>, v: int)
    ensures |Sorted(Ascending, s)| == |s| && Sum(Sorted(Ascending, s)) == Sum(s)
    ensures Count(Sorted(Ascending, s), v) == Count(s, v)
    decreases |s|
  {
    hide Insert;
    if s != [] {
      SortedCounts(s[1..], v);
      InsertCounts(s[0], Sorted(Ascending, s[1..]), v);
    }
  }

  /** Sorting keeps the elements, so every figure taken over them. */
  lemma SortedKeeps(s: seq<nat>, v: int)
    ensures Ordered(Ascending, Sorted(Ascending, s)) && multiset(Sorted(Ascending, s)) == multiset(s)
    ensures |Sorted(Ascending, s)| == |s| && Sum(Sorted(Ascending, s)) == Sum(s)
    ensures Count(Sorted(Ascending, s), v) == Count(s, v)
  {
    hide Ordered, Sorted, IsOrder, Sum, Count;
    AscendingIsOrder();
    SortedOrders(Ascending, s);
    SortedCounts(s, v);
  }

  lemma SortedHas(s: seq<nat>, v: nat)
    ensures v in Sorted(Ascending, s) <==> v in s
  {
    hide Ordered, Sorted, IsOrder;
    AscendingIsOrder();
    SameMembers<nat>(Ascending, s, v);
  }

  // ----- percentiles -----

  /** The value at the one-based rank ceil(len * percent / 100), at least 1; none when the product passes a word. */
  function Percentile(sorted: seq<nat>, percent: nat): Option<nat> {
    if percent > 100 || |sorted| * percent + 99 >= U64_LIMIT then None
    else
      var ceiling := (|sorted| * percent + 99) / 100;
      var rank := if ceiling < 1 then 1 else ceiling;
      if rank - 1 < |sorted| then Some(sorted[rank - 1]) else None
  }

  /** The least value of the sample that has at least `percent` per cent of the sample at or below it. */
  ghost predicate NearestRank(s: seq<nat>, percent: nat, v: nat) {
    && v in s
    && 100 * Count(s, v) >= percent * |s|
    && forall w :: w in s && w < v ==> 100 * Count(s, w) < percent * |s|
  }

  lemma {:induction false} CountInOrder(s: seq<nat>, k: nat, v: int)
    requires Ordered(Ascending, s) && k <= |s|
    ensures (k == 0 || s[k - 1] <= v) ==> Count(s, v) >= k
    ensures (k == |s| || s[k] > v) ==> Count(s, v) <= k
    decreases |s|
  {
    if s != [] {
      if k > 0 {
        CountInOrder(s[1..], k - 1, v);
      } else {
        CountInOrder(s[1..], 0, v);
      }
    }
  }

  /** Of a sorted sample, the percentile is the nearest-rank value, and there is always one. */
  lemma PercentileIsNearestRank(s: seq<nat>, percent: nat)
    requires Ordered(Ascending, s) && s != [] && percent <= 100 && |s| * percent + 99 < U64_LIMIT
    ensures Percentile(s, percent).Some? && NearestRank(s, percent, Percentile(s, percent).value)
  {
    var ceiling := (|s| * percent + 99) / 100;
    RankFits(|s|, percent);
    var rank := if ceiling < 1 then 1 else ceiling;
    var v := s[rank - 1];
    CountInOrder(s, rank, v);
    forall w | w in s && w < v ensures 100 * Count(s, w) < percent * |s| {
      CountInOrder(s, rank - 1, w);
      var i :| 0 <= i < |s| && s[i] == w;
      assert i < rank - 1;
    }
  }

  lemma RankFits(n: nat, percent: nat)
    requires n > 0 && percent <= 100
    ensures (n * percent + 99) / 100 <= n
    ensures n * percent == percent * n
  {
    assert n * percent <= n * 100;
  }

  // ----- the mean -----

  /** The running sum, or none once it passes 128 bits. */
  function CheckedSum(s: seq<nat>, sum: nat): Option<nat>
    decreases |s|
  {
    if s == [] then Some(sum)
    else if sum + s[0] >= U128_LIMIT then None
    else CheckedSum(s[1..], sum + s[0])
  }

  function Mean(s: seq<nat>): Option<nat> {
    match CheckedSum(s, 0)
    case None => None
    case Some(sum) => if |s| == 0 then None else Some(sum / |s|)
  }

  lemma {:induction false} CheckedSumIsSum(s: seq<nat>, sum: nat)
    requires sum < U128_LIMIT
    ensures CheckedSum(s, sum) == if sum + Sum(s) < U128_LIMIT then Some(sum + Sum(s)) else None
    decreases |s|
  {
    if s != [] && sum + s[0] < U128_LIMIT {
      CheckedSumIsSum(s[1..], sum + s[0]);
    }
  }

  lemma OneFactorMore(n: nat, x: nat)
    ensures (n + 1) * x == n * x + x
  {
  }

  lemma {:induction false} SumIsBounded(s: seq<nat>, high: nat)
    requires forall i :: 0 <= i < |s| ==> s[i] <= high
    ensures Sum(s) <= |s| * high
    decreases |s|
  {
    if s != [] {
      SumIsBounded(s[1..], high);
      OneFactorMore(|s[1..]|, high);
    }
  }

  lemma FactorsOrder(n: nat, a: nat, b: nat)
    requires a < b
    ensures n * a + n <= n * b
  {
    var k := b - a;
    assert n * (a + k) == n * a + n * k;
    BitStrings.MultipleAtLeast(k, n);
  }

  lemma QuotientIsBounded(sum: nat, n: nat, high: nat)
    requires n > 0 && sum <= n * high
    ensures sum / n <= high
  {
    var q := sum / n;
    assert sum == n * q + sum % n;
    if high < q {
      FactorsOrder(n, high, q);
    }
  }

  // ----- the summary -----

  function SummaryOf(durations: seq<nat>): Result<Summary, StatsError> {
    var sorted := Sorted(Ascending, durations);
    match (Percentile(sorted, 50), Percentile(sorted, 99), Mean(sorted))
    case (Some(p50), Some(p99), Some(mean)) =>
      if sorted == [] then Err(Empty) else Ok(Summary(p50, p99, mean, sorted[|sorted| - 1], |sorted|))
    case _ => Err(Empty)
  }

  lemma {:induction false} InsertIs(x: nat, rest: seq<nat>, m: nat)
    requires m <= |rest| && (m == |rest| || x <= rest[m])
    requires forall j :: 0 <= j < m ==> rest[j] < x
    ensures Insert(Ascending, x, rest) == rest[..m] + [x] + rest[m..]
    decreases m
  {
    if m > 0 {
      InsertIs(x, rest[1..], m - 1);
      assert rest[..m] == [rest[0]] + rest[1..][..m - 1];
    }
  }

  /** Moves the first of `a[i..]` to its place among the rest, which is sorted already. */
  method InsertInPlace(a: array<nat>, i: nat)
    requires i < a.Length
    modifies a
    ensures a[..i] == old(a[..i]) && a[i..] == Insert(Ascending, old(a[i]), old(a[i + 1..]))
  {
    hide Insert;
    var x, k := a[i], i;
    ghost var before, rest := a[..], a[i + 1..];
    while k + 1 < a.Length && a[k + 1] < x
      invariant i <= k < a.Length
      invariant forall j :: 0 <= j < k - i ==> a[i + j] == rest[j] < x
      invariant forall j :: 0 <= j < i || k < j < a.Length ==> a[j] == before[j]
    {
      a[k] := a[k + 1];
      k := k + 1;
    }
    a[k] := x;
    InsertIs(x, rest, k - i);
    assert a[i..] == rest[..k - i] + [x] + rest[k - i..];
  }

  method SortInPlace(a: array<nat>)
    modifies a
    ensures a[..] == Sorted(Ascending, old(a[..]))
  {
    hide Insert;
    ghost var was := a[..];
    for i := a.Length downto 0
      invariant a[..i] == was[..i] && a[i..] == Sorted(Ascending, was[i..])
    {
      assert was[i..][1..] == was[i + 1..] && a[..i + 1][..i] == a[..i];
      InsertInPlace(a, i);
    }
    assert was[0..] == was && a[0..] == a[..];
  }

  /** The durations are sorted where they are, and then read. */
  method Of(durations: array<nat>) returns (r: Result<Summary, StatsError>)
    modifies durations
    ensures durations[..] == Sorted(Ascending, old(durations[..])) && r == SummaryOf(old(durations[..]))
  {
    hide Sorted, Percentile, Mean;
    SortInPlace(durations);
    var sorted := durations[..];
    var p50, p99, mean := Percentile(sorted, 50), Percentile(sorted, 99), Mean(sorted);
    if p50.None? || p99.None? || mean.None? || durations.Length == 0 {
      return Err(Empty);
    }
    r := Ok(Summary(p50.value, p99.value, mean.value, durations[durations.Length - 1], durations.Length));
  }

  ghost predicate IsMax(s: seq<nat>, v: nat) {
    v in s && forall i :: 0 <= i < |s| ==> s[i] <= v
  }

  /** When there is a summary, and what its figures are of the sample as it came. */
  lemma SummaryExact(durations: seq<nat>)
    ensures SummaryOf(durations).Ok? <==>
      durations != [] && Sum(durations) < U128_LIMIT && |durations| * 99 + 99 < U64_LIMIT
    ensures SummaryOf(durations).Ok? ==>
      var summary := SummaryOf(durations).value;
      && NearestRank(durations, 50, summary.p50)
      && NearestRank(durations, 99, summary.p99)
      && summary.mean == Sum(durations) / |durations|
      && IsMax(durations, summary.max)
      && summary.samples == |durations|
  {
    hide Sorted, Percentile, NearestRank, IsMax, Ordered, Count;
    var sorted := Sorted(Ascending, durations);
    SortedKeeps(durations, 0);
    CheckedSumIsSum(sorted, 0);
    PercentileLimits(sorted, 50);
    PercentileLimits(sorted, 99);
    if SummaryOf(durations).Ok? {
      PercentileIsNearestRank(sorted, 50);
      PercentileIsNearestRank(sorted, 99);
      RankOfSorted(durations, 50, SummaryOf(durations).value.p50);
      RankOfSorted(durations, 99, SummaryOf(durations).value.p99);
      MaxOfSorted(durations);
    }
  }

  lemma PercentileLimits(s: seq<nat>, percent: nat)
    requires percent <= 100
    ensures Percentile(s, percent).Some? <==> s != [] && |s| * percent + 99 < U64_LIMIT
  {
    if s != [] {
      RankFits(|s|, percent);
    }
  }

  lemma RankOfSorted(s: seq<nat>, percent: nat, v: nat)
    requires NearestRank(Sorted(Ascending, s), percent, v)
    ensures NearestRank(s, percent, v)
  {
    hide Sorted, Sum, Count, Ordered;
    SortedKeeps(s, v);
    SortedHas(s, v);
    forall w | w in s && w < v ensures 100 * Count(s, w) < percent * |s| {
      SortedKeeps(s, w);
      SortedHas(s, w);
    }
  }

  lemma MaxOfSorted(s: seq<nat>)
    requires s != []
    ensures Sorted(Ascending, s) != [] && IsMax(s, Sorted(Ascending, s)[|Sorted(Ascending, s)| - 1])
  {
    hide Sorted, Sum, Count, Ordered;
    SortedKeeps(s, 0);
    LastIsMax(Sorted(Ascending, s));
    SortedHas(s, Sorted(Ascending, s)[|s| - 1]);
    forall i | 0 <= i < |s| ensures s[i] <= Sorted(Ascending, s)[|s| - 1] {
      SortedHas(s, s[i]);
    }
  }

  lemma LastIsMax(s: seq<nat>)
    requires s != [] && Ordered(Ascending, s)
    ensures forall v :: v in s ==> v <= s[|s| - 1]
  {
    forall v | v in s ensures v <= s[|s| - 1] {
      var i :| 0 <= i < |s| && s[i] == v;
      assert i == |s| - 1 || Ascending(s[i], s[|s| - 1]);
    }
  }

  /** The figures agree with one another: the report reader's consistency checks always hold. */
  lemma FiguresAgree(durations: seq<nat>)
    requires SummaryOf(durations).Ok?
    ensures var summary := SummaryOf(durations).value;
      summary.p50 <= summary.p99 <= summary.max && summary.mean <= summary.max < U128_LIMIT
  {
    hide Sorted, Sum, Count;
    var sorted := Sorted(Ascending, durations);
    SortedKeeps(durations, 0);
    var n, max := |sorted|, sorted[|sorted| - 1];
    RankFits(n, 50);
    RankFits(n, 99);
    assert n * 50 <= n * 99;
    CheckedSumIsSum(sorted, 0);
    SumIsBounded(sorted, max);
    QuotientIsBounded(Sum(sorted), n, max);
    MemberFits(sorted, n - 1);
  }

  lemma {:induction false} MemberFits(s: seq<nat>, i: nat)
    requires i < |s|
    ensures s[i] <= Sum(s)
    decreases |s|
  {
    if i > 0 {
      MemberFits(s[1..], i - 1);
    }
  }
}
