/** The statistics the load generator keeps while it fires requests: the
    request counters, the latencies of the successful requests, the
    percentile computation over them and the summary it prints. Latencies
    are modelled as exact reals. */
module LoadGenerator {
  import opened Wrappers

  /** The outcome of one request, as the load generator records it. */
  datatype RequestResult = RequestResult(requestId: string, mode: string, success: bool, latencyMs: real, error: Option<string>)

  // ---------------------------------------------------------------------
  // What the counters should hold after a sequence of results

  function CountSuccesses(results: seq<RequestResult>): (n: nat)
    ensures n <= |results|
  {
    if results == [] then 0
    else CountSuccesses(results[..|results| - 1]) + (if results[|results| - 1].success then 1 else 0)
  }

  function CountFailures(results: seq<RequestResult>): nat {
    if results == [] then 0
    else CountFailures(results[..|results| - 1]) + (if results[|results| - 1].success then 0 else 1)
  }

  /** The latencies of the successful results, in arrival order. */
  function SuccessLatencies(results: seq<RequestResult>): seq<real> {
    if results == [] then []
    else SuccessLatencies(results[..|results| - 1])
         + (if results[|results| - 1].success then [results[|results| - 1].latencyMs] else [])
  }

  /** Every result is a success or a failure, and only successes leave a
      latency. */
  lemma {:induction false} TallyConsistent(results: seq<RequestResult>)
    ensures CountSuccesses(results) + CountFailures(results) == |results|
    ensures |SuccessLatencies(results)| == CountSuccesses(results)
  {
    if results != [] {
      TallyConsistent(results[..|results| - 1]);
    }
  }

  // ---------------------------------------------------------------------
  // Sorting and percentiles

  ghost predicate Ascending(s: seq<real>) {
    forall i, j :: 0 <= i < j < |s| ==> s[i] <= s[j]
  }

  function Insert(x: real, s: seq<real>): (r: seq<real>)
    ensures |r| == |s| + 1 && multiset(r) == multiset(s) + multiset{x}
  {
    if s == [] || x <= s[0] then [x] + s
    else
      assert s == [s[0]] + s[1..];
      [s[0]] + Insert(x, s[1..])
  }

  lemma {:induction false} InsertAscending(x: real, s: seq<real>)
    requires Ascending(s)
    ensures Ascending(Insert(x, s))
  {
    if s != [] && x > s[0] {
      var rest := Insert(x, s[1..]);
      InsertAscending(x, s[1..]);
      InsertBounded(x, s[1..], s[0]);
      ConsAscending(s[0], rest);
    }
  }

  /** A value no larger than anything in an ascending sequence may be put
      in front of it. */
  lemma ConsAscending(a: real, s: seq<real>)
    requires Ascending(s) && forall k :: 0 <= k < |s| ==> a <= s[k]
    ensures Ascending([a] + s)
  {
    var r := [a] + s;
    forall i, j | 0 <= i < j < |r| ensures r[i] <= r[j] {
      assert r[j] == s[j - 1];
      if i > 0 {
        assert r[i] == s[i - 1];
      }
    }
  }

  /** Inserting a value no smaller than b into values no smaller than b
      keeps every value no smaller than b. */
  lemma {:induction false} InsertBounded(x: real, s: seq<real>, b: real)
    requires b <= x && forall k :: 0 <= k < |s| ==> b <= s[k]
    ensures forall k :: 0 <= k < |Insert(x, s)| ==> b <= Insert(x, s)[k]
  {
    if s != [] && x > s[0] {
      InsertBounded(x, s[1..], b);
    }
  }

  /** `sorted(data)` */
  function Sort(data: seq<real>): (s: seq<real>)
    ensures |s| == |data| && multiset(s) == multiset(data)
  {
    if data == [] then []
    else
      assert data == [data[0]] + data[1..];
      Insert(data[0], Sort(data[1..]))
  }

  lemma {:induction false} SortAscending(data: seq<real>)
    ensures Ascending(Sort(data))
  {
    if data != [] {
      SortAscending(data[1..]);
      InsertAscending(data[0], Sort(data[1..]));
    }
  }

  /** `int(x)`: truncation toward zero. */
  function Trunc(x: real): (i: int)
    ensures 0.0 <= x ==> i as real <= x < i as real + 1.0
    ensures x < 0.0 ==> i as real - 1.0 < x <= i as real
  {
    if x >= 0.0 then x.Floor else -((-x).Floor)
  }

  /** The fractional rank of the p-th percentile among n values, and the
      two neighbouring indices it falls between (the upper one clamped to
      the last index). */
  datatype Ranks = Ranks(k: real, f: int, c: int)

  function PercentileRanks(n: nat, p: real): Ranks {
    var k := (n - 1) as real * (p / 100.0);
    var f := Trunc(k);
    Ranks(k, f, if f + 1 < n then f + 1 else f)
  }

  /** For a percentage between 0 and 100 both indices are valid, the upper
      one is the next index unless the lower one is the last, and the
      fractional rank lies in [f, f + 1). */
  lemma {:induction false} RanksInBounds(n: nat, p: real)
    requires n > 0 && 0.0 <= p <= 100.0
    ensures var r := PercentileRanks(n, p);
      && 0 <= r.f <= r.c <= n - 1
      && (r.c == r.f + 1 || r.f == n - 1)
      && r.f as real <= r.k < r.f as real + 1.0
      && (r.c == r.f ==> r.k == r.f as real)
  {
    var k := (n - 1) as real * (p / 100.0);
    assert 0.0 <= p / 100.0 <= 1.0;
    MulBetween((n - 1) as real, p / 100.0);
    assert 0.0 <= k <= (n - 1) as real;
  }

  lemma MulBetween(a: real, t: real)
    requires 0.0 <= a && 0.0 <= t <= 1.0
    ensures 0.0 <= a * t <= a && 0.0 <= t * a <= a
  {
    assert a - a * t == a * (1.0 - t);
    assert a - t * a == (1.0 - t) * a;
  }

  /** A point a fraction t of the way from a to b lies between them. */
  /** The point a fraction t of the way from a to b. */
  function Lerp(a: real, b: real, t: real): real {
    a + t * (b - a)
  }

  lemma Interpolate(a: real, b: real, t: real)
    requires a <= b && 0.0 <= t <= 1.0
    ensures a <= Lerp(a, b, t) <= b
  {
    var d := b - a;
    MulBetween(d, t);
    var m := t * d;
    assert 0.0 <= m <= d;
    calc {
      a + t * (b - a);
      { assert b - a == d; }
      a + m;
    }
  }

  class LoadTestStats {
    const mode: string
    var totalRequests: int
    var successful: int
    var failed: int
    var latenciesMs: seq<real>
    /** The results added so far. */
    ghost var results: seq<RequestResult>

    /** The counters and the latency list agree with the results added. */
    ghost predicate Valid()
      reads this
    {
      && totalRequests == |results|
      && successful == CountSuccesses(results)
      && failed == CountFailures(results)
      && latenciesMs == SuccessLatencies(results)
    }

    constructor (mode: string)
      ensures Valid() && this.mode == mode && results == []
      ensures totalRequests == 0 && successful == 0 && failed == 0 && latenciesMs == []
    {
      this.mode := mode;
      totalRequests, successful, failed, latenciesMs := 0, 0, 0, [];
      results := [];
    }

    /** `add_result`: one more request; a success also records its latency. */
    method AddResult(result: RequestResult)
      requires Valid()
      modifies this
      ensures Valid() && results == old(results) + [result]
      ensures totalRequests == old(totalRequests) + 1
      ensures result.success ==>
        successful == old(successful) + 1 && failed == old(failed) && latenciesMs == old(latenciesMs) + [result.latencyMs]
      ensures !result.success ==>
        failed == old(failed) + 1 && successful == old(successful) && latenciesMs == old(latenciesMs)
    {
      totalRequests := totalRequests + 1;
      if result.success {
        successful := successful + 1;
        latenciesMs := latenciesMs + [result.latencyMs];
      } else {
        failed := failed + 1;
      }
      results := results + [result];
      assert results[..|results| - 1] == old(results);
    }

    /** Whatever results were added, the total is the sum of successes and
        failures, and there is one latency per success. */
    lemma CountersAgree()
      requires Valid()
      ensures totalRequests == successful + failed
      ensures |latenciesMs| == successful
      ensures 0 <= successful <= totalRequests
    {
      TallyConsistent(results);
    }

    /** `percentile`: None for no data, otherwise the linear
        interpolation between the two sorted values around the p-th
        percentile; it lies between them, hence between the smallest and
        the largest value. */
    static function Percentile(data: seq<real>, p: real): (r: Option<real>)
      requires 0.0 <= p <= 100.0
      ensures r.None? <==> data == []
      ensures r.Some? ==> Sort(data)[0] <= r.value <= Sort(data)[|data| - 1]
    {
      if data == [] then None
      else
        var s := Sort(data);
        SortAscending(data);
        Some(Interpolated(s, p))
    }

    /** `summary`: the counters, the success rate ("N/A" without
        requests) and the 50th, 95th and 99th latency percentiles (None
        without latencies). */
    function Summary(): (s: StatsSummary)
      reads this
      ensures s.mode == mode && s.totalRequests == totalRequests && s.successful == successful && s.failed == failed
      ensures s.successRate == SuccessRateOf(successful, totalRequests)
      ensures s.successRate.NotAvailable? <==> totalRequests <= 0
      ensures s.successRate.Percent? ==> s.successRate.percent * totalRequests as real == successful as real * 100.0
      ensures s.latencyP50Ms.None? <==> latenciesMs == []
      ensures s.latencyP95Ms.None? <==> latenciesMs == []
      ensures s.latencyP99Ms.None? <==> latenciesMs == []
      ensures latenciesMs != [] ==>
        && s.latencyP50Ms == Percentile(latenciesMs, 50.0)
        && s.latencyP95Ms == Percentile(latenciesMs, 95.0)
        && s.latencyP99Ms == Percentile(latenciesMs, 99.0)
    {
      StatsSummary(
        mode, totalRequests, successful, failed,
        SuccessRateOf(successful, totalRequests),
        if latenciesMs != [] then Percentile(latenciesMs, 50.0) else None,
        if latenciesMs != [] then Percentile(latenciesMs, 95.0) else None,
        if latenciesMs != [] then Percentile(latenciesMs, 99.0) else None)
    }

    /** Whatever results were added, the summary reports a rate between 0
        and 100 percent, and latency percentiles that rise from the 50th to
        the 99th and stay within the smallest and largest latency. */
    lemma SummaryInRange()
      requires Valid()
      ensures var s := Summary();
        && (s.successRate.Percent? ==> 0.0 <= s.successRate.percent <= 100.0)
        && (latenciesMs != [] ==>
              && Sort(latenciesMs)[0] <= s.latencyP50Ms.value
              && s.latencyP50Ms.value <= s.latencyP95Ms.value <= s.latencyP99Ms.value
              && s.latencyP99Ms.value <= Sort(latenciesMs)[|latenciesMs| - 1])
    {
      CountersAgree();
      if totalRequests > 0 {
        SuccessRateInRange(successful, totalRequests);
      }
      if latenciesMs != [] {
        SortAscending(latenciesMs);
        InterpolatedMonotone(Sort(latenciesMs), 50.0, 95.0);
        InterpolatedMonotone(Sort(latenciesMs), 95.0, 99.0);
      }
    }
  }

  /** The interpolated p-th percentile of sorted values: it lies between
      the two values around the fractional rank, and is the value at that
      rank when the rank is whole. */
  function Interpolated(s: seq<real>, p: real): (v: real)
    requires s != [] && Ascending(s) && 0.0 <= p <= 100.0
    ensures var ranks := PercentileRanks(|s|, p);
      && 0 <= ranks.f <= ranks.c < |s| && s[ranks.f] <= v <= s[ranks.c]
      && (ranks.k == ranks.f as real ==> v == s[ranks.f])
    ensures s[0] <= v <= s[|s| - 1]
  {
    var ranks := PercentileRanks(|s|, p);
    RanksInBounds(|s|, p);
    var lo, hi := s[ranks.f], s[ranks.c];
    assert s[0] <= lo <= hi <= s[|s| - 1];
    var t := ranks.k - ranks.f as real;
    Interpolate(lo, hi, t);
    Lerp(lo, hi, t)
  }

  /** A higher percentage never gives a lower rank. */
  lemma RanksMonotone(n: nat, p: real, q: real)
    requires n > 0 && 0.0 <= p <= q <= 100.0
    ensures PercentileRanks(n, p).k <= PercentileRanks(n, q).k
    ensures PercentileRanks(n, p).f <= PercentileRanks(n, q).f
  {
    var m, x, y := (n - 1) as real, p / 100.0, q / 100.0;
    assert 0.0 <= x <= y;
    MulMonotone(x, y, m);
    MulBetween(m, x);
    TruncMonotone(m * x, m * y);
  }

  /** Truncation of non-negative numbers keeps their order. */
  lemma TruncMonotone(u: real, v: real)
    requires 0.0 <= u <= v
    ensures Trunc(u) <= Trunc(v)
  {
    var i, j := Trunc(u), Trunc(v);
    assert i as real <= u <= v < (j + 1) as real;
  }

  lemma MulMonotone(x: real, y: real, d: real)
    requires x <= y && 0.0 <= d
    ensures x * d <= y * d && d * x <= d * y
  {
    assert y * d - x * d == (y - x) * d;
    assert d * y - d * x == d * (y - x);
  }

  /** Further along the way from a to b is no lower. */
  lemma LerpMonotone(a: real, b: real, x: real, y: real)
    requires a <= b && x <= y
    ensures Lerp(a, b, x) <= Lerp(a, b, y)
  {
    MulMonotone(x, y, b - a);
  }

  /** The interpolated percentile of sorted values never falls as the
      percentage grows. */
  lemma InterpolatedMonotone(s: seq<real>, p: real, q: real)
    requires s != [] && Ascending(s) && 0.0 <= p <= q <= 100.0
    ensures Interpolated(s, p) <= Interpolated(s, q)
  {
    var a, b := PercentileRanks(|s|, p), PercentileRanks(|s|, q);
    RanksInBounds(|s|, p);
    RanksInBounds(|s|, q);
    RanksMonotone(|s|, p, q);
    if a.f == b.f {
      assert a.c == b.c;
      LerpMonotone(s[a.f], s[a.c], a.k - a.f as real, b.k - a.f as real);
    } else {
      assert a.c <= b.f;
      assert s[a.c] <= s[b.f];
    }
  }

  /** The success rate: successes per hundred requests, or "N/A" when no
      request was made. */
  function SuccessRateOf(successful: int, total: int): (r: SuccessRate)
    ensures r.NotAvailable? <==> total <= 0
    ensures r.Percent? ==> r.percent * total as real == successful as real * 100.0
  {
    if total > 0 then Percent(successful as real / total as real * 100.0) else NotAvailable
  }

  /** With no more successes than requests, the rate is a percentage. */
  lemma SuccessRateInRange(successful: int, total: int)
    requires 0 <= successful <= total && total > 0
    ensures 0.0 <= SuccessRateOf(successful, total).percent <= 100.0
  {
    var t, k := total as real, successful as real;
    assert k / t <= 1.0;
  }

  datatype SuccessRate = NotAvailable | Percent(percent: real)

  datatype StatsSummary = StatsSummary(
    mode: string,
    totalRequests: int,
    successful: int,
    failed: int,
    successRate: SuccessRate,
    latencyP50Ms: Option<real>,
    latencyP95Ms: Option<real>,
    latencyP99Ms: Option<real>)

  /** Of sorted values, the interpolated 0th percentile is the first and
      the 100th the last. */
  lemma InterpolatedExtremes(s: seq<real>)
    requires s != [] && Ascending(s)
    ensures Interpolated(s, 0.0) == s[0]
    ensures Interpolated(s, 100.0) == s[|s| - 1]
  {
    var n := |s|;
    var low := PercentileRanks(n, 0.0);
    assert low.k == 0.0 && Trunc(0.0) == 0;
    var high := PercentileRanks(n, 100.0);
    assert high.k == (n - 1) as real;
    assert ((n - 1) as real).Floor == n - 1;
    assert high.f == n - 1;
  }

  /** The 0th percentile is the smallest value and the 100th the largest. */
  lemma PercentileExtremes(data: seq<real>)
    requires data != []
    ensures LoadTestStats.Percentile(data, 0.0) == Some(Sort(data)[0])
    ensures LoadTestStats.Percentile(data, 100.0) == Some(Sort(data)[|data| - 1])
  {
    var s := Sort(data);
    SortAscending(data);
    InterpolatedExtremes(s);
    assert LoadTestStats.Percentile(data, 0.0) == Some(Interpolated(s, 0.0));
    assert LoadTestStats.Percentile(data, 100.0) == Some(Interpolated(s, 100.0));
  }

  /** Sorting puts the smallest value first and the largest last. */
  lemma SortedBounds(data: seq<real>, i: nat)
    requires i < |data|
    ensures Sort(data)[0] <= data[i] <= Sort(data)[|data| - 1]
  {
    SortPermutes(data, i);
    SortAscending(data);
    AscendingBounds(Sort(data), data[i]);
  }

  /** Every value is still present after sorting. */
  lemma SortPermutes(data: seq<real>, i: nat)
    requires i < |data|
    ensures data[i] in Sort(data)
  {
    assert data[i] in multiset(data);
  }

  /** Every element of an ascending list lies between its first and last
      elements. */
  lemma AscendingBounds(s: seq<real>, x: real)
    requires Ascending(s) && x in s
    ensures s[0] <= x <= s[|s| - 1]
  {
    var j :| 0 <= j < |s| && s[j] == x;
    assert s[0] <= s[j] && s[j] <= s[|s| - 1];
  }
}
