/** The process-wide request metrics (main.py `Metrics` and the `/metrics` error rate). */
module MetricsRecorder {

  /** How many recent latencies are kept. */
  const MaxSamples: nat := 1000

  function Min(a: int, b: int): int {
    if a <= b then a else b
  }

  /**
   * The latency window after appending `sample` to `window`: the last
   * min(|window| + 1, MaxSamples) entries of `window + [sample]`, oldest first.
   */
  function Window(window: seq<real>, sample: real): (r: seq<real>)
    ensures |r| == Min(|window| + 1, MaxSamples)
    ensures r[|r| - 1] == sample
    ensures forall i :: 0 <= i < |r| - 1 ==> r[i] == window[|window| - (|r| - 1) + i]
  {
    var all := window + [sample];
    all[|all| - Min(|all|, MaxSamples)..]
  }

  /** The window left by recording `samples` in order into a fresh recorder. */
  function Replay(samples: seq<real>): seq<real>
    decreases |samples|
  {
    if samples == [] then []
    else Window(Replay(samples[..|samples| - 1]), samples[|samples| - 1])
  }

  /** Whatever the history, the recorder holds exactly its MaxSamples most recent latencies, in order. */
  lemma {:induction false} ReplayKeepsMostRecent(samples: seq<real>)
    ensures Replay(samples) == samples[|samples| - Min(|samples|, MaxSamples)..]
    decreases |samples|
  {
    if samples != [] {
      var history := samples[..|samples| - 1];
      var x := samples[|samples| - 1];
      ReplayKeepsMostRecent(history);
      var kept := history[|history| - Min(|history|, MaxSamples)..];
      var r := Window(kept, x);
      var expected := samples[|samples| - Min(|samples|, MaxSamples)..];
      assert |r| == |expected|;
      forall i | 0 <= i < |r|
        ensures r[i] == expected[i]
      {
        if i < |r| - 1 {
          assert r[i] == kept[|kept| - (|r| - 1) + i];
        }
      }
    }
  }

  // ----- Order statistics used by `get_stats` -----

  predicate IsAscending(s: seq<real>) {
    forall i, j :: 0 <= i < j < |s| ==> s[i] <= s[j]
  }

  /** Every element of a permutation of `s + [x]` is at least a common lower bound of `s` and `x`. */
  lemma BoundedByMultiset(lo: real, x: real, s: seq<real>, r: seq<real>)
    requires lo <= x && forall k :: 0 <= k < |s| ==> lo <= s[k]
    requires multiset(r) == multiset(s) + multiset{x}
    ensures forall i :: 0 <= i < |r| ==> lo <= r[i]
  {
    forall i | 0 <= i < |r|
      ensures lo <= r[i]
    {
      assert r[i] in multiset(r);
      if r[i] != x {
        assert r[i] in multiset(s);
        var k :| 0 <= k < |s| && s[k] == r[i];
      }
    }
  }

  /** Prefixing a lower bound keeps a sequence ascending. */
  lemma ConsAscending(a: real, r: seq<real>)
    requires IsAscending(r) && forall i :: 0 <= i < |r| ==> a <= r[i]
    ensures IsAscending([a] + r)
  {
    var c := [a] + r;
    forall i, j | 0 <= i < j < |c|
      ensures c[i] <= c[j]
    {
      assert c[j] == r[j - 1];
      if i > 0 {
        assert c[i] == r[i - 1];
      }
    }
  }

  /** Inserting into an ascending sequence keeps it ascending and adds exactly `x`. */
  function Insert(x: real, s: seq<real>): (r: seq<real>)
    requires IsAscending(s)
    ensures |r| == |s| + 1
    ensures IsAscending(r) && multiset(r) == multiset(s) + multiset{x}
  {
    if s == [] || x <= s[0] then
      ConsAscending(x, s);
      [x] + s
    else
      var tail := s[1..];
      var rest := Insert(x, tail);
      assert s == [s[0]] + tail;
      BoundedByMultiset(s[0], x, tail, rest);
      ConsAscending(s[0], rest);
      [s[0]] + rest
  }

  lemma AscendingAt(r: seq<real>, i: nat, j: nat)
    requires IsAscending(r) && i <= j < |r|
    ensures r[i] <= r[j]
  {
  }

  /** `sorted(s)`: an ascending permutation of `s`. */
  function SortAscending(s: seq<real>): (r: seq<real>)
    ensures |r| == |s|
    ensures IsAscending(r) && multiset(r) == multiset(s)
  {
    if s == [] then []
    else
      assert s == [s[0]] + s[1..];
      Insert(s[0], SortAscending(s[1..]))
  }

  /** Sorting an already ascending sequence changes nothing. */
  lemma {:induction false} SortAscendingFixesSorted(s: seq<real>)
    requires IsAscending(s)
    ensures SortAscending(s) == s
  {
    if s != [] {
      SortAscendingFixesSorted(s[1..]);
      assert s == [s[0]] + s[1..];
    }
  }

  /** How many elements of `s` satisfy `keep`. */
  function Count(s: seq<real>, keep: real -> bool): nat {
    if s == [] then 0 else (if keep(s[0]) then 1 else 0) + Count(s[1..], keep)
  }

  lemma {:induction false} CountAppend(u: seq<real>, v: seq<real>, keep: real -> bool)
    ensures Count(u + v, keep) == Count(u, keep) + Count(v, keep)
    decreases |u|
  {
    if u == [] {
      assert u + v == v;
    } else {
      assert (u + v)[1..] == u[1..] + v;
      CountAppend(u[1..], v, keep);
    }
  }

  /** Removing the element at `j` removes exactly its own contribution to a count. */
  lemma CountRemoveAt(b: seq<real>, j: nat, keep: real -> bool)
    requires j < |b|
    ensures Count(b, keep) == Count(b[..j] + b[j + 1..], keep) + (if keep(b[j]) then 1 else 0)
  {
    var x := b[j];
    var before, after := b[..j], b[j + 1..];
    var upTo := before + [x];
    assert b == upTo + after;
    CountAppend(upTo, after, keep);
    CountAppend(before, [x], keep);
    CountAppend(before, after, keep);
    assert Count([x], keep) == (if keep(x) then 1 else 0) by {
      assert [x][1..] == [];
    }
  }

  lemma MultisetRemoveAt(b: seq<real>, j: nat)
    requires j < |b|
    ensures multiset(b[..j] + b[j + 1..]) == multiset(b) - multiset{b[j]}
  {
    assert b == b[..j] + [b[j]] + b[j + 1..];
  }

  /** Counting depends only on which values occur how often. */
  lemma {:induction false} CountPermutation(a: seq<real>, b: seq<real>, keep: real -> bool)
    requires multiset(a) == multiset(b)
    ensures Count(a, keep) == Count(b, keep)
    decreases |a|
  {
    if a != [] {
      var x := a[0];
      assert x in multiset(b) by {
        assert x in multiset(a);
      }
      var j :| 0 <= j < |b| && b[j] == x;
      MultisetRemoveAt(b, j);
      assert a == [x] + a[1..];
      CountPermutation(a[1..], b[..j] + b[j + 1..], keep);
      CountRemoveAt(b, j, keep);
    }
  }

  lemma {:induction false} CountAll(s: seq<real>, keep: real -> bool)
    requires forall i :: 0 <= i < |s| ==> keep(s[i])
    ensures Count(s, keep) == |s|
  {
    if s != [] {
      CountAll(s[1..], keep);
    }
  }

  lemma {:induction false} CountNone(s: seq<real>, keep: real -> bool)
    requires forall i :: 0 <= i < |s| ==> !keep(s[i])
    ensures Count(s, keep) == 0
  {
    if s != [] {
      CountNone(s[1..], keep);
    }
  }

  lemma {:induction false} CountAtMostLength(s: seq<real>, keep: real -> bool)
    ensures Count(s, keep) <= |s|
  {
    if s != [] {
      CountAtMostLength(s[1..], keep);
    }
  }

  function AtMost(p: real): real -> bool {
    x => x <= p
  }

  function Below(p: real): real -> bool {
    x => x < p
  }

  /** Samples no larger than `p`. */
  function CountAtMost(s: seq<real>, p: real): nat {
    Count(s, AtMost(p))
  }

  /** Samples strictly smaller than `p`. */
  function CountBelow(s: seq<real>, p: real): nat {
    Count(s, Below(p))
  }

  lemma SortedAtMost(r: seq<real>, k: nat)
    requires IsAscending(r) && k < |r|
    ensures Count(r, AtMost(r[k])) >= k + 1
  {
    var keep := AtMost(r[k]);
    var low, high := r[..k + 1], r[k + 1..];
    assert r == low + high;
    forall i | 0 <= i < |low|
      ensures keep(low[i])
    {
      assert low[i] == r[i];
    }
    CountAll(low, keep);
    CountAppend(low, high, keep);
  }

  lemma SortedBelow(r: seq<real>, k: nat)
    requires IsAscending(r) && k < |r|
    ensures Count(r, Below(r[k])) <= k
  {
    var keep := Below(r[k]);
    var low, high := r[..k], r[k..];
    assert r == low + high;
    forall i | 0 <= i < |high|
      ensures !keep(high[i])
    {
      assert high[i] == r[k + i];
    }
    CountNone(high, keep);
    CountAtMostLength(low, keep);
    CountAppend(low, high, keep);
  }

  /**
   * The element at index `k` of the sorted samples is a rank statistic of
   * the samples themselves: one of them, with at least k + 1 samples at most
   * it and at most k samples below it.
   */
  lemma RankOfSorted(s: seq<real>, k: nat)
    requires k < |s|
    ensures SortAscending(s)[k] in s
    ensures CountAtMost(s, SortAscending(s)[k]) >= k + 1
    ensures CountBelow(s, SortAscending(s)[k]) <= k
  {
    var r := SortAscending(s);
    assert r[k] in multiset(r);
    SortedAtMost(r, k);
    CountPermutation(s, r, AtMost(r[k]));
    SortedBelow(r, k);
    CountPermutation(s, r, Below(r[k]));
  }

  /** The three percentile indices are ordered and fall inside a non-empty window. */
  lemma PercentileIndices(n: nat)
    requires n > 0
    ensures n / 2 <= n * 95 / 100 <= n * 99 / 100 < n
  {
    assert n * 95 / 100 * 100 <= n * 95;
    assert n * 99 / 100 * 100 <= n * 99;
  }

  class Metrics {
    var requestCount: nat
    var errorCount: nat
    /** The most recent latencies in milliseconds, oldest first. */
    var latencies: seq<real>

    ghost predicate Valid()
      reads this
    {
      errorCount <= requestCount && |latencies| <= MaxSamples && |latencies| <= requestCount
    }

    constructor ()
      ensures Valid()
      ensures requestCount == 0 && errorCount == 0 && latencies == []
    {
      requestCount, errorCount, latencies := 0, 0, [];
    }

    /** `record_request`: one more request, one more error if it failed, and its latency in the window. */
    method RecordRequest(latencyMs: real, isError: bool)
      requires Valid()
      modifies this
      ensures Valid()
      ensures requestCount == old(requestCount) + 1
      ensures errorCount == old(errorCount) + (if isError then 1 else 0)
      ensures latencies == Window(old(latencies), latencyMs)
    {
      requestCount := requestCount + 1;
      if isError {
        errorCount := errorCount + 1;
      }
      latencies := latencies + [latencyMs];
      if |latencies| > MaxSamples {
        latencies := latencies[|latencies| - MaxSamples..];
      }
    }

    /** The `error_rate` figure of `/metrics`: 0 before any request, otherwise errors over requests. */
    function ErrorRate(): (rate: real)
      reads this
      requires Valid()
      ensures 0.0 <= rate <= 1.0
      ensures rate == 0.0 <==> errorCount == 0
      ensures rate == 1.0 <==> requestCount > 0 && errorCount == requestCount
      ensures requestCount > 0 ==> rate * requestCount as real == errorCount as real
    {
      if requestCount > 0 then
        var rate := errorCount as real / requestCount as real;
        assert rate * requestCount as real == errorCount as real;
        rate
      else 0.0
    }

    /**
     * `get_stats`: nothing before the first sample; otherwise p50, p95 and p99
     * read from the sorted window at indices n/2, n*95/100 and n*99/100.
     */
    function GetStats(): (stats: map<string, real>)
      reads this
      ensures latencies == [] <==> stats == map[]
      ensures latencies != [] ==> stats.Keys == {"p50", "p95", "p99"}
      ensures latencies != [] ==> stats["p50"] <= stats["p95"] <= stats["p99"]
      ensures forall key :: key in stats ==> stats[key] in latencies
      ensures latencies != [] ==>
        var n := |latencies|;
        && CountAtMost(latencies, stats["p50"]) > n / 2 && CountBelow(latencies, stats["p50"]) <= n / 2
        && CountAtMost(latencies, stats["p95"]) > n * 95 / 100 && CountBelow(latencies, stats["p95"]) <= n * 95 / 100
        && CountAtMost(latencies, stats["p99"]) > n * 99 / 100 && CountBelow(latencies, stats["p99"]) <= n * 99 / 100
      ensures latencies != [] ==> stats["p50"] == SortAscending(latencies)[|latencies| / 2]
    {
      if latencies == [] then map[]
      else
        var sorted := SortAscending(latencies);
        var n := |sorted|;
        var i50, i95, i99 := n / 2, n * 95 / 100, n * 99 / 100;
        PercentileIndices(n);
        RankOfSorted(latencies, i50);
        RankOfSorted(latencies, i95);
        RankOfSorted(latencies, i99);
        AscendingAt(sorted, i50, i95);
        AscendingAt(sorted, i95, i99);
        PercentileMap(sorted)
    }
  }

  /** The three percentile entries read from a non-empty sorted window. */
  function PercentileMap(sorted: seq<real>): (stats: map<string, real>)
    requires sorted != []
    ensures stats.Keys == {"p50", "p95", "p99"}
    ensures stats["p50"] == sorted[|sorted| / 2]
    ensures stats["p95"] == sorted[|sorted| * 95 / 100]
    ensures stats["p99"] == sorted[|sorted| * 99 / 100]
  {
    var n := |sorted|;
    PercentileIndices(n);
    map["p50" := sorted[n / 2], "p95" := sorted[n * 95 / 100], "p99" := sorted[n * 99 / 100]]
  }

  /** The latencies 10, 20, ..., 1000, recorded in that order. */
  function HundredSamples(): (s: seq<real>)
    ensures |s| == 100 && IsAscending(s)
    ensures s[100 / 2] == 510.0
  {
    seq(100, i requires 0 <= i < 100 => (10 * (i + 1)) as real)
  }

  /** The worked example: a recorder that has recorded latencies 10, 20, ..., 1000 reports a p50 of 510. */
  lemma MedianOfHundredSamples(m: Metrics)
    requires m.latencies == Replay(HundredSamples())
    ensures "p50" in m.GetStats() && m.GetStats()["p50"] == 510.0
  {
    var s := HundredSamples();
    ReplayKeepsMostRecent(s);
    assert s[|s| - Min(|s|, MaxSamples)..] == s;
    SortAscendingFixesSorted(s);
  }
}
