/**
 * The report over one host's recorded ping times (ICMP_Pinger.py:24-30,
 * 176-186) and the packet-loss figure printed after it (line 210).
 */
module Statistics {
  import opened Wrappers

  /** Attempts per host. */
  const ProbeCount := 10

  function Sum(s: seq<int>): int
  {
    if |s| == 0 then 0 else Sum(s[..|s| - 1]) + s[|s| - 1]
  }

  function Mean(s: seq<int>): real
    requires |s| > 0
  {
    Sum(s) as real / |s| as real
  }

  /** Python's `min` of a non-empty list. */
  function Minimum(s: seq<int>): (m: int)
    requires |s| > 0
    ensures m in s && forall i :: 0 <= i < |s| ==> m <= s[i]
  {
    if |s| == 1 then s[0]
    else
      var rest := Minimum(s[..|s| - 1]);
      if s[|s| - 1] < rest then s[|s| - 1] else rest
  }

  /** Python's `max` of a non-empty list. */
  function Maximum(s: seq<int>): (m: int)
    requires |s| > 0
    ensures m in s && forall i :: 0 <= i < |s| ==> s[i] <= m
  {
    if |s| == 1 then s[0]
    else
      var rest := Maximum(s[..|s| - 1]);
      if s[|s| - 1] > rest then s[|s| - 1] else rest
  }

  /** `avgPingTime`: the `for` loop summing the list, then the division by its length. */
  method AvgPingTime(arr: seq<int>) returns (avg: real)
    requires |arr| > 0
    ensures avg == Mean(arr)
  {
    var sum := 0;
    for i := 0 to |arr|
      invariant sum == Sum(arr[..i])
    {
      assert arr[..i + 1][..i] == arr[..i];
      sum := sum + arr[i];
    }
    assert arr[..|arr|] == arr;
    avg := sum as real / |arr| as real;
  }

  datatype Report = Report(maxPing: int, minPing: int, avgPing: real)

  /** `pingReport`: min, max and mean of the recorded times, or nothing when none was recorded. */
  method PingReport(pings: seq<int>) returns (r: Option<Report>)
    ensures r.Some? <==> |pings| != 0
    ensures r.Some? ==> r.value.minPing in pings && r.value.maxPing in pings
    ensures r.Some? ==> forall i :: 0 <= i < |pings| ==> r.value.minPing <= pings[i] <= r.value.maxPing
    ensures r.Some? ==> r.value.minPing as real <= r.value.avgPing <= r.value.maxPing as real
    ensures r.Some? ==> r.value.avgPing == Mean(pings)
  {
    if |pings| != 0 {
      var minPing := Minimum(pings);
      var maxPing := Maximum(pings);
      var avgPing := AvgPingTime(pings);
      MeanBetweenExtremes(pings);
      r := Some(Report(maxPing, minPing, avgPing));
    } else {
      r := None;
    }
  }

  lemma {:induction false} SumBounds(s: seq<int>, lo: int, hi: int)
    requires forall i :: 0 <= i < |s| ==> lo <= s[i] <= hi
    ensures |s| * lo <= Sum(s) <= |s| * hi
  {
    if |s| > 0 {
      SumBounds(s[..|s| - 1], lo, hi);
      assert (|s| - 1) * lo + lo == |s| * lo;
      assert (|s| - 1) * hi + hi == |s| * hi;
    }
  }

  /** The mean lies between the minimum and the maximum. */
  lemma MeanBetweenExtremes(s: seq<int>)
    requires |s| > 0
    ensures Minimum(s) as real <= Mean(s) <= Maximum(s) as real
  {
    var lo, hi, n := Minimum(s), Maximum(s), |s|;
    SumBounds(s, lo, hi);
    QuotientBounds(Sum(s), n, lo, hi);
  }

  lemma QuotientBounds(sum: int, n: int, lo: int, hi: int)
    requires n > 0 && n * lo <= sum <= n * hi
    ensures lo as real <= sum as real / n as real <= hi as real
  {
    var q := sum as real / n as real;
    assert q * n as real == sum as real;
    assert (n * lo) as real == n as real * lo as real;
    assert (n * hi) as real == n as real * hi as real;
  }

  /** `((10 - len(ping_times)) / 10) * 100`. */
  function LossPercent(received: int): (loss: real)
    ensures loss == (ProbeCount - received) as real * 10.0
    ensures 0 <= received <= ProbeCount ==> 0.0 <= loss <= 100.0
  {
    ((ProbeCount - received) as real / ProbeCount as real) * 100.0
  }

  /** Loss is a percentage; it is 100 exactly when nothing came back and 0 exactly when everything did. */
  lemma LossIsPercentage(received: int)
    requires 0 <= received <= ProbeCount
    ensures 0.0 <= LossPercent(received) <= 100.0
    ensures LossPercent(received) == 100.0 <==> received == 0
    ensures LossPercent(received) == 0.0 <==> received == ProbeCount
  {
  }
}
