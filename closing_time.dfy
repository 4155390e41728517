/** The closing-time estimator: an abstraction of the windowed HDR histogram
    that the scan creates once per page. It keeps exactly the values recorded
    into it, and its estimate is their integer mean. */
module ClosingTime {

  /** Sum of the recorded values, folded from the end so that recording one
      more value adds one term. */
  function Sum(s: seq<int>): int
  {
    if s == [] then 0 else Sum(s[..|s| - 1]) + s[|s| - 1]
  }

  /** The estimate read from a histogram holding `s`: 0 when nothing was
      recorded, the mean rounded down otherwise. */
  function IntMean(s: seq<int>): int
  {
    if |s| == 0 then 0 else Sum(s) / |s|
  }

  /** The histogram of one page. `recorded` is everything passed to
      RecordValue since the histogram was created. */
  class Histogram {
    var recorded: seq<int>

    constructor ()
      ensures recorded == []
    {
      recorded := [];
    }

    method RecordValue(v: int)
      modifies this
      ensures recorded == old(recorded) + [v]
    {
      recorded := recorded + [v];
    }

    /** The estimate: 0 when nothing was recorded; otherwise the largest m
        with m times the number of values at most their sum. */
    function Mean(): (m: int)
      reads this
      ensures recorded == [] ==> m == 0
      ensures recorded != [] ==> |recorded| * m <= Sum(recorded) < |recorded| * (m + 1)
    {
      IntMean(recorded)
    }
  }

  lemma {:induction false} SumAtLeast(s: seq<int>, lo: int)
    requires forall i :: 0 <= i < |s| ==> lo <= s[i]
    ensures |s| * lo <= Sum(s)
  {
    if s != [] {
      SumAtLeast(s[..|s| - 1], lo);
      assert |s| * lo == (|s| - 1) * lo + lo;
    }
  }

  lemma {:induction false} SumAtMost(s: seq<int>, hi: int)
    requires forall i :: 0 <= i < |s| ==> s[i] <= hi
    ensures Sum(s) <= |s| * hi
  {
    if s != [] {
      SumAtMost(s[..|s| - 1], hi);
      assert |s| * hi == (|s| - 1) * hi + hi;
    }
  }

  lemma MulMonotone(n: int, a: int, b: int)
    requires n > 0 && a <= b
    ensures n * a <= n * b
  {
    assert n * b - n * a == n * (b - a);
  }

  lemma DivBetween(total: int, n: int, lo: int, hi: int)
    requires n > 0 && n * lo <= total <= n * hi
    ensures lo <= total / n <= hi
  {
    var q := total / n;
    assert total == n * q + total % n;
    if q < lo {
      MulMonotone(n, q + 1, lo);
    }
    if q > hi {
      MulMonotone(n, hi, q);
    }
  }

  /** The estimate lies between the least and the greatest recorded value:
      a mean, not some other statistic. */
  lemma MeanWithinBounds(s: seq<int>, lo: int, hi: int)
    requires |s| > 0
    requires forall i :: 0 <= i < |s| ==> lo <= s[i] <= hi
    ensures lo <= IntMean(s) <= hi
  {
    SumAtLeast(s, lo);
    SumAtMost(s, hi);
    DivBetween(Sum(s), |s|, lo, hi);
  }

  /** Non-negative gaps give a non-negative estimate, and a histogram that
      recorded nothing reads 0. */
  lemma MeanNonNegative(s: seq<int>)
    requires forall i :: 0 <= i < |s| ==> s[i] >= 0
    ensures IntMean(s) >= 0
  {
    if |s| > 0 {
      SumAtLeast(s, 0);
    }
  }
}
