/** The aggregator/categorizer: the stable low/high split of `categorize`, the
    category label of the long CSV export, `average`, and the count, total,
    minimum and maximum figures of the report. */
module Aggregator {

  /** Python's `sum(numbers)`. */
  function Sum(s: seq<int>): int {
    if |s| == 0 then 0 else Sum(s[..|s| - 1]) + s[|s| - 1]
  }

  /** The category written next to each value in the long CSV export. */
  function Label(n: int, threshold: int): string {
    if n <= threshold then "low" else "high"
  }

  /** The values at or below the threshold, in input order. */
  function Low(s: seq<int>, threshold: int): (r: seq<int>)
    ensures |r| <= |s|
    ensures forall k :: 0 <= k < |r| ==> r[k] <= threshold
  {
    if |s| == 0 then []
    else Low(s[..|s| - 1], threshold) + (if s[|s| - 1] <= threshold then [s[|s| - 1]] else [])
  }

  /** The values above the threshold, in input order. */
  function High(s: seq<int>, threshold: int): (r: seq<int>)
    ensures |r| <= |s|
    ensures forall k :: 0 <= k < |r| ==> r[k] > threshold
  {
    if |s| == 0 then []
    else High(s[..|s| - 1], threshold) + (if s[|s| - 1] <= threshold then [] else [s[|s| - 1]])
  }

  /** `categorize`: one pass appending each value to `low` when it is at most
      the threshold and to `high` otherwise. */
  method Categorize(numbers: seq<int>, threshold: int) returns (low: seq<int>, high: seq<int>)
    ensures low == Low(numbers, threshold)
    ensures high == High(numbers, threshold)
  {
    low, high := [], [];
    for i := 0 to |numbers|
      invariant low == Low(numbers[..i], threshold)
      invariant high == High(numbers[..i], threshold)
    {
      assert numbers[..i + 1][..i] == numbers[..i];
      var n := numbers[i];
      if n <= threshold {
        low := low + [n];
      } else {
        high := high + [n];
      }
    }
    assert numbers[..|numbers|] == numbers;
  }

  lemma SumSnoc(s: seq<int>, x: int)
    ensures Sum(s + [x]) == Sum(s) + x
  {
    assert (s + [x])[..|s|] == s;
  }

  /** One step of the split: the last value goes to exactly one side. */
  lemma PartitionLast(s: seq<int>, threshold: int)
    requires |s| > 0
    ensures var x := s[|s| - 1];
            Low(s, threshold) == Low(s[..|s| - 1], threshold) + (if x <= threshold then [x] else []) &&
            High(s, threshold) == High(s[..|s| - 1], threshold) + (if x <= threshold then [] else [x])
  {
  }

  /** The split loses and invents nothing: each value lands in exactly one of
      the two parts, so the counts add up. */
  lemma {:induction false} PartitionCounts(s: seq<int>, threshold: int)
    ensures |Low(s, threshold)| + |High(s, threshold)| == |s|
  {
    if |s| > 0 {
      PartitionCounts(s[..|s| - 1], threshold);
      PartitionLast(s, threshold);
    }
  }

  /** The totals of the two parts add up to the total of the input. */
  lemma {:induction false} PartitionSums(s: seq<int>, threshold: int)
    ensures Sum(Low(s, threshold)) + Sum(High(s, threshold)) == Sum(s)
  {
    if |s| > 0 {
      var init, x := s[..|s| - 1], s[|s| - 1];
      PartitionSums(init, threshold);
      PartitionLast(s, threshold);
      if x <= threshold {
        SumSnoc(Low(init, threshold), x);
        assert High(s, threshold) == High(init, threshold);
      } else {
        SumSnoc(High(init, threshold), x);
        assert Low(s, threshold) == Low(init, threshold);
      }
    }
  }

  /** The two parts together hold exactly the input's values, with their
      multiplicities. */
  lemma {:induction false} PartitionPermutation(s: seq<int>, threshold: int)
    ensures multiset(Low(s, threshold)) + multiset(High(s, threshold)) == multiset(s)
  {
    if |s| > 0 {
      var init, x := s[..|s| - 1], s[|s| - 1];
      PartitionPermutation(init, threshold);
      PermutationStep(s, threshold);
      MultisetSnoc(s);
    }
  }

  lemma MultisetSnoc(s: seq<int>)
    requires |s| > 0
    ensures multiset(s) == multiset(s[..|s| - 1]) + multiset{s[|s| - 1]}
  {
    assert s == s[..|s| - 1] + [s[|s| - 1]];
  }

  /** The last value adds one occurrence to exactly one of the two parts. */
  lemma PermutationStep(s: seq<int>, threshold: int)
    requires |s| > 0
    ensures multiset(Low(s, threshold)) + multiset(High(s, threshold)) ==
      multiset(Low(s[..|s| - 1], threshold)) + multiset(High(s[..|s| - 1], threshold)) + multiset{s[|s| - 1]}
  {
    var init, x := s[..|s| - 1], s[|s| - 1];
    PartitionLast(s, threshold);
    if x <= threshold {
      assert multiset(Low(s, threshold)) == multiset(Low(init, threshold)) + multiset{x};
      assert High(s, threshold) == High(init, threshold);
    } else {
      assert multiset(High(s, threshold)) == multiset(High(init, threshold)) + multiset{x};
      assert Low(s, threshold) == Low(init, threshold);
    }
  }

  /** Both parts keep any bounds the input respects: with every value in
      `[lo, hi]`, the low part lies in `[lo, threshold]` and the high part in
      `(threshold, hi]`. */
  lemma {:induction false} PartsWithinBounds(s: seq<int>, threshold: int, lo: int, hi: int)
    requires forall k :: 0 <= k < |s| ==> lo <= s[k] <= hi
    ensures forall k :: 0 <= k < |Low(s, threshold)| ==> lo <= Low(s, threshold)[k] <= threshold
    ensures forall k :: 0 <= k < |High(s, threshold)| ==> threshold < High(s, threshold)[k] <= hi
  {
    if |s| > 0 {
      PartsWithinBounds(s[..|s| - 1], threshold, lo, hi);
      PartitionLast(s, threshold);
    }
  }

  /** The split is stable: splitting two consecutive stretches of values gives
      the first stretch's parts followed by the second's. */
  lemma {:induction false} PartitionAppend(a: seq<int>, b: seq<int>, threshold: int)
    ensures Low(a + b, threshold) == Low(a, threshold) + Low(b, threshold)
    ensures High(a + b, threshold) == High(a, threshold) + High(b, threshold)
  {
    if |b| == 0 {
      assert a + b == a;
    } else {
      assert (a + b)[..|a + b| - 1] == a + b[..|b| - 1];
      PartitionAppend(a, b[..|b| - 1], threshold);
    }
  }

  /** The export label agrees with the split: a value of the input is labelled
      "low" exactly when it is in `low`, and "high" exactly when it is in
      `high`; a value equal to the threshold is "low". */
  lemma {:induction false} LabelAgrees(s: seq<int>, threshold: int, n: int)
    ensures n in Low(s, threshold) <==> n in s && Label(n, threshold) == "low"
    ensures n in High(s, threshold) <==> n in s && Label(n, threshold) == "high"
  {
    PartitionPermutation(s, threshold);
    assert n in multiset(s) <==> n in multiset(Low(s, threshold)) || n in multiset(High(s, threshold));
    assert "low" != "high";
  }

  /** The boundary is inclusive on the low side: a value equal to the
      threshold goes to `low`, never to `high`. */
  lemma ThresholdIsLow(s: seq<int>, threshold: int)
    requires threshold in s
    ensures threshold in Low(s, threshold) && threshold !in High(s, threshold)
  {
    LabelAgrees(s, threshold, threshold);
  }

  /** Python's `min(numbers)` for a non-empty list. */
  function Minimum(s: seq<int>): (m: int)
    requires |s| > 0
    ensures m in s
    ensures forall k :: 0 <= k < |s| ==> m <= s[k]
  {
    if |s| == 1 then s[0]
    else
      var m := Minimum(s[..|s| - 1]);
      if s[|s| - 1] < m then s[|s| - 1] else m
  }

  /** Python's `max(numbers)` for a non-empty list. */
  function Maximum(s: seq<int>): (m: int)
    requires |s| > 0
    ensures m in s
    ensures forall k :: 0 <= k < |s| ==> s[k] <= m
  {
    if |s| == 1 then s[0]
    else
      var m := Maximum(s[..|s| - 1]);
      if s[|s| - 1] > m then s[|s| - 1] else m
  }

  /** `average`: 0 for no values, otherwise the exact mean (the floating-point
      rounding of the source is not modelled). */
  function Average(s: seq<int>): (r: real)
    ensures |s| == 0 ==> r == 0.0
    ensures |s| > 0 ==> r * (|s| as real) == Sum(s) as real
  {
    if |s| == 0 then 0.0 else Sum(s) as real / |s| as real
  }

  /** Every value at least `b` makes the total at least `|s| * b`, and every
      value at most `b` makes it at most `|s| * b`. */
  lemma {:induction false} SumBounds(s: seq<int>, b: int)
    ensures (forall k :: 0 <= k < |s| ==> b <= s[k]) ==> |s| * b <= Sum(s)
    ensures (forall k :: 0 <= k < |s| ==> s[k] <= b) ==> Sum(s) <= |s| * b
  {
    if |s| > 0 {
      SumBounds(s[..|s| - 1], b);
      assert |s| * b == (|s| - 1) * b + b;
    }
  }

  /** Dividing a bound on `n` copies by `n` bounds the quotient. */
  lemma QuotientBounds(total: int, n: int, lo: int, hi: int)
    requires n > 0
    requires lo * n <= total <= hi * n
    ensures lo as real <= total as real / n as real <= hi as real
  {
    var q := total as real / n as real;
    assert q * n as real == total as real;
  }

  /** The mean lies between the smallest and the largest value. */
  lemma AverageBetweenExtremes(s: seq<int>)
    requires |s| > 0
    ensures Minimum(s) as real <= Average(s) <= Maximum(s) as real
  {
    SumBounds(s, Minimum(s));
    SumBounds(s, Maximum(s));
    assert |s| * Minimum(s) == Minimum(s) * |s| && |s| * Maximum(s) == Maximum(s) * |s|;
    QuotientBounds(Sum(s), |s|, Minimum(s), Maximum(s));
  }

  /** The figures of the report's statistics block. */
  datatype Summary =
    | NoValidNumbers
    | Figures(count: nat, total: int, mean: real, minimum: int, maximum: int)

  /** The statistics block: "No valid numbers found" for an empty list,
      otherwise count, total, average, minimum and maximum. */
  function Summarize(numbers: seq<int>): (r: Summary)
    ensures r.NoValidNumbers? <==> |numbers| == 0
    ensures r.Figures? ==>
      r.count == |numbers| && r.total == Sum(numbers) && r.mean == Average(numbers) &&
      r.minimum in numbers && r.maximum in numbers &&
      (forall k :: 0 <= k < |numbers| ==> r.minimum <= numbers[k] <= r.maximum) &&
      r.minimum as real <= r.mean <= r.maximum as real
  {
    if |numbers| == 0 then NoValidNumbers
    else
      AverageBetweenExtremes(numbers);
      Figures(|numbers|, Sum(numbers), Average(numbers), Minimum(numbers), Maximum(numbers))
  }
}
