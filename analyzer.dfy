/** The pipeline of `main`: read and validate the configured column, split
    the accepted numbers at the threshold, and compute the report figures. */
module Analyzer {
  import opened Wrappers
  import opened Validator
  import opened Aggregator

  /** The configuration the command line supplies. */
  datatype Config = Config(column: string, threshold: int, minValue: int, maxValue: int)

  /** The command line's defaults: column "value", threshold 25, range 1-100. */
  const Defaults: Config := Config("value", 25, 1, 100)

  /** `main` up to the report writers: read the values, then categorize them
      when there are any. With a usable header every data record is counted
      once, every low value lies in `[minValue, threshold]` and every high
      value in `(threshold, maxValue]`. */
  method Analyze(header: seq<string>, rows: seq<Option<string>>, config: Config)
    returns (numbers: seq<int>, invalidRows: seq<InvalidRow>, low: seq<int>, high: seq<int>, summary: Summary)
    ensures HeaderProblem(header, config.column).Some? ==>
      numbers == [] && low == [] && high == [] && summary == NoValidNumbers &&
      invalidRows == [InvalidRow(1, "", HeaderProblem(header, config.column).value)]
    ensures HeaderProblem(header, config.column).None? ==>
      numbers == Accepted(rows, config.minValue, config.maxValue) &&
      invalidRows == Rejected(rows, config.minValue, config.maxValue) &&
      |numbers| + |invalidRows| == |rows|
    ensures low == Low(numbers, config.threshold) && high == High(numbers, config.threshold)
    ensures |low| + |high| == |numbers|
    ensures forall k :: 0 <= k < |low| ==> config.minValue <= low[k] <= config.threshold
    ensures forall k :: 0 <= k < |high| ==> config.threshold < high[k] <= config.maxValue
    ensures summary == Summarize(numbers)
  {
    numbers, invalidRows := ReadNumbersWithInvalids(header, rows, config.column, config.minValue, config.maxValue);
    if HeaderProblem(header, config.column).None? {
      EachRowOnce(rows, config.minValue, config.maxValue);
    }
    if |numbers| > 0 {
      low, high := Categorize(numbers, config.threshold);
    } else {
      low, high := [], [];
    }
    PartitionCounts(numbers, config.threshold);
    PartsWithinBounds(numbers, config.threshold, config.minValue, config.maxValue);
    summary := Summarize(numbers);
  }

  /** The values 5, 150, abc, an empty field and 30 under the default range
      1-100: 5 and 30 are accepted; 150 is out of range, abc is not a positive
      integer and the empty field is an empty value. */
  lemma MixedColumnVerdicts()
    ensures Validate(RawValue(Some("5")), 1, 100) == Success(5)
    ensures Validate(RawValue(Some("150")), 1, 100) == Failure(OutOfRange(1, 100))
    ensures Validate(RawValue(Some("abc")), 1, 100) == Failure(NotPositiveInteger)
    ensures Validate(RawValue(Some("")), 1, 100) == Failure(EmptyValue)
    ensures Validate(RawValue(Some("30")), 1, 100) == Success(30)
  {
    AcceptedFive();
    RejectedOneFifty();
    RejectedAbc();
    Text.StripKeeps("");
    AcceptedThirty();
  }

  /** The accepted 5 and 30 split at the default threshold 25 into low [5] and
      high [30], with mean 17.5. */
  lemma MixedColumnSplit()
    ensures Low([5, 30], Defaults.threshold) == [5] && High([5, 30], Defaults.threshold) == [30]
    ensures Average([5, 30]) == 17.5
  {
    assert [5, 30][..1] == [5];
    assert Sum([5, 30]) == 35 by {
      assert Sum([5]) == 5;
    }
  }

  lemma AcceptedFive()
    ensures RawValue(Some("5")) == "5" && Validate("5", 1, 100) == Success(5)
  {
    Text.StripKeeps("5");
    assert Text.IsDigitString("5");
  }

  lemma AcceptedThirty()
    ensures RawValue(Some("30")) == "30" && Validate("30", 1, 100) == Success(30)
  {
    Text.StripKeeps("30");
    assert Text.IsDigitString("30");
    assert Text.DigitsValue("30") == 30 by {
      assert "30"[..1] == "3";
    }
  }

  lemma RejectedOneFifty()
    ensures RawValue(Some("150")) == "150" && Validate("150", 1, 100) == Failure(OutOfRange(1, 100))
  {
    Text.StripKeeps("150");
    assert Text.IsDigitString("150");
    assert Text.DigitsValue("150") == 150 by {
      assert "150"[..2] == "15";
      assert "15"[..1] == "1";
    }
  }

  lemma RejectedAbc()
    ensures RawValue(Some("abc")) == "abc" && Validate("abc", 1, 100) == Failure(NotPositiveInteger)
  {
    Text.StripKeeps("abc");
    assert !Text.IsDigit("abc"[0]);
  }

  /** The reason text for the default range. */
  lemma DefaultRangeReason()
    ensures OutOfRange(Defaults.minValue, Defaults.maxValue) == "out of range 1-100"
  {
    assert Text.NatToString(100) == "100" by {
      assert Text.NatToString(10) == "10";
    }
  }
}
