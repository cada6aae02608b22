/** The row validator: the header check and the first-match-wins rule chain of
    `read_numbers_with_invalids`. The CSV reader is abstracted as the header's
    field names plus, per data record, the configured column's field (absent
    when the record is too short). */
module Validator {
  import opened Wrappers
  import opened Text

  /** One rejected record: `(line_no, raw, reason)`. */
  datatype InvalidRow = InvalidRow(lineNo: int, raw: string, reason: string)

  const MissingHeaderRow: string := "missing header row"
  const EmptyValue: string := "empty value"
  const NotPositiveInteger: string := "not a positive integer"

  function MissingColumn(column: string): string {
    "missing column '" + column + "'"
  }

  function OutOfRange(minValue: int, maxValue: int): string {
    "out of range " + IntToString(minValue) + "-" + IntToString(maxValue)
  }

  /** The fatal header problem, if any: no header at all, or no field named
      `column` in it. */
  function HeaderProblem(header: seq<string>, column: string): (p: Option<string>)
    ensures p.None? <==> |header| > 0 && column in header
  {
    if |header| == 0 then Some(MissingHeaderRow)
    else if column !in header then Some(MissingColumn(column))
    else None
  }

  /** The header reasons tell the two fatal cases apart: no header at all, or a
      header without the configured column. */
  lemma HeaderProblemCases(header: seq<string>, column: string)
    ensures HeaderProblem(header, column) == Some(MissingHeaderRow) <==> |header| == 0
    ensures HeaderProblem(header, column) == Some(MissingColumn(column))
        <==> |header| > 0 && column !in header
  {
    assert MissingHeaderRow[8] == 'h' && MissingColumn(column)[8] == 'c';
  }

  /** `(row.get(column) or "").strip()`: an absent field reads as empty. */
  function RawValue(field: Option<string>): string {
    Strip(field.GetOr(""))
  }

  /** The rule chain on one trimmed value, first match wins: empty, then not
      all digits, then outside the inclusive range; otherwise the number. */
  function Validate(raw: string, minValue: int, maxValue: int): (r: Result<int, string>)
    ensures r.Success? ==> IsDigitString(raw) && r.value == DigitsValue(raw)
    ensures r.Success? ==> 0 <= r.value && minValue <= r.value <= maxValue

  {
    if raw == "" then Failure(EmptyValue)
    else if !IsDigitString(raw) then Failure(NotPositiveInteger)
    else if !(minValue <= DigitsValue(raw) <= maxValue) then Failure(OutOfRange(minValue, maxValue))
    else Success(DigitsValue(raw))
  }

  /** The three row-level reasons are different texts, so the reason alone
      tells which rule rejected the value. */
  lemma ReasonsDistinct(minValue: int, maxValue: int)
    ensures EmptyValue != NotPositiveInteger
    ensures EmptyValue != OutOfRange(minValue, maxValue)
    ensures NotPositiveInteger != OutOfRange(minValue, maxValue)
  {
    var o := OutOfRange(minValue, maxValue);
    assert o[0] == 'o';
    assert EmptyValue[0] == 'e' && NotPositiveInteger[0] == 'n';
  }

  /** Each reason is given exactly when its rule is the first one that fails. */
  lemma ValidateRuleOrder(raw: string, minValue: int, maxValue: int)
    ensures Validate(raw, minValue, maxValue) == Failure(EmptyValue) <==> raw == ""
    ensures Validate(raw, minValue, maxValue) == Failure(NotPositiveInteger)
        <==> raw != "" && !IsDigitString(raw)
    ensures Validate(raw, minValue, maxValue) == Failure(OutOfRange(minValue, maxValue))
        <==> IsDigitString(raw) && !(minValue <= DigitsValue(raw) <= maxValue)
  {
    ReasonsDistinct(minValue, maxValue);
  }

  /** A value is accepted exactly when it is a digit string whose number lies in
      the inclusive range. */
  lemma ValidIff(raw: string, minValue: int, maxValue: int)
    ensures Validate(raw, minValue, maxValue).Success?
        <==> IsDigitString(raw) && minValue <= DigitsValue(raw) <= maxValue
  {
  }

  /** The numbers accepted from `rows`, in row order. */
  function Accepted(rows: seq<Option<string>>, minValue: int, maxValue: int): (ns: seq<int>)
    ensures |ns| <= |rows|
    ensures forall k :: 0 <= k < |ns| ==> 0 <= ns[k] && minValue <= ns[k] <= maxValue
  {
    if |rows| == 0 then []
    else
      var ns := Accepted(rows[..|rows| - 1], minValue, maxValue);
      match Validate(RawValue(rows[|rows| - 1]), minValue, maxValue)
      case Success(n) => ns + [n]
      case Failure(_) => ns
  }

  /** The records rejected from `rows`; the record at index `i` is line `i + 2`,
      line 1 being the header. */
  function Rejected(rows: seq<Option<string>>, minValue: int, maxValue: int): (bad: seq<InvalidRow>)
    ensures |bad| <= |rows|
    ensures forall k :: 0 <= k < |bad| ==> 2 <= bad[k].lineNo <= |rows| + 1
    ensures forall j, k :: 0 <= j < k < |bad| ==> bad[j].lineNo < bad[k].lineNo
  {
    if |rows| == 0 then []
    else
      var bad := Rejected(rows[..|rows| - 1], minValue, maxValue);
      var raw := RawValue(rows[|rows| - 1]);
      var v := Validate(raw, minValue, maxValue);
      if v.Success? then bad else bad + [InvalidRow(|rows| + 1, raw, v.error)]
  }

  /** Every data record lands in exactly one of the two outputs. */
  lemma {:induction false} EachRowOnce(rows: seq<Option<string>>, minValue: int, maxValue: int)
    ensures |Accepted(rows, minValue, maxValue)| + |Rejected(rows, minValue, maxValue)| == |rows|
  {
    if |rows| > 0 {
      EachRowOnce(rows[..|rows| - 1], minValue, maxValue);
    }
  }

  /** Some record of `bad` is reported at line `line`. */
  predicate ReportsLine(bad: seq<InvalidRow>, line: int) {
    exists k :: 0 <= k < |bad| && bad[k].lineNo == line
  }

  lemma ReportsLineSnoc(bad: seq<InvalidRow>, r: InvalidRow, line: int)
    ensures ReportsLine(bad + [r], line) <==> ReportsLine(bad, line) || r.lineNo == line
  {
    if ReportsLine(bad + [r], line) {
      var k :| 0 <= k < |bad + [r]| && (bad + [r])[k].lineNo == line;
      if k < |bad| { assert bad[k] == (bad + [r])[k]; }
    }
    if ReportsLine(bad, line) {
      var k :| 0 <= k < |bad| && bad[k].lineNo == line;
      assert (bad + [r])[k] == bad[k];
    }
    if r.lineNo == line {
      assert (bad + [r])[|bad|] == r;
    }
  }

  /** The record at index `i` is reported as invalid (at line `i + 2`) exactly
      when the rule chain rejects its value. */
  lemma {:induction false} RejectedIffInvalid(rows: seq<Option<string>>, minValue: int, maxValue: int, i: nat)
    requires i < |rows|
    ensures ReportsLine(Rejected(rows, minValue, maxValue), i + 2)
        <==> Validate(RawValue(rows[i]), minValue, maxValue).Failure?
  {
    var init := rows[..|rows| - 1];
    ReportsLineLast(rows, minValue, maxValue, i + 2);
    if i < |rows| - 1 {
      assert init[i] == rows[i];
      RejectedIffInvalid(init, minValue, maxValue, i);
    } else {
      assert !ReportsLine(Rejected(init, minValue, maxValue), |rows| + 1);
    }
  }

  /** A rejected record is reported in full: at line `i + 2`, with its trimmed
      value and the reason of the first rule it fails. */
  lemma {:induction false} RejectedRecordAt(rows: seq<Option<string>>, minValue: int, maxValue: int, i: nat)
    requires i < |rows|
    requires Validate(RawValue(rows[i]), minValue, maxValue).Failure?
    ensures InvalidRow(i + 2, RawValue(rows[i]), Validate(RawValue(rows[i]), minValue, maxValue).error)
            in Rejected(rows, minValue, maxValue)
  {
    var init := rows[..|rows| - 1];
    RejectedLast(rows, minValue, maxValue);
    if i < |rows| - 1 {
      assert init[i] == rows[i];
      RejectedRecordAt(init, minValue, maxValue, i);
    }
  }

  /** `r` describes a record of `rows` that fails validation: its line names
      the record, its raw text is that record's trimmed value and its reason is
      that of the first rule the value fails. */
  predicate Genuine(rows: seq<Option<string>>, minValue: int, maxValue: int, r: InvalidRow)
  {
    2 <= r.lineNo <= |rows| + 1 &&
    r.raw == RawValue(rows[r.lineNo - 2]) &&
    Validate(r.raw, minValue, maxValue) == Failure(r.reason)
  }

  /** A genuine record of a prefix of `rows` is a genuine record of `rows`. */
  lemma GenuineExtends(rows: seq<Option<string>>, minValue: int, maxValue: int, r: InvalidRow)
    requires |rows| > 0 && Genuine(rows[..|rows| - 1], minValue, maxValue, r)
    ensures Genuine(rows, minValue, maxValue, r)
  {
    assert rows[..|rows| - 1][r.lineNo - 2] == rows[r.lineNo - 2];
  }

  /** Conversely, every reported record is genuine. */
  lemma {:induction false} RejectedRecordsExact(rows: seq<Option<string>>, minValue: int, maxValue: int)
    ensures forall r :: r in Rejected(rows, minValue, maxValue) ==> Genuine(rows, minValue, maxValue, r)
  {
    if |rows| > 0 {
      var badInit := Rejected(rows[..|rows| - 1], minValue, maxValue);
      RejectedLast(rows, minValue, maxValue);
      RejectedRecordsExact(rows[..|rows| - 1], minValue, maxValue);
      forall r | r in Rejected(rows, minValue, maxValue)
        ensures Genuine(rows, minValue, maxValue, r)
      {
        if r in badInit {
          GenuineExtends(rows, minValue, maxValue, r);
        }
      }
    }
  }

  /** A line is reported for `rows` exactly when it is reported for all but the
      last record, or it is the last record's line and that record fails. */
  lemma ReportsLineLast(rows: seq<Option<string>>, minValue: int, maxValue: int, line: int)
    requires |rows| > 0
    ensures ReportsLine(Rejected(rows, minValue, maxValue), line) <==>
      ReportsLine(Rejected(rows[..|rows| - 1], minValue, maxValue), line) ||
      (line == |rows| + 1 && Validate(RawValue(rows[|rows| - 1]), minValue, maxValue).Failure?)
  {
    var badInit := Rejected(rows[..|rows| - 1], minValue, maxValue);
    var last := Validate(RawValue(rows[|rows| - 1]), minValue, maxValue);
    RejectedLast(rows, minValue, maxValue);
    if last.Failure? {
      ReportsLineSnoc(badInit, InvalidRow(|rows| + 1, RawValue(rows[|rows| - 1]), last.error), line);
    }
  }

  /** One step of `Accepted`: the last record adds its number exactly when it
      passes validation. */
  lemma AcceptedLast(rows: seq<Option<string>>, minValue: int, maxValue: int)
    requires |rows| > 0
    ensures var v := Validate(RawValue(rows[|rows| - 1]), minValue, maxValue);
            Accepted(rows, minValue, maxValue) ==
              Accepted(rows[..|rows| - 1], minValue, maxValue) + (if v.Success? then [v.value] else [])
  {
  }

  /** One step of `Rejected`: the last record adds a line `|rows| + 1` exactly
      when it fails validation. */
  lemma RejectedLast(rows: seq<Option<string>>, minValue: int, maxValue: int)
    requires |rows| > 0
    ensures var bad := Rejected(rows, minValue, maxValue);
            var badInit := Rejected(rows[..|rows| - 1], minValue, maxValue);
            var v := Validate(RawValue(rows[|rows| - 1]), minValue, maxValue);
            bad == if v.Success? then badInit
                   else badInit + [InvalidRow(|rows| + 1, RawValue(rows[|rows| - 1]), v.error)]
  {
  }

  /** Acceptance preserves row order: the numbers of two consecutive stretches
      of records are those of the first followed by those of the second. */
  lemma {:induction false} AcceptedAppend(a: seq<Option<string>>, b: seq<Option<string>>, minValue: int, maxValue: int)
    ensures Accepted(a + b, minValue, maxValue) == Accepted(a, minValue, maxValue) + Accepted(b, minValue, maxValue)
  {
    if |b| > 0 {
      assert (a + b)[..|a + b| - 1] == a + b[..|b| - 1];
      AcceptedAppend(a, b[..|b| - 1], minValue, maxValue);
    } else {
      assert a + b == a;
    }
  }

  /** Extending a prefix of the records by one record extends the two outputs
      by that record's verdict. */
  lemma PrefixStep(rows: seq<Option<string>>, minValue: int, maxValue: int, i: nat)
    requires i < |rows|
    ensures var raw := RawValue(rows[i]);
            var v := Validate(raw, minValue, maxValue);
            Accepted(rows[..i + 1], minValue, maxValue) ==
              Accepted(rows[..i], minValue, maxValue) + (if v.Success? then [v.value] else []) &&
            Rejected(rows[..i + 1], minValue, maxValue) ==
              Rejected(rows[..i], minValue, maxValue) + (if v.Success? then [] else [InvalidRow(i + 2, raw, v.error)])
  {
    assert rows[..i + 1][..i] == rows[..i] && rows[..i + 1][i] == rows[i];
    AcceptedLast(rows[..i + 1], minValue, maxValue);
    RejectedLast(rows[..i + 1], minValue, maxValue);
  }

  /** `read_numbers_with_invalids` over an abstract CSV reader. A missing header
      or a missing column is reported as the single record at line 1 and no data
      record is examined; otherwise each record is validated in turn. */
  method ReadNumbersWithInvalids(header: seq<string>, rows: seq<Option<string>>, column: string,
                                 minValue: int, maxValue: int)
    returns (numbers: seq<int>, invalidRows: seq<InvalidRow>)
    ensures HeaderProblem(header, column).Some? ==>
      numbers == [] && invalidRows == [InvalidRow(1, "", HeaderProblem(header, column).value)]
    ensures HeaderProblem(header, column).None? ==>
      numbers == Accepted(rows, minValue, maxValue) &&
      invalidRows == Rejected(rows, minValue, maxValue)
  {
    numbers, invalidRows := [], [];
    if |header| == 0 {
      invalidRows := invalidRows + [InvalidRow(1, "", MissingHeaderRow)];
      return;
    }
    if column !in header {
      invalidRows := invalidRows + [InvalidRow(1, "", MissingColumn(column))];
      return;
    }
    for i := 0 to |rows|
      invariant numbers == Accepted(rows[..i], minValue, maxValue)
      invariant invalidRows == Rejected(rows[..i], minValue, maxValue)
    {
      PrefixStep(rows, minValue, maxValue, i);
      var lineNo := i + 2;
      var raw := RawValue(rows[i]);
      ghost var verdict := Validate(raw, minValue, maxValue);
      if raw == "" {
        assert verdict == Failure(EmptyValue);
        invalidRows := invalidRows + [InvalidRow(lineNo, raw, EmptyValue)];
        continue;
      }
      if !IsDigitString(raw) {
        assert verdict == Failure(NotPositiveInteger);
        invalidRows := invalidRows + [InvalidRow(lineNo, raw, NotPositiveInteger)];
        continue;
      }
      var number := DigitsValue(raw);
      if !(minValue <= number <= maxValue) {
        assert verdict == Failure(OutOfRange(minValue, maxValue));
        invalidRows := invalidRows + [InvalidRow(lineNo, raw, OutOfRange(minValue, maxValue))];
        continue;
      }
      assert verdict == Success(number);
      numbers := numbers + [number];
    }
    assert rows[..|rows|] == rows;
  }
}
