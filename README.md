# CSV number analyzer: verified model of the validate-then-categorize core

The analyzer reads one column of a delimited file, keeps the values that are
plain decimal integers inside an inclusive range, records every other row as
`(line_no, raw, reason)` without stopping, splits the kept values at a
threshold into `low` (`<= threshold`) and `high` (`> threshold`), and reports
count, total, average, minimum and maximum. This project models that core in
Dafny and proves its rules and invariants.

Modules:

- `Wrappers` (`wrappers.dfy`): `Option` for an absent CSV field and `Result`
  for a row verdict.
- `Text` (`text.dfy`): `str.strip()`, `str.isdigit()`, `int()` of a digit
  string and `str()` of an integer, with the round trips between `int()` and
  `str()`.
- `Validator` (`validator.dfy`): the header check and the first-match-wins
  rule chain of `read_numbers_with_invalids`. `ReadNumbersWithInvalids` is a
  loop method proved against the specification functions `Accepted` and
  `Rejected`.
- `Aggregator` (`aggregator.dfy`): `categorize` is a loop method proved
  against the stable filters `Low` and `High`. It also holds the export label,
  `average` and the report figures.
- `Analyzer` (`analyzer.dfy`): the command-line defaults and the part of
  `main` that reads, categorizes and summarizes, plus worked verdicts on
  concrete values.

The CSV reader is a parameter. The header is a `seq<string>` of field names;
an empty sequence means the file had no header. Each data record is an
`Option<string>` holding the configured column's field, absent when the
record is too short. The record at index `i` is line `i + 2`: records are
counted, not physical lines.

Two behaviours of the code worth stating directly:

- Blank records are never rejected. The CSV reader skips them before the
  validation loop sees them, so there is no "empty row" reason.
- `average` returns the unrounded mean. Rounding to two decimals happens only
  when the report is printed.

## Model

| member | source | states |
|---|---|---|
| `Text.Strip` | main.py:111 | the stripped text is no longer than the input and neither starts nor ends with whitespace |
| `Text.StripUnique` | main.py:111 | for any split of the input into whitespace, a middle that neither starts nor ends with whitespace, and whitespace, `Strip` returns that middle |
| `Text.StripRemovesOnlyEdgeSpace` | main.py:111 | the stripped text is a contiguous slice of the input, and everything outside it is whitespace |
| `Text.StripKeeps` | main.py:111 | text without whitespace at either end is returned unchanged |
| `Text.StripIdempotent` | main.py:111 | stripping twice is the same as stripping once |
| `Text.ParseShow` | main.py:121 | parsing the decimal form of any natural number gives the number back |
| `Text.ShowParse` | main.py:121 | a digit string without a superfluous leading zero is the decimal form of its value |
| `Text.NatToString` | main.py:123 | the decimal form of a number is a non-empty digit string, and it starts with `0` only for zero |
| `Text.IntToString` | main.py:123 | the decimal form of an integer is non-empty and starts with `-` exactly for negative integers |
| `Text.IntToStringParses` | main.py:123 | the decimal form of a non-negative integer parses back to it; that of a negative integer is `-` followed by a digit string that parses back to its absolute value |
| `Validator.HeaderProblem` | main.py:100-107 | there is no header problem exactly when the header is non-empty and contains the configured column |
| `Validator.HeaderProblemCases` | main.py:100-107 | "missing header row" is reported exactly for an empty header; "missing column '<column>'" exactly for a non-empty header without the column |
| `Validator.Validate` | main.py:111-126 | an accepted value comes from a non-empty all-digit string, equals that string's number, is non-negative and lies in `[min_value, max_value]` |
| `Validator.ReasonsDistinct` | main.py:113-124 | the three row-level reason texts differ from one another |
| `Validator.ValidateRuleOrder` | main.py:113-124 | "empty value" iff the trimmed value is empty; "not a positive integer" iff it is non-empty and not all digits; "out of range min-max" iff it is all digits and its number is outside the range |
| `Validator.ValidIff` | main.py:117-126 | a value is accepted iff it is an all-digit string whose number lies in the inclusive range |
| `Validator.Accepted` | main.py:110-126 | the accepted numbers are at most as many as the records, and each is non-negative and inside the range |
| `Validator.Rejected` | main.py:110-124 | every rejection line lies between 2 and the number of records plus 1, and the lines strictly increase in record order |
| `Validator.EachRowOnce` | main.py:110-126 | with a usable header, accepted plus rejected records equal the number of data records |
| `Validator.RejectedIffInvalid` | main.py:110-124 | the record at index `i` is reported at line `i + 2` exactly when the rule chain rejects its value |
| `Validator.AcceptedAppend` | main.py:110-126 | acceptance keeps record order: two stretches of records give the first stretch's numbers followed by the second's |
| `Validator.RejectedRecordAt` | main.py:110-124 | a record whose value the rule chain rejects appears in the rejected list as `(i + 2, trimmed value, reason of the first failing rule)` |
| `Validator.RejectedRecordsExact` | main.py:110-124 | every record in the rejected list names a line of the input, carries that record's trimmed value, and its reason is the one the rule chain gives that value |
| `Validator.PrefixStep` | main.py:110-126 | one more record adds its number to the accepted list, or adds `(line, trimmed value, reason)` to the rejected list, according to its verdict |
| `Validator.ReadNumbersWithInvalids` | main.py:86-128 | a missing header or column yields no numbers and exactly one line-1 record with its reason, whatever the rows; otherwise the outputs are `Accepted` and `Rejected` of the rows |
| `Aggregator.Low` | main.py:69-79 | the low part is no longer than the input and every value in it is at most the threshold |
| `Aggregator.High` | main.py:69-79 | the high part is no longer than the input and every value in it is above the threshold |
| `Aggregator.Categorize` | main.py:69-79 | the single pass returns exactly the stable filters `Low` and `High` of the input |
| `Aggregator.PartitionCounts` | main.py:73-77 | the sizes of the two parts add up to the size of the input |
| `Aggregator.PartitionSums` | main.py:73-77 | the sums of the two parts add up to the sum of the input |
| `Aggregator.PartitionPermutation` | main.py:73-77 | the two parts together are a permutation of the input |
| `Aggregator.PartitionAppend` | main.py:73-77 | the split is stable: splitting a concatenation concatenates the splits |
| `Aggregator.PartsWithinBounds` | main.py:73-77 | if every input value lies in `[lo, hi]`, the low part lies in `[lo, threshold]` and the high part in `(threshold, hi]` |
| `Aggregator.LabelAgrees` | main.py:182 | an input value is labelled "low" exactly when it is in `low`, and "high" exactly when it is in `high` |
| `Aggregator.ThresholdIsLow` | main.py:74 | a value equal to the threshold is in `low` and not in `high` |
| `Aggregator.Minimum` | main.py:155 | the minimum is one of the values and no value is smaller |
| `Aggregator.Maximum` | main.py:156 | the maximum is one of the values and no value is larger |
| `Aggregator.Average` | main.py:82-83 | the average of no values is 0; otherwise the average times the count is the total |
| `Aggregator.AverageBetweenExtremes` | main.py:154-156 | the average lies between the minimum and the maximum |
| `Aggregator.Summarize` | main.py:149-156 | "no valid numbers" exactly for an empty list; otherwise count, total, mean, minimum and maximum are those of the list (the mean is `Average` of the list), and the mean lies between minimum and maximum |
| `Analyzer.Analyze` | main.py:208-216 | the numbers and invalid rows are those read; low and high are the split of the numbers (also when there are none); low values lie in `[min, threshold]` and high values in `(threshold, max]`; with a usable header every record is counted once |
| `Analyzer.MixedColumnVerdicts` | main.py:111-126 | under range 1-100, "5" and "30" are accepted, "150" is out of range, "abc" is not a positive integer, and an empty field is an empty value |
| `Analyzer.MixedColumnSplit` | main.py:69-83 | at the default threshold 25, the values 5 and 30 split into low `[5]` and high `[30]`, with average 17.5 |
| `Analyzer.DefaultRangeReason` | main.py:123 | under the default range, the out-of-range reason text is exactly "out of range 1-100" |

## Left out

- Argument parsing (`parse_arguments`) is not modelled: it is command-line glue. Its defaults appear as `Analyzer.Defaults`.
- Output directory creation (`ensure_outdir`) is not modelled: it is file-system glue.
- File opening is not modelled. The reader is a parameter: header names plus one optional field per record.
- The CSV reader's delimiter, quoting and header parsing are not modelled. Skipped blank records are simply absent from `rows`.
- The report writers `save_report_txt`, `save_report_long_csv` and `save_invalids_csv` are file formatting only. Only the category rule at main.py:182 is kept, as `Aggregator.Label`.
- The console output of `main`, including the "First issue" line, is not modelled.
- Aggregator.Average: the mean is an exact real number, not a floating-point value. Floating-point division and `round(..., 2)` are not modelled.
- Text.IsDigitString: digits are the ASCII characters `0`-`9` only. Python's `str.isdigit` also accepts other Unicode digits, such as superscript two. For some of these, `int()` raises an error, and the program would stop instead of recording the row. That path is not modelled.
- Validator.Validate: any number of digits is parsed. CPython's `int()` refuses a decimal string of more than 4300 digits by default (its integer string-conversion limit) and raises `ValueError`, which stops the program. The model instead records such a value as out of range, or accepts it if it lies in the range; `Text.DigitsValue` has no length limit.
- Text.IsSpace: lists the code points that Python's `str.isspace` treats as whitespace under the Unicode data of current Python releases. Other Unicode versions may differ.
- The column's absence from a single record and an empty field are both read as `""`, as `row.get(column) or ""` does. The extra fields of over-long records are ignored.
- Analyzer.MixedColumnVerdicts: states the verdict on each value of the worked example separately. There is no lemma for the reader's complete output on that five-record file. `Validator.PrefixStep` states the general per-record step.
