# Coverage summary, modelled in Dafny

This project models `tool/coverage_summary.py`. The script reads an LCOV
tracefile and reports overall line coverage plus the fifteen least-covered
source files. The model follows the script's single pass:

1. Split the text on the literal `end_of_record`, using Python's `str.split`.
2. Skip every block that `strip()` leaves empty.
3. In each remaining block, take the leftmost match of `SF:(.+)`, `LF:(\d+)`
   and `LH:(\d+)`, using `re.search`, and read the digits with `int()`.
4. Add the `LF`/`LH` values of every block that has both to `total_lines` and
   `covered_lines`.
5. For every such block that also has an `SF:` line, append the entry
   `(filename.strip(), lf, lh, pct)`. The percentage is `lh / lf * 100`, or 0
   when `lf` is 0.
6. Fail with "no coverage data" when `total_lines` is 0.
7. Otherwise compute the overall percentage and sort the entries by
   percentage. The sort is stable, in place on an array.
8. List the first fifteen entries.

Modules, one per file:

- `Wrappers`: `Option` and `Result`.
- `PyStr`: `str.isspace`, `strip`, `find` and `split` on a literal separator,
  and `join`.
- `Pattern`: the three regular expressions as "fixed prefix, then a greedy,
  non-empty run of one character class", plus `int()` of a digit string.
- `Stats`: the per-file tuple and its percentage.
- `Ranking`: the stable sort.
- `CoverageSummary`: the block fields, the totals as functions of the blocks,
  the accumulation loop, the whole program, and lemmas about tracefiles as
  `lcov` writes them.

Percentages are exact rationals (`real`).

Stability is specified per percentage: for every percentage, the entries
with that percentage appear in the same order before and after the sort.
`Ranking.SortedWithSameTiesIsUnique` shows that sortedness plus this
property determines the output. So Python's Timsort and the insertion sort
modelled here give the same list.

Where the per-file percentage is said to lie between 0 and 100, the model
follows the code instead. Nothing bounds `LH` by `LF`, so an `LH:` value
above `LF:` yields a percentage above 100. `Stats.Percent` promises at most
100 only when `lh <= lf`.

A block that has `LF:` and `LH:` but no `SF:` adds to the totals but gets no
entry. The model keeps this as the code does it
(`CoverageSummary.UnnamedChunkCountsOnly`). As a result, the listed entries'
counts can add up to less than the totals
(`CoverageSummary.EntriesWithinTotals`).

## Model

| member | source | states |
|---|---|---|
| PyStr.Strip | tool/coverage_summary.py:14-15 | `strip()` removes exactly the leading and trailing whitespace. The result is a slice of the input, with whitespace on both sides of it. It is empty iff the input is blank, and otherwise it starts and ends with non-space characters. |
| PyStr.StripIdempotent | tool/coverage_summary.py:25 | Stripping an already stripped file name changes nothing. |
| PyStr.StripKeepsTrimmed | tool/coverage_summary.py:25 | A string that starts and ends with non-space characters is its own `strip()`. |
| PyStr.FindFromLeftmost | tool/coverage_summary.py:13 | The separator search finds an occurrence, which is the first at or after the start index. It finds none only when there is none. |
| PyStr.JoinSplit | tool/coverage_summary.py:13 | Joining the pieces of `split(sep)` with `sep` gives back the text: no character is lost or invented. |
| PyStr.SplitPiecesFree | tool/coverage_summary.py:13 | No piece of `split(sep)` contains the separator. |
| PyStr.SplitConcat | tool/coverage_summary.py:13 | For a separator that cannot overlap itself, splitting `t + sep + y` gives the pieces of `t` followed by the pieces of `y`. |
| Pattern.Search | tool/coverage_summary.py:16-18 | A match's group is a non-empty run of the class, right after the prefix. The run is maximal: greedy `+`. |
| Pattern.SearchLeftmost | tool/coverage_summary.py:16-18 | `re.search` fails iff the pattern matches nowhere. Otherwise the match it returns is the leftmost one. |
| Pattern.RunIs | tool/coverage_summary.py:16-18 | The group is the unique maximal run of the class at that position. |
| Pattern.SearchAt | tool/coverage_summary.py:16-18 | A match with no match before it is the one `re.search` returns. |
| Pattern.FieldAfterLine | tool/coverage_summary.py:16-18 | Take a field line after text that is empty or ends in a newline, where that text does not contain the prefix. The search returns that field's value as the group. |
| Pattern.Decimal | tool/coverage_summary.py:20-21 | `str(n)`, the numeral `lcov` writes: non-empty, all digits, and without a leading zero. It is the inverse that `int()` on lines 20-21 is checked against in `Pattern.DecimalRoundTrip`. |
| Pattern.DecimalRoundTrip | tool/coverage_summary.py:20-21 | `int()` reads back the numeral of any natural number. |
| Pattern.LeadingZeroIgnored | tool/coverage_summary.py:20-21 | `int()` ignores a leading zero. |
| Stats.Percent | tool/coverage_summary.py:26 | The percentage is 0 when no line was found and never negative. It is at most 100 when hits do not exceed lines found, and exactly 100 when all of at least one line are hit. |
| Stats.PercentOfFound | tool/coverage_summary.py:26 | With lines found, the percentage times lines found is 100 times lines hit: it is `lh / lf * 100`. |
| Ranking.SwapKeepsTies | tool/coverage_summary.py:37 | Swapping neighbours with different percentages keeps the order within every percentage. |
| Ranking.SameTiesIsPermutation | tool/coverage_summary.py:37 | Lists with the same entries per percentage are permutations of each other. |
| Ranking.SortedWithSameTiesIsUnique | tool/coverage_summary.py:37 | Two sorted lists with the same order within each percentage are equal. So every stable sort by percentage gives the same list. |
| Ranking.InsertAt | tool/coverage_summary.py:37 | One insertion step extends the sorted prefix by one entry. It leaves the rest untouched and keeps the order within every percentage. |
| Ranking.SortByPct | tool/coverage_summary.py:37 | The in-place sort leaves the array sorted by percentage and a permutation of the input. Entries of equal percentage keep their relative order. |
| CoverageSummary.DelimiterNoSelfOverlap | tool/coverage_summary.py:13 | `end_of_record` is non-empty, and no proper suffix of it is a prefix of it. |
| CoverageSummary.Aggregate | tool/coverage_summary.py:9-27 | The loop over the blocks ends with `total_lines`, `covered_lines` and `file_stats` equal to their definitions: the sums over the counted blocks, and the entries of the counted, named blocks in file order. |
| CoverageSummary.Summarize | tool/coverage_summary.py:29-39 | It fails with NoCoverageData iff the total of lines found is 0. On success it gives both totals and an overall percentage of covered over total times 100. The ranked list is sorted, stable and a permutation of `file_stats`. The listed entries are its first `min(15, n)`. |
| CoverageSummary.TotalsOfConcat | tool/coverage_summary.py:13-27 | Totals and entries are additive over consecutive runs of blocks. |
| CoverageSummary.SingleBlock | tool/coverage_summary.py:19-27 | A single block contributes exactly its own counts and entry. |
| CoverageSummary.UncountedChunkIgnored | tool/coverage_summary.py:14-19 | A blank block, or one missing `LF:` or `LH:`, changes nothing wherever it stands. |
| CoverageSummary.UnnamedChunkCountsOnly | tool/coverage_summary.py:19-27 | A block with both counts but no `SF:` adds its counts to the totals but adds no entry. |
| CoverageSummary.EntriesWithinTotals | tool/coverage_summary.py:19-27 | There are at most as many entries as counted blocks, and their line counts sum to at most the totals. Equality holds when every counted block names a file. |
| CoverageSummary.EntryWithinBlock | tool/coverage_summary.py:24-27 | A block yields one entry iff it is counted and named. That entry carries the block's own counts. |
| CoverageSummary.ZeroTotalIff | tool/coverage_summary.py:29-30 | The total is 0 iff every counted block reports `LF:0`, including when there is no counted block at all. |
| CoverageSummary.EntryShape | tool/coverage_summary.py:24-27 | An entry holds its block's `LF`/`LH` values and their percentage. Its name is the stripped `SF:` text, which contains no newline. |
| CoverageSummary.EntriesFromBlocks | tool/coverage_summary.py:24-27 | Every entry of `file_stats` comes from some block and has that shape. |
| CoverageSummary.ConcatenatedTracefiles | tool/coverage_summary.py:13-27 | Two tracefiles joined by `end_of_record` summarise to the sums of their totals and the concatenation of their entries. |
| CoverageSummary.BlankIsOneChunk | tool/coverage_summary.py:13 | Whitespace splits into a single block. |
| CoverageSummary.TrailingFragmentIgnored | tool/coverage_summary.py:13-15 | Whitespace after the last `end_of_record` changes neither total nor the entries. |
| CoverageSummary.RecordSourceFile | tool/coverage_summary.py:16 | In a well-formed record, the `SF:` search finds the record's file name. |
| CoverageSummary.RecordLinesFound | tool/coverage_summary.py:17-20 | In a well-formed record, the `LF:` search and `int()` read back the record's lines found. |
| CoverageSummary.RecordLinesHit | tool/coverage_summary.py:18-21 | In a well-formed record, the `LH:` search and `int()` read back the record's lines hit. |
| CoverageSummary.CountedNamed | tool/coverage_summary.py:19-27 | A non-blank block whose three searches all succeed is counted with those values. Its one entry has the stripped `SF:` group as name. |
| CoverageSummary.RecordRoundTrip | tool/coverage_summary.py:16-27 | A well-formed record counts with its own `LF`/`LH` values. It yields exactly one entry: its stripped name, its counts and their percentage. |
| CoverageSummary.ChunkAlone | tool/coverage_summary.py:13 | Text without `end_of_record` is a single block. |
| CoverageSummary.RecordChunk | tool/coverage_summary.py:13-27 | A well-formed record without `end_of_record` in it summarises to its own counts and one entry. |
| CoverageSummary.SingleRecordTracefile | tool/coverage_summary.py:13-27 | A tracefile of one record ended by `end_of_record` and whitespace has that record's counts as totals and one entry. |
| CoverageSummary.TwoBlockTracefile | tool/coverage_summary.py:13-27 | Two blocks, each ended by `end_of_record`, add up their counts and give their entries in file order. |
| CoverageSummary.RankTwo | tool/coverage_summary.py:37 | Two entries are ranked lower percentage first. On equal percentages they keep file order. |
| CoverageSummary.RankTwoBlocks | tool/coverage_summary.py:13-37 | Take two blocks, each yielding one entry, written one after the other. Any stable ranking of their entries puts the lower percentage first, or keeps file order on a tie. |
| CoverageSummary.TwoRecordTracefile | tool/coverage_summary.py:13-37 | For a tracefile of two records, such as a fully covered file followed by an uncovered one, the totals are the sums of the two records' counts. The ranked list holds both files, less covered first. |

## Left out

- The existence check and the read of `coverage/lcov.info` (lines 5-7 and 13). The tracefile's text is a parameter. The missing-file exit is not modelled.
- Printing (lines 33-35 and 38-40): formatting to one or two decimals, and the process exit status. The model returns the totals, the percentage, the ranked list and the fifteen listed entries instead.
- Floating point: percentages are exact rationals. Python's doubles can round two different exact ratios to the same float, or order them differently. Such cases can change how ties are broken in the sort.
- `\d` is modelled as the ASCII digits `0`-`9`. Python's `\d` on `str`, and `int()`, also accept other Unicode decimal digits.
- Only the three patterns the program uses are modelled, not a general regular-expression engine.
- Timsort itself: the sort is an insertion sort with the same result, as `Ranking.SortedWithSameTiesIsUnique` shows.
- CoverageSummary.RecordRoundTrip: stated only for records in the `RecordBlock` order. The `SF:` line starts a line and has no `SF:`, `LF:` or `LH:` before it. The file name and the further lines contain no `LF:` or `LH:`. The `LF:` line comes after all other lines, and the `LH:` line comes straight after it. A record with `LH:` before `LF:`, or with a line between them, is covered only by the general definitions, not by a round trip.
- CoverageSummary.Summarize: does not model the errors Python raises on numbers that do not fit a double. `lh_value / lf_value` (line 26) and `covered_lines / total_lines` (line 32) raise `OverflowError` when the quotient exceeds the double range, for example for `LH:` followed by a 310-digit number, so the program prints nothing. The `* 100` on those lines can instead give `inf`. The model returns `Success` with exact percentages on such inputs, so its "fails iff the total is 0" holds only for counts whose percentages fit a double.
- CoverageSummary.Aggregate: does not model the `ValueError` that `int()` (lines 20-21) raises on CPython 3.11 and later for a digit run longer than 4300 digits. The model reads any length of digits.
