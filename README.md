# TrackFootageEditor lap analysis and lap-data parser, modelled in Dafny

This project models two pieces of TrackFootageEditor and proves properties about them.

**Lap-time analysis.** The first piece is the per-racer analysis in
`GatherRaceTimes/anaylsis_of_a_racers_times.py`. Modelled there:

- reading one racer's column of a lap-time CSV table into a series of optional lap times (`get_racer_times`);
- the lap-to-lap delta report (`pre_lap_deltas`);
- the deltas to the best lap (`best_lap_deltas`);
- the sample variance of the valid laps (`consistency_metrics`);
- the pace consistency index, i.e. the best lap over the mean lap and over the median lap (`pace_consistency_index`).

**Lap-data parser.** The second piece is the table part of `LapDataParser` in
`application/apps/raceStats/functions/lapDataParser.py`. Modelled there:

- the text taken from each `<td>` cell;
- `extract_name`;
- the rewrite of the header row, which keeps the first column and renames every other column by `extract_name`: what follows the first `:` of its header cell, stripped, or the whole cell stripped when it holds no `:`.

Modules:

- `Wrappers` (`wrappers.dfy`): the `Option` type used for absent laps.
- `PyText` (`py_text.dfy`): Python `str` operations over `seq<char>`:
  - `isspace` and `strip`, which the core calls;
  - `"\n".join`, which the core calls on the `<p>` texts of a cell;
  - the first index of a character, which the core does not call: `extract_name` writes `split(':', 1)[-1]`, and the text after the first index of `:` is that piece;
  - splitting on line feeds, which the core does not call either: it is the inverse of `"\n".join` and is used only to state what the joined cell text holds.
- `LapAnalysis` (`lap_analysis.dfy`): the lap-time analysis.
  - Lap times are exact reals.
  - A series is a sequence of `Option<real>`, with `None` where the source holds `None`.
  - The reports come back as sequences of records instead of being printed.
  - The loops of `get_racer_times`, `pre_lap_deltas` and `best_lap_deltas` are methods with loop invariants.
  - The variance and the index are functions.
- `LapDataParser` (`lap_data_parser.dfy`): the parser.
  - A `<td>` is given as the strings under it and the strings under each of its `<p>` children.
  - The nested loops that build the rows are a method.
  - `extract_name`, the cell text and the header cleaning are functions.

Crashes the source does not handle become preconditions:

- `min` of no valid times;
- indexing `rows[0]` and `header_row[0]`;
- the divisions of the pace index.

Number parsing (`float`) is a parameter of `GetRacerTimes`, and it is unconstrained: every contract holds for any parser. `None` from the parser stands for the `ValueError` that the source catches.

## Model

| member | source | states |
|---|---|---|
| LapAnalysis.GetRacerTimes | GatherRaceTimes/anaylsis_of_a_racers_times.py:131-148 | An unknown racer gives the empty list. Otherwise there is one slot per data row, in row order. A missing or empty cell is absent; any other cell is the parse of its stripped text, and absent when the parse fails. |
| LapAnalysis.PresentLaps | GatherRaceTimes/anaylsis_of_a_racers_times.py:244-245 | Skipping absent slots keeps no more laps than there are slots. |
| LapAnalysis.PresentLapsSound | GatherRaceTimes/anaylsis_of_a_racers_times.py:244-245 | Every lap kept when skipping absent slots has a 1-based lap number within the series, and that slot holds the lap's time. |
| LapAnalysis.PresentLapsOrdered | GatherRaceTimes/anaylsis_of_a_racers_times.py:244-245 | The kept laps are in strictly increasing lap order. |
| LapAnalysis.PresentLapsComplete | GatherRaceTimes/anaylsis_of_a_racers_times.py:244-245 | Every slot holding a time is among the kept laps, with its lap number and time. |
| LapAnalysis.PresentLapsStep | GatherRaceTimes/anaylsis_of_a_racers_times.py:244-245 | One more slot adds its lap to the kept laps exactly when it holds a time. |
| LapAnalysis.ValidTimes | GatherRaceTimes/anaylsis_of_a_racers_times.py:194 | The valid times are the times of the kept laps, in lap order. |
| LapAnalysis.ValidTimesMembers | GatherRaceTimes/anaylsis_of_a_racers_times.py:194 | A value is a valid time exactly when some slot holds it. |
| LapAnalysis.HasValidTimeNonEmpty | GatherRaceTimes/anaylsis_of_a_racers_times.py:155 | A series with a present slot has a non-empty list of valid times, so `min` over it is defined. |
| LapAnalysis.Mean | GatherRaceTimes/anaylsis_of_a_racers_times.py:156 | The mean of a non-empty list, counted once per element, adds up to the sum of the list. |
| LapAnalysis.MinOf | GatherRaceTimes/anaylsis_of_a_racers_times.py:294 | `min` of a non-empty list is one of its elements and is no larger than any element. |
| LapAnalysis.PrevDelta | GatherRaceTimes/anaylsis_of_a_racers_times.py:167-170 | The delta of a present slot is 0, unless the slot before it holds a time; in that case the earlier time plus the delta is this slot's time. |
| LapAnalysis.SignOf | GatherRaceTimes/anaylsis_of_a_racers_times.py:171 | The sign is '+' or '-', and the sign together with the magnitude of the delta gives back the delta. |
| LapAnalysis.Abs | GatherRaceTimes/anaylsis_of_a_racers_times.py:172 | `abs` is never negative, and it is the value or its negation. |
| LapAnalysis.SignedReport | GatherRaceTimes/anaylsis_of_a_racers_times.py:171-172 | The printed sign is '+' exactly when the delta is not negative, and the magnitude is not negative. Sign and magnitude together give back the delta. |
| LapAnalysis.PreLapDeltas | GatherRaceTimes/anaylsis_of_a_racers_times.py:151-172 | Empty input gives no lines. Otherwise there is one line per slot, numbered from 1, and it is "No time" exactly when the slot is absent. A present slot reports its time and the sign and magnitude of its delta to the slot before. That delta is 0 for lap 1 and after an absent slot. Non-empty input needs a present slot, because `min` runs first. |
| LapAnalysis.DeltasTelescope | GatherRaceTimes/anaylsis_of_a_racers_times.py:167-170 | Over a run of present laps, the lap-to-lap deltas add up to the last time minus the first. |
| LapAnalysis.BestLapDeltas | GatherRaceTimes/anaylsis_of_a_racers_times.py:239-252 | Exactly the present laps, in lap order, each with its lap number, its time and its time minus the best valid time. Every delta is non-negative and some delta is zero. At least one lap must hold a time. |
| LapAnalysis.BestDeltasBounds | GatherRaceTimes/anaylsis_of_a_racers_times.py:241-246 | In a report against the minimum, no delta is negative and the best lap's delta is zero. |
| LapAnalysis.BestLapStep | GatherRaceTimes/anaylsis_of_a_racers_times.py:244-250 | One iteration of the best-lap loop keeps the report in step with the laps kept so far. |
| LapAnalysis.ConsistencyMetrics | GatherRaceTimes/anaylsis_of_a_racers_times.py:193-199 | "Not enough data" exactly when fewer than two times are valid. Otherwise it gives the sample variance of the valid times only, which is never negative. |
| LapAnalysis.SampleVariance | GatherRaceTimes/anaylsis_of_a_racers_times.py:199 | The sample variance of two or more values is never negative. |
| LapAnalysis.SquaredDeviationsNonNegative | GatherRaceTimes/anaylsis_of_a_racers_times.py:199 | A sum of squared deviations is never negative. |
| LapAnalysis.SquaredDeviationsZero | GatherRaceTimes/anaylsis_of_a_racers_times.py:199 | The squared deviations from m vanish exactly when every element equals m. |
| LapAnalysis.VarianceZeroIffConstant | GatherRaceTimes/anaylsis_of_a_racers_times.py:199 | The sample variance is zero exactly when all valid times are equal. |
| LapAnalysis.VarianceOfTwo | GatherRaceTimes/anaylsis_of_a_racers_times.py:199 | Two times a and b have variance (a - b)^2 / 2: the denominator is n - 1, not n. |
| LapAnalysis.Insert | GatherRaceTimes/anaylsis_of_a_racers_times.py:296 | Insertion into a sorted list keeps it sorted and adds one element at the right place. |
| LapAnalysis.InsertPermutes | GatherRaceTimes/anaylsis_of_a_racers_times.py:296 | Insertion adds exactly the inserted value to the multiset of elements. |
| LapAnalysis.SortedCons | GatherRaceTimes/anaylsis_of_a_racers_times.py:296 | A value no larger than the head of a sorted list can be put in front of it. |
| LapAnalysis.Sorted | GatherRaceTimes/anaylsis_of_a_racers_times.py:296 | `sorted` returns an ascending permutation of its input. |
| LapAnalysis.Median | GatherRaceTimes/anaylsis_of_a_racers_times.py:296 | The element at index `len // 2` of the sorted list is one of the laps. |
| LapAnalysis.MedianRank | GatherRaceTimes/anaylsis_of_a_racers_times.py:296 | The sorted laps up to the middle index are no larger than the median, and those from it on are no smaller. For an even count this is the upper middle element. |
| LapAnalysis.MinAtMostMedian | GatherRaceTimes/anaylsis_of_a_racers_times.py:294-296 | The best lap is no larger than the median. |
| LapAnalysis.MeanAtLeast | GatherRaceTimes/anaylsis_of_a_racers_times.py:295 | A lower bound of every lap is a lower bound of the mean. |
| LapAnalysis.MinAtMostMean | GatherRaceTimes/anaylsis_of_a_racers_times.py:294-295 | The best lap is no larger than the mean. |
| LapAnalysis.MeanOfConstant | GatherRaceTimes/anaylsis_of_a_racers_times.py:295 | The mean of equal laps is that lap. |
| LapAnalysis.MeanAbove | GatherRaceTimes/anaylsis_of_a_racers_times.py:295 | A lap strictly above a lower bound of all laps puts the mean strictly above it. |
| LapAnalysis.MinEqualsMeanIffConstant | GatherRaceTimes/anaylsis_of_a_racers_times.py:294-295 | The best lap equals the mean exactly when all laps are equal. |
| LapAnalysis.PaceConsistencyIndex | GatherRaceTimes/anaylsis_of_a_racers_times.py:293-301 | Needs a non-empty input with non-zero mean and median, because of the divisions. PCI_mean is 1 exactly when all laps are equal, and PCI_median is 1 exactly when the best lap equals the median. With positive laps both indices lie in (0, 1]. |
| LapAnalysis.PciRatios | GatherRaceTimes/anaylsis_of_a_racers_times.py:294-299 | The mean is non-zero under these preconditions, together with the same facts about best/mean and best/median. |
| LapAnalysis.PrevDeltaExample | GatherRaceTimes/anaylsis_of_a_racers_times.py:167-170 | For laps 30.5, 29.8, blank, 31.2 the deltas are 0, -0.7 and 0 (lap 4 follows a blank slot). |
| LapAnalysis.PresentLapsExample | GatherRaceTimes/anaylsis_of_a_racers_times.py:244-245 | For the same laps the best-lap report covers laps 1, 2 and 4. |
| LapAnalysis.BestTimeExample | GatherRaceTimes/anaylsis_of_a_racers_times.py:241 | For the same laps the best time is 29.8. |
| PyText.IsSpace | application/apps/raceStats/functions/lapDataParser.py:11 | Space, tab, line feed and carriage return are whitespace; digits, ASCII letters and ':' are not. |
| PyText.Strip | application/apps/raceStats/functions/lapDataParser.py:11 | `strip()` removes exactly the leading and trailing whitespace. The result is a slice of the input that is empty exactly when the input is all whitespace, and otherwise starts and ends with a non-space. |
| PyText.StripOfTrimmed | application/apps/raceStats/functions/lapDataParser.py:11 | Stripping a string without surrounding whitespace changes nothing. |
| PyText.StripIdempotent | application/apps/raceStats/functions/lapDataParser.py:11 | Stripping twice is stripping once. |
| PyText.IndexOf | application/apps/raceStats/functions/lapDataParser.py:11 | The index found holds the character, and no earlier index does. |
| PyText.IndexOfUnique | application/apps/raceStats/functions/lapDataParser.py:11 | Any index holding the character with none before it is the index found. |
| PyText.JoinLines | application/apps/raceStats/functions/lapDataParser.py:23 | Joining no pieces gives the empty string. Otherwise the result starts with the first piece, followed by a line feed when there are more pieces. |
| PyText.SplitLines | application/apps/raceStats/functions/lapDataParser.py:23 | Splitting on line feeds gives at least one piece and no piece holds a line feed. |
| PyText.SplitJoinLines | application/apps/raceStats/functions/lapDataParser.py:23 | Splitting the `"\n".join` of pieces without line feeds gives back the pieces. |
| LapDataParser.GetText | application/apps/raceStats/functions/lapDataParser.py:22-23 | The stripped text of an element never starts or ends with whitespace. |
| LapDataParser.ParagraphTexts | application/apps/raceStats/functions/lapDataParser.py:22 | One text per `<p>`, in order, each its stripped text. |
| LapDataParser.ExtractName | application/apps/raceStats/functions/lapDataParser.py:11 | The name is no longer than the cell and never starts or ends with whitespace. |
| LapDataParser.ExtractNameWithoutColon | application/apps/raceStats/functions/lapDataParser.py:11 | A cell without ':' gives the cell stripped. |
| LapDataParser.ExtractNameAfterFirstColon | application/apps/raceStats/functions/lapDataParser.py:11 | A cell with its first ':' at position i gives the stripped text after position i, later colons included. |
| LapDataParser.ExtractNameStable | application/apps/raceStats/functions/lapDataParser.py:11 | Extracting again from a name without ':' changes nothing. |
| LapDataParser.CellText | application/apps/raceStats/functions/lapDataParser.py:22-23 | A cell without `<p>` children gives its own stripped text, with no surrounding whitespace. A cell with `<p>` children whose texts hold no line feed gives text whose lines are exactly those texts, in order. |
| LapDataParser.CleanHeader | application/apps/raceStats/functions/lapDataParser.py:27-28 | The cleaned header is as long as the header, keeps cell 0 unchanged, and replaces every later cell by its extracted name. |
| LapDataParser.ProcessTable | application/apps/raceStats/functions/lapDataParser.py:14-29 | One row per `<tr>` and one text per `<td>`. Row 0 keeps its first text and has every later text replaced by the extracted name. Every other row holds the cell texts unchanged. The table needs a row, and that row a cell. |

## Left out

- File and CSV I/O (`open`, `csv.DictReader`, `csv.writer`): the reader is given as its field names and its data rows as maps from column name to cell text. A missing key stands for a short row, whose value the reader fills with `None`.
- DictReader on an empty file has no field names, and the source's membership test then raises `TypeError`; the model takes the field names as a sequence and does not model this case.
- `float()` is not modelled: GetRacerTimes takes the parser as a parameter. Floating-point rounding is replaced by exact reals throughout.
- GetRacerTimes: `float()` also accepts "nan", "inf" and "infinity", which give present slots that are not real numbers. A series of `Option<real>` cannot hold them, so their effect on `min`, `sorted` and the deltas is not modelled.
- Printing, the `:.3f` and `:+.3f` formatting and `round(…, 3)` are left out: the reports and the index are the values before formatting.
- `statistics.stdev` is left out, because it needs a square root. `VarianceOfTwo` shows the variance it is the root of.
- The best and average laps that `pre_lap_deltas` computes and never uses are kept only for the precondition that `min` imposes. The average's value is not stated.
- `analyze_lap_times`, the hard-coded top-level call and all commented-out analyses are not part of this model.
- BeautifulSoup's parsing (`find_all` over `<tr>`, `<td>` and `<p>`) is not modelled: the table comes in as rows of cells, each cell given by its strings and the strings of its `<p>` children.
- The save dialog (`QFileDialog`) and writing the CSV file are not modelled.
- MakeMergedFootage/merge_footage.py and application/apps/raceStats/raceStatsFunctions.py are Qt, subprocess and file glue and are not part of this model.
- ProcessTable: the source overwrites `rows[0]` in its list; the model returns the new sequence of rows, so aliasing of that list is not captured.
