# Statistics reducer and performance monitor, in Dafny

This project models two parts of a small Hadoop-streaming statistics pipeline and proves
properties of them.

**The reducer script.** `stats_reducer.py` takes one selector argument and reads
tab-separated `key\tvalue` records from standard input. It prints one of five statistics of
the values: the median, the population standard deviation, the min-max normalized values,
the 90th percentile or the population skewness.

- `Reducer.Script` states a whole run as one function. Its inputs are the argument vector,
  the input lines and a square-root function. Its result is one of three outcomes: the
  lines printed, an exit with status 1 and a message on standard error, or the exception
  that ends the run.
- `Reducer.Run` follows the script step by step and is proved equal to `Script`. The steps
  are the reading loop, an in-place sort of an array, and the printing loop of the minmax
  branch.
- The statistics themselves are pure functions in module `Stats`. Their properties are
  proved there: bounds, the zero cases of variance and skewness, invariance under
  reordering, and the counting property of the percentile.
- The Python string operations the script relies on are in module `Text`: `strip()`,
  `split('\t')`, `lower()`, `str()` of an integer, and `float()` restricted to decimal
  literals.

**The monitor.** `PerformanceMonitor` is a class whose methods update its fields in place:
- the start and end times;
- three sample lists (CPU percent, resident memory in MB, seconds since start) that grow
  together;
- the runtime, the number of records processed and the throughput.

The clock readings, the CPU percentage and the resident set size are method parameters.

Files:
- `wrappers.dfy`: `Option` and `Result`.
- `text.dfy`: the string operations.
- `stats.dfy`: the statistics.
- `reducer.dfy`: the script.
- `monitor.dfy`: the monitor.

Behaviour of the script that the model keeps:
- The minmax branch prints one `NormalizedValue_i` line per input value, numbered from 0 in
  input order.
- The selector is checked only after all input has been read. A bad input line therefore
  ends the run with its exception even when the selector is unknown.
- The percentile index `ceil(0.9·n) − 1` is not clamped. On empty input it is −1, and the
  script fails on the empty list.
- The monitor's throughput is 0 whenever the runtime is not positive.

## Model

| member | source | states |
|---|---|---|
| Reducer.Script | stats_reducer.py:5-53 | definition: the outcome of a whole run, from the argument check through reading, the selected statistic and its output |
| Reducer.Compute | stats_reducer.py:16-49 | definition: the lines the selected statistic prints, or the exception it raises |
| Reducer.ParseRecord | stats_reducer.py:13-14 | definition: one input line stripped, split on tab, unpacked into two fields and read with `float()` |
| Reducer.ParseSelector | stats_reducer.py:18-53 | definition: the statistic chosen by the if/elif chain, or none for an unknown selector |
| Text.Strip | stats_reducer.py:13 | definition: `str.strip()` with no argument |
| Text.ParseFloat | stats_reducer.py:14 | definition: `float()` of a decimal literal with surrounding whitespace |
| Stats.Sum | stats_reducer.py:24 | definition: `sum(values)` |
| Stats.Mean | stats_reducer.py:24 | definition: `sum(values) / n` |
| Stats.Variance | stats_reducer.py:25 | definition: the mean squared deviation from the mean |
| Stats.StdDev | stats_reducer.py:26 | definition: `math.sqrt` of the variance |
| Stats.Median | stats_reducer.py:19-20 | definition: the middle of the sorted values |
| Stats.Middle | stats_reducer.py:20 | definition: the middle element of a sorted list, or the mean of the two middle elements |
| Stats.Normalize | stats_reducer.py:30-32 | definition: the list comprehension of min-max normalized values |
| Stats.Percentile90 | stats_reducer.py:37-40 | definition: the sorted values indexed at `ceil(0.9·n) − 1` |
| Stats.Skewness | stats_reducer.py:42-48 | definition: 0 when the standard deviation is 0, otherwise the mean cubed standard score |
| Monitor.Average | performance_monitor.py:64-66 | definition: `sum(xs) / len(xs) if xs else 0` |
| Monitor.Largest | performance_monitor.py:65-67 | definition: `max(xs) if xs else 0` |
| Reducer.Run | stats_reducer.py:5-53 | the step-by-step script (reading loop, in-place sort, printing loop) produces exactly `Script`'s outcome |
| Reducer.UsageExit | stats_reducer.py:5-7 | with an argument count other than 2 the run exits with status 1 and the usage message, whatever the input |
| Text.Lower | stats_reducer.py:9 | `lower()` keeps the length, leaves no upper-case letter, changes exactly the upper-case letters, and maps each to its letter 32 code points up |
| Text.LowerIdempotent | stats_reducer.py:9 | lower-casing twice is lower-casing once |
| Reducer.SelectorCaseInsensitive | stats_reducer.py:9 | a selector and its lower-cased form give the same run |
| Reducer.ParseSelectorName | stats_reducer.py:18-53 | the if/elif chain picks a statistic exactly when the lower-cased selector is its name |
| Reducer.ReadAll | stats_reducer.py:12-14 | reading succeeds iff every line reads; then one value per line, in input order; otherwise the fault is the first failing line's |
| Reducer.ReadAllErrorStays | stats_reducer.py:12-14 | once a prefix of the input fails, the whole input fails with the same fault |
| Reducer.ReadValues | stats_reducer.py:10-14 | the reading loop that appends to `values` returns exactly what `ReadAll` gives |
| Reducer.InputReadBeforeSelector | stats_reducer.py:12-18 | with two arguments, a bad line ends the run with its fault even when the selector is unknown |
| Reducer.RecordRoundTrip | stats_reducer.py:13-14 | a record `key\t<digits of n><whitespace>`, with a non-empty, tab-free, unpadded key, reads back as `n` |
| Reducer.RecordFields | stats_reducer.py:13 | such a record, stripped and split on tab, gives exactly the key and the digits |
| Reducer.RecordStrip | stats_reducer.py:13 | `strip()` removes only the trailing whitespace of such a record |
| Reducer.RecordSplit | stats_reducer.py:13 | key, tab and digits split into exactly two fields |
| Reducer.MissingKeyRecord | stats_reducer.py:13 | a record with an empty key loses its tab to `strip()` and fails to unpack, as one field |
| Reducer.LineWithoutTab | stats_reducer.py:13 | a line without a tab never unpacks into two fields |
| Reducer.DigitsHaveNoTab | stats_reducer.py:13 | the digits of a value hold no tab |
| Text.StripOfSpec | stats_reducer.py:13 | stripping whitespace around a core that neither starts nor ends with whitespace gives that core |
| Text.StripOfRemoved | stats_reducer.py:13 | a string of only whitespace strips to the empty string |
| Text.StripOfBare | stats_reducer.py:13 | a stripped string neither starts nor ends with whitespace |
| Text.StripOfUnchanged | stats_reducer.py:13 | a string without surrounding whitespace is left unchanged by stripping |
| Text.StripOfInside | stats_reducer.py:13 | every character left by stripping was in the line |
| Text.StripOfSlice | stats_reducer.py:13 | stripping keeps one contiguous slice of the line |
| Text.StripIdempotent | stats_reducer.py:13 | stripping twice is stripping once |
| Text.LStrip | stats_reducer.py:13 | left stripping removes a leading run of whitespace and stops at the first other character |
| Text.RStrip | stats_reducer.py:13 | right stripping removes a trailing run of whitespace and stops at the last other character |
| Text.LStripSkips | stats_reducer.py:13 | left stripping a whitespace run followed by a non-space gives the rest |
| Text.RStripSkips | stats_reducer.py:13 | right stripping text that ends in a non-space followed by a whitespace run gives the text |
| Text.Split | stats_reducer.py:13 | `split('\t')` gives one more piece than there are tabs, and no piece holds a tab |
| Text.SplitJoin | stats_reducer.py:13 | joining the pieces of a split with the separator gives back the text |
| Text.JoinSplit | stats_reducer.py:13 | splitting the join of separator-free pieces gives back the pieces |
| Text.SplitPiece | stats_reducer.py:13 | a separator-free piece, the separator and more text split into the piece followed by the rest's pieces |
| Text.SplitWhole | stats_reducer.py:13 | text without the separator splits into itself alone |
| Text.NatToString | stats_reducer.py:34 | `str(i)` is a non-empty string of digits, one digit exactly for i < 10 |
| Text.NatToStringRoundTrip | stats_reducer.py:34 | the digits of `str(n)` denote `n` |
| Text.NatToStringInjective | stats_reducer.py:34 | distinct numbers have distinct decimal strings |
| Text.FirstOf | stats_reducer.py:14 | the first position holding either of two characters, or the length when there is none |
| Text.UnsignedLiteralOfDigits | stats_reducer.py:14 | a non-empty digit string is a literal denoting its digits' value |
| Text.DigitsLiteral | stats_reducer.py:14 | the digits of `n` are an unsigned literal denoting `n` |
| Text.NatLiteralValue | stats_reducer.py:14 | `float(str(n)) == n` for a non-negative integer |
| Text.ParseFloatOfNat | stats_reducer.py:14 | `float()` reads `str(n)` back as `n` with any surrounding whitespace |
| Text.ParseFloatOfDigits | stats_reducer.py:14 | `float()` reads `str(n)` back as `n` |
| Text.SignedLiteralNegative | stats_reducer.py:14 | a leading minus sign negates the literal after it |
| Text.ParseFloatOfTrimmed | stats_reducer.py:14 | text without surrounding whitespace is parsed as it stands |
| Text.NegativeLiteralValue | stats_reducer.py:14 | a minus sign before the digits of `n` denotes `-n` |
| Text.ParseFloatOfNegative | stats_reducer.py:14 | `float()` reads `-n` back from a minus sign and the digits of `n` |
| Reducer.ComputeOkIff | stats_reducer.py:16-49 | every statistic succeeds exactly on a non-empty value list |
| Reducer.EmptyInputFaults | stats_reducer.py:16-49 | on empty input, median and percentile fail on an index, stddev and skewness divide by zero, and minmax fails in `min()` |
| Reducer.PrintsIff | stats_reducer.py:5-53 | a run prints iff there are two arguments, every line reads, the selector is known and the input is not empty |
| Reducer.PrintsWhenRead | stats_reducer.py:12-53 | with two arguments, a run prints iff the input reads, the selector is known and there is a value |
| Reducer.PrintedBy | stats_reducer.py:5-53 | a printed run has two arguments, a known selector, one value per input line, and prints that statistic's lines |
| Reducer.PrintedLines | stats_reducer.py:18-49 | minmax prints one line per input line, keyed `NormalizedValue_i` in order, with distinct keys and values in [0, 1]; every other statistic prints one line under its own key |
| Reducer.MinMaxLines | stats_reducer.py:29-34 | the minmax branch prints one line per value, labelled by position, with distinct keys and values in [0, 1] |
| Reducer.SingleLine | stats_reducer.py:18-49 | every other branch prints exactly one line under its own key |
| Reducer.NormalizedLabelInjective | stats_reducer.py:34 | distinct positions get distinct `NormalizedValue_i` keys |
| Reducer.NormalizedLines | stats_reducer.py:33-34 | one output line per normalized value |
| Reducer.EmitNormalized | stats_reducer.py:33-34 | the printing loop over `enumerate(normalized)` emits exactly `NormalizedLines` |
| Reducer.OrderInsensitive | stats_reducer.py:18-49 | reordering the input values does not change what median, stddev, percentile or skewness print |
| Reducer.OrderStatisticsInsensitive | stats_reducer.py:18-21 | the median and percentile branches depend only on the multiset of values |
| Reducer.MomentsInsensitive | stats_reducer.py:23-49 | the stddev and skewness branches depend only on the multiset of values |
| Reducer.UnknownSelector | stats_reducer.py:51-53 | once the input has been read, an unknown selector exits with status 1 and `Unknown function: <selector>`, printing nothing |
| Reducer.SortInPlace | stats_reducer.py:19 | `values.sort()` leaves the array sorted and a permutation of what it held |
| Reducer.SinkInto | stats_reducer.py:19 | one insertion step extends the sorted prefix by one element and keeps the multiset |
| Reducer.SinkStep | stats_reducer.py:19 | swapping the sinking element with a larger left neighbour keeps the prefix facts one place further left |
| Reducer.SinkDone | stats_reducer.py:19 | once the sinking element stops, the prefix is sorted |
| Reducer.SortedValues | stats_reducer.py:19 | the sorted array holds exactly `sorted(values)` |
| Reducer.MedianOf | stats_reducer.py:19-20 | sorting and taking the middle element, or the mean of the two middle elements, gives the median |
| Reducer.PercentileOf | stats_reducer.py:37-39 | sorting and indexing at `ceil(0.9·n) − 1` gives the 90th percentile |
| Reducer.RunStatistic | stats_reducer.py:16-49 | the chosen branch as it runs produces exactly `Compute`'s result |
| Stats.SortSeq | stats_reducer.py:19 | `sorted(values)` is sorted, a permutation of the values, and of the same length |
| Stats.Insert | stats_reducer.py:19 | inserting into a sorted list keeps it sorted and adds exactly that element |
| Stats.SortedUnique | stats_reducer.py:19 | two sorted permutations of one multiset are equal |
| Stats.SortedHeadLeast | stats_reducer.py:19 | the head of a sorted list is no larger than any element |
| Stats.Min | stats_reducer.py:30 | `min(values)` is one of the values and bounds all of them from below |
| Stats.Max | stats_reducer.py:31 | `max(values)` is one of the values and bounds all of them from above |
| Stats.MedianBounds | stats_reducer.py:18-20 | the median lies between the minimum and the maximum |
| Stats.MiddleWithin | stats_reducer.py:20 | the middle element, or the mean of the two middle elements, lies within any bounds on the list |
| Stats.SortedElementIn | stats_reducer.py:19 | every element of the sorted list is an input value |
| Stats.SortedWithin | stats_reducer.py:19 | every element of the sorted list lies between the minimum and the maximum |
| Stats.MeanBounds | stats_reducer.py:24 | the mean lies between the minimum and the maximum |
| Stats.MeanWithin | stats_reducer.py:24 | the mean lies within any bounds on the values |
| Stats.SumBounds | stats_reducer.py:24 | bounds on each value bound the sum by n times each bound |
| Stats.VarianceNonNegative | stats_reducer.py:25 | the population variance is never negative |
| Stats.VarianceOfConstant | stats_reducer.py:25 | equal values have variance 0 |
| Stats.ConstantOfZeroVariance | stats_reducer.py:25 | variance 0 means all values are equal |
| Stats.VarianceZeroIff | stats_reducer.py:25 | the variance is 0 exactly when all values are equal |
| Stats.RootZero | stats_reducer.py:26 | a non-negative square root is 0 exactly when its square is |
| Stats.StdDevSpec | stats_reducer.py:23-27 | the standard deviation is non-negative, squares to the variance, and is 0 exactly when all values are equal |
| Stats.SkewnessZeroIff | stats_reducer.py:42-49 | skewness is the int 0 exactly when all values are equal, and a float otherwise |
| Stats.SkewnessOfSymmetric | stats_reducer.py:42-49 | values symmetric about a point have skewness 0 |
| Stats.CubesReflect | stats_reducer.py:48 | reflecting the values about the mean negates the sum of cubed standard scores |
| Stats.MirroredCube | stats_reducer.py:48 | the cubed standard score of a mirrored value is the negated score |
| Stats.SumReflect | stats_reducer.py:43 | the sum of values reflected about `c` is `2·c·n` minus the sum |
| Stats.MomentsPermutation | stats_reducer.py:23-49 | the mean, variance, standard deviation and skewness are unchanged by reordering |
| Stats.SumOfPermutation | stats_reducer.py:24-25 | the generator sums are unchanged by reordering |
| Stats.SumOfAppend | stats_reducer.py:24-25 | the sum over a concatenation is the sum of the two sums |
| Stats.SumOfNonNegative | stats_reducer.py:25 | a sum of non-negative terms is non-negative |
| Stats.SumOfZero | stats_reducer.py:25 | a zero sum of non-negative terms has every term 0 |
| Stats.SumOfZeros | stats_reducer.py:25 | a sum of zero terms is 0 |
| Stats.SumOfConstant | stats_reducer.py:24 | the sum of n copies of `c` is `n·c` |
| Stats.PercentileIndex | stats_reducer.py:39 | for n ≥ 1 the index `ceil(0.9·n) − 1` lies in [0, n−1], and it is the least k with 10·(k+1) ≥ 9·n |
| Stats.PercentileSpec | stats_reducer.py:36-40 | the percentile is an input value, at least `ceil(0.9·n)` values are at most it, and at most `ceil(0.9·n) − 1` are below it |
| Stats.SortedCountAtMost | stats_reducer.py:39-40 | in a sorted list at least k+1 values are at most the k-th |
| Stats.SortedCountBelow | stats_reducer.py:39-40 | in a sorted list at most k values are below the k-th |
| Stats.OrderStatisticsPermutation | stats_reducer.py:18-20 | the median and the percentile are unchanged by reordering |
| Stats.CountPermutation | stats_reducer.py:36-40 | counts are unchanged by reordering |
| Stats.CountAppend | stats_reducer.py:36-40 | the count over a concatenation is the sum of the two counts |
| Stats.NormalizeSpec | stats_reducer.py:29-32 | one result per value, each in [0, 1], in order; when max > min the minimum maps to 0, the maximum to 1 and each value is recovered from its result; when max == min every result is the int 0; order is kept |
| Stats.NormalizeAt | stats_reducer.py:32 | the same facts for one position |
| Stats.NormalizeOrder | stats_reducer.py:32 | normalization keeps the order of any two values |
| Stats.ScaledInto | stats_reducer.py:32 | `(x − min)/(max − min)` lies in [0, 1], maps min to 0 and max to 1, and is inverted by `min + v·(max − min)` |
| Stats.ScaledMonotone | stats_reducer.py:32 | `(x − min)/(max − min)` is monotone in x |
| Monitor.PerformanceMonitor.constructor | performance_monitor.py:11-20 | no start or end time, runtime 0, records 0, empty sample lists in lockstep, no throughput, so the summary is a `KeyError` |
| Monitor.PerformanceMonitor.UpdateMetrics | performance_monitor.py:31-45 | appends the CPU percent and `rss/1024/1024`, then the time since start; without a start time it raises `TypeError` after the first two lists have grown |
| Monitor.MemoryMb | performance_monitor.py:40 | the memory entry times 1024·1024 is the resident set size in bytes, and it is non-negative |
| Monitor.PerformanceMonitor.StartMonitoring | performance_monitor.py:26-29 | sets the start time, then appends one sample whose timestamp is the second clock reading minus the start, keeping the lists in lockstep |
| Monitor.PerformanceMonitor.StopMonitoring | performance_monitor.py:47-56 | sets the end time and appends a sample; sets runtime to end minus start, stores the records and the zero-guarded throughput, and returns exactly `GetSummary()`; raises `TypeError` without a start |
| Monitor.Throughput | performance_monitor.py:54 | for a positive runtime the throughput times the runtime is the record count; otherwise it is the int 0 |
| Monitor.PerformanceMonitor.GetSummary | performance_monitor.py:58-68 | changes nothing; `KeyError` exactly when there is no throughput yet; otherwise the stored runtime, records and throughput with the averages and peaks |
| Monitor.AverageAndLargest | performance_monitor.py:64-67 | empty lists give the int 0 for both; otherwise the average times the length is the sum, the peak is a sample bounding all samples, and the average never exceeds the peak |
| Monitor.AverageTimesCount | performance_monitor.py:64 | the average of a non-empty list times its length is its sum |
| Monitor.AverageAtMostLargest | performance_monitor.py:64-65 | the average of a non-empty list never exceeds its peak |
| Monitor.SummaryAverages | performance_monitor.py:58-68 | in a summary the averages times the sample counts are the sums, the peaks bound every sample, and no average exceeds its peak |
| Monitor.MonitoredRun | performance_monitor.py:11-68 | constructing, starting and stopping leaves the CPU list `[cpu0, cpu1]`, the memory list of the two readings in MB and the timestamps `[t1 − t0, t3 − t0]`, and a summary with runtime `t2 − t0`, the records, their throughput, and the average and peak of both CPU samples and both memory samples |
| Monitor.TwoSamples | performance_monitor.py:64-67 | the average of two samples is their mean and the peak is the larger one |

## Left out

- The mapper (`mapper.py`) is not part of this model, and neither is the shuffle/sort stage that delivers the mapper's output to the reducer.
- The GUI (`gui.py`), the performance test driver (`test_performance.py`) and the pandas preprocessing scripts (`preprocess_datasets.py`, `dp.py`) are not modelled. They are I/O and process orchestration.
- `PerformanceMonitor.create_performance_plot` and `save_metrics` are not modelled, because they only write matplotlib and JSON files. Creating the `performance_logs` directory in `__init__` is also left out, because it is file-system I/O.
- Standard input is given as a sequence of lines, and standard output and standard error as values of the outcome. Interleaving with real streams is not modelled.
- `time.time()`, `psutil.cpu_percent()` and `memory_info().rss` are method parameters. Each call site takes its own clock reading, so `start_monitoring` and `stop_monitoring` each take two clock readings.
- Values are exact reals, not IEEE-754 doubles. Rounding, overflow, `inf` and `nan` are not modelled, and neither is the `repr` text Python prints for a float.
- Text.ParseFloat: reads only decimal literals (sign, digits, optional fraction, optional exponent) with surrounding whitespace. `inf`, `nan`, underscores and non-ASCII digits are not accepted.
- Text.Lower: lower-cases ASCII letters only. Unicode case mapping is not modelled.
- Stats.StdDevSpec: `math.sqrt` is the parameter `sqrt`. This lemma and `Stats.SkewnessZeroIff` assume only that it returns the exact non-negative root at the one point used, whereas `math.sqrt` rounds.
- Stats.PercentileIndex: uses the exact integer form `(9·n + 9) / 10 − 1` of `ceil(0.9·n) − 1`. The floating-point product `0.9 * n` is not modelled.
- The run's integer `0` results (minmax with equal values, skewness of equal values, the monitor's initial runtime and its guarded averages, peaks and throughput) are kept apart from floats as `Stats.Int`. The different printed forms (`0` against `0.0`) are not modelled.
- Reducer.Run: the branches that compute a standard deviation, a normalization or a skewness call the specification functions directly, because the source computes them with generator expressions and a list comprehension rather than loops.
