/** The statistics reducer script as a whole: from its argument vector and its input
    lines to what it prints, or the exit status, or the exception that ends it.
    `Script` states the run as one function; `Run` follows the script step by step
    (the reading loop, the in-place sort, the printing loop) and is proved equal to it. */
module Reducer {
  import opened Wrappers
  import opened Text
  import Stats

  /** The exceptions that end a run without a result. */
  datatype Fault =
    | UnpackMismatch(fields: nat)  // `_, val = ...` over a line that split into `fields` != 2 pieces
    | NotAFloat(text: string)      // `float(val)` rejected `text`
    | ZeroDivision                 // `sum(values) / n` with `n == 0`
    | IndexOutOfRange              // `values[-1]` on the empty list
    | EmptySequence                // `min(values)` on the empty list

  /** One line of standard output, `f"{key}\t{value}"`. */
  datatype ResultLine = ResultLine(key: string, value: Stats.Num)

  /** How a run ends: the lines printed on standard output (exit status 0), a message on
      standard error with `sys.exit(status)`, or an uncaught exception. */
  datatype Outcome =
    | Printed(stdout: seq<ResultLine>)
    | Exited(status: int, stderr: string)
    | Raised(fault: Fault)

  /** The five statistics the reducer knows. */
  datatype Statistic = Median | StdDev | MinMax | Percentile | Skewness

  const Usage: string := "Usage: stats_reducer.py <function>"

  /** The selector that names each statistic. */
  function SelectorName(st: Statistic): string
  {
    match st
    case Median => "median"
    case StdDev => "stddev"
    case MinMax => "minmax"
    case Percentile => "percentile"
    case Skewness => "skewness"
  }

  /** The `if`/`elif` chain on the lower-cased selector; `None` is the final `else`. */
  function ParseSelector(func: string): Option<Statistic>
  {
    if func == "median" then Some(Median)
    else if func == "stddev" then Some(StdDev)
    else if func == "minmax" then Some(MinMax)
    else if func == "percentile" then Some(Percentile)
    else if func == "skewness" then Some(Skewness)
    else None
  }

  /** A selector picks a statistic exactly when it is that statistic's name. */
  lemma ParseSelectorName(func: string, st: Statistic)
    ensures ParseSelector(func) == Some(st) <==> func == SelectorName(st)
  {
  }

  // ---------------------------------------------------------------------------
  // Reading the input
  // ---------------------------------------------------------------------------

  /** `_, val = line.strip().split('\t')` and `float(val)`. */
  function ParseRecord(line: string): Result<real, Fault>
  {
    var fields := Split(Strip(line), '\t');
    if |fields| != 2 then Err(UnpackMismatch(|fields|))
    else match ParseFloat(fields[1])
      case None => Err(NotAFloat(fields[1]))
      case Some(v) => Ok(v)
  }

  /** The input loop over all lines, each read by `read`: the values in input order, one
      per line, or the fault of the first line that cannot be read. */
  function ReadAll(lines: seq<string>, read: string -> Result<real, Fault>): (r: Result<seq<real>, Fault>)
    ensures r.Ok? <==> forall i :: 0 <= i < |lines| ==> read(lines[i]).Ok?
    ensures r.Ok? ==> |r.value| == |lines|
    ensures r.Ok? ==> forall i :: 0 <= i < |lines| ==> read(lines[i]) == Ok(r.value[i])
    ensures r.Err? ==> exists i :: (0 <= i < |lines| && read(lines[i]) == Err(r.error)
      && forall j :: 0 <= j < i ==> read(lines[j]).Ok?)
  {
    if lines == [] then Ok([])
    else
      var init := lines[..|lines| - 1];
      assert forall i :: 0 <= i < |init| ==> init[i] == lines[i];
      match ReadAll(init, read)
      case Err(f) => Err(f)
      case Ok(values) =>
        match read(lines[|lines| - 1])
        case Err(f) => Err(f)
        case Ok(v) => Ok(values + [v])
  }

  /** The reducer's reading loop: every line read as a record. */
  function ParseAll(lines: seq<string>): Result<seq<real>, Fault>
  {
    ReadAll(lines, ParseRecord)
  }

  /** Once a prefix of the input fails, the whole input fails the same way. */
  lemma {:induction false} ReadAllErrorStays(lines: seq<string>, k: nat, read: string -> Result<real, Fault>)
    requires k <= |lines| && ReadAll(lines[..k], read).Err?
    ensures ReadAll(lines, read) == ReadAll(lines[..k], read)
    decreases |lines| - k
  {
    if k < |lines| {
      assert lines[..k + 1][..k] == lines[..k];
      ReadAllErrorStays(lines, k + 1, read);
    } else {
      assert lines[..k] == lines;
    }
  }

  /** Digits hold no tab. */
  lemma DigitsHaveNoTab(s: string)
    requires AllDigits(s)
    ensures '\t' !in s
  {
    forall k | 0 <= k < |s|
      ensures s[k] != '\t'
    {
      assert IsDigit(s[k]);
    }
  }

  /** A record written as a key, a tab, the digits of `n` and a line ending is read back
      as `n`, provided the key is not empty, holds no tab and has no whitespace at its
      ends. */
  lemma RecordRoundTrip(key: string, n: nat, ending: string)
    requires key != [] && Bare(key, IsSpace) && '\t' !in key
    requires All(ending, IsSpace)
    ensures ParseRecord(key + ['\t'] + NatToString(n) + ending) == Ok(n as real)
  {
    RecordFields(key, NatToString(n), ending);
    ParseFloatOfDigits(n);
  }

  /** Such a record strips to key, tab and digits and splits into the key and the digits. */
  lemma RecordFields(key: string, digits: string, ending: string)
    requires key != [] && Bare(key, IsSpace) && '\t' !in key
    requires digits != [] && AllDigits(digits)
    requires All(ending, IsSpace)
    ensures Split(Strip(key + ['\t'] + digits + ending), '\t') == [key, digits]
  {
    RecordStrip(key, digits, ending);
    RecordSplit(key, digits);
  }

  /** Key, tab and digits split into the key and the digits. */
  lemma RecordSplit(key: string, digits: string)
    requires '\t' !in key && AllDigits(digits)
    ensures Split(key + ['\t'] + digits, '\t') == [key, digits]
  {
    DigitsHaveNoTab(digits);
    SplitPiece(key, '\t', digits);
    SplitWhole(digits, '\t');
    assert [key] + [digits] == [key, digits];
  }

  /** `strip()` removes only the line ending of such a record. */
  lemma RecordStrip(key: string, digits: string, ending: string)
    requires key != [] && Bare(key, IsSpace)
    requires digits != [] && AllDigits(digits)
    requires All(ending, IsSpace)
    ensures Strip(key + ['\t'] + digits + ending) == key + ['\t'] + digits
  {
    var m := key + ['\t'] + digits;
    assert IsDigit(digits[|digits| - 1]);
    assert m[0] == key[0] && m[|m| - 1] == digits[|digits| - 1];
    assert key + ['\t'] + digits + ending == [] + m + ending;
    StripOfSpec([], m, ending, IsSpace);
  }

  /** A record whose key is empty loses its tab to `strip()` and no longer unpacks into
      two fields. */
  lemma MissingKeyRecord(n: nat)
    ensures ParseRecord(['\t'] + NatToString(n)) == Err(UnpackMismatch(1))
  {
    var digits := NatToString(n);
    var line := ['\t'] + digits;
    assert IsDigit(digits[0]) && IsDigit(digits[|digits| - 1]);
    assert IsSpace('\t');
    assert line == ['\t'] + digits + [];
    StripOfSpec(['\t'], digits, [], IsSpace);
    assert Strip(line) == digits;
    DigitsHaveNoTab(digits);
    SplitWhole(digits, '\t');
    assert Split(Strip(line), '\t') == [digits];
  }

  /** A line without a tab never unpacks into two fields. */
  lemma LineWithoutTab(line: string)
    requires '\t' !in line
    ensures ParseRecord(line) == Err(UnpackMismatch(1))
  {
    var t := Strip(line);
    StripOfInside(line, IsSpace);
    assert '\t' !in t;
    SplitWhole(t, '\t');
  }

  // ---------------------------------------------------------------------------
  // The five statistics and what they print
  // ---------------------------------------------------------------------------

  /** `f"NormalizedValue_{i}"`. */
  function NormalizedLabel(i: nat): string
  {
    "NormalizedValue_" + NatToString(i)
  }

  /** The lines `for i, val in enumerate(normalized)` prints. */
  function NormalizedLines(normalized: seq<Stats.Num>): (r: seq<ResultLine>)
    ensures |r| == |normalized|
  {
    seq(|normalized|, i requires 0 <= i < |normalized| => ResultLine(NormalizedLabel(i), normalized[i]))
  }

  /** The branch of the chosen statistic over the values read; an empty list makes every
      branch fail, on an index, a division or `min()`. */
  function Compute(st: Statistic, values: seq<real>, sqrt: real -> real): Result<seq<ResultLine>, Fault>
  {
    if |values| == 0 then
      match st
      case Median => Err(IndexOutOfRange)
      case StdDev => Err(ZeroDivision)
      case MinMax => Err(EmptySequence)
      case Percentile => Err(IndexOutOfRange)
      case Skewness => Err(ZeroDivision)
    else
      match st
      case Median => Ok([ResultLine("Median", Stats.Float(Stats.Median(values)))])
      case StdDev => Ok([ResultLine("StandardDeviation", Stats.Float(Stats.StdDev(values, sqrt)))])
      case MinMax => Ok(NormalizedLines(Stats.Normalize(values)))
      case Percentile => Ok([ResultLine("90thPercentile", Stats.Float(Stats.Percentile90(values)))])
      case Skewness => Ok([ResultLine("Skewness", Stats.Skewness(values, sqrt))])
  }

  /** The whole script: argument check, lower-casing, the reading loop, then the selector
      and the chosen statistic. `sqrt` stands for `math.sqrt`. */
  function Script(argv: seq<string>, input: seq<string>, sqrt: real -> real): Outcome
  {
    if |argv| != 2 then Exited(1, Usage)
    else
      var func := Lower(argv[1]);
      match ParseAll(input)
      case Err(f) => Raised(f)
      case Ok(values) =>
        match ParseSelector(func)
        case None => Exited(1, "Unknown function: " + func)
        case Some(st) =>
          match Compute(st, values, sqrt)
          case Err(f) => Raised(f)
          case Ok(lines) => Printed(lines)
  }

  // ---------------------------------------------------------------------------
  // Properties of a run
  // ---------------------------------------------------------------------------

  /** A wrong argument count ends the run with the usage message and status 1, whatever
      the input holds. */
  lemma UsageExit(argv: seq<string>, input: seq<string>, sqrt: real -> real)
    requires |argv| != 2
    ensures Script(argv, input, sqrt) == Exited(1, Usage)
  {
  }

  /** The input is read before the selector is looked at: a bad line ends the run with
      its fault, even when the selector is unknown. */
  lemma InputReadBeforeSelector(argv: seq<string>, input: seq<string>, sqrt: real -> real)
    requires |argv| == 2 && ParseAll(input).Err?
    ensures Script(argv, input, sqrt) == Raised(ParseAll(input).error)
  {
  }

  /** An unknown selector, once the input has been read, ends the run with status 1 and
      the lower-cased selector on standard error, and nothing on standard output. */
  lemma UnknownSelector(argv: seq<string>, input: seq<string>, sqrt: real -> real)
    requires |argv| == 2 && ParseAll(input).Ok?
    requires forall st: Statistic :: Lower(argv[1]) != SelectorName(st)
    ensures Script(argv, input, sqrt) == Exited(1, "Unknown function: " + Lower(argv[1]))
  {
    if ParseSelector(Lower(argv[1])).Some? {
      ParseSelectorName(Lower(argv[1]), ParseSelector(Lower(argv[1])).value);
    }
  }

  /** With no input lines every statistic fails: median and percentile index the empty
      list, stddev and skewness divide by zero, minmax takes `min()` of nothing. */
  lemma EmptyInputFaults(argv: seq<string>, st: Statistic, sqrt: real -> real)
    requires |argv| == 2 && Lower(argv[1]) == SelectorName(st)
    ensures st == Median || st == Percentile ==> Script(argv, [], sqrt) == Raised(IndexOutOfRange)
    ensures st == StdDev || st == Skewness ==> Script(argv, [], sqrt) == Raised(ZeroDivision)
    ensures st == MinMax ==> Script(argv, [], sqrt) == Raised(EmptySequence)
  {
    ParseSelectorName(Lower(argv[1]), st);
  }

  /** A run prints its result exactly when there are two arguments, every line is a
      readable record, the selector is known and there is at least one line. */
  lemma PrintsIff(argv: seq<string>, input: seq<string>, sqrt: real -> real)
    ensures Script(argv, input, sqrt).Printed? <==>
      && |argv| == 2
      && (forall i :: 0 <= i < |input| ==> ParseRecord(input[i]).Ok?)
      && (exists st: Statistic :: Lower(argv[1]) == SelectorName(st))
      && |input| > 0
  {
    if |argv| == 2 {
      var func := Lower(argv[1]);
      var known := exists st: Statistic :: func == SelectorName(st);
      if ParseSelector(func).Some? {
        ParseSelectorName(func, ParseSelector(func).value);
      }
      if known {
        var st: Statistic :| func == SelectorName(st);
        ParseSelectorName(func, st);
      }
      assert known <==> ParseSelector(func).Some?;
      PrintsWhenRead(argv, input, sqrt);
    }
  }

  /** With two arguments, a run prints exactly when the input reads, the selector is
      known and there is at least one value. */
  lemma PrintsWhenRead(argv: seq<string>, input: seq<string>, sqrt: real -> real)
    requires |argv| == 2
    ensures Script(argv, input, sqrt).Printed? <==>
      && ParseAll(input).Ok?
      && ParseSelector(Lower(argv[1])).Some?
      && |input| > 0
  {
    var selected := ParseSelector(Lower(argv[1]));
    if ParseAll(input).Ok? && selected.Some? {
      ComputeOkIff(selected.value, ParseAll(input).value, sqrt);
    }
  }

  /** Every statistic succeeds exactly on a non-empty list of values. */
  lemma ComputeOkIff(st: Statistic, values: seq<real>, sqrt: real -> real)
    ensures Compute(st, values, sqrt).Ok? <==> |values| > 0
  {
  }

  /** The selector is not case-sensitive. */
  lemma SelectorCaseInsensitive(prog: string, func: string, input: seq<string>, sqrt: real -> real)
    ensures Script([prog, func], input, sqrt) == Script([prog, Lower(func)], input, sqrt)
  {
    LowerIdempotent(func);
  }

  /** The selector and the values behind a printed run. */
  lemma PrintedBy(argv: seq<string>, input: seq<string>, sqrt: real -> real) returns (st: Statistic, values: seq<real>)
    requires Script(argv, input, sqrt).Printed?
    ensures |argv| == 2 && Lower(argv[1]) == SelectorName(st)
    ensures ParseAll(input) == Ok(values) && |values| == |input|
    ensures Compute(st, values, sqrt) == Ok(Script(argv, input, sqrt).stdout)
  {
    values := ParseAll(input).value;
    st := ParseSelector(Lower(argv[1])).value;
    ParseSelectorName(Lower(argv[1]), st);
  }

  /** Distinct positions get distinct normalized labels. */
  lemma NormalizedLabelInjective(i: nat, j: nat)
    requires i != j
    ensures NormalizedLabel(i) != NormalizedLabel(j)
  {
    NatToStringInjective(i, j);
    assert NormalizedLabel(i)[16..] == NatToString(i);
    assert NormalizedLabel(j)[16..] == NatToString(j);
  }

  /** The minmax branch prints one line per value, labelled by position, with distinct
      keys and values in [0, 1]. */
  lemma MinMaxLines(values: seq<real>, sqrt: real -> real)
    requires Compute(MinMax, values, sqrt).Ok?
    ensures var out := Compute(MinMax, values, sqrt).value;
      && |out| == |values|
      && (forall i :: 0 <= i < |out| ==> out[i].key == NormalizedLabel(i))
      && (forall i :: 0 <= i < |out| ==> 0.0 <= out[i].value.Value() <= 1.0)
      && (forall i, j :: 0 <= i < j < |out| ==> out[i].key != out[j].key)
  {
    var out := Compute(MinMax, values, sqrt).value;
    Stats.NormalizeSpec(values);
    forall i, j | 0 <= i < j < |out|
      ensures out[i].key != out[j].key
    {
      NormalizedLabelInjective(i, j);
    }
  }

  /** Every other branch prints exactly one line, under its own key. */
  lemma SingleLine(st: Statistic, values: seq<real>, sqrt: real -> real)
    requires st != MinMax && Compute(st, values, sqrt).Ok?
    ensures var out := Compute(st, values, sqrt).value;
      && |out| == 1
      && (st == Median ==> out[0].key == "Median")
      && (st == StdDev ==> out[0].key == "StandardDeviation")
      && (st == Percentile ==> out[0].key == "90thPercentile")
      && (st == Skewness ==> out[0].key == "Skewness")
  {
  }

  /** What a successful run prints: for minmax one line per input value, labelled
      `NormalizedValue_0`, `NormalizedValue_1`, ... in input order, with distinct keys
      and values in [0, 1]; for the other statistics exactly one line under its key. */
  lemma PrintedLines(argv: seq<string>, input: seq<string>, sqrt: real -> real)
    requires Script(argv, input, sqrt).Printed?
    ensures var out := Script(argv, input, sqrt).stdout;
      && (Lower(argv[1]) == "minmax" ==>
        && |out| == |input|
        && (forall i :: 0 <= i < |out| ==> out[i].key == NormalizedLabel(i))
        && (forall i :: 0 <= i < |out| ==> 0.0 <= out[i].value.Value() <= 1.0)
        && (forall i, j :: 0 <= i < j < |out| ==> out[i].key != out[j].key))
      && (Lower(argv[1]) != "minmax" ==> |out| == 1)
      && (Lower(argv[1]) == "median" ==> out[0].key == "Median")
      && (Lower(argv[1]) == "stddev" ==> out[0].key == "StandardDeviation")
      && (Lower(argv[1]) == "percentile" ==> out[0].key == "90thPercentile")
      && (Lower(argv[1]) == "skewness" ==> out[0].key == "Skewness")
  {
    var st, values := PrintedBy(argv, input, sqrt);
    if st == MinMax {
      MinMaxLines(values, sqrt);
    } else {
      SingleLine(st, values, sqrt);
    }
  }

  /** Median and percentile depend only on the multiset of values. */
  lemma OrderStatisticsInsensitive(st: Statistic, a: seq<real>, b: seq<real>, sqrt: real -> real)
    requires st == Median || st == Percentile
    requires multiset(a) == multiset(b)
    ensures Compute(st, a, sqrt) == Compute(st, b, sqrt)
  {
    assert |a| == |multiset(a)| == |multiset(b)| == |b|;
    if |a| > 0 {
      Stats.OrderStatisticsPermutation(a, b);
    }
  }

  /** Standard deviation and skewness depend only on the multiset of values. */
  lemma MomentsInsensitive(st: Statistic, a: seq<real>, b: seq<real>, sqrt: real -> real)
    requires st == StdDev || st == Skewness
    requires multiset(a) == multiset(b)
    ensures Compute(st, a, sqrt) == Compute(st, b, sqrt)
  {
    assert |a| == |multiset(a)| == |multiset(b)| == |b|;
    if |a| > 0 {
      Stats.MomentsPermutation(a, b, sqrt);
    }
  }

  /** Reordering the input values does not change what median, stddev, percentile or
      skewness print. */
  lemma OrderInsensitive(argv: seq<string>, input1: seq<string>, input2: seq<string>, sqrt: real -> real)
    requires |argv| == 2 && Lower(argv[1]) != "minmax"
    requires ParseAll(input1).Ok? && ParseAll(input2).Ok?
    requires multiset(ParseAll(input1).value) == multiset(ParseAll(input2).value)
    ensures Script(argv, input1, sqrt) == Script(argv, input2, sqrt)
  {
    var a := ParseAll(input1).value;
    var b := ParseAll(input2).value;
    var selected := ParseSelector(Lower(argv[1]));
    if selected.Some? {
      var st := selected.value;
      ParseSelectorName(Lower(argv[1]), st);
      if st == Median || st == Percentile {
        OrderStatisticsInsensitive(st, a, b, sqrt);
      } else {
        MomentsInsensitive(st, a, b, sqrt);
      }
    }
  }

  // ---------------------------------------------------------------------------
  // The script, step by step
  // ---------------------------------------------------------------------------

  /** `for line in sys.stdin: ... values.append(float(val))`. */
  method ReadValues(input: seq<string>) returns (r: Result<seq<real>, Fault>)
    ensures r == ParseAll(input)
  {
    var values: seq<real> := [];
    var i := 0;
    while i < |input|
      invariant 0 <= i <= |input|
      invariant ReadAll(input[..i], ParseRecord) == Ok(values)
    {
      assert input[..i + 1][..i] == input[..i];
      match ParseRecord(input[i])
      case Err(f) =>
        assert input[..i + 1][i] == input[i];
        ReadAllErrorStays(input, i + 1, ParseRecord);
        return Err(f);
      case Ok(v) =>
        values := values + [v];
      i := i + 1;
    }
    assert input[..i] == input;
    return Ok(values);
  }

  /** `values.sort()`: insertion sort in place. */
  method SortInPlace(a: array<real>)
    modifies a
    ensures Stats.Sorted(a[..])
    ensures multiset(a[..]) == multiset(old(a[..]))
  {
    var i := 0;
    while i < a.Length
      invariant 0 <= i <= a.Length
      invariant Stats.Sorted(a[..i])
      invariant multiset(a[..]) == multiset(old(a[..]))
    {
      SinkInto(a, i);
      i := i + 1;
    }
  }

  /** One insertion step: `a[i]` is swapped down into the sorted prefix `a[..i]`, so
      that `a[..i + 1]` is sorted. */
  method SinkInto(a: array<real>, i: int)
    requires 0 <= i < a.Length && Stats.Sorted(a[..i])
    modifies a
    ensures Stats.Sorted(a[..i + 1])
    ensures multiset(a[..]) == multiset(old(a[..]))
  {
    var j := i;
    while j > 0 && a[j - 1] > a[j]
      invariant 0 <= j <= i
      invariant SortedApart(a[..], i, j) && LeastFrom(a[..], i, j)
      invariant multiset(a[..]) == multiset(old(a[..]))
    {
      ghost var s := a[..];
      a[j - 1], a[j] := a[j], a[j - 1];
      assert a[..] == s[j - 1 := s[j]][j := s[j - 1]];
      SinkStep(s, i, j);
      j := j - 1;
    }
    SinkDone(a[..], i, j);
  }

  /** `s[..i + 1]` is sorted once its element at `j` is left out. */
  predicate SortedApart(s: seq<real>, i: int, j: int)
    requires i < |s|
  {
    forall k, l :: 0 <= k < l <= i && k != j && l != j ==> s[k] <= s[l]
  }

  /** The element at `j` is no larger than those after it, up to `i`. */
  predicate LeastFrom(s: seq<real>, i: int, j: int)
    requires 0 <= j <= i < |s|
  {
    forall l :: j < l <= i ==> s[j] <= s[l]
  }

  /** Swapping the sinking element with a larger left neighbour keeps both facts, one
      place further left. */
  lemma SinkStep(s: seq<real>, i: int, j: int)
    requires 0 < j <= i < |s| && s[j - 1] > s[j]
    requires SortedApart(s, i, j) && LeastFrom(s, i, j)
    ensures var t := s[j - 1 := s[j]][j := s[j - 1]];
      SortedApart(t, i, j - 1) && LeastFrom(t, i, j - 1)
  {
    var t := s[j - 1 := s[j]][j := s[j - 1]];
    forall k, l | 0 <= k < l <= i && k != j - 1 && l != j - 1
      ensures t[k] <= t[l]
    {
      if l == j {
        assert t[l] == s[j - 1];
        if k < j - 1 {
          assert s[k] <= s[j - 1];
        }
      }
    }
    forall l | j - 1 < l <= i
      ensures t[j - 1] <= t[l]
    {
      if l > j {
        assert s[j] <= s[l];
      }
    }
  }

  /** Once the sinking element has stopped, `s[..i + 1]` is sorted. */
  lemma SinkDone(s: seq<real>, i: int, j: int)
    requires 0 <= j <= i < |s|
    requires SortedApart(s, i, j) && LeastFrom(s, i, j)
    requires j == 0 || s[j - 1] <= s[j]
    ensures Stats.Sorted(s[..i + 1])
  {
    forall k, l | 0 <= k < l <= i
      ensures s[k] <= s[l]
    {
      if k == j {
        assert LeastFrom(s, i, j);
      } else if l == j {
        if k < j - 1 {
          assert s[k] <= s[j - 1];
        }
      }
    }
  }

  /** A fresh array holding the values, sorted in place; it holds `sorted(values)`. */
  method SortedValues(values: seq<real>) returns (a: array<real>)
    ensures fresh(a)
    ensures a[..] == Stats.SortSeq(values)
  {
    a := new real[|values|](i requires 0 <= i < |values| => values[i]);
    assert a[..] == values;
    SortInPlace(a);
    Stats.SortedUnique(a[..], Stats.SortSeq(values));
  }

  /** `for i, val in enumerate(normalized): print(f"NormalizedValue_{i}\t{val}")`. */
  method EmitNormalized(normalized: seq<Stats.Num>) returns (out: seq<ResultLine>)
    ensures out == NormalizedLines(normalized)
  {
    out := [];
    var i := 0;
    while i < |normalized|
      invariant 0 <= i <= |normalized|
      invariant out == NormalizedLines(normalized)[..i]
    {
      out := out + [ResultLine(NormalizedLabel(i), normalized[i])];
      i := i + 1;
    }
  }

  /** The median branch: sort a copy, then take the middle element or the mean of the
      two middle elements. */
  method MedianOf(values: seq<real>) returns (median: real)
    requires |values| > 0
    ensures median == Stats.Median(values)
  {
    var n := |values|;
    var a := SortedValues(values);
    median := if n % 2 == 1 then a[n / 2] else (a[n / 2 - 1] + a[n / 2]) / 2.0;
  }

  /** The percentile branch: sort a copy, then take the element at the 90 % index. */
  method PercentileOf(values: seq<real>) returns (p: real)
    requires |values| > 0
    ensures p == Stats.Percentile90(values)
  {
    var a := SortedValues(values);
    var index := Stats.PercentileIndex(|values|);
    p := a[index];
  }

  /** The chosen branch as it runs over the values read. */
  method RunStatistic(st: Statistic, values: seq<real>, sqrt: real -> real) returns (r: Result<seq<ResultLine>, Fault>)
    ensures r == Compute(st, values, sqrt)
  {
    var n := |values|;
    match st
    case Median =>
      if n == 0 {
        return Err(IndexOutOfRange);
      }
      var median := MedianOf(values);
      r := Ok([ResultLine("Median", Stats.Float(median))]);
    case StdDev =>
      if n == 0 {
        return Err(ZeroDivision);
      }
      var stddev := Stats.StdDev(values, sqrt);
      r := Ok([ResultLine("StandardDeviation", Stats.Float(stddev))]);
    case MinMax =>
      if n == 0 {
        return Err(EmptySequence);
      }
      var normalized := Stats.Normalize(values);
      var out := EmitNormalized(normalized);
      r := Ok(out);
    case Percentile =>
      if n == 0 {
        return Err(IndexOutOfRange);
      }
      var p := PercentileOf(values);
      r := Ok([ResultLine("90thPercentile", Stats.Float(p))]);
    case Skewness =>
      if n == 0 {
        return Err(ZeroDivision);
      }
      var skewness := Stats.Skewness(values, sqrt);
      r := Ok([ResultLine("Skewness", skewness)]);
  }

  /** The script as it runs; it does what `Script` says. */
  method Run(argv: seq<string>, input: seq<string>, sqrt: real -> real) returns (outcome: Outcome)
    ensures outcome == Script(argv, input, sqrt)
  {
    if |argv| != 2 {
      return Exited(1, Usage);
    }
    var func := Lower(argv[1]);
    var read := ReadValues(input);
    if read.Err? {
      return Raised(read.error);
    }
    var selected := ParseSelector(func);
    if selected.None? {
      return Exited(1, "Unknown function: " + func);
    }
    var r := RunStatistic(selected.value, read.value, sqrt);
    match r
    case Err(f) => outcome := Raised(f);
    case Ok(lines) => outcome := Printed(lines);
  }
}
