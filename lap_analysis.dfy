/**
 * Lap-time analysis for one racer: reading the racer's column of a lap-time
 * table into a series of optional times, the lap-to-lap and best-lap delta
 * reports, the consistency (sample variance) metric and the pace consistency
 * index.  Times are exact reals (seconds); the reports are returned as
 * records instead of being printed.
 */
module LapAnalysis {
  import opened Wrappers
  import opened PyText

  /** One slot per lap, in lap order; None when the cell was blank or not a number. */
  type Series = seq<Option<real>>

  /**
   * One data row of the table as the CSV dictionary reader gives it: column
   * name to cell text.  A column missing from the map is a short row, whose
   * cell the reader fills with None.
   */
  type Row = map<string, string>

  // ---------------------------------------------------------------------------
  // Reading a racer's times

  /**
   * The parsing loop of `get_racer_times`.  `fieldNames` is the header of the
   * table and `rows` its data rows; `parse` is the number parser (`float`),
   * answering None where it would raise ValueError.  An unknown racer gives
   * the empty list; otherwise there is one slot per data row, in row order: a
   * missing or empty cell is absent, and any other cell is the parse of its
   * stripped text, absent when the parse fails.
   */
  method GetRacerTimes(fieldNames: seq<string>, rows: seq<Row>, racer: string,
                       parse: string -> Option<real>)
    returns (times: Series)
    ensures racer !in fieldNames ==> times == []
    ensures racer in fieldNames ==> |times| == |rows|
    ensures racer in fieldNames ==> forall i :: 0 <= i < |rows| ==> ReadsCell(times[i], rows[i], racer, parse)
  {
    if racer !in fieldNames {
      return [];
    }
    times := [];
    for i := 0 to |rows|
      invariant |times| == i
      invariant forall k :: 0 <= k < i ==> ReadsCell(times[k], rows[k], racer, parse)
    {
      if racer !in rows[i] || rows[i][racer] == "" {
        times := times + [None];
      } else {
        times := times + [parse(Strip(rows[i][racer]))];
      }
    }
  }

  /**
   * `slot` is what the cell of `racer` in `row` reads as: absent when the row
   * has no such cell or the cell is empty, otherwise the parse of the cell's
   * stripped text.
   */
  predicate ReadsCell(slot: Option<real>, row: Row, racer: string, parse: string -> Option<real>) {
    slot == if racer in row && row[racer] != "" then parse(Strip(row[racer])) else None
  }

  // ---------------------------------------------------------------------------
  // The present laps of a series

  /** A lap that has a time, with its 1-based lap number. */
  datatype LapTime = LapTime(lap: nat, time: real)

  /**
   * The laps of `times` that hold a time, in lap order, each with its 1-based
   * lap number.
   */
  function PresentLaps(times: Series): (r: seq<LapTime>)
    ensures |r| <= |times|
    decreases |times|
  {
    if times == [] then []
    else
      var prefix := PresentLaps(times[..|times| - 1]);
      match times[|times| - 1]
      case None => prefix
      case Some(t) => prefix + [LapTime(|times|, t)]
  }

  /** Every present lap names a slot of the series, and that slot holds its time. */
  lemma {:induction false} PresentLapsSound(times: Series)
    ensures forall k :: 0 <= k < |PresentLaps(times)| ==>
      1 <= PresentLaps(times)[k].lap <= |times| && times[PresentLaps(times)[k].lap - 1] == Some(PresentLaps(times)[k].time)
    decreases |times|
  {
    if times != [] {
      var before := times[..|times| - 1];
      PresentLapsSound(before);
      assert forall k :: 0 <= k < |PresentLaps(before)| ==>
        times[PresentLaps(before)[k].lap - 1] == before[PresentLaps(before)[k].lap - 1];
    }
  }

  /** The present laps are in strictly increasing lap order. */
  lemma {:induction false} PresentLapsOrdered(times: Series)
    ensures forall k, m :: 0 <= k < m < |PresentLaps(times)| ==> PresentLaps(times)[k].lap < PresentLaps(times)[m].lap
    decreases |times|
  {
    if times != [] {
      PresentLapsOrdered(times[..|times| - 1]);
      PresentLapsSound(times[..|times| - 1]);
    }
  }

  /** Every lap that holds a time is among the present laps. */
  lemma {:induction false} PresentLapsComplete(times: Series, i: nat)
    requires i < |times| && times[i].Some?
    ensures exists k :: 0 <= k < |PresentLaps(times)| && PresentLaps(times)[k] == LapTime(i + 1, times[i].value)
    decreases |times|
  {
    var n := |times|;
    if i < n - 1 {
      PresentLapsComplete(times[..n - 1], i);
      var k :| 0 <= k < |PresentLaps(times[..n - 1])| && PresentLaps(times[..n - 1])[k] == LapTime(i + 1, times[i].value);
      assert PresentLaps(times)[k] == LapTime(i + 1, times[i].value);
    } else {
      assert PresentLaps(times)[|PresentLaps(times)| - 1] == LapTime(i + 1, times[i].value);
    }
  }

  /** `[t for t in times if t is not None]`: the valid times, in lap order. */
  function ValidTimes(times: Series): (r: seq<real>)
    ensures |r| == |PresentLaps(times)|
    ensures forall k :: 0 <= k < |r| ==> r[k] == PresentLaps(times)[k].time
  {
    var laps := PresentLaps(times);
    seq(|laps|, k requires 0 <= k < |laps| => laps[k].time)
  }

  /** A time is valid exactly when some lap of the series holds it. */
  lemma ValidTimesMembers(times: Series, x: real)
    ensures x in ValidTimes(times) <==> Some(x) in times
  {
    var laps := PresentLaps(times);
    if Some(x) in times {
      var i :| 0 <= i < |times| && times[i] == Some(x);
      PresentLapsComplete(times, i);
    }
    if x in ValidTimes(times) {
      PresentLapsSound(times);
      var k :| 0 <= k < |laps| && ValidTimes(times)[k] == x;
      assert times[laps[k].lap - 1] == Some(x);
    }
  }

  /** True when at least one lap holds a time. */
  predicate HasValidTime(times: Series) {
    exists i :: 0 <= i < |times| && times[i].Some?
  }

  lemma HasValidTimeNonEmpty(times: Series)
    requires HasValidTime(times)
    ensures |ValidTimes(times)| > 0
  {
    var i :| 0 <= i < |times| && times[i].Some?;
    ValidTimesMembers(times, times[i].value);
  }

  // ---------------------------------------------------------------------------
  // Real arithmetic used below

  function Square(x: real): real {
    x * x
  }

  // The solver handles a square best as a named value `z == x * x`.
  lemma SquareOfValueNonNegative(x: real, z: real)
    requires z == x * x
    ensures z >= 0.0
  {
    if x < 0.0 {
      assert z == (-x) * (-x);
    }
  }

  lemma SquareOfValueDivides(x: real, z: real)
    requires z == x * x && x != 0.0
    ensures z / x == x
  {
  }

  /** A square is never negative, and it is zero only for zero. */
  lemma SquareSign(x: real)
    ensures Square(x) >= 0.0
    ensures x != 0.0 ==> Square(x) > 0.0
  {
    SquareOfValueNonNegative(x, Square(x));
    if x != 0.0 {
      SquareOfValueDivides(x, Square(x));
    }
  }

  lemma QuotientNonZero(a: real, n: real)
    requires a != 0.0 && n > 0.0
    ensures a / n != 0.0
  {
    DivTimes(a, n);
  }

  lemma DivBound(a: real, b: real, n: real)
    requires n > 0.0 && n * a <= b
    ensures a <= b / n
  {
    assert b / n - a == (b - n * a) / n;
  }

  lemma DivTimes(a: real, b: real)
    requires b != 0.0
    ensures (a / b) * b == a
  {
  }

  lemma ProductQuotient(a: real, n: real)
    requires n != 0.0
    ensures (n * a) / n == a
  {
  }

  lemma RatioOne(a: real, b: real)
    requires b != 0.0
    ensures a / b == 1.0 <==> a == b
  {
    DivTimes(a, b);
  }

  lemma DivBoundStrict(a: real, b: real, n: real)
    requires n > 0.0 && n * a < b
    ensures a < b / n
  {
    assert b / n - a == (b - n * a) / n;
  }

  lemma RatioInUnit(a: real, b: real)
    requires 0.0 < a <= b
    ensures 0.0 < a / b <= 1.0
  {
    DivTimes(a, b);
  }

  // ---------------------------------------------------------------------------
  // Minimum, sum and mean

  /** Python's `min(s)`: a member of `s` no larger than any other. */
  function MinOf(s: seq<real>): (m: real)
    requires |s| > 0
    ensures m in s
    ensures forall k :: 0 <= k < |s| ==> m <= s[k]
  {
    if |s| == 1 then s[0]
    else
      var rest := MinOf(s[1..]);
      if s[0] <= rest then s[0] else rest
  }

  function Sum(s: seq<real>): real {
    if s == [] then 0.0 else s[0] + Sum(s[1..])
  }

  /** The mean: the value that, counted once per element, adds up to the sum. */
  function Mean(s: seq<real>): (m: real)
    requires |s| > 0
    ensures (|s| as real) * m == Sum(s)
  {
    Sum(s) / (|s| as real)
  }

  /** A lower bound of every element, times the count, is at most the sum. */
  lemma {:induction false} SumAtLeast(s: seq<real>, lo: real)
    requires forall k :: 0 <= k < |s| ==> lo <= s[k]
    ensures (|s| as real) * lo <= Sum(s)
  {
    if s != [] {
      SumAtLeast(s[1..], lo);
    }
  }

  /** A lower bound of every element is a lower bound of the mean. */
  lemma MeanAtLeast(s: seq<real>, lo: real)
    requires |s| > 0
    requires forall k :: 0 <= k < |s| ==> lo <= s[k]
    ensures lo <= Mean(s)
  {
    SumAtLeast(s, lo);
    DivBound(lo, Sum(s), |s| as real);
  }

  /** When some element exceeds the lower bound, the sum exceeds the count times the bound. */
  lemma {:induction false} SumAbove(s: seq<real>, lo: real, j: nat)
    requires forall k :: 0 <= k < |s| ==> lo <= s[k]
    requires j < |s| && lo < s[j]
    ensures (|s| as real) * lo < Sum(s)
  {
    assert (|s| as real) * lo == lo + (|s[1..]| as real) * lo;
    if j == 0 {
      SumAtLeast(s[1..], lo);
    } else {
      SumAbove(s[1..], lo, j - 1);
    }
  }

  /** The mean of times that all equal `c` is `c`. */
  lemma MeanOfConstant(s: seq<real>, c: real)
    requires |s| > 0
    requires forall k :: 0 <= k < |s| ==> s[k] == c
    ensures Mean(s) == c
  {
    SumConstant(s, c);
    ProductQuotient(c, |s| as real);
  }

  /** A time above a lower bound of all times puts the mean above that bound. */
  lemma MeanAbove(s: seq<real>, lo: real, j: nat)
    requires forall k :: 0 <= k < |s| ==> lo <= s[k]
    requires j < |s| && lo < s[j]
    ensures lo < Mean(s)
  {
    SumAbove(s, lo, j);
    DivBoundStrict(lo, Sum(s), |s| as real);
  }

  /** The best time equals the mean time exactly when all times are equal. */
  lemma MinEqualsMeanIffConstant(s: seq<real>)
    requires |s| > 0
    ensures MinOf(s) == Mean(s) <==> forall k :: 0 <= k < |s| ==> s[k] == s[0]
  {
    if forall k :: 0 <= k < |s| ==> s[k] == s[0] {
      MeanOfConstant(s, s[0]);
    } else {
      var j :| 0 <= j < |s| && s[j] != s[0];
      if MinOf(s) < s[0] {
        MeanAbove(s, MinOf(s), 0);
      } else {
        MeanAbove(s, MinOf(s), j);
      }
    }
  }

  /** The best time is no larger than the mean time. */
  lemma MinAtMostMean(s: seq<real>)
    requires |s| > 0
    ensures MinOf(s) <= Mean(s)
  {
    MeanAtLeast(s, MinOf(s));
  }

  // ---------------------------------------------------------------------------
  // Deltas from the previous lap

  /** The sign character printed in front of a delta's magnitude. */
  function SignOf(delta: real): (c: char)
    ensures c == '+' || c == '-'
    ensures Signed(c, Abs(delta)) == delta
  {
    if delta >= 0.0 then '+' else '-'
  }

  /** Python's `abs`: the magnitude, which is the value or its negation. */
  function Abs(x: real): (a: real)
    ensures a >= 0.0
    ensures a == x || a == -x
  {
    if x >= 0.0 then x else -x
  }

  /** The signed delta a printed sign and magnitude stand for. */
  function Signed(sign: char, magnitude: real): real {
    if sign == '+' then magnitude else -magnitude
  }

  /** The reported sign and magnitude determine the delta, and the sign is '+' exactly when it is not negative. */
  lemma SignedReport(delta: real)
    ensures SignOf(delta) == '+' <==> delta >= 0.0
    ensures Abs(delta) >= 0.0
    ensures Signed(SignOf(delta), Abs(delta)) == delta
  {
  }

  /**
   * The delta of lap `i` (0-based) against the slot before it: zero for the
   * first lap and when the slot before holds no time.
   */
  function PrevDelta(times: Series, i: nat): (d: real)
    requires i < |times| && times[i].Some?
    ensures d == 0.0 || (i > 0 && times[i - 1].Some?)
    ensures i > 0 && times[i - 1].Some? ==> times[i - 1].value + d == times[i].value
  {
    if i == 0 || times[i - 1].None? then 0.0 else times[i].value - times[i - 1].value
  }

  /** One line of the lap-to-lap report. */
  datatype PrevLapLine =
    | NoTime(lap: nat)
    | LapLine(lap: nat, time: real, sign: char, magnitude: real)

  /**
   * `pre_lap_deltas`: one line per slot, in lap order.  A slot without a time
   * gives a "No time" line; any other gives its time with the sign and
   * magnitude of its delta to the slot before.  Empty input gives no lines; on
   * other input the source takes the minimum of the valid times first, so at
   * least one lap must hold a time.
   */
  method PreLapDeltas(times: Series) returns (lines: seq<PrevLapLine>)
    requires times == [] || HasValidTime(times)
    ensures |lines| == |times|
    ensures forall i :: 0 <= i < |times| ==> lines[i].lap == i + 1
    ensures forall i :: 0 <= i < |times| ==> (lines[i].NoTime? <==> times[i].None?)
    ensures forall i :: 0 <= i < |times| && times[i].Some? ==>
      lines[i] == LapLine(i + 1, times[i].value, SignOf(PrevDelta(times, i)), Abs(PrevDelta(times, i)))
  {
    if times == [] {
      return [];
    }
    // The source computes the best and the average lap here without using
    // them; the minimum is what makes an all-absent series fail.
    HasValidTimeNonEmpty(times);
    var valid := ValidTimes(times);
    var best, avg := MinOf(valid), Sum(valid) / (|valid| as real);

    lines := [];
    for i := 0 to |times|
      invariant |lines| == i
      invariant forall k :: 0 <= k < i ==> ReportsLap(times, k, lines[k])
    {
      if times[i].None? {
        lines := lines + [NoTime(i + 1)];
      } else {
        var t := times[i].value;
        var delta: real;
        if i == 0 {
          delta := 0.0;
        } else {
          delta := if times[i - 1].Some? then t - times[i - 1].value else 0.0;
        }
        var sign := if delta >= 0.0 then '+' else '-';
        lines := lines + [LapLine(i + 1, t, sign, Abs(delta))];
      }
    }
  }

  /** `line` is the report line of slot `i` (0-based). */
  predicate ReportsLap(times: Series, i: nat, line: PrevLapLine)
    requires i < |times|
  {
    if times[i].None? then line == NoTime(i + 1)
    else line == LapLine(i + 1, times[i].value, SignOf(PrevDelta(times, i)), Abs(PrevDelta(times, i)))
  }

  /** Sum of the lap-to-lap deltas of laps `lo + 1` .. `hi` (0-based). */
  function DeltaSum(times: Series, lo: nat, hi: nat): real
    requires lo <= hi < |times|
    requires forall k :: lo <= k <= hi ==> times[k].Some?
    decreases hi - lo
  {
    if lo == hi then 0.0 else DeltaSum(times, lo, hi - 1) + PrevDelta(times, hi)
  }

  /**
   * Over a run of laps that all hold times, the lap-to-lap deltas add up to
   * the difference between the last and the first lap of the run.
   */
  lemma {:induction false} DeltasTelescope(times: Series, lo: nat, hi: nat)
    requires lo <= hi < |times|
    requires forall k :: lo <= k <= hi ==> times[k].Some?
    ensures DeltaSum(times, lo, hi) == times[hi].value - times[lo].value
    decreases hi - lo
  {
    if lo < hi {
      DeltasTelescope(times, lo, hi - 1);
    }
  }

  // ---------------------------------------------------------------------------
  // Deltas from the best lap

  /** One line of the best-lap report. */
  datatype BestLapLine = BestLapLine(lap: nat, time: real, delta: real)

  /**
   * `best_lap_deltas`: one line per lap that holds a time, in lap order,
   * with its delta to the best (smallest) valid time.  Every delta is
   * non-negative and some lap's delta is zero.  The minimum of the valid
   * times must exist, so at least one lap must hold a time.
   */
  method BestLapDeltas(times: Series) returns (lines: seq<BestLapLine>)
    requires HasValidTime(times)
    ensures |lines| == |PresentLaps(times)|
    ensures forall k :: 0 <= k < |lines| ==>
      lines[k] == BestLapLine(PresentLaps(times)[k].lap, PresentLaps(times)[k].time,
                              PresentLaps(times)[k].time - MinOf(ValidTimes(times)))
    ensures forall k :: 0 <= k < |lines| ==> lines[k].delta >= 0.0
    ensures exists k :: 0 <= k < |lines| && lines[k].delta == 0.0
  {
    HasValidTimeNonEmpty(times);
    var best := MinOf(ValidTimes(times));
    lines := [];
    assert times[..0] == [];
    for i := 0 to |times|
      invariant ReportsBest(lines, PresentLaps(times[..i]), best)
    {
      BestLapStep(times, i, lines, best);
      if times[i].Some? {
        lines := lines + [BestLapLine(i + 1, times[i].value, times[i].value - best)];
      }
    }
    assert times[..|times|] == times;
    BestDeltasBounds(times, lines);
  }

  /** In the best-lap report no delta is negative and the best lap's delta is zero. */
  lemma BestDeltasBounds(times: Series, lines: seq<BestLapLine>)
    requires |ValidTimes(times)| > 0
    requires ReportsBest(lines, PresentLaps(times), MinOf(ValidTimes(times)))
    ensures |lines| == |PresentLaps(times)|
    ensures forall k :: 0 <= k < |lines| ==>
      lines[k] == BestLapLine(PresentLaps(times)[k].lap, PresentLaps(times)[k].time,
                              PresentLaps(times)[k].time - MinOf(ValidTimes(times)))
    ensures forall k :: 0 <= k < |lines| ==> lines[k].delta >= 0.0
    ensures exists k :: 0 <= k < |lines| && lines[k].delta == 0.0
  {
    var valid := ValidTimes(times);
    var best := MinOf(valid);
    forall k | 0 <= k < |lines| ensures lines[k].delta >= 0.0 {
      assert lines[k].delta == valid[k] - best;
    }
    var w :| 0 <= w < |valid| && valid[w] == best;
    assert lines[w].delta == 0.0;
  }

  /** `lines` is the best-lap report of `laps` against the best time `best`. */
  predicate ReportsBest(lines: seq<BestLapLine>, laps: seq<LapTime>, best: real) {
    && |lines| == |laps|
    && forall k :: 0 <= k < |lines| ==> lines[k] == BestLapLine(laps[k].lap, laps[k].time, laps[k].time - best)
  }

  /** One step of the best-lap loop keeps the report in step with the present laps. */
  lemma BestLapStep(times: Series, i: nat, lines: seq<BestLapLine>, best: real)
    requires i < |times|
    requires ReportsBest(lines, PresentLaps(times[..i]), best)
    ensures times[i].Some? ==>
      ReportsBest(lines + [BestLapLine(i + 1, times[i].value, times[i].value - best)], PresentLaps(times[..i + 1]), best)
    ensures times[i].None? ==> ReportsBest(lines, PresentLaps(times[..i + 1]), best)
  {
    PresentLapsStep(times, i);
  }

  /** Extending the prefix by one slot adds that slot's lap exactly when it holds a time. */
  lemma PresentLapsStep(times: Series, i: nat)
    requires i < |times|
    ensures PresentLaps(times[..i + 1]) ==
      if times[i].Some? then PresentLaps(times[..i]) + [LapTime(i + 1, times[i].value)]
      else PresentLaps(times[..i])
  {
    assert times[..i + 1][..i] == times[..i];
  }

  // ---------------------------------------------------------------------------
  // Consistency metrics

  /** Sum of the squared deviations of `s` from `m`. */
  function SquaredDeviations(s: seq<real>, m: real): real {
    if s == [] then 0.0 else Square(s[0] - m) + SquaredDeviations(s[1..], m)
  }

  /** The sample variance: squared deviations from the mean over n - 1. */
  function SampleVariance(s: seq<real>): (v: real)
    requires |s| >= 2
    ensures v >= 0.0
  {
    SquaredDeviationsNonNegative(s, Mean(s));
    SquaredDeviations(s, Mean(s)) / ((|s| - 1) as real)
  }

  lemma {:induction false} SquaredDeviationsNonNegative(s: seq<real>, m: real)
    ensures SquaredDeviations(s, m) >= 0.0
  {
    if s != [] {
      SquaredDeviationsNonNegative(s[1..], m);
      SquareSign(s[0] - m);
    }
  }

  /** The squared deviations from `m` vanish exactly when every element is `m`. */
  lemma {:induction false} SquaredDeviationsZero(s: seq<real>, m: real)
    ensures SquaredDeviations(s, m) == 0.0 <==> forall k :: 0 <= k < |s| ==> s[k] == m
  {
    if s != [] {
      SquaredDeviationsZero(s[1..], m);
      SquaredDeviationsNonNegative(s[1..], m);
      SquareSign(s[0] - m);
      assert forall k :: 1 <= k < |s| ==> s[k] == s[1..][k - 1];
    }
  }

  lemma {:induction false} SumConstant(s: seq<real>, c: real)
    requires forall k :: 0 <= k < |s| ==> s[k] == c
    ensures Sum(s) == (|s| as real) * c
  {
    if s != [] {
      SumConstant(s[1..], c);
    }
  }

  /** The result of `consistency_metrics`. */
  datatype Consistency = InsufficientData | Metrics(variance: real)

  /**
   * `consistency_metrics`: over the valid times only, "not enough data" when
   * there are fewer than two, otherwise their sample variance, which is never
   * negative.
   */
  function ConsistencyMetrics(times: Series): (r: Consistency)
    ensures r.InsufficientData? <==> |ValidTimes(times)| < 2
    ensures r.Metrics? ==> r.variance == SampleVariance(ValidTimes(times)) && r.variance >= 0.0
  {
    var valid := ValidTimes(times);
    if |valid| < 2 then InsufficientData
    else
      SquaredDeviationsNonNegative(valid, Mean(valid));
      Metrics(SampleVariance(valid))
  }

  /** The variance is zero exactly when all valid times are equal. */
  lemma VarianceZeroIffConstant(s: seq<real>)
    requires |s| >= 2
    ensures SampleVariance(s) == 0.0 <==> forall k :: 0 <= k < |s| ==> s[k] == s[0]
  {
    SquaredDeviationsZero(s, Mean(s));
    SquaredDeviationsNonNegative(s, Mean(s));
    if forall k :: 0 <= k < |s| ==> s[k] == s[0] {
      MeanOfConstant(s, s[0]);
    }
  }

  /** For two times a and b the variance is (a - b)^2 / 2, so the deviation is |a - b| / sqrt 2. */
  lemma VarianceOfTwo(a: real, b: real)
    ensures SampleVariance([a, b]) == Square(a - b) / 2.0
  {
    var s := [a, b];
    assert s[1..] == [b] && [b][1..] == [];
    assert Sum([b]) == b;
    assert Sum(s) == a + b;
    var m := (a + b) / 2.0;
    assert Mean(s) == m;
    assert SquaredDeviations([b], m) == Square(b - m);
    assert SquaredDeviations(s, m) == Square(a - m) + Square(b - m);
    var d := a - b;
    assert a - m == d / 2.0;
    assert b - m == -(d / 2.0);
    assert Square(-(d / 2.0)) == Square(d / 2.0);
    assert Square(d / 2.0) == Square(d) / 4.0;
  }

  // ---------------------------------------------------------------------------
  // Pace consistency index

  predicate IsSorted(s: seq<real>) {
    forall k, m :: 0 <= k < m < |s| ==> s[k] <= s[m]
  }

  /** Inserts `x` into the sorted `s` before the first element not smaller than it. */
  function Insert(x: real, s: seq<real>): (r: seq<real>)
    requires IsSorted(s)
    ensures IsSorted(r)
    ensures |r| == |s| + 1
    ensures r[0] == x || (s != [] && r[0] == s[0])
  {
    if s == [] || x <= s[0] then [x] + s
    else
      var rest := Insert(x, s[1..]);
      SortedCons(s[0], rest);
      [s[0]] + rest
  }

  /** Insertion adds `x` and keeps every other element. */
  lemma {:induction false} InsertPermutes(x: real, s: seq<real>)
    requires IsSorted(s)
    ensures multiset(Insert(x, s)) == multiset(s) + multiset{x}
  {
    if s != [] && x > s[0] {
      InsertPermutes(x, s[1..]);
      assert s == [s[0]] + s[1..];
    }
  }

  /** A value no larger than the head of a sorted sequence can go in front of it. */
  lemma SortedCons(a: real, s: seq<real>)
    requires IsSorted(s) && (s != [] ==> a <= s[0])
    ensures IsSorted([a] + s)
  {
    var r := [a] + s;
    forall k, m | 0 <= k < m < |r| ensures r[k] <= r[m] {
      if k > 0 {
        assert r[k] == s[k - 1] && r[m] == s[m - 1];
      } else {
        assert r[m] == s[m - 1];
      }
    }
  }

  /** Python's `sorted(s)`: the elements of `s` in ascending order. */
  function Sorted(s: seq<real>): (r: seq<real>)
    ensures IsSorted(r)
    ensures multiset(r) == multiset(s)
    ensures |r| == |s|
  {
    if s == [] then []
    else
      InsertPermutes(s[0], Sorted(s[1..]));
      assert s == [s[0]] + s[1..];
      Insert(s[0], Sorted(s[1..]))
  }

  /** `sorted(s)[len(s) // 2]`: the upper of the two middle elements when the length is even. */
  function Median(s: seq<real>): (m: real)
    requires |s| > 0
    ensures m in s
  {
    var r := Sorted(s);
    assert r[|s| / 2] in multiset(r);
    r[|s| / 2]
  }

  /**
   * The median splits the sorted times: the ones up to the middle index are
   * no larger than it, the ones from the middle index on no smaller.
   */
  lemma MedianRank(s: seq<real>)
    requires |s| > 0
    ensures forall k :: 0 <= k <= |s| / 2 ==> Sorted(s)[k] <= Median(s)
    ensures forall k :: |s| / 2 <= k < |s| ==> Median(s) <= Sorted(s)[k]
  {
    var r, mid := Sorted(s), |s| / 2;
    forall k | 0 <= k <= mid ensures r[k] <= r[mid] {
      if k < mid {
        assert r[k] <= r[mid];
      }
    }
    forall k | mid <= k < |s| ensures r[mid] <= r[k] {
      if mid < k {
        assert r[mid] <= r[k];
      }
    }
  }

  /** The best time is no larger than the median time. */
  lemma MinAtMostMedian(s: seq<real>)
    requires |s| > 0
    ensures MinOf(s) <= Median(s)
  {
  }

  /** The result of `pace_consistency_index`, before rounding. */
  datatype Pci = Pci(pciMean: real, pciMedian: real)

  /**
   * `pace_consistency_index`: the best time over the mean and over the median.
   * The input must be non-empty (for `min`) and have a non-zero mean and
   * median (the divisions).  When all times are positive, both ratios lie in
   * (0, 1], reaching 1 only when the best equals the mean or the median.
   */
  function PaceConsistencyIndex(laps: seq<real>): (r: Pci)
    requires |laps| > 0
    requires Sum(laps) != 0.0
    requires Median(laps) != 0.0
    ensures Mean(laps) != 0.0
    ensures r.pciMean == 1.0 <==> forall k :: 0 <= k < |laps| ==> laps[k] == laps[0]
    ensures r.pciMedian == 1.0 <==> MinOf(laps) == Median(laps)
    ensures (forall k :: 0 <= k < |laps| ==> laps[k] > 0.0) ==>
      0.0 < r.pciMean <= 1.0 && 0.0 < r.pciMedian <= 1.0
  {
    PciRatios(laps);
    Pci(MinOf(laps) / Mean(laps), MinOf(laps) / Median(laps))
  }

  lemma PciRatios(laps: seq<real>)
    requires |laps| > 0
    requires Sum(laps) != 0.0
    requires Median(laps) != 0.0
    ensures Mean(laps) != 0.0
    ensures MinOf(laps) / Mean(laps) == 1.0 <==> forall k :: 0 <= k < |laps| ==> laps[k] == laps[0]
    ensures MinOf(laps) / Median(laps) == 1.0 <==> MinOf(laps) == Median(laps)
    ensures (forall k :: 0 <= k < |laps| ==> laps[k] > 0.0) ==>
      0.0 < MinOf(laps) / Mean(laps) <= 1.0 && 0.0 < MinOf(laps) / Median(laps) <= 1.0
  {
    var best, mean, median := MinOf(laps), Mean(laps), Median(laps);
    QuotientNonZero(Sum(laps), |laps| as real);
    RatioOne(best, mean);
    RatioOne(best, median);
    MinEqualsMeanIffConstant(laps);
    if forall k :: 0 <= k < |laps| ==> laps[k] > 0.0 {
      MinAtMostMean(laps);
      MinAtMostMedian(laps);
      RatioInUnit(best, mean);
      RatioInUnit(best, median);
    }
  }

  // ---------------------------------------------------------------------------
  // Worked examples

  /**
   * Laps 30.5, 29.8, (blank), 31.2: lap 2 is 0.7 faster than lap 1, and lap 4
   * has no predecessor time so its delta is 0.
   */
  lemma PrevDeltaExample()
    ensures var times: Series := [Some(30.5), Some(29.8), None, Some(31.2)];
      && PrevDelta(times, 0) == 0.0
      && PrevDelta(times, 1) == -0.7
      && PrevDelta(times, 3) == 0.0
  {
  }

  /** For the same laps the best-lap report skips lap 3. */
  lemma PresentLapsExample()
    ensures PresentLaps([Some(30.5), Some(29.8), None, Some(31.2)]) == [LapTime(1, 30.5), LapTime(2, 29.8), LapTime(4, 31.2)]
  {
    var times: Series := [Some(30.5), Some(29.8), None, Some(31.2)];
    assert times[..0] == [] && times[..4] == times;
    assert PresentLaps(times[..0]) == [];
    PresentLapsStep(times, 0);
    PresentLapsStep(times, 1);
    PresentLapsStep(times, 2);
    PresentLapsStep(times, 3);
  }

  /** For the same laps the best time, the reference of the best-lap report, is 29.8. */
  lemma BestTimeExample()
    ensures MinOf(ValidTimes([Some(30.5), Some(29.8), None, Some(31.2)])) == 29.8
  {
    PresentLapsExample();
    var valid := ValidTimes([Some(30.5), Some(29.8), None, Some(31.2)]);
    assert |valid| == 3 && valid[0] == 30.5 && valid[1] == 29.8 && valid[2] == 31.2;
    assert MinOf(valid) <= valid[1];
  }
}
