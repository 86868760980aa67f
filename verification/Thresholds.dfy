/** Judging one window's statistics against error and warning limits. */
module Thresholds {
  import opened Accumulators
  import opened Options
  import opened WindowStats

  const INT_MAX := 2147483647
  const INT_MIN := -2147483648

  /** Bounds on the statistics of a window; a bound of an infinity never trips on its own side. */
  datatype Limits = Limits(
    peakMin: Extreme, peakMax: Extreme,
    avgMin: Extreme, avgMax: Extreme,
    rmsMin: Extreme, rmsMax: Extreme,
    countMin: int, countMax: int)

  const DEFAULTS := Limits(NegInf, PosInf, NegInf, PosInf, Fin(0.0), PosInf, INT_MIN, INT_MAX)

  /** The eight checks, in the order they are made. */
  datatype Check = PeakHigh | PeakLow | AvgHigh | AvgLow | RmsHigh | RmsLow | CountHigh | CountLow

  const ORDER := [PeakHigh, PeakLow, AvgHigh, AvgLow, RmsHigh, RmsLow, CountHigh, CountLow]

  // ---------------------------------------------------------------- comparing a root with a bound

  /** sqrt(square) > bound, stated on the square. */
  predicate RootAbove(square: real, bound: Extreme) {
    bound.NegInf? || (bound.Fin? && (bound.value < 0.0 || square > bound.value * bound.value))
  }

  /** sqrt(square) < bound, stated on the square. */
  predicate RootBelow(square: real, bound: Extreme) {
    bound.PosInf? || (bound.Fin? && bound.value > 0.0 && square < bound.value * bound.value)
  }

  /** Comparing squares decides what comparing the roots would. */
  lemma RootComparisons(root: real, bound: Extreme)
    requires root >= 0.0
    ensures RootAbove(root * root, bound) <==> GreaterThan(root, bound)
    ensures RootBelow(root * root, bound) <==> LessThan(root, bound)
  {
    if bound.Fin? && bound.value >= 0.0 {
      SquaresOrdered(root, bound.value);
      SquaresOrdered(bound.value, root);
    }
  }

  lemma SquaresOrdered(a: real, b: real)
    requires a >= 0.0 && b >= 0.0
    ensures a < b <==> a * a < b * b
  {
    var sum, difference := a + b, b - a;
    assert b * b - a * a == sum * difference;
    if difference > 0.0 {
      assert sum * difference > 0.0;
    } else {
      assert sum * difference <= 0.0;
    }
  }

  // ---------------------------------------------------------------- the checks

  predicate Trips(check: Check, st: Stats, t: Limits) {
    match check
    case PeakHigh => GreaterThan(st.max, t.peakMax)
    case PeakLow => LessThan(st.min, t.peakMin)
    case AvgHigh => GreaterThan(st.mean, t.avgMax)
    case AvgLow => LessThan(st.mean, t.avgMin)
    case RmsHigh => RootAbove(st.rmsSquared, t.rmsMax)
    case RmsLow => RootBelow(st.rmsSquared, t.rmsMin)
    case CountHigh => st.count > t.countMax
    case CountLow => st.count < t.countMin
  }

  /** The first check that trips. */
  function FirstTripped(st: Stats, t: Limits): (r: Option<Check>)
    ensures r.None? ==> forall i | 0 <= i < |ORDER| :: !Trips(ORDER[i], st, t)
    ensures r.Some? ==> exists i | 0 <= i < |ORDER| ::
              r.value == ORDER[i] && Trips(ORDER[i], st, t) && forall j | 0 <= j < i :: !Trips(ORDER[j], st, t)
  {
    if Trips(PeakHigh, st, t) then assert ORDER[0] == PeakHigh; Some(PeakHigh)
    else if Trips(PeakLow, st, t) then assert ORDER[1] == PeakLow; Some(PeakLow)
    else if Trips(AvgHigh, st, t) then assert ORDER[2] == AvgHigh; Some(AvgHigh)
    else if Trips(AvgLow, st, t) then assert ORDER[3] == AvgLow; Some(AvgLow)
    else if Trips(RmsHigh, st, t) then assert ORDER[4] == RmsHigh; Some(RmsHigh)
    else if Trips(RmsLow, st, t) then assert ORDER[5] == RmsLow; Some(RmsLow)
    else if Trips(CountHigh, st, t) then assert ORDER[6] == CountHigh; Some(CountHigh)
    else if Trips(CountLow, st, t) then assert ORDER[7] == CountLow; Some(CountLow)
    else None
  }

  datatype Verdict = Fine | Warning(check: Check) | Error(check: Check)

  /** Error limits first; only when none of them trips do the warning limits count. */
  function Judge(st: Stats, warning: Limits, error: Limits): (v: Verdict)
    ensures v.Error? <==> FirstTripped(st, error).Some?
    ensures v.Error? ==> FirstTripped(st, error) == Some(v.check)
    ensures v.Warning? ==> FirstTripped(st, warning) == Some(v.check)
    ensures v.Fine? ==> FirstTripped(st, warning).None?
  {
    var e, w := FirstTripped(st, error), FirstTripped(st, warning);
    if e.Some? then Error(e.value) else if w.Some? then Warning(w.value) else Fine
  }

  function LevelOf(v: Verdict): int {
    match v
    case Fine => 0
    case Warning(_) => 1
    case Error(_) => 2
  }

  // ---------------------------------------------------------------- what a verdict says of the samples

  /** The samples themselves break a limit: one of them is too high or too low, or their mean, their
      root mean square or their number is. */
  ghost predicate Breaks(window: seq<real>, t: Limits) {
    || (exists x | x in window :: GreaterThan(x, t.peakMax) || LessThan(x, t.peakMin))
    || GreaterThan(Mean(window), t.avgMax) || LessThan(Mean(window), t.avgMin)
    || RootAbove(RmsSquared(window), t.rmsMax) || RootBelow(RmsSquared(window), t.rmsMin)
    || |window| > t.countMax || |window| < t.countMin
  }

  /** A check trips exactly when the samples of the window break the limits. */
  lemma TripsIffBreaks(st: Stats, window: seq<real>, cap: nat, t: Limits)
    requires window != [] && Describes(st, window, cap)
    ensures FirstTripped(st, t).Some? <==> Breaks(window, t)
  {
    assert st.min in window && st.max in window;
    if x :| x in window && (GreaterThan(x, t.peakMax) || LessThan(x, t.peakMin)) {
      var k :| 0 <= k < |window| && window[k] == x;
      assert st.min <= window[k] <= st.max;
      assert Trips(PeakHigh, st, t) || Trips(PeakLow, st, t);
    }
  }

  /** The published level from the samples: ERROR exactly when they break the error limits, WARNING
      exactly when they break only the warning limits. */
  lemma LevelFromSamples(st: Stats, window: seq<real>, cap: nat, warning: Limits, error: Limits)
    requires window != [] && Describes(st, window, cap)
    ensures LevelOf(Judge(st, warning, error))
         == if Breaks(window, error) then 2 else if Breaks(window, warning) then 1 else 0
  {
    TripsIffBreaks(st, window, cap, error);
    TripsIffBreaks(st, window, cap, warning);
  }

  /** The default limits are broken only by a window of more samples than a 32-bit count can hold. */
  lemma DefaultsTripIff(window: seq<real>)
    ensures Breaks(window, DEFAULTS) <==> |window| > 0x7FFF_FFFF
  {}
}
