/** The C++ accumulator and its Python mirror, both proved against the batch description of the window. */
module Accumulators {
  import opened SampleRing
  import opened WindowStats

  const TWO_64: int := 0x1_0000_0000_0000_0000

  type uint64 = x: int | 0 <= x < TWO_64

  /** Seconds between two readings of an unsigned 64-bit nanosecond clock. */
  function Seconds(from: uint64, to: uint64): real {
    ((to - from) % TWO_64) as real / 1000000000.0
  }

  /** Forward readings telescope: the durations of two consecutive windows add up. */
  lemma SecondsTelescope(a: uint64, b: uint64, c: uint64)
    requires a <= b <= c
    ensures Seconds(a, b) >= 0.0 && Seconds(a, b) + Seconds(b, c) == Seconds(a, c)
  {
    UniqueRemainder(b - a, TWO_64, 0, b - a);
    UniqueRemainder(c - b, TWO_64, 0, c - b);
    UniqueRemainder(c - a, TWO_64, 0, c - a);
  }

  /** A reading behind the previous one wraps instead of going negative. */
  lemma SecondsWrap(a: uint64, b: uint64)
    requires b < a
    ensures Seconds(a, b) == (0x1_0000_0000_0000_0000 - (a - b)) as real / 1000000000.0
  {
    UniqueRemainder(b - a, TWO_64, -1, b - a + TWO_64);
  }

  /** A duration in seconds between two nanosecond readings: the difference of forward readings, and what is
      missing to 2^64 nanoseconds of backward ones. */
  predicate Elapsed(from: uint64, to: uint64, duration: real) {
    duration * 1000000000.0 == (if from <= to then to - from else 0x1_0000_0000_0000_0000 - (from - to)) as real
  }

  lemma SecondsElapsed(from: uint64, to: uint64)
    ensures Elapsed(from, to, Seconds(from, to))
  {
    if from <= to {
      UniqueRemainder(to - from, TWO_64, 0, to - from);
    } else {
      SecondsWrap(from, to);
    }
  }

  /** Entry (numerator / 20) * (n - 1), rounded down, of a sorted run of n samples. */
  function PercentileIndex(twentieths: nat, n: nat): (i: nat)
    requires n > 0 && twentieths <= 20
    ensures i < n
  {
    twentieths * (n - 1) / 20
  }

  /** Reading a sorted rearrangement of the newest samples at the percentile indices gives their ranks. */
  lemma PercentilesAreRanks(st: Stats, sorted: seq<real>, recent: seq<real>)
    requires Sorted(sorted) && multiset(sorted) == multiset(recent) && sorted != []
    requires st.hasPercentiles
    requires st.p05 == sorted[PercentileIndex(1, |sorted|)]
    requires st.p50 == sorted[PercentileIndex(10, |sorted|)]
    requires st.p95 == sorted[PercentileIndex(19, |sorted|)]
    ensures DescribesQuantiles(st, recent)
  {
    Rearranged(Itself(), Below(0.0), sorted, recent);
    SortedGivesRank(recent, sorted, PercentileIndex(1, |sorted|));
    SortedGivesRank(recent, sorted, PercentileIndex(10, |sorted|));
    SortedGivesRank(recent, sorted, PercentileIndex(19, |sorted|));
    assert 10 * (|sorted| - 1) / 20 == (|sorted| - 1) / 2;
  }

  // ---------------------------------------------------------------- the online recurrence

  datatype Online = Online(n: nat, mean: real, m2: real)

  /** One sample: Welford's recurrence for mean and M2. */
  function Absorb(o: Online, x: real): Online {
    var n := o.n + 1;
    var delta := x - o.mean;
    var mean := o.mean + delta / (n as real);
    Online(n, mean, o.m2 + delta * (x - mean))
  }

  function Absorbed(window: seq<real>): Online {
    if window == [] then Online(0, 0.0, 0.0)
    else Absorb(Absorbed(window[..|window| - 1]), window[|window| - 1])
  }

  lemma AbsorbedSnoc(window: seq<real>, x: real, o: Online)
    requires o == Absorbed(window)
    ensures Absorbed(window + [x]) == Absorb(o, x)
  {
    assert (window + [x])[..|window|] == window;
  }

  /** The statements of update(), on local copies of the fields. */
  method Advance(o: Online, x: real) returns (o': Online)
    ensures o' == Absorb(o, x)
  {
    var n := o.n + 1;
    var delta := x - o.mean;
    var mean := o.mean + delta / (n as real);
    var delta2 := x - mean;
    var m2 := o.m2 + delta * delta2;
    o' := Online(n, mean, m2);
  }

  /** The online fields equal the batch definitions after every sequence of samples. */
  lemma {:induction false} OnlineIsBatch(window: seq<real>)
    ensures Absorbed(window)
         == Online(|window|, Mean(window), SquaredDeviation(window, Mean(window)))
  {
    if window == [] {
    } else {
      var s, x := window[..|window| - 1], window[|window| - 1];
      OnlineIsBatch(s);
      assert s + [x] == window;
      AbsorbIsBatch(s, x);
    }
  }

  lemma AbsorbIsBatch(s: seq<real>, x: real)
    ensures Absorb(Online(|s|, Mean(s), SquaredDeviation(s, Mean(s))), x)
         == Online(|s + [x]|, Mean(s + [x]), SquaredDeviation(s + [x], Mean(s + [x])))
  {
    var o := Absorb(Online(|s|, Mean(s), SquaredDeviation(s, Mean(s))), x);
    WelfordStep(s, x, o.mean, o.m2);
  }

  class StatAccumulator {
    /** std::numeric_limits<double>::max(); a sample is finite when it lies between -top and top. */
    const top: real
    const cap: nat
    const buf: array<real>
    var n: nat
    var mean: real
    var m2: real
    var sumSq: real
    var min: real
    var max: real
    var writeIdx: nat
    var initialTimeNs: uint64

    /** The samples since the last flush. */
    ghost var window: seq<real>

    predicate Finite(x: real) { -top <= x <= top }

    ghost predicate Valid()
      reads this, buf
    {
      && buf.Length == cap
      && Online(n, mean, m2) == Absorbed(window)
      && sumSq == SumSquares(window)
      && (if window == [] then min == top && max == -top
          else IsMin(window, min) && IsMax(window, max))
      && (forall x | x in window :: Finite(x))
      && writeIdx == (if cap > 0 then |window| else 0)
      && HoldsNewest(buf[..], window)
    }

    constructor (percentileCapacity: nat, maxDouble: real)
      ensures Valid() && fresh(buf) && cap == percentileCapacity && top == maxDouble
      ensures window == [] && initialTimeNs == 0
    {
      top, cap := maxDouble, percentileCapacity;
      buf := new real[percentileCapacity];
      n, mean, m2, sumSq := 0, 0.0, 0.0, 0.0;
      min, max := maxDouble, -maxDouble;
      writeIdx, initialTimeNs := 0, 0;
      window := [];
    }

    method Update(x: real)
      requires Valid() && Finite(x)
      modifies `n, `mean, `m2, `sumSq, `min, `max, `writeIdx, `window, buf
      ensures Valid() && window == old(window) + [x]
    {
      Accumulate(x);
      Stretch(x);
      if cap > 0 {
        Store(x, window);
      }
      window := window + [x];
    }

    method Accumulate(x: real)
      requires Online(n, mean, m2) == Absorbed(window) && sumSq == SumSquares(window)
      modifies `n, `mean, `m2, `sumSq
      ensures Online(n, mean, m2) == Absorbed(window + [x]) && sumSq == SumSquares(window + [x])
    {
      var o := Online(n, mean, m2);
      AbsorbedSnoc(window, x, o);
      o := Advance(o, x);
      n, mean, m2 := o.n, o.mean, o.m2;
      SnocSum(Square(), window, x);
      sumSq := sumSq + Square()(x);
    }

    method Stretch(x: real)
      requires Finite(x)
      requires if window == [] then min == top && max == -top else IsMin(window, min) && IsMax(window, max)
      modifies `min, `max
      ensures IsMin(window + [x], min) && IsMax(window + [x], max)
    {
      if x < min { min := x; }
      if x > max { max := x; }
    }

    /** The modular write of the newest sample. */
    method Store(x: real, ghost before: seq<real>)
      requires buf.Length == cap > 0 && writeIdx == |before| && HoldsNewest(buf[..], before)
      modifies this`writeIdx, buf
      ensures writeIdx == |before| + 1 && HoldsNewest(buf[..], before + [x])
    {
      RingWrite(buf[..], before, x);
      ghost var slots := buf[..];
      buf[writeIdx % cap] := x;
      writeIdx := writeIdx + 1;
      assert buf[..] == slots[|before| % cap := x];
    }

    method Flush(timeNs: uint64) returns (s: Stats, duration: real)
      requires Valid()
      modifies this, buf
      ensures Valid() && window == [] && initialTimeNs == timeNs
      ensures Describes(s, old(window), cap)
      ensures duration == Seconds(old(initialTimeNs), timeNs) && Elapsed(old(initialTimeNs), timeNs, duration)
    {
      SecondsElapsed(initialTimeNs, timeNs);
      duration := Seconds(initialTimeNs, timeNs);
      s := Moments();
      if cap > 0 && writeIdx > 0 {
        s := Percentiles(s);
      }
      Reset(timeNs);
    }

    /** The report before percentiles; the guards keep an empty window at zero. */
    method Moments() returns (s: Stats)
      requires Valid()
      ensures DescribesMoments(s, window) && DescribesQuantiles(s, [])
    {
      OnlineIsBatch(window);
      s := Stats(
        n,
        if n > 0 then mean else 0.0,
        if n > 1 then m2 / ((n - 1) as real) else 0.0,
        if n > 0 then sumSq / (n as real) else 0.0,
        if n > 0 then min else 0.0,
        if n > 0 then max else 0.0,
        0.0, 0.0, 0.0, false);
    }

    /** Sorts the filled prefix in place and reads it at the percentile indices. */
    method Percentiles(s: Stats) returns (s': Stats)
      requires buf.Length == cap > 0 && writeIdx == |window| > 0 && HoldsNewest(buf[..], window)
      modifies buf
      ensures DescribesQuantiles(s', Newest(window, cap))
      ensures DescribesMoments(s, window) ==> DescribesMoments(s', window)
    {
      var k := if writeIdx < cap then writeIdx else cap;
      SortNewest(k);
      s' := s.(hasPercentiles := true,
               p05 := buf[PercentileIndex(1, k)],
               p50 := buf[PercentileIndex(10, k)],
               p95 := buf[PercentileIndex(19, k)]);
      PercentilesAreRanks(s', buf[..k], Newest(window, cap));
    }

    method SortNewest(k: nat)
      requires buf.Length == cap > 0 && HoldsNewest(buf[..], window) && k == |Newest(window, cap)|
      modifies buf
      ensures Sorted(buf[..k]) && multiset(buf[..k]) == multiset(Newest(window, cap))
    {
      PrefixIsNewest(buf[..], window);
      assert buf[..][..k] == buf[..k];
      SortPrefix(buf, k);
    }

    method Reset(timeNs: uint64)
      requires buf.Length == cap
      modifies this
      ensures Valid() && window == [] && initialTimeNs == timeNs
    {
      n, mean, m2, sumSq := 0, 0.0, 0.0, 0.0;
      min, max := top, -top;
      writeIdx := 0;
      initialTimeNs := timeNs;
      window := [];
    }
  }

  /** Values in the order of the key list: the vector the C++ stats publisher sends (the deviation
      and rms entries hold the squares). */
  function ToStdVector(s: Stats, duration: real): seq<real> {
    [duration, s.count as real, s.mean, s.stdDevSquared, s.rmsSquared, s.min, s.max]
    + (if s.hasPercentiles then [s.p05, s.p50, s.p95] else [])
  }

  function ValueKeys(cap: nat): seq<string> {
    ["duration", "count", "mean", "std_dev", "rms", "min", "max"]
    + (if cap > 0 then ["p05", "p50", "p95"] else [])
  }

  function KeyCount(cap: nat): nat { if cap > 0 then 10 else 7 }

  /** The statistic a key names. */
  function Named(key: string, s: Stats, duration: real): real {
    match key
    case "duration" => duration
    case "count" => s.count as real
    case "mean" => s.mean
    case "std_dev" => s.stdDevSquared
    case "rms" => s.rmsSquared
    case "min" => s.min
    case "max" => s.max
    case "p05" => s.p05
    case "p50" => s.p50
    case "p95" => s.p95
    case _ => 0.0
  }

  /** Every value of a flushed window stands under the key that names it, and the vector is as long as the
      key list exactly when the window was not empty or percentiles are off. */
  lemma VectorMatchesKeys(s: Stats, duration: real, window: seq<real>, cap: nat)
    requires Describes(s, window, cap)
    ensures |ToStdVector(s, duration)| <= |ValueKeys(cap)| == KeyCount(cap)
    ensures |ToStdVector(s, duration)| == |ValueKeys(cap)| <==> window != [] || cap == 0
    ensures forall i | 0 <= i < |ToStdVector(s, duration)| ::
              ToStdVector(s, duration)[i] == Named(ValueKeys(cap)[i], s, duration)
  {
    NamedValues(s, duration, cap);
  }

  lemma NamedValues(s: Stats, duration: real, cap: nat)
    requires s.hasPercentiles ==> cap > 0
    ensures |ToStdVector(s, duration)| == (if s.hasPercentiles then 10 else 7) <= |ValueKeys(cap)|
    ensures forall i | 0 <= i < |ToStdVector(s, duration)| ::
              ToStdVector(s, duration)[i] == Named(ValueKeys(cap)[i], s, duration)
  {}

  /** Python floats: the extremes of an empty window are the infinities. */
  datatype Extreme = NegInf | Fin(value: real) | PosInf

  predicate LessThan(x: real, e: Extreme) { e.PosInf? || (e.Fin? && x < e.value) }

  predicate GreaterThan(x: real, e: Extreme) { e.NegInf? || (e.Fin? && x > e.value) }

  /** The mirrors agree: flushing the same window gives the same report, rms aside. */
  lemma MirrorsAgree(cpp: Stats, py: Stats, window: seq<real>, cap: nat)
    requires Describes(cpp, window, cap)
    requires Describes(py.(rmsSquared := RmsSquared(window)), window, cap)
    ensures cpp == py.(rmsSquared := cpp.rmsSquared)
  {
    DescriptionUnique(cpp, py.(rmsSquared := RmsSquared(window)), window, cap);
  }

  class PyStatAccumulator {
    const cap: nat
    var buf: seq<real>
    var n: nat
    var mean: real
    var m2: real
    var min: Extreme
    var max: Extreme
    var writeIdx: nat

    /** The samples since the last flush. */
    ghost var window: seq<real>

    ghost predicate Valid()
      reads this
    {
      && |buf| == cap
      && Online(n, mean, m2) == Absorbed(window)
      && (if window == [] then min == PosInf && max == NegInf
          else min.Fin? && IsMin(window, min.value) && max.Fin? && IsMax(window, max.value))
      && writeIdx == (if cap > 0 then |window| else 0)
      && HoldsNewest(buf, window)
    }

    constructor (percentileCapacity: nat)
      ensures Valid() && cap == percentileCapacity && window == []
    {
      cap := percentileCapacity;
      buf := seq(percentileCapacity, _ => 0.0);
      n, mean, m2, min, max, writeIdx := 0, 0.0, 0.0, PosInf, NegInf, 0;
      window := [];
    }

    method Update(x: real)
      requires Valid()
      modifies this
      ensures Valid() && window == old(window) + [x]
    {
      Accumulate(x);
      Stretch(x);
      if cap > 0 {
        Store(x, window);
      }
      window := window + [x];
    }

    method Stretch(x: real)
      requires if window == [] then min == PosInf && max == NegInf
               else min.Fin? && IsMin(window, min.value) && max.Fin? && IsMax(window, max.value)
      modifies `min, `max
      ensures min.Fin? && IsMin(window + [x], min.value) && max.Fin? && IsMax(window + [x], max.value)
    {
      if LessThan(x, min) { min := Fin(x); }
      if GreaterThan(x, max) { max := Fin(x); }
    }

    method Store(x: real, ghost before: seq<real>)
      requires |buf| == cap > 0 && writeIdx == |before| && HoldsNewest(buf, before)
      modifies `writeIdx, `buf
      ensures |buf| == cap && writeIdx == |before| + 1 && HoldsNewest(buf, before + [x])
    {
      RingWrite(buf, before, x);
      buf := buf[writeIdx % cap := x];
      writeIdx := writeIdx + 1;
    }

    method Accumulate(x: real)
      requires Online(n, mean, m2) == Absorbed(window)
      modifies `n, `mean, `m2
      ensures Online(n, mean, m2) == Absorbed(window + [x])
    {
      var o := Online(n, mean, m2);
      AbsorbedSnoc(window, x, o);
      o := Advance(o, x);
      n, mean, m2 := o.n, o.mean, o.m2;
    }

    /** The Python report has no rms field; it is the C++ report otherwise. */
    method Flush() returns (s: Stats)
      requires Valid()
      modifies this
      ensures Valid() && window == []
      ensures Describes(s.(rmsSquared := RmsSquared(old(window))), old(window), cap)
    {
      ghost var w := window;
      OnlineIsBatch(w);
      ghost var rms := RmsSquared(w);
      s := Stats(0, 0.0, 0.0, 0.0, 0.0, 0.0, 0.0, 0.0, 0.0, false);
      s := s.(count := n);
      if n > 0 {
        s := s.(mean := mean,
                stdDevSquared := if n > 1 then m2 / ((n - 1) as real) else 0.0,
                min := min.value,
                max := max.value);
      }
      assert DescribesMoments(s.(rmsSquared := rms), w);
      if cap > 0 && writeIdx > 0 {
        var k := if writeIdx < cap then writeIdx else cap;
        PrefixIsNewest(buf, w);
        var tmp := SortedCopy(buf[..k]);
        Rearranged(Itself(), Below(0.0), tmp, buf[..k]);
        s := s.(hasPercentiles := true,
                p05 := tmp[PercentileIndex(1, k)],
                p50 := tmp[PercentileIndex(10, k)],
                p95 := tmp[PercentileIndex(19, k)]);
        PercentilesAreRanks(s.(rmsSquared := rms), tmp, Newest(w, cap));
      }
      assert Describes(s.(rmsSquared := rms), w, cap);
      n, mean, m2, min, max, writeIdx := 0, 0.0, 0.0, PosInf, NegInf, 0;
      window := [];
    }
  }
}
