/** Batch statistics of a window of samples: the definitions the online accumulators must agree with. */
module WindowStats {

  // ---------------------------------------------------------------- sums

  function SumOf(f: real -> real, s: seq<real>): real {
    if s == [] then 0.0 else SumOf(f, s[..|s| - 1]) + f(s[|s| - 1])
  }

  function Itself(): real -> real { x => x }

  function Square(): real -> real { x => x * x }

  function SquareFrom(c: real): real -> real { x => (x - c) * (x - c) }

  function Sum(s: seq<real>): real { SumOf(Itself(), s) }

  function SumSquares(s: seq<real>): real { SumOf(Square(), s) }

  /** Sum of the squared distances from c. */
  function SquaredDeviation(s: seq<real>, c: real): real { SumOf(SquareFrom(c), s) }

  function Mean(s: seq<real>): real {
    if s == [] then 0.0 else Sum(s) / (|s| as real)
  }

  lemma SnocSum(f: real -> real, s: seq<real>, x: real)
    ensures SumOf(f, s + [x]) == SumOf(f, s) + f(x)
  {
    assert (s + [x])[..|s|] == s;
  }

  lemma {:induction false} DeviationNonNegative(s: seq<real>, c: real)
    ensures SquaredDeviation(s, c) >= 0.0
  {
    if s == [] {
    } else {
      DeviationNonNegative(s[..|s| - 1], c);
      SquareNonNegative(s[|s| - 1] - c);
    }
  }

  lemma SquareNonNegative(x: real)
    ensures x * x >= 0.0
  {}

  /** The squared deviation expands into the first two moments. */
  lemma {:induction false} DeviationExpands(s: seq<real>, c: real)
    ensures SquaredDeviation(s, c) == SumSquares(s) - 2.0 * c * Sum(s) + (|s| as real) * (c * c)
  {
    if s == [] {
    } else {
      var t, x := s[..|s| - 1], s[|s| - 1];
      DeviationExpands(t, c);
      ExpansionStep(|t| as real, c, x, Sum(t), SumSquares(t), SquaredDeviation(t, c));
    }
  }

  lemma ExpansionStep(n: real, c: real, x: real, total: real, q: real, d: real)
    requires d == q - 2.0 * c * total + n * (c * c)
    ensures d + (x - c) * (x - c) == q + x * x - 2.0 * c * (total + x) + (n + 1.0) * (c * c)
  {
    assert (x - c) * (x - c) == x * x - 2.0 * c * x + c * c;
  }

  lemma MeanTimesCount(s: seq<real>)
    ensures (|s| as real) * Mean(s) == Sum(s)
  {
    if s != [] {
      QuotientTimes(Sum(s), |s| as real);
    }
  }

  lemma QuotientTimes(a: real, n: real)
    requires n != 0.0
    ensures n * (a / n) == a
  {}

  lemma QuotientIs(a: real, n: real, x: real)
    requires n != 0.0 && n * x == a
    ensures a / n == x
  {}

  /** M2 == sum_sq - n * mean^2, hence n * M2 == n * sum_sq - (sum)^2, and M2 is never negative. */
  lemma MomentIdentity(s: seq<real>)
    ensures var n, mean, m2 := |s| as real, Mean(s), SquaredDeviation(s, Mean(s));
      && m2 == SumSquares(s) - n * (mean * mean)
      && n * m2 == n * SumSquares(s) - Sum(s) * Sum(s)
      && m2 >= 0.0
  {
    MeanTimesCount(s);
    DeviationExpands(s, Mean(s));
    DeviationNonNegative(s, Mean(s));
    MomentAlgebra(|s| as real, Mean(s), Sum(s), SumSquares(s), SquaredDeviation(s, Mean(s)));
  }

  lemma MomentAlgebra(n: real, mean: real, total: real, q: real, m2: real)
    requires n * mean == total && m2 == q - 2.0 * mean * total + n * (mean * mean)
    ensures m2 == q - n * (mean * mean) && n * m2 == n * q - total * total
  {
    assert mean * total == n * (mean * mean);
    assert total * total == n * (n * (mean * mean));
  }

  /** One step of Welford's recurrence keeps mean and M2 equal to their batch definitions. */
  lemma WelfordStep(s: seq<real>, x: real, mean': real, m2': real)
    requires mean' == Mean(s) + (x - Mean(s)) / ((|s| + 1) as real)
    requires m2' == SquaredDeviation(s, Mean(s)) + (x - Mean(s)) * (x - mean')
    ensures mean' == Mean(s + [x])
    ensures m2' == SquaredDeviation(s + [x], mean')
  {
    SnocSum(Itself(), s, x);
    SnocDeviation(s, x, mean');
    MeanTimesCount(s);
    MomentIdentity(s);
    WelfordAlgebra(|s| as real, Mean(s), x, SumSquares(s), Sum(s), SquaredDeviation(s, Mean(s)), mean', m2');
  }

  lemma SnocDeviation(s: seq<real>, x: real, c: real)
    ensures SquaredDeviation(s + [x], c)
         == SumSquares(s) - 2.0 * c * Sum(s) + (|s| as real) * (c * c) + (x - c) * (x - c)
  {
    SnocSum(SquareFrom(c), s, x);
    DeviationExpands(s, c);
  }

  lemma WelfordAlgebra(n: real, mean: real, x: real, q: real, total: real, m2: real, mean': real, m2': real)
    requires n >= 0.0 && n * mean == total && m2 == q - n * (mean * mean)
    requires mean' == mean + (x - mean) / (n + 1.0) && m2' == m2 + (x - mean) * (x - mean')
    ensures mean' == (total + x) / (n + 1.0)
    ensures m2' == q - 2.0 * mean' * total + n * (mean' * mean') + (x - mean') * (x - mean')
  {
    var e := (x - mean) / (n + 1.0);
    assert (n + 1.0) * e == x - mean;
    assert n * e == x - mean';
    assert (n + 1.0) * mean' == total + x;
    WelfordExpansion(n, mean, e, q, total, m2);
  }

  lemma WelfordExpansion(n: real, mean: real, e: real, q: real, total: real, m2: real)
    requires n * mean == total && m2 == q - n * (mean * mean)
    ensures q - 2.0 * (mean + e) * total + n * ((mean + e) * (mean + e)) + (n * e) * (n * e)
         == m2 + ((n + 1.0) * e) * (n * e)
  {
    var ee, me, mm := e * e, mean * e, mean * mean;
    assert (mean + e) * (mean + e) == mm + 2.0 * me + ee;
    assert n * (mm + 2.0 * me + ee) == n * mm + 2.0 * (n * me) + n * ee;
    assert (mean + e) * (n * mean) == n * mm + n * me;
    assert (n * e) * (n * e) == n * n * ee;
    assert ((n + 1.0) * e) * (n * e) == n * n * ee + n * ee;
  }

  // ---------------------------------------------------------------- extremes and ranks

  ghost predicate IsMin(s: seq<real>, v: real) {
    v in s && forall i | 0 <= i < |s| :: v <= s[i]
  }

  ghost predicate IsMax(s: seq<real>, v: real) {
    v in s && forall i | 0 <= i < |s| :: s[i] <= v
  }

  /** The mean lies between the extremes. */
  lemma MeanBetweenExtremes(s: seq<real>, lo: real, hi: real)
    requires IsMin(s, lo) && IsMax(s, hi)
    ensures lo <= Mean(s) <= hi
  {
    SumBounds(s, lo, hi);
    MeanTimesCount(s);
    NonNegativeFactor(|s| as real, Mean(s) - lo);
    NonNegativeFactor(|s| as real, hi - Mean(s));
  }

  lemma NonNegativeFactor(n: real, x: real)
    requires n > 0.0 && n * x >= 0.0
    ensures x >= 0.0
  {}

  lemma {:induction false} SumBounds(s: seq<real>, lo: real, hi: real)
    requires forall i | 0 <= i < |s| :: lo <= s[i] <= hi
    ensures (|s| as real) * lo <= Sum(s) <= (|s| as real) * hi
  {
    if s == [] {
    } else {
      SumBounds(s[..|s| - 1], lo, hi);
      var n := (|s| - 1) as real;
      assert (n + 1.0) * lo == n * lo + lo && (n + 1.0) * hi == n * hi + hi;
    }
  }

  function Count(p: real -> bool, s: seq<real>): nat {
    if s == [] then 0 else Count(p, s[..|s| - 1]) + (if p(s[|s| - 1]) then 1 else 0)
  }

  function Below(v: real): real -> bool { x => x < v }

  function AtMost(v: real): real -> bool { x => x <= v }

  /** v is the sample of rank k (from 0) of s, whatever the order of s. */
  ghost predicate HasRank(s: seq<real>, k: nat, v: real) {
    Count(Below(v), s) <= k < Count(AtMost(v), s)
  }

  lemma {:induction false} RankIsSample(s: seq<real>, v: real)
    requires Count(Below(v), s) < Count(AtMost(v), s)
    ensures v in s
  {
    var init, last := s[..|s| - 1], s[|s| - 1];
    if last != v {
      RankIsSample(init, v);
    }
  }

  lemma {:induction false} CountMonotone(p: real -> bool, q: real -> bool, s: seq<real>)
    requires forall x :: p(x) ==> q(x)
    ensures Count(p, s) <= Count(q, s)
  {
    if s == [] {
    } else {
      CountMonotone(p, q, s[..|s| - 1]);
    }
  }

  /** Ranks order the values; with j == k this makes the value of a rank unique. */
  lemma RankMonotone(s: seq<real>, j: nat, v: real, k: nat, w: real)
    requires j <= k && HasRank(s, j, v) && HasRank(s, k, w)
    ensures v <= w
  {
    if w < v {
      CountMonotone(AtMost(w), Below(v), s);
    }
  }

  lemma RankUnique(s: seq<real>, k: nat, v: real, w: real)
    requires HasRank(s, k, v) && HasRank(s, k, w)
    ensures v == w
  {
    RankMonotone(s, k, v, k, w);
    RankMonotone(s, k, w, k, v);
  }

  ghost predicate Sorted(s: seq<real>) {
    forall i, j | 0 <= i < j < |s| :: s[i] <= s[j]
  }

  lemma {:induction false} CountFromSplit(p: real -> bool, s: seq<real>, k: nat)
    requires k <= |s|
    ensures (forall i | k <= i < |s| :: !p(s[i])) ==> Count(p, s) <= k
    ensures (forall i | 0 <= i < k :: p(s[i])) ==> Count(p, s) >= k
  {
    if s == [] {
    } else {
      CountFromSplit(p, s[..|s| - 1], if k < |s| then k else k - 1);
    }
  }

  /** Element k of a sorted rearrangement of s is the sample of rank k of s. */
  lemma SortedGivesRank(s: seq<real>, t: seq<real>, k: nat)
    requires Sorted(t) && multiset(s) == multiset(t) && k < |t|
    ensures HasRank(s, k, t[k])
  {
    CountFromSplit(Below(t[k]), t, k);
    CountFromSplit(AtMost(t[k]), t, k + 1);
    Rearranged(Itself(), Below(t[k]), s, t);
    Rearranged(Itself(), AtMost(t[k]), s, t);
  }

  // ---------------------------------------------------------------- order of samples does not matter

  lemma {:induction false} DropAt(f: real -> real, p: real -> bool, s: seq<real>, i: nat)
    requires i < |s|
    ensures var t := s[..i] + s[i + 1..];
      && SumOf(f, s) == SumOf(f, t) + f(s[i])
      && Count(p, s) == Count(p, t) + (if p(s[i]) then 1 else 0)
  {
    var t, last := s[..i] + s[i + 1..], |s| - 1;
    if i == last {
      assert t == s[..last];
    } else {
      DropAt(f, p, s[..last], i);
      DropCommutes(s, i);
      assert s[..last][i] == s[i];
    }
  }

  lemma DropCommutes(s: seq<real>, i: nat)
    requires i + 1 < |s|
    ensures var t, init := s[..i] + s[i + 1..], s[..|s| - 1];
      t[..|t| - 1] == init[..i] + init[i + 1..] && t[|t| - 1] == s[|s| - 1]
  {}

  /** Any sum or count is the same for every order of the samples. */
  lemma {:induction false} Rearranged(f: real -> real, p: real -> bool, s: seq<real>, t: seq<real>)
    requires multiset(s) == multiset(t)
    ensures |s| == |t| && SumOf(f, s) == SumOf(f, t) && Count(p, s) == Count(p, t)
  {
    assert |s| == |multiset(s)| == |multiset(t)| == |t|;
    if s != [] {
      var last := |s| - 1;
      assert s[last] in multiset(t);
      var i :| 0 <= i < |t| && t[i] == s[last];
      DropAt(f, p, t, i);
      DropSame(s, t, i);
      Rearranged(f, p, s[..last], t[..i] + t[i + 1..]);
    }
  }

  lemma DropSame(s: seq<real>, t: seq<real>, i: nat)
    requires multiset(s) == multiset(t) && s != [] && i < |t| && t[i] == s[|s| - 1]
    ensures multiset(s[..|s| - 1]) == multiset(t[..i] + t[i + 1..])
  {
    WithoutOne(s, |s| - 1);
    WithoutOne(t, i);
    assert s[..|s| - 1] + s[|s| - 1 + 1..] == s[..|s| - 1];
  }

  lemma WithoutOne(t: seq<real>, i: nat)
    requires i < |t|
    ensures multiset(t[..i] + t[i + 1..]) == multiset(t) - multiset{t[i]}
  {
    assert t == t[..i] + ([t[i]] + t[i + 1..]);
    assert multiset(t) == multiset(t[..i]) + (multiset{t[i]} + multiset(t[i + 1..]));
  }

  lemma RankIgnoresOrder(s: seq<real>, t: seq<real>, k: nat, v: real)
    requires HasRank(s, k, v) && multiset(s) == multiset(t)
    ensures HasRank(t, k, v)
  {
    Rearranged(Itself(), Below(v), s, t);
    Rearranged(Itself(), AtMost(v), s, t);
  }

  lemma ExtremesIgnoreOrder(s: seq<real>, t: seq<real>, lo: real, hi: real)
    requires IsMin(s, lo) && IsMax(s, hi) && multiset(s) == multiset(t)
    ensures IsMin(t, lo) && IsMax(t, hi)
  {
    assert lo in multiset(s) && hi in multiset(s);
    forall i | 0 <= i < |t|
      ensures lo <= t[i] <= hi
    {
      assert t[i] in multiset(s);
    }
  }

  // ---------------------------------------------------------------- the report of one window

  /** What a flush reports. Square roots are stated by their squares. */
  datatype Stats = Stats(
    count: nat,
    mean: real,
    stdDevSquared: real,
    rmsSquared: real,
    min: real,
    max: real,
    p05: real,
    p50: real,
    p95: real,
    hasPercentiles: bool)

  /** The newest min(|window|, cap) samples: what the ring buffer keeps. */
  function Newest(window: seq<real>, cap: nat): (newest: seq<real>)
    ensures |newest| == if |window| <= cap then |window| else cap
  {
    if |window| <= cap then window else window[|window| - cap..]
  }

  function RmsSquared(window: seq<real>): real {
    if window == [] then 0.0 else SumSquares(window) / (|window| as real)
  }

  ghost predicate DescribesMoments(st: Stats, window: seq<real>) {
    && st.count == |window|
    && st.mean == Mean(window)
    && st.stdDevSquared
       == (if |window| <= 1 then 0.0 else SquaredDeviation(window, Mean(window)) / ((|window| - 1) as real))
    && st.rmsSquared == RmsSquared(window)
    && (if window == [] then st.min == st.max == 0.0 else IsMin(window, st.min) && IsMax(window, st.max))
  }

  /** The percentiles are the ranks floor(q * (n - 1)) for q = 1/20, 1/2 and 19/20. */
  ghost predicate DescribesQuantiles(st: Stats, recent: seq<real>) {
    && st.hasPercentiles == (recent != [])
    && (if recent == [] then st.p05 == st.p50 == st.p95 == 0.0
        else
          var top := |recent| - 1;
          && HasRank(recent, top / 20, st.p05)
          && HasRank(recent, top / 2, st.p50)
          && HasRank(recent, 19 * top / 20, st.p95))
  }

  /** st is the batch description of the window, with quantiles over the newest cap samples. */
  ghost predicate Describes(st: Stats, window: seq<real>, cap: nat) {
    DescribesMoments(st, window) && DescribesQuantiles(st, Newest(window, cap))
  }

  /** The description of a window is unique, so it determines a flush completely. */
  lemma DescriptionUnique(a: Stats, b: Stats, window: seq<real>, cap: nat)
    requires Describes(a, window, cap) && Describes(b, window, cap)
    ensures a == b
  {
    var recent := Newest(window, cap);
    if recent != [] {
      var top := |recent| - 1;
      RankUnique(recent, top / 20, a.p05, b.p05);
      RankUnique(recent, top / 2, a.p50, b.p50);
      RankUnique(recent, 19 * top / 20, a.p95, b.p95);
    }
  }

  /** Count, mean, deviation, rms and extremes never depend on sample order, wrapped or not. */
  lemma MomentsIgnoreOrder(st: Stats, s: seq<real>, t: seq<real>)
    requires DescribesMoments(st, s) && multiset(s) == multiset(t)
    ensures DescribesMoments(st, t)
  {
    Rearranged(Itself(), Below(0.0), s, t);
    Rearranged(Square(), Below(0.0), s, t);
    Rearranged(SquareFrom(Mean(s)), Below(0.0), s, t);
    if s != [] {
      ExtremesIgnoreOrder(s, t, st.min, st.max);
    }
  }

  lemma QuantilesIgnoreOrder(st: Stats, s: seq<real>, t: seq<real>)
    requires DescribesQuantiles(st, s) && multiset(s) == multiset(t)
    ensures DescribesQuantiles(st, t)
  {
    Rearranged(Itself(), Below(0.0), s, t);
    if s != [] {
      var top := |s| - 1;
      RankIgnoresOrder(s, t, top / 20, st.p05);
      RankIgnoresOrder(s, t, top / 2, st.p50);
      RankIgnoresOrder(s, t, 19 * top / 20, st.p95);
    }
  }

  /** Without percentiles, or while the ring has not wrapped, the whole description ignores order. */
  lemma DescriptionIgnoresOrder(st: Stats, s: seq<real>, t: seq<real>, cap: nat)
    requires Describes(st, s, cap) && multiset(s) == multiset(t)
    requires cap == 0 || |s| <= cap
    ensures Describes(st, t, cap)
  {
    MomentsIgnoreOrder(st, s, t);
    assert |s| == |t| by { Rearranged(Itself(), Below(0.0), s, t); }
    if cap == 0 {
      assert Newest(s, cap) == [] == Newest(t, cap);
    } else {
      QuantilesIgnoreOrder(st, s, t);
    }
  }

  // ---------------------------------------------------------------- a wrapped ring and the order of samples

  /** Every order of the samples has the same report. */
  ghost predicate OrderIgnored(s: seq<real>, cap: nat) {
    forall u, v, st | multiset(u) == multiset(s) && multiset(v) == multiset(s) && Describes(st, u, cap) ::
      Describes(st, v, cap)
  }

  /** In sorted order, each of the three ranks of the kept samples has the same value counted from the
      smallest sample and from the first one that can be the smallest kept. */
  ghost predicate RanksMeet(t: seq<real>, cap: nat)
    requires 0 < cap < |t|
  {
    var top, older := cap - 1, |t| - cap;
    && t[top / 20] == t[older + top / 20]
    && t[top / 2] == t[older + top / 2]
    && t[19 * top / 20] == t[older + 19 * top / 20]
  }

  lemma {:induction false} CountConcat(p: real -> bool, a: seq<real>, b: seq<real>)
    ensures Count(p, a + b) == Count(p, a) + Count(p, b)
  {
    if b == [] {
      assert a + b == a;
    } else {
      assert (a + b)[..|a + b| - 1] == a + b[..|b| - 1];
      CountConcat(p, a, b[..|b| - 1]);
    }
  }

  lemma {:induction false} CountAtMostLength(p: real -> bool, s: seq<real>)
    ensures Count(p, s) <= |s|
  {
    if s == [] {
    } else {
      CountAtMostLength(p, s[..|s| - 1]);
    }
  }

  /** Any kept samples miss at most the older ones of a count over the whole window. */
  lemma KeptCount(p: real -> bool, t: seq<real>, u: seq<real>, cap: nat)
    requires multiset(u) == multiset(t) && cap <= |t|
    ensures |u| == |t| && Count(p, t) - (|t| - cap) <= Count(p, u[|u| - cap..]) <= Count(p, t)
  {
    Rearranged(Itself(), p, u, t);
    var older := u[..|u| - cap];
    assert u == older + u[|u| - cap..];
    CountConcat(p, older, u[|u| - cap..]);
    CountAtMostLength(p, older);
  }

  /** Whatever the order, the kept sample of rank r lies between the r-th smallest of all samples and the
      r-th smallest of the largest ones. */
  lemma KeptRankBounds(t: seq<real>, u: seq<real>, cap: nat, r: nat, v: real)
    requires Sorted(t) && multiset(u) == multiset(t) && r < cap < |t|
    requires HasRank(Newest(u, cap), r, v)
    ensures t[r] <= v <= t[|t| - cap + r]
  {
    KeptCount(Below(v), t, u, cap);
    KeptCount(AtMost(v), t, u, cap);
    if v < t[r] {
      CountFromSplit(AtMost(v), t, r);
    }
    if t[|t| - cap + r] < v {
      CountFromSplit(Below(v), t, |t| - cap + r + 1);
    }
  }

  lemma KeptRankIs(t: seq<real>, u: seq<real>, cap: nat, r: nat)
    requires Sorted(t) && multiset(u) == multiset(t) && r < cap < |t|
    requires t[r] == t[|t| - cap + r]
    ensures HasRank(Newest(u, cap), r, t[r])
  {
    KeptCount(Below(t[r]), t, u, cap);
    KeptCount(AtMost(t[r]), t, u, cap);
    CountFromSplit(Below(t[r]), t, r);
    CountFromSplit(AtMost(t[r]), t, |t| - cap + r + 1);
  }

  lemma RanksInRange(top: nat)
    ensures top / 20 <= top && top / 2 <= top && 19 * top / 20 <= top
  {}

  lemma KeptRankFixed(t: seq<real>, u: seq<real>, w: seq<real>, cap: nat, r: nat, v: real)
    requires Sorted(t) && multiset(u) == multiset(t) == multiset(w) && r < cap < |t|
    requires t[r] == t[|t| - cap + r] && HasRank(Newest(u, cap), r, v)
    ensures HasRank(Newest(w, cap), r, v)
  {
    KeptRankBounds(t, u, cap, r, v);
    KeptRankIs(t, w, cap, r);
  }

  lemma RanksMeetIgnore(t: seq<real>, u: seq<real>, w: seq<real>, cap: nat, st: Stats)
    requires Sorted(t) && 0 < cap < |t| && multiset(u) == multiset(t) == multiset(w)
    requires RanksMeet(t, cap) && Describes(st, u, cap)
    ensures Describes(st, w, cap)
  {
    MomentsIgnoreOrder(st, u, w);
    Rearranged(Itself(), Below(0.0), u, t);
    Rearranged(Itself(), Below(0.0), w, t);
    QuantilesFixed(t, u, w, cap, st);
  }

  lemma QuantilesFixed(t: seq<real>, u: seq<real>, w: seq<real>, cap: nat, st: Stats)
    requires Sorted(t) && 0 < cap < |t| && multiset(u) == multiset(t) == multiset(w)
    requires |u| == |t| == |w| && RanksMeet(t, cap) && DescribesQuantiles(st, Newest(u, cap))
    ensures DescribesQuantiles(st, Newest(w, cap))
  {
    var top := cap - 1;
    RanksInRange(top);
    KeptRankFixed(t, u, w, cap, top / 20, st.p05);
    KeptRankFixed(t, u, w, cap, top / 2, st.p50);
    KeptRankFixed(t, u, w, cap, 19 * top / 20, st.p95);
  }

  /** The report of samples given in increasing order. */
  function ReportOf(t: seq<real>, cap: nat): Stats
    requires 0 < cap < |t|
  {
    var top, older := cap - 1, |t| - cap;
    Stats(|t|, Mean(t), SquaredDeviation(t, Mean(t)) / ((|t| - 1) as real), RmsSquared(t), t[0], t[|t| - 1],
          t[older + top / 20], t[older + top / 2], t[older + 19 * top / 20], true)
  }

  lemma SortedReport(t: seq<real>, cap: nat)
    requires Sorted(t) && 0 < cap < |t|
    ensures Describes(ReportOf(t, cap), t, cap)
  {
    var kept, top := Newest(t, cap), cap - 1;
    RanksInRange(top);
    SortedGivesRank(kept, kept, top / 20);
    SortedGivesRank(kept, kept, top / 2);
    SortedGivesRank(kept, kept, 19 * top / 20);
  }

  /** With the largest samples first, the ring keeps the smallest ones. */
  lemma SmallestKept(t: seq<real>, cap: nat, r: nat, v: real)
    requires Sorted(t) && r < cap < |t| && HasRank(Newest(t[cap..] + t[..cap], cap), r, v)
    ensures v == t[r]
  {
    assert Newest(t[cap..] + t[..cap], cap) == t[..cap];
    SortedGivesRank(t[..cap], t[..cap], r);
    RankUnique(t[..cap], r, v, t[r]);
  }

  lemma IgnoredRanksMeet(s: seq<real>, t: seq<real>, cap: nat)
    requires Sorted(t) && 0 < cap < |t| && multiset(s) == multiset(t)
    requires OrderIgnored(s, cap)
    ensures RanksMeet(t, cap)
  {
    SortedReport(t, cap);
    Turned(t, cap);
    Carried(s, t, t[cap..] + t[..cap], cap, ReportOf(t, cap));
    BothReported(t, cap);
  }

  lemma Carried(s: seq<real>, u: seq<real>, v: seq<real>, cap: nat, st: Stats)
    requires OrderIgnored(s, cap) && multiset(u) == multiset(s) && multiset(v) == multiset(s)
    requires Describes(st, u, cap)
    ensures Describes(st, v, cap)
  {}

  lemma Turned(t: seq<real>, cap: nat)
    requires cap <= |t|
    ensures multiset(t[cap..] + t[..cap]) == multiset(t)
  {
    assert t == t[..cap] + t[cap..];
  }

  lemma BothReported(t: seq<real>, cap: nat)
    requires Sorted(t) && 0 < cap < |t| && Describes(ReportOf(t, cap), t[cap..] + t[..cap], cap)
    ensures RanksMeet(t, cap)
  {
    var st, top := ReportOf(t, cap), cap - 1;
    SmallestKept(t, cap, top / 20, st.p05);
    SmallestKept(t, cap, top / 2, st.p50);
    SmallestKept(t, cap, 19 * top / 20, st.p95);
  }

  /** The report ignores the order of the samples exactly when percentiles are off, the ring has not
      wrapped, or the three ranks meet in the sorted samples. */
  lemma OrderIgnoredIff(s: seq<real>, t: seq<real>, cap: nat)
    requires Sorted(t) && multiset(s) == multiset(t)
    ensures OrderIgnored(s, cap) <==> cap == 0 || |t| <= cap || RanksMeet(t, cap)
  {
    if cap == 0 || |t| <= cap {
      forall u, v, st | multiset(u) == multiset(s) && multiset(v) == multiset(s) && Describes(st, u, cap)
        ensures Describes(st, v, cap)
      {
        Rearranged(Itself(), Below(0.0), u, t);
        DescriptionIgnoresOrder(st, u, v, cap);
      }
    } else if RanksMeet(t, cap) {
      forall u, v, st | multiset(u) == multiset(s) && multiset(v) == multiset(s) && Describes(st, u, cap)
        ensures Describes(st, v, cap)
      {
        RanksMeetIgnore(t, u, v, cap, st);
      }
    } else if OrderIgnored(s, cap) {
      IgnoredRanksMeet(s, t, cap);
    }
  }

  /** Two samples in a ring of one: order matters exactly when they differ. */
  lemma WrappedPercentilesDependOnOrder(a: real, b: real)
    requires a <= b
    ensures OrderIgnored([a, b], 1) <==> a == b
  {
    OrderIgnoredIff([a, b], [a, b], 1);
  }

  /** Everything a reader expects of one report: quantiles in order inside the extremes, and
      rms^2 == mean^2 + M2 / n with both radicands non-negative. */
  lemma ReportIsConsistent(st: Stats, window: seq<real>, cap: nat)
    requires Describes(st, window, cap) && window != []
    ensures st.min <= st.mean <= st.max
    ensures st.stdDevSquared >= 0.0 && st.rmsSquared >= 0.0
    ensures st.rmsSquared == st.mean * st.mean + SquaredDeviation(window, st.mean) / (|window| as real)
    ensures cap > 0 ==> st.min <= st.p05 <= st.p50 <= st.p95 <= st.max
  {
    MeanBetweenExtremes(window, st.min, st.max);
    RadicandsConsistent(st, window);
    if cap > 0 {
      var recent := Newest(window, cap);
      var top := |recent| - 1;
      RankMonotone(recent, top / 20, st.p05, top / 2, st.p50);
      RankMonotone(recent, top / 2, st.p50, 19 * top / 20, st.p95);
      RankIsSample(recent, st.p05);
      RankIsSample(recent, st.p95);
      assert forall x | x in recent :: x in window;
    }
  }

  lemma RadicandsConsistent(st: Stats, window: seq<real>)
    requires DescribesMoments(st, window) && window != []
    ensures st.stdDevSquared >= 0.0 && st.rmsSquared >= 0.0
    ensures st.rmsSquared == st.mean * st.mean + SquaredDeviation(window, st.mean) / (|window| as real)
  {
    MomentIdentity(window);
    var n, m2 := |window| as real, SquaredDeviation(window, st.mean);
    RmsAlgebra(n, st.mean, SumSquares(window), m2);
    assert n * (st.mean * st.mean) >= 0.0;
    NonNegativeQuotient(SumSquares(window), n);
    if |window| > 1 {
      NonNegativeQuotient(m2, (|window| - 1) as real);
    }
  }

  lemma RmsAlgebra(n: real, mean: real, q: real, m2: real)
    requires n > 0.0 && m2 == q - n * (mean * mean)
    ensures q / n == mean * mean + m2 / n
  {
    QuotientTimes(m2, n);
    assert n * (mean * mean + m2 / n) == q;
    QuotientIs(q, n, mean * mean + m2 / n);
  }

  lemma NonNegativeQuotient(a: real, n: real)
    requires n > 0.0 && a >= 0.0
    ensures a / n >= 0.0
  {}
}
