/** Rates derived from cumulative counters: what they add up to over a run. */
module CounterRates {
  import Health
  import opened Options
  import opened Paths

  function Positive(x: real): real { if x > 0.0 then x else 0.0 }

  /** A reading of a counter. */
  datatype Reading = Reading(time: real, count: int)

  /** A rate as the quotient it is: what was gained, and the time it took. */
  datatype Quotient = Quotient(gain: real, elapsed: real)

  type Published = q: Quotient | q.elapsed > 0.0
    witness Quotient(0.0, 1.0)

  function PerSecond(p: Published): real { p.gain / p.elapsed }

  /** max(0, current - previous) / elapsed. */
  function Rate(previous: int, current: int, elapsed: real): (p: Published)
    requires elapsed > 0.0
    ensures p.elapsed == elapsed
    ensures if current > previous then p.gain == (current - previous) as real else p.gain == 0.0
  {
    Quotient(Positive((current - previous) as real), elapsed)
  }

  /** What two successive readings publish: one rate, if time moved forward. */
  function StepRate(a: Reading, b: Reading): seq<Published> {
    if b.time > a.time then [Rate(a.count, b.count, b.time - a.time)] else []
  }

  /** The rates one counter's collector publishes: one per reading whose time moved forward. */
  function RatesOf(run: seq<Reading>): seq<Published> {
    if |run| <= 1 then []
    else
      RatesOf(run[..|run| - 1]) + StepRate(run[|run| - 2], run[|run| - 1])
  }

  /** Sum of rate times elapsed. */
  function Integral(published: seq<Published>): real {
    if published == [] then 0.0
    else
      var last := published[|published| - 1];
      Integral(published[..|published| - 1]) + PerSecond(last) * last.elapsed
  }

  function Gained(published: seq<Published>): real {
    if published == [] then 0.0
    else Gained(published[..|published| - 1]) + published[|published| - 1].gain
  }

  lemma {:induction false} IntegralIsGained(published: seq<Published>)
    ensures Integral(published) == Gained(published)
  {
    if published == [] {
    } else {
      IntegralIsGained(published[..|published| - 1]);
      QuotientTimes(published[|published| - 1]);
    }
  }

  lemma QuotientTimes(p: Published)
    ensures PerSecond(p) * p.elapsed == p.gain
  {}

  /** Sum of the positive increments, over all steps or over the steps whose time did not move. */
  function Increments(run: seq<Reading>, stalledOnly: bool): real {
    if |run| <= 1 then 0.0
    else
      var a, b := run[|run| - 2], run[|run| - 1];
      Increments(run[..|run| - 1], stalledOnly)
      + (if stalledOnly && b.time > a.time then 0.0 else Positive((b.count - a.count) as real))
  }

  /** Integrated rates plus the increments seen while time stood still are all positive increments. */
  lemma RatesTelescope(run: seq<Reading>)
    ensures Integral(RatesOf(run)) + Increments(run, true) == Increments(run, false)
  {
    IntegralIsGained(RatesOf(run));
    GainsTelescope(run);
  }

  lemma {:induction false} GainsTelescope(run: seq<Reading>)
    ensures Gained(RatesOf(run)) + Increments(run, true) == Increments(run, false)
  {
    if |run| <= 1 {
    } else {
      GainsTelescope(run[..|run| - 1]);
      GainedSnoc(RatesOf(run[..|run| - 1]), run[|run| - 2], run[|run| - 1]);
      IncrementsStep(run);
    }
  }

  /** The positive increment of a step whose time moved. */
  function Moved(a: Reading, b: Reading): real {
    if b.time > a.time then Positive((b.count - a.count) as real) else 0.0
  }

  lemma GainedSnoc(published: seq<Published>, a: Reading, b: Reading)
    ensures Gained(published + StepRate(a, b)) == Gained(published) + Moved(a, b)
  {
    if b.time > a.time {
      assert (published + StepRate(a, b))[..|published|] == published;
    } else {
      assert published + [] == published;
    }
  }

  lemma IncrementsStep(run: seq<Reading>)
    requires |run| > 1
    ensures Increments(run, false) - Increments(run, true)
         == Increments(run[..|run| - 1], false) - Increments(run[..|run| - 1], true)
            + Moved(run[|run| - 2], run[|run| - 1])
  {}

  ghost predicate TimeAdvances(run: seq<Reading>) {
    forall i | 0 < i < |run| :: run[i - 1].time < run[i].time
  }

  ghost predicate NonDecreasing(run: seq<Reading>) {
    forall i | 0 < i < |run| :: run[i - 1].count <= run[i].count
  }

  lemma {:induction false} NothingStalls(run: seq<Reading>)
    requires TimeAdvances(run)
    ensures Increments(run, true) == 0.0
  {
    if |run| <= 1 {
    } else {
      NothingStalls(run[..|run| - 1]);
    }
  }

  lemma {:induction false} IncrementsAgainstEnds(run: seq<Reading>)
    requires run != []
    ensures Increments(run, false) >= (run[|run| - 1].count - run[0].count) as real
    ensures Increments(run, false) == (run[|run| - 1].count - run[0].count) as real <==> NonDecreasing(run)
  {
    if |run| <= 1 {
    } else {
      var init := run[..|run| - 1];
      IncrementsAgainstEnds(init);
      assert NonDecreasing(run) <==> NonDecreasing(init) && run[|run| - 2].count <= run[|run| - 1].count by {
        assert forall i | 0 <= i < |init| :: init[i] == run[i];
      }
    }
  }

  /** What was published of a run adds up: rates times elapsed, with the increments seen while time stood
      still, are all positive increments. At strictly increasing times that is never below last - first,
      and equal to it exactly when the counter never went backwards. */
  ghost predicate AddsUp(published: seq<Published>, run: seq<Reading>)
    requires run != []
  {
    && Integral(published) + Increments(run, true) == Increments(run, false)
    && (TimeAdvances(run) ==>
          && Integral(published) == Increments(run, false)
          && Integral(published) >= (run[|run| - 1].count - run[0].count) as real
          && (Integral(published) == (run[|run| - 1].count - run[0].count) as real <==> NonDecreasing(run)))
  }

  lemma RatesAddUp(run: seq<Reading>)
    requires run != []
    ensures AddsUp(RatesOf(run), run)
  {
    RatesTelescope(run);
    IncrementsAgainstEnds(run);
    if TimeAdvances(run) {
      NothingStalls(run);
    }
  }

  /** What the next reading of a run publishes. */
  function NextRate(run: seq<Reading>, b: Reading): seq<Published> {
    if run == [] then [] else StepRate(run[|run| - 1], b)
  }

  lemma RatesSnoc(run: seq<Reading>, b: Reading)
    ensures RatesOf(run + [b]) == RatesOf(run) + NextRate(run, b)
  {
    assert (run + [b])[..|run|] == run;
  }

  // ---------------------------------------------------------------- disk totals

  /** Bytes read and written and, where the platform counts it, milliseconds spent busy. */
  datatype DiskCounters = DiskCounters(read: int, write: int, busyMs: Option<int>)

  /** min(100, gain / (elapsed * 10)) for busy milliseconds gained: the percentage a sample publishes. */
  function BusyPercent(p: Published): real {
    if p.gain / (p.elapsed * 10.0) < 100.0 then p.gain / (p.elapsed * 10.0) else 100.0
  }

  /** The percentage lies between 0 and 100, is 100 exactly when the disk was busy all the time, and below
      that gives the busy time back. */
  lemma BusyPercentMeans(p: Published)
    requires p.gain >= 0.0
    ensures 0.0 <= BusyPercent(p) <= 100.0
    ensures BusyPercent(p) == 100.0 <==> p.gain >= p.elapsed * 1000.0
    ensures p.gain < p.elapsed * 1000.0 ==> BusyPercent(p) * (p.elapsed * 10.0) == p.gain
  {
    var unit := p.elapsed * 10.0;
    var q := p.gain / unit;
    assert q * unit == p.gain;
    Scaled(q, 0.0, unit);
    Scaled(q, 100.0, unit);
  }

  lemma Scaled(a: real, b: real, unit: real)
    requires unit > 0.0
    ensures a < b <==> a * unit < b * unit
  {
    assert (b - a) * unit == b * unit - a * unit;
  }

  /** The busy time of a sample: published, as its percentage, when both samples count busy time and time moved
      forward. */
  function BusySince(previous: Option<DiskCounters>, previousTime: Option<real>, counters: Option<DiskCounters>,
                     now: real)
    : Option<Published>
  {
    if counters.Some? && previous.Some? && previousTime.Some? && now > previousTime.value
       && counters.value.busyMs.Some? && previous.value.busyMs.Some?
    then Some(Rate(previous.value.busyMs.value, counters.value.busyMs.value, now - previousTime.value))
    else None
  }

  /** What one sample adds to the published rates of a counter. */
  function Added(rate: Option<Published>): seq<Published> {
    if rate.Some? then [rate.value] else []
  }

  /** A counter followed over a run: its last reading, all of them, and the rates published for them. */
  ghost predicate Follows(time: Option<real>, count: Option<int>, run: seq<Reading>, rates: seq<Published>) {
    && (if run == [] then time.None? && count.None?
        else time.Some? && count.Some? && run[|run| - 1] == Reading(time.value, count.value))
    && rates == RatesOf(run)
  }

  lemma FollowsNext(time: Option<real>, count: Option<int>, run: seq<Reading>, rates: seq<Published>,
                    now: real, next: int, rate: Option<Published>)
    requires Follows(time, count, run, rates) && Added(rate) == NextRate(run, Reading(now, next))
    ensures Follows(Some(now), Some(next), run + [Reading(now, next)], rates + Added(rate))
  {
    RatesSnoc(run, Reading(now, next));
  }

  function ReadCount(c: Option<DiskCounters>): Option<int> {
    if c.Some? then Some(c.value.read) else None
  }

  function WriteCount(c: Option<DiskCounters>): Option<int> {
    if c.Some? then Some(c.value.write) else None
  }

  class DiskIoCollector {
    var previous: Option<DiskCounters>
    var previousTime: Option<real>

    /** The readings of both counters so far, samples without counters left out, and the rates
        published for them. */
    ghost var readRun: seq<Reading>
    ghost var writeRun: seq<Reading>
    ghost var readRates: seq<Published>
    ghost var writeRates: seq<Published>

    ghost predicate Valid()
      reads this
    {
      && Follows(previousTime, ReadCount(previous), readRun, readRates)
      && Follows(previousTime, WriteCount(previous), writeRun, writeRates)
    }

    constructor ()
      ensures Valid() && readRun == []
    {
      previous, previousTime, readRun, writeRun := None, None, [], [];
      readRates, writeRates := [], [];
    }

    /** One sample. Missing counters leave the previous ones in place, so the next rate spans the hole;
        the rates published over any run are exactly the rates of the readings. */
    method Sample(now: real, counters: Option<DiskCounters>)
      returns (read: Option<Published>, write: Option<Published>, busy: Option<Published>)
      requires Valid()
      modifies this
      ensures Valid()
      ensures readRates == old(readRates) + Added(read) && writeRates == old(writeRates) + Added(write)
      ensures busy == BusySince(old(previous), old(previousTime), counters, now)
      ensures counters.None? ==> readRun == old(readRun) && writeRun == old(writeRun)
      ensures counters.Some? ==>
                && readRun == old(readRun) + [Reading(now, counters.value.read)]
                && writeRun == old(writeRun) + [Reading(now, counters.value.write)]
    {
      read, write := None, None;
      busy := Busy(now, counters);
      if counters.None? {
        return;
      }
      var c := counters.value;
      read, write := Derive(now, c);
      FollowsNext(previousTime, ReadCount(previous), readRun, readRates, now, c.read, read);
      FollowsNext(previousTime, WriteCount(previous), writeRun, writeRates, now, c.write, write);
      readRates, writeRates := readRates + Added(read), writeRates + Added(write);
      readRun, writeRun := readRun + [Reading(now, c.read)], writeRun + [Reading(now, c.write)];
      previous, previousTime := Some(c), Some(now);
    }

    method Busy(now: real, counters: Option<DiskCounters>) returns (busy: Option<Published>)
      ensures busy == BusySince(previous, previousTime, counters, now)
    {
      busy := None;
      if counters.Some? && previous.Some? && previousTime.Some? {
        var elapsed := now - previousTime.value;
        if elapsed > 0.0 && counters.value.busyMs.Some? && previous.value.busyMs.Some? {
          busy := Some(Rate(previous.value.busyMs.value, counters.value.busyMs.value, elapsed));
        }
      }
    }

    /** The rates since the previous counters, if there are any and time moved forward. */
    method Derive(now: real, c: DiskCounters) returns (read: Option<Published>, write: Option<Published>)
      requires Valid()
      ensures Added(read) == NextRate(readRun, Reading(now, c.read))
      ensures Added(write) == NextRate(writeRun, Reading(now, c.write))
    {
      read, write := None, None;
      if previous.Some? && previousTime.Some? {
        var elapsed := now - previousTime.value;
        if elapsed > 0.0 {
          read := Some(Rate(previous.value.read, c.read, elapsed));
          write := Some(Rate(previous.value.write, c.write, elapsed));
        }
      }
    }
  }

  /** At any moment of any run, what was published of both counters adds up. */
  lemma DiskRatesAddUp(d: DiskIoCollector)
    requires d.Valid() && d.readRun != []
    ensures AddsUp(d.readRates, d.readRun) && AddsUp(d.writeRates, d.writeRun)
  {
    RatesAddUp(d.readRun);
    RatesAddUp(d.writeRun);
  }

  // ---------------------------------------------------------------- per-interface counters

  const NIC_COUNTERS := 8

  type NicCounters = c: seq<int> | |c| == NIC_COUNTERS witness [0, 0, 0, 0, 0, 0, 0, 0]

  datatype NicSample = NicSample(time: real, counts: NicCounters)

  /** The readings of counter k on a stretch of samples. */
  function Column(stretch: seq<NicSample>, k: nat): (run: seq<Reading>)
    requires k < NIC_COUNTERS
    ensures |run| == |stretch|
    ensures forall i | 0 <= i < |run| :: run[i] == Reading(stretch[i].time, stretch[i].counts[k])
  {
    seq(|stretch|, i requires 0 <= i < |stretch| => Reading(stretch[i].time, stretch[i].counts[k]))
  }

  function NicRates(previous: NicCounters, current: NicCounters, elapsed: real): (r: seq<Published>)
    requires elapsed > 0.0
    ensures |r| == NIC_COUNTERS && forall k | 0 <= k < |r| :: r[k] == Rate(previous[k], current[k], elapsed)
  {
    seq(NIC_COUNTERS, k requires 0 <= k < NIC_COUNTERS => Rate(previous[k], current[k], elapsed))
  }

  /** The rates of one interface: published when it was in the previous sample and time moved forward. */
  function NicRate(previous: map<string, NicCounters>, counters: map<string, NicCounters>, n: string,
                   now: real, previousTime: Option<real>): (r: Option<seq<Published>>)
    ensures r.Some? ==> |r.value| == NIC_COUNTERS
  {
    if n in counters && n in previous && previousTime.Some? && now > previousTime.value
    then Some(NicRates(previous[n], counters[n], now - previousTime.value))
    else None
  }

  /** Everything published of one interface on a stretch, counter by counter. */
  type Columns = c: seq<seq<Published>> | |c| == NIC_COUNTERS witness seq(NIC_COUNTERS, _ => [])

  const NOTHING: Columns := seq(NIC_COUNTERS, _ => [])

  function Extended(columns: Columns, rates: Option<seq<Published>>): (r: Columns)
    requires rates.Some? ==> |rates.value| == NIC_COUNTERS
    ensures forall k | 0 <= k < NIC_COUNTERS :: r[k] == columns[k] + (if rates.Some? then [rates.value[k]] else [])
  {
    seq(NIC_COUNTERS, k requires 0 <= k < NIC_COUNTERS => columns[k] + (if rates.Some? then [rates.value[k]] else []))
  }

  /** What was published is, counter by counter, the rates of the readings. */
  ghost predicate Accounted(columns: Columns, stretch: seq<NicSample>) {
    forall k | 0 <= k < NIC_COUNTERS :: columns[k] == RatesOf(Column(stretch, k))
  }

  lemma ColumnSnoc(stretch: seq<NicSample>, next: NicSample, k: nat)
    requires stretch != [] && k < NIC_COUNTERS
    ensures var last := stretch[|stretch| - 1];
      RatesOf(Column(stretch + [next], k))
      == RatesOf(Column(stretch, k))
         + StepRate(Reading(last.time, last.counts[k]), Reading(next.time, next.counts[k]))
  {
    ColumnAppend(stretch, next, k);
    RatesSnoc(Column(stretch, k), Reading(next.time, next.counts[k]));
  }

  lemma ColumnAppend(stretch: seq<NicSample>, next: NicSample, k: nat)
    requires k < NIC_COUNTERS
    ensures Column(stretch + [next], k) == Column(stretch, k) + [Reading(next.time, next.counts[k])]
  {}

  /** A sample of an interface that stays present adds one rate to every counter, or none if time stood
      still. */
  lemma StretchGrows(columns: Columns, stretch: seq<NicSample>, next: NicSample)
    requires stretch != [] && Accounted(columns, stretch)
    ensures var last := stretch[|stretch| - 1];
      Accounted(Extended(columns, if next.time > last.time
                                  then Some(NicRates(last.counts, next.counts, next.time - last.time)) else None),
                stretch + [next])
  {
    forall k | 0 <= k < NIC_COUNTERS
      ensures columns[k] + StepRate(Reading(stretch[|stretch| - 1].time, stretch[|stretch| - 1].counts[k]),
                                    Reading(next.time, next.counts[k]))
           == RatesOf(Column(stretch + [next], k))
    {
      ColumnSnoc(stretch, next, k);
    }
  }

  function Kept(m: map<string, seq<NicSample>>, n: string): seq<NicSample> {
    if n in m then m[n] else []
  }

  /** One interface at one sample: a stretch goes on or starts afresh, and its rates stay accounted for. */
  lemma AccountedNext(columns: map<string, Columns>, stretches: map<string, seq<NicSample>>,
                      previous: map<string, NicCounters>, counters: map<string, NicCounters>,
                      n: string, now: real, previousTime: Option<real>)
    requires n in counters
    requires n in previous <==> n in columns
    requires n in previous <==> n in stretches
    requires n in previous ==>
               && previousTime.Some? && stretches[n] != []
               && stretches[n][|stretches[n]| - 1] == NicSample(previousTime.value, previous[n])
               && Accounted(columns[n], stretches[n])
    ensures Accounted(Extended(if n in columns then columns[n] else NOTHING,
                               NicRate(previous, counters, n, now, previousTime)),
                      Kept(stretches, n) + [NicSample(now, counters[n])])
  {
    var next := NicSample(now, counters[n]);
    if n in previous {
      StretchGrows(columns[n], stretches[n], next);
    } else {
      assert [] + [next] == [next];
    }
  }

  /** The same for all the wanted interfaces of a sample. */
  lemma AllNext(columns: map<string, Columns>, stretches: map<string, seq<NicSample>>,
                previous: map<string, NicCounters>, counters: map<string, NicCounters>,
                wanted: set<string>, now: real, previousTime: Option<real>)
    requires wanted <= counters.Keys && columns.Keys == stretches.Keys == previous.Keys
    requires previousTime.None? ==> previous == map[]
    requires forall n | n in previous ::
               stretches[n] != [] && stretches[n][|stretches[n]| - 1] == NicSample(previousTime.value, previous[n])
    requires forall n | n in previous && n in wanted :: Accounted(columns[n], stretches[n])
    ensures forall n | n in wanted ::
              Accounted(Extended(if n in columns then columns[n] else NOTHING,
                                 NicRate(previous, counters, n, now, previousTime)),
                        Kept(stretches, n) + [NicSample(now, counters[n])])
  {
    forall n | n in wanted
      ensures Accounted(Extended(if n in columns then columns[n] else NOTHING,
                                 NicRate(previous, counters, n, now, previousTime)),
                        Kept(stretches, n) + [NicSample(now, counters[n])])
    {
      AccountedNext(columns, stretches, previous, counters, n, now, previousTime);
    }
  }

  /** What link.up says of an interface: always something for a required one. */
  function LinkUp(required: set<string>, links: map<string, bool>, n: string): Option<bool> {
    if n in required then Some(n in links && links[n]) else if n in links then Some(links[n]) else None
  }

  class NetworkCollector {
    const excluded: string -> bool
    const required: set<string>
    var previous: map<string, NicCounters>
    var previousTime: Option<real>

    /** For every interface present in the latest sample, its samples since it last appeared and what was
        published of them. */
    ghost var stretches: map<string, seq<NicSample>>
    ghost var columns: map<string, Columns>

    predicate Included(n: string) { !excluded(n) || n in required }

    ghost predicate Valid()
      reads this
    {
      && (previousTime.None? ==> previous == map[])
      && stretches.Keys == columns.Keys == previous.Keys
      && (forall n | n in previous ::
            stretches[n] != [] && stretches[n][|stretches[n]| - 1] == NicSample(previousTime.value, previous[n]))
      && forall n | n in previous && Included(n) :: Accounted(columns[n], stretches[n])
    }

    constructor (excludedInterfaces: string -> bool, requiredInterfaces: set<string>)
      ensures Valid() && previous == map[] && excluded == excludedInterfaces && required == requiredInterfaces
    {
      excluded, required := excludedInterfaces, requiredInterfaces;
      previous, previousTime, stretches, columns := map[], None, map[], map[];
    }

    /** What the loop over the included interfaces says of their links. */
    method Links(included: set<string>, links: map<string, bool>)
      returns (up: map<string, Option<bool>>, alerts: map<string, Health.Alert>)
      requires required <= included
      ensures up.Keys == included && forall n | n in included :: up[n] == LinkUp(required, links, n)
      ensures alerts.Keys == required
      ensures forall n | n in required :: alerts[n] == Health.LinkAlert(n, n in links && links[n])
    {
      up, alerts := map[], map[];
      var order := SortKeys(included);
      for i := 0 to |order|
        invariant forall n :: n in up <==> n in order[..i]
        invariant forall n :: n in alerts <==> n in order[..i] && n in required
        invariant forall n | n in up :: up[n] == LinkUp(required, links, n)
        invariant forall n | n in alerts :: alerts[n] == Health.LinkAlert(n, n in links && links[n])
      {
        var n := order[i];
        var known: Option<bool> := None;
        if n in links {
          known := Some(links[n]);
        }
        if n in required {
          var isUp := n in links && links[n];
          known := Some(isUp);
          var value := if isUp then 1.0 else 0.0;
          alerts := alerts[n := Health.Observation("network." + n + ".required", "Interface " + n + " link", value,
                                                   0.5, None, Health.Low, "")];
        }
        up := up[n := known];
        assert order[..i + 1] == order[..i] + [n];
      }
      assert order[..|order|] == order;
    }

    /** The loop over the included interfaces. */
    method RatesFor(now: real, counters: map<string, NicCounters>)
      returns (rates: map<string, Option<seq<Published>>>)
      requires previousTime.None? ==> previous == map[]
      ensures rates.Keys == (set n | n in counters && !excluded(n)) + required
      ensures forall n | n in rates :: rates[n] == NicRate(previous, counters, n, now, previousTime)
    {
      var elapsed := if previousTime.Some? then now - previousTime.value else 0.0;
      var included := (set n | n in counters && !excluded(n)) + required;
      var order := SortKeys(included);
      rates := map[];
      for i := 0 to |order|
        invariant forall n :: n in rates <==> n in order[..i]
        invariant forall n | n in rates :: rates[n] == NicRate(previous, counters, n, now, previousTime)
      {
        var n := order[i];
        var r: Option<seq<Published>> := None;
        if n in counters && n in previous && elapsed > 0.0 {
          r := Some(NicRates(previous[n], counters[n], elapsed));
        }
        rates := rates[n := r];
        assert order[..i + 1] == order[..i] + [n];
      }
      assert order[..|order|] == order;
    }

    /** One sample: rates for every included interface that was also present in the previous sample and
        for which time moved forward; an interface that comes back starts a new stretch. Each included
        interface reports its link where it is known, and each required one raises its link alert. */
    method Sample(now: real, counters: map<string, NicCounters>, links: map<string, bool>)
      returns (rates: map<string, Option<seq<Published>>>, up: map<string, Option<bool>>,
               alerts: map<string, Health.Alert>)
      requires Valid()
      modifies this
      ensures Valid()
      ensures rates.Keys == (set n | n in counters && !excluded(n)) + required
      ensures forall n | n in counters :: n in rates <==> Included(n)
      ensures forall n | n in rates :: rates[n] == NicRate(old(previous), counters, n, now, old(previousTime))
      ensures up.Keys == rates.Keys && forall n | n in rates :: up[n] == LinkUp(required, links, n)
      ensures alerts.Keys == required
      ensures forall n | n in required :: alerts[n] == Health.LinkAlert(n, n in links && links[n])
      ensures stretches == map n | n in counters :: Kept(old(stretches), n) + [NicSample(now, counters[n])]
      ensures columns == map n | n in counters ::
                Extended(if n in old(columns) then old(columns)[n] else NOTHING,
                         NicRate(old(previous), counters, n, now, old(previousTime)))
    {
      rates := RatesFor(now, counters);
      up, alerts := Links(rates.Keys, links);
      Extend(now, counters);
      previous, previousTime := counters, Some(now);
    }

    /** The sample's readings and rates join the stretches. */
    ghost method Extend(now: real, counters: map<string, NicCounters>)
      requires Valid()
      modifies `stretches, `columns
      ensures stretches == map n | n in counters :: Kept(old(stretches), n) + [NicSample(now, counters[n])]
      ensures columns == map n | n in counters ::
                Extended(if n in old(columns) then old(columns)[n] else NOTHING,
                         NicRate(previous, counters, n, now, previousTime))
      ensures forall n | n in counters && Included(n) :: Accounted(columns[n], stretches[n])
    {
      var wanted := set n | n in counters && Included(n);
      AllNext(columns, stretches, previous, counters, wanted, now, previousTime);
      stretches := map n | n in counters :: Kept(stretches, n) + [NicSample(now, counters[n])];
      columns := map n | n in counters ::
        Extended(if n in columns then columns[n] else NOTHING, NicRate(previous, counters, n, now, previousTime));
    }
  }

  /** On the stretch where an included interface has stayed present, every counter's published rates add up. */
  lemma NetworkRatesAddUp(c: NetworkCollector, n: string, k: nat)
    requires c.Valid() && n in c.previous && c.Included(n) && k < NIC_COUNTERS
    ensures AddsUp(c.columns[n][k], Column(c.stretches[n], k))
  {
    assert Accounted(c.columns[n], c.stretches[n]);
    RatesAddUp(Column(c.stretches[n], k));
  }
}
