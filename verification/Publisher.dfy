/** Throttled publication of statistics: no sample is lost or counted twice between flushes. */
module Publisher {
  import opened Accumulators
  import opened Options
  import opened Statuses
  import opened Thresholds
  import opened WindowStats

  /** A status handed to the socket, with the publish time recorded for it. */
  datatype Sent = Sent(time: real, status: Status<real>)

  function Concat(windows: seq<seq<real>>): seq<real> {
    if windows == [] then [] else Concat(windows[..|windows| - 1]) + windows[|windows| - 1]
  }

  lemma ConcatSnoc(windows: seq<seq<real>>, w: seq<real>)
    ensures Concat(windows + [w]) == Concat(windows) + w
  {
    assert (windows + [w])[..|windows|] == windows;
  }

  function TotalCount(reports: seq<Stats>): nat {
    if reports == [] then 0 else TotalCount(reports[..|reports| - 1]) + reports[|reports| - 1].count
  }

  /** Reports that describe some windows count exactly the samples of those windows. */
  lemma {:induction false} CountsAddUp(reports: seq<Stats>, windows: seq<seq<real>>, cap: nat)
    requires |reports| == |windows| && forall i | 0 <= i < |reports| :: Describes(reports[i], windows[i], cap)
    ensures TotalCount(reports) == |Concat(windows)|
  {
    if reports == [] {
    } else {
      CountsAddUp(reports[..|reports| - 1], windows[..|windows| - 1], cap);
    }
  }

  /** Time between publication i and the one before it (the construction time before the first). */
  function Gap(start: real, sent: seq<Sent>, i: nat): real
    requires i < |sent|
  {
    sent[i].time - (if i == 0 then start else sent[i - 1].time)
  }

  ghost predicate Spaced(start: real, sent: seq<Sent>, interval: real) {
    forall i | 0 <= i < |sent| :: Gap(start, sent, i) >= interval
  }

  lemma SpacedSnoc(start: real, sent: seq<Sent>, next: Sent, interval: real)
    requires Spaced(start, sent, interval)
    requires next.time - (if sent == [] then start else sent[|sent| - 1].time) >= interval
    ensures Spaced(start, sent + [next], interval)
  {
    forall i | 0 <= i < |sent + [next]|
      ensures Gap(start, sent + [next], i) >= interval
    {
      if i < |sent| {
        assert Gap(start, sent + [next], i) == Gap(start, sent, i);
      }
    }
  }

  function Prefixed(name: string, keys: seq<string>): (r: seq<string>)
    ensures |r| == |keys| && forall i | 0 <= i < |r| :: r[i] == name + "." + keys[i]
  {
    seq(|keys|, i requires 0 <= i < |keys| => name + "." + keys[i])
  }

  /** Every value under its own key, none left over on either side. */
  ghost predicate Aligned(pairs: seq<KeyValue<real>>, keys: seq<string>, values: seq<real>) {
    |pairs| == |keys| == |values| && forall i | 0 <= i < |pairs| :: pairs[i] == KeyValue(keys[i], values[i])
  }

  /** Where a status comes from: the node, its hardware id and the keys of its values. */
  datatype Origin = Origin(node: string, hwId: string, keys: seq<string>)

  /** The interval has passed since the last message (since the construction before the first one), or there
      is none. */
  predicate Due(interval: real, created: real, sent: seq<Sent>, now: real) {
    interval <= 0.0 || now - (if sent == [] then created else sent[|sent| - 1].time) >= interval
  }

  class DiagPublisher {
    const node: string
    const hwId: string
    const valueKeys: seq<string>
    const interval: real
    ghost const created: real
    var lastPublishTime: real

    /** Everything handed to the socket. */
    ghost var sent: seq<Sent>

    ghost predicate Valid()
      reads this
    {
      && lastPublishTime == (if sent == [] then created else sent[|sent| - 1].time)
      && (interval > 0.0 ==> Spaced(created, sent, interval))
    }

    constructor (nodeName: string, hardwareId: string, keys: seq<string>, throttle: real, now: real)
      ensures Valid() && sent == [] && created == now && interval == throttle && valueKeys == keys
      ensures node == nodeName && hwId == hardwareId
    {
      node, hwId, valueKeys, interval, created := nodeName, hardwareId, keys, throttle, now;
      lastPublishTime, sent := now, [];
    }

    function Source(): Origin { Origin(node, hwId, valueKeys) }

    predicate ShouldPublish(now: real)
      reads this
    {
      interval <= 0.0 || now - lastPublishTime >= interval
    }

    /** Pairs values with keys up to the shorter of the two lists. */
    method FillKeyedValues(values: seq<real>) returns (keyed: seq<KeyValue<real>>)
      ensures |keyed| == if |values| < |valueKeys| then |values| else |valueKeys|
      ensures forall i | 0 <= i < |keyed| :: keyed[i] == KeyValue(valueKeys[i], values[i])
    {
      keyed := [];
      var i := 0;
      while i < |values| && i < |valueKeys|
        invariant i == |keyed| <= |values| && i <= |valueKeys|
        invariant forall k | 0 <= k < i :: keyed[k] == KeyValue(valueKeys[k], values[k])
      {
        keyed := keyed + [KeyValue(valueKeys[i], values[i])];
        i := i + 1;
      }
    }

    /** Prints, sends without blocking (the result is ignored) and records the time. */
    method Send(status: Status<real>, now: real)
      requires Valid() && (interval > 0.0 ==> now - lastPublishTime >= interval)
      modifies this
      ensures Valid() && sent == old(sent) + [Sent(now, status)]
    {
      if interval > 0.0 {
        SpacedSnoc(created, sent, Sent(now, status), interval);
      }
      sent := sent + [Sent(now, status)];
      lastPublishTime := now;
    }

    /** check and now are the two clock readings of one call. */
    method Publish(level: int, msg: string, values: seq<KeyValue<real>>, check: real, now: real)
      requires Valid() && check <= now
      modifies this
      ensures Valid()
      ensures sent == if Due(interval, created, old(sent), check)
                      then old(sent) + [Sent(now, Status(level, node, msg, hwId, values))] else old(sent)
    {
      if !ShouldPublish(check) {
        return;
      }
      Send(Status(level, node, msg, hwId, values), now);
    }

    method PublishValues(level: int, msg: string, values: seq<real>, check: real, now: real)
      requires Valid() && check <= now
      modifies this
      ensures Valid()
      ensures !Due(interval, created, old(sent), check) ==> sent == old(sent)
      ensures Due(interval, created, old(sent), check) ==>
                && |sent| == |old(sent)| + 1 && sent[..|old(sent)|] == old(sent)
                && var s := sent[|old(sent)|];
                   && s.time == now && s.status.(values := []) == Status(level, node, msg, hwId, [])
                   && (|values| == |valueKeys| ==> Aligned(s.status.values, valueKeys, values))
    {
      if !ShouldPublish(check) {
        return;
      }
      var keyed := FillKeyedValues(values);
      Send(Status(level, node, msg, hwId, keyed), now);
    }

    /** Flushes an accumulator and sends its report; a throttled call leaves the accumulator alone. */
    method PublishStats(metric: string, acc: StatAccumulator, level: int, msg: string,
                        check: real, timeNs: uint64, recheck: real, now: real)
      requires Valid() && acc.Valid() && check <= recheck <= now
      modifies this, acc, acc.buf
      ensures Valid() && acc.Valid()
      ensures !Due(interval, created, old(sent), check) ==> sent == old(sent) && acc.window == old(acc.window)
      ensures Due(interval, created, old(sent), check) ==>
                && acc.window == [] && acc.initialTimeNs == timeNs
                && |sent| == |old(sent)| + 1 && sent[..|old(sent)|] == old(sent)
                && exists st, duration ::
                     && Describes(st, old(acc.window), acc.cap)
                     && Elapsed(old(acc.initialTimeNs), timeNs, duration)
                     && sent[|old(sent)|] == Sent(now, Status(level, node, msg, hwId, StatsPairs(metric, st, duration)))
    {
      if !ShouldPublish(check) {
        return;
      }
      var st, duration := acc.Flush(timeNs);
      Publish(level, msg, StatsPairs(metric, st, duration), recheck, now);
    }
  }

  function StatsPairs(metric: string, st: Stats, duration: real): seq<KeyValue<real>> {
    [KeyValue(metric + ".count", st.count as real), KeyValue(metric + ".mean", st.mean),
     KeyValue(metric + ".std_dev", st.stdDevSquared), KeyValue(metric + ".rms", st.rmsSquared),
     KeyValue(metric + ".min", st.min), KeyValue(metric + ".max", st.max),
     KeyValue(metric + ".p05", st.p05), KeyValue(metric + ".p50", st.p50), KeyValue(metric + ".p95", st.p95),
     KeyValue(metric + ".duration", duration)]
  }

  /** One report per flushed window. */
  ghost predicate Reported(windows: seq<seq<real>>, reports: seq<Stats>, cap: nat) {
    |windows| == |reports|
    && forall i {:trigger Describes(reports[i], windows[i], cap)} | 0 <= i < |windows| ::
         Describes(reports[i], windows[i], cap) && windows[i] != []
  }

  lemma ReportedSnoc(windows: seq<seq<real>>, reports: seq<Stats>, cap: nat, w: seq<real>, report: Stats)
    requires Reported(windows, reports, cap) && w != [] && Describes(report, w, cap)
    ensures Reported(windows + [w], reports + [report], cap)
  {
    forall i | 0 <= i < |windows| + 1
      ensures Describes((reports + [report])[i], (windows + [w])[i], cap) && (windows + [w])[i] != []
    {
      assert i < |windows| ==> Describes(reports[i], windows[i], cap) && windows[i] != [];
    }
  }

  /** The limits in force when a window was judged. */
  datatype Limiting = Limiting(warning: Limits, error: Limits)

  /** A sent status says a report: every value under its own key, at the level the limits give it. */
  ghost predicate Says(status: Status<real>, report: Stats, limits: Limiting, from: Origin) {
    && status.name == from.node && status.hardwareId == from.hwId
    && Aligned(status.values, from.keys, ToStdVector(report, 0.0))
    && status.level == LevelOf(Judge(report, limits.warning, limits.error))
  }

  /** One message per report. */
  ghost predicate AllSent(sent: seq<Sent>, reports: seq<Stats>, judged: seq<Limiting>, from: Origin) {
    |sent| == |reports| == |judged|
    && forall i | 0 <= i < |sent| :: Says(sent[i].status, reports[i], judged[i], from)
  }

  lemma AllSentSnoc(sent: seq<Sent>, reports: seq<Stats>, judged: seq<Limiting>, from: Origin,
                    sent': seq<Sent>, report: Stats, limits: Limiting)
    requires AllSent(sent, reports, judged, from)
    requires |sent'| == |sent| + 1 && sent'[..|sent|] == sent
    requires Says(sent'[|sent|].status, report, limits, from)
    ensures AllSent(sent', reports + [report], judged + [limits], from)
  {
    assert forall i | 0 <= i < |sent| :: sent'[i] == sent'[..|sent|][i];
  }

  lemma NoTimePasses(duration: real)
    requires Elapsed(0, 0, duration)
    ensures duration == 0.0
  {}

  /** The convenience call sends ten pairs, and they name every statistic, each under its own key. */
  lemma PairsNamed(metric: string, st: Stats, duration: real)
    ensures |StatsPairs(metric, st, duration)| == |ValueKeys(1)| == 10
    ensures var keys := ValueKeys(1);
      forall i | 0 <= i < |keys| ::
        KeyValue(metric + "." + keys[i], Named(keys[i], st, duration)) in StatsPairs(metric, st, duration)
  {
    forall i | 0 <= i < 10
      ensures KeyValue(metric + "." + ValueKeys(1)[i], Named(ValueKeys(1)[i], st, duration))
           in StatsPairs(metric, st, duration)
    {
      var j := if i == 0 then 9 else i - 1;
      assert StatsPairs(metric, st, duration)[j].value == Named(ValueKeys(1)[i], st, duration);
      PairKey(metric, st, duration, i, j);
    }
  }

  lemma PairKey(metric: string, st: Stats, duration: real, i: nat, j: nat)
    requires i < 10 && j == if i == 0 then 9 else i - 1
    ensures StatsPairs(metric, st, duration)[j].key == metric + "." + ValueKeys(1)[i]
  {
    var literals := [".duration", ".count", ".mean", ".std_dev", ".rms", ".min", ".max", ".p05", ".p50", ".p95"];
    assert "." + ValueKeys(1)[i] == literals[i];
    assert metric + "." + ValueKeys(1)[i] == metric + ("." + ValueKeys(1)[i]);
  }

  /** One more message, with its time and text. */
  ghost predicate SentOnce(before: seq<Sent>, after: seq<Sent>, now: real, msg: string) {
    |after| == |before| + 1 && after[..|before|] == before
    && after[|before|].time == now && after[|before|].status.msg == msg
  }

  class StatsPublisher {
    const acc: StatAccumulator
    const diag: DiagPublisher
    const statsName: string
    var values: seq<real>
    var warningThresholds: Limits
    var errorThresholds: Limits

    /** Every sample ever given, the flushed windows, the reports made of them and the limits that
        judged them. */
    ghost var samples: seq<real>
    ghost var windows: seq<seq<real>>
    ghost var reports: seq<Stats>
    ghost var judged: seq<Limiting>

    /** Flushed windows and pending samples together are exactly the samples given; every window was
        sent once, with all its values under their prefixed keys. The flush has no time argument, so
        the duration entry is always zero. */
    ghost predicate Valid()
      reads this, acc, acc.buf, diag
    {
      && acc.Valid() && diag.Valid() && acc.initialTimeNs == 0
      && diag.valueKeys == Prefixed(statsName, ValueKeys(acc.cap))
      && samples == Concat(windows) + acc.window
      && Reported(windows, reports, acc.cap) && AllSent(diag.sent, reports, judged, diag.Source())
    }

    ghost function InForce(): Limiting
      reads this
    {
      Limiting(warningThresholds, errorThresholds)
    }

    constructor (nodeName: string, hardwareId: string, name: string, interval: real, capacity: nat,
                 maxDouble: real, now: real)
      ensures Valid() && fresh(acc) && fresh(acc.buf) && fresh(diag)
      ensures samples == [] && acc.cap == capacity && acc.top == maxDouble && diag.interval == interval
      ensures diag.valueKeys == Prefixed(name, ValueKeys(capacity))
      ensures statsName == name && diag.node == nodeName && diag.hwId == hardwareId && diag.created == now
      ensures InForce() == Limiting(DEFAULTS, DEFAULTS) && diag.sent == []
    {
      acc := new StatAccumulator(capacity, maxDouble);
      diag := new DiagPublisher(nodeName, hardwareId, Prefixed(name, ValueKeys(capacity)), interval, now);
      statsName := name;
      warningThresholds, errorThresholds := DEFAULTS, DEFAULTS;
      values, samples, windows, reports, judged := [], [], [], [], [];
      new;
      assert Concat([]) + [] == [];
    }

    method SetThresholds(warning: Limits, error: Limits)
      requires Valid()
      modifies `warningThresholds, `errorThresholds
      ensures Valid() && InForce() == Limiting(warning, error)
    {
      warningThresholds, errorThresholds := warning, error;
    }

    /** One sample; check, recheck and now are the clock readings of the call. The second throttle test
        never discards a window that was just flushed. */
    method UpdateAndPublish(value: real, msg: string, check: real, recheck: real, now: real)
      requires Valid() && acc.Finite(value) && check <= recheck <= now
      modifies this, acc, acc.buf, diag
      ensures Valid() && samples == old(samples) + [value] && InForce() == old(InForce())
      ensures if Due(diag.interval, diag.created, old(diag.sent), check)
              then SentOnce(old(diag.sent), diag.sent, now, msg) else diag.sent == old(diag.sent)
      ensures if Due(diag.interval, diag.created, old(diag.sent), check)
              then acc.window == [] && windows == old(windows) + [old(acc.window) + [value]]
                   && judged == old(judged) + [InForce()]
              else acc.window == old(acc.window) + [value] && windows == old(windows) && judged == old(judged)
    {
      Record(value);
      if diag.ShouldPublish(check) {
        FlushAndPublish(msg, recheck, now);
      }
    }

    method Record(value: real)
      requires Valid() && acc.Finite(value)
      modifies `samples, acc, acc.buf
      ensures Valid() && samples == old(samples) + [value] && acc.window == old(acc.window) + [value]
    {
      acc.Update(value);
      samples := samples + [value];
      assert samples == Concat(windows) + acc.window;
    }

    /** Flushes the accumulator into the reused value vector. */
    method FlushValues() returns (stats: Stats)
      requires acc.Valid() && acc.initialTimeNs == 0 && acc.window != [] && Reported(windows, reports, acc.cap)
      modifies `values, `windows, `reports, acc, acc.buf
      ensures acc.Valid() && acc.initialTimeNs == 0 && acc.window == []
      ensures windows == old(windows) + [old(acc.window)] && reports == old(reports) + [stats]
      ensures Reported(windows, reports, acc.cap)
      ensures values == ToStdVector(stats, 0.0) && |values| == KeyCount(acc.cap)
    {
      ghost var w := acc.window;
      var duration;
      stats, duration := acc.Flush(0);
      NoTimePasses(duration);
      VectorMatchesKeys(stats, duration, w, acc.cap);
      values := ToStdVector(stats, duration);
      ReportedSnoc(windows, reports, acc.cap, w, stats);
      windows, reports := windows + [w], reports + [stats];
    }

    /** The guarded part: flush, list the values, publish; the inner throttle test passes. */
    method FlushAndPublish(msg: string, recheck: real, now: real)
      requires Valid() && acc.window != [] && diag.ShouldPublish(recheck) && recheck <= now
      modifies `values, `windows, `reports, `judged, acc, acc.buf, diag
      ensures Valid() && acc.window == [] && windows == old(windows) + [old(acc.window)]
      ensures judged == old(judged) + [InForce()] && SentOnce(old(diag.sent), diag.sent, now, msg)
    {
      ConcatSnoc(windows, acc.window);
      ghost var earlier := reports;
      var stats := FlushValues();
      var level := LevelOf(Judge(stats, warningThresholds, errorThresholds));
      SendValues(level, msg, recheck, now, earlier, stats);
    }

    /** Sends the value vector of the report just made. */
    method SendValues(level: int, msg: string, recheck: real, now: real, ghost earlier: seq<Stats>, ghost stats: Stats)
      requires diag.Valid() && diag.ShouldPublish(recheck) && recheck <= now
      requires AllSent(diag.sent, earlier, judged, diag.Source()) && reports == earlier + [stats]
      requires values == ToStdVector(stats, 0.0) && |values| == |diag.valueKeys|
      requires level == LevelOf(Judge(stats, warningThresholds, errorThresholds))
      modifies diag, `judged
      ensures diag.Valid() && AllSent(diag.sent, reports, judged, diag.Source())
      ensures judged == old(judged) + [InForce()] && SentOnce(old(diag.sent), diag.sent, now, msg)
    {
      ghost var before := diag.sent;
      diag.PublishValues(level, msg, values, recheck, now);
      AllSentSnoc(before, earlier, judged, diag.Source(), diag.sent, stats, InForce());
      judged := judged + [InForce()];
    }
  }

  /** What every message of a stats publisher says of its own samples: its level is ERROR exactly when
      they break the error limits of that moment, WARNING exactly when they break only the warning
      limits, and its values describe exactly that window. */
  lemma MessagesFromSamples(p: StatsPublisher, i: nat)
    requires p.Valid() && i < |p.diag.sent|
    ensures |p.windows| == |p.reports| == |p.judged| == |p.diag.sent|
    ensures var status, w, limits := p.diag.sent[i].status, p.windows[i], p.judged[i];
      && Describes(p.reports[i], w, p.acc.cap)
      && Aligned(status.values, p.diag.valueKeys, ToStdVector(p.reports[i], 0.0))
      && status.level == if Breaks(w, limits.error) then 2 else if Breaks(w, limits.warning) then 1 else 0
  {
    assert Says(p.diag.sent[i].status, p.reports[i], p.judged[i], p.diag.Source());
    assert Describes(p.reports[i], p.windows[i], p.acc.cap);
    LevelFromSamples(p.reports[i], p.windows[i], p.acc.cap, p.judged[i].warning, p.judged[i].error);
  }

  /** What a reader of the published counts can rely on. */
  lemma PublishedCounts(p: StatsPublisher)
    requires p.Valid()
    ensures TotalCount(p.reports) + p.acc.n == |p.samples|
  {
    CountsAddUp(p.reports, p.windows, p.acc.cap);
    OnlineIsBatch(p.acc.window);
  }

  // ---------------------------------------------------------------- the Python mirror

  /** One flush by the Python publisher: the window, and whether the socket took the message. */
  datatype Attempt = Attempt(window: seq<real>, report: Stats, time: real, delivered: bool)

  function Windows(attempts: seq<Attempt>): (r: seq<seq<real>>)
    ensures |r| == |attempts| && forall i | 0 <= i < |r| :: r[i] == attempts[i].window
  {
    seq(|attempts|, i requires 0 <= i < |attempts| => attempts[i].window)
  }

  function Size(attempts: seq<Attempt>, delivered: bool): nat {
    if attempts == [] then 0
    else
      var last := attempts[|attempts| - 1];
      Size(attempts[..|attempts| - 1], delivered) + (if last.delivered == delivered then |last.window| else 0)
  }

  /** Delivered and dropped samples make up everything that was flushed; nothing is dropped while every
      attempt is delivered, and nothing delivered while none is. */
  lemma {:induction false} DeliveredPlusDropped(attempts: seq<Attempt>)
    ensures Size(attempts, true) + Size(attempts, false) == |Concat(Windows(attempts))|
    ensures (forall i | 0 <= i < |attempts| :: attempts[i].delivered) ==> Size(attempts, false) == 0
    ensures (forall i | 0 <= i < |attempts| :: !attempts[i].delivered) ==> Size(attempts, true) == 0
  {
    if attempts == [] {
    } else {
      var init := attempts[..|attempts| - 1];
      DeliveredPlusDropped(init);
      assert Windows(attempts)[..|attempts| - 1] == Windows(init);
    }
  }

  /** The interval has passed since the last recorded time; the first call is never throttled. */
  predicate DueAgain(interval: real, recorded: seq<real>, now: real) {
    interval <= 0.0 || recorded == [] || now - recorded[|recorded| - 1] >= interval
  }

  class PyDiagPublisher {
    const interval: real
    var lastPublishTime: Option<real>
    ghost var attempts: seq<Attempt>

    /** Recorded publish times: one per delivery, at least the interval apart. */
    ghost var recorded: seq<real>

    ghost predicate Valid()
      reads this
    {
      && lastPublishTime == (if recorded == [] then None else Some(recorded[|recorded| - 1]))
      && (interval > 0.0 ==> forall i | 0 < i < |recorded| :: recorded[i] - recorded[i - 1] >= interval)
    }

    constructor (throttle: real)
      ensures Valid() && interval == throttle && attempts == [] && recorded == []
    {
      interval, lastPublishTime, attempts, recorded := throttle, None, [], [];
    }

    predicate ShouldPublish(now: real)
      reads this
    {
      !(interval > 0.0 && lastPublishTime.Some? && now - lastPublishTime.value < interval)
    }

    /** A throttled call never flushes; otherwise the window is flushed and delivered or dropped, and
        only a delivery restarts the interval. */
    method PublishStats(acc: PyStatAccumulator, check: real, socketTakes: bool, after: real) returns (sent: bool)
      requires Valid() && acc.Valid() && check <= after
      modifies this, acc
      ensures Valid() && acc.Valid()
      ensures recorded == if sent then old(recorded) + [after] else old(recorded)
      ensures !DueAgain(interval, old(recorded), check) ==>
                !sent && acc.window == old(acc.window) && attempts == old(attempts)
      ensures DueAgain(interval, old(recorded), check) ==>
                && sent == socketTakes && acc.window == []
                && |attempts| == |old(attempts)| + 1 && attempts[..|old(attempts)|] == old(attempts)
                && var a := attempts[|old(attempts)|];
                   && a.window == old(acc.window) && a.delivered == sent && a.time == check
                   && Describes(a.report.(rmsSquared := RmsSquared(a.window)), a.window, acc.cap)
    {
      if !ShouldPublish(check) {
        return false;
      }
      ghost var w := acc.window;
      var st := acc.Flush();
      attempts := attempts + [Attempt(w, st, check, socketTakes)];
      sent := socketTakes;
      if sent {
        lastPublishTime := Some(after);
        recorded := recorded + [after];
      }
    }
  }

  /** What a caller does with one accumulator and one publisher. */
  datatype Action = Update(x: real) | PublishStats(check: real, socketTakes: bool, after: real)

  /** The clock does not run backwards within a call. */
  predicate Causal(action: Action) { action.PublishStats? ==> action.check <= action.after }

  function SamplesOf(script: seq<Action>): seq<real> {
    if script == [] then []
    else
      SamplesOf(script[..|script| - 1])
      + (if script[|script| - 1].Update? then [script[|script| - 1].x] else [])
  }

  method Perform(action: Action, acc: PyStatAccumulator, pub: PyDiagPublisher)
    requires acc.Valid() && pub.Valid() && Causal(action)
    modifies acc, pub
    ensures acc.Valid() && pub.Valid()
    ensures Concat(Windows(pub.attempts)) + acc.window
         == old(Concat(Windows(pub.attempts)) + acc.window) + (if action.Update? then [action.x] else [])
  {
    match action
    case Update(x) => acc.Update(x);
    case PublishStats(check, socketTakes, after) =>
      ghost var before, w := pub.attempts, acc.window;
      var sent := pub.PublishStats(acc, check, socketTakes, after);
      if |pub.attempts| > |before| {
        AttemptAdds(before, pub.attempts, w);
      }
  }

  lemma AttemptAdds(before: seq<Attempt>, after: seq<Attempt>, w: seq<real>)
    requires |after| == |before| + 1 && after[..|before|] == before && after[|before|].window == w
    ensures Concat(Windows(after)) == Concat(Windows(before)) + w
  {
    assert forall i | 0 <= i < |before| :: after[i] == after[..|before|][i];
    assert Windows(after) == Windows(before) + [w];
    ConcatSnoc(Windows(before), w);
  }

  /** On every run, delivered + dropped + pending samples are the samples given, in order. */
  method RunPython(script: seq<Action>, acc: PyStatAccumulator, pub: PyDiagPublisher)
    requires acc.Valid() && acc.window == [] && pub.Valid() && pub.attempts == []
    requires forall i | 0 <= i < |script| :: Causal(script[i])
    modifies acc, pub
    ensures acc.Valid() && pub.Valid()
    ensures Concat(Windows(pub.attempts)) + acc.window == SamplesOf(script)
    ensures Size(pub.attempts, true) + Size(pub.attempts, false) + acc.n == |SamplesOf(script)|
  {
    assert Concat(Windows(pub.attempts)) + acc.window == [];
    for i := 0 to |script|
      invariant acc.Valid() && pub.Valid()
      invariant Concat(Windows(pub.attempts)) + acc.window == SamplesOf(script[..i])
    {
      assert script[..i + 1][..i] == script[..i];
      Perform(script[i], acc, pub);
    }
    assert script[..|script|] == script;
    DeliveredPlusDropped(pub.attempts);
    OnlineIsBatch(acc.window);
  }
}
