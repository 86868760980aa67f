/** From a statistics message to the aggregator and on to the published tree: the parts composed. */
module Pipeline {
  import Accumulators
  import Aggregator
  import Json
  import opened Messages
  import opened Options
  import opened Paths
  import Publisher
  import opened RosSink
  import opened Statuses
  import StatusPrinter
  import Thresholds
  import Utf8
  import WindowStats

  // ---------------------------------------------------------------- from publisher to aggregator

  /** std::to_chars on every value: some decimal token for each number, everything else as it is. */
  function Printed(status: Status<real>, token: real -> Json.Number): StatusPrinter.Printable {
    Status(status.level, status.name, status.msg, status.hardwareId,
           seq(|status.values|, i requires 0 <= i < |status.values| =>
             KeyValue(status.values[i].key, StatusPrinter.Finite(token(status.values[i].value)))))
  }

  /** Every message a stats publisher has sent is accepted by the schema exactly when its node has a name,
      whatever the decimal tokens: its prefixed keys are never empty and its level is always a known one. */
  lemma StatsMessageAccepted(p: Publisher.StatsPublisher, i: nat, token: real -> Json.Number, stamp: Json.Number)
    requires p.Valid() && i < |p.diag.sent|
    requires Json.ValidNumber(stamp) && forall x :: Json.ValidNumber(token(x))
    ensures var printed := Printed(p.diag.sent[i].status, token);
      && StatusPrinter.AllFinite(printed.values)
      && (SchemaAccepts(StatusPrinter.Document(printed, stamp)) <==> p.diag.node != "")
  {
    Publisher.MessagesFromSamples(p, i);
    KeysNamed(p.diag.sent[i].status.values, p.statsName, p.acc.cap, Accumulators.ToStdVector(p.reports[i], 0.0));
    assert Publisher.Says(p.diag.sent[i].status, p.reports[i], p.judged[i], p.diag.Source());
    PrintedAccepted(p.diag.sent[i].status, token, stamp);
  }

  /** Prefixed keys are never empty. */
  lemma KeysNamed(values: seq<KeyValue<real>>, name: string, cap: nat, vector: seq<real>)
    requires Publisher.Aligned(values, Publisher.Prefixed(name, Accumulators.ValueKeys(cap)), vector)
    ensures forall k | 0 <= k < |values| :: values[k].key != ""
  {
    forall k | 0 <= k < |values|
      ensures values[k].key != ""
    {
      assert |values[k].key| > |name|;
    }
  }

  lemma PrintedAccepted(status: Status<real>, token: real -> Json.Number, stamp: Json.Number)
    requires Json.ValidNumber(stamp) && forall x :: Json.ValidNumber(token(x))
    requires 0 <= status.level <= 3 && forall k | 0 <= k < |status.values| :: status.values[k].key != ""
    ensures StatusPrinter.AllFinite(Printed(status, token).values)
    ensures SchemaAccepts(StatusPrinter.Document(Printed(status, token), stamp)) <==> status.name != ""
  {
    var printed := Printed(status, token);
    forall k | 0 <= k < |printed.values|
      ensures StatusPrinter.IsFinite(printed.values[k].value) && printed.values[k].key == status.values[k].key
    {
      var value: real := status.values[k].value;
      assert Json.ValidNumber(token(value));
    }
    StatusPrinter.DocumentAccepted(printed, stamp);
  }

  /** The key of a statistic is valid UTF-8 exactly when the name it is prefixed with is. */
  lemma KeyDecodes(name: string, key: string)
    requires Utf8.AllAscii(key)
    ensures Utf8.Decode(name + "." + key).Some? <==> Utf8.Decode(name).Some?
    ensures Utf8.Decode(name).Some? ==> Utf8.Decode(name + "." + key).value == Utf8.Decode(name).value + "." + key
  {
    assert name + "." + key == name + ("." + key);
    Utf8.DecodeAscii("." + key);
    Utf8.DecodeConcat(name, "." + key);
    assert Utf8.Decode(name).Some? ==>
             Utf8.Decode(name).value + ("." + key) == Utf8.Decode(name).value + "." + key;
  }

  lemma StatKeysAscii(cap: nat)
    ensures forall i | 0 <= i < |Accumulators.ValueKeys(cap)| :: Utf8.AllAscii(Accumulators.ValueKeys(cap)[i])
  {}

  /** All keys of a message are valid UTF-8 exactly when the name they are prefixed with is. */
  lemma KeysDecode(values: seq<KeyValue<real>>, name: string, cap: nat, vector: seq<real>)
    requires Publisher.Aligned(values, Publisher.Prefixed(name, Accumulators.ValueKeys(cap)), vector)
    ensures (forall k | 0 <= k < |values| :: Utf8.Decode(values[k].key).Some?) <==> Utf8.Decode(name).Some?
  {
    var keys := Accumulators.ValueKeys(cap);
    StatKeysAscii(cap);
    forall k | 0 <= k < |values|
      ensures Utf8.Decode(values[k].key).Some? <==> Utf8.Decode(name).Some?
    {
      assert values[k].key == name + "." + keys[k];
      KeyDecodes(name, keys[k]);
    }
    assert |values| > 0;
    assert (forall k | 0 <= k < |values| :: Utf8.Decode(values[k].key).Some?) ==> Utf8.Decode(values[0].key).Some?;
  }

  lemma PrintedKeys(status: Status<real>, token: real -> Json.Number)
    ensures StatusPrinter.KeysDecode(Printed(status, token).values)
       <==> forall k | 0 <= k < |status.values| :: Utf8.Decode(status.values[k].key).Some?
  {
    var printed := Printed(status, token).values;
    assert forall k | 0 <= k < |printed| :: printed[k].key == status.values[k].key;
  }

  /** A message that a stats publisher has sent arrives, bytes and all, exactly when its node has a name and
      the name, hardware id, message and statistic are valid UTF-8 (and the stamp, were it an integer, fits
      a double). It then carries the level that its own samples give and, in order, the statistics of its
      window under the keys behind the decoded name. */
  method DeliverStats(p: Publisher.StatsPublisher, ghost i: nat, status: Status<real>, token: real -> Json.Number,
                      stamp: Json.Number)
    returns (r: Normalization)
    requires p.Valid() && i < |p.diag.sent| && status == p.diag.sent[i].status
    requires Json.ValidNumber(stamp) && forall x :: Json.ValidNumber(token(x))
    ensures r.Normalized? <==>
              && p.diag.node != "" && !Overflows(stamp)
              && Utf8.Decode(p.diag.node).Some? && Utf8.Decode(p.diag.hwId).Some?
              && Utf8.Decode(status.msg).Some? && Utf8.Decode(p.statsName).Some?
    ensures r.Normalized? ==>
              && |p.windows| == |p.reports| == |p.judged| == |p.diag.sent|
              && r.message.level == (if Thresholds.Breaks(p.windows[i], p.judged[i].error) then 2
                                     else if Thresholds.Breaks(p.windows[i], p.judged[i].warning) then 1 else 0)
              && WindowStats.Describes(p.reports[i], p.windows[i], p.acc.cap)
              && StatEntries(r.message.values, p.reports[i], p.acc.cap, p.statsName, token)
              && TextsKept(r.message, p.diag.node, p.diag.hwId, status.msg) && r.message.stamp == NumberValue(stamp)
  {
    ghost var report, window := p.reports[i], p.windows[i];
    Publisher.MessagesFromSamples(p, i);
    assert Publisher.Says(p.diag.sent[i].status, report, p.judged[i], p.diag.Source());
    r := DeliverReport(status, report, window, p.acc.cap, p.statsName, token, stamp);
  }

  /** The same for a status that says the report of a window. */
  method DeliverReport(status: Status<real>, ghost report: WindowStats.Stats, ghost window: seq<real>,
                       ghost cap: nat, ghost name: string, token: real -> Json.Number, stamp: Json.Number)
    returns (r: Normalization)
    requires WindowStats.Describes(report, window, cap) && 0 <= status.level <= 3
    requires Publisher.Aligned(status.values, Publisher.Prefixed(name, Accumulators.ValueKeys(cap)),
                               Accumulators.ToStdVector(report, 0.0))
    requires Json.ValidNumber(stamp) && forall x :: Json.ValidNumber(token(x))
    ensures r.Normalized? <==>
              && status.name != "" && !Overflows(stamp)
              && Utf8.Decode(status.name).Some? && Utf8.Decode(status.hardwareId).Some?
              && Utf8.Decode(status.msg).Some? && Utf8.Decode(name).Some?
    ensures r.Normalized? ==>
              && r.message.level == status.level && StatEntries(r.message.values, report, cap, name, token)
              && TextsKept(r.message, status.name, status.hardwareId, status.msg)
              && r.message.stamp == NumberValue(stamp)
  {
    ghost var vector := Accumulators.ToStdVector(report, 0.0);
    KeysNamed(status.values, name, cap, vector);
    KeysDecode(status.values, name, cap, vector);
    PrintedKeys(status, token);
    PrintedAccepted(status, token, stamp);
    PrintedWell(status, token, stamp);
    r := StatusPrinter.Deliver(Printed(status, token), StatusPrinter.Finite(stamp));
    if r.Normalized? {
      Carried(r.message.values, Printed(status, token).values);
      PrintedCarried(r.message.values, status, token);
      StatsArrive(r.message.values, status.values, report, window, cap, name, token);
    }
  }

  /** The message has the decoded texts. */
  predicate TextsKept(w: Message, node: string, hwId: string, msg: string) {
    && Utf8.Decode(node) == Some(w.node) && Utf8.Decode(hwId) == Some(w.hwId) && Utf8.Decode(msg) == Some(w.msg)
  }

  /** Each statistic of the report stands under its own key behind the decoded name, in order. */
  ghost predicate StatEntries(values: seq<Entry>, report: WindowStats.Stats, cap: nat, name: string,
                              token: real -> Json.Number)
  {
    && Utf8.Decode(name).Some? && |values| == |Accumulators.ValueKeys(cap)|
    && forall k | 0 <= k < |values| :: values[k] == StatEntry(Accumulators.ValueKeys(cap)[k], report, name, token)
  }

  function StatEntry(key: string, report: WindowStats.Stats, name: string, token: real -> Json.Number): Entry
    requires Utf8.Decode(name).Some?
  {
    Entry(Utf8.Decode(name).value + "." + key, Json.JNumber(token(Accumulators.Named(key, report, 0.0))))
  }

  /** Entries that carry the pairs of a decoded status. */
  ghost predicate CarriedFrom(values: seq<Entry>, pairs: seq<StatusPrinter.Pair>) {
    && StatusPrinter.KeysDecode(pairs) && StatusPrinter.AllFinite(pairs) && |values| == |pairs|
    && forall k | 0 <= k < |values| ::
         values[k] == Entry(Utf8.Decode(pairs[k].key).value, Json.JNumber(pairs[k].value.num))
  }

  lemma Carried(values: seq<Entry>, pairs: seq<StatusPrinter.Pair>)
    requires StatusPrinter.KeysDecode(pairs) && StatusPrinter.AllFinite(StatusPrinter.DecodedPairs(pairs))
    requires var decoded := StatusPrinter.DecodedPairs(pairs);
      && |values| == |decoded|
      && forall k | 0 <= k < |values| :: values[k] == Entry(decoded[k].key, Json.JNumber(decoded[k].value.num))
    ensures CarriedFrom(values, pairs)
  {
    var decoded := StatusPrinter.DecodedPairs(pairs);
    forall k | 0 <= k < |pairs|
      ensures StatusPrinter.IsFinite(pairs[k].value)
      ensures values[k] == Entry(Utf8.Decode(pairs[k].key).value, Json.JNumber(pairs[k].value.num))
    {
      assert decoded[k] == KeyValue(Utf8.Decode(pairs[k].key).value, pairs[k].value);
    }
  }

  /** Entries that carry the printed values of a status. */
  ghost predicate CarriedReals(values: seq<Entry>, pairs: seq<KeyValue<real>>, token: real -> Json.Number) {
    && |values| == |pairs|
    && forall k | 0 <= k < |values| ::
         && Utf8.Decode(pairs[k].key).Some?
         && values[k] == Entry(Utf8.Decode(pairs[k].key).value, Json.JNumber(token(pairs[k].value)))
  }

  lemma PrintedCarried(values: seq<Entry>, status: Status<real>, token: real -> Json.Number)
    requires CarriedFrom(values, Printed(status, token).values)
    ensures CarriedReals(values, status.values, token)
  {
    var printed := Printed(status, token).values;
    forall k | 0 <= k < |values|
      ensures Utf8.Decode(status.values[k].key).Some?
      ensures values[k] == Entry(Utf8.Decode(status.values[k].key).value, Json.JNumber(token(status.values[k].value)))
    {
      assert printed[k] == KeyValue(status.values[k].key, StatusPrinter.Finite(token(status.values[k].value)));
    }
  }

  lemma StatsArrive(values: seq<Entry>, pairs: seq<KeyValue<real>>, report: WindowStats.Stats, window: seq<real>,
                    cap: nat, name: string, token: real -> Json.Number)
    requires WindowStats.Describes(report, window, cap) && Utf8.Decode(name).Some?
    requires Publisher.Aligned(pairs, Publisher.Prefixed(name, Accumulators.ValueKeys(cap)),
                               Accumulators.ToStdVector(report, 0.0))
    requires CarriedReals(values, pairs, token)
    ensures StatEntries(values, report, cap, name, token)
  {
    var keys := Accumulators.ValueKeys(cap);
    Accumulators.VectorMatchesKeys(report, 0.0, window, cap);
    StatKeysAscii(cap);
    forall k | 0 <= k < |values|
      ensures values[k] == StatEntry(keys[k], report, name, token)
    {
      KeyDecodes(name, keys[k]);
    }
  }

  lemma PrintedWell(status: Status<real>, token: real -> Json.Number, stamp: Json.Number)
    requires Json.ValidNumber(stamp) && forall x :: Json.ValidNumber(token(x))
    ensures StatusPrinter.WellFormed(Printed(status, token), StatusPrinter.Finite(stamp))
  {
    var printed := Printed(status, token);
    forall k | 0 <= k < |printed.values|
      ensures Json.ValidNumber(printed.values[k].value.num)
    {
      var value: real := status.values[k].value;
      assert Json.ValidNumber(token(value));
    }
  }

  // ---------------------------------------------------------------- from aggregator to the published tree

  /** One step of the aggregator, with the reading of the sink's own clock at that moment. */
  datatype Turn = Turn(event: Aggregator.Event, reading: real)

  function Events(turns: seq<Turn>): (log: seq<Aggregator.Event>)
    ensures |log| == |turns| && forall i | 0 <= i < |log| :: log[i] == turns[i].event
  {
    seq(|turns|, i requires 0 <= i < |turns| => turns[i].event)
  }

  lemma EventsSnoc(turns: seq<Turn>, turn: Turn)
    ensures Events(turns + [turn]) == Events(turns) + [turn.event]
  {}

  function CacheAfter(cfg: Aggregator.Config, t0: real, turns: seq<Turn>): map<string, Message> {
    Aggregator.Replay(cfg, t0, Events(turns)).cache
  }

  /** The snapshots among the calls into a sink; messages are ignored. */
  function OffersIn(given: seq<Aggregator.Delivery>, reading: real): seq<Offer> {
    if given == [] then []
    else
      var last := given[|given| - 1];
      OffersIn(given[..|given| - 1], reading) + (if last.Published? then [Offer(last.states, reading)] else [])
  }

  /** What one step offers the sink. */
  function Offered(cfg: Aggregator.Config, t0: real, turns: seq<Turn>, turn: Turn): seq<Offer> {
    OffersIn(Aggregator.DeliveredBy(turn.event, CacheAfter(cfg, t0, turns), CacheAfter(cfg, t0, turns + [turn])),
             turn.reading)
  }

  /** Everything a history offers the sink. */
  function OffersOf(cfg: Aggregator.Config, t0: real, turns: seq<Turn>): seq<Offer> {
    if turns == [] then []
    else
      var init := turns[..|turns| - 1];
      OffersOf(cfg, t0, init) + Offered(cfg, t0, init, turns[|turns| - 1])
  }

  lemma OffersSnoc(cfg: Aggregator.Config, t0: real, turns: seq<Turn>, turn: Turn)
    ensures OffersOf(cfg, t0, turns + [turn]) == OffersOf(cfg, t0, turns) + Offered(cfg, t0, turns, turn)
  {
    assert (turns + [turn])[..|turns|] == turns;
  }

  /** A message always offers the new cache; a poll only when it changed something. */
  lemma OfferedIs(cfg: Aggregator.Config, t0: real, turns: seq<Turn>, turn: Turn)
    ensures var before, after := CacheAfter(cfg, t0, turns), CacheAfter(cfg, t0, turns + [turn]);
      Offered(cfg, t0, turns, turn)
      == if turn.event.Received? || after != before then [Offer(after, turn.reading)] else []
  {
    var shown := Aggregator.Published(CacheAfter(cfg, t0, turns + [turn]));
    if turn.event.Received? {
      var handled := Aggregator.Handled(turn.event.message);
      assert [] + [handled] == [handled] && [handled] + [shown] == [handled, shown];
      OffersInSnoc([], handled, turn.reading);
      OffersInSnoc([handled], shown, turn.reading);
    } else {
      assert [] + [shown] == [shown];
      OffersInSnoc([], shown, turn.reading);
    }
  }

  lemma OffersInSnoc(given: seq<Aggregator.Delivery>, last: Aggregator.Delivery, reading: real)
    ensures OffersIn(given + [last], reading)
         == OffersIn(given, reading) + (if last.Published? then [Offer(last.states, reading)] else [])
  {
    assert (given + [last])[..|given|] == given;
  }

  /** One more turn: the next cache, and what it adds to the offers. */
  lemma NextTurn(cfg: Aggregator.Config, t0: real, turns: seq<Turn>, turn: Turn)
    ensures var before, after := CacheAfter(cfg, t0, turns), CacheAfter(cfg, t0, turns + [turn]);
      && Aggregator.Replay(cfg, t0, Events(turns + [turn]))
         == Aggregator.Step(cfg, Aggregator.Replay(cfg, t0, Events(turns)), turn.event)
      && OffersOf(cfg, t0, turns + [turn])
         == OffersOf(cfg, t0, turns)
            + (if turn.event.Received? || after != before then [Offer(after, turn.reading)] else [])
  {
    EventsSnoc(turns, turn);
    Aggregator.ReplaySnoc(cfg, t0, Events(turns), turn.event);
    OffersSnoc(cfg, t0, turns, turn);
    OfferedIs(cfg, t0, turns, turn);
  }

  lemma TurnsAssoc(turns: seq<Turn>, more: seq<Turn>)
    requires more != []
    ensures turns + more == (turns + more[..|more| - 1]) + [more[|more| - 1]]
  {}

  /** The calls of one inbox reach the sink. */
  method Forward(sink: RosDiagnosticsSink, given: seq<Aggregator.Delivery>, reading: real)
    requires sink.Valid()
    modifies sink
    ensures sink.Valid() && sink.offers == old(sink.offers) + OffersIn(given, reading)
  {
    assert old(sink.offers) + [] == old(sink.offers);
    for i := 0 to |given|
      invariant sink.Valid() && sink.offers == old(sink.offers) + OffersIn(given[..i], reading)
    {
      assert given[..i + 1][..i] == given[..i];
      if given[i].Published? {
        sink.PublishState(given[i].states, reading);
      }
    }
    assert given[..|given|] == given;
  }

  /** One step of the aggregator, and what its inbox number `at` got from it. */
  method Handle(agg: Aggregator.DiagnosticsAggregator, at: nat, event: Aggregator.Event)
    returns (given: seq<Aggregator.Delivery>)
    requires agg.Valid() && at < |agg.inboxes|
    modifies agg
    ensures agg.Valid() && agg.log == old(agg.log) + [event] && |agg.inboxes| == |old(agg.inboxes)|
    ensures given == Aggregator.DeliveredBy(event, old(agg.stateCache), agg.stateCache)
  {
    var before := |agg.inboxes[at]|;
    ghost var log := agg.log;
    match event {
      case Received(m, t) => agg.ProcessMessage(m, t);
      case Polled(now) => agg.FinishPoll(now);
    }
    Aggregator.DeliveriesSnoc(agg.cfg, agg.t0, log, event);
    Aggregator.ReplaySnoc(agg.cfg, agg.t0, log, event);
    given := agg.inboxes[at][before..];
  }

  /** The sink has been offered what the history offers. */
  ghost predicate Fed(sink: RosDiagnosticsSink, cfg: Aggregator.Config, t0: real, turns: seq<Turn>)
    reads sink
  {
    sink.Valid() && sink.offers == OffersOf(cfg, t0, turns)
  }

  /** One step of both. */
  method Advance(agg: Aggregator.DiagnosticsAggregator, at: nat, sink: RosDiagnosticsSink, ghost done: seq<Turn>,
                 turn: Turn)
    requires agg.Valid() && agg.log == Events(done) && at < |agg.inboxes| && Fed(sink, agg.cfg, agg.t0, done)
    modifies agg, sink
    ensures agg.Valid() && agg.log == Events(done + [turn]) && |agg.inboxes| == |old(agg.inboxes)|
    ensures Fed(sink, agg.cfg, agg.t0, done + [turn])
  {
    EventsSnoc(done, turn);
    OffersSnoc(agg.cfg, agg.t0, done, turn);
    var given := Handle(agg, at, turn.event);
    Forward(sink, given, turn.reading);
  }

  lemma TurnsSnoc(turns: seq<Turn>, i: nat)
    requires i < |turns|
    ensures turns[..i + 1] == turns[..i] + [turns[i]]
  {}

  /** The aggregator and the sink together, from their construction on. */
  method Drive(agg: Aggregator.DiagnosticsAggregator, at: nat, sink: RosDiagnosticsSink, turns: seq<Turn>)
    requires agg.Valid() && agg.log == [] && at < |agg.inboxes| && sink.Valid() && sink.offers == []
    modifies agg, sink
    ensures agg.Valid() && agg.log == Events(turns)
    ensures Fed(sink, agg.cfg, agg.t0, turns)
  {
    for i := 0 to |turns|
      invariant agg.Valid() && agg.log == Events(turns[..i]) && at < |agg.inboxes|
      invariant Fed(sink, agg.cfg, agg.t0, turns[..i])
    {
      TurnsSnoc(turns, i);
      Advance(agg, at, sink, turns[..i], turns[i]);
    }
    assert turns[..|turns|] == turns;
  }

  // ---------------------------------------------------------------- what the last array shows

  /** The snapshot the sink published last. */
  ghost function Shown(sink: RosDiagnosticsSink): map<string, Message>
    requires sink.offers != []
    reads sink
  {
    sink.offers[Latest(sink.period, sink.offers)].states
  }

  /** The array the sink published last. */
  function LastArray(sink: RosDiagnosticsSink): seq<RosStatus>
    requires sink.published != []
    reads sink
  {
    sink.published[|sink.published| - 1].1
  }

  /** The sink has been offered the current cache last, and nothing exactly while the cache is empty. */
  lemma {:induction false} LastOfferIsCache(cfg: Aggregator.Config, t0: real, turns: seq<Turn>)
    ensures var offers, cache := OffersOf(cfg, t0, turns), CacheAfter(cfg, t0, turns);
      && (offers == [] <==> cache == map[])
      && (offers != [] ==> offers[|offers| - 1].states == cache)
  {
    if turns == [] {
    } else {
      var init, last := turns[..|turns| - 1], turns[|turns| - 1];
      assert turns == init + [last];
      LastOfferIsCache(cfg, t0, init);
      EventsSnoc(init, last);
      OfferedIs(cfg, t0, init, last);
      Aggregator.ReplaySnoc(cfg, t0, Events(init), last.event);
      Aggregator.StepFills(cfg, Aggregator.Replay(cfg, t0, Events(init)), last.event);
    }
  }

  /** The array published last is the tree of the snapshot accepted last. It is the tree of the current
      cache exactly when that snapshot and the cache put the same status on every path; that is always so
      when no later snapshot was dropped. */
  lemma ShowsCacheIff(sink: RosDiagnosticsSink, cfg: Aggregator.Config, t0: real, turns: seq<Turn>)
    requires Fed(sink, cfg, t0, turns) && CacheAfter(cfg, t0, turns) != map[]
    ensures sink.published != [] && sink.offers != []
    ensures IsTree(sink.root, Shown(sink), LastArray(sink))
    ensures IsTree(sink.root, CacheAfter(cfg, t0, turns), LastArray(sink))
       <==> SameTree(sink.root, Shown(sink), CacheAfter(cfg, t0, turns))
    ensures Latest(sink.period, sink.offers) == |sink.offers| - 1 ==> Shown(sink) == CacheAfter(cfg, t0, turns)
  {
    LastOfferIsCache(cfg, t0, turns);
    LastShown(sink);
    TreeOfIff(sink.root, Shown(sink), CacheAfter(cfg, t0, turns), LastArray(sink));
  }

  // ---------------------------------------------------------------- a message just received

  /** Every cached entry is stored under its own node name. */
  lemma CachedUnderOwnName(cfg: Aggregator.Config, t0: real, log: seq<Aggregator.Event>, node: string)
    requires node in Aggregator.Replay(cfg, t0, log).cache
    ensures Aggregator.Replay(cfg, t0, log).cache[node].node == node
  {
    Aggregator.CacheFromHistory(cfg, t0, log, node);
  }

  /** The tree of the cache that a message left shows the message at its leaf, unless another node with the
      same canonical segments and a later name takes the place. */
  lemma MessageInTree(cfg: Aggregator.Config, t0: real, turns: seq<Turn>, m: Message, t: real, reading: real,
                      root: string, statuses: seq<RosStatus>)
    requires IsTree(root, CacheAfter(cfg, t0, turns + [Turn(Aggregator.Received(m, t), reading)]), statuses)
    ensures var states := CacheAfter(cfg, t0, turns + [Turn(Aggregator.Received(m, t), reading)]);
      || (exists i | 0 <= i < |statuses| :: statuses[i] == ToStatus(m, LeafPath(root, m.node)))
      || exists k | k in states :: Segments(root, k) == Segments(root, m.node) && Less(m.node, k)
  {
    var turns' := turns + [Turn(Aggregator.Received(m, t), reading)];
    var states := CacheAfter(cfg, t0, turns');
    EventsSnoc(turns, Turn(Aggregator.Received(m, t), reading));
    Aggregator.ReplaySnoc(cfg, t0, Events(turns), Aggregator.Received(m, t));
    assert m.node in states && states[m.node] == m;
    if LastOfItsPath(root, states, m.node) {
      var i := WinnerShown(root, states, statuses, m.node);
    } else {
      var k := LaterNode(root, states, m.node);
      CachedUnderOwnName(cfg, t0, Events(turns'), k);
    }
  }

  /** After a message is received, the array published last shows it exactly as the tree of the new cache
      does when the snapshot is accepted; otherwise the array is the one published before. */
  lemma NewestMessageShown(sink: RosDiagnosticsSink, cfg: Aggregator.Config, t0: real, turns: seq<Turn>,
                           m: Message, t: real, reading: real)
    requires Fed(sink, cfg, t0, turns + [Turn(Aggregator.Received(m, t), reading)])
    ensures sink.published != []
    ensures var earlier := OffersOf(cfg, t0, turns);
      var states := CacheAfter(cfg, t0, turns + [Turn(Aggregator.Received(m, t), reading)]);
      if earlier == [] || reading - earlier[Latest(sink.period, earlier)].now >= sink.period then
        || (exists i | 0 <= i < |LastArray(sink)| :: LastArray(sink)[i] == ToStatus(m, LeafPath(sink.root, m.node)))
        || exists k | k in states :: Segments(sink.root, k) == Segments(sink.root, m.node) && Less(m.node, k)
      else
        IsTree(sink.root, earlier[Latest(sink.period, earlier)].states, LastArray(sink))
  {
    var turn := Turn(Aggregator.Received(m, t), reading);
    var earlier, offer := OffersOf(cfg, t0, turns), Offer(CacheAfter(cfg, t0, turns + [turn]), reading);
    OffersSnoc(cfg, t0, turns, turn);
    OfferedIs(cfg, t0, turns, turn);
    assert sink.offers == earlier + [offer];
    OfferSnoc(sink.period, earlier, offer);
    LastShown(sink);
    if earlier == [] || reading - earlier[Latest(sink.period, earlier)].now >= sink.period {
      MessageInTree(cfg, t0, turns, m, t, reading, sink.root, LastArray(sink));
    }
  }

  // ---------------------------------------------------------------- a node that falls silent

  /** Polls only. */
  predicate Quiet(turns: seq<Turn>) {
    forall i | 0 <= i < |turns| :: turns[i].event.Polled?
  }

  /** No message of a node. */
  predicate SilentOf(turns: seq<Turn>, node: string) {
    forall i | 0 <= i < |turns| :: turns[i].event.Received? ==> turns[i].event.message.node != node
  }

  /** An entry marked stale stays marked as long as its node is silent. */
  lemma {:induction false} StaleKept(cfg: Aggregator.Config, t0: real, turns: seq<Turn>, more: seq<Turn>, node: string)
    requires SilentOf(more, node)
    requires node in CacheAfter(cfg, t0, turns) && CacheAfter(cfg, t0, turns)[node].level == Aggregator.STALE_LEVEL
    ensures node in CacheAfter(cfg, t0, turns + more)
    ensures CacheAfter(cfg, t0, turns + more)[node] == CacheAfter(cfg, t0, turns)[node]
  {
    if more == [] {
      assert turns + more == turns;
    } else {
      var init, last := more[..|more| - 1], more[|more| - 1];
      StaleKept(cfg, t0, turns, init, node);
      assert turns + more == (turns + init) + [last];
      EventsSnoc(turns + init, last);
      Aggregator.ReplaySnoc(cfg, t0, Events(turns + init), last.event);
    }
  }

  /** Later turns only add offers, and each of them carries an entry that has been marked. */
  lemma {:induction false} LaterOffers(cfg: Aggregator.Config, t0: real, turns: seq<Turn>, more: seq<Turn>,
                                       node: string)
    requires SilentOf(more, node)
    requires node in CacheAfter(cfg, t0, turns) && CacheAfter(cfg, t0, turns)[node].level == Aggregator.STALE_LEVEL
    ensures MarkedFrom(OffersOf(cfg, t0, turns), OffersOf(cfg, t0, turns + more), node)
  {
    if more == [] {
      assert turns + more == turns;
    } else {
      var init, last := more[..|more| - 1], more[|more| - 1];
      LaterOffers(cfg, t0, turns, init, node);
      StaleKept(cfg, t0, turns, more, node);
      TurnsAssoc(turns, more);
      NextTurn(cfg, t0, turns + init, last);
      MarkedNext(OffersOf(cfg, t0, turns), OffersOf(cfg, t0, turns + init),
                 Offer(CacheAfter(cfg, t0, turns + more), last.reading), node);
    }
  }

  /** The offers begin with the earlier ones, and every later one marks the node. */
  ghost predicate MarkedFrom(earlier: seq<Offer>, offers: seq<Offer>, node: string) {
    earlier <= offers && forall j | |earlier| <= j < |offers| :: Marks(offers[j].states, node)
  }

  lemma MarkedNext(earlier: seq<Offer>, offers: seq<Offer>, next: Offer, node: string)
    requires MarkedFrom(earlier, offers, node) && Marks(next.states, node)
    ensures MarkedFrom(earlier, offers + [next], node) && MarkedFrom(earlier, offers + [], node)
  {
    assert offers + [] == offers;
  }

  ghost predicate Marks(states: map<string, Message>, node: string) {
    node in states && states[node].level == Aggregator.STALE_LEVEL
  }

  /** A poll marks a node and the node stays silent: the snapshot shown last marks it exactly when some
      snapshot from that poll on was accepted or the one shown before already did. */
  lemma SilenceShownIff(sink: RosDiagnosticsSink, cfg: Aggregator.Config, t0: real, before: seq<Turn>,
                        poll: Turn, more: seq<Turn>, node: string)
    requires Fed(sink, cfg, t0, before + [poll] + more) && SilentOf(more, node)
    requires MarkedBy(cfg, t0, before, poll, node)
    ensures var earlier := OffersOf(cfg, t0, before);
      && earlier != [] && earlier < sink.offers
      && (Marks(Shown(sink), node)
          <==> AcceptedSince(sink.period, sink.offers, |earlier|)
               || Marks(earlier[Latest(sink.period, earlier)].states, node))
      && (!AcceptedSince(sink.period, sink.offers, |earlier|) ==>
            Shown(sink) == earlier[Latest(sink.period, earlier)].states)
  {
    var earlier, turns := OffersOf(cfg, t0, before), before + [poll];
    LastOfferIsCache(cfg, t0, before);
    NextTurn(cfg, t0, before, poll);
    LaterOffers(cfg, t0, turns, more, node);
    var marking := Offer(CacheAfter(cfg, t0, turns), poll.reading);
    MarkedNext(earlier, earlier, marking, node);
    MarkedThrough(earlier, earlier + [marking], sink.offers, node);
    MarkedShown(sink.period, earlier, sink.offers, node);
  }

  lemma MarkedThrough(a: seq<Offer>, b: seq<Offer>, c: seq<Offer>, node: string)
    requires MarkedFrom(a, b, node) && MarkedFrom(b, c, node) && |a| < |b|
    ensures MarkedFrom(a, c, node) && a < c
  {
    forall j | |a| <= j < |c|
      ensures Marks(c[j].states, node)
    {
      assert j < |b| ==> c[j] == b[j];
    }
  }

  lemma MarkedShown(period: real, earlier: seq<Offer>, offers: seq<Offer>, node: string)
    requires MarkedFrom(earlier, offers, node) && earlier != []
    ensures if AcceptedSince(period, offers, |earlier|) then Marks(offers[Latest(period, offers)].states, node)
            else offers[Latest(period, offers)] == earlier[Latest(period, earlier)]
  {
    assert offers[..|earlier|] == earlier;
    PublishedSinceIff(period, offers, |earlier|);
  }

  /** The poll finds the node in the cache, not yet stale, and marks it. */
  ghost predicate MarkedBy(cfg: Aggregator.Config, t0: real, before: seq<Turn>, poll: Turn, node: string) {
    && node in CacheAfter(cfg, t0, before) && CacheAfter(cfg, t0, before)[node].level != Aggregator.STALE_LEVEL
    && node in CacheAfter(cfg, t0, before + [poll])
    && CacheAfter(cfg, t0, before + [poll])[node].level == Aggregator.STALE_LEVEL
    && poll.event.Polled?
  }

  lemma NoMoreTurns(turns: seq<Turn>)
    ensures turns + [] == turns
  {}

  /** A silent node that ends up stale was marked by one of the polls. */
  lemma {:induction false} MarkingPoll(cfg: Aggregator.Config, t0: real, turns: seq<Turn>, more: seq<Turn>,
                                       node: string)
    returns (k: nat)
    requires node in CacheAfter(cfg, t0, turns) && CacheAfter(cfg, t0, turns)[node].level != Aggregator.STALE_LEVEL
    requires SilentOf(more, node) && node in CacheAfter(cfg, t0, turns + more)
    requires CacheAfter(cfg, t0, turns + more)[node].level == Aggregator.STALE_LEVEL
    ensures k < |more| && MarkedBy(cfg, t0, turns + more[..k], more[k], node)
  {
    if more == [] {
      NoMoreTurns(turns);
      assert false;
    } else {
      var init := more[..|more| - 1];
      TurnsAssoc(turns, more);
      StaysCached(cfg, t0, turns, init, node);
      SilentStep(cfg, t0, turns + init, more[|more| - 1], node);
      if CacheAfter(cfg, t0, turns + init)[node].level == Aggregator.STALE_LEVEL {
        k := MarkingPoll(cfg, t0, turns, init, node);
        assert init[..k] == more[..k];
      } else {
        k := |more| - 1;
      }
    }
  }

  lemma {:induction false} StaysCached(cfg: Aggregator.Config, t0: real, turns: seq<Turn>, more: seq<Turn>,
                                       node: string)
    requires node in CacheAfter(cfg, t0, turns)
    ensures node in CacheAfter(cfg, t0, turns + more)
  {
    if more == [] {
      assert turns + more == turns;
    } else {
      StaysCached(cfg, t0, turns, more[..|more| - 1], node);
      TurnsAssoc(turns, more);
      SilentStep(cfg, t0, turns + more[..|more| - 1], more[|more| - 1], node);
    }
  }

  /** A cached node stays cached, and only a poll changes the entry of a silent one. */
  lemma SilentStep(cfg: Aggregator.Config, t0: real, turns: seq<Turn>, turn: Turn, node: string)
    requires node in CacheAfter(cfg, t0, turns)
    ensures node in CacheAfter(cfg, t0, turns + [turn])
    ensures turn.event.Received? && turn.event.message.node != node ==>
              CacheAfter(cfg, t0, turns + [turn])[node] == CacheAfter(cfg, t0, turns)[node]
  {
    NextTurn(cfg, t0, turns, turn);
  }

  /** A node is silent up to a poll that reads the clock at least timeout + interval past its last message:
      one of the polls up to then has marked it. */
  lemma SilenceIsMarked(cfg: Aggregator.Config, t0: real, turns: seq<Turn>, more: seq<Turn>, node: string)
    returns (k: nat)
    requires Aggregator.Monotone(t0, Events(turns + more)) && cfg.staleTimeout >= 0.0 && cfg.checkInterval > 0.0
    requires node in CacheAfter(cfg, t0, turns) && CacheAfter(cfg, t0, turns)[node].level != Aggregator.STALE_LEVEL
    requires SilentOf(more, node) && more != [] && more[|more| - 1].event.Polled?
    requires node in Aggregator.Replay(cfg, t0, Events(turns + more)).lastSeen
    requires more[|more| - 1].event.time
             >= Aggregator.Replay(cfg, t0, Events(turns + more)).lastSeen[node] + cfg.staleTimeout + cfg.checkInterval
    ensures k < |more| && MarkedBy(cfg, t0, turns + more[..k], more[k], node)
  {
    var all := turns + more;
    assert all[|all| - 1] == more[|more| - 1];
    Aggregator.MarkedByPoll(cfg, t0, Events(all), node);
    k := MarkingPoll(cfg, t0, turns, more, node);
  }

  /** Some offer from number q on comes at least a period after the last publication before it. */
  ghost predicate AcceptedSince(period: real, offers: seq<Offer>, q: nat)
    requires 0 < q <= |offers|
  {
    exists j | q <= j < |offers| :: offers[j].now - offers[Latest(period, offers[..q])].now >= period
  }

  /** The array shows every segment prefix of a node its snapshot marks: at STALE or worse where no message
      occupies the prefix, and at the node's own leaf the stale entry itself, unless another node with the
      same segments and a later name takes the place. */
  lemma MarkedInTree(root: string, states: map<string, Message>, statuses: seq<RosStatus>, node: string, n: nat)
    returns (i: nat)
    requires IsTree(root, states, statuses)
    requires Marks(states, node) && states[node].node == node
    requires 1 <= n <= |Segments(root, node)|
    ensures i < |statuses| && statuses[i].name == PathOf(Segments(root, node), n)
    ensures !Occupied(root, states, statuses[i].name) ==> statuses[i].level >= Aggregator.STALE_LEVEL
    ensures n == |Segments(root, node)| && LastOfItsPath(root, states, node) ==>
              statuses[i] == ToStatus(states[node], LeafPath(root, node))
  {
    var path := PathOf(Segments(root, node), n);
    assert Beneath(root, states[node].node, path);
    assert PathOfSomeNode(root, states, path);
    i :| 0 <= i < |statuses| && statuses[i].name == path;
    assert StatusFor(root, states, statuses[i]);
    if !Occupied(root, states, path) {
      var level :| IsWorst(root, states, path, level) && statuses[i] == ToGroupStatus(path, level);
      assert states[node].level <= level;
    }
    if n == |Segments(root, node)| && LastOfItsPath(root, states, node) {
      var j := WinnerShown(root, states, statuses, node);
      StatusUnique(root, states, statuses[i], statuses[j]);
    }
  }

  /** Once some snapshot from the marking poll on was accepted, every segment prefix of the silent node is
      published: at STALE or worse where no message occupies it, and at the node's own leaf with its own
      stale entry, unless a later node with the same segments takes the place. */
  lemma SilenceReachesTheTree(sink: RosDiagnosticsSink, cfg: Aggregator.Config, t0: real, before: seq<Turn>,
                              poll: Turn, more: seq<Turn>, node: string, n: nat)
    returns (i: nat)
    requires Fed(sink, cfg, t0, before + [poll] + more) && SilentOf(more, node)
    requires MarkedBy(cfg, t0, before, poll, node)
    requires var q := |OffersOf(cfg, t0, before)|;
      0 < q <= |sink.offers| && AcceptedSince(sink.period, sink.offers, q)
    requires 1 <= n <= |Segments(sink.root, node)|
    ensures Marks(Shown(sink), node) && sink.published != [] && i < |LastArray(sink)|
    ensures LastArray(sink)[i].name == PathOf(Segments(sink.root, node), n)
    ensures !Occupied(sink.root, Shown(sink), LastArray(sink)[i].name) ==>
              LastArray(sink)[i].level >= Aggregator.STALE_LEVEL
    ensures n == |Segments(sink.root, node)| ==>
              || LastArray(sink)[i] == ToStatus(Shown(sink)[node], LeafPath(sink.root, node))
              || exists k | k in Shown(sink) :: Segments(sink.root, k) == Segments(sink.root, node) && Less(node, k)
  {
    SilenceShownIff(sink, cfg, t0, before, poll, more, node);
    LastShown(sink);
    ShownOwnNames(sink, cfg, t0, before + [poll] + more, node);
    i := MarkedInTree(sink.root, Shown(sink), LastArray(sink), node, n);
    if !LastOfItsPath(sink.root, Shown(sink), node) {
      var k := LaterNode(sink.root, Shown(sink), node);
      ShownOwnNames(sink, cfg, t0, before + [poll] + more, k);
    }
  }

  /** A silent node that is last of its path: the status published at its leaf is at STALE exactly when some
      snapshot from the marking poll on was accepted or the one shown before already marked it. */
  lemma SilencePublishedIff(sink: RosDiagnosticsSink, cfg: Aggregator.Config, t0: real, before: seq<Turn>,
                            poll: Turn, more: seq<Turn>, node: string)
    returns (i: nat)
    requires Fed(sink, cfg, t0, before + [poll] + more) && SilentOf(more, node)
    requires MarkedBy(cfg, t0, before, poll, node)
    requires sink.offers != [] && LastOfItsPath(sink.root, Shown(sink), node)
    ensures sink.published != [] && i < |LastArray(sink)| && LastArray(sink)[i].name == LeafPath(sink.root, node)
    ensures var earlier := OffersOf(cfg, t0, before);
      && earlier != [] && |earlier| <= |sink.offers|
      && (LastArray(sink)[i].level == Aggregator.STALE_LEVEL
          <==> AcceptedSince(sink.period, sink.offers, |earlier|)
               || Marks(earlier[Latest(sink.period, earlier)].states, node))
  {
    SilenceShownIff(sink, cfg, t0, before, poll, more, node);
    LastShown(sink);
    ShownOwnNames(sink, cfg, t0, before + [poll] + more, node);
    i := WinnerShown(sink.root, Shown(sink), LastArray(sink), node);
  }

  lemma {:induction false} OffersOwnNames(cfg: Aggregator.Config, t0: real, turns: seq<Turn>, node: string)
    ensures forall j | 0 <= j < |OffersOf(cfg, t0, turns)| && node in OffersOf(cfg, t0, turns)[j].states ::
              OffersOf(cfg, t0, turns)[j].states[node].node == node
  {
    if turns == [] {
    } else {
      var init, last := turns[..|turns| - 1], turns[|turns| - 1];
      assert turns == init + [last];
      OffersOwnNames(cfg, t0, init, node);
      OfferedIs(cfg, t0, init, last);
      if node in CacheAfter(cfg, t0, turns) {
        CachedUnderOwnName(cfg, t0, Events(turns), node);
      }
    }
  }

  lemma ShownOwnNames(sink: RosDiagnosticsSink, cfg: Aggregator.Config, t0: real, turns: seq<Turn>, node: string)
    requires Fed(sink, cfg, t0, turns) && sink.offers != [] && node in Shown(sink)
    ensures Shown(sink)[node].node == node
  {
    OffersOwnNames(cfg, t0, turns, node);
  }

  // ---------------------------------------------------------------- a lost snapshot is never offered again

  ghost predicate AllStale(states: map<string, Message>) {
    forall node | node in states :: states[node].level == Aggregator.STALE_LEVEL
  }

  /** When every entry is stale, polls change and offer nothing, however many there are: a dropped snapshot
      stays lost until the next message. */
  lemma {:induction false} NothingOfferedAgain(cfg: Aggregator.Config, t0: real, turns: seq<Turn>, polls: seq<Turn>)
    requires Quiet(polls) && AllStale(CacheAfter(cfg, t0, turns))
    ensures CacheAfter(cfg, t0, turns + polls) == CacheAfter(cfg, t0, turns)
    ensures OffersOf(cfg, t0, turns + polls) == OffersOf(cfg, t0, turns)
  {
    if polls == [] {
      assert turns + polls == turns;
    } else {
      var init, last := polls[..|polls| - 1], polls[|polls| - 1];
      NothingOfferedAgain(cfg, t0, turns, init);
      TurnsAssoc(turns, polls);
      NextTurn(cfg, t0, turns + init, last);
      PollChangesNothing(cfg, Aggregator.Replay(cfg, t0, Events(turns + init)), last.event);
      assert OffersOf(cfg, t0, turns + init) + [] == OffersOf(cfg, t0, turns + init);
    }
  }

  lemma PollChangesNothing(cfg: Aggregator.Config, s: Aggregator.State, e: Aggregator.Event)
    requires Aggregator.SameKeys(s) && AllStale(s.cache) && e.Polled?
    ensures Aggregator.Step(cfg, s, e).cache == s.cache
  {}

  /** Such a run: a node reports OK once and falls silent, with a timeout of 5, a check every second and a
      publication at most every 10. The poll at 6 marks it, its snapshot is dropped, and whatever polls
      follow the published array shows the node at OK for ever. */
  lemma OkForEver(sink: RosDiagnosticsSink, m: Message, polls: seq<Turn>) returns (i: nat)
    requires m.level == 0 && sink.period == 10.0 && Quiet(polls)
    requires Fed(sink, Aggregator.Config(5.0, 1.0), 0.0,
                 [Turn(Aggregator.Received(m, 0.0), 0.0), Turn(Aggregator.Polled(6.0), 6.0)] + polls)
    ensures var cache := CacheAfter(Aggregator.Config(5.0, 1.0), 0.0,
                [Turn(Aggregator.Received(m, 0.0), 0.0), Turn(Aggregator.Polled(6.0), 6.0)] + polls);
      m.node in cache && cache[m.node].level == Aggregator.STALE_LEVEL
    ensures sink.published != [] && i < |LastArray(sink)|
    ensures LastArray(sink)[i] == ToStatus(m, LeafPath(sink.root, m.node))
  {
    OkHistory(m, polls);
    FirstShown(sink, Offer(map[m.node := m], 0.0), Offer(map[m.node := Aggregator.Stale(m, 6.0)], 6.0));
    i := OnlyMessageShown(sink.root, m, LastArray(sink));
  }

  lemma OnlyMessageShown(root: string, m: Message, statuses: seq<RosStatus>) returns (i: nat)
    requires IsTree(root, map[m.node := m], statuses)
    ensures i < |statuses| && statuses[i] == ToStatus(m, LeafPath(root, m.node))
  {
    assert m.node in map[m.node := m];
    i := WinnerShown(root, map[m.node := m], statuses, m.node);
  }

  lemma FirstShown(sink: RosDiagnosticsSink, a: Offer, b: Offer)
    requires sink.Valid() && sink.offers == [a, b] && b.now - a.now < sink.period
    ensures sink.published != [] && IsTree(sink.root, a.states, LastArray(sink))
  {
    LastShown(sink);
    assert [a, b][..1] == [a] && [a][..0] == [];
  }

  lemma OkHistory(m: Message, polls: seq<Turn>)
    requires m.level == 0 && Quiet(polls)
    ensures var cfg, turns := Aggregator.Config(5.0, 1.0),
                [Turn(Aggregator.Received(m, 0.0), 0.0), Turn(Aggregator.Polled(6.0), 6.0)] + polls;
      && CacheAfter(cfg, 0.0, turns) == map[m.node := Aggregator.Stale(m, 6.0)]
      && OffersOf(cfg, 0.0, turns)
         == [Offer(map[m.node := m], 0.0), Offer(map[m.node := Aggregator.Stale(m, 6.0)], 6.0)]
  {
    OkThenStale(m);
    NothingOfferedAgain(Aggregator.Config(5.0, 1.0), 0.0,
                        [Turn(Aggregator.Received(m, 0.0), 0.0), Turn(Aggregator.Polled(6.0), 6.0)], polls);
  }

  lemma OkThenStale(m: Message)
    requires m.level == 0
    ensures var cfg, turns := Aggregator.Config(5.0, 1.0),
                              [Turn(Aggregator.Received(m, 0.0), 0.0), Turn(Aggregator.Polled(6.0), 6.0)];
      && CacheAfter(cfg, 0.0, turns) == map[m.node := Aggregator.Stale(m, 6.0)]
      && OffersOf(cfg, 0.0, turns)
         == [Offer(map[m.node := m], 0.0), Offer(map[m.node := Aggregator.Stale(m, 6.0)], 6.0)]
  {
    var cfg, first := Aggregator.Config(5.0, 1.0), Turn(Aggregator.Received(m, 0.0), 0.0);
    var second := Turn(Aggregator.Polled(6.0), 6.0);
    OkFirst(m);
    NextTurn(cfg, 0.0, [first], second);
    assert [first] + [second] == [first, second];
    assert m.node in map[m.node := m];
    assert Aggregator.Step(cfg, Aggregator.State(map[m.node := m], map[m.node := 0.0], 0.0), second.event).cache
        == map[m.node := Aggregator.Stale(m, 6.0)];
    assert Aggregator.Stale(m, 6.0).level == 3 && m.level == 0;
    assert map[m.node := Aggregator.Stale(m, 6.0)][m.node] != map[m.node := m][m.node];
  }

  lemma OkFirst(m: Message)
    ensures var cfg, turns := Aggregator.Config(5.0, 1.0), [Turn(Aggregator.Received(m, 0.0), 0.0)];
      && Aggregator.Replay(cfg, 0.0, Events(turns)) == Aggregator.State(map[m.node := m], map[m.node := 0.0], 0.0)
      && OffersOf(cfg, 0.0, turns) == [Offer(map[m.node := m], 0.0)]
  {
    var cfg, first := Aggregator.Config(5.0, 1.0), Turn(Aggregator.Received(m, 0.0), 0.0);
    NextTurn(cfg, 0.0, [], first);
    assert [] + [first] == [first] && Events([]) == [];
  }
}
