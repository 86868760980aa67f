/** When does the published tree show that everything is stale? A condition on three configuration values and
    on how late the sink reads its clock. */
module StaleVisibility {
  import Aggregator
  import opened Messages
  import opened Paths
  import opened Pipeline
  import opened RosSink

  /** The runs considered. The sink reads its clock up to `lag` after the aggregator has read its own, because
      every sink before it takes its time. In a serial run no turn starts before the sink's reading of the turn
      before, as one thread does it. With `ownStale` a node may send the stale level itself. */
  datatype Runs = Runs(lag: real, serial: bool, ownStale: bool)

  /** Neither clock runs backwards. */
  ghost predicate Admissible(runs: Runs, t0: real, offset: real, turns: seq<Turn>) {
    && Aggregator.Monotone(t0, Events(turns))
    && (forall i | 0 <= i < |turns| :: Timed(runs, turns[i], offset))
    && forall i, j | 0 <= i < j < |turns| :: Follows(runs, turns[i], turns[j], offset)
  }

  /** The clocks differ by an offset, and the sink's is read late by any amount up to the lag. */
  predicate Timed(runs: Runs, turn: Turn, offset: real) {
    && turn.event.time + offset <= turn.reading <= turn.event.time + offset + runs.lag
    && (!runs.ownStale && turn.event.Received? ==> turn.event.message.level != Aggregator.STALE_LEVEL)
  }

  predicate Follows(runs: Runs, earlier: Turn, later: Turn, offset: real) {
    earlier.reading <= later.reading && (runs.serial ==> earlier.reading <= later.event.time + offset)
  }

  /** No node sends the stale level, and the publication period leaves room for the lag within the check
      interval and within the timeout. (A period that is not positive is no limit at all.) */
  predicate Fits(cfg: Aggregator.Config, runs: Runs, period: real) {
    || period <= 0.0
    || (!runs.ownStale && period + runs.lag <= cfg.checkInterval && period + runs.lag <= cfg.staleTimeout)
  }

  /** The snapshot accepted last. */
  function ShownOf(period: real, offers: seq<Offer>): map<string, Message>
    requires offers != []
  {
    offers[Latest(period, offers)].states
  }

  /** On every admissible run, whenever every cached entry is stale the published tree is that of the cache. */
  ghost predicate StaleShown(cfg: Aggregator.Config, runs: Runs, period: real, root: string) {
    forall t0, offset, turns |
      && Admissible(runs, t0, offset, turns) && OffersOf(cfg, t0, turns) != []
      && AllStale(CacheAfter(cfg, t0, turns)) ::
      SameTree(root, ShownOf(period, OffersOf(cfg, t0, turns)), CacheAfter(cfg, t0, turns))
  }

  // ---------------------------------------------------------------- a period that fits

  /** Either the cache is shown and was published by the latest check, or some entry is not stale and was
      heard of after the latest publication: `late` is how far the sink's reading is ahead of the aggregator's
      at most. */
  ghost predicate Pending(s: Aggregator.State, period: real, late: real, offers: seq<Offer>)
    requires Aggregator.SameKeys(s)
  {
    offers != [] ==>
      var published := offers[Latest(period, offers)].now - late;
      || (ShownOf(period, offers) == s.cache && published <= s.lastCheck)
      || exists n | n in s.cache :: s.cache[n].level != Aggregator.STALE_LEVEL && published <= s.lastSeen[n]
  }

  lemma ReceivedKeeps(cfg: Aggregator.Config, s: Aggregator.State, period: real, late: real, offers: seq<Offer>,
                      m: Message, t: real, reading: real)
    requires Aggregator.SameKeys(s) && m.level != Aggregator.STALE_LEVEL && reading <= t + late
    requires offers != [] ==> offers[Latest(period, offers)].now <= t + late
    ensures var s' := Aggregator.Step(cfg, s, Aggregator.Received(m, t));
      Pending(s', period, late, offers + [Offer(s'.cache, reading)])
  {
    var s' := Aggregator.Step(cfg, s, Aggregator.Received(m, t));
    OfferSnoc(period, offers, Offer(s'.cache, reading));
    assert m.node in s'.cache && s'.cache[m.node] == m && s'.lastSeen[m.node] == t;
  }

  /** A check that changes the cache is published, or leaves an entry that is not stale. */
  lemma PolledKeeps(cfg: Aggregator.Config, s: Aggregator.State, period: real, late: real, lag: real,
                    offers: seq<Offer>, now: real, reading: real)
    requires Aggregator.SameKeys(s) && Pending(s, period, late, offers)
    requires 0.0 <= lag && 0.0 < period && period + lag <= cfg.checkInterval && period + lag <= cfg.staleTimeout
    requires now + late - lag <= reading <= now + late
    requires offers == [] ==> s.cache == map[]
    ensures var s' := Aggregator.Step(cfg, s, Aggregator.Polled(now));
      Pending(s', period, late, offers + (if s'.cache != s.cache then [Offer(s'.cache, reading)] else []))
  {
    var s' := Aggregator.Step(cfg, s, Aggregator.Polled(now));
    if s'.cache == s.cache {
      assert offers + [] == offers;
      UnchangedKeeps(cfg, s, period, late, offers, now);
    } else {
      assert offers != [];
      OfferSnoc(period, offers, Offer(s'.cache, reading));
      var published := offers[Latest(period, offers)].now - late;
      if !(ShownOf(period, offers) == s.cache && published <= s.lastCheck) {
        var n :| n in s.cache && s.cache[n].level != Aggregator.STALE_LEVEL && published <= s.lastSeen[n];
        assert n in s'.cache && (now - s.lastSeen[n] <= cfg.staleTimeout ==> s'.cache[n] == s.cache[n]);
      }
    }
  }

  lemma UnchangedKeeps(cfg: Aggregator.Config, s: Aggregator.State, period: real, late: real, offers: seq<Offer>,
                       now: real)
    requires Aggregator.SameKeys(s) && Pending(s, period, late, offers) && cfg.checkInterval > 0.0
    requires Aggregator.Step(cfg, s, Aggregator.Polled(now)).cache == s.cache
    ensures Pending(Aggregator.Step(cfg, s, Aggregator.Polled(now)), period, late, offers)
  {
    if offers != [] {
      var published := offers[Latest(period, offers)].now - late;
      if !(ShownOf(period, offers) == s.cache && published <= s.lastCheck) {
        var n :| n in s.cache && s.cache[n].level != Aggregator.STALE_LEVEL && published <= s.lastSeen[n];
        assert n in Aggregator.Step(cfg, s, Aggregator.Polled(now)).cache;
      }
    }
  }

  /** Offers carry the readings of their turns. */
  lemma {:induction false} OffersTimed(cfg: Aggregator.Config, t0: real, turns: seq<Turn>, bound: real)
    requires forall i | 0 <= i < |turns| :: turns[i].reading <= bound
    ensures forall j | 0 <= j < |OffersOf(cfg, t0, turns)| :: OffersOf(cfg, t0, turns)[j].now <= bound
  {
    if turns == [] {
    } else {
      var init, last := turns[..|turns| - 1], turns[|turns| - 1];
      assert turns == init + [last];
      OffersTimed(cfg, t0, init, bound);
      NextTurn(cfg, t0, init, last);
    }
  }

  lemma Shorter(runs: Runs, t0: real, offset: real, init: seq<Turn>, last: Turn)
    requires Admissible(runs, t0, offset, init + [last])
    ensures Admissible(runs, t0, offset, init) && Timed(runs, last, offset)
    ensures forall i | 0 <= i < |init| :: init[i].reading <= last.reading
  {
    var turns := init + [last];
    assert Timed(runs, turns[|init|], offset);
    forall i | 0 <= i < |init|
      ensures Timed(runs, init[i], offset) && init[i].reading <= last.reading
      ensures Events(turns)[i] == Events(init)[i]
    {
      assert Timed(runs, turns[i], offset) && Follows(runs, turns[i], turns[|init|], offset);
    }
    forall i, j | 0 <= i < j < |init|
      ensures Follows(runs, init[i], init[j], offset)
    {
      assert Follows(runs, turns[i], turns[j], offset);
    }
  }

  lemma {:induction false} AlwaysPending(cfg: Aggregator.Config, runs: Runs, period: real, t0: real, offset: real,
                                         turns: seq<Turn>)
    requires runs.lag >= 0.0 && Admissible(runs, t0, offset, turns)
    requires Fits(cfg, runs, period) && period > 0.0
    ensures Pending(Aggregator.Replay(cfg, t0, Events(turns)), period, offset + runs.lag, OffersOf(cfg, t0, turns))
  {
    if turns == [] {
    } else {
      var init, last := turns[..|turns| - 1], turns[|turns| - 1];
      assert turns == init + [last];
      Shorter(runs, t0, offset, init, last);
      AlwaysPending(cfg, runs, period, t0, offset, init);
      OffersTimed(cfg, t0, init, last.reading);
      LastOfferIsCache(cfg, t0, init);
      NextTurn(cfg, t0, init, last);
      TurnKeeps(cfg, runs, Aggregator.Replay(cfg, t0, Events(init)), period, offset, OffersOf(cfg, t0, init), last);
    }
  }

  lemma TurnKeeps(cfg: Aggregator.Config, runs: Runs, s: Aggregator.State, period: real, offset: real,
                  offers: seq<Offer>, turn: Turn)
    requires Aggregator.SameKeys(s) && Pending(s, period, offset + runs.lag, offers)
    requires runs.lag >= 0.0 && Fits(cfg, runs, period) && period > 0.0 && Timed(runs, turn, offset)
    requires offers == [] ==> s.cache == map[]
    requires forall j | 0 <= j < |offers| :: offers[j].now <= turn.reading
    ensures var s' := Aggregator.Step(cfg, s, turn.event);
      Pending(s', period, offset + runs.lag,
              offers + (if turn.event.Received? || s'.cache != s.cache then [Offer(s'.cache, turn.reading)] else []))
  {
    match turn.event
    case Received(m, t) => ReceivedKeeps(cfg, s, period, offset + runs.lag, offers, m, t, turn.reading);
    case Polled(now) => PolledKeeps(cfg, s, period, offset + runs.lag, runs.lag, offers, now, turn.reading);
  }

  /** Without a limit every offer is published. */
  lemma {:induction false} AlwaysLatest(cfg: Aggregator.Config, runs: Runs, period: real, t0: real, offset: real,
                                        turns: seq<Turn>)
    requires Admissible(runs, t0, offset, turns) && period <= 0.0
    ensures Latest(period, OffersOf(cfg, t0, turns)) == |OffersOf(cfg, t0, turns)| - 1
  {
    if turns == [] {
    } else {
      var init, last := turns[..|turns| - 1], turns[|turns| - 1];
      assert turns == init + [last];
      Shorter(runs, t0, offset, init, last);
      AlwaysLatest(cfg, runs, period, t0, offset, init);
      OffersTimed(cfg, t0, init, last.reading);
      NextTurn(cfg, t0, init, last);
      var offers := OffersOf(cfg, t0, init);
      assert offers + [] == offers;
      OfferSnoc(period, offers, Offer(CacheAfter(cfg, t0, turns), last.reading));
    }
  }

  /** With a period that fits, a cache that is all stale is the snapshot shown. */
  lemma ShownWhenStale(cfg: Aggregator.Config, runs: Runs, period: real, t0: real, offset: real, turns: seq<Turn>)
    requires runs.lag >= 0.0 && Fits(cfg, runs, period) && Admissible(runs, t0, offset, turns)
    requires OffersOf(cfg, t0, turns) != [] && AllStale(CacheAfter(cfg, t0, turns))
    ensures ShownOf(period, OffersOf(cfg, t0, turns)) == CacheAfter(cfg, t0, turns)
  {
    LastOfferIsCache(cfg, t0, turns);
    if period <= 0.0 {
      AlwaysLatest(cfg, runs, period, t0, offset, turns);
    } else {
      AlwaysPending(cfg, runs, period, t0, offset, turns);
    }
  }

  // ---------------------------------------------------------------- a period that does not

  /** Two snapshots with different levels for the last key of a path have different trees. */
  lemma DifferAt(root: string, a: map<string, Message>, b: map<string, Message>, k: string)
    requires LastOfItsPath(root, a, k) && LastOfItsPath(root, b, k)
    requires a[k].node == b[k].node && a[k].level != b[k].level
    ensures !SameTree(root, a, b)
  {
    var path := LeafPath(root, a[k].node);
    var status := ToStatus(a[k], path);
    LeafStatus(root, a, k);
    LeafStatus(root, b, k);
    if StatusFor(root, b, status) {
      StatusUnique(root, b, status, ToStatus(b[k], path));
    }
  }

  lemma LeafStatus(root: string, states: map<string, Message>, k: string)
    requires LastOfItsPath(root, states, k)
    ensures var path := LeafPath(root, states[k].node);
      StatusFor(root, states, ToStatus(states[k], path)) && PathOfSomeNode(root, states, path)
  {
    var path := LeafPath(root, states[k].node);
    LeafBeneath(root, states[k].node);
    WinsIff(root, states, path, k);
    assert Occupied(root, states, path);
  }

  /** An OK message. */
  function Fine(node: string): Message { Message(1, node, "", 0.0, 0, "", []) }

  lemma OneKeyLast(root: string, k: string, m: Message)
    ensures LastOfItsPath(root, map[k := m], k)
  {
    assert k in map[k := m];
  }

  lemma TwoKeysLast(root: string, a: Message, b: Message)
    requires a.node == "a" && b.node == "b"
    ensures LastOfItsPath(root, map["a" := a, "b" := b], "b")
  {
    var states := map["a" := a, "b" := b];
    assert "b" in states && forall k | k in states :: k == "a" || k == "b";
    DifferentSegments(root);
  }

  lemma DifferentSegments(root: string)
    ensures Segments(root, "a") != Segments(root, "b")
  {
    PiecesOfSegment("a");
    PiecesOfSegment("b");
    assert Strip("a") == "a" && Strip("b") == "b";
    assert ["a"][1..] == [] && ["b"][1..] == [];
    assert |[root] + []| == 1 && |[root] + ["a"]| == 2 && ([root] + ["a"])[1] == "a" && ([root] + ["b"])[1] == "b";
  }

  lemma NotShown(cfg: Aggregator.Config, runs: Runs, period: real, root: string, turns: seq<Turn>)
    requires Admissible(runs, 0.0, 0.0, turns) && OffersOf(cfg, 0.0, turns) != []
    requires AllStale(CacheAfter(cfg, 0.0, turns))
    requires !SameTree(root, ShownOf(period, OffersOf(cfg, 0.0, turns)), CacheAfter(cfg, 0.0, turns))
    ensures !StaleShown(cfg, runs, period, root)
  {}

  /** An OK message at time s that the sink gets late, and a turn that it gets at once. */
  function OneNode(s: real, lag: real, event: Aggregator.Event): seq<Turn> {
    [Turn(Aggregator.Received(Fine("a"), s), s + lag), Turn(event, event.time)]
  }

  lemma FirstMessage(cfg: Aggregator.Config, s: real, reading: real)
    ensures var turns := [Turn(Aggregator.Received(Fine("a"), s), reading)];
      && Aggregator.Replay(cfg, 0.0, Events(turns)) == Aggregator.State(map["a" := Fine("a")], map["a" := s], 0.0)
      && OffersOf(cfg, 0.0, turns) == [Offer(map["a" := Fine("a")], reading)]
  {
    var first := Turn(Aggregator.Received(Fine("a"), s), reading);
    NextTurn(cfg, 0.0, [], first);
    assert [] + [first] == [first] && Events([]) == [];
  }

  lemma LatestOfTwo(period: real, a: Offer, b: Offer)
    requires b.now - a.now < period
    ensures Latest(period, [a, b]) == 0
  {
    assert [a, b][..1] == [a] && [a][..0] == [];
  }

  /** A second turn that makes the only node stale while the sink still holds back: its snapshot is lost. */
  lemma OneNodeLost(cfg: Aggregator.Config, runs: Runs, period: real, root: string, s: real, event: Aggregator.Event,
                    stale: Message)
    requires runs.lag >= 0.0 && s >= 0.0 && s + runs.lag <= event.time < s + runs.lag + period
    requires event.Received? ==> runs.ownStale
    requires stale.node == "a" && stale.level == Aggregator.STALE_LEVEL
    requires Aggregator.Step(cfg, Aggregator.State(map["a" := Fine("a")], map["a" := s], 0.0), event).cache
          == map["a" := stale]
    ensures !StaleShown(cfg, runs, period, root)
  {
    var turns, before := OneNode(s, runs.lag, event), map["a" := Fine("a")];
    OneNodeHistory(cfg, s, runs.lag, event, stale);
    LatestOfTwo(period, Offer(before, s + runs.lag), Offer(map["a" := stale], event.time));
    OneNodeDiffers(root, stale);
    OneNodeTimed(runs, s, event);
    NotShown(cfg, runs, period, root, turns);
  }

  lemma OneNodeDiffers(root: string, stale: Message)
    requires stale.node == "a" && stale.level == Aggregator.STALE_LEVEL
    ensures !SameTree(root, map["a" := Fine("a")], map["a" := stale])
  {
    OneKeyLast(root, "a", Fine("a"));
    OneKeyLast(root, "a", stale);
    DifferAt(root, map["a" := Fine("a")], map["a" := stale], "a");
  }

  lemma OneNodeHistory(cfg: Aggregator.Config, s: real, lag: real, event: Aggregator.Event, stale: Message)
    requires stale.level == Aggregator.STALE_LEVEL
    requires Aggregator.Step(cfg, Aggregator.State(map["a" := Fine("a")], map["a" := s], 0.0), event).cache
          == map["a" := stale]
    ensures CacheAfter(cfg, 0.0, OneNode(s, lag, event)) == map["a" := stale]
    ensures OffersOf(cfg, 0.0, OneNode(s, lag, event))
         == [Offer(map["a" := Fine("a")], s + lag), Offer(map["a" := stale], event.time)]
  {
    var first, second := Turn(Aggregator.Received(Fine("a"), s), s + lag), Turn(event, event.time);
    FirstMessage(cfg, s, s + lag);
    NextTurn(cfg, 0.0, [first], second);
    assert [first] + [second] == OneNode(s, lag, event);
    assert map["a" := stale]["a"] != map["a" := Fine("a")]["a"];
  }

  lemma OneNodeTimed(runs: Runs, s: real, event: Aggregator.Event)
    requires runs.lag >= 0.0 && s >= 0.0 && s + runs.lag <= event.time && (event.Received? ==> runs.ownStale)
    ensures Admissible(runs, 0.0, 0.0, OneNode(s, runs.lag, event))
  {}

  /** A period that is longer than the timeout, less the lag: one node is marked while the sink holds back. */
  lemma OneNodeFails(cfg: Aggregator.Config, runs: Runs, period: real, root: string)
    requires runs.lag >= 0.0 && period > 0.0 && period + runs.lag > cfg.staleTimeout
    ensures !StaleShown(cfg, runs, period, root)
  {
    var least := if cfg.staleTimeout < runs.lag then runs.lag else cfg.staleTimeout;
    var wait := (least + runs.lag + period) / 2.0;
    var s := if cfg.checkInterval - wait > 0.0 then cfg.checkInterval - wait else 0.0;
    var stale := Aggregator.Stale(Fine("a"), s + wait);
    OneNodeMarked(cfg, s, s + wait);
    OneNodeLost(cfg, runs, period, root, s, Aggregator.Polled(s + wait), stale);
  }

  lemma OneNodeMarked(cfg: Aggregator.Config, s: real, now: real)
    requires now - s > cfg.staleTimeout && now >= cfg.checkInterval
    ensures Aggregator.Step(cfg, Aggregator.State(map["a" := Fine("a")], map["a" := s], 0.0),
                            Aggregator.Polled(now)).cache
         == map["a" := Aggregator.Stale(Fine("a"), now)]
  {
    assert "a" in map["a" := Fine("a")];
  }

  /** When nodes may send the stale level, every positive period fails: an OK message, and one at the stale
      level behind it. */
  lemma OwnStaleFails(cfg: Aggregator.Config, runs: Runs, period: real, root: string)
    requires runs.lag >= 0.0 && period > 0.0 && runs.ownStale
    ensures !StaleShown(cfg, runs, period, root)
  {
    var stale := Fine("a").(level := Aggregator.STALE_LEVEL);
    OneNodeLost(cfg, runs, period, root, 0.0, Aggregator.Received(stale, runs.lag + period / 2.0), stale);
  }

  /** Two messages, and two polls that mark them one by one. The sink gets the first poll's snapshot late. */
  function TwoMessages(delay: real): seq<Turn> {
    [Turn(Aggregator.Received(Fine("a"), 0.0), 0.0), Turn(Aggregator.Received(Fine("b"), delay), delay)]
  }

  function TwoNodes(delay: real, lag: real, first: real, second: real): seq<Turn> {
    TwoMessages(delay) + [Turn(Aggregator.Polled(first), first + lag)] + [Turn(Aggregator.Polled(second), second)]
  }

  lemma SecondMessage(cfg: Aggregator.Config, delay: real)
    ensures Aggregator.Replay(cfg, 0.0, Events(TwoMessages(delay)))
         == Aggregator.State(map["a" := Fine("a"), "b" := Fine("b")], map["a" := 0.0, "b" := delay], 0.0)
    ensures OffersOf(cfg, 0.0, TwoMessages(delay))
         == [Offer(map["a" := Fine("a")], 0.0), Offer(map["a" := Fine("a"), "b" := Fine("b")], delay)]
  {
    var first := Turn(Aggregator.Received(Fine("a"), 0.0), 0.0);
    var second := Turn(Aggregator.Received(Fine("b"), delay), delay);
    FirstMessage(cfg, 0.0, 0.0);
    NextTurn(cfg, 0.0, [first], second);
    assert TwoMessages(delay) == [first] + [second];
  }

  lemma FirstMark(cfg: Aggregator.Config, delay: real, lag: real, first: real)
    requires first > cfg.staleTimeout >= first - delay && first >= cfg.checkInterval
    ensures var turns, a := TwoMessages(delay) + [Turn(Aggregator.Polled(first), first + lag)],
                            Aggregator.Stale(Fine("a"), first);
      && Aggregator.Replay(cfg, 0.0, Events(turns))
         == Aggregator.State(map["a" := a, "b" := Fine("b")], map["a" := 0.0, "b" := delay], first)
      && OffersOf(cfg, 0.0, turns)
         == OffersOf(cfg, 0.0, TwoMessages(delay)) + [Offer(map["a" := a, "b" := Fine("b")], first + lag)]
  {
    SecondMessage(cfg, delay);
    FirstCheck(cfg, delay, first);
    NextTurn(cfg, 0.0, TwoMessages(delay), Turn(Aggregator.Polled(first), first + lag));
  }

  lemma FirstCheck(cfg: Aggregator.Config, delay: real, first: real)
    requires first > cfg.staleTimeout >= first - delay && first >= cfg.checkInterval
    ensures var states, seen := map["a" := Fine("a"), "b" := Fine("b")], map["a" := 0.0, "b" := delay];
      var marked := map["a" := Aggregator.Stale(Fine("a"), first), "b" := Fine("b")];
      && Aggregator.Step(cfg, Aggregator.State(states, seen, 0.0), Aggregator.Polled(first))
         == Aggregator.State(marked, seen, first)
      && marked != states
  {
    CheckMarks(cfg, Fine("a"), Fine("b"), 0.0, delay, 0.0, first);
  }

  /** A check over two entries marks each on its own. */
  lemma CheckMarks(cfg: Aggregator.Config, a: Message, b: Message, seenA: real, seenB: real, last: real, now: real)
    requires now - last >= cfg.checkInterval
    ensures var states, seen := map["a" := a, "b" := b], map["a" := seenA, "b" := seenB];
      var a', b' := Aggregator.MarkOne(cfg, a, seenA, now), Aggregator.MarkOne(cfg, b, seenB, now);
      && Aggregator.Step(cfg, Aggregator.State(states, seen, last), Aggregator.Polled(now))
         == Aggregator.State(map["a" := a', "b" := b'], seen, now)
      && (map["a" := a', "b" := b'] == states <==> a' == a && b' == b)
  {
    var states := map["a" := a, "b" := b];
    var a', b' := Aggregator.MarkOne(cfg, a, seenA, now), Aggregator.MarkOne(cfg, b, seenB, now);
    assert "a" in states && "b" in states;
    assert map["a" := a', "b" := b']["a"] == a' && map["a" := a', "b" := b']["b"] == b';
  }

  /** The second mark comes at the next check. */
  lemma SecondMark(cfg: Aggregator.Config, delay: real, lag: real, first: real, second: real)
    requires first > cfg.staleTimeout >= first - delay && first >= cfg.checkInterval
    requires second - delay > cfg.staleTimeout && second - first >= cfg.checkInterval
    ensures var turns, a, b := TwoNodes(delay, lag, first, second), Aggregator.Stale(Fine("a"), first),
                               Aggregator.Stale(Fine("b"), second);
      && CacheAfter(cfg, 0.0, turns) == map["a" := a, "b" := b]
      && OffersOf(cfg, 0.0, turns)
         == OffersOf(cfg, 0.0, TwoMessages(delay)) + [Offer(map["a" := a, "b" := Fine("b")], first + lag)]
            + [Offer(map["a" := a, "b" := b], second)]
  {
    FirstMark(cfg, delay, lag, first);
    CheckMarks(cfg, Aggregator.Stale(Fine("a"), first), Fine("b"), 0.0, delay, first, second);
    NextTurn(cfg, 0.0, TwoMessages(delay) + [Turn(Aggregator.Polled(first), first + lag)],
             Turn(Aggregator.Polled(second), second));
  }

  lemma TwoNodesTimed(runs: Runs, delay: real, first: real, second: real)
    requires runs.lag >= 0.0 && 0.0 <= delay <= first && first + runs.lag <= second
    ensures Admissible(runs, 0.0, 0.0, TwoNodes(delay, runs.lag, first, second))
  {}

  lemma LatestOfFour(period: real, a: Offer, b: Offer, c: Offer, d: Offer)
    requires b.now - a.now < period <= c.now - a.now && d.now - c.now < period
    ensures Latest(period, [a, b] + [c] + [d]) == 2
  {
    LatestOfTwo(period, a, b);
    OfferSnoc(period, [a, b], c);
    OfferSnoc(period, [a, b] + [c], d);
  }

  lemma TwoNodesShown(cfg: Aggregator.Config, period: real, delay: real, lag: real, first: real, second: real)
    requires first > cfg.staleTimeout >= first - delay && first >= cfg.checkInterval
    requires second - delay > cfg.staleTimeout && second - first >= cfg.checkInterval
    requires delay < period <= first + lag && second - (first + lag) < period
    ensures OffersOf(cfg, 0.0, TwoNodes(delay, lag, first, second)) != []
    ensures ShownOf(period, OffersOf(cfg, 0.0, TwoNodes(delay, lag, first, second)))
         == map["a" := Aggregator.Stale(Fine("a"), first), "b" := Fine("b")]
  {
    var a, b := Aggregator.Stale(Fine("a"), first), Aggregator.Stale(Fine("b"), second);
    SecondMessage(cfg, delay);
    SecondMark(cfg, delay, lag, first, second);
    LatestOfFour(period, Offer(map["a" := Fine("a")], 0.0), Offer(map["a" := Fine("a"), "b" := Fine("b")], delay),
                 Offer(map["a" := a, "b" := Fine("b")], first + lag), Offer(map["a" := a, "b" := b], second));
  }

  lemma TwoNodesLost(cfg: Aggregator.Config, runs: Runs, period: real, root: string, delay: real, first: real,
                     second: real)
    requires first > cfg.staleTimeout >= first - delay && first >= cfg.checkInterval
    requires second - delay > cfg.staleTimeout && second - first >= cfg.checkInterval
    requires 0.0 <= delay < period <= first && runs.lag >= 0.0
    requires first + runs.lag <= second < first + runs.lag + period
    ensures !StaleShown(cfg, runs, period, root)
  {
    var turns := TwoNodes(delay, runs.lag, first, second);
    TwoNodesShown(cfg, period, delay, runs.lag, first, second);
    SecondMark(cfg, delay, runs.lag, first, second);
    TwoNodesTimed(runs, delay, first, second);
    var a, b := Aggregator.Stale(Fine("a"), first), Aggregator.Stale(Fine("b"), second);
    LostMark(root, a, b);
    BothStale(a, b);
    NotShown(cfg, runs, period, root, turns);
  }

  lemma BothStale(a: Message, b: Message)
    requires a.level == b.level == Aggregator.STALE_LEVEL
    ensures AllStale(map["a" := a, "b" := b])
  {}

  lemma LostMark(root: string, a: Message, b: Message)
    requires a.node == "a" && b.node == "b" && b.level != 0
    ensures !SameTree(root, map["a" := a, "b" := Fine("b")], map["a" := a, "b" := b])
  {
    TwoKeysLast(root, a, Fine("b"));
    TwoKeysLast(root, a, b);
    DifferAt(root, map["a" := a, "b" := Fine("b")], map["a" := a, "b" := b], "b");
  }

  /** A period that is longer than the check interval, less the lag: two nodes are marked at successive checks,
      and the second mark comes while the sink holds back. */
  lemma TwoNodesFail(cfg: Aggregator.Config, runs: Runs, period: real, root: string)
    requires runs.lag >= 0.0 && period > 0.0
    requires period + runs.lag > cfg.checkInterval && period + runs.lag <= cfg.staleTimeout
    ensures !StaleShown(cfg, runs, period, root)
  {
    var least := if cfg.checkInterval < runs.lag then runs.lag else cfg.checkInterval;
    var gap := (least + runs.lag + period) / 2.0;
    var first := cfg.staleTimeout + period / 2.0;
    TwoNodesLost(cfg, runs, period, root, period / 2.0, first, first + gap);
  }

  // ---------------------------------------------------------------- the condition

  /** Every admissible run shows a cache that is all stale exactly when the publication period fits, for runs
      of one thread as for all others. */
  lemma StaleShownIff(cfg: Aggregator.Config, runs: Runs, period: real, root: string)
    requires runs.lag >= 0.0
    ensures StaleShown(cfg, runs, period, root) <==> Fits(cfg, runs, period)
  {
    if Fits(cfg, runs, period) {
      forall t0, offset, turns |
        && Admissible(runs, t0, offset, turns) && OffersOf(cfg, t0, turns) != []
        && AllStale(CacheAfter(cfg, t0, turns))
        ensures SameTree(root, ShownOf(period, OffersOf(cfg, t0, turns)), CacheAfter(cfg, t0, turns))
      {
        ShownWhenStale(cfg, runs, period, t0, offset, turns);
      }
    } else if runs.ownStale {
      OwnStaleFails(cfg, runs, period, root);
    } else if period + runs.lag > cfg.staleTimeout {
      OneNodeFails(cfg, runs, period, root);
    } else {
      TwoNodesFail(cfg, runs, period, root);
    }
  }

  /** So with a period that fits, the array published last is the tree of a cache that is all stale. */
  lemma StaleIsPublished(sink: RosDiagnosticsSink, cfg: Aggregator.Config, runs: Runs, t0: real, offset: real,
                         turns: seq<Turn>)
    requires Fed(sink, cfg, t0, turns) && runs.lag >= 0.0 && Fits(cfg, runs, sink.period)
    requires Admissible(runs, t0, offset, turns)
    requires CacheAfter(cfg, t0, turns) != map[] && AllStale(CacheAfter(cfg, t0, turns))
    ensures sink.published != [] && IsTree(sink.root, CacheAfter(cfg, t0, turns), LastArray(sink))
  {
    ShowsCacheIff(sink, cfg, t0, turns);
    ShownWhenStale(cfg, runs, sink.period, t0, offset, turns);
  }

  /** The shipped configuration, with a timeout of 5, an interval of 1 and one publication a second, fits only
      while the sink reads its clock at the very moment the aggregator does. A shorter period leaves room for
      the difference to one second. */
  lemma ShippedFits(root: string, runs: Runs, period: real)
    requires runs.lag >= 0.0 && !runs.ownStale
    ensures StaleShown(Aggregator.Config(5.0, 1.0), runs, 1.0, root) <==> runs.lag == 0.0
    ensures period > 0.0 ==>
              (StaleShown(Aggregator.Config(5.0, 1.0), runs, period, root) <==> runs.lag <= 1.0 - period)
  {
    StaleShownIff(Aggregator.Config(5.0, 1.0), runs, 1.0, root);
    StaleShownIff(Aggregator.Config(5.0, 1.0), runs, period, root);
  }
}
