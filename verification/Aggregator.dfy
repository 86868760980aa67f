/** The fan-in aggregator: a latest-wins cache with timed staleness, and what its sinks see. */
module Aggregator {
  import opened Messages
  import opened Options

  datatype Config = Config(staleTimeout: real, checkInterval: real)

  /** One step of a run: a message with its receive time, or the clock reading that ends a poll. */
  datatype Event = Received(message: Message, time: real) | Polled(time: real)

  datatype State = State(cache: map<string, Message>, lastSeen: map<string, real>, lastCheck: real)

  const STALE_LEVEL := 3

  function Stale(m: Message, now: real): Message {
    m.(stamp := now, level := STALE_LEVEL, msg := "STALE")
  }

  // ---------------------------------------------------------------- the machine

  function MarkOne(cfg: Config, m: Message, seen: real, now: real): Message {
    if now - seen <= cfg.staleTimeout || m.level == STALE_LEVEL then m else Stale(m, now)
  }

  ghost predicate SameKeys(s: State) { s.cache.Keys == s.lastSeen.Keys }

  function Step(cfg: Config, s: State, e: Event): (s': State)
    requires SameKeys(s)
    ensures SameKeys(s')
  {
    match e
    case Received(m, t) => State(s.cache[m.node := m], s.lastSeen[m.node := t], s.lastCheck)
    case Polled(now) =>
      if now - s.lastCheck >= cfg.checkInterval then
        State(map node | node in s.cache :: MarkOne(cfg, s.cache[node], s.lastSeen[node], now), s.lastSeen, now)
      else s
  }

  function Replay(cfg: Config, t0: real, log: seq<Event>): (s: State)
    ensures SameKeys(s)
  {
    if log == [] then State(map[], map[], t0)
    else Step(cfg, Replay(cfg, t0, log[..|log| - 1]), log[|log| - 1])
  }

  lemma ReplaySnoc(cfg: Config, t0: real, log: seq<Event>, e: Event)
    ensures Replay(cfg, t0, log + [e]) == Step(cfg, Replay(cfg, t0, log), e)
  {
    assert (log + [e])[..|log|] == log;
  }

  // ---------------------------------------------------------------- the cache as a function of history

  /** Time of the latest stale check that was actually run. */
  function LastCheck(cfg: Config, t0: real, log: seq<Event>): real {
    if log == [] then t0
    else
      var before := LastCheck(cfg, t0, log[..|log| - 1]);
      match log[|log| - 1]
      case Polled(t) => if t - before >= cfg.checkInterval then t else before
      case _ => before
  }

  /** Event k is a stale check that finds a node silent since seen. */
  predicate ExpiresAt(cfg: Config, t0: real, log: seq<Event>, k: nat, seen: real)
    requires k < |log|
  {
    && log[k].Polled?
    && log[k].time - LastCheck(cfg, t0, log[..k]) >= cfg.checkInterval
    && log[k].time - seen > cfg.staleTimeout
  }

  /** Index of the latest message of a node, or -1. */
  function LastMessage(log: seq<Event>, node: string): (i: int)
    ensures -1 <= i < |log|
    ensures i >= 0 ==> log[i].Received? && log[i].message.node == node
    ensures forall k | i < k < |log| :: !(log[k].Received? && log[k].message.node == node)
  {
    if log == [] then -1
    else
      var last := log[|log| - 1];
      if last.Received? && last.message.node == node then |log| - 1
      else LastMessage(log[..|log| - 1], node)
  }

  /** Time of the first check from index `from` on that finds the node silent. */
  function FirstExpiry(cfg: Config, t0: real, log: seq<Event>, from: nat, seen: real): Option<real>
    requires from <= |log|
  {
    if |log| == from then None
    else
      var earlier := FirstExpiry(cfg, t0, log[..|log| - 1], from, seen);
      if earlier.Some? then earlier
      else if ExpiresAt(cfg, t0, log, |log| - 1, seen) then Some(log[|log| - 1].time)
      else None
  }

  lemma {:induction false} FirstExpiryMeans(cfg: Config, t0: real, log: seq<Event>, from: nat, seen: real)
    requires from <= |log|
    ensures var c := FirstExpiry(cfg, t0, log, from, seen);
      if c.None? then forall k | from <= k < |log| :: !ExpiresAt(cfg, t0, log, k, seen)
      else exists k | from <= k < |log| ::
             && ExpiresAt(cfg, t0, log, k, seen) && c.value == log[k].time
             && forall j | from <= j < k :: !ExpiresAt(cfg, t0, log, j, seen)
  {
    if |log| == from {
    } else {
      var init := log[..|log| - 1];
      FirstExpiryMeans(cfg, t0, init, from, seen);
      assert forall k | 0 <= k < |init| :: init[..k] == log[..k] && init[k] == log[k];
      assert forall k | from <= k < |init| :: ExpiresAt(cfg, t0, init, k, seen) == ExpiresAt(cfg, t0, log, k, seen);
    }
  }

  /** The entry a node must have, from its last message and the checks since. */
  function ExpectedEntry(cfg: Config, t0: real, log: seq<Event>, i: nat): Message
    requires i < |log| && log[i].Received?
  {
    var m, expiry := log[i].message, FirstExpiry(cfg, t0, log, i + 1, log[i].time);
    if m.level == STALE_LEVEL || expiry.None? then m else Stale(m, expiry.value)
  }

  /** What the entry of a node says of its last message, which is event i: the message itself, unless it is
      below level 3 and some later check has found the node silent. Then the entry keeps the identity and the
      values of the message, at level 3, with the time of the first such check. */
  ghost predicate EntrySays(cfg: Config, t0: real, log: seq<Event>, i: nat, entry: Message)
    requires i < |log| && log[i].Received?
  {
    var m := log[i].message;
    if m.level != 3 && exists k | i < k < |log| :: ExpiresAt(cfg, t0, log, k, log[i].time) then
      && entry.v == m.v && entry.node == m.node && entry.hwId == m.hwId && entry.values == m.values
      && entry.level == 3 && entry.msg == "STALE"
      && exists k | i < k < |log| ::
           && ExpiresAt(cfg, t0, log, k, log[i].time) && entry.stamp == log[k].time
           && forall j | i < j < k :: !ExpiresAt(cfg, t0, log, j, log[i].time)
    else entry == m
  }

  lemma ExpectedSays(cfg: Config, t0: real, log: seq<Event>, i: nat)
    requires i < |log| && log[i].Received?
    ensures EntrySays(cfg, t0, log, i, ExpectedEntry(cfg, t0, log, i))
  {
    FirstExpiryMeans(cfg, t0, log, i + 1, log[i].time);
  }

  lemma {:induction false} ReplayFromHistory(cfg: Config, t0: real, log: seq<Event>, node: string)
    ensures var s, i := Replay(cfg, t0, log), LastMessage(log, node);
      && s.lastCheck == LastCheck(cfg, t0, log)
      && (node in s.cache <==> i >= 0)
      && (i >= 0 ==> s.lastSeen[node] == log[i].time && s.cache[node] == ExpectedEntry(cfg, t0, log, i))
  {
    if log == [] {
    } else {
      var init, last := log[..|log| - 1], log[|log| - 1];
      ReplayFromHistory(cfg, t0, init, node);
      var i := LastMessage(log, node);
      if 0 <= i < |init| {
        assert log[i] == init[i];
        assert LastMessage(init, node) == i;
      }
    }
  }

  /** A node is cached exactly when it has sent something; its entry is its last message, turned stale
      by the first later check that found it silent for more than the timeout. */
  lemma CacheFromHistory(cfg: Config, t0: real, log: seq<Event>, node: string)
    ensures var s, i := Replay(cfg, t0, log), LastMessage(log, node);
      && s.lastCheck == LastCheck(cfg, t0, log)
      && (node in s.cache <==> i >= 0)
      && (i >= 0 ==> s.lastSeen[node] == log[i].time && s.cache[node] == ExpectedEntry(cfg, t0, log, i))
      && (i >= 0 ==> EntrySays(cfg, t0, log, i, s.cache[node]))
  {
    ReplayFromHistory(cfg, t0, log, node);
    if LastMessage(log, node) >= 0 {
      ExpectedSays(cfg, t0, log, LastMessage(log, node));
    }
  }

  // ---------------------------------------------------------------- timing

  ghost predicate Monotone(t0: real, log: seq<Event>) {
    && (forall k | 0 <= k < |log| :: t0 <= log[k].time)
    && (forall j, k | 0 <= j < k < |log| :: log[j].time <= log[k].time)
  }

  /** Reading of the latest poll (the construction time before the first one). */
  function LastPoll(t0: real, log: seq<Event>): real {
    if log == [] then t0
    else if log[|log| - 1].Polled? then log[|log| - 1].time
    else LastPoll(t0, log[..|log| - 1])
  }

  ghost predicate PollGaps(t0: real, log: seq<Event>, gap: real) {
    forall k | 0 <= k < |log| && log[k].Polled? :: log[k].time - LastPoll(t0, log[..k]) <= gap
  }

  /** A node that is not marked was heard of at most a timeout before the latest check. */
  lemma {:induction false} UnmarkedIsRecent(cfg: Config, t0: real, log: seq<Event>, node: string)
    requires Monotone(t0, log) && cfg.staleTimeout >= 0.0
    requires node in Replay(cfg, t0, log).cache && Replay(cfg, t0, log).cache[node].level != STALE_LEVEL
    ensures Replay(cfg, t0, log).lastCheck <= Replay(cfg, t0, log).lastSeen[node] + cfg.staleTimeout
  {
    var init, last := log[..|log| - 1], log[|log| - 1];
    if last.Received? && last.message.node == node {
      CheckNotAhead(cfg, t0, log);
    } else {
      var s := Replay(cfg, t0, init);
      if s.cache[node].level != STALE_LEVEL {
        UnmarkedIsRecent(cfg, t0, init, node);
      }
    }
  }

  lemma {:induction false} CheckNotAhead(cfg: Config, t0: real, log: seq<Event>)
    requires Monotone(t0, log)
    ensures Replay(cfg, t0, log).lastCheck <= if log == [] then t0 else log[|log| - 1].time
  {
    if log == [] {
    } else {
      CheckNotAhead(cfg, t0, log[..|log| - 1]);
    }
  }

  /** After every poll whose reading is at least timeout + interval past a node's last message, the
      node is marked. */
  lemma MarkedByPoll(cfg: Config, t0: real, log: seq<Event>, node: string)
    requires Monotone(t0, log) && cfg.staleTimeout >= 0.0 && cfg.checkInterval > 0.0
    requires log != [] && log[|log| - 1].Polled? && node in Replay(cfg, t0, log).cache
    requires log[|log| - 1].time >= Replay(cfg, t0, log).lastSeen[node] + cfg.staleTimeout + cfg.checkInterval
    ensures Replay(cfg, t0, log).cache[node].level == STALE_LEVEL
  {
    if Replay(cfg, t0, log).cache[node].level != STALE_LEVEL {
      UnmarkedIsRecent(cfg, t0, log, node);
    }
  }

  /** No check marks a node at or before the end of its timeout; a new message shows at once. */
  lemma NeverMarkedEarly(cfg: Config, t0: real, log: seq<Event>, node: string)
    requires LastMessage(log, node) >= 0
    requires forall k | LastMessage(log, node) < k < |log| && log[k].Polled? ::
               log[k].time <= log[LastMessage(log, node)].time + cfg.staleTimeout
    ensures node in Replay(cfg, t0, log).cache
    ensures Replay(cfg, t0, log).cache[node] == log[LastMessage(log, node)].message
  {
    var i := LastMessage(log, node);
    CacheFromHistory(cfg, t0, log, node);
    FirstExpiryMeans(cfg, t0, log, i + 1, log[i].time);
  }

  /** With polls at most gap apart, a node silent since s is marked by a poll that reads the clock
      no later than s + timeout + interval + gap. */
  lemma DetectedWithin(cfg: Config, t0: real, log: seq<Event>, node: string, gap: real) returns (k: nat)
    requires Monotone(t0, log) && PollGaps(t0, log, gap)
    requires cfg.staleTimeout >= 0.0 && cfg.checkInterval > 0.0
    requires LastMessage(log, node) >= 0
    requires LastPoll(t0, log) >= log[LastMessage(log, node)].time + cfg.staleTimeout + cfg.checkInterval
    ensures LastMessage(log, node) < k < |log| && log[k].Polled?
    ensures log[k].time <= log[LastMessage(log, node)].time + cfg.staleTimeout + cfg.checkInterval + gap
    ensures node in Replay(cfg, t0, log[..k + 1]).cache
    ensures Replay(cfg, t0, log[..k + 1]).cache[node].level == STALE_LEVEL
  {
    var i := LastMessage(log, node);
    var due := log[i].time + cfg.staleTimeout + cfg.checkInterval;
    k := FirstPollFrom(t0, log, due);
    assert i < k;
    MarkedAt(cfg, t0, log, node, k);
  }

  lemma MarkedAt(cfg: Config, t0: real, log: seq<Event>, node: string, k: nat)
    requires Monotone(t0, log) && cfg.staleTimeout >= 0.0 && cfg.checkInterval > 0.0
    requires 0 <= LastMessage(log, node) < k < |log| && log[k].Polled?
    requires log[k].time >= log[LastMessage(log, node)].time + cfg.staleTimeout + cfg.checkInterval
    ensures node in Replay(cfg, t0, log[..k + 1]).cache
    ensures Replay(cfg, t0, log[..k + 1]).cache[node].level == STALE_LEVEL
  {
    var prefix := log[..k + 1];
    SilentPrefix(log, node, k + 1);
    CacheFromHistory(cfg, t0, prefix, node);
    MarkedByPoll(cfg, t0, prefix, node);
  }

  lemma {:induction false} FirstPollFrom(t0: real, log: seq<Event>, due: real) returns (k: nat)
    requires LastPoll(t0, log) >= due > t0
    ensures k < |log| && log[k].Polled? && log[k].time >= due > LastPoll(t0, log[..k])
  {
    var init := log[..|log| - 1];
    if LastPoll(t0, init) >= due {
      k := FirstPollFrom(t0, init, due);
      assert init[..k] == log[..k];
    } else {
      k := |log| - 1;
    }
  }

  lemma {:induction false} SilentPrefix(log: seq<Event>, node: string, n: nat)
    requires LastMessage(log, node) < n <= |log|
    ensures LastMessage(log[..n], node) == LastMessage(log, node)
  {
    if n < |log| {
      SilentPrefix(log[..|log| - 1], node, n);
      assert log[..|log| - 1][..n] == log[..n];
    } else {
      assert log[..n] == log;
    }
  }

  // ---------------------------------------------------------------- what the sinks are given

  /** One call into a sink. */
  datatype Delivery = Handled(message: Message) | Published(states: map<string, Message>)

  /** What one event makes the aggregator hand to every sink: a message and the cache it left, or the
      cache alone when a stale check changed it. */
  function DeliveredBy(e: Event, before: map<string, Message>, after: map<string, Message>): seq<Delivery> {
    match e
    case Received(m, _) => [Handled(m), Published(after)]
    case Polled(_) => if after != before then [Published(after)] else []
  }

  /** Everything every sink has been given after a history, in order. */
  function Deliveries(cfg: Config, t0: real, log: seq<Event>): seq<Delivery> {
    if log == [] then []
    else
      Deliveries(cfg, t0, log[..|log| - 1])
      + DeliveredBy(log[|log| - 1], Replay(cfg, t0, log[..|log| - 1]).cache, Replay(cfg, t0, log).cache)
  }

  lemma DeliveriesSnoc(cfg: Config, t0: real, log: seq<Event>, e: Event)
    ensures Deliveries(cfg, t0, log + [e])
         == Deliveries(cfg, t0, log)
            + DeliveredBy(e, Replay(cfg, t0, log).cache, Step(cfg, Replay(cfg, t0, log), e).cache)
  {
    assert (log + [e])[..|log|] == log;
  }

  function MessagesIn(deliveries: seq<Delivery>): seq<Message> {
    if deliveries == [] then []
    else
      MessagesIn(deliveries[..|deliveries| - 1])
      + (if deliveries[|deliveries| - 1].Handled? then [deliveries[|deliveries| - 1].message] else [])
  }

  function AllMessages(log: seq<Event>): seq<Message> {
    if log == [] then []
    else
      AllMessages(log[..|log| - 1])
      + (if log[|log| - 1].Received? then [log[|log| - 1].message] else [])
  }

  /** The last thing given is the current cache; nothing at all while the cache is empty. */
  ghost predicate EndsWith(given: seq<Delivery>, cache: map<string, Message>) {
    if cache == map[] then given == [] else given != [] && given[|given| - 1] == Published(cache)
  }

  lemma StepFills(cfg: Config, s: State, e: Event)
    requires SameKeys(s)
    ensures Step(cfg, s, e).cache == map[] <==> e.Polled? && s.cache == map[]
  {
    var after := Step(cfg, s, e).cache;
    if e.Received? {
      assert e.message.node in after;
    } else {
      assert after.Keys == s.cache.Keys;
    }
  }

  lemma DeliveredLast(given: seq<Delivery>, e: Event, before: map<string, Message>, after: map<string, Message>)
    requires EndsWith(given, before) && (after == map[] <==> e.Polled? && before == map[])
    ensures EndsWith(given + DeliveredBy(e, before, after), after)
  {
    if e.Polled? && after == before {
      assert given + [] == given;
    }
  }

  lemma DeliveredMessages(given: seq<Delivery>, e: Event, before: map<string, Message>, after: map<string, Message>)
    ensures MessagesIn(given + DeliveredBy(e, before, after))
         == MessagesIn(given) + (if e.Received? then [e.message] else [])
  {
    if e.Received? {
      var one := given + [Handled(e.message)];
      assert given + DeliveredBy(e, before, after) == one + [Published(after)];
      assert (one + [Published(after)])[..|one|] == one && one[..|given|] == given;
    } else if after != before {
      assert (given + [Published(after)])[..|given|] == given;
    } else {
      assert given + [] == given;
    }
  }

  /** After every history a sink has had every message, in order and once, and the last thing it was
      given is the current cache. */
  lemma {:induction false} SinksFollow(cfg: Config, t0: real, log: seq<Event>)
    ensures var given, cache := Deliveries(cfg, t0, log), Replay(cfg, t0, log).cache;
      MessagesIn(given) == AllMessages(log) && EndsWith(given, cache)
  {
    if log == [] {
    } else {
      var init, last := log[..|log| - 1], log[|log| - 1];
      SinksFollow(cfg, t0, init);
      var before, after := Replay(cfg, t0, init).cache, Replay(cfg, t0, log).cache;
      DeliveredMessages(Deliveries(cfg, t0, init), last, before, after);
      StepFills(cfg, Replay(cfg, t0, init), last);
      DeliveredLast(Deliveries(cfg, t0, init), last, before, after);
    }
  }

  // ---------------------------------------------------------------- the object

  function ReceivedAll(batch: seq<(Message, real)>): seq<Event> {
    if batch == [] then []
    else ReceivedAll(batch[..|batch| - 1]) + [Received(batch[|batch| - 1].0, batch[|batch| - 1].1)]
  }

  function ReceivedFrom(sources: seq<seq<(Message, real)>>): seq<Event> {
    if sources == [] then []
    else ReceivedFrom(sources[..|sources| - 1]) + ReceivedAll(sources[|sources| - 1])
  }

  class DiagnosticsAggregator {
    const cfg: Config
    ghost const t0: real
    var stateCache: map<string, Message>
    var lastSeen: map<string, real>
    var lastStaleCheck: real
    var inboxes: seq<seq<Delivery>>

    /** Every message and poll so far. */
    ghost var log: seq<Event>

    ghost predicate Valid()
      reads this
    {
      && State(stateCache, lastSeen, lastStaleCheck) == Replay(cfg, t0, log)
      && forall i | 0 <= i < |inboxes| :: inboxes[i] == Deliveries(cfg, t0, log)
    }

    constructor (config: Config, sinks: nat, now: real)
      ensures Valid() && cfg == config && t0 == now && log == [] && |inboxes| == sinks
    {
      cfg, t0 := config, now;
      stateCache, lastSeen, lastStaleCheck := map[], map[], now;
      inboxes := seq(sinks, _ => []);
      log := [];
    }

    method PublishState()
      modifies `inboxes
      ensures |inboxes| == |old(inboxes)|
      ensures forall i | 0 <= i < |inboxes| ::
                inboxes[i] == old(inboxes)[i] + [Published(stateCache)]
    {
      var snapshot := stateCache;
      for i := 0 to |inboxes|
        invariant |inboxes| == |old(inboxes)|
        invariant forall k | 0 <= k < |inboxes| :: inboxes[k] ==
                    old(inboxes)[k] + (if k < i then [Published(snapshot)] else [])
      {
        inboxes := inboxes[i := inboxes[i] + [Published(snapshot)]];
      }
    }

    method HandleMessage(message: Message)
      modifies `inboxes
      ensures |inboxes| == |old(inboxes)|
      ensures forall i | 0 <= i < |inboxes| ::
                inboxes[i] == old(inboxes)[i] + [Handled(message)]
    {
      for i := 0 to |inboxes|
        invariant |inboxes| == |old(inboxes)|
        invariant forall k | 0 <= k < |inboxes| :: inboxes[k] ==
                    old(inboxes)[k] + (if k < i then [Handled(message)] else [])
      {
        inboxes := inboxes[i := inboxes[i] + [Handled(message)]];
      }
    }

    method ProcessMessage(message: Message, now: real)
      requires Valid()
      modifies this
      ensures Valid() && log == old(log) + [Received(message, now)]
      ensures |inboxes| == |old(inboxes)|
    {
      ReplaySnoc(cfg, t0, log, Received(message, now));
      DeliveriesSnoc(cfg, t0, log, Received(message, now));
      stateCache := stateCache[message.node := message];
      lastSeen := lastSeen[message.node := now];
      HandleMessage(message);
      PublishState();
      log := log + [Received(message, now)];
    }

    /** Marks every silent node once; tells whether any entry changed. */
    method MarkStaleNodes(now: real) returns (changed: bool)
      requires stateCache.Keys == lastSeen.Keys
      modifies `stateCache
      ensures stateCache
           == map node | node in old(stateCache) :: MarkOne(cfg, old(stateCache)[node], lastSeen[node], now)
      ensures changed <==> stateCache != old(stateCache)
    {
      changed := false;
      var todo := lastSeen.Keys;
      while todo != {}
        invariant todo <= lastSeen.Keys
        invariant stateCache.Keys == old(stateCache).Keys
        invariant forall node | node in stateCache :: stateCache[node] ==
                    if node in todo then old(stateCache)[node]
                    else MarkOne(cfg, old(stateCache)[node], lastSeen[node], now)
        invariant changed <==> exists node | node in stateCache :: stateCache[node] != old(stateCache)[node]
        decreases todo
      {
        var node :| node in todo;
        todo := todo - {node};
        if now - lastSeen[node] > cfg.staleTimeout {
          var current := stateCache[node];
          if current.level != STALE_LEVEL {
            var stale := Message(current.v, current.node, current.hwId, now, STALE_LEVEL, "STALE", current.values);
            stateCache := stateCache[node := stale];
            assert stateCache[node] != old(stateCache)[node];
            changed := true;
          }
        }
      }
    }

    method ProcessBatch(batch: seq<(Message, real)>)
      requires Valid()
      modifies this
      ensures Valid() && log == old(log) + ReceivedAll(batch) && |inboxes| == |old(inboxes)|
    {
      for i := 0 to |batch|
        invariant Valid() && log == old(log) + ReceivedAll(batch[..i]) && |inboxes| == |old(inboxes)|
      {
        assert batch[..i + 1][..i] == batch[..i];
        ProcessMessage(batch[i].0, batch[i].1);
      }
      assert batch[..|batch|] == batch;
    }

    /** Drains every source in order, then reads the clock and runs the stale check when it is due. */
    method PollOnce(sources: seq<seq<(Message, real)>>, now: real) returns (processed: bool)
      requires Valid()
      modifies this
      ensures Valid() && log == old(log) + ReceivedFrom(sources) + [Polled(now)]
      ensures processed <==> exists i | 0 <= i < |sources| :: sources[i] != []
      ensures |inboxes| == |old(inboxes)|
    {
      processed := false;
      for i := 0 to |sources|
        invariant Valid() && log == old(log) + ReceivedFrom(sources[..i]) && |inboxes| == |old(inboxes)|
        invariant processed <==> exists k | 0 <= k < i :: sources[k] != []
      {
        assert sources[..i + 1][..i] == sources[..i];
        ProcessBatch(sources[i]);
        processed := processed || sources[i] != [];
      }
      assert sources[..|sources|] == sources;
      FinishPoll(now);
    }

    method FinishPoll(now: real)
      requires Valid()
      modifies this
      ensures Valid() && log == old(log) + [Polled(now)] && |inboxes| == |old(inboxes)|
    {
      ReplaySnoc(cfg, t0, log, Polled(now));
      DeliveriesSnoc(cfg, t0, log, Polled(now));
      if now - lastStaleCheck >= cfg.checkInterval {
        lastStaleCheck := now;
        var changed := MarkStaleNodes(now);
        if changed {
          PublishState();
        }
      }
      log := log + [Polled(now)];
    }
  }
}
