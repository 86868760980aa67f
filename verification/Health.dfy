/** Threshold alerts with hysteresis and debounce, one small automaton per key. */
module Health {
  import opened Options

  type Level = x: nat | x <= 2

  datatype Direction = High | Low | Unsupported(name: string)

  datatype Observation = Observation(
    key: string,
    caption: string,
    value: real,
    warn: real,
    error: Option<real>,
    direction: Direction,
    unit: string)

  /** An observation whose direction the evaluator knows. */
  type Alert = o: Observation | !o.direction.Unsupported?
    witness Observation("", "", 0.0, 0.0, None, High, "")

  /** The debounce length, the recovery margin, and how a number is printed with one decimal. */
  datatype Config = Config(consecutive: int, margin: real, printed: real -> string)

  datatype AlertState = AlertState(level: Level, candidate: Level, count: nat)

  const FRESH := AlertState(0, 0, 0)

  // ---------------------------------------------------------------- hysteresis

  /** The level an observation asks for; an active level is left only past the recovery margin. */
  function Target(cfg: Config, o: Alert, current: Level): Level {
    if o.direction.High? then
      if current == 2 && o.error.Some? && o.value >= o.error.value - cfg.margin then 2
      else if o.error.Some? && o.value >= o.error.value then 2
      else if current >= 1 && o.value >= o.warn - cfg.margin then 1
      else if o.value >= o.warn then 1 else 0
    else
      if current == 2 && o.error.Some? && o.value <= o.error.value + cfg.margin then 2
      else if o.error.Some? && o.value <= o.error.value then 2
      else if current >= 1 && o.value <= o.warn + cfg.margin then 1
      else if o.value <= o.warn then 1 else 0
  }

  /** The value and the thresholds seen so that more severe is always higher. */
  function Severity(o: Alert, x: real): real { if o.direction.High? then x else -x }

  function EffectiveMargin(cfg: Config): real { if cfg.margin > 0.0 then cfg.margin else 0.0 }

  /** Exactly when each level is asked for: a threshold is entered at its value and left only below
      the value less the margin, and a negative margin acts as zero. */
  lemma TargetExact(cfg: Config, o: Alert, current: Level)
    ensures var v, m, t := Severity(o, o.value), EffectiveMargin(cfg), Target(cfg, o, current);
      && (t == 2 <==> o.error.Some? && v >= Severity(o, o.error.value) - (if current == 2 then m else 0.0))
      && (t >= 1 <==> t == 2 || v >= Severity(o, o.warn) - (if current >= 1 then m else 0.0))
  {}

  /** A reached target is kept by the same observation, for any margin (a negative one acts as zero)
      and any order of the two thresholds. */
  lemma TargetIdempotent(cfg: Config, o: Alert, current: Level)
    ensures Target(cfg, o, Target(cfg, o, current)) == Target(cfg, o, current)
  {}

  /** A higher current level never asks for less, and neither does a more severe value. */
  lemma TargetMonotone(cfg: Config, o: Alert, v: real, lo: Level, hi: Level)
    requires lo <= hi
    requires if o.direction.High? then o.value <= v else v <= o.value
    ensures Target(cfg, o, lo) <= Target(cfg, o.(value := v), hi)
  {}

  // ---------------------------------------------------------------- debounce

  /** The number of equal targets a change of level needs. */
  function Needed(cfg: Config): (n: nat)
    ensures n >= 1
  {
    if cfg.consecutive <= 1 then 1 else cfg.consecutive
  }

  function Step(cfg: Config, s: AlertState, o: Alert): AlertState {
    var target := Target(cfg, o, s.level);
    if target == s.level then AlertState(s.level, target, 0)
    else
      var count := if s.candidate == target then s.count + 1 else 1;
      if count >= cfg.consecutive then AlertState(target, target, 0)
      else AlertState(s.level, target, count)
  }

  function Run(cfg: Config, s: AlertState, obs: seq<Alert>): AlertState {
    if obs == [] then s
    else Step(cfg, Run(cfg, s, obs[..|obs| - 1]), obs[|obs| - 1])
  }

  lemma RunSnoc(cfg: Config, s: AlertState, obs: seq<Alert>, o: Alert)
    ensures Run(cfg, s, obs + [o]) == Step(cfg, Run(cfg, s, obs), o)
  {
    assert (obs + [o])[..|obs|] == obs;
  }

  /** What holds of every reachable state. */
  ghost predicate Reachable(cfg: Config, s: AlertState) {
    s.count < Needed(cfg) && (s.count == 0 <==> s.candidate == s.level)
  }

  lemma {:induction false} RunReachable(cfg: Config, s: AlertState, obs: seq<Alert>)
    requires Reachable(cfg, s)
    ensures Reachable(cfg, Run(cfg, s, obs))
  {
    if obs == [] {
    } else {
      RunReachable(cfg, s, obs[..|obs| - 1]);
    }
  }

  /** How many of the latest observations, counted back from the end, ask for t at the given level. */
  ghost function Streak(cfg: Config, level: Level, t: Level, obs: seq<Alert>): (n: nat)
    ensures n <= |obs|
    ensures forall i | |obs| - n <= i < |obs| :: Target(cfg, obs[i], level) == t
    ensures n < |obs| ==> Target(cfg, obs[|obs| - 1 - n], level) != t
  {
    if obs == [] || Target(cfg, obs[|obs| - 1], level) != t then 0
    else 1 + Streak(cfg, level, t, obs[..|obs| - 1])
  }

  /** Number of observations up to and including the latest change of level (0 if none). */
  ghost function LastChange(cfg: Config, obs: seq<Alert>): (c: nat)
    ensures c <= |obs|
  {
    if obs == [] then 0
    else if Run(cfg, FRESH, obs).level != Run(cfg, FRESH, obs[..|obs| - 1]).level then |obs|
    else LastChange(cfg, obs[..|obs| - 1])
  }

  /** The state is a function of the observations since the last change: the candidate is the latest
      target, and the count is the length of the latest run of that target when it is another level. */
  lemma {:induction false} StateFromHistory(cfg: Config, obs: seq<Alert>)
    ensures var s, since := Run(cfg, FRESH, obs), obs[LastChange(cfg, obs)..];
      && s.candidate == (if since == [] then s.level else Target(cfg, since[|since| - 1], s.level))
      && s.count == (if s.candidate == s.level then 0 else Streak(cfg, s.level, s.candidate, since))
      && s.count < Needed(cfg)
  {
    if obs == [] {
    } else {
      var before := obs[..|obs| - 1];
      StateFromHistory(cfg, before);
      var c := LastChange(cfg, before);
      if LastChange(cfg, obs) == c {
        assert obs[c..][..|obs[c..]| - 1] == before[c..];
      }
    }
  }

  /** The last n observations of obs all ask for t at the given level. */
  ghost predicate LastAllAsk(cfg: Config, level: Level, t: Level, obs: seq<Alert>, n: nat) {
    n <= |obs| && forall i | |obs| - n <= i < |obs| :: Target(cfg, obs[i], level) == t
  }

  lemma StreakReaches(cfg: Config, level: Level, t: Level, obs: seq<Alert>, n: nat)
    requires LastAllAsk(cfg, level, t, obs, n)
    ensures Streak(cfg, level, t, obs) >= n
  {
  }

  /** The level changes to t exactly when the last N observations since the previous change all ask
      for the same other level t. */
  lemma ChangesExactlyAfterN(cfg: Config, obs: seq<Alert>, o: Alert, t: Level)
    ensures var level, since := Run(cfg, FRESH, obs).level, obs[LastChange(cfg, obs)..] + [o];
      Run(cfg, FRESH, obs + [o]).level == t && t != level
      <==> t != level && LastAllAsk(cfg, level, t, since, Needed(cfg))
  {
    var s, since := Run(cfg, FRESH, obs), obs[LastChange(cfg, obs)..];
    StateFromHistory(cfg, obs);
    RunSnoc(cfg, FRESH, obs, o);
    if t != s.level {
      AskSnoc(cfg, s.level, t, since, o, Needed(cfg));
    }
  }

  lemma AskSnoc(cfg: Config, level: Level, t: Level, obs: seq<Alert>, o: Alert, n: nat)
    requires n >= 1
    ensures LastAllAsk(cfg, level, t, obs + [o], n)
       <==> Target(cfg, o, level) == t && Streak(cfg, level, t, obs) >= n - 1
  {
    var longer := obs + [o];
    assert longer[|obs|] == o;
    if LastAllAsk(cfg, level, t, longer, n) {
      forall i | |obs| - (n - 1) <= i < |obs|
        ensures Target(cfg, obs[i], level) == t
      {
        assert longer[i] == obs[i];
      }
      StreakReaches(cfg, level, t, obs, n - 1);
    }
  }

  ghost function Changes(cfg: Config, obs: seq<Alert>): nat {
    if obs == [] then 0
    else
      var before := obs[..|obs| - 1];
      Changes(cfg, before) + (if Run(cfg, FRESH, obs).level != Run(cfg, FRESH, before).level then 1 else 0)
  }

  /** Every change of level costs N observations of its own. */
  lemma {:induction false} ChatterBound(cfg: Config, obs: seq<Alert>)
    ensures Changes(cfg, obs) * Needed(cfg) + Run(cfg, FRESH, obs).count <= |obs|
  {
    if obs == [] {
    } else {
      var before := obs[..|obs| - 1];
      ChatterBound(cfg, before);
      RunReachable(cfg, FRESH, before);
      OneMore(Changes(cfg, before), Needed(cfg));
    }
  }

  lemma OneMore(k: nat, n: nat)
    ensures (k + 1) * n == k * n + n
  {}

  // ---------------------------------------------------------------- constant and confined signals

  function Repeat(o: Alert, n: nat): (obs: seq<Alert>)
    ensures |obs| == n
  {
    if n == 0 then [] else Repeat(o, n - 1) + [o]
  }

  /** A constant signal settles on its target within N observations and stays there; on the way the
      level is never anything but the old one or the final one. */
  lemma {:induction false} Settles(cfg: Config, s: AlertState, o: Alert, n: nat)
    requires Reachable(cfg, s)
    ensures var t, r := Target(cfg, o, s.level), Run(cfg, s, Repeat(o, n));
      && (n >= Needed(cfg) ==> r == AlertState(t, t, 0))
      && (n > 0 ==> r == AlertState(t, t, 0) || (r.level == s.level && r.candidate == t && n <= r.count))
  {
    if n == 0 {
    } else {
      Settles(cfg, s, o, n - 1);
      RunReachable(cfg, s, Repeat(o, n - 1));
      RunSnoc(cfg, s, Repeat(o, n - 1), o);
      TargetIdempotent(cfg, o, s.level);
    }
  }

  /** The signal stays inside the hysteresis band of WARN: below error, above the warn recovery line. */
  ghost predicate InWarnBand(cfg: Config, o: Alert) {
    if o.direction.High? then
      o.warn - cfg.margin <= o.value && (o.error.Some? ==> o.value < o.error.value)
    else
      o.value <= o.warn + cfg.margin && (o.error.Some? ==> o.error.value < o.value)
  }

  /** An alert at WARN stays at WARN as long as the signal is confined to the band. */
  lemma {:induction false} NoChatterInBand(cfg: Config, s: AlertState, obs: seq<Alert>)
    requires s.level == 1 && forall i | 0 <= i < |obs| :: InWarnBand(cfg, obs[i])
    ensures Run(cfg, s, obs).level == 1
    ensures obs != [] ==> Run(cfg, s, obs) == AlertState(1, 1, 0)
  {
    if obs == [] {
    } else {
      NoChatterInBand(cfg, s, obs[..|obs| - 1]);
    }
  }

  // ---------------------------------------------------------------- the alert of a required network link

  /** The alert of a required interface: 1 while its link is up and 0 while it is down, low, warn 0.5. */
  function LinkAlert(interface: string, up: bool): Alert {
    Observation("network." + interface + ".required", "Interface " + interface + " link",
                if up then 1.0 else 0.0, 0.5, None, Low, "")
  }

  function LinkAlerts(interface: string, ups: seq<bool>): (obs: seq<Alert>)
    ensures |obs| == |ups| && forall i | 0 <= i < |obs| :: obs[i] == LinkAlert(interface, ups[i])
  {
    seq(|ups|, i requires 0 <= i < |ups| => LinkAlert(interface, ups[i]))
  }

  /** A link that stays up takes its alert back to OK within N samples exactly when the recovery margin is
      below one half. */
  lemma LinkRecoversIff(cfg: Config, interface: string, s: AlertState, n: nat)
    requires Reachable(cfg, s) && s.level == 1 && n >= Needed(cfg)
    ensures Run(cfg, s, Repeat(LinkAlert(interface, true), n)).level == 0 <==> cfg.margin < 0.5
  {
    Settles(cfg, s, LinkAlert(interface, true), n);
  }

  /** With any larger margin a link alert that reached WARN stays there whatever the link does. */
  lemma LinkStuck(cfg: Config, interface: string, s: AlertState, ups: seq<bool>)
    requires s.level == 1 && cfg.margin >= 0.5
    ensures Run(cfg, s, LinkAlerts(interface, ups)).level == 1
  {
    NoChatterInBand(cfg, s, LinkAlerts(interface, ups));
  }

  // ---------------------------------------------------------------- high/low duality

  function Mirror(o: Alert): Alert {
    o.(value := -o.value,
       warn := -o.warn,
       error := if o.error.Some? then Some(-o.error.value) else None,
       direction := if o.direction.High? then Low else High)
  }

  function MirrorAll(obs: seq<Alert>): (r: seq<Alert>)
    ensures |r| == |obs|
  {
    if obs == [] then [] else MirrorAll(obs[..|obs| - 1]) + [Mirror(obs[|obs| - 1])]
  }

  /** A low alert is a high alert on negated values: same level, candidate and count after every run. */
  lemma {:induction false} Duality(cfg: Config, s: AlertState, obs: seq<Alert>)
    ensures Run(cfg, s, MirrorAll(obs)) == Run(cfg, s, obs)
  {
    if obs == [] {
    } else {
      Duality(cfg, s, obs[..|obs| - 1]);
      RunSnoc(cfg, s, MirrorAll(obs[..|obs| - 1]), Mirror(obs[|obs| - 1]));
    }
  }

  // ---------------------------------------------------------------- batches over many keys

  function StateOf(states: map<string, AlertState>, key: string): AlertState {
    if key in states then states[key] else FRESH
  }

  /** The observations of one key, in order. */
  function Only(key: string, log: seq<Alert>): seq<Alert> {
    if log == [] then []
    else Only(key, log[..|log| - 1]) + (if log[|log| - 1].key == key then [log[|log| - 1]] else [])
  }

  /** The state of a key after a log, from that key's observations alone. */
  ghost function Isolated(cfg: Config, log: seq<Alert>, key: string): AlertState {
    Run(cfg, FRESH, Only(key, log))
  }

  lemma IsolatedSnoc(cfg: Config, log: seq<Alert>, o: Alert, key: string)
    ensures Isolated(cfg, log + [o], key)
         == if o.key == key then Step(cfg, Isolated(cfg, log, key), o) else Isolated(cfg, log, key)
  {
    assert (log + [o])[..|log|] == log;
    assert Only(key, log) + [] == Only(key, log);
    RunSnoc(cfg, FRESH, Only(key, log), o);
  }

  ghost predicate AllSupported(obs: seq<Observation>) {
    forall i | 0 <= i < |obs| :: !obs[i].direction.Unsupported?
  }

  /** The level of the last observation's key right after it was processed. */
  ghost function LevelAfter(cfg: Config, log: seq<Alert>, obs: seq<Observation>): Level
    requires obs != [] && AllSupported(obs)
  {
    Isolated(cfg, log + obs, obs[|obs| - 1].key).level
  }

  /** No observation makes the evaluator raise: every direction is known, and no key is at the error
      level right after an observation that has no error threshold to report. */
  ghost predicate Clean(cfg: Config, log: seq<Alert>, obs: seq<Observation>)
    ensures Clean(cfg, log, obs) ==> AllSupported(obs)
  {
    if obs == [] then true
    else
      var last := obs[|obs| - 1];
      && Clean(cfg, log, obs[..|obs| - 1])
      && !last.direction.Unsupported?
      && !(LevelAfter(cfg, log, obs) == 2 && last.error.None?)
  }

  /** The entry of an active alert: its value against the threshold of its level. */
  function Describe(cfg: Config, o: Alert, level: Level): string {
    var threshold := if level == 2 && o.error.Some? then o.error.value else o.warn;
    o.caption + " " + cfg.printed(o.value) + o.unit + " "
    + (if o.direction.High? then ">=" else "<=") + " " + cfg.printed(threshold) + o.unit
  }

  /** The level and text of every observation whose key was not OK right after it. */
  ghost function Active(cfg: Config, log: seq<Alert>, obs: seq<Observation>): seq<(Level, string)>
    requires AllSupported(obs)
  {
    if obs == [] then []
    else
      var level, last := LevelAfter(cfg, log, obs), obs[|obs| - 1];
      Active(cfg, log, obs[..|obs| - 1]) + (if level == 0 then [] else [(level, Describe(cfg, last, level))])
  }

  /** The highest level any observation's key had right after that observation. */
  ghost function BatchLevel(cfg: Config, log: seq<Alert>, obs: seq<Observation>): Level
    requires AllSupported(obs)
  {
    if obs == [] then 0
    else Max(BatchLevel(cfg, log, obs[..|obs| - 1]), LevelAfter(cfg, log, obs))
  }

  /** `level` is the highest level any observation's key had right after it; 0 when there was none. */
  ghost predicate IsHighest(cfg: Config, log: seq<Alert>, obs: seq<Observation>, level: Level)
    requires AllSupported(obs)
  {
    && (forall i | 0 < i <= |obs| :: LevelAfter(cfg, log, obs[..i]) <= level)
    && (level > 0 ==> exists i | 0 < i <= |obs| :: LevelAfter(cfg, log, obs[..i]) == level)
  }

  lemma {:induction false} BatchLevelIsMax(cfg: Config, log: seq<Alert>, obs: seq<Observation>)
    requires AllSupported(obs)
    ensures IsHighest(cfg, log, obs, BatchLevel(cfg, log, obs))
  {
    if obs == [] {
    } else {
      BatchLevelIsMax(cfg, log, obs[..|obs| - 1]);
      HighestGrows(cfg, log, obs, BatchLevel(cfg, log, obs[..|obs| - 1]));
    }
  }

  lemma HighestGrows(cfg: Config, log: seq<Alert>, obs: seq<Observation>, level: Level)
    requires AllSupported(obs) && obs != [] && IsHighest(cfg, log, obs[..|obs| - 1], level)
    ensures IsHighest(cfg, log, obs, Max(level, LevelAfter(cfg, log, obs)))
  {
    var init, top := obs[..|obs| - 1], Max(level, LevelAfter(cfg, log, obs));
    assert obs[..|obs|] == obs;
    forall i | 0 < i <= |obs|
      ensures LevelAfter(cfg, log, obs[..i]) <= top
    {
      PrefixOfInit(obs, i);
    }
    if top > 0 && LevelAfter(cfg, log, obs) != top {
      var i :| 0 < i <= |init| && LevelAfter(cfg, log, init[..i]) == level;
      PrefixOfInit(obs, i);
    }
  }

  lemma PrefixOfInit(obs: seq<Observation>, i: nat)
    requires i <= |obs|
    ensures i < |obs| ==> obs[..|obs| - 1][..i] == obs[..i]
  {}

  /** Texts of the observations whose key was at the given level right after them. */
  ghost function TextsAt(cfg: Config, log: seq<Alert>, obs: seq<Observation>, level: Level): seq<string>
    requires AllSupported(obs)
  {
    if obs == [] then []
    else
      TextsAt(cfg, log, obs[..|obs| - 1], level)
      + (if LevelAfter(cfg, log, obs) == level then [Describe(cfg, obs[|obs| - 1], level)] else [])
  }

  function FirstThree(texts: seq<string>): seq<string> {
    if |texts| <= 3 then texts else texts[..3]
  }

  function TextsOf(active: seq<(Level, string)>, level: Level): seq<string> {
    if active == [] then []
    else
      var (l, text) := active[|active| - 1];
      TextsOf(active[..|active| - 1], level) + (if l == level then [text] else [])
  }

  /** "; ".join(texts). */
  function Joined(texts: seq<string>): string {
    if texts == [] then ""
    else if |texts| == 1 then texts[0]
    else texts[0] + "; " + Joined(texts[1..])
  }

  /** The message of a batch: its level and up to three of the alerts at that level. */
  function Summary(level: Level, texts: seq<string>): string {
    if level == 0 then "OK" else (if level == 2 then "ERROR" else "WARN") + ": " + Joined(FirstThree(texts))
  }

  function Max(a: Level, b: Level): Level {
    if a < b then b else a
  }

  function Highest(active: seq<(Level, string)>): Level {
    if active == [] then 0 else Max(Highest(active[..|active| - 1]), active[|active| - 1].0)
  }

  lemma {:induction false} JoinedSnoc(texts: seq<string>, text: string)
    ensures Joined(texts + [text]) == if texts == [] then text else Joined(texts) + ("; " + text)
  {
    if texts == [] {
      assert [] + [text] == [text];
    } else if |texts| == 1 {
      assert (texts + [text])[1..] == [text];
      assert texts[0] + "; " + text == texts[0] + ("; " + text);
    } else {
      JoinedSnoc(texts[1..], text);
      assert (texts + [text])[1..] == texts[1..] + [text];
      JoinedGroup(texts[0], Joined(texts[1..]), text);
    }
  }

  lemma JoinedGroup(a: string, b: string, c: string)
    ensures a + "; " + (b + ("; " + c)) == a + "; " + b + ("; " + c)
  {}

  /** "; ".join(texts[:3]). */
  method JoinThree(texts: seq<string>) returns (joined: string)
    ensures joined == Joined(FirstThree(texts))
  {
    joined := "";
    var n := if |texts| < 3 then |texts| else 3;
    for i := 0 to n
      invariant joined == Joined(texts[..i])
    {
      assert texts[..i + 1] == texts[..i] + [texts[i]];
      JoinedSnoc(texts[..i], texts[i]);
      joined := if i == 0 then texts[0] else joined + ("; " + texts[i]);
    }
    assert n == |texts| ==> texts[..n] == texts;
  }

  /** max over the active list, then the first three texts at that level. */
  method Summarize(active: seq<(Level, string)>) returns (r: Outcome)
    requires forall i | 0 <= i < |active| :: active[i].0 > 0
    ensures r == (var level := Highest(active); Report(level, Summary(level, TextsOf(active, level))))
  {
    if active == [] {
      return Report(0, "OK");
    }
    var level := active[0].0;
    for i := 1 to |active|
      invariant 0 < level == Highest(active[..i])
    {
      assert active[..i + 1][..i] == active[..i];
      if level < active[i].0 {
        level := active[i].0;
      }
    }
    assert active[..|active|] == active;
    var texts := [];
    for i := 0 to |active|
      invariant texts == TextsOf(active[..i], level)
    {
      assert active[..i + 1][..i] == active[..i];
      if active[i].0 == level {
        texts := texts + [active[i].1];
      }
    }
    assert active[..|active|] == active;
    var joined := JoinThree(texts);
    r := Report(level, (if level == 2 then "ERROR" else "WARN") + ": " + joined);
  }

  /** The active list carries the batch level and its texts. */
  lemma {:induction false} ActiveSummary(cfg: Config, log: seq<Alert>, obs: seq<Observation>, level: Level)
    requires AllSupported(obs)
    ensures Highest(Active(cfg, log, obs)) == BatchLevel(cfg, log, obs)
    ensures level > 0 ==> TextsOf(Active(cfg, log, obs), level) == TextsAt(cfg, log, obs, level)
    ensures forall i | 0 <= i < |Active(cfg, log, obs)| :: Active(cfg, log, obs)[i].0 > 0
  {
    if obs == [] {
    } else {
      var init, l := obs[..|obs| - 1], LevelAfter(cfg, log, obs);
      ActiveSummary(cfg, log, init, level);
      EntrySummary(Active(cfg, log, init), l, Describe(cfg, obs[|obs| - 1], l), level);
    }
  }

  lemma EntrySummary(active: seq<(Level, string)>, l: Level, text: string, level: Level)
    ensures var more := active + (if l == 0 then [] else [(l, text)]);
      && Highest(more) == Max(Highest(active), l)
      && (level > 0 ==> TextsOf(more, level) == TextsOf(active, level) + (if l == level then [text] else []))
      && ((forall i | 0 <= i < |active| :: active[i].0 > 0) ==> forall i | 0 <= i < |more| :: more[i].0 > 0)
  {
    if l == 0 {
      assert active + [] == active;
    } else {
      assert (active + [(l, text)])[..|active|] == active;
    }
  }

  /** The text of an active alert, as the evaluator formats it. */
  method Format(cfg: Config, o: Alert, level: Level) returns (text: string)
    ensures text == Describe(cfg, o, level)
  {
    var threshold := o.warn;
    if level == 2 && o.error.Some? {
      threshold := o.error.value;
    }
    var operator := "<=";
    if o.direction == High {
      operator := ">=";
    }
    text := o.caption + " " + cfg.printed(o.value) + o.unit + " " + operator + " " + cfg.printed(threshold) + o.unit;
  }

  /** What one observation adds to the active list, unless it makes the evaluator raise. */
  datatype Observed = Entry(active: seq<(Level, string)>) | Exception

  ghost function Verdict(cfg: Config, log: seq<Alert>, o: Observation): Observed {
    if o.direction.Unsupported? then Exception
    else
      var level := Isolated(cfg, log + [o], o.key).level;
      if level == 2 && o.error.None? then Exception
      else Entry(if level == 0 then [] else [(level, Describe(cfg, o, level))])
  }

  /** An observation makes the evaluator raise exactly when its direction is unknown, or when it has no error
      threshold while its key is at the error level and it does not complete a change away from there. */
  lemma RaisesIff(cfg: Config, log: seq<Alert>, o: Observation)
    ensures Verdict(cfg, log, o).Exception?
       <==> o.direction.Unsupported?
            || (var s := Isolated(cfg, log, o.key);
                && o.error.None? && s.level == 2
                && (if s.candidate == Target(cfg, o, 2) then s.count + 1 else 1) < Needed(cfg))
  {
    if o.direction.Unsupported? {
    } else {
      IsolatedSnoc(cfg, log, o, o.key);
      if o.error.None? {
        StaysAtError(cfg, Isolated(cfg, log, o.key), o);
      }
    }
  }

  lemma StaysAtError(cfg: Config, s: AlertState, o: Alert)
    requires o.error.None?
    ensures Step(cfg, s, o).level == 2
       <==> s.level == 2 && (if s.candidate == Target(cfg, o, 2) then s.count + 1 else 1) < Needed(cfg)
  {}

  /** Each key has an error threshold on all of its observations or on none. */
  ghost predicate Uniform(obs: seq<Observation>) {
    forall i, j | 0 <= i < |obs| && 0 <= j < |obs| && obs[i].key == obs[j].key ::
      obs[i].error.Some? == obs[j].error.Some?
  }

  lemma {:induction false} OnlyFrom(key: string, log: seq<Alert>, i: nat)
    requires i < |Only(key, log)|
    ensures exists k | 0 <= k < |log| :: log[k] == Only(key, log)[i] && log[k].key == key
  {
    var init, last := log[..|log| - 1], |log| - 1;
    if i < |Only(key, init)| {
      OnlyFrom(key, init, i);
      var k :| 0 <= k < |init| && init[k] == Only(key, init)[i] && init[k].key == key;
      assert log[k] == init[k];
    } else {
      assert log[last].key == key;
    }
  }

  lemma {:induction false} NoThresholdNoError(cfg: Config, obs: seq<Alert>)
    requires forall i | 0 <= i < |obs| :: obs[i].error.None?
    ensures Run(cfg, FRESH, obs).level <= 1
  {
    if obs == [] {
    } else {
      NoThresholdNoError(cfg, obs[..|obs| - 1]);
    }
  }

  /** With uniform thresholds the last observation never finds its key at a level it cannot report. */
  lemma UniformReports(cfg: Config, log: seq<Alert>, o: Alert)
    requires Uniform(log + [o]) && o.error.None?
    ensures Isolated(cfg, log + [o], o.key).level <= 1
  {
    var all := log + [o];
    var mine := Only(o.key, all);
    forall i | 0 <= i < |mine|
      ensures mine[i].error.None?
    {
      OnlyFrom(o.key, all, i);
      var k :| 0 <= k < |all| && all[k] == mine[i] && all[k].key == o.key;
      assert all[|log|] == o;
    }
    NoThresholdNoError(cfg, mine);
  }

  /** Without a debounce every target is reached at once, so no key waits at a level. */
  lemma UndebouncedReports(cfg: Config, log: seq<Alert>, o: Alert)
    requires cfg.consecutive <= 1 && o.error.None?
    ensures Isolated(cfg, log + [o], o.key).level <= 1
  {
    IsolatedSnoc(cfg, log, o, o.key);
  }

  /** A batch never raises when its directions are known and either no change is debounced or every key
      has an error threshold on all of its observations so far or on none. */
  lemma {:induction false} CleanWhenUniform(cfg: Config, log: seq<Alert>, obs: seq<Observation>)
    requires AllSupported(obs) && (cfg.consecutive <= 1 || Uniform(log + obs))
    ensures Clean(cfg, log, obs)
  {
    if obs == [] {
    } else {
      var init, last := obs[..|obs| - 1], obs[|obs| - 1];
      var before := log + init;
      assert log + obs == before + [last];
      if cfg.consecutive > 1 {
        assert forall i | 0 <= i < |before| :: before[i] == (log + obs)[i];
      }
      CleanWhenUniform(cfg, log, init);
      if last.error.None? {
        if cfg.consecutive <= 1 {
          UndebouncedReports(cfg, before, last);
        } else {
          UniformReports(cfg, before, last);
        }
      }
    }
  }

  /** An alert far past both thresholds; the error threshold may be missing. */
  function Burning(error: Option<real>): Alert {
    Observation("k", "", 10.0, 5.0, error, High, "")
  }

  lemma {:induction false} OnlyRepeated(o: Alert, n: nat)
    ensures Only(o.key, Repeat(o, n)) == Repeat(o, n)
  {
    if n == 0 {
    } else {
      OnlyRepeated(o, n - 1);
      assert Repeat(o, n)[..n - 1] == Repeat(o, n - 1);
    }
  }

  lemma {:induction false} Repeated(o: Alert, n: nat)
    ensures forall i | 0 <= i < n :: Repeat(o, n)[i] == o
  {
    if n == 0 {
    } else {
      Repeated(o, n - 1);
    }
  }

  /** Such a batch: an alert that reaches the error level and then loses its error threshold makes the
      evaluator raise exactly when changes are debounced at all. */
  lemma LostThresholdRaises(cfg: Config)
    ensures Clean(cfg, [], Repeat(Burning(Some(8.0)), Needed(cfg)) + [Burning(None)]) <==> cfg.consecutive <= 1
  {
    var hot, n := Burning(Some(8.0)), Needed(cfg);
    Repeated(hot, n);
    if cfg.consecutive <= 1 {
      CleanWhenUniform(cfg, [], Repeat(hot, n) + [Burning(None)]);
    } else {
      StuckAtError(cfg, Repeat(hot, n));
      NotClean(cfg, Repeat(hot, n), Burning(None));
    }
  }

  lemma StuckAtError(cfg: Config, before: seq<Alert>)
    requires cfg.consecutive > 1 && before == Repeat(Burning(Some(8.0)), Needed(cfg))
    ensures Isolated(cfg, before + [Burning(None)], "k").level == 2
  {
    OnlyRepeated(Burning(Some(8.0)), Needed(cfg));
    Settles(cfg, FRESH, Burning(Some(8.0)), Needed(cfg));
    StaysAtError(cfg, AlertState(2, 2, 0), Burning(None));
    IsolatedSnoc(cfg, before, Burning(None), "k");
  }

  lemma NotClean(cfg: Config, before: seq<Alert>, o: Alert)
    requires o.error.None? && Isolated(cfg, before + [o], o.key).level == 2
    ensures !Clean(cfg, [], before + [o])
  {
    assert [] + (before + [o]) == before + [o];
  }

  /** Verdicts one by one give the clean prefix and the active list of the batch. */
  lemma PrefixVerdict(cfg: Config, log: seq<Alert>, obs: seq<Observation>, i: nat)
    requires i < |obs| && AllSupported(obs[..i])
    ensures var o, v := obs[i], Verdict(cfg, log + obs[..i], obs[i]);
      && (Clean(cfg, log, obs[..i]) ==> (Clean(cfg, log, obs[..i + 1]) <==> v.Entry?))
      && (v.Entry? ==>
            && AllSupported(obs[..i + 1])
            && log + obs[..i + 1] == log + obs[..i] + [o]
            && Active(cfg, log, obs[..i + 1]) == Active(cfg, log, obs[..i]) + v.active)
  {
    var prefix := obs[..i + 1];
    assert prefix == obs[..i] + [obs[i]] && prefix[..i] == obs[..i];
    if !obs[i].direction.Unsupported? {
      assert log + prefix == log + obs[..i] + [obs[i]];
    }
  }

  /** A batch after i observations without a raise. */
  ghost predicate Progress(cfg: Config, earlier: seq<Alert>, obs: seq<Observation>, i: nat, log: seq<Alert>,
                           active: seq<(Level, string)>)
    requires i <= |obs|
  {
    && Clean(cfg, earlier, obs[..i]) && log == earlier + obs[..i] && active == Active(cfg, earlier, obs[..i])
  }

  /** A batch that raises at observation i: the log has it unless its direction is unknown. */
  ghost predicate Stopped(cfg: Config, earlier: seq<Alert>, obs: seq<Observation>, i: nat, log: seq<Alert>)
    requires i < |obs|
  {
    && Clean(cfg, earlier, obs[..i]) && !Clean(cfg, earlier, obs[..i + 1])
    && log == earlier + obs[..i] + (if obs[i].direction.Unsupported? then [] else [obs[i]])
  }

  lemma ProgressNext(cfg: Config, earlier: seq<Alert>, obs: seq<Observation>, i: nat, log: seq<Alert>,
                     active: seq<(Level, string)>)
    requires i < |obs| && Progress(cfg, earlier, obs, i, log, active)
    ensures var v := Verdict(cfg, log, obs[i]);
      && (v.Entry? ==> !obs[i].direction.Unsupported?
                       && Progress(cfg, earlier, obs, i + 1, log + [obs[i]], active + v.active))
      && (v.Exception? ==> Stopped(cfg, earlier, obs, i, log + if obs[i].direction.Unsupported? then [] else [obs[i]]))
  {
    PrefixVerdict(cfg, earlier, obs, i);
  }

  /** The report of a batch from its active list. */
  method Finish(cfg: Config, ghost log: seq<Alert>, ghost obs: seq<Observation>, active: seq<(Level, string)>)
    returns (r: Outcome)
    requires AllSupported(obs) && active == Active(cfg, log, obs)
    ensures r.Report? && r.level == BatchLevel(cfg, log, obs)
    ensures r.message == Summary(r.level, TextsAt(cfg, log, obs, r.level))
  {
    ActiveSummary(cfg, log, obs, 0);
    r := Summarize(active);
    ActiveSummary(cfg, log, obs, r.level);
  }

  datatype Outcome =
    | Report(level: Level, message: string)
    | Raised(at: nat)

  class HealthEvaluator {
    const cfg: Config
    var states: map<string, AlertState>

    /** Every observation that was stepped, over all batches. */
    ghost var log: seq<Alert>

    ghost predicate Valid()
      reads this
    {
      forall key :: StateOf(states, key) == Isolated(cfg, log, key)
    }

    constructor (config: Config)
      ensures Valid() && cfg == config && log == []
      ensures forall key :: StateOf(states, key) == AlertState(0, 0, 0)
    {
      cfg := config;
      states := map[];
      log := [];
    }

    /** One observation: create the state if missing, step it, and list it when it is not OK. */
    method Observe(o: Observation) returns (r: Observed)
      requires Valid()
      modifies this
      ensures Valid() && log == old(log) + (if o.direction.Unsupported? then [] else [o])
      ensures r == Verdict(cfg, old(log), o)
    {
      if o.direction.Unsupported? {
        if o.key !in states {
          states := states[o.key := FRESH];
        }
        return Exception;
      }
      var state := Step(cfg, StateOf(states, o.key), o);
      states := states[o.key := state];
      forall key
        ensures StateOf(states, key) == Isolated(cfg, log + [o], key)
      {
        IsolatedSnoc(cfg, log, o, key);
      }
      log := log + [o];
      if state.level == 2 && o.error.None? {
        return Exception;
      }
      if state.level == 0 {
        return Entry([]);
      }
      var text := Format(cfg, o, state.level);
      r := Entry([(state.level, text)]);
    }

    /** A batch: the report carries the highest level and a message of up to three alerts at that level; an
        exception leaves the observations before it stepped. */
    method Evaluate(observations: seq<Observation>) returns (r: Outcome)
      requires Valid()
      modifies this
      ensures Valid()
      ensures r.Report? ==>
                && Clean(cfg, old(log), observations)
                && log == old(log) + observations
                && r.level == BatchLevel(cfg, old(log), observations)
                && r.message == Summary(r.level, TextsAt(cfg, old(log), observations, r.level))
      ensures r.Raised? ==> r.at < |observations| && Stopped(cfg, old(log), observations, r.at, log)
    {
      var active: seq<(Level, string)> := [];
      for i := 0 to |observations|
        invariant Valid() && Progress(cfg, old(log), observations, i, log, active)
      {
        ProgressNext(cfg, old(log), observations, i, log, active);
        var entry := Observe(observations[i]);
        if entry.Exception? {
          return Raised(i);
        }
        active := active + entry.active;
      }
      assert observations[..|observations|] == observations;
      r := Finish(cfg, old(log), observations, active);
    }
  }
}
