# xbot2_diagnostics: a verified model of the diagnostics pipeline

The repository accumulates high-rate samples into window statistics, publishes them as small JSON
messages, fans the messages in to an aggregator with stale detection, and shows the result to sinks
(a path-aggregated ROS tree, a rolling log, a batched database writer). A host monitor raises
debounced alerts and derives rates from counters. This project models those parts in Dafny and proves
what they promise over all inputs and all runs. `dafny verify dfyconfig.toml` checks everything.

## Contents

| file | what it models |
|---|---|
| `WindowStats.dfy` | batch definitions: mean, squared deviation, extremes, ranks; Welford's step; order of samples |
| `SampleRing.dfy` | the modular ring of newest samples and the in-place sort of its filled prefix |
| `StatAccumulator.dfy` | the C++ accumulator and its Python mirror as classes |
| `Statuses.dfy` | the status message both publishing and printing work on |
| `Thresholds.dfy` | judging a window's statistics against warning and error limits |
| `Publisher.dfy` | throttled publication in C++ and Python, with conservation of samples |
| `Json.dfy`, `JsonText.dfy` | a reader following RFC 8259 and the compact writer it undoes |
| `Utf8.dfy` | strict UTF-8 decoding, its encoder, and how escapes pass through it |
| `StatusPrinter.dfy`, `Messages.dfy` | the hand-built JSON buffer, its bytes, the message schema and the normaliser |
| `Aggregator.dfy` | the latest-wins cache with timed staleness, and its sinks |
| `Paths.dfy`, `RosSink.dfy` | splitting and joining node names, the aggregated tree, the rate limit |
| `Pipeline.dfy` | publisher, aggregator and tree composed |
| `StaleVisibility.dfy` | for which configurations the published tree shows that everything is stale |
| `Health.dfy` | the hysteresis and debounce automaton, one per key, and batch evaluation |
| `HostMonitor.dfy`, `CounterRates.dfy` | the deadline loop; rates from cumulative counters |
| `RollingLog.dfy`, `LogReplay.dfy` | the two-generation log, and reading it back |
| `InfluxSink.dfy` | the batching buffer in front of the database |

## Modelling choices

Doubles are `real` (finite values) and quantiles are the exact rationals 1/20, 1/2 and 19/20, so the
percentile index is an integer division. `std_dev` and `rms` are stated by their squares, and compared
with a limit through squares (`RootComparisons`). A published counter rate is kept as the quotient it is,
gain over elapsed time, with `PerSecond` as its number. The constant
`std::numeric_limits<double>::max()` is the constructor argument `maxDouble` of the accumulator: every
theorem holds for any value of it that bounds the samples. Clock readings, socket results, sampling
times and source batches are method arguments; where the source reads the clock several times in one
call, the readings are separate arguments in the order they are taken. In the printer a double is a
decimal token, an infinity or a not-a-number, because the buffer is text. A C++ string is a string of
characters below 0x100, one for each byte, which the aggregator decodes as UTF-8 before it parses; the
JSON reader itself works on code points. `StaleVisibility` assumes of a run that neither clock runs backwards
and that the sink's clock is ahead of the aggregator's by an offset and a delay that varies between nothing and
a lag: the sinks in front of it take their time, a synchronous database write among them. Its results hold for
all such runs and also for the serial ones alone, where no turn starts before the sink's reading in the turn
before.

## What the proofs found

- A status with an infinite or not-a-number value produces a buffer that no JSON reader accepts:
  `Render` and `Deliver` state acceptance as an if-and-only-if.
- `StatsPublisher` flushes without a time argument, so the published `duration` is always zero
  (part of `StatsPublisher.Valid`); a flush time behind the previous one wraps (`SecondsWrap`).
- The default limits are not inert: a window of more than 2^31 - 1 samples breaks them, and nothing else
  does (`DefaultsTripIff`).
- The report of a wrapped ring depends on sample order, except exactly where the three ranks meet in the
  sorted samples (`OrderIgnoredIff`).
- A negative recovery margin acts as zero and fewer than one consecutive sample acts as one, so the
  alert theorems carry no condition on either (`TargetExact`, `Needed`).
- An alert at the error level whose observation has lost its error threshold makes the evaluator raise
  after it has stepped the state, unless the observation completes a change (`RaisesIff`); it happens in
  exactly the debounced configurations (`LostThresholdRaises`) and never while each key has a threshold on
  all of its observations or on none (`CleanWhenUniform`).
- The alert of a required network link recovers exactly for a recovery margin below one half; with the
  default of 5.0 it stays at WARN for ever (`LinkRecoversIff`, `LinkStuck`).
- Splitting a built path gives its segments back exactly when the root has no slash of its own
  (`RoundTripIffSlashFree`); dictionary keys are injective for every root.
- A message on an inner path hides worse descendants of that path: `TreeCoversIff` gives the exact
  condition on the messages and `ErrorHiddenBelowOk` a tree that has such a status.
- A snapshot that the tree's rate limit drops is never offered again: a node can report OK once, fall
  silent, be marked stale, and stay published at OK for ever (`OkForEver`). Every run publishes the tree of a
  cache that has gone stale if and only if no node sends the stale level itself and publication period plus
  lag are at most the check interval and at most the timeout (`StaleShownIff`; the sink takes positive rates
  only, so its period is positive). The shipped configuration has a timeout of 5 s, an interval of 1 s and
  1 Hz. It leaves no room for any lag: as soon as the delay of the sink's reading may vary, there is a run that
  loses a stale snapshot, while a shorter period tolerates the difference to 1 s (`ShippedFits`). Where period
  and lag exceed the timeout one node is enough to fail (`OneNodeFails`); where they exceed the interval only,
  it takes two nodes that go stale at successive checks (`TwoNodesFail`). If a node may send the stale level,
  every period fails (`OwnStaleFails`). On a single run, `ShowsCacheIff` compares the published array with the current tree, and `SilencePublishedIff` says when the
  leaf of a silent node is published as stale.
- An integer stamp too large for a double passes the schema, and converting it raises an error that nothing
  catches (`ValidateAndNormalize`, `LongStampOverflows`).
- A value whose key is "level" takes the place of the message's level in the database (`LevelFieldIff`,
  `LevelLost`), and paths of fewer than two segments are not told apart from longer ones (`PointKeepsPathIff`).
- Closing the database sink a second time writes the last batch again unless it was empty
  (`CloseTwice`).
- Samples of a counter at a time that does not advance publish no rate, and their increments are lost
  (`RatesTelescope` accounts for them).

## Model

| member | source | states |
|---|---|---|
| WindowStats.WelfordStep | include/xbot2_diagnostics/stats_accumulator.h:56-62 | one online step turns the batch mean and squared deviation of a window into those of the longer window |
| WindowStats.MomentIdentity | include/xbot2_diagnostics/stats_accumulator.h:60-63 | M2 = sum_sq - n*mean^2, n*M2 = n*sum_sq - sum^2, and M2 >= 0 for every window |
| WindowStats.ReportIsConsistent | include/xbot2_diagnostics/stats_accumulator.h:76-92 | min <= mean <= max, min <= p05 <= p50 <= p95 <= max, both radicands non-negative, rms^2 = mean^2 + M2/n |
| WindowStats.SortedGivesRank | include/xbot2_diagnostics/stats_accumulator.h:83-92 | entry k of a sorted rearrangement has at most k samples below it and more than k at or below it |
| WindowStats.RankMonotone | include/xbot2_diagnostics/stats_accumulator.h:90-92 | ranks order values, so the sample of a rank is unique |
| WindowStats.DescriptionUnique | include/xbot2_diagnostics/stats_accumulator.h:72-95 | the batch description of a window leaves exactly one possible report |
| WindowStats.MomentsIgnoreOrder | include/xbot2_diagnostics/stats_accumulator.h:75-80 | count, mean, deviation, rms and extremes are the same for every order of the samples |
| WindowStats.OrderIgnoredIff | include/xbot2_diagnostics/stats_accumulator.h:66-95 | the report ignores sample order exactly when percentiles are off, the ring has not wrapped, or each of the three ranks has the same value among the smallest and among the largest samples |
| WindowStats.WrappedPercentilesDependOnOrder | include/xbot2_diagnostics/stats_accumulator.h:66-67 | for two samples in a ring of one, order matters exactly when they differ |
| SampleRing.RingWrite | include/xbot2_diagnostics/stats_accumulator.h:66-67 | a modular write keeps the slots on the newest samples, rotated so the oldest is overwritten next |
| SampleRing.PrefixIsNewest | include/xbot2_diagnostics/stats_accumulator.h:83-86 | the filled prefix is, as a multiset, exactly the newest min(w, cap) samples |
| SampleRing.SortPrefix | include/xbot2_diagnostics/stats_accumulator.h:84-86 | the prefix is sorted in place, keeps its samples, and nothing behind it changes |
| Accumulators.OnlineIsBatch | include/xbot2_diagnostics/stats_accumulator.h:56-62 | after any samples the online fields equal count, mean and squared deviation of the window |
| Accumulators.StatAccumulator.Update | include/xbot2_diagnostics/stats_accumulator.h:56-68 | the object describes the window extended by the sample |
| Accumulators.StatAccumulator.Flush | include/xbot2_diagnostics/stats_accumulator.h:72-96 | returns the batch description of the window since the last flush and the seconds since then, and starts an empty one; the duration times 10^9 is the difference of the nanosecond readings |
| Accumulators.PercentilesAreRanks | include/xbot2_diagnostics/stats_accumulator.h:87-92 | reading the sorted prefix at floor(q*(n-1)) gives the samples of those ranks |
| Accumulators.SecondsTelescope | include/xbot2_diagnostics/stats_accumulator.h:74 | durations of consecutive windows add up when the clock moves forward |
| Accumulators.SecondsWrap | include/xbot2_diagnostics/stats_accumulator.h:74 | a flush time behind the previous one wraps around 2^64 nanoseconds |
| Accumulators.SecondsElapsed | include/xbot2_diagnostics/stats_accumulator.h:74 | a duration is the difference of forward readings in nanoseconds, and what is missing to 2^64 of backward ones |
| Accumulators.VectorMatchesKeys | include/xbot2_diagnostics/stats_accumulator.h:19-54 | every value stands under the key that names it, and the lengths agree exactly when the window was not empty or percentiles are off |
| Accumulators.PyStatAccumulator.Update | python/src/pyxbot2_diagnostics/stats_accumulator.py:34-46 | the Python object describes the window extended by the sample |
| Accumulators.PyStatAccumulator.Flush | python/src/pyxbot2_diagnostics/stats_accumulator.py:48-65 | the Python report is the batch description of the window, rms aside |
| Accumulators.MirrorsAgree | python/src/pyxbot2_diagnostics/stats_accumulator.py:19-25 | both accumulators report the same for the same window, rms aside |
| Publisher.DiagPublisher.Send | include/xbot2_diagnostics/publisher.h:181-182 | recorded publish times stay at least the interval apart |
| Publisher.DiagPublisher.FillKeyedValues | include/xbot2_diagnostics/publisher.h:153-160 | pairs values with keys up to the shorter list |
| Publisher.DiagPublisher.PublishStats | include/xbot2_diagnostics/publisher.h:115-138 | until the interval has passed since the last message (or the construction) the accumulator is left alone; otherwise the whole window and its duration are flushed and sent once |
| Publisher.PairsNamed | include/xbot2_diagnostics/publisher.h:126-137 | the pairs are ten and name every statistic, each under its own key |
| Publisher.StatsPublisher.UpdateAndPublish | include/xbot2_diagnostics/publisher.h:256-268 | a message is sent, at the last clock reading, exactly when the interval has passed since the last one (or the construction); flushed windows and pending samples are exactly the samples given, and the inner throttle test never drops a window |
| Publisher.CountsAddUp | include/xbot2_diagnostics/publisher.h:256-268 | reports of some windows count exactly the samples of those windows |
| Thresholds.FirstTripped | include/xbot2_diagnostics/publisher.h:323-355 | the check reported is the first of the eight, in their order, that trips; none is reported exactly when none trips |
| Thresholds.RootComparisons | include/xbot2_diagnostics/publisher.h:347-348 | comparing squares decides exactly what comparing the root mean square with a limit would |
| Thresholds.LevelFromSamples | include/xbot2_diagnostics/publisher.h:321-373 | the level is ERROR exactly when the samples themselves break the error limits and WARNING exactly when they break only the warning limits |
| Thresholds.DefaultsTripIff | include/xbot2_diagnostics/publisher.h:224-233 | the default limits are broken exactly by windows of more samples than a 32-bit count holds |
| Publisher.MessagesFromSamples | include/xbot2_diagnostics/publisher.h:256-268 | every message sent describes its own window under the prefixed keys, at the level its samples and the limits of that moment give |
| Publisher.PublishedCounts | include/xbot2_diagnostics/publisher.h:256-268 | sum of published counts + pending samples = samples given |
| Publisher.PyDiagPublisher.PublishStats | python/src/pyxbot2_diagnostics/publisher.py:60-68 | flushes exactly when the interval has passed since the last recorded time or nothing was recorded; only a delivery restarts the interval; recorded times keep it |
| Publisher.RunPython | python/src/pyxbot2_diagnostics/publisher.py:112-137 | on every run, delivered + dropped + pending samples are the samples given, in order |
| Publisher.DeliveredPlusDropped | python/src/pyxbot2_diagnostics/publisher.py:86-91 | delivered and dropped samples make up everything flushed |
| JsonText.ReadEscaped | include/xbot2_diagnostics/publisher.h:192-210 | an escaped string reads back unchanged and ends at its closing quote, for every string |
| JsonText.ReadBack | include/xbot2_diagnostics/publisher.h:162-179 | every JSON value written compactly reads back unchanged and nothing behind it is consumed |
| Json.BlankSkipped | python/src/pyxbot2_diagnostics/aggregator/aggregator.py:85 | white space in front of a value is skipped, all of it and nothing else |
| Json.EscapesMean | python/src/pyxbot2_diagnostics/aggregator/aggregator.py:85 | every escape by a letter stands for its character |
| Json.PairMeans | python/src/pyxbot2_diagnostics/aggregator/aggregator.py:85 | two escaped surrogate halves read as the character whose halves they are |
| StatusPrinter.AppendEscaped | include/xbot2_diagnostics/publisher.h:192-210 | appends exactly the escaped bytes |
| StatusPrinter.AppendDouble | include/xbot2_diagnostics/publisher.h:185-190 | appends the decimal token, or the signed word for an infinity or not-a-number |
| StatusPrinter.NonFiniteRejected | include/xbot2_diagnostics/publisher.h:185-190 | the tokens printed for infinities and not-a-number are no JSON value |
| StatusPrinter.FiniteText | include/xbot2_diagnostics/publisher.h:164-179 | with finite numbers the hand-built buffer is the compact text of the intended document |
| StatusPrinter.ReadingTheBuffer | include/xbot2_diagnostics/publisher.h:162-179 | a reader recovers the document, or rejects the buffer exactly when some number is not finite |
| StatusPrinter.Render | include/xbot2_diagnostics/publisher.h:162-183 | the printing loops build a buffer with that property |
| StatusPrinter.DocumentAccepted | python/src/pyxbot2_diagnostics/aggregator/schema/diagnostics_message.schema.json:5-73 | the schema accepts a published document exactly when name and keys are non-empty and the level is 0..3 |
| Utf8.DecodesIffEncoded | python/src/pyxbot2_diagnostics/aggregator/aggregator.py:84-86 | bytes decode to a text exactly when they are its UTF-8 encoding, so overlong forms, surrogates and cut sequences are refused |
| Utf8.DecodeEscape | include/xbot2_diagnostics/publisher.h:192-210 | escaping bytes and decoding them is decoding them and escaping characters, invalid bytes included |
| StatusPrinter.StatusTextDecodes | python/src/pyxbot2_diagnostics/aggregator/aggregator.py:84-86 | the buffer decodes exactly when each of its strings does, and is then the buffer of the decoded strings |
| StatusPrinter.Deliver | python/src/pyxbot2_diagnostics/aggregator/aggregator.py:80-90 | print, decode, parse, normalise: accepted exactly for finite numbers, valid UTF-8, non-empty name and keys, a known level and a stamp that converts, and then the same texts and ordered pairs arrive |
| Messages.ValidateAndNormalize | python/src/pyxbot2_diagnostics/aggregator/aggregator.py:124-158 | refuses exactly what the schema refuses, raises exactly on an accepted integer stamp that rounds beyond the largest double, and otherwise copies every field and entry in order |
| Messages.Validate | python/src/pyxbot2_diagnostics/aggregator/schema/diagnostics_message.schema.json:5-73 | walking the schema property by property accepts exactly what the accept condition says |
| Messages.PointMeans | python/src/pyxbot2_diagnostics/aggregator/aggregator.py:154 | the value of a token without exponent, with its point moved behind the last digit, is the integer its digits write |
| Messages.ExponentMeans | python/src/pyxbot2_diagnostics/aggregator/aggregator.py:154 | an exponent moves the point by that many places, to the right or to the left |
| Messages.MovedMeans | python/src/pyxbot2_diagnostics/aggregator/aggregator.py:154 | moving the point multiplies or divides by that power of ten |
| Messages.OverflowsIff | python/src/pyxbot2_diagnostics/aggregator/aggregator.py:154 | conversion raises exactly for integer tokens whose value lies at or beyond 2^1024 - 2^970 on either side |
| Messages.LongStampOverflows | python/src/pyxbot2_diagnostics/aggregator/aggregator.py:154 | such stamps: a one followed by 342 zeros or more |
| Aggregator.CacheFromHistory | python/src/pyxbot2_diagnostics/aggregator/aggregator.py:160-194 | a node is cached and has a last-seen time exactly when it has sent; its entry is its last message, or, once a later check has found it silent, the identity and values of that message at level 3 with text STALE and the time of the first such check |
| Aggregator.FirstExpiryMeans | python/src/pyxbot2_diagnostics/aggregator/aggregator.py:163-165 | the recorded stale time is that of the first check that found the node silent |
| Aggregator.MarkedByPoll | python/src/pyxbot2_diagnostics/aggregator/aggregator.py:215-219 | any poll at or after last seen + timeout + interval leaves the node marked |
| Aggregator.DetectedWithin | python/src/pyxbot2_diagnostics/aggregator/aggregator.py:206-220 | with polls at most P apart the mark comes no later than last seen + timeout + interval + P |
| Aggregator.NeverMarkedEarly | python/src/pyxbot2_diagnostics/aggregator/aggregator.py:164-165 | no check at or before the end of the timeout marks a node; a new message shows at once |
| Aggregator.DiagnosticsAggregator.MarkStaleNodes | python/src/pyxbot2_diagnostics/aggregator/aggregator.py:160-179 | marks every silent node and reports exactly whether the cache changed |
| Aggregator.DiagnosticsAggregator.ProcessMessage | python/src/pyxbot2_diagnostics/aggregator/aggregator.py:186-194 | the cache stays the replay of the history, and every sink is given the message and then the new cache |
| Aggregator.DiagnosticsAggregator.PollOnce | python/src/pyxbot2_diagnostics/aggregator/aggregator.py:206-220 | drains all sources in order, then checks; a sink is given a snapshot per message and one per check that changed something, no others |
| Aggregator.SinksFollow | python/src/pyxbot2_diagnostics/aggregator/aggregator.py:181-194 | after every history a sink has had every message once and in order, and the last thing it was given is the current cache |
| Paths.PathInjective | python/src/pyxbot2_diagnostics/aggregator/sinks/ros_diagnostics_sink.py:117-119 | two different segment prefixes never share a key |
| Paths.PathGrows | python/src/pyxbot2_diagnostics/aggregator/sinks/ros_diagnostics_sink.py:117-119 | the first path is a slash and the root, and each next one adds a slash and a segment |
| Paths.SegmentsOfName | python/src/pyxbot2_diagnostics/aggregator/sinks/ros_diagnostics_sink.py:111-115 | the segments of a joined name are the root and then those segments, less a first one that is the root |
| Paths.SlashesIgnored | python/src/pyxbot2_diagnostics/aggregator/sinks/ros_diagnostics_sink.py:111-115 | outer and doubled slashes do not change the segments of any name |
| Paths.LessMeans | python/src/pyxbot2_diagnostics/aggregator/sinks/ros_diagnostics_sink.py:136 | strings are ordered by their first difference, a proper prefix first |
| Paths.RoundTripIffSlashFree | python/src/pyxbot2_diagnostics/aggregator/sinks/ros_diagnostics_sink.py:111-119 | splitting a built path gives its segments back exactly when the root is slash-free |
| Paths.RootNameIsStripped | python/src/pyxbot2_diagnostics/aggregator/sinks/ros_diagnostics_sink.py:61 | the configured root is the given one without the slashes at either end, or "Robot" where nothing is left |
| Paths.SortKeys | python/src/pyxbot2_diagnostics/aggregator/sinks/ros_diagnostics_sink.py:136 | the keys of a dictionary, each once, in strictly increasing order |
| RosSink.BuildAggregatedStatuses | python/src/pyxbot2_diagnostics/aggregator/sinks/ros_diagnostics_sink.py:121-138 | every prefix path of every node once in increasing order; the last occupying message, or the worst level beneath |
| RosSink.LeafOfName | python/src/pyxbot2_diagnostics/aggregator/sinks/ros_diagnostics_sink.py:111-130 | the leaf of a node given by its segments is the root and those segments behind slashes, the root once |
| RosSink.StatusSays | python/src/pyxbot2_diagnostics/aggregator/sinks/ros_diagnostics_sink.py:76-103 | a status copies level, message, hardware id and values of the message that wins its path, or gives the worst level beneath by its name |
| RosSink.UnoccupiedAncestorsDominate | python/src/pyxbot2_diagnostics/aggregator/sinks/ros_diagnostics_sink.py:131-137 | levels never decrease on the way up to an unoccupied ancestor |
| RosSink.TreeCoversIff | python/src/pyxbot2_diagnostics/aggregator/sinks/ros_diagnostics_sink.py:127-138 | every status is at least as bad as everything beneath it exactly when no message that is last of its canonical path has a worse one on an extension of that path |
| RosSink.ErrorHiddenBelowOk | python/src/pyxbot2_diagnostics/aggregator/sinks/ros_diagnostics_sink.py:130-137 | the tree of an OK node with an error below it has a status for that node, at OK |
| RosSink.TreeUnique | python/src/pyxbot2_diagnostics/aggregator/sinks/ros_diagnostics_sink.py:121-138 | the tree is a function of the messages |
| RosSink.TreeOfIff | python/src/pyxbot2_diagnostics/aggregator/sinks/ros_diagnostics_sink.py:121-138 | the tree of one snapshot is that of another exactly when both put the same status on every path |
| RosSink.ShareLeafIff | python/src/pyxbot2_diagnostics/aggregator/sinks/ros_diagnostics_sink.py:127-130 | two nodes share a leaf exactly when their canonical segments are the same |
| RosSink.RosDiagnosticsSink.PublishState | python/src/pyxbot2_diagnostics/aggregator/sinks/ros_diagnostics_sink.py:143-153 | publishes the tree of the given states, at most once per period; everything published so far are the trees of the accepted snapshots |
| RosSink.PublishedSinceIff | python/src/pyxbot2_diagnostics/aggregator/sinks/ros_diagnostics_sink.py:143-149 | from some snapshot on, one was published exactly when one of them came at least a period after the publication before them |
| Pipeline.StatsMessageAccepted | python/src/pyxbot2_diagnostics/aggregator/schema/diagnostics_message.schema.json:5-73 | every message a stats publisher has sent is accepted by the schema exactly when its node has a name, whatever the decimal tokens |
| Pipeline.DeliverStats | python/src/pyxbot2_diagnostics/aggregator/aggregator.py:80-90 | a message a stats publisher has sent arrives as bytes exactly when its node is non-empty, node, hardware id, message and statistic are valid UTF-8 and the stamp converts; it then has the decoded texts, the level its own samples give and, in order, the tokens of its window's statistics under their prefixed keys |
| Pipeline.Drive | python/src/pyxbot2_diagnostics/aggregator/aggregator.py:181-219 | aggregator and sink run together: the sink is offered exactly the snapshots of the history |
| Pipeline.ShowsCacheIff | python/src/pyxbot2_diagnostics/aggregator/sinks/ros_diagnostics_sink.py:143-153 | the array published last is the tree of the snapshot accepted last, and of the current cache exactly when both put the same status on every path |
| Pipeline.NewestMessageShown | python/src/pyxbot2_diagnostics/aggregator/sinks/ros_diagnostics_sink.py:127-153 | after a message, the array published last shows it at its leaf (or a later node with the same segments) if its snapshot is accepted, and is the earlier array if not |
| Pipeline.SilenceIsMarked | python/src/pyxbot2_diagnostics/aggregator/aggregator.py:160-179 | a node silent up to a poll past timeout and interval was marked by one of the polls |
| Pipeline.SilenceShownIff | python/src/pyxbot2_diagnostics/aggregator/sinks/ros_diagnostics_sink.py:143-153 | the snapshot shown last marks a silent node exactly when a snapshot from the marking poll on was accepted or the one shown before that poll marked it already |
| Pipeline.SilenceReachesTheTree | python/src/pyxbot2_diagnostics/aggregator/sinks/ros_diagnostics_sink.py:131-153 | once such a snapshot was accepted, every segment prefix of the node is published, at STALE or worse where no message occupies it, and its leaf is its own stale entry unless a later node has the same segments |
| Pipeline.SilencePublishedIff | python/src/pyxbot2_diagnostics/aggregator/sinks/ros_diagnostics_sink.py:131-153 | the leaf of a silent node that is last of its path is published at STALE exactly when a snapshot from the marking poll on was accepted or the one shown before marked it already |
| Pipeline.NothingOfferedAgain | python/src/pyxbot2_diagnostics/aggregator/aggregator.py:215-219 | once every entry is stale no number of polls offers a snapshot |
| Pipeline.OkForEver | python/src/pyxbot2_diagnostics/aggregator/sinks/ros_diagnostics_sink.py:143-149 | a run whose only node is stale in the cache and published at OK, whatever polls follow |
| StaleVisibility.AlwaysPending | python/src/pyxbot2_diagnostics/aggregator/sinks/ros_diagnostics_sink.py:143-149 | with a positive period that with the lag stays within interval and timeout, after every run the cache is shown and was published by the latest check, or some entry that is not stale was heard of after the latest publication (each up to the lag) |
| StaleVisibility.StaleShownIff | python/src/pyxbot2_diagnostics/aggregator/sinks/ros_diagnostics_sink.py:143-149 | every run, with any delays of the sink's reading up to the lag, shows a cache that is all stale exactly when no node may send the stale level and period plus lag are at most the check interval and the timeout (or the period is not positive); for serial runs the condition is the same |
| StaleVisibility.StaleIsPublished | python/src/pyxbot2_diagnostics/aggregator/sinks/ros_diagnostics_sink.py:143-153 | with such a period the array published last is the tree of a cache that is all stale |
| StaleVisibility.OneNodeFails | python/src/pyxbot2_diagnostics/aggregator/aggregator.py:160-179 | with period plus lag above the timeout, a run of one message and one check whose stale snapshot is dropped |
| StaleVisibility.TwoNodesFail | python/src/pyxbot2_diagnostics/aggregator/aggregator.py:215-219 | with period plus lag above the interval but not the timeout, a run of two nodes marked at successive checks whose second snapshot is dropped |
| StaleVisibility.OwnStaleFails | python/src/pyxbot2_diagnostics/aggregator/schema/diagnostics_message.schema.json:5-73 | when nodes may send level 3, as the schema lets them, every positive period has a run of two messages whose stale snapshot is dropped |
| StaleVisibility.ShippedFits | config/aggregator.yaml:3-19 | with the shipped timeout and interval, 1 Hz fits for no positive lag and a shorter period for lags up to the difference to one second |
| Health.TargetExact | python/src/pyxbot2_diagnostics/host_monitor/health.py:32-51 | a level is entered at its threshold and left only past the margin, in either direction |
| Health.TargetIdempotent | python/src/pyxbot2_diagnostics/host_monitor/health.py:32-51 | a reached target is kept by the same observation |
| Health.TargetMonotone | python/src/pyxbot2_diagnostics/host_monitor/health.py:32-51 | the target grows with severity and with the current level |
| Health.StateFromHistory | python/src/pyxbot2_diagnostics/host_monitor/health.py:56-69 | candidate and count are the latest target and the length of its run since the last change; count < N |
| Health.RunReachable | python/src/pyxbot2_diagnostics/host_monitor/health.py:56-69 | in every reachable state count is zero exactly when candidate and level agree |
| Health.ChangesExactlyAfterN | python/src/pyxbot2_diagnostics/host_monitor/health.py:62-69 | a level changes exactly when the last N observations since the previous change ask for the same other level |
| Health.ChatterBound | python/src/pyxbot2_diagnostics/host_monitor/health.py:62-69 | changes * N + count never exceeds the number of observations |
| Health.Settles | python/src/pyxbot2_diagnostics/host_monitor/health.py:55-69 | a constant signal reaches its final level within N observations, stays, and passes through no third level |
| Health.NoChatterInBand | python/src/pyxbot2_diagnostics/host_monitor/health.py:40-50 | a signal confined to the hysteresis band keeps an alert at WARN |
| Health.Duality | python/src/pyxbot2_diagnostics/host_monitor/health.py:35-51 | a low alert behaves as a high alert on negated values and thresholds, after every run |
| Health.IsolatedSnoc | python/src/pyxbot2_diagnostics/host_monitor/health.py:56 | an observation steps the automaton of its own key and of no other |
| Health.BatchLevelIsMax | python/src/pyxbot2_diagnostics/host_monitor/health.py:79-81 | the batch level is the highest level any observation's key had right after that observation |
| Health.HealthEvaluator.Observe | python/src/pyxbot2_diagnostics/host_monitor/health.py:55-77 | every key's state equals that of a fresh automaton run on that key's observations alone |
| Health.Format | python/src/pyxbot2_diagnostics/host_monitor/health.py:70-77 | the text of an active alert gives its value against the threshold of its level |
| Health.JoinThree | python/src/pyxbot2_diagnostics/host_monitor/health.py:79-84 | joins the first three texts with "; " |
| Health.RaisesIff | python/src/pyxbot2_diagnostics/host_monitor/health.py:44-77 | an observation raises exactly for an unknown direction, or without an error threshold at the error level when it does not complete a change |
| Health.CleanWhenUniform | python/src/pyxbot2_diagnostics/host_monitor/health.py:53-77 | a batch of known directions never raises when nothing is debounced or each key has an error threshold on all of its observations or on none |
| Health.LostThresholdRaises | python/src/pyxbot2_diagnostics/host_monitor/health.py:70-77 | a batch that raises in exactly the debounced configurations |
| Health.LinkRecoversIff | python/src/pyxbot2_diagnostics/host_monitor/collectors.py:506-512 | the alert of a required link that stays up returns to OK within N samples exactly for a margin below one half |
| Health.LinkStuck | python/src/pyxbot2_diagnostics/host_monitor/collectors.py:506-512 | with a larger margin it stays at WARN whatever the link does |
| Health.HealthEvaluator.Evaluate | python/src/pyxbot2_diagnostics/host_monitor/health.py:53-84 | the batch level and its message of up to three alerts, or where and why the batch raised and what was stepped before |
| HostMonitor.Run | python/src/pyxbot2_diagnostics/host_monitor/monitor.py:105-115 | a round on time moves the deadline one interval and sleeps until it, an overrun resets it to the moment sampling goes on; so samples keep to the schedule of the next row |
| HostMonitor.NeverEarlyNoDrift | python/src/pyxbot2_diagnostics/host_monitor/monitor.py:107-115 | sample n starts no earlier than n - m intervals after deadline m, for every pattern of overruns, and deadlines are exactly on that grid if and only if no round in between passed its deadline (an overrun that ends exactly on it, with no time between the two clock readings, stays on the grid) |
| CounterRates.RatesTelescope | python/src/pyxbot2_diagnostics/host_monitor/collectors.py:219-229 | integrated rates plus increments seen while time stood still are all positive increments |
| CounterRates.RatesAddUp | python/src/pyxbot2_diagnostics/host_monitor/collectors.py:425-437 | at increasing times integrated rates are at least last - first, with equality exactly for counters that never went backwards |
| CounterRates.DiskIoCollector.Sample | python/src/pyxbot2_diagnostics/host_monitor/collectors.py:417-437 | everything published is exactly the rates of the readings; missing counters only stretch the next interval |
| CounterRates.BusyPercentMeans | python/src/pyxbot2_diagnostics/host_monitor/collectors.py:433-435 | the busy percentage lies in 0..100, is 100 exactly when the disk was busy all the time, and otherwise gives the busy time back |
| CounterRates.DiskRatesAddUp | python/src/pyxbot2_diagnostics/host_monitor/collectors.py:425-437 | in every reachable state what was published of both counters adds up to their increments |
| CounterRates.StretchGrows | python/src/pyxbot2_diagnostics/host_monitor/collectors.py:489-501 | a sample of an interface that stays present adds one rate to each of its eight counters, or none if time stood still |
| CounterRates.NetworkCollector.Sample | python/src/pyxbot2_diagnostics/host_monitor/collectors.py:464-533 | exactly which interfaces get rates, a link state and a link alert, and when a stretch goes on or starts afresh |
| CounterRates.NetworkRatesAddUp | python/src/pyxbot2_diagnostics/host_monitor/collectors.py:489-533 | in every reachable state, on the stretch an included interface has stayed present, each counter's published rates add up to its increments |
| RollingLog.JsonFileSink.HandleMessage | python/src/pyxbot2_diagnostics/aggregator/sinks/json_file_sink.py:28-40 | appends the line, rolling first; backup and log always hold whole lines, in order and without a gap up to the newest |
| RollingLog.JsonFileSink.RollIfNeeded | python/src/pyxbot2_diagnostics/aggregator/sinks/json_file_sink.py:20-26 | a full log replaces the backup, otherwise nothing moves |
| RollingLog.NewestLinesKept | python/src/pyxbot2_diagnostics/aggregator/sinks/json_file_sink.py:20-40 | backup then log are a suffix of everything written: all of it, or at least the newest limit bytes |
| RollingLog.DiskIsBounded | python/src/pyxbot2_diagnostics/aggregator/sinks/json_file_sink.py:20-40 | neither file exceeds the limit by as much as the longest line |
| LogReplay.CompactIsStorable | python/src/pyxbot2_diagnostics/aggregator/sinks/json_file_sink.py:32-36 | the compact text of every normalised message is one line of JSON that says it |
| LogReplay.ReplayKept | python/src/pyxbot2_diagnostics/aggregator/sinks/json_file_sink.py:20-40 | after any run, reading backup and log line by line gives exactly the newest messages that rolling has kept, in order, whatever the spelling of their JSON |
| InfluxSink.InfluxDBSink.HandleMessage | python/src/pyxbot2_diagnostics/aggregator/sinks/influxdb_sink.py:78-123 | an enabled sink buffers exactly the point of the message, tags, fields and time, and raises with nothing changed exactly when a value is an integer too large for a double |
| InfluxSink.Coerce | python/src/pyxbot2_diagnostics/aggregator/sinks/influxdb_sink.py:87-92 | float() of a value with its fallback, and exactly when it raises |
| InfluxSink.BuildFields | python/src/pyxbot2_diagnostics/aggregator/sinks/influxdb_sink.py:85-95 | a key holds the message text, else the last value given under it, else the level; no fields at all exactly when some value raises |
| InfluxSink.LevelFieldIff | python/src/pyxbot2_diagnostics/aggregator/sinks/influxdb_sink.py:85-95 | a point carries its message's level exactly when no value is called "level" or the last such value is that number |
| InfluxSink.LevelLost | python/src/pyxbot2_diagnostics/aggregator/sinks/influxdb_sink.py:85-95 | an error with a value called "level" of another number is stored at that number |
| InfluxSink.InfluxDBSink.Flush | python/src/pyxbot2_diagnostics/aggregator/sinks/influxdb_sink.py:129-142 | attempted batches then the buffer are the handled points in order, batches at least one interval apart |
| InfluxSink.InfluxDBSink.Close | python/src/pyxbot2_diagnostics/aggregator/sinks/influxdb_sink.py:144-152 | the first close attempts exactly the remainder, and the buffer stays |
| InfluxSink.InfluxDBSink.CloseTwice | python/src/pyxbot2_diagnostics/aggregator/sinks/influxdb_sink.py:144-152 | a second close repeats the remainder, harmless exactly when it is empty |
| InfluxSink.PointKeepsPathIff | python/src/pyxbot2_diagnostics/aggregator/sinks/influxdb_sink.py:82-109 | component, name and measurement rejoin to the path's segments exactly when there are two at least |

## Left out

- Accumulators.StatAccumulator.Update: does not model the 64-bit wrap of the sample counter and the write index, which needs 2^64 samples in one window.
- Accumulators.StatAccumulator.Flush: does not model rounding; over doubles 0.05 * (n - 1) may round differently from the exact quotient.
- Accumulators.VectorMatchesKeys: the std_dev and rms entries hold the squares of the published numbers, whose roots are not rational; `Pipeline.DeliverStats` inherits this.
- Publisher.DiagPublisher.Send: does not model exceptions of the socket; a refused non-blocking send is an ignored result, as in the source.
- Health.HealthEvaluator.Evaluate: takes the printing of a number with one decimal as a function.
- InfluxSink.InfluxDBSink.HandleMessage: takes what becomes of a string, null or list value (float() where it parses, else str()) as a function.
- Messages.ValidateAndNormalize: does not model the limit Python puts on the number of digits of an integer it parses; an error that ends the poll (here or in a sink) ends the modelled run.
- RollingLog.JsonFileSink.HandleMessage: takes the serialised line as text; one character stands for one byte of it. The escapes and number spellings of `json.dumps` are not modelled: `LogReplay.ReplayKept` holds for every one-line text of JSON that says the message, and the compact writer is shown to make one (`LogReplay.CompactIsStorable`).
- CounterRates.NetworkCollector.Sample: leaves out the totals, speed, MTU and summary of an interface; the CPU collector derives its three rates in the same way and is covered by the lemmas on readings.
- `std::to_chars`, so the link from a real statistic to its decimal token; `std::sort`, replaced by an insertion sort with the same contract.
- Thresholds.FirstTripped: gives the check that tripped instead of the formatted message, whose text is an argument of the publisher.
- RosSink.ToStatus: keeps values as they are instead of converting them to strings, and the array header has no stamp.
- The isolation of failing collectors in `sample_once` and the 30 second limit on logging them.
- ZMQ, ROS, InfluxDB, psutil, subprocess and signal calls, configuration loading, command-line parsing, tegrastats, nvidia-smi and Xenomai parsing.
- `ros2_publisher.h`, the stdout sink and the ROS source, which repeat logic modelled here over another transport.
