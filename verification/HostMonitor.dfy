/** The sampling loop of the host monitor: deadlines that never drift and never run early. */
module HostMonitor {

  /** What the outside contributes to one round: how long sampling takes, how late the sleep returns
      (sleeps never return early), and the time between the two clock readings of an overrun. */
  datatype Round = Round(work: real, late: real, gap: real)

  ghost predicate Physical(rounds: seq<Round>) {
    forall i | 0 <= i < |rounds| :: rounds[i].work >= 0.0 && rounds[i].late >= 0.0 && rounds[i].gap >= 0.0
  }

  /** Round i ended without an overrun: some time was left to sleep. */
  ghost predicate OnTime(starts: seq<real>, deadlines: seq<real>, rounds: seq<Round>, interval: real, i: nat)
    requires i < |starts| && i < |deadlines| && i < |rounds|
  {
    starts[i] + rounds[i].work < deadlines[i] + interval
  }

  /** A run of the loop: when each sample starts and what the deadline is at that moment. */
  ghost predicate IsRun(t0: real, interval: real, rounds: seq<Round>, starts: seq<real>, deadlines: seq<real>) {
    && |starts| == |deadlines| == |rounds| + 1 && starts[0] == deadlines[0] == t0
    && forall i | 0 <= i < |rounds| ::
         if OnTime(starts, deadlines, rounds, interval, i)
         then deadlines[i + 1] == deadlines[i] + interval && starts[i + 1] == deadlines[i + 1] + rounds[i].late
         else deadlines[i + 1] == starts[i + 1] == starts[i] + rounds[i].work + rounds[i].gap
  }

  /** No sample starts before its deadline, and a deadline moves by at least one interval. */
  lemma OneRound(t0: real, interval: real, rounds: seq<Round>, starts: seq<real>, deadlines: seq<real>, n: nat)
    requires Physical(rounds) && IsRun(t0, interval, rounds, starts, deadlines) && n < |starts|
    ensures starts[n] >= deadlines[n]
    ensures n > 0 ==> deadlines[n] >= deadlines[n - 1] + interval
    ensures n > 0 ==> (deadlines[n] == deadlines[n - 1] + interval <==>
                         !Slips(starts, deadlines, rounds, interval, n - 1))
  {
    if n > 0 {
      assert OnTime(starts, deadlines, rounds, interval, n - 1) ==> deadlines[n - 1 + 1] == deadlines[n - 1] + interval;
    }
  }

  /** Round i passed its deadline: it overran, and the clock was past the deadline when it was read again. */
  ghost predicate Slips(starts: seq<real>, deadlines: seq<real>, rounds: seq<Round>, interval: real, i: nat)
    requires i < |starts| && i < |deadlines| && i < |rounds|
  {
    && !OnTime(starts, deadlines, rounds, interval, i)
    && starts[i] + rounds[i].work + rounds[i].gap > deadlines[i] + interval
  }

  /** The k-th tick of a grid. */
  function Tick(start: real, k: nat, interval: real): real {
    if k == 0 then start else Tick(start, k - 1, interval) + interval
  }

  lemma {:induction false} TickIs(start: real, k: nat, interval: real)
    ensures Tick(start, k, interval) == start + k as real * interval
  {
    if k == 0 {
    } else {
      TickIs(start, k - 1, interval);
      assert k as real * interval == (k - 1) as real * interval + interval;
    }
  }

  /** Deadlines that move by at least one interval stay on the grid exactly while none moves by more. */
  lemma {:induction false} GridIff(deadlines: seq<real>, interval: real, moved: seq<bool>, m: nat, n: nat)
    requires m <= n <= |moved| < |deadlines|
    requires forall i | 0 <= i < |moved| ::
               deadlines[i + 1] >= deadlines[i] + interval
               && (moved[i] <==> deadlines[i + 1] > deadlines[i] + interval)
    ensures deadlines[n] >= Tick(deadlines[m], n - m, interval)
    ensures deadlines[n] == Tick(deadlines[m], n - m, interval) <==> forall i | m <= i < n :: !moved[i]
  {
    if m == n {
    } else {
      GridIff(deadlines, interval, moved, m, n - 1);
      var d, next := deadlines[n - 1], deadlines[n - 1 + 1];
      assert next >= d + interval && (moved[n - 1] <==> next > d + interval);
    }
  }

  lemma GridTimes(deadlines: seq<real>, interval: real, moved: seq<bool>, m: nat, n: nat)
    requires m <= n <= |moved| < |deadlines|
    requires forall i | 0 <= i < |moved| ::
               deadlines[i + 1] >= deadlines[i] + interval
               && (moved[i] <==> deadlines[i + 1] > deadlines[i] + interval)
    ensures deadlines[n] >= deadlines[m] + (n - m) as real * interval
    ensures deadlines[n] == deadlines[m] + (n - m) as real * interval <==> forall i | m <= i < n :: !moved[i]
  {
    GridIff(deadlines, interval, moved, m, n);
    TickIs(deadlines[m], n - m, interval);
  }

  /** From sample m on, sample n starts no earlier than n - m intervals after m's deadline, and its deadline
      is exactly on that grid if and only if no round in between passed its deadline. */
  ghost predicate OnSchedule(interval: real, rounds: seq<Round>, starts: seq<real>, deadlines: seq<real>,
                             m: nat, n: nat)
    requires m <= n < |starts| == |deadlines| == |rounds| + 1
  {
    && starts[n] >= deadlines[n] >= deadlines[m] + (n - m) as real * interval
    && (deadlines[n] == deadlines[m] + (n - m) as real * interval
        <==> forall i | m <= i < n :: !Slips(starts, deadlines, rounds, interval, i))
  }

  /** Whatever the pattern of overruns; with m == 0 the grid is t0 + n * interval. */
  lemma NeverEarlyNoDrift(t0: real, interval: real, rounds: seq<Round>, starts: seq<real>,
                          deadlines: seq<real>, m: nat, n: nat)
    requires Physical(rounds) && IsRun(t0, interval, rounds, starts, deadlines) && m <= n < |starts|
    ensures OnSchedule(interval, rounds, starts, deadlines, m, n)
  {
    OneRound(t0, interval, rounds, starts, deadlines, n);
    var moved := seq(|rounds|, i requires 0 <= i < |rounds| => deadlines[i + 1] > deadlines[i] + interval);
    forall i | 0 <= i < |rounds|
      ensures deadlines[i + 1] >= deadlines[i] + interval
      ensures moved[i] <==> Slips(starts, deadlines, rounds, interval, i)
    {
      OneRound(t0, interval, rounds, starts, deadlines, i + 1);
    }
    GridTimes(deadlines, interval, moved, m, n);
  }

  /** Runs the loop for the given rounds. starts[i] is the clock when sample i starts and deadlines[i]
      the deadline at that moment. A round on time moves the deadline by exactly one interval and sleeps
      until it; after an overrun the loop samples again at once, with the deadline reset to that moment.
      So no sample is ever early, and deadlines keep to the grid exactly while none is passed. */
  method Run(t0: real, interval: real, rounds: seq<Round>) returns (starts: seq<real>, deadlines: seq<real>)
    requires interval > 0.0 && Physical(rounds)
    ensures IsRun(t0, interval, rounds, starts, deadlines)
    ensures forall m, n | 0 <= m <= n < |starts| :: OnSchedule(interval, rounds, starts, deadlines, m, n)
  {
    var clock := t0;
    var deadline := clock;
    starts, deadlines := [clock], [deadline];
    for i := 0 to |rounds|
      invariant |starts| == |deadlines| == i + 1 && starts[0] == deadlines[0] == t0
      invariant clock == starts[i] && deadline == deadlines[i]
      invariant forall k | 0 <= k < i ::
                  if OnTime(starts, deadlines, rounds, interval, k)
                  then deadlines[k + 1] == deadlines[k] + interval && starts[k + 1] == deadlines[k + 1] + rounds[k].late
                  else deadlines[k + 1] == starts[k + 1] == starts[k] + rounds[k].work + rounds[k].gap
    {
      clock := clock + rounds[i].work;
      deadline := deadline + interval;
      var delay := deadline - clock;
      if delay > 0.0 {
        clock := clock + delay + rounds[i].late;
      } else {
        clock := clock + rounds[i].gap;
        deadline := clock;
      }
      starts, deadlines := starts + [clock], deadlines + [deadline];
    }
    forall m, n | 0 <= m <= n < |starts|
      ensures OnSchedule(interval, rounds, starts, deadlines, m, n)
    {
      NeverEarlyNoDrift(t0, interval, rounds, starts, deadlines, m, n);
    }
  }
}
