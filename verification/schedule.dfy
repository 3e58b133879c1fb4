/**
 The timing rule of the background flush loop: after a pass that took
 `runtime`, sleep for what is left of the observation period, or not at all
 when the pass overran it. Wall-clock time is a parameter here.
 */
module Schedule {
  import opened Results

  /** `Duration::checked_sub(period, runtime)`: the sleep before the next pass, if any. */
  function RemainingSleep(period: nat, runtime: nat): (r: Option<nat>)
    ensures r.Some? <==> runtime <= period
    ensures r.Some? ==> runtime + r.value == period
  {
    if runtime <= period then Some(period - runtime) else None
  }

  /** One loop iteration: the pass itself and the sleep after it. */
  function Cycle(period: nat, runtime: nat): (d: nat)
    ensures d == if runtime <= period then period else runtime
  {
    runtime + RemainingSleep(period, runtime).GetOr(0)
  }

  /**
   The start times of successive passes: the first after the initial delay,
   each later one a full cycle after its predecessor.
   */
  function PassStarts(start: nat, period: nat, runtimes: seq<nat>): (starts: seq<nat>)
    ensures |starts| == |runtimes| + 1 && starts[0] == start
    decreases |runtimes|
  {
    if |runtimes| == 0 then [start]
    else [start] + PassStarts(start + Cycle(period, runtimes[0]), period, runtimes[1..])
  }

  /**
   Passes never start more often than once per period: the i-th starts no
   earlier than `start + i * period`.
   */
  lemma {:induction false} PassesNeverEarly(start: nat, period: nat, runtimes: seq<nat>)
    ensures var starts := PassStarts(start, period, runtimes);
      forall i :: 0 <= i < |starts| ==> starts[i] >= start + i * period
    decreases |runtimes|
  {
    if |runtimes| > 0 {
      var next := start + Cycle(period, runtimes[0]);
      PassesNeverEarly(next, period, runtimes[1..]);
      var starts := PassStarts(start, period, runtimes);
      forall i | 1 <= i < |starts| ensures starts[i] >= start + i * period {
        assert starts[i] == PassStarts(next, period, runtimes[1..])[i - 1];
        assert (i - 1) * period + period == i * period;
      }
    }
  }

  /**
   No drift: while every pass fits in the period, the i-th pass starts at
   exactly `start + i * period`.
   */
  lemma {:induction false} PassesKeepTheBeat(start: nat, period: nat, runtimes: seq<nat>)
    requires forall i :: 0 <= i < |runtimes| ==> runtimes[i] <= period
    ensures var starts := PassStarts(start, period, runtimes);
      forall i :: 0 <= i < |starts| ==> starts[i] == start + i * period
    decreases |runtimes|
  {
    if |runtimes| > 0 {
      var next := start + period;
      assert Cycle(period, runtimes[0]) == period;
      PassesKeepTheBeat(next, period, runtimes[1..]);
      var starts := PassStarts(start, period, runtimes);
      forall i | 1 <= i < |starts| ensures starts[i] == start + i * period {
        assert starts[i] == PassStarts(next, period, runtimes[1..])[i - 1];
        assert (i - 1) * period + period == i * period;
      }
    }
  }

  /** No catching up: a pass that overruns the period is followed at once by the next. */
  lemma OverrunStartsNextAtOnce(start: nat, period: nat, runtimes: seq<nat>, i: nat)
    requires i < |runtimes| && runtimes[i] > period
    ensures var starts := PassStarts(start, period, runtimes);
      starts[i + 1] == starts[i] + runtimes[i]
  {
    PassStartsStep(start, period, runtimes, i);
  }

  /** Consecutive starts are one cycle apart. */
  lemma {:induction false} PassStartsStep(start: nat, period: nat, runtimes: seq<nat>, i: nat)
    requires i < |runtimes|
    ensures var starts := PassStarts(start, period, runtimes);
      starts[i + 1] == starts[i] + Cycle(period, runtimes[i])
    decreases i
  {
    if i > 0 {
      PassStartsStep(start + Cycle(period, runtimes[0]), period, runtimes[1..], i - 1);
    }
  }
}
