/**
 The three aggregation instruments, the closed union the registry stores them
 in, typed recovery from that union, and the per-instrument step of a flush.
 Instruments are handles: they hold the addresses of their cells in a shared
 `Heap`, so a cloned handle and the stored one read and write the same cells.
 */
module Instrument {
  import opened Words
  import opened Results
  import opened Emitter
  import opened Cells
  import opened Metric

  /** `Count`: one `usize` cell. */
  datatype Count = Count(cell: nat)

  /** `Gauge`: one `u64` cell holding the bit pattern of an `f64`. */
  datatype Gauge = Gauge(cell: nat)

  /** `UnitOfTime`: the unit a timing is converted to before it is summed. */
  datatype UnitOfTime = Micros | Millis | Seconds

  /** The `#[default]` unit. */
  const DEFAULT_UNIT: UnitOfTime := Millis

  /**
   `TimingCount`: two `usize` cells, the converted duration sum and the number
   of observations, and a unit that belongs to the handle itself.
   */
  datatype TimingCount = TimingCount(sum: nat, count: nat, unit: UnitOfTime)

  /** `Instrument`: the closed union stored in the registry. */
  datatype Instrument = OfCount(c: Count) | OfGauge(g: Gauge) | OfTimingCount(t: TimingCount)

  /** `MetricRegistrationError::TypeMismatch`: a kind name and the stored instrument. */
  datatype RegistrationError = TypeMismatch(kindName: string, stored: Instrument)

  /** A handle is live in `h` when its cells exist; a timing count's two cells are distinct. */
  predicate WellFormed(h: Heap, i: Instrument)
  {
    match i
    case OfCount(c) => c.cell < |h|
    case OfGauge(g) => g.cell < |h|
    case OfTimingCount(t) => t.sum < |h| && t.count < |h| && t.sum != t.count
  }

  /** The cells an instrument owns. */
  function Footprint(i: Instrument): (cells: set<nat>)
  {
    match i
    case OfCount(c) => {c.cell}
    case OfGauge(g) => {g.cell}
    case OfTimingCount(t) => {t.sum, t.count}
  }

  /** Every cell of the instrument holds 0. */
  ghost predicate ZeroValued(h: Heap, i: Instrument)
  {
    forall a :: a in Footprint(i) ==> a < |h| && h[a] == 0
  }

  /** Which `MetricType` the stored variant belongs to. */
  function KindOf(i: Instrument): (k: Kind)
  {
    match i
    case OfCount(_) => CountKind
    case OfGauge(_) => GaugeKind
    case OfTimingCount(_) => TimingCountKind
  }

  /** `Count::fetch_add`: returns the prior value and adds `n`, wrapping at 2^64. */
  function CountFetchAdd(h: Heap, c: Count, n: U64): (r: Step<U64>)
    requires c.cell < |h|
    ensures r.value == h[c.cell]
    ensures |r.heap| == |h| && r.heap[c.cell] == WrappingAdd(h[c.cell], n)
    ensures forall a :: 0 <= a < |h| && a != c.cell ==> r.heap[a] == h[a]
  {
    Cells.FetchAdd(h, c.cell, n)
  }

  /** `Count::increment`: `fetch_add(1)`. */
  function CountIncrement(h: Heap, c: Count): (r: Step<U64>)
    requires c.cell < |h|
    ensures r == CountFetchAdd(h, c, 1)
    ensures h[c.cell] + 1 < TWO_64 ==> r.heap[c.cell] == r.value + 1
  {
    CountFetchAdd(h, c, 1)
  }

  /** `Count::reset`: swaps the count to 0 and returns what it held. */
  function CountReset(h: Heap, c: Count): (r: Step<U64>)
    requires c.cell < |h|
    ensures r.value == h[c.cell]
    ensures |r.heap| == |h| && r.heap[c.cell] == 0
    ensures forall a :: 0 <= a < |h| && a != c.cell ==> r.heap[a] == h[a]
  {
    Cells.Swap(h, c.cell, 0)
  }

  /** `n` calls of `increment`, one after the other. */
  function IncrementTimes(h: Heap, c: Count, n: nat): (r: Heap)
    requires c.cell < |h|
    ensures |r| == |h|
    decreases n
  {
    if n == 0 then h else IncrementTimes(CountIncrement(h, c).heap, c, n - 1)
  }

  /**
   `n` increments followed by a reset return the prior count plus `n`, wrapped
   at 2^64, and leave the cell at 0; other cells are untouched.
   */
  lemma {:induction false} IncrementTimesThenReset(h: Heap, c: Count, n: nat)
    requires c.cell < |h|
    ensures CountReset(IncrementTimes(h, c, n), c).value == TruncateToU64(h[c.cell] + n)
    ensures CountReset(IncrementTimes(h, c, n), c).heap[c.cell] == 0
    ensures forall a :: 0 <= a < |h| && a != c.cell ==> IncrementTimes(h, c, n)[a] == h[a]
    decreases n
  {
    if n > 0 {
      var h1 := CountIncrement(h, c).heap;
      IncrementTimesThenReset(h1, c, n - 1);
      assert h1[c.cell] == TruncateToU64(h[c.cell] as int + 1);
    }
  }

  /** From a fresh count, `n` increments (fewer than 2^64) and a reset yield exactly `n`. */
  lemma CountIncrementsAreCounted(h: Heap, c: Count, n: nat)
    requires c.cell < |h| && h[c.cell] == 0 && n < TWO_64
    ensures CountReset(IncrementTimes(h, c, n), c).value == n
  {
    IncrementTimesThenReset(h, c, n);
  }

  /** The unit test sequence: `fetch_add` 1, 0, 1, 0 on a fresh count returns 0, 1, 1, 2. */
  lemma CountFetchAddSequence(h: Heap, c: Count)
    requires c.cell < |h| && h[c.cell] == 0
    ensures var s1 := CountFetchAdd(h, c, 1);
      var s2 := CountFetchAdd(s1.heap, c, 0);
      var s3 := CountFetchAdd(s2.heap, c, 1);
      var s4 := CountFetchAdd(s3.heap, c, 0);
      s1.value == 0 && s2.value == 1 && s3.value == 1 && s4.value == 2
  {
  }

  /** `Gauge::swap`: stores new bits and returns the previous bits. */
  function GaugeSwap(h: Heap, g: Gauge, bits: U64): (r: Step<U64>)
    requires g.cell < |h|
    ensures r.value == h[g.cell]
    ensures |r.heap| == |h| && r.heap[g.cell] == bits
    ensures forall a :: 0 <= a < |h| && a != g.cell ==> r.heap[a] == h[a]
  {
    Cells.Swap(h, g.cell, bits)
  }

  /** `Gauge::load`: the stored bits, read without changing anything. */
  function GaugeLoad(h: Heap, g: Gauge): (bits: U64)
    requires g.cell < |h|
    ensures GaugeSwap(h, g, bits).heap == h
  {
    h[g.cell]
  }

  /** A load reads back exactly the bits the last swap stored, whatever the heap held. */
  lemma GaugeSwapThenLoad(h: Heap, g: Gauge, bits: U64)
    requires g.cell < |h|
    ensures GaugeLoad(GaugeSwap(h, g, bits).heap, g) == bits
  {
  }

  /**
   Swapping 5.5 into a fresh gauge returns 0.0 (bits 0), swapping 6.5 then
   returns 5.5, and a load afterwards returns 6.5 — for any two bit patterns.
   */
  lemma GaugeSwapLoad(h: Heap, g: Gauge, first: U64, second: U64)
    requires g.cell < |h| && h[g.cell] == 0
    ensures var s1 := GaugeSwap(h, g, first);
      var s2 := GaugeSwap(s1.heap, g, second);
      s1.value == 0 && s2.value == first && GaugeLoad(s2.heap, g) == second
  {
  }

  /** `TimingCount::with_unit`: the same two cells, read through a different unit. */
  function WithUnit(t: TimingCount, unit: UnitOfTime): (r: TimingCount)
    ensures r.sum == t.sum && r.count == t.count && r.unit == unit
  {
    t.(unit := unit)
  }

  /** Nanoseconds per unit. */
  function NanosPer(unit: UnitOfTime): (n: nat)
  {
    match unit
    case Micros => 1_000
    case Millis => 1_000_000
    case Seconds => 1_000_000_000
  }

  /**
   `duration_via_unit`: `as_micros` / `as_millis` / `as_secs` of a duration
   given in whole nanoseconds, i.e. truncating division, then `as usize`,
   which keeps the low 64 bits.
   */
  function DurationViaUnit(unit: UnitOfTime, nanos: nat): (r: U64)
    ensures nanos / NanosPer(unit) < TWO_64 ==> r * NanosPer(unit) <= nanos < (r + 1) * NanosPer(unit)
    ensures (nanos / NanosPer(unit) - r) % TWO_64 == 0
  {
    match unit
    case Micros => TruncateToU64(nanos / 1_000)
    case Millis => TruncateToU64(nanos / 1_000_000)
    case Seconds => TruncateToU64(nanos / 1_000_000_000)
  }

  /**
   `add_timing_with_count`: returns the pre-update `(sum, count)`, adds the
   converted duration to the sum and `n` to the count, both wrapping.
   */
  function TimingAddWithCount(h: Heap, t: TimingCount, nanos: nat, n: U64): (r: Step<(U64, U64)>)
    requires WellFormed(h, OfTimingCount(t))
    ensures r.value == (h[t.sum], h[t.count])
    ensures |r.heap| == |h|
    ensures r.heap[t.sum] == WrappingAdd(h[t.sum], DurationViaUnit(t.unit, nanos))
    ensures r.heap[t.count] == WrappingAdd(h[t.count], n)
    ensures forall a :: 0 <= a < |h| && a != t.sum && a != t.count ==> r.heap[a] == h[a]
  {
    var s := Cells.FetchAdd(h, t.sum, DurationViaUnit(t.unit, nanos));
    var c := Cells.FetchAdd(s.heap, t.count, n);
    Step((s.value, c.value), c.heap)
  }

  /** `add_timing`: one observation. */
  function TimingAdd(h: Heap, t: TimingCount, nanos: nat): (r: Step<(U64, U64)>)
    requires WellFormed(h, OfTimingCount(t))
    ensures r == TimingAddWithCount(h, t, nanos, 1)
    ensures r.value.1 + 1 < TWO_64 ==> r.heap[t.count] == r.value.1 + 1
  {
    TimingAddWithCount(h, t, nanos, 1)
  }

  /** `TimingCount::reset`: swaps sum and count to 0 and returns the prior pair. */
  function TimingReset(h: Heap, t: TimingCount): (r: Step<(U64, U64)>)
    requires WellFormed(h, OfTimingCount(t))
    ensures r.value == (h[t.sum], h[t.count])
    ensures |r.heap| == |h| && r.heap[t.sum] == 0 && r.heap[t.count] == 0
    ensures forall a :: 0 <= a < |h| && a != t.sum && a != t.count ==> r.heap[a] == h[a]
  {
    var s := Cells.Swap(h, t.sum, 0);
    var c := Cells.Swap(s.heap, t.count, 0);
    Step((s.value, c.value), c.heap)
  }

  /**
   `measure_sync_fn` / `measure_async_fut`: the wrapped work's result, passed
   through unchanged, and its measured duration recorded with `add_timing`.
   The work is represented by its result and the clock by the elapsed time.
   */
  function MeasureSync<T>(h: Heap, t: TimingCount, result: T, elapsedNanos: nat): (r: Step<T>)
    requires WellFormed(h, OfTimingCount(t))
    ensures r.value == result
    ensures r.heap == TimingAdd(h, t, elapsedNanos).heap
  {
    Step(result, TimingAdd(h, t, elapsedNanos).heap)
  }

  /** Sum of the converted durations. */
  function ConvertedSum(unit: UnitOfTime, durations: seq<nat>): (total: nat)
  {
    if |durations| == 0 then 0
    else ConvertedSum(unit, durations[..|durations| - 1]) + DurationViaUnit(unit, durations[|durations| - 1])
  }

  /** `add_timing` applied to each duration in turn. */
  function AddTimings(h: Heap, t: TimingCount, durations: seq<nat>): (r: Heap)
    requires WellFormed(h, OfTimingCount(t))
    ensures |r| == |h|
  {
    if |durations| == 0 then h
    else TimingAdd(AddTimings(h, t, durations[..|durations| - 1]), t, durations[|durations| - 1]).heap
  }

  /**
   After any sequence of timings, a reset returns the prior sum plus the
   converted durations and the prior count plus their number, each wrapped
   at 2^64; other cells are untouched.
   */
  lemma {:induction false} AddTimingsThenReset(h: Heap, t: TimingCount, durations: seq<nat>)
    requires WellFormed(h, OfTimingCount(t))
    ensures TimingReset(AddTimings(h, t, durations), t).value
         == (TruncateToU64(h[t.sum] + ConvertedSum(t.unit, durations)),
             TruncateToU64(h[t.count] + |durations|))
    ensures forall a :: 0 <= a < |h| && a != t.sum && a != t.count ==> AddTimings(h, t, durations)[a] == h[a]
  {
    if |durations| > 0 {
      var init := durations[..|durations| - 1];
      var last := durations[|durations| - 1];
      AddTimingsThenReset(h, t, init);
      var mid := AddTimings(h, t, init);
      assert mid[t.sum] == TruncateToU64(h[t.sum] + ConvertedSum(t.unit, init));
      assert mid[t.count] == TruncateToU64(h[t.count] + |init|);
      assert AddTimings(h, t, durations) == TimingAdd(mid, t, last).heap;
      assert ConvertedSum(t.unit, durations) == ConvertedSum(t.unit, init) + DurationViaUnit(t.unit, last);
      ModAddAbsorbs(h[t.sum] + ConvertedSum(t.unit, init), DurationViaUnit(t.unit, last));
      ModAddAbsorbs(h[t.count] + |init|, 1);
    }
  }

  /** Reducing a left operand modulo 2^64 before adding does not change the wrapped sum. */
  lemma ModAddAbsorbs(x: nat, y: U64)
    ensures WrappingAdd(TruncateToU64(x), y) == TruncateToU64(x + y)
  {
  }

  /**
   The unit test: with `Micros`, timings of 100µs, 0µs, 0µs and 0µs return
   the pre-update pairs (0, 0), (100, 1), (100, 2) and (100, 3); a reset in
   place of the fourth timing reads the same (100, 3).
   */
  lemma MicrosTimingSequence(h: Heap, t: TimingCount)
    requires WellFormed(h, OfTimingCount(t)) && h[t.sum] == 0 && h[t.count] == 0 && t.unit == Micros
    ensures var s1 := TimingAdd(h, t, 100_000);
      var s2 := TimingAdd(s1.heap, t, 0);
      var s3 := TimingAdd(s2.heap, t, 0);
      s1.value == (0, 0) && s2.value == (100, 1) && s3.value == (100, 2)
      && TimingAdd(s3.heap, t, 0).value == (100, 3)
      && TimingReset(s3.heap, t).value == (100, 3)
  {
  }

  /**
   The default unit is milliseconds: on a fresh default timing count, 5 s and
   then 10 s return (0, 0) and then (5000, 1).
   */
  lemma DefaultUnitIsMillis(h: Heap, t: TimingCount)
    requires WellFormed(h, OfTimingCount(t)) && h[t.sum] == 0 && h[t.count] == 0 && t.unit == DEFAULT_UNIT
    ensures var s1 := TimingAdd(h, t, 5_000_000_000);
      var s2 := TimingAdd(s1.heap, t, 10_000_000_000);
      s1.value == (0, 0) && s2.value == (5_000, 1)
  {
  }

  /**
   A handle derived through `with_unit` writes the original handle's cells:
   the original's reset sees the timing converted with the new unit.
   */
  lemma WithUnitSharesCells(h: Heap, t: TimingCount, unit: UnitOfTime, nanos: nat)
    requires WellFormed(h, OfTimingCount(t)) && h[t.sum] == 0 && h[t.count] == 0
    ensures TimingReset(TimingAdd(h, WithUnit(t, unit), nanos).heap, t).value
         == (DurationViaUnit(unit, nanos), 1)
  {
  }

  /**
   `Instrument::count()` / `gauge()` / `timing_count()`: a default instrument
   of `kind` on freshly allocated zero cells; a timing count has the default unit.
   */
  function NewInstrument(h: Heap, kind: Kind): (r: Step<Instrument>)
    ensures KindOf(r.value) == kind
    ensures |r.heap| > |h| && forall a :: 0 <= a < |h| ==> r.heap[a] == h[a]
    ensures WellFormed(r.heap, r.value) && ZeroValued(r.heap, r.value)
    ensures forall a :: a in Footprint(r.value) ==> |h| <= a
    ensures r.value.OfTimingCount? ==> r.value.t.unit == DEFAULT_UNIT
  {
    match kind
    case CountKind => Step(OfCount(Count(|h|)), Cells.Alloc(h, 1))
    case GaugeKind => Step(OfGauge(Gauge(|h|)), Cells.Alloc(h, 1))
    case TimingCountKind =>
      Step(OfTimingCount(TimingCount(|h|, |h| + 1, DEFAULT_UNIT)), Cells.Alloc(h, 2))
  }

  /**
   `Instrument::downcast`: the stored instrument when its variant is the
   requested kind; otherwise `TypeMismatch` carrying the stored variant's own
   kind name and the stored instrument unchanged.
   */
  function Downcast(i: Instrument, want: Kind): (r: Result<Instrument, RegistrationError>)
    ensures r.Ok? <==> KindOf(i) == want
    ensures r.Ok? ==> r.value == i
    ensures r.Err? ==> r.error.stored == i && r.error.kindName == KindName(KindOf(i))
  {
    match i
    case OfCount(_) =>
      if want == CountKind then Ok(i) else Err(TypeMismatch(KindName(CountKind), i))
    case OfGauge(_) =>
      if want == GaugeKind then Ok(i) else Err(TypeMismatch(KindName(GaugeKind), i))
    case OfTimingCount(_) =>
      if want == TimingCountKind then Ok(i) else Err(TypeMismatch(KindName(TimingCountKind), i))
  }

  /** A mismatch never names the requested kind: it names the kind actually stored. */
  lemma DowncastMismatchNamesStoredKind(i: Instrument, want: Kind)
    requires Downcast(i, want).Err?
    ensures Downcast(i, want).error.kindName != KindName(want)
  {
  }

  /** The outcome of emitting one instrument: new heap, samples sent, last result. */
  datatype Emitted = Emitted(heap: Heap, attempts: seq<Sample>, ok: bool)

  /** After a flush step: counts and timing counts read 0, a gauge is untouched. */
  ghost predicate Flushed(before: Heap, after: Heap, i: Instrument)
  {
    match i
    case OfCount(c) => c.cell < |after| && after[c.cell] == 0
    case OfGauge(g) => g.cell < |after| && g.cell < |before| && after[g.cell] == before[g.cell]
    case OfTimingCount(t) => t.sum < |after| && t.count < |after| && after[t.sum] == 0 && after[t.count] == 0
  }

  /**
   `Instrument::emit`. A count is reset and its prior value sent as one count
   sample. A gauge is loaded, sent as one gauge sample, and left as it was. A
   timing count is reset; its sum goes out as a count sample named
   `name + ".time"`, then its count under the bare name, the second only if
   the first succeeded. A reset is never undone when sending fails.
   */
  function Emit(h: Heap, key: MetricKey, i: Instrument, accept: Sink): (r: Emitted)
    requires WellFormed(h, i)
    ensures |r.heap| == |h| && Flushed(h, r.heap, i)
    ensures forall a :: 0 <= a < |h| && a !in Footprint(i) ==> r.heap[a] == h[a]
    ensures 1 <= |r.attempts| <= 2
    ensures i.OfCount? ==> r.attempts == [CountSample(key.name, ReinterpretAsI64(h[i.c.cell]), key.tags)]
    ensures i.OfGauge? ==> r.heap == h && r.attempts == [GaugeSample(key.name, FloatBits(h[i.g.cell]), key.tags)]
    ensures i.OfTimingCount? ==>
      && r.attempts[0] == CountSample(key.name + ".time", ReinterpretAsI64(h[i.t.sum]), key.tags)
      && (|r.attempts| == 2 <==> accept(r.attempts[0]))
      && (|r.attempts| == 2 ==> r.attempts[1] == CountSample(key.name, ReinterpretAsI64(h[i.t.count]), key.tags))
    ensures r.ok <==> forall s :: s in r.attempts ==> accept(s)
    ensures i.OfTimingCount? && !accept(r.attempts[0]) ==> !r.ok
  {
    match i
    case OfCount(c) =>
      var reset := CountReset(h, c);
      var e := Send(accept, CountSample(key.name, ReinterpretAsI64(reset.value), key.tags));
      Emitted(reset.heap, e.attempts, e.ok)
    case OfGauge(g) =>
      var e := Send(accept, GaugeSample(key.name, FloatBits(GaugeLoad(h, g)), key.tags));
      Emitted(h, e.attempts, e.ok)
    case OfTimingCount(t) =>
      var reset := TimingReset(h, t);
      var e := SendBoth(accept,
        CountSample(key.name + ".time", ReinterpretAsI64(reset.value.0), key.tags),
        CountSample(key.name, ReinterpretAsI64(reset.value.1), key.tags));
      Emitted(reset.heap, e.attempts, e.ok)
  }

  /** What an instrument emits depends only on the values of its own cells. */
  lemma EmitReadsOwnCells(h1: Heap, h2: Heap, key: MetricKey, i: Instrument, accept: Sink)
    requires WellFormed(h1, i) && WellFormed(h2, i)
    requires forall a :: a in Footprint(i) ==> h1[a] == h2[a]
    ensures Emit(h1, key, i, accept).attempts == Emit(h2, key, i, accept).attempts
  {
  }

  /**
   A window's value is sent once and then gone: emitting a count or timing
   count a second time, with no update in between, sends zeros — whether or
   not the first send succeeded. Nothing is re-sent after a failure.
   */
  lemma EmitTwiceSendsZero(h: Heap, key: MetricKey, i: Instrument, accept: Sink)
    requires WellFormed(h, i) && !i.OfGauge?
    ensures var first := Emit(h, key, i, accept);
      var second := Emit(first.heap, key, i, accept);
      forall s :: s in second.attempts ==> s.CountSample? && s.value == 0
  {
  }

  /**
   A timing count holding (5000, 1) under the name "x" is flushed as the count
   samples ("x.time", 5000) and then ("x", 1) when the client accepts both.
   */
  lemma TimingCountEmitExample(h: Heap, tags: set<string>, t: TimingCount)
    requires WellFormed(h, OfTimingCount(t)) && h[t.sum] == 5000 && h[t.count] == 1
    ensures Emit(h, MetricKey("x", tags), OfTimingCount(t), _ => true).attempts
         == [CountSample("x.time", 5000, tags), CountSample("x", 1, tags)]
  {
    assert "x" + ".time" == "x.time";
  }

  /**
   The suffixed ad-hoc timing emitter sends exactly what a flush of a
   registered timing count holding the same (non-negative) sum and count sends.
   */
  lemma AdhocSuffixedMatchesFlush(m: Metric, accept: Sink, h: Heap, t: TimingCount)
    requires m.kind == TimingCountKind && WellFormed(h, OfTimingCount(t))
    requires h[t.sum] < TWO_63 && h[t.count] < TWO_63
    ensures AdhocTimingCountSuffixed(m, accept, h[t.sum], h[t.count], {}).attempts
         == Emit(h, KeyOf(m), OfTimingCount(t), accept).attempts
  {
    assert m.tags + {} == KeyOf(m).tags;
    assert ReinterpretAsI64(h[t.sum]) == h[t.sum] && ReinterpretAsI64(h[t.count]) == h[t.count];
  }

  /**
   The ad-hoc count emitter sends exactly what a flush of a registered count
   holding the same (non-negative) value sends.
   */
  lemma AdhocCountMatchesFlush(m: Metric, accept: Sink, h: Heap, c: Count)
    requires m.kind == CountKind && c.cell < |h| && h[c.cell] < TWO_63
    ensures AdhocCount(m, accept, h[c.cell], {}).attempts == Emit(h, KeyOf(m), OfCount(c), accept).attempts
  {
    assert m.tags + {} == KeyOf(m).tags;
  }

  /** The ad-hoc gauge emitter sends exactly what a flush of a registered gauge holding the same bits sends. */
  lemma AdhocGaugeMatchesFlush(m: Metric, accept: Sink, h: Heap, g: Gauge)
    requires m.kind == GaugeKind && g.cell < |h|
    ensures AdhocGauge(m, accept, h[g.cell], {}).attempts == Emit(h, KeyOf(m), OfGauge(g), accept).attempts
  {
    assert m.tags + {} == KeyOf(m).tags;
  }
}
