# gnort aggregation core, in Dafny

This project models the aggregation core of gnort, a client-side metrics
aggregator for a dogstatsd agent. Producers register a metric once. They get
back a handle to an instrument: a count, a gauge or a timing count. They then
update the instrument through the handle with single atomic steps. A background
loop periodically runs a flush pass. The pass resets counts and timing counts,
reads gauges, sends one or two scalar samples per metric to the client, and
finally sends one gauge that times the pass itself.

The model is functional:

- **Cells** (`cells.dfy`): the shared atomic storage is a heap of `u64` cells.
  Each `Arc<AtomicUsize>` / `Arc<AtomicU64>` of the source is one cell.
  `swap` and `fetch_add` are single steps from one heap to the next.
- **Instrument** (`instrument.dfy`): a handle holds cell addresses, so a cloned
  handle and the stored one are the same addresses. `Count` has one cell and
  `Gauge` has one cell holding an `f64` bit pattern. `TimingCount` has a sum
  cell, a count cell and a unit that belongs to the handle (`with_unit` copies
  the addresses). This module also holds the closed `Instrument` union,
  `downcast` and the per-instrument `emit`.
- **Metric** (`metric.dfy`): the kinds and their names, `Metric`
  (name, kind, tag set), the tag builders, the kind-free `MetricKey`, and the
  ad-hoc emitters.
- **Registry** (`registry.dfy`): a map from `MetricKey` to `Instrument`, over
  the heap. It models get-or-insert registration and the flush pass
  `reset_and_emit`. The validity invariant: every stored instrument's cells
  exist, no two entries share a cell, and every stored timing count uses
  the default unit (milliseconds).
- **Config** (`config.dfy`) and **Schedule** (`schedule.dfy`): defaults, the
  environment fallback with `u64` parsing, and the flush loop's
  sleep-for-the-rest-of-the-period rule.
- **Words**, **Results**, **Emitter**: fixed-width integers with explicit
  wrap-around and casts, `Option`/`Result`, and the client seen as a sink that
  accepts or rejects each sample.

The model takes three things as parameters: the client's answer to each sample
(a total `Sample -> bool`), the map's iteration order (any sequence listing
every key once), and elapsed wall-clock times.

The main theorem about a flush pass is `Registry.EmitEntriesIsSnapshot`. The
source emits entries one after another, each against the heap its predecessors
left. Entries own disjoint cells, so this sends exactly what emitting every
entry against the heap at the start of the pass would send.
`Registry.ResetAndEmit` states the pass's result in those terms.

Where the source's own error text or comments disagree with its code, the model follows the code:

- `downcast` reports `TypeMismatch` with the kind name of the *stored* variant,
  not the requested one (src/instrument.rs:216-218, 230-232, 244-246). The error's
  display text labels that field "expected".
- The default `UnitOfTime` is `Millis` (src/instrument.rs:67-73). A test
  comment at src/metric.rs:374 says microseconds, but the value the test checks,
  5000 after 5 s, is the millisecond one (`Instrument.DefaultUnitIsMillis`).

## Model

| member | source | states |
|---|---|---|
| `Words.WrappingAdd` | src/instrument.rs:48-50 | `fetch_add` on a `usize` wraps: the exact sum below 2^64, the sum minus 2^64 above |
| `Words.TruncateToU64` | src/instrument.rs:91-97 | an `as usize` cast from a wider integer keeps the value when it fits and otherwise differs from it by a multiple of 2^64 |
| `Words.ReinterpretAsI64` | src/instrument.rs:184-185 | `value as i64` reads a `usize` in two's complement: non-negative exactly below 2^63, otherwise the value minus 2^64 |
| `Emitter.Send` | src/instrument.rs:185-189 | one client call: the sample is handed to the client once and the result is its answer |
| `Emitter.SendBoth` | src/instrument.rs:196-197 | two client calls joined by `?`: the second is sent exactly when the first succeeded, and the result is ok only when both succeeded |
| `Metric.KindName` | src/metric.rs:21-43 | the kind names are "count", "gauge" and "timing_count", each name belonging to exactly one kind |
| `Metric.KindNameInjective` | src/metric.rs:15-43 | two kinds have the same name only if they are the same kind |
| `Metric.NewMetric` | src/metric.rs:134-180 | `new_count`/`new_gauge`/`new_timing_count` keep the given name and kind and start with no tags |
| `Metric.FromName` | src/metric.rs:113-132 | a bare name converts to a tagless metric of the target kind with that name |
| `Metric.WithTags` | src/metric.rs:199-229 | `with_tags`/`with_array_tags`/`with_vec_tags`: the tag set becomes exactly the strings given; name and kind are unchanged |
| `Metric.WithSetTags` | src/metric.rs:230-235 | `with_set_tags`: the tag set becomes exactly the set given; name and kind are unchanged |
| `Metric.WithTagsIgnoresOrderAndDuplicates` | src/metric.rs:204-207 | two tag lists with the same members give the same metric, whatever their order and repetitions |
| `Metric.WithTagsReplaces` | src/metric.rs:208-211 | a second builder call replaces the first one's tags instead of merging with them |
| `Metric.WithTagsIsWithSetTags` | src/metric.rs:199-235 | the list builders are the set builder applied to the collected set |
| `Metric.KeyOf` | src/metric.rs:294-298 | the key of a metric keeps its name and tag set |
| `Metric.KeyOfIdentity` | src/metric.rs:271-277 | two metrics have the same key exactly when name and tag set agree, whatever their kinds |
| `Metric.FromNameKeyIgnoresKind` | src/metric.rs:113-132 | the same bare name used as two kinds yields one and the same key |
| `Metric.AdhocCount` | src/metric.rs:143-151 | `adhoc_count` sends one count sample under the metric's name, with the union of its tags and the ad-hoc tags |
| `Metric.AdhocGauge` | src/metric.rs:162-170 | `adhoc_gauge` sends one gauge sample under the metric's name with the united tags |
| `Metric.AdhocTimingCount` | src/metric.rs:181-191 | `adhoc_timing_count` sends the sum, then the count, both as count samples under the bare name with the united tags; the count is skipped when the sum fails |
| `Metric.AdhocTimingCountSamplesCollide` | src/metric.rs:188-190 | the two samples of `adhoc_timing_count` have the same name and tags, so the agent cannot tell them apart |
| `Metric.AdhocTimingCountSuffixed` | src/metric.rs:181-191 | corrected ad-hoc timing count: the sum goes under name + ".time" and the count under the name, so the two names differ |
| `Instrument.CountFetchAdd` | src/instrument.rs:48-50 | `fetch_add` returns the prior count, leaves prior + n (wrapping), and changes no other cell |
| `Instrument.CountIncrement` | src/instrument.rs:45-47 | `increment` is `fetch_add(1)`: below the wrap point, the count after is the returned value plus one |
| `Instrument.CountReset` | src/instrument.rs:51-53 | `reset` returns the prior count, leaves 0, and changes no other cell |
| `Instrument.IncrementTimesThenReset` | src/instrument.rs:45-53 | n increments then a reset return the prior count plus n modulo 2^64 and leave 0; no other cell changes |
| `Instrument.CountIncrementsAreCounted` | src/instrument.rs:45-53 | from a fresh count, n increments (n < 2^64) are read back by the reset as exactly n |
| `Instrument.CountFetchAddSequence` | src/instrument.rs:321-336 | on a fresh count, `fetch_add` of 1, 0, 1, 0 returns 0, 1, 1, 2 |
| `Instrument.GaugeSwap` | src/instrument.rs:59-61 | `swap` returns the previously stored bits, stores the new bits, and changes no other cell |
| `Instrument.GaugeLoad` | src/instrument.rs:62-64 | `load` returns the stored bits and changes nothing: swapping them back in leaves the heap as it was |
| `Instrument.GaugeSwapThenLoad` | src/instrument.rs:59-64 | on any heap, a `load` after `swap(b)` returns exactly b |
| `Instrument.GaugeSwapLoad` | src/instrument.rs:18-30 | on a fresh gauge (bits 0, i.e. 0.0) `swap(a)` returns 0, a following `swap(b)` returns a, and `load` then returns b |
| `Instrument.WithUnit` | src/instrument.rs:85-87 | `with_unit` keeps both cells and changes only the unit |
| `Instrument.DurationViaUnit` | src/instrument.rs:91-97 | the conversion truncates: r units fit in the duration and r + 1 do not (when no wrap occurs); in every case r is the whole quotient modulo 2^64, the low 64 bits the `as` cast keeps |
| `Instrument.TimingAddWithCount` | src/instrument.rs:98-107 | returns the pre-update (sum, count), adds the converted duration to the sum and n to the count (both wrapping), and changes no other cell |
| `Instrument.TimingAdd` | src/instrument.rs:88-90 | `add_timing` is `add_timing_with_count(d, 1)`: the count grows by one |
| `Instrument.TimingReset` | src/instrument.rs:108-113 | `reset` returns the prior (sum, count), leaves both at 0, and changes no other cell |
| `Instrument.MeasureSync` | src/instrument.rs:114-118 | the wrapped work's result is passed through unchanged and its duration is recorded as one timing |
| `Instrument.AddTimingsThenReset` | src/instrument.rs:88-113 | after any timings, a reset returns the prior sum plus the converted durations and the prior count plus their number, modulo 2^64 |
| `Instrument.MicrosTimingSequence` | src/instrument.rs:338-360 | in micros, 100 µs, 0 µs, 0 µs, 0 µs return (0,0), (100,1), (100,2), (100,3); a reset in place of the fourth timing also reads (100,3) |
| `Instrument.DefaultUnitIsMillis` | src/metric.rs:368-380 | with the default unit, 5 s then 10 s return (0,0) then (5000,1): the default is milliseconds |
| `Instrument.WithUnitSharesCells` | src/instrument.rs:76-87 | a timing added through a `with_unit` copy is seen by the original handle's reset, converted with the copy's unit |
| `Instrument.NewInstrument` | src/instrument.rs:165-174 | a new instrument has the requested kind, lives on freshly allocated cells that all hold 0, uses the default unit, and leaves existing cells alone |
| `Instrument.Downcast` | src/instrument.rs:201-251 | succeeds exactly when the stored variant is the requested kind and returns it; otherwise `TypeMismatch` with the stored kind's name and the stored instrument |
| `Instrument.DowncastMismatchNamesStoredKind` | src/instrument.rs:207-250 | a mismatch never reports the requested kind's name |
| `Instrument.Emit` | src/instrument.rs:175-199 | count: reset, one count sample of the prior value; gauge: one gauge sample of the bits, heap unchanged; timing count: reset, sum under name + ".time" then count under name, the second only if the first succeeded; a reset is kept when sending fails; only the instrument's own cells change |
| `Instrument.EmitReadsOwnCells` | src/instrument.rs:175-199 | what an instrument emits depends only on its own cells |
| `Instrument.EmitTwiceSendsZero` | src/instrument.rs:182-198 | emitting a count or timing count twice without updates sends zeros the second time, whether or not the first send succeeded |
| `Instrument.TimingCountEmitExample` | src/instrument.rs:191-198 | a timing count "x" holding (5000, 1) is flushed as ("x.time", 5000) then ("x", 1) |
| `Instrument.AdhocSuffixedMatchesFlush` | src/instrument.rs:191-198 | the corrected ad-hoc timing emitter sends exactly what a flush of a registered timing count with the same sum and count sends |
| `Instrument.AdhocCountMatchesFlush` | src/metric.rs:143-151 | `adhoc_count` with no extra tags sends exactly what a flush of a registered count holding that value sends |
| `Instrument.AdhocGaugeMatchesFlush` | src/metric.rs:162-171 | `adhoc_gauge` with no extra tags sends exactly what a flush of a registered gauge holding those bits sends |
| `Registry.EmptyRegistry` | src/registry.rs:33-36 | a new registry has no entries and satisfies the validity invariant |
| `Registry.ValidAfterProducerUpdate` | src/registry.rs:41-44 | producer updates through handles keep the registry valid |
| `Registry.Register` | src/registry.rs:161-185 | get-or-insert: an absent key gets a fresh zero-valued instrument of the requested kind and the caller gets that same instrument; a present key of the same kind returns the stored instrument; another kind gives `TypeMismatch` with the stored kind's name; a present key leaves the registry unchanged; no entry is removed or replaced and no existing cell changes; validity is preserved; in a valid registry a returned timing count has the default unit, milliseconds, on both the insert and the lookup path |
| `Registry.RegisterCount` | src/registry.rs:186-192 | `register_count` is `register_metric` for counts, returning the count handle |
| `Registry.RegisterGauge` | src/registry.rs:193-199 | `register_gauge` is `register_metric` for gauges, returning the gauge handle |
| `Registry.RegisterTimingCount` | src/registry.rs:200-209 | `register_timing_count` is `register_metric` for timing counts, returning the timing-count handle, which in a valid registry uses milliseconds |
| `Registry.RegisterAgainSharesHandle` | src/registry.rs:175-178 | registering the same key and kind again returns the same handle and leaves the registry unchanged |
| `Registry.RegisterOtherKindFails` | src/registry.rs:175-178 | registering a key under a second kind fails with `TypeMismatch` naming the first kind, and the stored instrument is kept |
| `Registry.CountHandlesShareCell` | src/registry.rs:170-183 | an increment through the first count handle is what a reset through a second handle for the same key reads |
| `Registry.RegisterAllGrows` | src/registry.rs:161-185 | over any sequence of registrations, keys are only added, stored instruments are never replaced, and validity is kept |
| `Registry.RegisterEach` | src/macros.rs:61-77 | the `register` the registering macros generate: with all registrations successful it returns one handle per metric |
| `Registry.RegisterEachFailsIffSomeFails` | src/macros.rs:61-77 | the generated `register` fails exactly when some registration of the sequence fails |
| `Registry.RegisterEachWhenAllSucceed` | src/macros.rs:61-77 | when all registrations succeed, the generated `register` leaves the same registry as registering each metric in turn and returns exactly their handles |
| `Registry.RegisterEachStopsAtFirstFailure` | src/macros.rs:61-77 | when registration j is the first to fail, the generated `register` returns its error and the registry holds only the metrics up to and including j |
| `Registry.RegisterAllAgreesWithFinalKind` | src/registry.rs:170-184 | each registration in a sequence succeeds exactly when its kind is the key's final kind, and a success returns the finally stored instrument |
| `Registry.EmitEntries` | src/registry.rs:213-219 | the walk over the entries sends at least one and at most two samples per entry |
| `Registry.EmitEntriesIsSnapshot` | src/registry.rs:213-219 | emitting the entries in turn sends the same samples as emitting each one against the heap at the start of the pass |
| `Registry.EmitEntriesFlushes` | src/registry.rs:213-219 | after the walk every count and timing count reads 0, every gauge is unchanged, and cells outside the entries are untouched |
| `Registry.SelfTimingSample` | src/registry.rs:220-229 | the closing sample is the gauge "gnort.aggregate.time_to_emit_metrics.gauge" with no tags, carrying the pass's microseconds when they fit in `i64` |
| `Registry.ResetAndEmit` | src/registry.rs:210-230 | a pass emits every entry exactly once (as of the start of the pass, errors ignored), then the self-timing gauge; the number of samples is between entries + 1 and 2 × entries + 1; counts and timing counts end at 0, gauges and other cells unchanged, the key set unchanged |
| `Registry.EmptyPassSendsOnlySelfTiming` | src/registry.rs:220-229 | a pass over an empty registry sends the self-timing gauge and nothing else |
| `Registry.SnapshotOfZerosSendsZeros` | src/instrument.rs:182-198 | entries whose counts and timing counts all hold 0 send only zero-valued count samples |
| `Registry.SecondPassSendsZeroCounts` | src/registry.rs:210-230 | without producer activity, every count sample of a second pass is 0, whether or not the first pass's sends succeeded |
| `Registry.FirstTimingCountRegistration` | src/registry.rs:161-185 | registering timing count "x" in a new registry stores it, with the default unit, on two fresh zero cells and hands out that instrument |
| `Registry.SingleTimingCountFlush` | src/registry.rs:210-230 | a registry holding only timing count "x" at (5000, 1) is flushed as ("x.time", 5000), ("x", 1), then the self-timing gauge |
| `Registry.TimingCountRoundTrip` | src/registry.rs:210-230 | register "x" as a timing count, add 5 s, flush: ("x.time", 5000), ("x", 1), then the self-timing gauge |
| `Config.RateLimitPerSecond` | src/registry.rs:107-109 | the configured rate, or 42000 per second when unset |
| `Config.BurstLimit` | src/registry.rs:110 | the configured burst, or 42 when unset |
| `Config.ParseU64` | src/registry.rs:91-94 | a value parses only as an optional `+` followed by decimal digits; a digit string, with or without one leading `+` (leading zeros allowed), parses to its value when that is below 2^64 and is rejected otherwise; empty strings, a lone sign and `-` are rejected |
| `Config.ParseDecimal` | src/registry.rs:91-94 | every `u64` written in decimal, with or without `+`, parses back to itself |
| `Config.ParseRejectsOverflow` | src/registry.rs:91-94 | 2^64 in decimal is rejected |
| `Config.EnvOrFallback` | src/registry.rs:85-96 | an absent or unparsable variable yields the fallback, otherwise its parsed value |
| `Config.EnvOverridesFallback` | src/registry.rs:85-96 | a variable holding a decimal `u64` overrides the fallback with that number |
| `Config.GetDelay` | src/registry.rs:127-132 | the configured delay, else the variable's milliseconds, else 3000 ms |
| `Config.GetObservationPeriod` | src/registry.rs:133-141 | the configured period, else the variable's milliseconds, else 3000 ms |
| `Config.EnvironmentExamples` | src/registry.rs:127-141 | an unparsable "3s" falls back to 3000 ms; "250" gives 250 ms |
| `Schedule.RemainingSleep` | src/registry.rs:155-157 | the loop sleeps period − runtime exactly when runtime ≤ period, and does not sleep otherwise |
| `Schedule.Cycle` | src/registry.rs:150-158 | one iteration (pass plus sleep) lasts max(period, runtime) |
| `Schedule.PassStarts` | src/registry.rs:144-160 | the first pass starts after the initial delay, and there is one start per pass plus one |
| `Schedule.PassesNeverEarly` | src/registry.rs:150-158 | the i-th pass starts no earlier than delay + i × period |
| `Schedule.PassesKeepTheBeat` | src/registry.rs:150-158 | while passes fit in the period, the i-th pass starts at exactly delay + i × period (no drift) |
| `Schedule.OverrunStartsNextAtOnce` | src/registry.rs:154-157 | after a pass that overruns the period the next one starts immediately (no catch-up) |

## Left out

- The governor token-bucket limiter and `check_and_sleep`/`check_and_wait` (src/registry.rs:233-268) are a foreign library driven by the wall clock. The wait before each entry is treated as an acquire that always succeeds and changes nothing. The rate bound on emissions per second is therefore not stated.
- The background thread, `Instant` and `thread::sleep` in `start` (src/registry.rs:144-160) are left out; only the remaining-sleep arithmetic and the resulting start times are modelled.
- Schedule.PassesKeepTheBeat: assumes that `thread::sleep` lasts exactly as long as asked and that the loop itself takes no time. `std::thread::sleep` may sleep longer, and the loop never makes up an overshoot, because each period is timed from a fresh `Instant::now()` (src/registry.rs:151). So real passes can drift later than delay + i × period. `Schedule.PassesNeverEarly` does not rely on this assumption.
- The `OnceCell` singletons and `get_client` (src/registry.rs:26-31, 124-126) are process-lifetime plumbing. src/client.rs is not part of this model; the client is a sink that accepts or rejects each sample.
- src/lib.rs and examples/ are left out. Of the macros in src/macros.rs, `metric!` only declares a `MetricName` constant and `adhoc_metrics_struct!` only builds `Metric`s with `with_array_tags`; neither registers anything. The `register` functions that `metrics_struct!` and `metrics_module!` generate (src/macros.rs:61-77, 114-126, 138-154) register field by field with `?`, which `Registry.RegisterEach` models: they stop at the first `TypeMismatch`, so the registry holds the metrics up to and including the failing one. The generated struct and module declarations themselves are not modelled.
- The `debug!` and `trace!` logging (src/registry.rs:88, 92, 218, 229, 245) is left out. It only writes diagnostics and does not change the registry, the samples or the fallback values.
- Concurrency is not modelled. Each atomic operation is one sequential step. The race-free DashMap entry insert is one `Register` step. Races between producers and a flush pass are not modelled.
- `f64` is not modelled. A gauge is its `u64` bit pattern, and `to_string` formatting is abstracted: a gauge sample carries the bits, or the `i64` for the self-timing gauge.
- `usize` is taken to be 64 bits wide.
- `get_name`/`get_tags` of `MetricName`, `Metric` and `MetricKey` are field reads of the datatypes. `make_instrument` allocates before the map lookup and the allocation is dropped when the key exists; this has no visible effect, so `Register` allocates only on insert.
- `measure_async_fut` behaves as `measure_sync_fn` once the future has completed; it is covered by `Instrument.MeasureSync`.
- An environment variable that is not valid Unicode takes the same fallback path as an unset one, so the environment is a map of the variables that are readable.
- The map's iteration order is not specified by the source; `Registry.ResetAndEmit` accepts any order that lists every key once.

## Findings

| source | as written | input that shows it | evidently intended | confidence | as-written member | corrected member |
|---|---|---|---|---|---|---|
| src/metric.rs:188-190 | `adhoc_timing_count` sends the sum and the count as two count samples with the same name and the same tags | sum 5000, count 1, name "x", client accepts both: it sends ("x", 5000) and ("x", 1), which a statsd agent adds into one count of 5001 | the sum under "x.time" and the count under "x", as the registry's flush sends a timing count (src/instrument.rs:191-197) | medium; not executed | `Metric.AdhocTimingCount` (shown by `Metric.AdhocTimingCountSamplesCollide`) | `Metric.AdhocTimingCountSuffixed` (proved by `Instrument.AdhocSuffixedMatchesFlush`) |
