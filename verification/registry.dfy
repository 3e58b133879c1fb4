/**
 The metrics registry: a map from metric key to the one instrument stored for
 it, over the heap of cells the instruments live in. Registration is
 get-or-insert; a flush pass resets and emits every entry once and then sends
 one gauge timing the pass itself.
 */
module Registry {
  import opened Words
  import opened Results
  import opened Emitter
  import opened Cells
  import opened Metric
  import opened Instrument

  /** The name of the gauge that times each flush pass. */
  const TIME_TO_EMIT_METRICS: string := "gnort.aggregate.time_to_emit_metrics.gauge"

  datatype Registry = Registry(entries: map<MetricKey, Instrument>, heap: Heap)

  /** No two entries share a cell. */
  ghost predicate Disjoint(es: map<MetricKey, Instrument>)
  {
    forall k1, k2 :: k1 in es && k2 in es && k1 != k2 ==> Footprint(es[k1]) !! Footprint(es[k2])
  }

  /**
   Every stored instrument is live, distinct entries own distinct cells, and
   every stored timing count has the default unit, as `make_instrument` builds
   each one with `TimingCount::default`.
   */
  ghost predicate Valid(r: Registry)
  {
    && (forall k :: k in r.entries ==> WellFormed(r.heap, r.entries[k]))
    && Disjoint(r.entries)
    && (forall k :: k in r.entries && r.entries[k].OfTimingCount? ==> r.entries[k].t.unit == DEFAULT_UNIT)
  }

  /** A freshly constructed registry: no entries, no cells. */
  function EmptyRegistry(): (r: Registry)
    ensures Valid(r) && |r.entries| == 0
  {
    Registry(map[], [])
  }

  /**
   Producers write through their handles only: any heap of the same size
   keeps the registry valid.
   */
  lemma ValidAfterProducerUpdate(r: Registry, h: Heap)
    requires Valid(r) && |h| == |r.heap|
    ensures Valid(r.(heap := h))
  {
  }

  /** The registry after a registration, and what the caller got back. */
  datatype Registered<+T> = Registered(registry: Registry, result: Result<T, RegistrationError>)

  /**
   `register_metric`, get-or-insert on the metric's key. An absent key gets a
   fresh zero-valued instrument of the requested kind, and the caller gets a
   handle to that very instrument. A present key of the same kind returns the
   stored instrument; of another kind, `TypeMismatch` naming the stored kind.
   A present key leaves the registry as it was. Entries are never removed or
   replaced, and existing cells are never touched.
   */
  function Register(r: Registry, m: Metric): (res: Registered<Instrument>)
    ensures res.registry.entries.Keys == r.entries.Keys + {KeyOf(m)}
    ensures forall k :: k in r.entries ==> res.registry.entries[k] == r.entries[k]
    ensures |r.heap| <= |res.registry.heap|
    ensures forall a :: 0 <= a < |r.heap| ==> res.registry.heap[a] == r.heap[a]
    ensures KeyOf(m) in r.entries ==> res.registry == r
    ensures res.result.Ok? <==> KeyOf(m) !in r.entries || KindOf(r.entries[KeyOf(m)]) == m.kind
    ensures res.result.Ok? ==>
      res.result.value == res.registry.entries[KeyOf(m)] && KindOf(res.result.value) == m.kind
    ensures KeyOf(m) !in r.entries ==>
      && ZeroValued(res.registry.heap, res.result.value)
      && (forall a :: a in Footprint(res.result.value) ==> |r.heap| <= a)
    ensures res.result.Err? ==>
      res.result.error == TypeMismatch(KindName(KindOf(r.entries[KeyOf(m)])), r.entries[KeyOf(m)])
    ensures Valid(r) ==> Valid(res.registry)
    ensures Valid(r) && res.result.Ok? && res.result.value.OfTimingCount? ==>
      res.result.value.t.unit == DEFAULT_UNIT
  {
    var key := KeyOf(m);
    if key in r.entries then
      Registered(r, Downcast(r.entries[key], m.kind))
    else
      var made := NewInstrument(r.heap, m.kind);
      var r' := Registry(r.entries[key := made.value], made.heap);
      assert Valid(r) ==> Valid(r') by {
        if Valid(r) {
          forall k | k in r.entries ensures Footprint(r.entries[k]) !! Footprint(made.value) {
            assert WellFormed(r.heap, r.entries[k]);
          }
        }
      }
      Registered(r', Ok(made.value))
  }

  /** `register_count`: `register_metric` fixed to counts, returning the typed handle. */
  function RegisterCount(r: Registry, m: Metric): (res: Registered<Count>)
    requires m.kind == CountKind
    ensures res.registry == Register(r, m).registry
    ensures res.result.Ok? <==> Register(r, m).result.Ok?
    ensures res.result.Ok? ==> Register(r, m).result.value == OfCount(res.result.value)
    ensures res.result.Err? ==> res.result.error == Register(r, m).result.error
  {
    var g := Register(r, m);
    if g.result.Err? then Registered(g.registry, Err(g.result.error))
    else Registered(g.registry, Ok(g.result.value.c))
  }

  /** `register_gauge`: `register_metric` fixed to gauges. */
  function RegisterGauge(r: Registry, m: Metric): (res: Registered<Gauge>)
    requires m.kind == GaugeKind
    ensures res.registry == Register(r, m).registry
    ensures res.result.Ok? <==> Register(r, m).result.Ok?
    ensures res.result.Ok? ==> Register(r, m).result.value == OfGauge(res.result.value)
    ensures res.result.Err? ==> res.result.error == Register(r, m).result.error
  {
    var g := Register(r, m);
    if g.result.Err? then Registered(g.registry, Err(g.result.error))
    else Registered(g.registry, Ok(g.result.value.g))
  }

  /** `register_timing_count`: `register_metric` fixed to timing counts. */
  function RegisterTimingCount(r: Registry, m: Metric): (res: Registered<TimingCount>)
    requires m.kind == TimingCountKind
    ensures res.registry == Register(r, m).registry
    ensures res.result.Ok? <==> Register(r, m).result.Ok?
    ensures res.result.Ok? ==> Register(r, m).result.value == OfTimingCount(res.result.value)
    ensures res.result.Err? ==> res.result.error == Register(r, m).result.error
    ensures Valid(r) && res.result.Ok? ==> res.result.value.unit == DEFAULT_UNIT
  {
    var g := Register(r, m);
    if g.result.Err? then Registered(g.registry, Err(g.result.error))
    else Registered(g.registry, Ok(g.result.value.t))
  }

  /**
   Registering the same key and kind again hands out the same handle and
   leaves the registry unchanged: both callers share one instrument.
   */
  lemma RegisterAgainSharesHandle(r: Registry, m1: Metric, m2: Metric)
    requires KeyOf(m1) == KeyOf(m2) && m1.kind == m2.kind
    requires Register(r, m1).result.Ok?
    ensures var first := Register(r, m1);
      var second := Register(first.registry, m2);
      second.registry == first.registry && second.result == first.result
  {
  }

  /**
   Registering a key under a second kind fails with `TypeMismatch` naming the
   first kind, and the instrument stored for the key is kept.
   */
  lemma RegisterOtherKindFails(r: Registry, m1: Metric, m2: Metric)
    requires KeyOf(m1) == KeyOf(m2) && m1.kind != m2.kind
    requires Register(r, m1).result.Ok?
    ensures var first := Register(r, m1);
      var second := Register(first.registry, m2);
      && second.registry == first.registry
      && second.result == Err(TypeMismatch(KindName(m1.kind), first.result.value))
  {
  }

  /**
   A count registered twice under one name: an increment through the first
   handle is what a reset through the second handle reads.
   */
  lemma CountHandlesShareCell(name: string)
    ensures var m := FromName(name, CountKind);
      var first := RegisterCount(EmptyRegistry(), m);
      var second := RegisterCount(first.registry, m);
      && first.result.Ok? && second.result.Ok?
      && var h := CountIncrement(second.registry.heap, first.result.value).heap;
         CountReset(h, second.result.value).value == 1
  {
  }

  /** Registrations one after the other, with each caller's result. */
  function RegisterAll(r: Registry, ms: seq<Metric>): (res: (Registry, seq<Result<Instrument, RegistrationError>>))
    ensures |res.1| == |ms|
    decreases |ms|
  {
    if |ms| == 0 then (r, [])
    else
      var g := Register(r, ms[0]);
      var rest := RegisterAll(g.registry, ms[1..]);
      (rest.0, [g.result] + rest.1)
  }

  /**
   The `register` function the `metrics_struct!` and `metrics_module!` macros
   generate: one registration per field, in order, joined by `?`. The first
   `TypeMismatch` is returned and the fields after it are not registered;
   when all succeed, the caller gets every handle.
   */
  function RegisterEach(r: Registry, ms: seq<Metric>): (res: Registered<seq<Instrument>>)
    ensures res.result.Ok? ==> |res.result.value| == |ms|
    decreases |ms|
  {
    if |ms| == 0 then Registered(r, Ok([]))
    else
      var g := Register(r, ms[0]);
      if g.result.Err? then Registered(g.registry, Err(g.result.error))
      else
        var rest := RegisterEach(g.registry, ms[1..]);
        if rest.result.Err? then rest
        else Registered(rest.registry, Ok([g.result.value] + rest.result.value))
  }

  /** Every result of a sequence is a success. */
  predicate AllOk<T, E>(rs: seq<Result<T, E>>)
  {
    forall i :: 0 <= i < |rs| ==> rs[i].Ok?
  }

  /** The results wrapping each value of `vs` as a success, in order. */
  function Oks<T, E>(vs: seq<T>): (rs: seq<Result<T, E>>)
    ensures |rs| == |vs| && AllOk(rs)
    ensures forall i :: 0 <= i < |vs| ==> rs[i] == Ok(vs[i])
  {
    seq(|vs|, i requires 0 <= i < |vs| => Ok(vs[i]))
  }

  /** A sequence of results is all successes when its head and its tail are. */
  lemma AllOkCons<T, E>(head: Result<T, E>, tail: seq<Result<T, E>>)
    ensures AllOk([head] + tail) <==> head.Ok? && AllOk(tail)
  {
    if head.Ok? && AllOk(tail) {
      forall i | 0 <= i < |[head] + tail| ensures ([head] + tail)[i].Ok? {
        if i > 0 { assert ([head] + tail)[i] == tail[i - 1]; }
      }
    }
    if AllOk([head] + tail) {
      assert ([head] + tail)[0] == head;
      forall i | 0 <= i < |tail| ensures tail[i].Ok? {
        assert ([head] + tail)[i + 1] == tail[i];
      }
    }
  }

  /** One step of a registration sequence: the first registration, then the rest. */
  lemma RegisterAllStep(r: Registry, ms: seq<Metric>)
    requires |ms| > 0
    ensures var g := Register(r, ms[0]);
      && RegisterAll(r, ms).0 == RegisterAll(g.registry, ms[1..]).0
      && RegisterAll(r, ms).1 == [g.result] + RegisterAll(g.registry, ms[1..]).1
  {
  }

  /**
   The generated `register` fails exactly when some registration of the
   sequence, made one after the other, fails.
   */
  lemma {:induction false} RegisterEachFailsIffSomeFails(r: Registry, ms: seq<Metric>)
    ensures RegisterEach(r, ms).result.Ok? <==> AllOk(RegisterAll(r, ms).1)
    decreases |ms|
  {
    if |ms| > 0 {
      var g := Register(r, ms[0]);
      RegisterEachFailsIffSomeFails(g.registry, ms[1..]);
      RegisterAllStep(r, ms);
      AllOkCons(g.result, RegisterAll(g.registry, ms[1..]).1);
    }
  }

  /**
   When every registration of a sequence succeeds, the generated `register`
   leaves the registry `RegisterAll` leaves and returns the same handles.
   */
  lemma {:induction false} RegisterEachWhenAllSucceed(r: Registry, ms: seq<Metric>)
    requires RegisterEach(r, ms).result.Ok?
    ensures RegisterEach(r, ms).registry == RegisterAll(r, ms).0
    ensures RegisterAll(r, ms).1 == Oks(RegisterEach(r, ms).result.value)
    decreases |ms|
  {
    if |ms| > 0 {
      var g := Register(r, ms[0]);
      var rest := RegisterEach(g.registry, ms[1..]);
      RegisterEachWhenAllSucceed(g.registry, ms[1..]);
      RegisterAllStep(r, ms);
      var vs := RegisterEach(r, ms).result.value;
      assert vs == [g.result.value] + rest.result.value;
      assert Oks<Instrument, RegistrationError>(vs)
          == [Ok(g.result.value)] + Oks<Instrument, RegistrationError>(rest.result.value);
    }
  }

  /**
   When registration `j` is the first of a sequence to fail, the generated
   `register` returns its error and leaves the registry `RegisterAll` leaves
   after the metrics up to and including `j`; later metrics are not registered.
   */
  lemma {:induction false} RegisterEachStopsAtFirstFailure(r: Registry, ms: seq<Metric>, j: nat)
    requires j < |ms| && RegisterAll(r, ms).1[j].Err? && AllOk(RegisterAll(r, ms).1[..j])
    ensures RegisterEach(r, ms) == Registered(RegisterAll(r, ms[..j + 1]).0, Err(RegisterAll(r, ms).1[j].error))
    decreases j
  {
    var g := Register(r, ms[0]);
    var tail := RegisterAll(g.registry, ms[1..]).1;
    RegisterAllStep(r, ms);
    RegisterAllStep(r, ms[..j + 1]);
    assert ms[..j + 1][0] == ms[0];
    if j > 0 {
      assert RegisterAll(r, ms).1[..j] == [g.result] + tail[..j - 1];
      AllOkCons(g.result, tail[..j - 1]);
      assert ms[..j + 1][1..] == ms[1..][..j];
      RegisterEachStopsAtFirstFailure(g.registry, ms[1..], j - 1);
    } else {
      assert ms[..1][1..] == [];
    }
  }

  /**
   Over any sequence of registrations the key set only grows, no stored
   instrument is ever replaced, every registered key is present, and the
   registry stays valid.
   */
  lemma {:induction false} RegisterAllGrows(r: Registry, ms: seq<Metric>)
    ensures forall k :: k in r.entries ==> k in RegisterAll(r, ms).0.entries && RegisterAll(r, ms).0.entries[k] == r.entries[k]
    ensures forall i :: 0 <= i < |ms| ==> KeyOf(ms[i]) in RegisterAll(r, ms).0.entries
    ensures Valid(r) ==> Valid(RegisterAll(r, ms).0)
    decreases |ms|
  {
    if |ms| > 0 {
      var g := Register(r, ms[0]);
      RegisterAllGrows(g.registry, ms[1..]);
      forall i | 0 <= i < |ms| ensures KeyOf(ms[i]) in RegisterAll(r, ms).0.entries {
        if i > 0 { assert ms[i] == ms[1..][i - 1]; }
      }
    }
  }

  /**
   A key is bound for good to one kind: each registration in a sequence
   succeeds exactly when its kind is the kind finally stored for its key, and
   a successful one hands out the finally stored instrument itself.
   */
  lemma {:induction false} RegisterAllAgreesWithFinalKind(r: Registry, ms: seq<Metric>)
    ensures var (final, results) := RegisterAll(r, ms);
      forall i :: 0 <= i < |ms| ==>
        && KeyOf(ms[i]) in final.entries
        && (results[i].Ok? <==> KindOf(final.entries[KeyOf(ms[i])]) == ms[i].kind)
        && (results[i].Ok? ==> results[i].value == final.entries[KeyOf(ms[i])])
    decreases |ms|
  {
    RegisterAllGrows(r, ms);
    if |ms| > 0 {
      var g := Register(r, ms[0]);
      var (final, results) := RegisterAll(r, ms);
      RegisterAllAgreesWithFinalKind(g.registry, ms[1..]);
      RegisterAllGrows(g.registry, ms[1..]);
      forall i | 0 <= i < |ms|
        ensures && (results[i].Ok? <==> KindOf(final.entries[KeyOf(ms[i])]) == ms[i].kind)
                && (results[i].Ok? ==> results[i].value == final.entries[KeyOf(ms[i])])
      {
        if i > 0 {
          assert ms[i] == ms[1..][i - 1];
          assert results[i] == RegisterAll(g.registry, ms[1..]).1[i - 1];
        } else {
          assert KeyOf(ms[0]) in g.registry.entries;
        }
      }
    }
  }

  /** Each key occurs once. */
  ghost predicate Distinct(order: seq<MetricKey>)
  {
    forall i, j :: 0 <= i < j < |order| ==> order[i] != order[j]
  }

  /** `order` visits every key of `keys` exactly once, as map iteration does. */
  ghost predicate Enumerates(order: seq<MetricKey>, keys: set<MetricKey>)
  {
    Distinct(order) && forall k :: k in order <==> k in keys
  }

  /** Every key of `order` is stored and its instrument is live in `h`. */
  ghost predicate Live(h: Heap, es: map<MetricKey, Instrument>, order: seq<MetricKey>)
  {
    forall k :: k in order ==> k in es && WellFormed(h, es[k])
  }

  /** Some key of `order` owns cell `a`. */
  ghost predicate OwnedIn(es: map<MetricKey, Instrument>, order: seq<MetricKey>, a: nat)
  {
    exists k :: k in order && k in es && a in Footprint(es[k])
  }

  /** The heap after a walk and the samples it sent. */
  datatype Pass = Pass(heap: Heap, samples: seq<Sample>)

  /**
   The loop body of `reset_and_emit`: emits the entries in iteration order,
   each against the heap its predecessors left, and ignores every error.
   */
  function EmitEntries(h: Heap, es: map<MetricKey, Instrument>, order: seq<MetricKey>, accept: Sink): (p: Pass)
    requires Live(h, es, order)
    ensures |p.heap| == |h|
    ensures |order| <= |p.samples| <= 2 * |order|
    decreases |order|
  {
    if |order| == 0 then Pass(h, [])
    else
      var e := Emit(h, order[0], es[order[0]], accept);
      var rest := EmitEntries(e.heap, es, order[1..], accept);
      Pass(rest.heap, e.attempts + rest.samples)
  }

  /** Reference: every entry emitted against the same, pre-pass heap. */
  function Snapshot(h: Heap, es: map<MetricKey, Instrument>, order: seq<MetricKey>, accept: Sink): (samples: seq<Sample>)
    requires Live(h, es, order)
    decreases |order|
  {
    if |order| == 0 then []
    else Emit(h, order[0], es[order[0]], accept).attempts + Snapshot(h, es, order[1..], accept)
  }

  /** The cells of the first key are owned by no later key. */
  lemma FirstOwnsItsCellsAlone(es: map<MetricKey, Instrument>, order: seq<MetricKey>)
    requires |order| > 0 && order[0] in es && Distinct(order) && Disjoint(es)
    ensures forall a :: a in Footprint(es[order[0]]) ==> !OwnedIn(es, order[1..], a)
  {
  }

  /** The snapshot depends only on the cells the listed entries own. */
  lemma {:induction false} SnapshotReadsOwnedCells(h1: Heap, h2: Heap, es: map<MetricKey, Instrument>, order: seq<MetricKey>, accept: Sink)
    requires Live(h1, es, order) && Live(h2, es, order)
    requires forall a :: 0 <= a < |h1| && OwnedIn(es, order, a) ==> a < |h2| && h1[a] == h2[a]
    ensures Snapshot(h1, es, order, accept) == Snapshot(h2, es, order, accept)
    decreases |order|
  {
    if |order| > 0 {
      var k := order[0];
      forall a | a in Footprint(es[k]) ensures h1[a] == h2[a] {
        assert OwnedIn(es, order, a);
      }
      EmitReadsOwnCells(h1, h2, k, es[k], accept);
      forall a | 0 <= a < |h1| && OwnedIn(es, order[1..], a) ensures a < |h2| && h1[a] == h2[a] {
        var k' :| k' in order[1..] && k' in es && a in Footprint(es[k']);
        assert OwnedIn(es, order, a);
      }
      SnapshotReadsOwnedCells(h1, h2, es, order[1..], accept);
    }
  }

  /**
   Entries do not interfere: walking the entries in order, each against the
   heap its predecessors left, sends exactly what emitting every entry
   against the pre-pass heap sends.
   */
  lemma {:induction false} EmitEntriesIsSnapshot(h: Heap, es: map<MetricKey, Instrument>, order: seq<MetricKey>, accept: Sink)
    requires Live(h, es, order) && Distinct(order) && Disjoint(es)
    ensures EmitEntries(h, es, order, accept).samples == Snapshot(h, es, order, accept)
    decreases |order|
  {
    if |order| > 0 {
      var e := Emit(h, order[0], es[order[0]], accept);
      EmitEntriesIsSnapshot(e.heap, es, order[1..], accept);
      FirstOwnsItsCellsAlone(es, order);
      SnapshotReadsOwnedCells(e.heap, h, es, order[1..], accept);
    }
  }

  /**
   After the walk every listed count and timing count reads 0, every listed
   gauge is as before, and no cell outside the listed entries has changed.
   */
  lemma {:induction false} EmitEntriesFlushes(h: Heap, es: map<MetricKey, Instrument>, order: seq<MetricKey>, accept: Sink)
    requires Live(h, es, order) && Distinct(order) && Disjoint(es)
    ensures var p := EmitEntries(h, es, order, accept);
      && (forall k :: k in order ==> Flushed(h, p.heap, es[k]))
      && (forall a :: 0 <= a < |h| && !OwnedIn(es, order, a) ==> p.heap[a] == h[a])
    decreases |order|
  {
    if |order| > 0 {
      var k0 := order[0];
      var e := Emit(h, k0, es[k0], accept);
      var p := EmitEntries(h, es, order, accept);
      EmitEntriesFlushes(e.heap, es, order[1..], accept);
      FirstOwnsItsCellsAlone(es, order);
      forall k | k in order ensures Flushed(h, p.heap, es[k]) {
        if k == k0 {
          match es[k0]
          case OfCount(c) => assert c.cell in Footprint(es[k0]);
          case OfGauge(g) => assert g.cell in Footprint(es[k0]);
          case OfTimingCount(t) => assert t.sum in Footprint(es[k0]) && t.count in Footprint(es[k0]);
        } else {
          var j :| 0 <= j < |order| && order[j] == k;
          assert k in order[1..] by { assert order[1..][j - 1] == k; }
          assert Footprint(es[k]) !! Footprint(es[k0]);
          match es[k]
          case OfCount(c) =>
          case OfGauge(g) => assert g.cell in Footprint(es[k]);
          case OfTimingCount(t) =>
        }
      }
      forall a | 0 <= a < |h| && !OwnedIn(es, order, a) ensures p.heap[a] == h[a] {
        assert a !in Footprint(es[k0]);
      }
    }
  }

  /** A sequence enumerating a set without repetition is as long as the set is large. */
  lemma {:induction false} EnumerationSize(order: seq<MetricKey>, keys: set<MetricKey>)
    requires Enumerates(order, keys)
    ensures |order| == |keys|
    decreases |order|
  {
    if |order| > 0 {
      var rest := keys - {order[0]};
      forall k ensures k in order[1..] <==> k in rest {
        if k in order[1..] {
          var j :| 0 <= j < |order[1..]| && order[1..][j] == k;
          assert order[j + 1] == k;
        }
        if k in rest {
          var j :| 0 <= j < |order| && order[j] == k;
          assert order[1..][j - 1] == k;
        }
      }
      EnumerationSize(order[1..], rest);
    } else {
      assert forall k :: k !in keys;
      assert keys == {};
    }
  }

  /** The gauge reporting how long a pass took, in microseconds, under no tags. */
  function SelfTimingSample(elapsedNanos: nat): (s: Sample)
    ensures s.GaugeSample? && s.name == TIME_TO_EMIT_METRICS && s.tags == {}
    ensures s.reading.Integer?
    ensures elapsedNanos / 1000 < TWO_63 ==> s.reading.value == elapsedNanos / 1000
  {
    GaugeSample(TIME_TO_EMIT_METRICS, Integer(ReinterpretAsI64(TruncateToU64(elapsedNanos / 1000))), {})
  }

  /** The registry after a flush pass and every sample the pass sent. */
  datatype Flush = Flush(registry: Registry, samples: seq<Sample>)

  /**
   `reset_and_emit`: one flush pass. Every entry is emitted exactly once, in
   the map's iteration order, and per-entry errors are ignored; the samples
   are those of every entry read at the start of the pass, followed by one
   gauge timing the pass, even when there are no entries. Counts and timing
   counts are left at 0, gauges as they were, all other cells untouched.
   The rate limiter's wait before each entry changes nothing here.
   */
  function ResetAndEmit(r: Registry, order: seq<MetricKey>, accept: Sink, elapsedNanos: nat): (f: Flush)
    requires Valid(r) && Enumerates(order, r.entries.Keys)
    ensures f.registry.entries == r.entries && Valid(f.registry)
    ensures |f.registry.heap| == |r.heap|
    ensures f.samples == Snapshot(r.heap, r.entries, order, accept) + [SelfTimingSample(elapsedNanos)]
    ensures |r.entries| + 1 <= |f.samples| <= 2 * |r.entries| + 1
    ensures forall k :: k in r.entries ==> Flushed(r.heap, f.registry.heap, r.entries[k])
    ensures forall a :: 0 <= a < |r.heap| && !OwnedIn(r.entries, order, a) ==> f.registry.heap[a] == r.heap[a]
  {
    EmitEntriesIsSnapshot(r.heap, r.entries, order, accept);
    EmitEntriesFlushes(r.heap, r.entries, order, accept);
    EnumerationSize(order, r.entries.Keys);
    var p := EmitEntries(r.heap, r.entries, order, accept);
    Flush(Registry(r.entries, p.heap), p.samples + [SelfTimingSample(elapsedNanos)])
  }

  /** A pass over an empty registry sends the self-timing gauge and nothing else. */
  lemma EmptyPassSendsOnlySelfTiming(accept: Sink, elapsedNanos: nat)
    ensures ResetAndEmit(EmptyRegistry(), [], accept, elapsedNanos).samples == [SelfTimingSample(elapsedNanos)]
  {
  }

  /** Entries whose counts and timing counts all read 0 send only zero counts. */
  lemma {:induction false} SnapshotOfZerosSendsZeros(h: Heap, es: map<MetricKey, Instrument>, order: seq<MetricKey>, accept: Sink)
    requires Live(h, es, order)
    requires forall k :: k in order && !es[k].OfGauge? ==> ZeroValued(h, es[k])
    ensures forall s :: s in Snapshot(h, es, order, accept) && s.CountSample? ==> s.value == 0
    decreases |order|
  {
    if |order| > 0 {
      var k := order[0];
      var i := es[k];
      SnapshotOfZerosSendsZeros(h, es, order[1..], accept);
      match i
      case OfCount(c) => assert c.cell in Footprint(i);
      case OfGauge(g) =>
      case OfTimingCount(t) => assert t.sum in Footprint(i) && t.count in Footprint(i);
    }
  }

  /**
   Two passes with no producer activity between them: every count sample of
   the second pass is 0, whether or not the first pass's sends succeeded.
   Only gauges, which a flush leaves as they are, send a value again.
   */
  lemma SecondPassSendsZeroCounts(r: Registry, order: seq<MetricKey>, accept: Sink, e1: nat, e2: nat)
    requires Valid(r) && Enumerates(order, r.entries.Keys)
    ensures var first := ResetAndEmit(r, order, accept, e1);
      var second := ResetAndEmit(first.registry, order, accept, e2);
      forall s :: s in second.samples && s.CountSample? ==> s.value == 0
  {
    var first := ResetAndEmit(r, order, accept, e1);
    var h := first.registry.heap;
    forall k | k in order && !r.entries[k].OfGauge? ensures ZeroValued(h, r.entries[k]) {
      assert Flushed(r.heap, h, r.entries[k]);
    }
    SnapshotOfZerosSendsZeros(h, r.entries, order, accept);
  }

  /** Registering the timing count "x" in a new registry stores it on cells 0 and 1, both 0. */
  lemma FirstTimingCountRegistration()
    ensures var m := FromName("x", TimingCountKind);
      var i := OfTimingCount(TimingCount(0, 1, DEFAULT_UNIT));
      Register(EmptyRegistry(), m) == Registered(Registry(map[KeyOf(m) := i], [0, 0]), Ok(i))
  {
    assert Cells.Alloc([], 2) == [0, 0];
  }

  /** A registry holding only the timing count "x" at (5000, 1) is flushed as ("x.time", 5000), ("x", 1). */
  lemma SingleTimingCountFlush(accept: Sink, elapsedNanos: nat)
    requires forall s :: accept(s)
    ensures var key := MetricKey("x", {});
      var r := Registry(map[key := OfTimingCount(TimingCount(0, 1, DEFAULT_UNIT))], [5000, 1]);
      && Valid(r) && Enumerates([key], r.entries.Keys)
      && ResetAndEmit(r, [key], accept, elapsedNanos).samples
         == [CountSample("x.time", 5000, {}), CountSample("x", 1, {}), SelfTimingSample(elapsedNanos)]
  {
    var key := MetricKey("x", {});
    var i := OfTimingCount(TimingCount(0, 1, DEFAULT_UNIT));
    var r := Registry(map[key := i], [5000, 1]);
    assert r.entries.Keys == {key};
    assert "x" + ".time" == "x.time";
    assert Snapshot(r.heap, r.entries, [key], accept) == Emit(r.heap, key, i, accept).attempts;
  }

  /**
   End to end: a timing count registered as "x" in a new registry, fed one
   5-second timing through its handle, is flushed as ("x.time", 5000) and
   ("x", 1) followed by the self-timing gauge.
   */
  lemma TimingCountRoundTrip(accept: Sink, elapsedNanos: nat)
    requires forall s :: accept(s)
    ensures var m := FromName("x", TimingCountKind);
      var reg := RegisterTimingCount(EmptyRegistry(), m);
      && reg.result.Ok?
      && var fed := reg.registry.(heap := TimingAdd(reg.registry.heap, reg.result.value, 5_000_000_000).heap);
         && Valid(fed)
         && ResetAndEmit(fed, [KeyOf(m)], accept, elapsedNanos).samples
            == [CountSample("x.time", 5000, {}), CountSample("x", 1, {}), SelfTimingSample(elapsedNanos)]
  {
    FirstTimingCountRegistration();
    SingleTimingCountFlush(accept, elapsedNanos);
    var t := TimingCount(0, 1, DEFAULT_UNIT);
    assert TimingAdd([0, 0], t, 5_000_000_000).heap == [5000, 1];
    assert KeyOf(FromName("x", TimingCountKind)) == MetricKey("x", {});
  }
}
