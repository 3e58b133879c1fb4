/**
 Metric identity: the three metric kinds, the typed metric description a
 caller builds (name, kind, tag set), the kind-erased key the registry stores
 instruments under, and the ad-hoc emitters that send a metric's value straight
 to the client without aggregation.
 */
module Metric {
  import opened Words
  import opened Emitter

  /** The phantom `MetricType` markers, as a closed enumeration. */
  datatype Kind = CountKind | GaugeKind | TimingCountKind

  /** `MetricType::*::name()`: the kind names reported in registration errors. */
  function KindName(k: Kind): (name: string)
    ensures name == "count" <==> k == CountKind
    ensures name == "gauge" <==> k == GaugeKind
    ensures name == "timing_count" <==> k == TimingCountKind
  {
    match k
    case CountKind => "count"
    case GaugeKind => "gauge"
    case TimingCountKind => "timing_count"
  }

  /** Distinct kinds are never reported under the same name. */
  lemma KindNameInjective(a: Kind, b: Kind)
    ensures KindName(a) == KindName(b) <==> a == b
  {
  }

  /** `MetricName<T>`: a bare metric name tagged with its kind. */
  datatype MetricName = MetricName(name: string, kind: Kind)

  /** `Metric<T>`: a name, its kind and an ordered (here: plain) set of tags. */
  datatype Metric = Metric(name: string, kind: Kind, tags: set<string>)

  /** `MetricKey`: the kind-erased identity the registry deduplicates on. */
  datatype MetricKey = MetricKey(name: string, tags: set<string>)

  /**
   `Metric::new_count` / `new_gauge` / `new_timing_count`, and the `From`
   conversions from a `MetricName`: the name is kept and the tag set is empty.
   */
  function NewMetric(n: MetricName): (m: Metric)
    ensures m.name == n.name && m.kind == n.kind
    ensures forall t :: t !in m.tags
  {
    Metric(n.name, n.kind, {})
  }

  /** `From<&str> for Metric<T>`: a bare name becomes a tagless metric of kind `kind`. */
  function FromName(name: string, kind: Kind): (m: Metric)
    ensures m.name == name && m.kind == kind
    ensures forall t :: t !in m.tags
  {
    NewMetric(MetricName(name, kind))
  }

  /**
   `with_tags`, `with_array_tags` and `with_vec_tags`: the given strings,
   collected into a set, replace the metric's tags; name and kind are kept.
   */
  function WithTags(m: Metric, tags: seq<string>): (r: Metric)
    ensures r.name == m.name && r.kind == m.kind
    ensures forall t :: t in r.tags <==> t in tags
  {
    m.(tags := set t | t in tags)
  }

  /** `with_set_tags`: the given set replaces the metric's tags. */
  function WithSetTags(m: Metric, tags: set<string>): (r: Metric)
    ensures r.name == m.name && r.kind == m.kind
    ensures forall t :: t in r.tags <==> t in tags
  {
    m.(tags := tags)
  }

  /** The order and multiplicity of the given tags do not matter. */
  lemma WithTagsIgnoresOrderAndDuplicates(m: Metric, a: seq<string>, b: seq<string>)
    requires forall t :: t in a <==> t in b
    ensures WithTags(m, a) == WithTags(m, b)
  {
  }

  /** A second builder call replaces, and does not merge with, the first one's tags. */
  lemma WithTagsReplaces(m: Metric, first: seq<string>, second: seq<string>)
    ensures WithTags(WithTags(m, first), second) == WithTags(m, second)
  {
  }

  /** The sequence builders agree with `with_set_tags` on the collected set. */
  lemma WithTagsIsWithSetTags(m: Metric, tags: seq<string>)
    ensures WithTags(m, tags) == WithSetTags(m, set t | t in tags)
  {
  }

  /** `From<Metric<T>> for MetricKey`: keeps name and tags and forgets the kind. */
  function KeyOf(m: Metric): (k: MetricKey)
    ensures k.name == m.name && k.tags == m.tags
  {
    MetricKey(m.name, m.tags)
  }

  /**
   Two metrics share a key exactly when name and tag set agree, whatever
   their kinds: registering one name and tag set under two kinds addresses
   the same registry entry.
   */
  lemma KeyOfIdentity(a: Metric, b: Metric)
    ensures KeyOf(a) == KeyOf(b) <==> a.name == b.name && a.tags == b.tags
  {
  }

  /** The kind is not part of the key: the same bare name collides across kinds. */
  lemma FromNameKeyIgnoresKind(name: string, k1: Kind, k2: Kind)
    ensures KeyOf(FromName(name, k1)) == KeyOf(FromName(name, k2))
    ensures KeyOf(FromName(name, k1)).name == name
  {
  }

  /** `adhoc_count`: one count sample under the metric's tags united with the ad-hoc ones. */
  function AdhocCount(m: Metric, accept: Sink, count: I64, adhocTags: set<string>): (e: Emission)
    requires m.kind == CountKind
    ensures e.attempts == [CountSample(m.name, count, m.tags + adhocTags)]
    ensures e.ok <==> accept(e.attempts[0])
  {
    Send(accept, CountSample(m.name, count, m.tags + adhocTags))
  }

  /** `adhoc_gauge`: one gauge sample under the united tags. */
  function AdhocGauge(m: Metric, accept: Sink, bits: U64, adhocTags: set<string>): (e: Emission)
    requires m.kind == GaugeKind
    ensures e.attempts == [GaugeSample(m.name, FloatBits(bits), m.tags + adhocTags)]
    ensures e.ok <==> accept(e.attempts[0])
  {
    Send(accept, GaugeSample(m.name, FloatBits(bits), m.tags + adhocTags))
  }

  /**
   `adhoc_timing_count` as written: the sum and then the count, both as count
   samples under the bare metric name; the count is skipped if the sum fails.
   */
  function AdhocTimingCount(m: Metric, accept: Sink, sum: I64, count: I64, adhocTags: set<string>): (e: Emission)
    requires m.kind == TimingCountKind
    ensures 1 <= |e.attempts| <= 2
    ensures e.attempts[0] == CountSample(m.name, sum, m.tags + adhocTags)
    ensures |e.attempts| == 2 <==> accept(e.attempts[0])
    ensures |e.attempts| == 2 ==> e.attempts[1] == CountSample(m.name, count, m.tags + adhocTags)
    ensures e.ok <==> |e.attempts| == 2 && accept(e.attempts[1])
  {
    var tags := m.tags + adhocTags;
    SendBoth(accept, CountSample(m.name, sum, tags), CountSample(m.name, count, tags))
  }

  /**
   The two samples `adhoc_timing_count` sends differ only in their value: same
   kind of call, same name, same tags. A statsd agent adds count samples that
   share name and tags, so a sum of 5000 over 1 observation reaches it as a
   single count of 5001 and the average cannot be recovered.
   */
  lemma AdhocTimingCountSamplesCollide(m: Metric, sum: I64, count: I64, adhocTags: set<string>)
    requires m.kind == TimingCountKind
    ensures var e := AdhocTimingCount(m, _ => true, sum, count, adhocTags);
      |e.attempts| == 2
      && e.attempts[0].CountSample? && e.attempts[1].CountSample?
      && e.attempts[0].name == e.attempts[1].name
      && e.attempts[0].tags == e.attempts[1].tags
  {
  }

  /**
   `adhoc_timing_count` with the suffix the registry's flush uses for the same
   kind: the sum goes out under `name + ".time"`, the count under `name`.
   */
  function AdhocTimingCountSuffixed(m: Metric, accept: Sink, sum: I64, count: I64, adhocTags: set<string>): (e: Emission)
    requires m.kind == TimingCountKind
    ensures 1 <= |e.attempts| <= 2
    ensures e.attempts[0] == CountSample(m.name + ".time", sum, m.tags + adhocTags)
    ensures |e.attempts| == 2 <==> accept(e.attempts[0])
    ensures |e.attempts| == 2 ==> e.attempts[1] == CountSample(m.name, count, m.tags + adhocTags)
    ensures |e.attempts| == 2 ==> e.attempts[0].name != e.attempts[1].name
  {
    var tags := m.tags + adhocTags;
    SendBoth(accept, CountSample(m.name + ".time", sum, tags), CountSample(m.name, count, tags))
  }
}
