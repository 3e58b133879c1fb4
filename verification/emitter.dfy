/**
 The telemetry client as the aggregation core sees it: a sink that is handed
 one scalar sample at a time and answers success or failure. The wire format
 and the transport are not part of this model.
 */
module Emitter {
  import opened Words

  /**
   What a gauge call carries. The client receives a decimal string; the model
   keeps the number it was rendered from: the stored `f64` bit pattern of a
   gauge instrument, or an `i64` for the registry's own timing gauge.
   */
  datatype GaugeReading = FloatBits(bits: U64) | Integer(value: I64)

  /** One call to the client: `count(name, value, tags)` or `gauge(name, value, tags)`. */
  datatype Sample =
    | CountSample(name: string, value: I64, tags: set<string>)
    | GaugeSample(name: string, reading: GaugeReading, tags: set<string>)

  /** The client's answer to each sample: true for `Ok(())`, false for an error. */
  type Sink = Sample -> bool

  /** The samples handed to the client, in order, and whether the last call succeeded. */
  datatype Emission = Emission(attempts: seq<Sample>, ok: bool)

  /** One client call. */
  function Send(accept: Sink, s: Sample): (e: Emission)
    ensures e.attempts == [s] && (e.ok <==> accept(s))
  {
    Emission([s], accept(s))
  }

  /**
   Two client calls joined by Rust's `?`: the second sample is only sent when
   the first call succeeded, and the combined result is the first failure.
   */
  function SendBoth(accept: Sink, first: Sample, second: Sample): (e: Emission)
    ensures 1 <= |e.attempts| <= 2 && e.attempts[0] == first
    ensures |e.attempts| == 2 <==> accept(first)
    ensures |e.attempts| == 2 ==> e.attempts[1] == second
    ensures e.ok <==> accept(first) && accept(second)
  {
    if accept(first) then Emission([first, second], accept(second))
    else Emission([first], false)
  }
}
