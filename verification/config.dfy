/**
 Registry configuration: the defaults applied when a setting is not given,
 the rule that reads a millisecond setting from the environment, and the
 unsigned decimal parsing that rule relies on. Durations are whole
 nanoseconds.
 */
module Config {
  import opened Words
  import opened Results

  const DEFAULT_OBSERVATION_PERIOD_MILLIS: U64 := 3_000
  const OBSERVATION_PERIOD_MILLIS_ENV_VAR: string := "GNORT_OBSERVATION_PERIOD_MILLIS"
  const DEFAULT_DELAY_MILLIS: U64 := 3_000
  const DELAY_MILLIS_ENV_VAR: string := "GNORT_DELAY_MILLIS"
  const DEFAULT_RATE_LIMIT_PER_SECOND: NonZeroU32 := 42_000
  const DEFAULT_BURST_LIMIT: NonZeroU32 := 42

  /** `NonZeroU32`. */
  type NonZeroU32 = x: int | 1 <= x < 0x1_0000_0000 witness 1

  /** `RegistryConfig` without its client: each setting may be left unset. */
  datatype RegistryConfig = RegistryConfig(
    observationPeriod: Option<nat>,
    delayTime: Option<nat>,
    rateLimitPerSecond: Option<NonZeroU32>,
    burstLimit: Option<NonZeroU32>)

  /** `RegistryConfig::default()`: nothing set. */
  const DEFAULT_CONFIG: RegistryConfig := RegistryConfig(None, None, None, None)

  /**
   The process environment as `std::env::var` sees it. A variable that is
   unset or not valid Unicode is simply absent.
   */
  type Env = map<string, string>

  /** `Duration::from_millis`. */
  function FromMillis(millis: U64): (nanos: nat)
  {
    millis * 1_000_000
  }

  /** The token rate `new` hands the rate limiter. */
  function RateLimitPerSecond(c: RegistryConfig): (r: NonZeroU32)
    ensures c.rateLimitPerSecond.None? ==> r == 42_000
    ensures c.rateLimitPerSecond.Some? ==> r == c.rateLimitPerSecond.value
  {
    c.rateLimitPerSecond.GetOr(DEFAULT_RATE_LIMIT_PER_SECOND)
  }

  /** The burst size `new` hands the rate limiter. */
  function BurstLimit(c: RegistryConfig): (r: NonZeroU32)
    ensures c.burstLimit.None? ==> r == 42
    ensures c.burstLimit.Some? ==> r == c.burstLimit.value
  {
    c.burstLimit.GetOr(DEFAULT_BURST_LIMIT)
  }

  predicate IsDigit(c: char)
  {
    '0' <= c <= '9'
  }

  predicate AllDigits(s: string)
  {
    forall i :: 0 <= i < |s| ==> IsDigit(s[i])
  }

  /** The value of a string of decimal digits, most significant first. */
  function DigitsValue(s: string): (n: nat)
    requires AllDigits(s)
    decreases |s|
  {
    if |s| == 0 then 0
    else DigitsValue(s[..|s| - 1]) * 10 + ((s[|s| - 1] as int) - ('0' as int))
  }

  /**
   `str::parse::<u64>`: an optional single `+`, then at least one decimal
   digit, with a value below 2^64. Anything else (empty, a sign alone, a `-`,
   another character, an overflow) is an error. `from_str` checks overflow
   digit by digit; as each prefix's value is at most the whole value, checking
   the whole value is the same.
   */
  function ParseU64(s: string): (r: Option<U64>)
    ensures |s| == 0 ==> r.None?
    ensures |s| > 0 && s[0] == '-' ==> r.None?
    ensures s == "+" ==> r.None?
    ensures r.Some? ==> (IsDigit(s[0]) || (s[0] == '+' && |s| > 1)) && forall i :: 0 < i < |s| ==> IsDigit(s[i])
    ensures |s| > 0 && AllDigits(s) ==>
      r == (if DigitsValue(s) < TWO_64 then Some(DigitsValue(s)) else None)
    ensures |s| > 1 && s[0] == '+' && AllDigits(s[1..]) ==>
      r == (if DigitsValue(s[1..]) < TWO_64 then Some(DigitsValue(s[1..])) else None)
  {
    if |s| == 0 then None
    else
      var digits := if s[0] == '+' then s[1..] else s;
      if |digits| == 0 || !AllDigits(digits) then None
      else if DigitsValue(digits) < TWO_64 then Some(DigitsValue(digits))
      else None
  }

  function DigitChar(d: nat): (c: char)
    requires d < 10
    ensures IsDigit(c) && (c as int) - ('0' as int) == d
  {
    ('0' as int + d) as char
  }

  /** The shortest decimal rendering of `n`, as `u64::to_string` writes it. */
  function Decimal(n: nat): (s: string)
    ensures |s| > 0 && AllDigits(s)
    decreases n
  {
    if n < 10 then [DigitChar(n)] else Decimal(n / 10) + [DigitChar(n % 10)]
  }

  /** Reading back a rendered number gives the number. */
  lemma {:induction false} DecimalValue(n: nat)
    ensures DigitsValue(Decimal(n)) == n
    decreases n
  {
    if n >= 10 {
      DecimalValue(n / 10);
      var s := Decimal(n);
      assert s[..|s| - 1] == Decimal(n / 10);
    }
  }

  /** Every `u64`, written in decimal with or without a leading `+`, parses back to itself. */
  lemma ParseDecimal(n: U64)
    ensures ParseU64(Decimal(n)) == Some(n)
    ensures ParseU64("+" + Decimal(n)) == Some(n)
  {
    DecimalValue(n);
    assert ("+" + Decimal(n))[1..] == Decimal(n);
  }

  /** 2^64 itself overflows and is rejected. */
  lemma ParseRejectsOverflow()
    ensures ParseU64(Decimal(TWO_64)).None?
  {
    DecimalValue(TWO_64);
  }

  /**
   `get_env_or_fallback`: the variable's value parsed as `u64`, or the
   fallback when the variable is absent or does not parse.
   */
  function EnvOrFallback(env: Env, name: string, fallback: U64): (r: U64)
    ensures name !in env ==> r == fallback
    ensures name in env && ParseU64(env[name]).None? ==> r == fallback
    ensures name in env && ParseU64(env[name]).Some? ==> r == ParseU64(env[name]).value
  {
    if name !in env then fallback
    else ParseU64(env[name]).GetOr(fallback)
  }

  /** A variable holding a rendered `u64` overrides the fallback with that number. */
  lemma EnvOverridesFallback(env: Env, name: string, n: U64, fallback: U64)
    ensures EnvOrFallback(env[name := Decimal(n)], name, fallback) == n
  {
    ParseDecimal(n);
  }

  /** A configured duration wins; else the environment's milliseconds; else the default. */
  function DurationSetting(configured: Option<nat>, env: Env, name: string, defaultMillis: U64): (nanos: nat)
  {
    configured.GetOr(FromMillis(EnvOrFallback(env, name, defaultMillis)))
  }

  /** `get_delay`: the wait before the first flush pass. */
  function GetDelay(c: RegistryConfig, env: Env): (d: nat)
    ensures c.delayTime.Some? ==> d == c.delayTime.value
    ensures c.delayTime.None? && DELAY_MILLIS_ENV_VAR !in env ==> d == 3_000_000_000
    ensures c.delayTime.None? && DELAY_MILLIS_ENV_VAR in env ==>
      d == FromMillis(ParseU64(env[DELAY_MILLIS_ENV_VAR]).GetOr(3_000))
  {
    DurationSetting(c.delayTime, env, DELAY_MILLIS_ENV_VAR, DEFAULT_DELAY_MILLIS)
  }

  /** `get_observation_period`: the time between the starts of flush passes. */
  function GetObservationPeriod(c: RegistryConfig, env: Env): (d: nat)
    ensures c.observationPeriod.Some? ==> d == c.observationPeriod.value
    ensures c.observationPeriod.None? && OBSERVATION_PERIOD_MILLIS_ENV_VAR !in env ==> d == 3_000_000_000
    ensures c.observationPeriod.None? && OBSERVATION_PERIOD_MILLIS_ENV_VAR in env ==>
      d == FromMillis(ParseU64(env[OBSERVATION_PERIOD_MILLIS_ENV_VAR]).GetOr(3_000))
  {
    DurationSetting(c.observationPeriod, env, OBSERVATION_PERIOD_MILLIS_ENV_VAR, DEFAULT_OBSERVATION_PERIOD_MILLIS)
  }

  /**
   With nothing configured, an unparsable environment value such as "3s"
   falls back to 3 seconds, and "250" gives 250 ms.
   */
  lemma EnvironmentExamples(env: Env)
    ensures GetDelay(DEFAULT_CONFIG, env[DELAY_MILLIS_ENV_VAR := "3s"]) == 3_000_000_000
    ensures GetObservationPeriod(DEFAULT_CONFIG, env[OBSERVATION_PERIOD_MILLIS_ENV_VAR := "250"]) == 250_000_000
  {
    assert !AllDigits("3s") by { assert !IsDigit("3s"[1]); }
    ParseDecimal(250);
    assert Decimal(250) == "250";
  }
}
