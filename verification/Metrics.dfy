/** pkg/metric: the Metric record, its construction, its signature and its text forms. */
module Metrics {
  import opened Basics
  import opened Decimal

  const GAUGE := "gauge"
  const COUNTER := "counter"

  datatype Metric = Metric(id: string, mtype: string, delta: Option<Int64>, value: Option<Float64>, hash: string)

  /** The pair the stores search by. */
  datatype Key = Key(mtype: string, id: string)

  function KeyOf(m: Metric): Key { Key(m.mtype, m.id) }

  /** The field the type selects. Nothing stands for a nil field or an unknown type. */
  datatype Reading = Nothing | Total(delta: Int64) | Level(value: Float64)

  function ReadingOf(m: Metric): Reading {
    if m.mtype == COUNTER && m.delta.Some? then Total(m.delta.value)
    else if m.mtype == GAUGE && m.value.Some? then Level(m.value.value)
    else Nothing
  }

  /** A gauge with a Value or a counter with a Delta: what Sign accepts. */
  predicate WellTyped(m: Metric) { ReadingOf(m) != Nothing }

  /** The text forms of a float64 that the program asks its libraries for. */
  datatype FloatText = FloatText(
    percentF: Float64 -> string,
    shortest: Float64 -> string,
    json: Float64 -> string,
    ofInt: Int64 -> Float64,
    parse: string -> Option<Float64>)

  // ---- CreateMetric and its options ----

  datatype OptionsMetric = WithValue(data: string) | WithValueInt(amount: Int64)

  function Apply(option: OptionsMetric, m: Metric, floats: FloatText): Result<Metric, Error> {
    match option
    case WithValue(data) =>
      if m.mtype == GAUGE then
        match floats.parse(data)
        case Some(v) => Ok(m.(value := Some(v)))
        case None => Err(InvalidValue)
      else if m.mtype == COUNTER then
        match ParseInt64(data)
        case Some(d) => Ok(m.(delta := Some(d)))
        case None => Err(InvalidValue)
      else Err(UnknownType)
    case WithValueInt(n) =>
      if m.mtype == GAUGE then Ok(m.(value := Some(floats.ofInt(n))))
      else if m.mtype == COUNTER then Ok(m.(delta := Some(n)))
      else Err(UnknownType)
  }

  function ApplyAll(options: seq<OptionsMetric>, m: Metric, floats: FloatText): Result<Metric, Error> {
    if options == [] then Ok(m)
    else match Apply(options[0], m, floats)
      case Err(e) => Err(e)
      case Ok(next) => ApplyAll(options[1..], next, floats)
  }

  /** CreateMetric without options, as Restore calls it. */
  function Bare(mtype: string, id: string): Result<Metric, Error> {
    if id == "" || mtype == "" then Err(InvalidId) else Ok(Metric(id, mtype, None, None, ""))
  }

  function Create(mtype: string, id: string, options: seq<OptionsMetric>, floats: FloatText): Result<Metric, Error> {
    match Bare(mtype, id)
    case Err(e) => Err(e)
    case Ok(m) => ApplyAll(options, m, floats)
  }

  /** The loop of CreateMetric: options run in order and the first failure wins. */
  method CreateMetric(mtype: string, id: string, options: seq<OptionsMetric>, floats: FloatText)
    returns (r: Result<Metric, Error>)
    ensures r == Create(mtype, id, options, floats)
  {
    if |id| < 1 {
      return Err(InvalidId);
    }
    if |mtype| < 1 {
      return Err(InvalidId);
    }
    var m := Metric(id, mtype, None, None, "");
    var i := 0;
    while i < |options|
      invariant 0 <= i <= |options|
      invariant Create(mtype, id, options, floats) == ApplyAll(options[i..], m, floats)
    {
      var next := Apply(options[i], m, floats);
      if next.Err? {
        return Err(next.error);
      }
      m := next.value;
      i := i + 1;
    }
    return Ok(m);
  }

  /** A created metric keeps its key, carries no signature, and is well typed as soon as one option ran. */
  lemma {:induction false} CreatedShape(mtype: string, id: string, options: seq<OptionsMetric>, floats: FloatText)
    ensures match Create(mtype, id, options, floats)
            case Ok(m) => m.id == id != "" && m.mtype == mtype != "" && m.hash == "" && (options != [] ==> WellTyped(m))
            case Err(e) => id == "" || mtype == "" || options != []
  {
    if id != "" && mtype != "" {
      AppliedShape(options, Metric(id, mtype, None, None, ""), floats);
    }
  }

  /** What WithValue makes of a text, or why it refuses it: a value is never made up. */
  function TextValue(mtype: string, id: string, data: string, floats: FloatText): Result<Metric, Error> {
    if id == "" || mtype == "" then Err(InvalidId)
    else if mtype != GAUGE && mtype != COUNTER then Err(UnknownType)
    else if mtype == GAUGE && floats.parse(data).Some? then Ok(Metric(id, GAUGE, None, floats.parse(data), ""))
    else if mtype == COUNTER && ParseInt64(data).Some? then Ok(Metric(id, COUNTER, ParseInt64(data), None, ""))
    else Err(InvalidValue)
  }

  /** Creating a metric from a text succeeds exactly when the text is a number of the metric's type. */
  lemma CreateFromText(mtype: string, id: string, data: string, floats: FloatText)
    ensures Create(mtype, id, [WithValue(data)], floats) == TextValue(mtype, id, data, floats)
    ensures Create(mtype, id, [WithValue(data)], floats).Ok?
            <==> id != ""
                 && ((mtype == GAUGE && floats.parse(data).Some?) || (mtype == COUNTER && ParseInt64(data).Some?))
  {
    var options := [WithValue(data)];
    assert options[1..] == [];
    if id != "" && mtype != "" {
      var m := Metric(id, mtype, None, None, "");
      OneOption(options[0], m, floats);
    }
  }

  lemma OneOption(option: OptionsMetric, m: Metric, floats: FloatText)
    ensures ApplyAll([option], m, floats) == Apply(option, m, floats)
  {
    assert [option][1..] == [];
    var r := Apply(option, m, floats);
    assert r.Ok? ==> ApplyAll([], r.value, floats) == r;
  }

  /** Options run in order: the last one runs on what the others made, unless one of those failed. */
  lemma {:induction false} OptionsInOrder(options: seq<OptionsMetric>, last: OptionsMetric, m: Metric,
                                          floats: FloatText)
    ensures ApplyAll(options + [last], m, floats)
            == match ApplyAll(options, m, floats) case Err(e) => Err(e) case Ok(next) => Apply(last, next, floats)
  {
    if options == [] {
      OneOption(last, m, floats);
      assert [] + [last] == [last];
    } else {
      assert (options + [last])[0] == options[0] && (options + [last])[1..] == options[1..] + [last];
      match Apply(options[0], m, floats)
      case Err(_) =>
      case Ok(next) => OptionsInOrder(options[1..], last, next, floats);
    }
  }

  /** WithValueInt on a gauge converts the number; no other type takes it. */
  lemma CreateFromInt(mtype: string, id: string, n: Int64, floats: FloatText)
    requires id != "" && mtype != ""
    ensures Create(mtype, id, [WithValueInt(n)], floats)
            == if mtype == GAUGE then Ok(Metric(id, GAUGE, None, Some(floats.ofInt(n)), ""))
               else if mtype == COUNTER then Ok(Metric(id, COUNTER, Some(n), None, ""))
               else Err(UnknownType)
  {
    OneOption(WithValueInt(n), Metric(id, mtype, None, None, ""), floats);
  }

  /** A created counter is exactly what was asked for, as the agent relies on for PollCount. */
  lemma CreateCounter(id: string, n: Int64, floats: FloatText)
    requires id != ""
    ensures Create(COUNTER, id, [WithValueInt(n)], floats) == Ok(Metric(id, COUNTER, Some(n), None, ""))
  {
    var options := [WithValueInt(n)];
    var m := Metric(id, COUNTER, None, None, "");
    assert options[1..] == [] && Bare(COUNTER, id) == Ok(m);
    assert Apply(options[0], m, floats) == Ok(m.(delta := Some(n)));
    assert ApplyAll(options, m, floats) == ApplyAll([], m.(delta := Some(n)), floats);
  }

  lemma {:induction false} AppliedShape(options: seq<OptionsMetric>, m: Metric, floats: FloatText)
    ensures match ApplyAll(options, m, floats)
            case Ok(r) => r.id == m.id && r.mtype == m.mtype && r.hash == m.hash
                          && (options != [] || WellTyped(m) ==> WellTyped(r))
            case Err(_) => options != []
  {
    if options != [] {
      match Apply(options[0], m, floats)
      case Err(_) =>
      case Ok(next) => AppliedShape(options[1..], next, floats);
    } else {
    }
  }

  // ---- Signature ----

  /** The value part of the signing source: decimal for a counter, %f for a gauge. */
  function ValueText(m: Metric, floats: FloatText): Result<string, Error> {
    if m.mtype == COUNTER then
      if m.delta.Some? then Ok(FormatInt(m.delta.value)) else Err(InvalidValue)
    else if m.mtype == GAUGE then
      if m.value.Some? then Ok(floats.percentF(m.value.value)) else Err(InvalidValue)
    else Err(UnknownType)
  }

  function SignSource(m: Metric, floats: FloatText): Result<string, Error> {
    match ValueText(m, floats)
    case Err(e) => Err(e)
    case Ok(text) => Ok(m.id + ":" + m.mtype + ":" + text)
  }

  /** What the program gets from outside: HMAC-SHA256 in hex, and float text. */
  datatype Env = Env(hmac: (string, string) -> string, floats: FloatText)

  function Sign(m: Metric, key: string, env: Env): Result<string, Error> {
    if key == "" then Ok("")
    else match SignSource(m, env.floats)
      case Err(e) => Err(e)
      case Ok(src) => Ok(env.hmac(key, src))
  }

  lemma SignableIffWellTyped(m: Metric, key: string, env: Env)
    ensures key != "" ==> (Sign(m, key, env).Ok? <==> WellTyped(m))
  {
  }

  /** The signed text, part by part: the id, a colon, the type, a colon, the value. */
  lemma SignSourceReads(m: Metric, floats: FloatText)
    requires WellTyped(m)
    ensures SignSource(m, floats).Ok?
    ensures var source, n := SignSource(m, floats).value, |m.id|;
            && |source| > n + |m.mtype| + 1
            && source[..n] == m.id && source[n] == ':'
            && source[n + 1..n + 1 + |m.mtype|] == m.mtype && source[n + 1 + |m.mtype|] == ':'
            && source[n + |m.mtype| + 2..]
               == match ReadingOf(m) case Total(d) => FormatInt(d) case Level(v) => floats.percentF(v)
    ensures m.mtype == "counter" || m.mtype == "gauge"
  {
    var text := ValueText(m, floats).value;
    var source := SignSource(m, floats).value;
    assert source == m.id + (":" + (m.mtype + (":" + text)));
  }

  /** A signature is the HMAC of the source; without a value of its type a metric has none, and why. */
  lemma SignMeans(m: Metric, key: string, env: Env)
    requires key != ""
    ensures Sign(m, key, env) == if WellTyped(m) then Ok(env.hmac(key, SignSource(m, env.floats).value))
                                 else if m.mtype == GAUGE || m.mtype == COUNTER then Err(InvalidValue)
                                 else Err(UnknownType)
    ensures Sign(m, "", env) == Ok("")
  {
  }

  // ---- The signing source identifies what was signed ----

  predicate NoColon(s: string) { ':' !in s }

  /** %f prints digits, a sign, a dot, or NaN and Inf: never a colon. */
  ghost predicate ColonFree(floats: FloatText) { forall f: Float64 :: NoColon(floats.percentF(f)) }

  lemma LastColonNotLater(a: string, x: string, b: string, y: string)
    requires NoColon(x)
    requires a + ":" + x == b + ":" + y
    ensures |b| <= |a|
  {
    var s := a + ":" + x;
    assert forall i :: |a| < i < |s| ==> s[i] == x[i - |a| - 1];
    assert (b + ":" + y)[|b|] == ':';
  }

  /** Splitting at the last colon is unambiguous when the tail has none. */
  lemma LastColon(a: string, x: string, b: string, y: string)
    requires NoColon(x) && NoColon(y)
    requires a + ":" + x == b + ":" + y
    ensures a == b && x == y
  {
    LastColonNotLater(a, x, b, y);
    LastColonNotLater(b, y, a, x);
    var s, t := a + ":" + x, b + ":" + y;
    assert a == s[..|a|] && x == s[|a| + 1..];
    assert b == t[..|b|] && y == t[|b| + 1..];
  }

  lemma TypedTextNoColon(m: Metric, floats: FloatText)
    requires ColonFree(floats) && ValueText(m, floats).Ok?
    ensures NoColon(ValueText(m, floats).value) && NoColon(m.mtype)
  {
  }

  /**
    * Two signable metrics share a signing source exactly when they agree on id, type and printed value.
    * Ids may hold colons. Counters therefore sign injectively, and no counter shares a source with a gauge.
    */
  lemma SignSourceIdentifies(m: Metric, n: Metric, floats: FloatText)
    requires ColonFree(floats)
    requires WellTyped(m) && WellTyped(n)
    ensures SignSource(m, floats) == SignSource(n, floats)
            <==> m.id == n.id && m.mtype == n.mtype && ValueText(m, floats) == ValueText(n, floats)
    ensures m.mtype == COUNTER && SignSource(m, floats) == SignSource(n, floats)
            ==> n.mtype == COUNTER && m.id == n.id && m.delta == n.delta
  {
    var x, y := ValueText(m, floats).value, ValueText(n, floats).value;
    TypedTextNoColon(m, floats);
    TypedTextNoColon(n, floats);
    if SignSource(m, floats) == SignSource(n, floats) {
      assert (m.id + ":" + m.mtype) + ":" + x == (n.id + ":" + n.mtype) + ":" + y;
      LastColon(m.id + ":" + m.mtype, x, n.id + ":" + n.mtype, y);
      LastColon(m.id, m.mtype, n.id, n.mtype);
      if m.mtype == COUNTER {
        FormatIntInjective(m.delta.value, n.delta.value);
      }
    }
  }
}
