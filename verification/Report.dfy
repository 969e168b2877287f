/**
  * The two text forms in which the agent reports: one URL path per metric, and one signed JSON batch.
  * The server's UpdateURL takes the path apart again.
  */
module Report {
  import opened Basics
  import opened Decimal
  import opened Metrics
  import opened MemStore
  import opened Server
  import opened Runs
  import opened Manager

  // ---- The agent's side ----

  /** metric.Map: the text of the selected value, empty when there is none. */
  function MapValue(m: Metric, floats: FloatText): string {
    match ReadingOf(m) case Total(d) => FormatInt(d) case Level(v) => floats.shortest(v) case Nothing => ""
  }

  /** Bytes url.PathEscape leaves alone: unreserved characters (section 2.3 of RFC 3986) and six others. */
  predicate Plain(c: char) {
    'a' <= c <= 'z' || 'A' <= c <= 'Z' || '0' <= c <= '9'
    || c == '-' || c == '_' || c == '.' || c == '~'
    || c == '$' || c == '&' || c == '+' || c == ':' || c == '=' || c == '@'
  }

  predicate AllPlain(s: string) { forall i :: 0 <= i < |s| ==> Plain(s[i]) }

  function UpperHex(d: nat): (c: char)
    requires d < 16
    ensures Plain(c)
  {
    if d < 10 then (d + '0' as int) as char else (d - 10 + 'A' as int) as char
  }

  function PathEscape(s: string): (r: string)
    ensures |r| >= |s|
    ensures forall i :: 0 <= i < |r| ==> Plain(r[i]) || r[i] == '%'
    ensures r == s <==> AllPlain(s)
    ensures AllPlain(r) ==> r == s
  {
    if s == "" then ""
    else
      var c := s[0];
      var rest := PathEscape(s[1..]);
      assert AllPlain(s) <==> Plain(c) && AllPlain(s[1..]) by {
        assert forall i :: 1 <= i < |s| ==> s[i] == s[1..][i - 1];
      }
      if Plain(c) then
        assert ([c] + rest)[1..] == rest && [c] + s[1..] == s;
        assert AllPlain([c] + rest) ==> AllPlain(rest) by {
          assert forall i :: 0 <= i < |rest| ==> rest[i] == ([c] + rest)[i + 1];
        }
        [c] + rest
      else
        var escape := ['%', UpperHex(c as int % 0x100 / 16), UpperHex(c as int % 16)];
        assert (escape + rest)[0] == '%';
        escape + rest
  }

  function HexValue(c: char): nat {
    if '0' <= c <= '9' then c as int - '0' as int else if 'A' <= c <= 'F' then c as int - 'A' as int + 10 else 0
  }

  /** Percent-decoding (section 2.1 of RFC 3986). */
  function PathUnescape(s: string): string
    decreases |s|
  {
    if s == "" then ""
    else if s[0] == '%' && |s| >= 3 then [(HexValue(s[1]) * 16 + HexValue(s[2])) as char] + PathUnescape(s[3..])
    else [s[0]] + PathUnescape(s[1..])
  }

  /** What PathEscape does to a text of bytes, percent-decoding undoes. */
  lemma {:induction false} UnescapeInverts(s: string)
    requires forall i :: 0 <= i < |s| ==> (s[i] as int) < 0x100
    ensures PathUnescape(PathEscape(s)) == s
  {
    if s == "" {
    } else {
      UnescapeInverts(s[1..]);
      var c, rest := s[0], PathEscape(s[1..]);
      if Plain(c) {
        assert ([c] + rest)[1..] == rest && [c] + s[1..] == s;
      } else {
        var escape := ['%', UpperHex(c as int % 0x100 / 16), UpperHex(c as int % 16)];
        assert (escape + rest)[3..] == rest && PathEscape(s) == escape + rest;
        HexPair(c as int);
        assert [c] + s[1..] == s;
      }
    }
  }

  lemma HexValueInverts(d: nat)
    requires d < 16
    ensures HexValue(UpperHex(d)) == d
  {
  }

  lemma HexPair(n: nat)
    requires n < 0x100
    ensures HexValue(UpperHex(n % 0x100 / 16)) * 16 + HexValue(UpperHex(n % 16)) == n
  {
    var high, low := n % 0x100 / 16, n % 16;
    assert high < 16 && n == high * 16 + low;
    HexValueInverts(high);
    HexValueInverts(low);
  }

  function ReportPath(m: Metric, floats: FloatText): string {
    "/update/" + PathEscape(m.mtype) + "/" + PathEscape(m.id) + "/" + PathEscape(MapValue(m, floats))
  }

  // ---- The server's side ----

  const PREFIX := "/update/"

  /** strings.ReplaceAll(s, "/update/", ""). */
  function WithoutPrefix(s: string): string {
    if |s| < |PREFIX| then s
    else if s[..|PREFIX|] == PREFIX then WithoutPrefix(s[|PREFIX|..])
    else [s[0]] + WithoutPrefix(s[1..])
  }

  function SlashEnd(s: string): (e: nat)
    ensures e <= |s| && (e < |s| ==> s[e] == '/')
    ensures forall i :: 0 <= i < e ==> s[i] != '/'
  {
    if s == "" || s[0] == '/' then 0 else 1 + SlashEnd(s[1..])
  }

  /** strings.Split(s, "/"). */
  function Split(s: string): (parts: seq<string>)
    ensures parts != []
    decreases |s|
  {
    var e := SlashEnd(s);
    if e == |s| then [s] else [s[..e]] + Split(s[e + 1..])
  }

  /** The metric UpdateURL builds from the request path, or the error it answers with. */
  function ParsedUpdate(path: string, floats: FloatText): Result<Metric, Error> {
    var parts := Split(WithoutPrefix(path));
    if |parts| != 3 then Err(BadRoute) else Create(parts[0], parts[1], [WithValue(parts[2])], floats)
  }

  /** Handler.UpdateURL on top of the manager: nothing changes unless the whole path parses. */
  method UpdateURL(manager: MetricsManager, path: string, io: Io) returns (r: Outcome)
    requires manager.Valid()
    modifies manager.holder, manager.memory, manager.memory.metrics
    ensures manager.Valid()
    ensures (manager.State(), r) == match ParsedUpdate(path, manager.config.env.floats)
                                    case Err(e) => (old(manager.State()), Failed(e))
                                    case Ok(m) => UpsertCall(manager.config, old(manager.State()), m, io)
  {
    var parts := Split(WithoutPrefix(path));
    if |parts| != 3 {
      return Failed(BadRoute);
    }
    var created := CreateMetric(parts[0], parts[1], [WithValue(parts[2])], manager.config.env.floats);
    if created.Err? {
      return Failed(created.error);
    }
    r := manager.Upsert(created.value, io);
  }

  // ---- From path back to metric ----

  predicate NoSlash(s: string) { forall i :: 0 <= i < |s| ==> s[i] != '/' }

  predicate PrefixAt(s: string, p: nat) { p + |PREFIX| <= |s| && s[p..p + |PREFIX|] == PREFIX }

  lemma {:induction false} WithoutPrefixIdentity(s: string)
    requires forall p: nat :: !PrefixAt(s, p)
    ensures WithoutPrefix(s) == s
    decreases |s|
  {
    if |s| < |PREFIX| {
    } else {
      assert !PrefixAt(s, 0);
      forall p: nat ensures !PrefixAt(s[1..], p) {
        assert !PrefixAt(s, p + 1);
        if p + |PREFIX| <= |s[1..]| {
          assert s[1..][p..p + |PREFIX|] == s[p + 1..p + 1 + |PREFIX|];
        }
      }
      WithoutPrefixIdentity(s[1..]);
    }
  }

  /** The prefix is met again only when the middle segment is the word update itself. */
  lemma PrefixOnlyInMiddle(a: string, b: string, c: string, p: nat)
    requires NoSlash(a) && NoSlash(b) && NoSlash(c)
    requires PrefixAt(a + "/" + b + "/" + c, p)
    ensures b == "update" && p == |a|
  {
    var s := a + "/" + b + "/" + c;
    var w := s[p..p + |PREFIX|];
    assert PREFIX == "/update/" && "/update/"[1..7] == "update";
    assert w[0] == '/' && w[7] == '/' && w[1..7] == "update";
    assert s[p] == '/' && s[p + 7] == '/' && s[p + 1..p + 7] == "update";
    assert forall i :: 0 <= i < |s| && s[i] == '/' ==> i == |a| || i == |a| + 1 + |b|;
    assert p == |a| && p + 7 == |a| + 1 + |b|;
    assert s[p + 1..p + 7] == b;
  }

  lemma {:induction false} PrefixInMiddle(a: string, c: string)
    requires NoSlash(a) && NoSlash(c)
    ensures WithoutPrefix(a + PREFIX + c) == a + c
    decreases |a|
  {
    var s := a + PREFIX + c;
    if a == "" {
      assert s[..|PREFIX|] == PREFIX && s[|PREFIX|..] == c;
      forall p: nat ensures !PrefixAt(c, p) {
        assert p + |PREFIX| <= |c| ==> c[p..p + |PREFIX|][0] == c[p];
      }
      WithoutPrefixIdentity(c);
      assert a + c == c;
    } else {
      assert s[0] == a[0] && s[..|PREFIX|][0] != PREFIX[0];
      assert s[1..] == a[1..] + PREFIX + c;
      PrefixInMiddle(a[1..], c);
    }
  }

  lemma SplitStep(a: string, rest: string)
    requires NoSlash(a)
    ensures Split(a + "/" + rest) == [a] + Split(rest)
  {
    var s := a + "/" + rest;
    var e := SlashEnd(s);
    assert s[|a|] == '/';
    assert forall i :: 0 <= i < |a| ==> s[i] == a[i];
    assert e == |a|;
    assert s[..e] == a && s[e + 1..] == rest;
  }

  lemma SplitThree(a: string, b: string, c: string)
    requires NoSlash(a) && NoSlash(b) && NoSlash(c)
    ensures Split(a + "/" + b + "/" + c) == [a, b, c]
  {
    SegmentsGrouped(a, b, c);
    SplitStep(a, b + "/" + c);
    SplitStep(b, c);
    SplitLast(c);
    assert [a] + ([b] + [c]) == [a, b, c];
  }

  lemma SegmentsGrouped(a: string, b: string, c: string)
    ensures a + "/" + b + "/" + c == a + "/" + (b + "/" + c)
  {
  }

  lemma SplitLast(a: string)
    requires NoSlash(a)
    ensures Split(a) == [a]
  {
  }

  lemma RestOfPath(a: string, b: string, c: string)
    ensures WithoutPrefix(PREFIX + a + "/" + b + "/" + c) == WithoutPrefix(a + "/" + b + "/" + c)
  {
    var s := PREFIX + a + "/" + b + "/" + c;
    assert s[..|PREFIX|] == PREFIX && s[|PREFIX|..] == a + "/" + b + "/" + c;
  }

  lemma {:induction false} PathParts(a: string, b: string, c: string)
    requires NoSlash(a) && NoSlash(b) && NoSlash(c)
    ensures Split(WithoutPrefix(PREFIX + a + "/" + b + "/" + c)) == if b == "update" then [a + c] else [a, b, c]
  {
    var rest := a + "/" + b + "/" + c;
    RestOfPath(a, b, c);
    if b == "update" {
      assert rest == a + PREFIX + c;
      PrefixInMiddle(a, c);
      SplitLast(a + c);
    } else {
      forall p: nat ensures !PrefixAt(rest, p) {
        if PrefixAt(rest, p) {
          PrefixOnlyInMiddle(a, b, c, p);
        }
      }
      WithoutPrefixIdentity(rest);
      SplitThree(a, b, c);
    }
  }

  /**
    * Which paths UpdateURL takes, and what it answers to the others: three segments of which the first is a type,
    * the second a non-empty id, and the third a number of that type.
    */
  lemma UrlParsesIff(a: string, b: string, v: string, floats: FloatText)
    requires NoSlash(a) && NoSlash(b) && NoSlash(v) && b != "update"
    ensures var r := ParsedUpdate(PREFIX + a + "/" + b + "/" + v, floats);
            && r == TextValue(a, b, v, floats)
            && (r.Ok? <==>
                b != "" && ((a == "gauge" && floats.parse(v).Some?) || (a == "counter" && ParseInt64(v).Some?)))
            && (r.Err? ==> r.error == if a == "" || b == "" then InvalidId
                                      else if a == "gauge" || a == "counter" then InvalidValue else UnknownType)
  {
    PathParts(a, b, v);
    CreateFromText(a, b, v, floats);
  }

  function Slashes(s: string): nat { multiset(s)['/'] }

  lemma NoSlashes(s: string)
    ensures Slashes(s) == 0 <==> NoSlash(s)
  {
    assert NoSlash(s) <==> '/' !in s;
  }

  lemma {:induction false} SplitCounts(s: string)
    ensures |Split(s)| == Slashes(s) + 1
    decreases |s|
  {
    var e := SlashEnd(s);
    if e == |s| {
      NoSlashes(s);
    } else {
      SplitCounts(s[e + 1..]);
      NoSlashes(s[..e]);
      assert s == s[..e] + ['/'] + s[e + 1..];
    }
  }

  /** A path whose rest has any other number of slashes than two names no metric. */
  lemma OtherPathsAreRefused(path: string, floats: FloatText)
    ensures ParsedUpdate(path, floats) == Err(BadRoute) <==> Slashes(WithoutPrefix(path)) != 2
  {
    SplitCounts(WithoutPrefix(path));
    var parts := Split(WithoutPrefix(path));
    if |parts| == 3 {
      CreateFromText(parts[0], parts[1], parts[2], floats);
    }
  }

  /** strconv on finite floats: FormatFloat with 'f' prints plain characters that parse back. */
  ghost predicate PathFloats(floats: FloatText) {
    forall f: Float64 :: IsFinite(f) ==> AllPlain(floats.shortest(f)) && floats.parse(floats.shortest(f)) == Some(f)
  }

  predicate Reportable(m: Metric) {
    match ReadingOf(m) case Total(_) => true case Level(v) => IsFinite(v) case Nothing => false
  }

  /** What a path can carry: the key and the selected value. */
  function Carried(m: Metric, id: string): Metric {
    match ReadingOf(m)
    case Total(d) => Metric(id, COUNTER, Some(d), None, "")
    case Level(v) => Metric(id, GAUGE, None, Some(v), "")
    case Nothing => m
  }

  lemma ValueSurvives(m: Metric, floats: FloatText)
    requires PathFloats(floats) && Reportable(m)
    ensures AllPlain(MapValue(m, floats)) && AllPlain(m.mtype)
    ensures forall id :: id != "" ==>
              Create(m.mtype, id, [WithValue(MapValue(m, floats))], floats) == Ok(Carried(m, id))
  {
    var option := WithValue(MapValue(m, floats));
    if m.mtype == COUNTER {
      ParseOfFormat(m.delta.value);
      var s := FormatInt(m.delta.value);
      assert forall i :: 0 <= i < |s| ==> IsDigit(s[i]) || s[i] == '-';
    }
    forall id | id != "" ensures Create(m.mtype, id, [option], floats) == Ok(Carried(m, id)) {
      assert ApplyAll([option][1..], Carried(m, id), floats) == Ok(Carried(m, id));
      assert Apply(option, Metric(id, m.mtype, None, None, ""), floats) == Ok(Carried(m, id));
    }
  }

  /**
    * For every id and every int64 or finite value: what UpdateURL makes of a reported path. An empty id is
    * refused, the id update is cut out of the path, any other id arrives in its escaped form.
    */
  lemma {:induction false} UpdateOfReport(m: Metric, floats: FloatText)
    requires PathFloats(floats) && Reportable(m)
    ensures ParsedUpdate(ReportPath(m, floats), floats)
            == if m.id == "" then Err(InvalidId)
               else if m.id == "update" then Err(BadRoute)
               else Ok(Carried(m, PathEscape(m.id)))
  {
    ValueSurvives(m, floats);
    var v := MapValue(m, floats);
    PathParts(m.mtype, PathEscape(m.id), v);
    EscapeOfUpdate(m.id);
  }

  lemma EscapeOfUpdate(id: string)
    ensures PathEscape(id) == "update" <==> id == "update"
    ensures PathEscape(id) == "" <==> id == ""
  {
  }

  /** The path round trip rebuilds the metric exactly for ids of plain characters other than update. */
  lemma {:induction false} UrlRoundTripIff(m: Metric, floats: FloatText)
    requires PathFloats(floats) && Reportable(m)
    ensures ParsedUpdate(ReportPath(m, floats), floats) == Ok(Carried(m, m.id))
            <==> m.id != "" && m.id != "update" && AllPlain(m.id)
  {
    UpdateOfReport(m, floats);
    if m.id != "" && m.id != "update" {
      assert Carried(m, PathEscape(m.id)).id == PathEscape(m.id) && Carried(m, m.id).id == m.id;
    }
  }

  /**
    * A path carries no hash, so the manager refuses the metric that came as a URL exactly when it has a sign
    * key. Without one, a sound server takes it.
    */
  lemma UrlUpdatesFailIffSignKey(c: Config, w: World, path: string, io: Io)
    requires forall key, src :: c.env.hmac(key, src) != ""
    requires ParsedUpdate(path, c.env.floats).Ok?
    ensures var call := UpsertCall(c, w, ParsedUpdate(path, c.env.floats).value, io);
            && (call == (w, Failed(SignFailed)) <==> c.signKey != "")
            && (c.signKey == "" && Sound(w.mem) ==> call.1 == Done)
  {
    var parts := Split(WithoutPrefix(path));
    var m := ParsedUpdate(path, c.env.floats).value;
    CreatedShape(parts[0], parts[1], [WithValue(parts[2])], c.env.floats);
    if c.signKey == "" && Sound(w.mem) {
      AdmitSound(c, w.mem, m);
    }
  }

  // ---- The signed batch ----

  /** reportBatchJSON before encoding: every metric signed, or an error if one of them cannot be. */
  function SignedBatch(key: string, env: Env, ms: seq<Metric>): Result<seq<Metric>, Error> {
    if ms == [] then Ok([])
    else
      match SignedBatch(key, env, ms[..|ms| - 1])
      case Err(e) => Err(e)
      case Ok(done) =>
        var last := ms[|ms| - 1];
        match Sign(last, key, env) case Err(e) => Err(e) case Ok(hash) => Ok(done + [last.(hash := hash)])
  }

  lemma SignedBatchNext(key: string, env: Env, ms: seq<Metric>, i: nat, done: seq<Metric>)
    requires i < |ms| && SignedBatch(key, env, ms[..i]) == Ok(done)
    ensures match Sign(ms[i], key, env)
            case Err(e) => SignedBatch(key, env, ms) == Err(e)
            case Ok(hash) => SignedBatch(key, env, ms[..i + 1]) == Ok(done + [ms[i].(hash := hash)])
  {
    assert ms[..i + 1][..i] == ms[..i];
    if Sign(ms[i], key, env).Err? {
      SignedBatchFails(key, env, ms, i);
    }
  }

  /** The loop fills a second array, so the agent's own store keeps its unsigned metrics. */
  method SignBatch(slice: Slice, key: string, env: Env) returns (r: Result<seq<Metric>, Error>)
    requires slice.len <= slice.data.Length
    ensures r == SignedBatch(key, env, slice.data[..slice.len])
  {
    var signed := new Metric[slice.len](_ => Metric("", "", None, None, ""));
    ghost var all := slice.data[..slice.len];
    var i := 0;
    while i < slice.len
      invariant 0 <= i <= slice.len && slice.data[..slice.len] == all
      invariant SignedBatch(key, env, all[..i]) == Ok(signed[..i])
    {
      var m := slice.data[i];
      assert m == all[i];
      SignedBatchNext(key, env, all, i, signed[..i]);
      var hash := Sign(m, key, env);
      if hash.Err? {
        return Err(hash.error);
      }
      signed[i] := m.(hash := hash.value);
      assert signed[..i + 1] == signed[..i] + [signed[i]];
      i := i + 1;
    }
    assert all[..i] == all;
    return Ok(signed[..slice.len]);
  }

  lemma {:induction false} SignedBatchFails(key: string, env: Env, ms: seq<Metric>, i: nat)
    requires i < |ms| && Sign(ms[i], key, env).Err? && SignedBatch(key, env, ms[..i]).Ok?
    ensures SignedBatch(key, env, ms) == Err(Sign(ms[i], key, env).error)
  {
    var init := ms[..|ms| - 1];
    if i < |init| {
      assert init[..i] == ms[..i];
      SignedBatchFails(key, env, init, i);
    } else {
      assert init == ms[..i];
    }
  }

  lemma {:induction false} SignedBatchShape(key: string, env: Env, ms: seq<Metric>)
    requires SignedBatch(key, env, ms).Ok?
    ensures var r := SignedBatch(key, env, ms).value;
            |r| == |ms| && forall i :: 0 <= i < |ms| ==>
                             Sign(ms[i], key, env) == Ok(r[i].hash) && r[i] == ms[i].(hash := r[i].hash)
  {
    if ms == [] {
    } else {
      SignedBatchShape(key, env, ms[..|ms| - 1]);
    }
  }

  /** When agent and server share the key, every metric of a signed batch passes the server's check. */
  lemma SignedBatchVerifies(c: Config, ms: seq<Metric>)
    requires SignedBatch(c.signKey, c.env, ms).Ok?
    ensures var r := SignedBatch(c.signKey, c.env, ms).value;
            forall i :: 0 <= i < |r| ==> Verified(c, r[i])
  {
  }
}
