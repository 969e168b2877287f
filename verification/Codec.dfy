/** A batch of metrics as JSON: json.Marshal and json.Unmarshal of []Metric with the tags of pkg/metric. */
module Codec {
  import opened Basics
  import opened Decimal
  import opened Metrics
  import opened Text
  import opened Json
  import opened JsonFacts

  // ---- Marshal ----

  function NameMembers(m: Metric): seq<(string, Value)> { [("id", Str(m.id)), ("type", Str(m.mtype))] }

  /** The omitempty fields: nil pointers and an empty hash leave no member behind. */
  function DeltaMember(m: Metric): seq<(string, Value)> {
    if m.delta.Some? then [("delta", Num(FormatInt(m.delta.value)))] else []
  }

  function ValueMember(m: Metric, floats: FloatText): seq<(string, Value)> {
    if m.value.Some? then [("value", Num(floats.json(m.value.value)))] else []
  }

  function HashMember(m: Metric): seq<(string, Value)> {
    if m.hash != "" then [("hash", Str(m.hash))] else []
  }

  function ToJson(m: Metric, floats: FloatText): Value {
    Obj(NameMembers(m) + DeltaMember(m) + ValueMember(m, floats) + HashMember(m))
  }

  function AllToJson(ms: seq<Metric>, floats: FloatText): seq<Value> {
    if ms == [] then [] else [ToJson(ms[0], floats)] + AllToJson(ms[1..], floats)
  }

  /** JSON has no NaN and no infinities: encoding one is an error. */
  predicate Finite(m: Metric) { m.value.Some? ==> IsFinite(m.value.value) }

  predicate AllFinite(ms: seq<Metric>) { forall i :: 0 <= i < |ms| ==> Finite(ms[i]) }

  function Marshal(ms: seq<Metric>, floats: FloatText): Option<string> {
    if AllFinite(ms) then Some(Print(Arr(AllToJson(ms, floats)))) else None
  }

  // ---- Unmarshal ----

  function Lower(s: string): (r: string)
    ensures |r| == |s|
  {
    if s == [] then []
    else [if 'A' <= s[0] <= 'Z' then (s[0] as int + 32) as char else s[0]] + Lower(s[1..])
  }

  /** What a JSON value does to a field: null leaves a string alone and makes an optional field nil. */
  function StringField(v: Value, current: string): Option<string> {
    match v case Str(b) => Some(b) case Null => Some(current) case _ => None
  }

  function IntField(v: Value): Option<Option<Int64>> {
    match v
    case Num(text) => if ParseInt64(text).Some? then Some(ParseInt64(text)) else None
    case Null => Some(None)
    case _ => None
  }

  function FloatField(v: Value, floats: FloatText): Option<Option<Float64>> {
    match v
    case Num(text) => if floats.parse(text).Some? then Some(floats.parse(text)) else None
    case Null => Some(None)
    case _ => None
  }

  /** Field names match without regard to case; other members are ignored. */
  function DecodeField(m: Metric, name: string, v: Value, floats: FloatText): Option<Metric> {
    var field := Lower(name);
    if field == "id" then
      var t := StringField(v, m.id); if t.Some? then Some(m.(id := t.value)) else None
    else if field == "type" then
      var t := StringField(v, m.mtype); if t.Some? then Some(m.(mtype := t.value)) else None
    else if field == "hash" then
      var t := StringField(v, m.hash); if t.Some? then Some(m.(hash := t.value)) else None
    else if field == "delta" then
      var d := IntField(v); if d.Some? then Some(m.(delta := d.value)) else None
    else if field == "value" then
      var f := FloatField(v, floats); if f.Some? then Some(m.(value := f.value)) else None
    else Some(m)
  }

  function DecodeMembers(m: Metric, ms: seq<(string, Value)>, floats: FloatText): Option<Metric>
    decreases |ms|
  {
    if ms == [] then Some(m)
    else
      match DecodeField(m, ms[0].0, ms[0].1, floats)
      case None => None
      case Some(next) => DecodeMembers(next, ms[1..], floats)
  }

  const BLANK := Metric("", "", None, None, "")

  function DecodeMetric(v: Value, floats: FloatText): Option<Metric> {
    match v
    case Obj(ms) => DecodeMembers(BLANK, ms, floats)
    case Null => Some(BLANK)
    case _ => None
  }

  function DecodeItems(vs: seq<Value>, floats: FloatText): Option<seq<Metric>> {
    if vs == [] then Some([])
    else
      match DecodeMetric(vs[0], floats)
      case None => None
      case Some(m) => match DecodeItems(vs[1..], floats) case None => None case Some(ms) => Some([m] + ms)
  }

  /** A document that is malformed, or has a field of the wrong kind anywhere, gives no metrics at all. */
  function Unmarshal(data: string, floats: FloatText): Option<seq<Metric>> {
    match ReadDocument(data)
    case None => None
    case Some(Arr(vs)) => DecodeItems(vs, floats)
    case Some(Null) => Some([])
    case Some(_) => None
  }

  // ---- Round trip ----

  /** strconv on finite floats: a JSON number that parses back. */
  ghost predicate JsonFloats(floats: FloatText) {
    forall f: Float64 :: IsFinite(f) ==> IsNumber(floats.json(f)) && floats.parse(floats.json(f)) == Some(f)
  }

  function SaneMetric(m: Metric): Metric {
    m.(id := Sanitize(m.id), mtype := Sanitize(m.mtype), hash := Sanitize(m.hash))
  }

  function SaneMetrics(ms: seq<Metric>): (r: seq<Metric>)
    ensures |r| == |ms| && forall i :: 0 <= i < |ms| ==> r[i] == SaneMetric(ms[i])
  {
    if ms == [] then [] else [SaneMetric(ms[0])] + SaneMetrics(ms[1..])
  }

  predicate ValidText(m: Metric) { ValidUtf8(m.id) && ValidUtf8(m.mtype) && ValidUtf8(m.hash) }

  lemma {:induction false} SaneMetricsIdentityIff(ms: seq<Metric>)
    ensures SaneMetrics(ms) == ms <==> forall i :: 0 <= i < |ms| ==> ValidText(ms[i])
  {
    if ms == [] {
    } else {
      SanitizeIsIdentityIff(ms[0].id);
      SanitizeIsIdentityIff(ms[0].mtype);
      SanitizeIsIdentityIff(ms[0].hash);
      SaneMetricsIdentityIff(ms[1..]);
      assert ms == [ms[0]] + ms[1..];
      if SaneMetrics(ms) == ms {
        assert SaneMetrics(ms)[0] == ms[0] && SaneMetrics(ms)[1..] == ms[1..];
      }
    }
  }

  lemma {:induction false} FormatNatIsNumber(n: nat)
    ensures IsNumber(FormatNat(n)) && IsNumber("-" + FormatNat(n))
  {
  }

  lemma FormatIntIsNumber(n: Int64)
    ensures IsNumber(FormatInt(n))
  {
  }

  lemma {:induction false} AsciiIsSane(s: string)
    requires forall i :: 0 <= i < |s| ==> s[i] as int < 0x80
    ensures Sanitize(s) == s
  {
    if s == [] {
    } else {
      AsciiIsSane(s[1..]);
    }
  }

  lemma ToJsonPrintable(m: Metric, floats: FloatText)
    requires JsonFloats(floats) && Finite(m)
    ensures Printable(ToJson(m, floats))
  {
    if m.delta.Some? {
      FormatIntIsNumber(m.delta.value);
    }
  }

  lemma {:induction false} AllToJsonPrintable(ms: seq<Metric>, floats: FloatText)
    requires JsonFloats(floats) && AllFinite(ms)
    ensures Printable(Arr(AllToJson(ms, floats)))
  {
    if ms == [] {
    } else {
      ToJsonPrintable(ms[0], floats);
      AllToJsonPrintable(ms[1..], floats);
    }
  }

  lemma {:induction false} SaneMembersConcat(a: seq<(string, Value)>, b: seq<(string, Value)>)
    ensures SaneMembers(a + b) == SaneMembers(a) + SaneMembers(b)
  {
    if a == [] {
      assert a + b == b;
    } else {
      SaneMembersConcat(a[1..], b);
      var both := a + b;
      assert both[0] == a[0] && both[1..] == a[1..] + b;
      assert SaneMembers(both) == [SaneMember(both[0])] + SaneMembers(both[1..]);
      assert SaneMembers(a) == [SaneMember(a[0])] + SaneMembers(a[1..]);
    }
  }

  lemma {:induction false} DecodeConcat(m: Metric, a: seq<(string, Value)>, b: seq<(string, Value)>, floats: FloatText)
    ensures DecodeMembers(m, a + b, floats) == match DecodeMembers(m, a, floats)
                                               case None => None
                                               case Some(next) => DecodeMembers(next, b, floats)
    decreases |a|
  {
    if a == [] {
      assert a + b == b;
    } else {
      assert (a + b)[1..] == a[1..] + b;
      match DecodeField(m, a[0].0, a[0].1, floats)
      case None =>
      case Some(next) => DecodeConcat(next, a[1..], b, floats);
    }
  }

  lemma {:induction false} LowerIsIdentity(s: string)
    requires forall i :: 0 <= i < |s| ==> 'a' <= s[i] <= 'z'
    ensures Lower(s) == s && Sanitize(s) == s
  {
    AsciiIsSane(s);
    if s == [] {
    } else {
      LowerIsIdentity(s[1..]);
    }
  }

  lemma DecodeOne(m: Metric, name: string, v: Value, floats: FloatText)
    requires forall i :: 0 <= i < |name| ==> 'a' <= name[i] <= 'z'
    ensures DecodeMembers(m, SaneMembers([(name, v)]), floats) == DecodeField(m, name, Sane(v), floats)
    ensures Lower(name) == name
  {
    LowerIsIdentity(name);
    assert SaneMembers([(name, v)]) == [(name, Sane(v))];
  }

  lemma DecodeNames(m: Metric, id: string, mtype: string, floats: FloatText)
    ensures DecodeMembers(m, SaneMembers([("id", Str(id)), ("type", Str(mtype))]), floats)
            == Some(m.(id := Sanitize(id), mtype := Sanitize(mtype)))
  {
    var a, b := [("id", Str(id))], [("type", Str(mtype))];
    assert [("id", Str(id)), ("type", Str(mtype))] == a + b;
    SaneMembersConcat(a, b);
    DecodeConcat(m, SaneMembers(a), SaneMembers(b), floats);
    DecodeOne(m, "id", Str(id), floats);
    DecodeOne(m.(id := Sanitize(id)), "type", Str(mtype), floats);
  }

  lemma DecodeDelta(m: Metric, from: Metric, floats: FloatText)
    requires m.delta.None?
    ensures DecodeMembers(m, SaneMembers(DeltaMember(from)), floats) == Some(m.(delta := from.delta))
  {
    if from.delta.Some? {
      DecodeOne(m, "delta", Num(FormatInt(from.delta.value)), floats);
      ParseOfFormat(from.delta.value);
    }
  }

  lemma DecodeValue(m: Metric, from: Metric, floats: FloatText)
    requires JsonFloats(floats) && Finite(from) && m.value.None?
    ensures DecodeMembers(m, SaneMembers(ValueMember(from, floats)), floats) == Some(m.(value := from.value))
  {
    if from.value.Some? {
      DecodeOne(m, "value", Num(floats.json(from.value.value)), floats);
    }
  }

  lemma DecodeHash(m: Metric, from: Metric, floats: FloatText)
    requires m.hash == ""
    ensures DecodeMembers(m, SaneMembers(HashMember(from)), floats) == Some(m.(hash := Sanitize(from.hash)))
  {
    if from.hash != "" {
      DecodeOne(m, "hash", Str(from.hash), floats);
    }
  }

  lemma DecodeToDelta(m: Metric, named: Metric, floats: FloatText)
    requires named == BLANK.(id := Sanitize(m.id), mtype := Sanitize(m.mtype))
    ensures DecodeMembers(BLANK, SaneMembers(NameMembers(m) + DeltaMember(m)), floats)
            == Some(named.(delta := m.delta))
  {
    DecodeNames(BLANK, m.id, m.mtype, floats);
    DecodeDelta(named, m, floats);
    DecodeThen(BLANK, NameMembers(m), named, DeltaMember(m), named.(delta := m.delta), floats);
  }

  lemma DecodeToValue(m: Metric, counted: Metric, floats: FloatText)
    requires JsonFloats(floats) && Finite(m)
    requires counted == BLANK.(id := Sanitize(m.id), mtype := Sanitize(m.mtype), delta := m.delta)
    ensures DecodeMembers(BLANK, SaneMembers(NameMembers(m) + DeltaMember(m) + ValueMember(m, floats)), floats)
            == Some(counted.(value := m.value))
  {
    DecodeToDelta(m, counted.(delta := None), floats);
    DecodeValue(counted, m, floats);
    DecodeThen(BLANK, NameMembers(m) + DeltaMember(m), counted,
               ValueMember(m, floats), counted.(value := m.value), floats);
  }

  /** Decoding a marshalled metric gives it back, strings made valid: optional fields and all. */
  lemma DecodeEncoded(m: Metric, floats: FloatText)
    requires JsonFloats(floats) && Finite(m)
    ensures DecodeMetric(Sane(ToJson(m, floats)), floats) == Some(SaneMetric(m))
  {
    var valued := SaneMetric(m).(hash := "");
    DecodeToValue(m, valued.(value := None), floats);
    DecodeHash(valued, m, floats);
    DecodeThen(BLANK, NameMembers(m) + DeltaMember(m) + ValueMember(m, floats), valued,
               HashMember(m), SaneMetric(m), floats);
  }

  lemma DecodeThen(m: Metric, a: seq<(string, Value)>, next: Metric,
                   b: seq<(string, Value)>, last: Metric, floats: FloatText)
    requires DecodeMembers(m, SaneMembers(a), floats) == Some(next)
    requires DecodeMembers(next, SaneMembers(b), floats) == Some(last)
    ensures DecodeMembers(m, SaneMembers(a + b), floats) == Some(last)
  {
    SaneMembersConcat(a, b);
    DecodeConcat(m, SaneMembers(a), SaneMembers(b), floats);
  }

  lemma {:induction false} DecodeEncodedItems(ms: seq<Metric>, floats: FloatText)
    requires JsonFloats(floats) && AllFinite(ms)
    ensures DecodeItems(SaneItems(AllToJson(ms, floats)), floats) == Some(SaneMetrics(ms))
  {
    if ms == [] {
    } else {
      DecodeEncoded(ms[0], floats);
      DecodeEncodedItems(ms[1..], floats);
      assert AllToJson(ms, floats)[1..] == AllToJson(ms[1..], floats);
    }
  }

  /** For every batch of finite metrics: unmarshalling the marshalled text gives the batch, strings made valid. */
  lemma UnmarshalOfMarshal(ms: seq<Metric>, floats: FloatText)
    requires JsonFloats(floats) && AllFinite(ms)
    ensures Unmarshal(Marshal(ms, floats).value, floats) == Some(SaneMetrics(ms))
  {
    AllToJsonPrintable(ms, floats);
    ReadPrintedDocument(Arr(AllToJson(ms, floats)));
    DecodeEncodedItems(ms, floats);
  }

  /** A marshalled batch that was cut anywhere is refused as a whole, the empty text included. */
  lemma UnmarshalOfPrefix(ms: seq<Metric>, floats: FloatText, n: nat)
    requires JsonFloats(floats) && AllFinite(ms) && n < |Marshal(ms, floats).value|
    ensures Unmarshal(Marshal(ms, floats).value[..n], floats) == None
  {
    AllToJsonPrintable(ms, floats);
    ReadPrintedDocument(Arr(AllToJson(ms, floats)));
    PrefixIsNoDocument(Marshal(ms, floats).value, n);
  }

  lemma PrintedHoldsId(m: Metric, floats: FloatText)
    ensures |Print(ToJson(m, floats))| >= |m.id|
  {
    var members := ToJson(m, floats).members;
    assert members[0] == ("id", Str(m.id));
    EscapedIsNoShorter(m.id);
    assert |PrintMembers(members)| >= |PrintMember(members[0])|;
    assert |PrintMember(members[0])| >= |Print(members[0].1)|;
  }

  lemma {:induction false} PrintedItemsHold(ms: seq<Metric>, i: nat, floats: FloatText)
    requires i < |ms|
    ensures |PrintItems(AllToJson(ms, floats))| >= |ms[i].id|
  {
    PrintedHoldsId(ms[0], floats);
    var items := AllToJson(ms, floats);
    assert |PrintItems(items)| >= |Print(items[0])|;
    if i > 0 {
      PrintedItemsHold(ms[1..], i - 1, floats);
    }
  }

  /** A batch takes at least as many bytes as any id in it. */
  lemma MarshalHoldsIds(ms: seq<Metric>, i: nat, floats: FloatText)
    requires i < |ms| && AllFinite(ms)
    ensures |Marshal(ms, floats).value| >= |ms[i].id|
  {
    PrintedItemsHold(ms, i, floats);
  }

  lemma MarshalOneLine(ms: seq<Metric>, floats: FloatText)
    requires JsonFloats(floats) && AllFinite(ms)
    ensures OneLine(Marshal(ms, floats).value) && Marshal(ms, floats).value != ""
  {
    AllToJsonPrintable(ms, floats);
    PrintOneLine(Arr(AllToJson(ms, floats)));
  }
}
