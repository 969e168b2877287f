/**
  * Which texts json.Unmarshal takes for a batch of metrics, and which metrics they are: by the JSON grammar, and
  * field by field by the last member that sets the field.
  */
module Decoding {
  import opened Basics
  import opened Decimal
  import opened Metrics
  import opened Json
  import opened Text
  import opened JsonGrammar
  import opened JsonReader
  import opened Codec

  /** The name is a field's, in any mixture of cases. */
  predicate Names(name: string, field: string) {
    |name| == |field| && forall i :: 0 <= i < |name| ==> name[i] == field[i] || name[i] as int == field[i] as int - 0x20
  }

  predicate LowerCase(s: string) { forall i :: 0 <= i < |s| ==> 'a' <= s[i] <= 'z' }

  lemma {:induction false} LowerMeans(name: string, field: string)
    requires LowerCase(field)
    ensures Lower(name) == field <==> Names(name, field)
  {
    if name == "" || field == "" {
    } else {
      LowerMeans(name[1..], field[1..]);
      NamesStep(name, field);
      assert Lower(name)[1..] == Lower(name[1..]);
      assert Lower(name) == [Lower(name)[0]] + Lower(name[1..]) && field == [field[0]] + field[1..];
    }
  }

  lemma NamesStep(name: string, field: string)
    requires name != "" && field != ""
    ensures Names(name, field)
            <==> (name[0] == field[0] || name[0] as int == field[0] as int - 0x20) && Names(name[1..], field[1..])
  {
    if Names(name[1..], field[1..]) {
      assert forall i :: 1 <= i < |name| ==> name[i] == name[1..][i - 1] && field[i] == field[1..][i - 1];
    }
  }

  // ---- One object ----

  /** Members of a field must be null or of the field's kind; a number must fit. Other members may be anything. */
  predicate Accepted(name: string, v: Value, floats: FloatText) {
    && (Names(name, "id") || Names(name, "type") || Names(name, "hash") ==> v.Null? || v.Str?)
    && (Names(name, "delta") ==> v.Null? || (v.Num? && ParseInt64(v.text).Some?))
    && (Names(name, "value") ==> v.Null? || (v.Num? && floats.parse(v.text).Some?))
  }

  predicate AllAccepted(ms: seq<(string, Value)>, floats: FloatText) {
    forall i :: 0 <= i < |ms| ==> Accepted(ms[i].0, ms[i].1, floats)
  }

  /** The last string under the field's name; null leaves a string as it was. */
  function LastString(ms: seq<(string, Value)>, field: string, before: string): string {
    if ms == [] then before
    else
      var (name, v) := ms[|ms| - 1];
      if Names(name, field) && v.Str? then v.bytes else LastString(ms[..|ms| - 1], field, before)
  }

  /** The last member under the field's name, None for null or when there is none. */
  function LastNumber(ms: seq<(string, Value)>, field: string): Option<string> {
    if ms == [] then None
    else
      var (name, v) := ms[|ms| - 1];
      if Names(name, field) then if v.Num? then Some(v.text) else None else LastNumber(ms[..|ms| - 1], field)
  }

  function MetricOf(ms: seq<(string, Value)>, floats: FloatText): Metric {
    var delta, value := LastNumber(ms, "delta"), LastNumber(ms, "value");
    Metric(LastString(ms, "id", ""), LastString(ms, "type", ""),
           if delta.Some? then ParseInt64(delta.value) else None,
           if value.Some? then floats.parse(value.value) else None,
           LastString(ms, "hash", ""))
  }

  lemma {:induction false} DecodeSnoc(m: Metric, ms: seq<(string, Value)>, x: (string, Value), floats: FloatText)
    ensures DecodeMembers(m, ms + [x], floats)
            == match DecodeMembers(m, ms, floats)
               case None => None
               case Some(next) => DecodeField(next, x.0, x.1, floats)
    decreases |ms|
  {
    if ms == [] {
      assert ([] + [x])[0] == x && ([] + [x])[1..] == [];
    } else {
      assert (ms + [x])[0] == ms[0] && (ms + [x])[1..] == ms[1..] + [x];
      match DecodeField(m, ms[0].0, ms[0].1, floats)
      case None =>
      case Some(next) => DecodeSnoc(next, ms[1..], x, floats);
    }
  }

  lemma FieldNames(name: string)
    ensures Lower(name) == "id" <==> Names(name, "id")
    ensures Lower(name) == "type" <==> Names(name, "type")
    ensures Lower(name) == "hash" <==> Names(name, "hash")
    ensures Lower(name) == "delta" <==> Names(name, "delta")
    ensures Lower(name) == "value" <==> Names(name, "value")
  {
    LowerMeans(name, "id");
    LowerMeans(name, "type");
    LowerMeans(name, "hash");
    LowerMeans(name, "delta");
    LowerMeans(name, "value");
  }

  /** What one member does to the metric decoded so far. */
  lemma FieldMeans(m: Metric, name: string, v: Value, floats: FloatText)
    ensures var r := DecodeField(m, name, v, floats);
            && (r.Some? <==> Accepted(name, v, floats))
            && (r.Some? ==>
                  && r.value.id == (if Names(name, "id") && v.Str? then v.bytes else m.id)
                  && r.value.mtype == (if Names(name, "type") && v.Str? then v.bytes else m.mtype)
                  && r.value.hash == (if Names(name, "hash") && v.Str? then v.bytes else m.hash)
                  && r.value.delta == (if !Names(name, "delta") then m.delta
                                       else if v.Num? then ParseInt64(v.text) else None)
                  && r.value.value == (if !Names(name, "value") then m.value
                                       else if v.Num? then floats.parse(v.text) else None))
  {
    FieldNames(name);
  }

  /** An object is taken iff every member is accepted, and every field is set by the last member of its name. */
  lemma {:induction false} MembersMean(ms: seq<(string, Value)>, floats: FloatText)
    ensures DecodeMembers(BLANK, ms, floats) == if AllAccepted(ms, floats) then Some(MetricOf(ms, floats)) else None
  {
    if ms == [] {
    } else {
      var init, x := ms[..|ms| - 1], ms[|ms| - 1];
      assert ms == init + [x];
      MembersMean(init, floats);
      DecodeSnoc(BLANK, init, x, floats);
      AcceptedSnoc(init, x, floats);
      if AllAccepted(init, floats) {
        FieldMeans(MetricOf(init, floats), x.0, x.1, floats);
      }
    }
  }

  lemma AcceptedSnoc(ms: seq<(string, Value)>, x: (string, Value), floats: FloatText)
    ensures AllAccepted(ms + [x], floats) <==> AllAccepted(ms, floats) && Accepted(x.0, x.1, floats)
  {
    assert forall i :: 0 <= i < |ms| ==> (ms + [x])[i] == ms[i];
    assert (ms + [x])[|ms|] == x;
  }

  // ---- A whole document ----

  predicate Element(v: Value, floats: FloatText) { v.Null? || (v.Obj? && AllAccepted(v.members, floats)) }

  function MetricsOf(vs: seq<Value>, floats: FloatText): seq<Metric> {
    seq(|vs|, i requires 0 <= i < |vs| => MetricOf(if vs[i].Obj? then vs[i].members else [], floats))
  }

  lemma {:induction false} ItemsMean(vs: seq<Value>, floats: FloatText)
    ensures DecodeItems(vs, floats)
            == if forall i :: 0 <= i < |vs| ==> Element(vs[i], floats) then Some(MetricsOf(vs, floats)) else None
  {
    if vs == [] {
    } else {
      ItemsMean(vs[1..], floats);
      if vs[0].Obj? {
        MembersMean(vs[0].members, floats);
      }
      assert forall i :: 1 <= i < |vs| ==> vs[i] == vs[1..][i - 1];
      assert MetricsOf(vs, floats) == [MetricsOf(vs, floats)[0]] + MetricsOf(vs[1..], floats);
    }
  }

  /** An array of acceptable objects and nulls is a batch, null is an empty one, all else fails. */
  lemma UnmarshalMeans(x: Item, floats: FloatText)
    requires ValidItem(x)
    ensures Unmarshal(ItemText(x), floats)
            == match Meaning(x.doc)
               case Arr(vs) =>
                 if forall i :: 0 <= i < |vs| ==> Element(vs[i], floats) then Some(MetricsOf(vs, floats)) else None
               case Null => Some([])
               case _ => None
  {
    GrammarIsRead(x);
    if Meaning(x.doc).Arr? {
      ItemsMean(Meaning(x.doc).items, floats);
    }
  }

  /** Nothing but texts of the grammar is taken. */
  lemma OnlyGrammarIsTaken(data: string, floats: FloatText) returns (x: Item)
    requires Unmarshal(data, floats).Some?
    ensures ValidItem(x) && data == ItemText(x)
  {
    x := OnlyGrammarIsRead(data);
  }

  /** A member that names no field may stand anywhere: it changes neither what is taken nor what it means. */
  lemma {:induction false} OtherMembersAreIgnored(pre: seq<(string, Value)>, x: (string, Value),
                                                  post: seq<(string, Value)>, floats: FloatText)
    requires !Names(x.0, "id") && !Names(x.0, "type") && !Names(x.0, "hash")
    requires !Names(x.0, "delta") && !Names(x.0, "value")
    ensures DecodeMembers(BLANK, pre + [x] + post, floats) == DecodeMembers(BLANK, pre + post, floats)
    decreases |post|
  {
    if post == [] {
      assert pre + [x] + post == pre + [x] && pre + post == pre;
      DecodeSnoc(BLANK, pre, x, floats);
      FieldNames(x.0);
    } else {
      var init, last := post[..|post| - 1], post[|post| - 1];
      assert pre + [x] + post == (pre + [x] + init) + [last] && pre + post == (pre + init) + [last];
      OtherMembersAreIgnored(pre, x, init, floats);
      DecodeSnoc(BLANK, pre + [x] + init, last, floats);
      DecodeSnoc(BLANK, pre + init, last, floats);
    }
  }

  // ---- The text that is written ----

  lemma {:induction false} NameIsNotEscaped(name: string)
    requires LowerCase(name)
    ensures Escaped(name) == name
    decreases |name|
  {
    if name == "" {
    } else {
      LetterIsNotEscaped(name[0]);
      NameIsNotEscaped(name[1..]);
      assert Escaped(name) == EscapeAscii(name[0]) + Escaped(name[1..]);
    }
  }

  lemma LetterIsNotEscaped(c: char)
    requires 'a' <= c <= 'z'
    ensures c as int < 0x80 && EscapeAscii(c) == [c]
  {
  }

  lemma {:induction false} PrintedSnoc(ms: seq<(string, Value)>, x: (string, Value))
    requires ms != []
    ensures PrintMembers(ms + [x]) == PrintMembers(ms) + ("," + PrintMember(x))
    decreases |ms|
  {
    assert (ms + [x])[0] == ms[0] && (ms + [x])[1..] == ms[1..] + [x];
    if |ms| > 1 {
      PrintedSnoc(ms[1..], x);
      var first, tail, more := PrintMember(ms[0]), PrintMembers(ms[1..]), "," + PrintMember(x);
      assert first + ("," + (tail + more)) == (first + ("," + tail)) + more;
    } else {
      assert ms[1..] == [] && [x] == [] + [x] && [x][1..] == [];
    }
  }

  /** A member as the struct's tag names it. */
  function Tagged(field: string, text: string): string { "\"" + field + "\":" + text }

  function Quote(s: string): string { "\"" + Escaped(s) + "\"" }

  lemma TaggedText(field: string, v: Value, text: string)
    requires LowerCase(field) && text == Print(v)
    ensures PrintMember((field, v)) == Tagged(field, text)
  {
    NameIsNotEscaped(field);
  }

  function Optional(text: string, ms: seq<(string, Value)>): string {
    if ms == [] then text else text + ("," + PrintMember(ms[0]))
  }

  lemma OptionalText(ms: seq<(string, Value)>, last: seq<(string, Value)>)
    requires ms != [] && |last| <= 1
    ensures PrintMembers(ms + last) == Optional(PrintMembers(ms), last)
  {
    if last == [] {
      assert ms + last == ms;
    } else {
      assert last == [last[0]];
      PrintedSnoc(ms, last[0]);
    }
  }

  lemma PairText(x: (string, Value), y: (string, Value))
    ensures PrintMembers([x, y]) == PrintMember(x) + ("," + PrintMember(y))
  {
    PrintedSnoc([x], y);
    assert [x, y] == [x] + [y];
    assert PrintMembers([x]) == PrintMember(x) + "" == PrintMember(x);
  }

  lemma NamesText(m: Metric)
    ensures PrintMembers(NameMembers(m)) == Tagged("id", Quote(m.id)) + ("," + Tagged("type", Quote(m.mtype)))
  {
    PairText(("id", Str(m.id)), ("type", Str(m.mtype)));
    StringMemberText("id", m.id);
    StringMemberText("type", m.mtype);
  }

  lemma StringMemberText(field: string, s: string)
    requires LowerCase(field)
    ensures PrintMember((field, Str(s))) == Tagged(field, Quote(s))
  {
    assert Print(Str(s)) == "\"" + (Escaped(s) + "\"") == Quote(s);
    TaggedText(field, Str(s), Quote(s));
  }

  function DeltaText(m: Metric, text: string): string {
    if m.delta.Some? then text + ("," + Tagged("delta", FormatInt(m.delta.value))) else text
  }

  function LevelText(m: Metric, text: string, floats: FloatText): string {
    if m.value.Some? then text + ("," + Tagged("value", floats.json(m.value.value))) else text
  }

  function HashText(m: Metric, text: string): string {
    if m.hash != "" then text + ("," + Tagged("hash", Quote(m.hash))) else text
  }

  lemma DeltaMemberText(m: Metric, text: string)
    ensures Optional(text, DeltaMember(m)) == DeltaText(m, text)
  {
    if m.delta.Some? {
      TaggedText("delta", Num(FormatInt(m.delta.value)), FormatInt(m.delta.value));
    }
  }

  lemma ValueMemberText(m: Metric, text: string, floats: FloatText)
    ensures Optional(text, ValueMember(m, floats)) == LevelText(m, text, floats)
  {
    if m.value.Some? {
      TaggedText("value", Num(floats.json(m.value.value)), floats.json(m.value.value));
    }
  }

  lemma HashMemberText(m: Metric, text: string)
    ensures Optional(text, HashMember(m)) == HashText(m, text)
  {
    StringMemberText("hash", m.hash);
  }

  lemma NamesAndDelta(m: Metric, start: string)
    requires start == PrintMembers(NameMembers(m))
    ensures PrintMembers(NameMembers(m) + DeltaMember(m)) == DeltaText(m, start)
  {
    OptionalText(NameMembers(m), DeltaMember(m));
    DeltaMemberText(m, start);
  }

  lemma AndValue(m: Metric, ms: seq<(string, Value)>, floats: FloatText)
    requires ms != []
    ensures PrintMembers(ms + ValueMember(m, floats)) == LevelText(m, PrintMembers(ms), floats)
  {
    OptionalText(ms, ValueMember(m, floats));
    ValueMemberText(m, PrintMembers(ms), floats);
  }

  lemma AndHash(m: Metric, ms: seq<(string, Value)>)
    requires ms != []
    ensures PrintMembers(ms + HashMember(m)) == HashText(m, PrintMembers(ms))
  {
    OptionalText(ms, HashMember(m));
    HashMemberText(m, PrintMembers(ms));
  }

  lemma MembersChain(m: Metric, start: string, floats: FloatText)
    requires start == PrintMembers(NameMembers(m))
    ensures PrintMembers(NameMembers(m) + DeltaMember(m) + ValueMember(m, floats) + HashMember(m))
            == HashText(m, LevelText(m, DeltaText(m, start), floats))
  {
    NamesAndDelta(m, start);
    AndValue(m, NameMembers(m) + DeltaMember(m), floats);
    AndHash(m, NameMembers(m) + DeltaMember(m) + ValueMember(m, floats));
  }

  /**
    * A metric as a JSON text: members named and ordered as the tags of the struct say, and none for an absent
    * value or an empty hash.
    */
  lemma MetricText(m: Metric, floats: FloatText)
    ensures var start := Tagged("id", Quote(m.id)) + ("," + Tagged("type", Quote(m.mtype)));
            Print(ToJson(m, floats)) == "{" + HashText(m, LevelText(m, DeltaText(m, start), floats)) + "}"
  {
    NamesText(m);
    MembersChain(m, PrintMembers(NameMembers(m)), floats);
  }
}
