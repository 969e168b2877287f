/**
  * The JSON grammar (RFC 8259, sections 2 to 7): a concrete syntax with white space at every place that allows it,
  * its text and its meaning. Every text of it is read as what it means.
  */
module JsonGrammar {
  import opened Basics
  import opened Decimal
  import opened Text
  import opened Json
  import opened JsonFacts

  // ---- Syntax ----

  predicate Gap(s: string) { forall i :: 0 <= i < |s| ==> s[i] == ' ' || s[i] == '\t' || s[i] == '\n' || s[i] == '\r' }

  const QUOTE := '"'

  datatype Doc =
    | Word(v: Value)
    | Numeral(text: string)
    | Quoted(raw: string, bytes: string)
    | Listed(gap: string, items: seq<Item>)
    | Record(gap: string, members: seq<Member>)

  datatype Item = Item(before: string, doc: Doc, after: string)

  datatype Member = Member(before: string, raw: string, name: string, between: string, item: Item)

  /** The text between two quotes and the bytes it stands for. */
  predicate IsQuoted(raw: string, bytes: string) { Unquote(raw + "\"") == Some((bytes, "")) }

  predicate Valid(d: Doc)
    decreases d, 0
  {
    match d
    case Word(v) => v.Null? || v.Bool?
    case Numeral(text) => IsNumber(text)
    case Quoted(raw, bytes) => IsQuoted(raw, bytes)
    case Listed(gap, items) => Gap(gap) && forall i :: 0 <= i < |items| ==> ValidItem(items[i])
    case Record(gap, members) => Gap(gap) && forall i :: 0 <= i < |members| ==> ValidMember(members[i])
  }

  predicate ValidItem(x: Item)
    decreases x, 1
  {
    Gap(x.before) && Valid(x.doc) && Gap(x.after)
  }

  predicate ValidMember(m: Member)
    decreases m, 2
  {
    Gap(m.before) && IsQuoted(m.raw, m.name) && Gap(m.between) && ValidItem(m.item)
  }

  function TextOf(d: Doc): string
    decreases d, 0
  {
    match d
    case Word(v) => if v == Bool(true) then "true" else if v == Bool(false) then "false" else "null"
    case Numeral(text) => text
    case Quoted(raw, _) => "\"" + (raw + "\"")
    case Listed(gap, items) => "[" + ((if items == [] then gap else ItemsText(items)) + "]")
    case Record(gap, members) => "{" + ((if members == [] then gap else MembersText(members)) + "}")
  }

  function ItemText(x: Item): string
    decreases x, 1
  {
    x.before + (TextOf(x.doc) + x.after)
  }

  function ItemsText(items: seq<Item>): string
    decreases items, 2
  {
    if items == [] then ""
    else if |items| == 1 then ItemText(items[0])
    else ItemText(items[0]) + ("," + ItemsText(items[1..]))
  }

  function MemberText(m: Member): string
    decreases m, 2
  {
    m.before + ("\"" + (m.raw + ("\"" + (m.between + (":" + ItemText(m.item))))))
  }

  function MembersText(members: seq<Member>): string
    decreases members, 3
  {
    if members == [] then ""
    else if |members| == 1 then MemberText(members[0])
    else MemberText(members[0]) + ("," + MembersText(members[1..]))
  }

  function Meaning(d: Doc): Value
    decreases d, 0
  {
    match d
    case Word(v) => v
    case Numeral(text) => Num(text)
    case Quoted(_, bytes) => Str(bytes)
    case Listed(_, items) => Arr(ItemMeanings(items))
    case Record(_, members) => Obj(MemberMeanings(members))
  }

  function ItemMeanings(items: seq<Item>): (vs: seq<Value>)
    ensures |vs| == |items|
    decreases items, 1
  {
    if items == [] then [] else [Meaning(items[0].doc)] + ItemMeanings(items[1..])
  }

  function MemberMeanings(members: seq<Member>): (ms: seq<(string, Value)>)
    ensures |ms| == |members|
    decreases members, 1
  {
    if members == [] then [] else [(members[0].name, Meaning(members[0].item.doc))] + MemberMeanings(members[1..])
  }

  lemma Grouped(a: string, b: string, c: string)
    ensures (a + b) + c == a + (b + c)
  {
  }

  lemma MemberTextWith(m: Member, tail: string)
    ensures MemberText(m) + tail
            == m.before + ("\"" + (m.raw + ("\"" + (m.between + (":" + (ItemText(m.item) + tail))))))
  {
  }

  // ---- Gaps ----

  lemma {:induction false} SkipGap(gap: string, t: string)
    requires Gap(gap)
    ensures SkipSpace(gap + t) == SkipSpace(t)
  {
    if gap == "" {
      assert gap + t == t;
    } else {
      assert (gap + t)[0] == gap[0] && (gap + t)[1..] == gap[1..] + t;
      SkipGap(gap[1..], t);
    }
  }

  lemma {:induction false} GapBefore(s: string) returns (gap: string)
    ensures Gap(gap) && s == gap + SkipSpace(s)
  {
    if s != "" && IsSpace(s[0]) {
      var rest := GapBefore(s[1..]);
      gap := [s[0]] + rest;
    } else {
      gap := "";
    }
  }

  lemma GapDelimits(gap: string, c: char, rest: string)
    requires Gap(gap) && !NumberChar(c)
    ensures Delimits(gap + ([c] + rest))
  {
  }

  // ---- Every text of the grammar is read as what it means ----

  lemma TokenStart(d: Doc)
    requires Valid(d)
    ensures TextOf(d) != "" && !IsSpace(TextOf(d)[0]) && TextOf(d)[0] != ']' && TextOf(d)[0] != '}'
  {
    if d.Numeral? {
      NumberStart(d.text);
    }
  }

  lemma QuotedExtends(p: string, bytes: string, rest: string)
    requires Unquote(p) == Some((bytes, ""))
    ensures Unquote(p + rest) == Some((bytes, rest))
  {
    UnquoteExtends(p, rest);
    assert "" + rest == rest;
  }

  lemma ReadsQuoted(raw: string, bytes: string, rest: string)
    requires IsQuoted(raw, bytes)
    ensures Unquote(raw + ("\"" + rest)) == Some((bytes, rest))
  {
    var p, q := raw + "\"", raw + ("\"" + rest);
    assert q == p + rest;
    QuotedExtends(p, bytes, rest);
  }

  lemma {:induction false} ReadsDoc(d: Doc, rest: string)
    requires Valid(d) && (d.Numeral? ==> Delimits(rest))
    ensures ReadToken(TextOf(d) + rest) == Some((Meaning(d), rest))
    decreases d, 0
  {
    match d
    case Word(v) =>
    case Numeral(text) =>
      NumberStart(text);
      ReadPrintedNumber(text, rest);
      NoSkip(text + rest);
    case Quoted(raw, bytes) =>
      ReadsQuoted(raw, bytes, rest);
      assert TextOf(d) + rest == "\"" + (raw + ("\"" + rest));
    case Listed(gap, items) => ReadsListed(gap, items, rest);
    case Record(gap, members) => ReadsRecord(gap, members, rest);
  }

  lemma {:induction false} ReadsItem(x: Item, c: char, rest: string)
    requires ValidItem(x) && (c == ',' || c == ']' || c == '}')
    ensures ReadValue(ItemText(x) + ([c] + rest)) == Some((Meaning(x.doc), x.after + ([c] + rest)))
    ensures SkipSpace(x.after + ([c] + rest)) == [c] + rest
    decreases x, 1
  {
    var more := x.after + ([c] + rest);
    assert ItemText(x) + ([c] + rest) == x.before + (TextOf(x.doc) + more);
    TokenStart(x.doc);
    assert (TextOf(x.doc) + more)[0] == TextOf(x.doc)[0];
    SkipGap(x.before, TextOf(x.doc) + more);
    GapDelimits(x.after, c, rest);
    ReadsDoc(x.doc, more);
    SkipGap(x.after, [c] + rest);
  }

  lemma ItemsStep(s: string, v: Value, after: string, c: char, more: string)
    requires ReadValue(s) == Some((v, after)) && SkipSpace(after) == [c] + more && (c == ',' || c == ']')
    ensures ReadItems(s) == if c == ']' then Some(([v], more))
                            else match ReadItems(more)
                              case None => None
                              case Some((vs, rest)) => Some(([v] + vs, rest))
  {
    assert ([c] + more)[1..] == more;
  }

  lemma MembersStep(s: string, m: (string, Value), after: string, c: char, more: string)
    requires ReadMember(s) == Some((m, after)) && SkipSpace(after) == [c] + more && (c == ',' || c == '}')
    ensures ReadMembers(s) == if c == '}' then Some(([m], more))
                              else match ReadMembers(more)
                                case None => None
                                case Some((ms, rest)) => Some(([m] + ms, rest))
  {
    assert ([c] + more)[1..] == more;
  }

  lemma {:induction false} ReadsLastItem(x: Item, rest: string)
    requires ValidItem(x)
    ensures ReadItems(ItemText(x) + ("]" + rest)) == Some(([Meaning(x.doc)], rest))
    decreases x, 2
  {
    ReadsItem(x, ']', rest);
    ItemsStep(ItemText(x) + ("]" + rest), Meaning(x.doc), x.after + ("]" + rest), ']', rest);
  }

  lemma {:induction false} ReadsNextItem(x: Item, more: string)
    requires ValidItem(x) && ReadItems(more).Some?
    ensures var (vs, rest) := ReadItems(more).value;
            ReadItems(ItemText(x) + ("," + more)) == Some(([Meaning(x.doc)] + vs, rest))
    decreases x, 2
  {
    ReadsItem(x, ',', more);
    ItemsStep(ItemText(x) + ("," + more), Meaning(x.doc), x.after + ("," + more), ',', more);
  }

  lemma ItemsTextSplit(items: seq<Item>, rest: string)
    requires items != []
    ensures ItemsText(items) + ("]" + rest)
            == ItemText(items[0]) + if |items| == 1 then "]" + rest else "," + (ItemsText(items[1..]) + ("]" + rest))
  {
    if |items| > 1 {
      Grouped(ItemText(items[0]), "," + ItemsText(items[1..]), "]" + rest);
      Grouped(",", ItemsText(items[1..]), "]" + rest);
    }
  }

  lemma {:induction false} ReadsItems(items: seq<Item>, rest: string)
    requires items != [] && forall i :: 0 <= i < |items| ==> ValidItem(items[i])
    ensures ReadItems(ItemsText(items) + ("]" + rest)) == Some((ItemMeanings(items), rest))
    decreases items, 3
  {
    ItemsTextSplit(items, rest);
    if |items| == 1 {
      ReadsLastItem(items[0], rest);
      assert ItemMeanings(items) == [Meaning(items[0].doc)];
    } else {
      ReadsItems(items[1..], rest);
      ReadsNextItem(items[0], ItemsText(items[1..]) + ("]" + rest));
    }
  }

  lemma ItemsStartIn(items: seq<Item>, rest: string)
    requires items != [] && forall i :: 0 <= i < |items| ==> ValidItem(items[i])
    ensures var u := SkipSpace(ItemsText(items) + rest); u != "" && u[0] != ']'
  {
    var x := items[0];
    var tail := x.after + (if |items| == 1 then "" else "," + ItemsText(items[1..])) + rest;
    var more := TextOf(x.doc) + tail;
    assert ItemsText(items) + rest == x.before + more;
    TokenStart(x.doc);
    assert more[0] == TextOf(x.doc)[0];
    SkipGap(x.before, more);
  }

  lemma SkipTwice(s: string)
    ensures SkipSpace(SkipSpace(s)) == SkipSpace(s)
  {
  }

  lemma {:induction false} ReadsListed(gap: string, items: seq<Item>, rest: string)
    requires Gap(gap) && forall i :: 0 <= i < |items| ==> ValidItem(items[i])
    ensures ReadToken(TextOf(Listed(gap, items)) + rest) == Some((Arr(ItemMeanings(items)), rest))
    decreases items, 4
  {
    var inner := if items == [] then gap else ItemsText(items);
    var u := inner + ("]" + rest);
    assert TextOf(Listed(gap, items)) + rest == "[" + u;
    assert ("[" + u)[1..] == u && ReadToken("[" + u) == ReadArray(u);
    if items == [] {
      SkipGap(gap, "]" + rest);
      assert ("]" + rest)[1..] == rest;
    } else {
      ItemsStartIn(items, "]" + rest);
      ReadsItems(items, rest);
      ItemsSkip(u);
    }
  }

  lemma ItemsSkip(s: string)
    ensures ReadItems(SkipSpace(s)) == ReadItems(s)
  {
    SkipTwice(s);
  }

  lemma MembersSkip(s: string)
    ensures ReadMembers(SkipSpace(s)) == ReadMembers(s)
  {
    SkipTwice(s);
  }

  lemma ColonStep(t: string, name: string, after: string, value: string, v: Value, rest: string)
    requires t != "" && t[0] == QUOTE && Unquote(t[1..]) == Some((name, after)) && SkipSpace(after) == ":" + value
    requires ReadValue(value) == Some((v, rest))
    ensures ReadMember(t) == Some(((name, v), rest))
  {
    assert (":" + value)[1..] == value;
    NoSkip(t);
  }

  lemma MemberSkip(gap: string, t: string)
    requires Gap(gap)
    ensures ReadMember(gap + t) == ReadMember(t)
  {
    SkipGap(gap, t);
  }

  lemma {:induction false} ReadsMember(m: Member, c: char, rest: string)
    requires ValidMember(m) && (c == ',' || c == '}')
    ensures ReadMember(MemberText(m) + ([c] + rest))
            == Some(((m.name, Meaning(m.item.doc)), m.item.after + ([c] + rest)))
    ensures SkipSpace(m.item.after + ([c] + rest)) == [c] + rest
    decreases m, 2
  {
    var value := ItemText(m.item) + ([c] + rest);
    var after := m.between + (":" + value);
    var quote := "\"" + (m.raw + ("\"" + after));
    MemberTextWith(m, [c] + rest);
    MemberSkip(m.before, quote);
    assert quote[1..] == m.raw + ("\"" + after);
    ReadsQuoted(m.raw, m.name, after);
    SkipGap(m.between, ":" + value);
    NoSkip(":" + value);
    ReadsItem(m.item, c, rest);
    ColonStep(quote, m.name, after, value, Meaning(m.item.doc), m.item.after + ([c] + rest));
  }

  lemma {:induction false} ReadsLastMember(m: Member, rest: string)
    requires ValidMember(m)
    ensures ReadMembers(MemberText(m) + ("}" + rest)) == Some(([(m.name, Meaning(m.item.doc))], rest))
    decreases m, 3
  {
    ReadsMember(m, '}', rest);
    MembersStep(MemberText(m) + ("}" + rest), (m.name, Meaning(m.item.doc)), m.item.after + ("}" + rest), '}', rest);
  }

  lemma {:induction false} ReadsNextMember(m: Member, more: string)
    requires ValidMember(m) && ReadMembers(more).Some?
    ensures var (ms, rest) := ReadMembers(more).value;
            ReadMembers(MemberText(m) + ("," + more)) == Some(([(m.name, Meaning(m.item.doc))] + ms, rest))
    decreases m, 3
  {
    ReadsMember(m, ',', more);
    MembersStep(MemberText(m) + ("," + more), (m.name, Meaning(m.item.doc)), m.item.after + ("," + more), ',', more);
  }

  lemma MembersTextSplit(members: seq<Member>, rest: string)
    requires members != []
    ensures MembersText(members) + ("}" + rest)
            == MemberText(members[0]) + if |members| == 1 then "}" + rest
                                        else "," + (MembersText(members[1..]) + ("}" + rest))
  {
    if |members| > 1 {
      Grouped(MemberText(members[0]), "," + MembersText(members[1..]), "}" + rest);
      Grouped(",", MembersText(members[1..]), "}" + rest);
    }
  }

  lemma {:induction false} ReadsMembers(members: seq<Member>, rest: string)
    requires members != [] && forall i :: 0 <= i < |members| ==> ValidMember(members[i])
    ensures ReadMembers(MembersText(members) + ("}" + rest)) == Some((MemberMeanings(members), rest))
    decreases members, 4
  {
    MembersTextSplit(members, rest);
    if |members| == 1 {
      ReadsLastMember(members[0], rest);
      assert MemberMeanings(members) == [(members[0].name, Meaning(members[0].item.doc))];
    } else {
      ReadsMembers(members[1..], rest);
      ReadsNextMember(members[0], MembersText(members[1..]) + ("}" + rest));
    }
  }

  lemma MembersStartIn(members: seq<Member>, rest: string)
    requires members != [] && forall i :: 0 <= i < |members| ==> ValidMember(members[i])
    ensures var u := SkipSpace(MembersText(members) + rest); u != "" && u[0] != '}'
  {
    var m := members[0];
    var tail := (if |members| == 1 then "" else "," + MembersText(members[1..])) + rest;
    var more := "\"" + (m.raw + ("\"" + (m.between + (":" + (ItemText(m.item) + tail)))));
    MemberTextWith(m, tail);
    assert MembersText(members) + rest == MemberText(m) + tail;
    SkipGap(m.before, more);
  }

  lemma {:induction false} ReadsRecord(gap: string, members: seq<Member>, rest: string)
    requires Gap(gap) && forall i :: 0 <= i < |members| ==> ValidMember(members[i])
    ensures ReadToken(TextOf(Record(gap, members)) + rest) == Some((Obj(MemberMeanings(members)), rest))
    decreases members, 5
  {
    var inner := if members == [] then gap else MembersText(members);
    var u := inner + ("}" + rest);
    assert TextOf(Record(gap, members)) + rest == "{" + u;
    assert ("{" + u)[1..] == u && ReadToken("{" + u) == ReadObject(u);
    if members == [] {
      SkipGap(gap, "}" + rest);
      assert ("}" + rest)[1..] == rest;
    } else {
      MembersStartIn(members, "}" + rest);
      ReadsMembers(members, rest);
      MembersSkip(u);
    }
  }

  /** A document of the grammar, with any white space around it, is read as what it means. */
  lemma GrammarIsRead(x: Item)
    requires ValidItem(x)
    ensures ReadDocument(ItemText(x)) == Some(Meaning(x.doc))
  {
    TokenStart(x.doc);
    SkipGap(x.before, TextOf(x.doc) + x.after);
    assert (TextOf(x.doc) + x.after)[0] == TextOf(x.doc)[0];
    assert x.after == "" || !NumberChar(x.after[0]);
    ReadsDoc(x.doc, x.after);
    SkipGap(x.after, "");
    assert x.after + "" == x.after;
  }
}
