/** Reading inverts writing, and no strict prefix of an array document is a document. */
module JsonFacts {
  import opened Basics
  import opened Decimal
  import opened Text
  import opened Json

  // ---- Text that follows does not change what was read ----

  lemma {:induction false} DigitsEndExtends(p: string, x: string, i: nat)
    requires i <= |p|
    requires DigitsEnd(p, i) < |p| || x == [] || !IsDigit(x[0])
    ensures DigitsEnd(p + x, i) == DigitsEnd(p, i)
    decreases |p| - i
  {
    var q := p + x;
    if i < |p| {
      assert q[i] == p[i];
      if IsDigit(p[i]) {
        DigitsEndExtends(p, x, i + 1);
      }
    } else {
      assert i < |q| ==> q[i] == x[0];
    }
  }

  lemma IntEndExtends(p: string, x: string)
    requires IntEnd(p).Some?
    requires IntEnd(p).value < |p| || Delimits(x)
    ensures IntEnd(p + x) == IntEnd(p)
  {
    var q := p + x;
    var i := if p[0] == '-' then 1 else 0;
    assert q[0] == p[0] && q[i] == p[i];
    if p[i] != '0' {
      DigitsEndExtends(p, x, i);
    }
  }

  lemma FractionEndExtends(p: string, x: string, i: nat)
    requires i <= |p| && FractionEnd(p, i).Some?
    requires FractionEnd(p, i).value < |p| || Delimits(x)
    ensures FractionEnd(p + x, i) == FractionEnd(p, i)
  {
    var q := p + x;
    if i < |p| {
      assert q[i] == p[i];
      if p[i] == '.' {
        DigitsEndExtends(p, x, i + 1);
      }
    } else {
      assert i < |q| ==> q[i] == x[0];
    }
  }

  lemma ExponentEndExtends(p: string, x: string, i: nat)
    requires i <= |p| && ExponentEnd(p, i).Some?
    requires ExponentEnd(p, i).value < |p| || Delimits(x)
    ensures ExponentEnd(p + x, i) == ExponentEnd(p, i)
  {
    var q := p + x;
    if i < |p| {
      assert q[i] == p[i];
      if p[i] == 'e' || p[i] == 'E' {
        assert i + 1 < |p| && q[i + 1] == p[i + 1];
        DigitsEndExtends(p, x, if p[i + 1] == '+' || p[i + 1] == '-' then i + 2 else i + 1);
      }
    } else {
      assert i < |q| ==> q[i] == x[0];
    }
  }

  lemma NumberExtends(p: string, x: string)
    requires NumberLen(p).Some?
    requires NumberLen(p).value < |p| || Delimits(x)
    ensures NumberLen(p + x) == NumberLen(p)
  {
    var i := IntEnd(p).value;
    var f := FractionEnd(p, i).value;
    IntEndExtends(p, x);
    FractionEndExtends(p, x, i);
    ExponentEndExtends(p, x, f);
  }

  lemma {:induction false} SkipSpaceExtends(p: string, x: string)
    requires SkipSpace(p) != []
    ensures SkipSpace(p + x) == SkipSpace(p) + x
  {
    assert (p + x)[0] == p[0];
    if IsSpace(p[0]) {
      assert (p + x)[1..] == p[1..] + x;
      SkipSpaceExtends(p[1..], x);
    }
  }

  lemma TailExtends(p: string, x: string)
    requires p != []
    ensures (p + x)[0] == p[0] && (p + x)[1..] == p[1..] + x
  {
  }

  lemma ReadLiteralExtends(p: string, x: string, word: string, v: Value)
    requires word != [] && ReadLiteral(p, word, v).Some?
    ensures ReadLiteral(p + x, word, v) == Some((v, p[|word|..] + x))
  {
    assert (p + x)[..|p|] == p;
    assert (p + x)[|word|..] == p[|word|..] + x;
  }

  lemma ReadNumberExtends(p: string, x: string)
    requires ReadNumber(p).Some? && (ReadNumber(p).value.1 != [] || Delimits(x))
    ensures ReadNumber(p + x) == Some((ReadNumber(p).value.0, ReadNumber(p).value.1 + x))
  {
    var n := NumberLen(p).value;
    assert p[n..] != [] ==> n < |p|;
    NumberExtends(p, x);
    assert (p + x)[..n] == p[..n];
    assert (p + x)[n..] == p[n..] + x;
  }

  lemma ReadScalarExtends(p: string, x: string)
    requires p != [] && ReadScalar(p).Some?
    requires ReadScalar(p).value.1 != [] || !ReadScalar(p).value.0.Num?
    ensures ReadScalar(p + x) == Some((ReadScalar(p).value.0, ReadScalar(p).value.1 + x))
  {
    TailExtends(p, x);
    if p[0] == 't' {
      ReadLiteralExtends(p, x, "true", Bool(true));
    } else if p[0] == 'f' {
      ReadLiteralExtends(p, x, "false", Bool(false));
    } else if p[0] == 'n' {
      ReadLiteralExtends(p, x, "null", Null);
    } else {
      ReadNumberExtends(p, x);
    }
  }

  lemma {:induction false} ReadArrayExtends(p: string, x: string)
    requires ReadArray(p).Some?
    ensures ReadArray(p + x) == Some((ReadArray(p).value.0, ReadArray(p).value.1 + x))
    decreases |p|, 4
  {
    var u := SkipSpace(p);
    SkipSpaceExtends(p, x);
    TailExtends(u, x);
    if u[0] != ']' {
      ReadItemsExtends(u, x);
    }
  }

  lemma {:induction false} ReadObjectExtends(p: string, x: string)
    requires ReadObject(p).Some?
    ensures ReadObject(p + x) == Some((ReadObject(p).value.0, ReadObject(p).value.1 + x))
    decreases |p|, 4
  {
    var u := SkipSpace(p);
    SkipSpaceExtends(p, x);
    TailExtends(u, x);
    if u[0] != '}' {
      ReadMembersExtends(u, x);
    }
  }

  lemma {:induction false} ReadTokenExtends(t: string, x: string)
    requires ReadToken(t).Some?
    requires ReadToken(t).value.1 != [] || !ReadToken(t).value.0.Num?
    ensures ReadToken(t + x) == Some((ReadToken(t).value.0, ReadToken(t).value.1 + x))
    decreases |t|, 1
  {
    TailExtends(t, x);
    if t[0] == '[' {
      ReadArrayExtends(t[1..], x);
    } else if t[0] == '{' {
      ReadObjectExtends(t[1..], x);
    } else if t[0] == '"' {
      UnquoteExtends(t[1..], x);
    } else {
      ReadScalarExtends(t, x);
    }
  }

  /** A value that ended before the end of p, or that no text can prolong, is read the same way in p + x. */
  lemma {:induction false} ReadValueExtends(p: string, x: string)
    requires ReadValue(p).Some?
    requires ReadValue(p).value.1 != [] || !ReadValue(p).value.0.Num?
    ensures ReadValue(p + x) == Some((ReadValue(p).value.0, ReadValue(p).value.1 + x))
    decreases |p|, 2
  {
    SkipSpaceExtends(p, x);
    ReadTokenExtends(SkipSpace(p), x);
  }

  lemma {:induction false} ReadItemsExtends(p: string, x: string)
    requires ReadItems(p).Some?
    ensures ReadItems(p + x) == Some((ReadItems(p).value.0, ReadItems(p).value.1 + x))
    decreases |p|, 3
  {
    var (v, after) := ReadValue(p).value;
    ReadValueExtends(p, x);
    SkipSpaceExtends(after, x);
    var t := SkipSpace(after);
    TailExtends(t, x);
    if t[0] == ',' {
      ReadItemsExtends(t[1..], x);
    }
  }

  lemma {:induction false} ReadMemberExtends(p: string, x: string)
    requires ReadMember(p).Some?
    requires ReadMember(p).value.1 != []
    ensures ReadMember(p + x) == Some((ReadMember(p).value.0, ReadMember(p).value.1 + x))
    decreases |p|, 0
  {
    var t := SkipSpace(p);
    SkipSpaceExtends(p, x);
    TailExtends(t, x);
    UnquoteExtends(t[1..], x);
    var after := Unquote(t[1..]).value.1;
    var u := SkipSpace(after);
    SkipSpaceExtends(after, x);
    TailExtends(u, x);
    ReadValueExtends(u[1..], x);
  }

  lemma {:induction false} ReadMembersExtends(p: string, x: string)
    requires ReadMembers(p).Some?
    ensures ReadMembers(p + x) == Some((ReadMembers(p).value.0, ReadMembers(p).value.1 + x))
    decreases |p|, 3
  {
    var after := ReadMember(p).value.1;
    ReadMemberExtends(p, x);
    SkipSpaceExtends(after, x);
    var t := SkipSpace(after);
    TailExtends(t, x);
    if t[0] == ',' {
      ReadMembersExtends(t[1..], x);
    }
  }

  /**
    * If reading a text stops exactly at its end with an array, an object, a string or a word, then no
    * strict prefix of the text is a document: it would be read first and leave the rest over.
    */
  lemma {:induction false} PrefixIsNoDocument(text: string, n: nat)
    requires n < |text|
    requires ReadValue(text).Some? && ReadValue(text).value.1 == [] && !ReadValue(text).value.0.Num?
    ensures ReadDocument(text[..n]).None?
  {
    var p, x := text[..n], text[n..];
    assert text == p + x;
    if ReadDocument(p).Some? {
      var (v, rest) := ReadValue(p).value;
      if rest != [] || !v.Num? {
        ReadValueExtends(p, x);
      } else {
        NumberStaysNumber(p, x);
      }
    }
  }

  /** A text that starts with a number can only be read as a number. */
  lemma NumberStaysNumber(p: string, x: string)
    requires ReadValue(p).Some? && ReadValue(p).value.0.Num?
    ensures ReadValue(p + x).Some? ==> ReadValue(p + x).value.0.Num?
  {
    var t := SkipSpace(p);
    SkipSpaceExtends(p, x);
    TailExtends(t, x);
    assert ReadValue(p) == ReadToken(t) == ReadScalar(t);
    assert ReadValue(p + x) == ReadToken(t + x) == ReadScalar(t + x);
  }

  // ---- Reading what was written ----

  lemma ReadValueAtNumber(s: string)
    requires s != [] && (s[0] == '-' || IsDigit(s[0]))
    ensures ReadValue(s) == ReadNumber(s)
  {
    NoSkip(s);
    assert ReadValue(s) == ReadToken(s) == ReadScalar(s);
  }

  lemma NoSkip(s: string)
    requires s != [] && !IsSpace(s[0])
    ensures SkipSpace(s) == s
  {
  }

  lemma ReadPrintedNumber(text: string, rest: string)
    requires IsNumber(text) && Delimits(rest)
    ensures ReadValue(text + rest) == Some((Num(text), rest))
  {
    var s := text + rest;
    NumberStart(text);
    assert s[0] == text[0];
    ReadValueAtNumber(s);
    NumberExtends(text, rest);
    assert s[..|text|] == text && s[|text|..] == rest;
  }

  lemma ReadPrintedString(bytes: string, rest: string)
    ensures ReadValue("\"" + (Escaped(bytes) + "\"") + rest) == Some((Str(Sanitize(bytes)), rest))
  {
    var s := "\"" + (Escaped(bytes) + "\"") + rest;
    assert s[0] == '"' && s[1..] == Escaped(bytes) + "\"" + rest;
    assert SkipSpace(s) == s;
    UnquoteEscaped(bytes, rest);
  }

  lemma ReadPrintedWord(word: string, v: Value, rest: string)
    requires (word, v) == ("true", Bool(true)) || (word, v) == ("false", Bool(false)) || (word, v) == ("null", Null)
    ensures ReadValue(word + rest) == Some((v, rest))
  {
  }

  /** For every printable value: reading its text gives the value back with its strings made valid. */
  lemma {:induction false} ReadPrinted(v: Value, rest: string)
    requires Printable(v) && (v.Num? ==> Delimits(rest))
    ensures ReadValue(Print(v) + rest) == Some((Sane(v), rest))
    decreases v, 0
  {
    match v
    case Null => ReadPrintedWord("null", v, rest);
    case Bool(b) => ReadPrintedWord(if b then "true" else "false", v, rest);
    case Num(text) => ReadPrintedNumber(text, rest);
    case Str(bytes) => ReadPrintedString(bytes, rest);
    case Arr(items) => ReadPrintedArray(items, rest);
    case Obj(members) => ReadPrintedObject(members, rest);
  }

  lemma {:induction false} ReadPrintedArray(items: seq<Value>, rest: string)
    requires forall i :: 0 <= i < |items| ==> Printable(items[i])
    ensures ReadValue("[" + PrintItems(items) + "]" + rest) == Some((Arr(SaneItems(items)), rest))
    decreases items, 2
  {
    var s := "[" + PrintItems(items) + "]" + rest;
    var u := PrintItems(items) + "]" + rest;
    assert s[0] == '[' && s[1..] == u && SkipSpace(s) == s;
    assert ReadValue(s) == ReadToken(s) == ReadArray(u);
    if items == [] {
      assert u == "]" + rest && u[1..] == rest;
      assert SkipSpace(u) == u;
    } else {
      ItemsStart(items);
      assert SkipSpace(u) == u;
      ReadPrintedItems(items, rest);
    }
  }

  lemma {:induction false} ReadPrintedObject(members: seq<(string, Value)>, rest: string)
    requires forall i :: 0 <= i < |members| ==> Printable(members[i].1)
    ensures ReadValue("{" + PrintMembers(members) + "}" + rest) == Some((Obj(SaneMembers(members)), rest))
    decreases members, 2
  {
    var s := "{" + PrintMembers(members) + "}" + rest;
    var u := PrintMembers(members) + "}" + rest;
    assert s[0] == '{' && s[1..] == u && SkipSpace(s) == s;
    assert ReadValue(s) == ReadToken(s) == ReadObject(u);
    if members == [] {
      assert u == "}" + rest && u[1..] == rest;
      assert SkipSpace(u) == u;
    } else {
      assert u[0] == '"' && SkipSpace(u) == u;
      ReadPrintedMembers(members, rest);
    }
  }

  lemma NumberStart(text: string)
    requires IsNumber(text)
    ensures text[0] == '-' || IsDigit(text[0])
  {
  }

  lemma ItemsStart(vs: seq<Value>)
    requires vs != [] && Printable(vs[0])
    ensures var s := PrintItems(vs); s != [] && !IsSpace(s[0]) && s[0] != ']'
  {
  }

  lemma Regroup(head: string, tail: string, close: string, rest: string)
    ensures head + ("," + tail) + close + rest == head + ("," + (tail + close + rest))
    ensures head + "" + close + rest == head + (close + rest)
  {
  }

  lemma PrintItemsSplit(vs: seq<Value>, rest: string)
    requires vs != []
    ensures PrintItems(vs) + "]" + rest
            == Print(vs[0]) + if |vs| == 1 then "]" + rest else "," + (PrintItems(vs[1..]) + "]" + rest)
  {
    Regroup(Print(vs[0]), PrintItems(vs[1..]), "]", rest);
  }

  lemma ReadItemsStep(s: string, v: Value, next: char, more: string)
    requires ReadValue(s) == Some((v, [next] + more)) && (next == ',' || next == ']')
    ensures ReadItems(s) == if next == ']' then Some(([v], more))
                            else match ReadItems(more)
                              case None => None
                              case Some((vs, rest)) => Some(([v] + vs, rest))
  {
    var after := [next] + more;
    assert SkipSpace(after) == after && after[1..] == more;
  }

  lemma {:induction false} ReadPrintedItems(vs: seq<Value>, rest: string)
    requires vs != [] && forall i :: 0 <= i < |vs| ==> Printable(vs[i])
    ensures ReadItems(PrintItems(vs) + "]" + rest) == Some((SaneItems(vs), rest))
    decreases vs, 1
  {
    PrintItemsSplit(vs, rest);
    var text := PrintItems(vs) + "]" + rest;
    if |vs| == 1 {
      ReadPrinted(vs[0], "]" + rest);
      ReadItemsStep(text, Sane(vs[0]), ']', rest);
      assert SaneItems(vs) == [Sane(vs[0])];
    } else {
      var more := PrintItems(vs[1..]) + "]" + rest;
      ReadPrinted(vs[0], "," + more);
      ReadItemsStep(text, Sane(vs[0]), ',', more);
      ReadPrintedItems(vs[1..], rest);
    }
  }

  lemma ReadMemberStep(inner: string, name: string, value: string, v: Value, rest: string)
    requires Unquote(inner) == Some((name, ":" + value))
    requires ReadValue(value) == Some((v, rest))
    ensures ReadMember("\"" + inner) == Some(((name, v), rest))
  {
  }

  lemma {:induction false} ReadPrintedMember(m: (string, Value), rest: string)
    requires Printable(m.1) && Delimits(rest)
    ensures ReadMember(PrintMember(m) + rest) == Some((SaneMember(m), rest))
    decreases m, 1
  {
    var value := Print(m.1) + rest;
    var inner := Escaped(m.0) + "\"" + (":" + value);
    UnquoteEscaped(m.0, ":" + value);
    ReadPrinted(m.1, rest);
    ReadMemberStep(inner, Sanitize(m.0), value, Sane(m.1), rest);
    PrintMemberSplit(m, rest);
  }

  lemma PrintMemberSplit(m: (string, Value), rest: string)
    ensures PrintMember(m) + rest == "\"" + (Escaped(m.0) + "\"" + (":" + (Print(m.1) + rest)))
  {
  }

  lemma PrintMembersSplit(ms: seq<(string, Value)>, rest: string)
    requires ms != []
    ensures PrintMembers(ms) + "}" + rest
            == PrintMember(ms[0]) + if |ms| == 1 then "}" + rest else "," + (PrintMembers(ms[1..]) + "}" + rest)
  {
    Regroup(PrintMember(ms[0]), PrintMembers(ms[1..]), "}", rest);
  }

  lemma ReadMembersStep(s: string, m: (string, Value), next: char, more: string)
    requires ReadMember(s) == Some((m, [next] + more)) && (next == ',' || next == '}')
    ensures ReadMembers(s) == if next == '}' then Some(([m], more))
                              else match ReadMembers(more)
                                case None => None
                                case Some((ms, rest)) => Some(([m] + ms, rest))
  {
    var after := [next] + more;
    assert SkipSpace(after) == after && after[1..] == more;
  }

  lemma {:induction false} ReadPrintedMembers(ms: seq<(string, Value)>, rest: string)
    requires ms != [] && forall i :: 0 <= i < |ms| ==> Printable(ms[i].1)
    ensures ReadMembers(PrintMembers(ms) + "}" + rest) == Some((SaneMembers(ms), rest))
    decreases ms, 1
  {
    PrintMembersSplit(ms, rest);
    var text := PrintMembers(ms) + "}" + rest;
    if |ms| == 1 {
      ReadPrintedMember(ms[0], "}" + rest);
      ReadMembersStep(text, SaneMember(ms[0]), '}', rest);
      assert SaneMembers(ms) == [SaneMember(ms[0])];
    } else {
      var more := PrintMembers(ms[1..]) + "}" + rest;
      ReadPrintedMember(ms[0], "," + more);
      ReadMembersStep(text, SaneMember(ms[0]), ',', more);
      ReadPrintedMembers(ms[1..], rest);
    }
  }

  lemma ReadPrintedDocument(v: Value)
    requires Printable(v)
    ensures ReadValue(Print(v)) == Some((Sane(v), "")) && ReadDocument(Print(v)) == Some(Sane(v))
  {
    ReadPrinted(v, "");
    assert Print(v) + "" == Print(v);
  }

  // ---- A printed value stays on one line ----

  lemma NumberOneLine(text: string)
    requires IsNumber(text)
    ensures OneLine(text)
  {
  }

  lemma {:induction false} PrintOneLine(v: Value)
    requires Printable(v)
    ensures OneLine(Print(v))
    decreases v, 0
  {
    match v
    case Num(text) => NumberOneLine(text);
    case Str(bytes) => EscapedOneLine(bytes);
    case Arr(items) => ItemsOneLine(items);
    case Obj(members) => MembersOneLine(members);
    case _ =>
  }

  lemma {:induction false} ItemsOneLine(vs: seq<Value>)
    requires forall i :: 0 <= i < |vs| ==> Printable(vs[i])
    ensures OneLine(PrintItems(vs))
    decreases vs, 1
  {
    if vs == [] {
    } else {
      PrintOneLine(vs[0]);
      ItemsOneLine(vs[1..]);
    }
  }

  lemma {:induction false} MembersOneLine(ms: seq<(string, Value)>)
    requires forall i :: 0 <= i < |ms| ==> Printable(ms[i].1)
    ensures OneLine(PrintMembers(ms))
    decreases ms, 1
  {
    if ms == [] {
    } else {
      MemberOneLine(ms[0]);
      MembersOneLine(ms[1..]);
    }
  }

  lemma {:induction false} MemberOneLine(m: (string, Value))
    requires Printable(m.1)
    ensures OneLine(PrintMember(m))
    decreases m, 1
  {
    EscapedOneLine(m.0);
    PrintOneLine(m.1);
  }
}
