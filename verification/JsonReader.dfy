/** Whatever the reader takes is a text of the JSON grammar, and is read as what it means. */
module JsonReader {
  import opened Basics
  import opened Text
  import opened Json
  import opened JsonFacts
  import opened JsonNumbers
  import opened JsonGrammar

  // ---- Strings ----

  lemma RuneLenGrows(p: string, x: string)
    requires p != []
    ensures RuneLen(p) > 0 ==> RuneLen(p + x) == RuneLen(p)
  {
    if RuneLen(p) > 0 {
      var n := RuneLen(p);
      RuneLenLocal(p, p[n..] + x);
      assert p + x == p[..n] + (p[n..] + x);
    }
  }

  /** A rune, or a byte that starts none, is the same one when the text behind it is cut. */
  lemma RuneLenCut(s: string, m: nat)
    requires 0 < m <= |s| && RuneLen(s) <= m
    ensures RuneLen(s[..m]) == RuneLen(s)
  {
    var p, x, n := s[..m], s[m..], RuneLen(s);
    assert s == p + x;
    RuneLenGrows(p, x);
    if n > 0 {
      RuneLenLocal(s, s[n..m]);
      assert p == s[..n] + s[n..m];
    }
  }

  lemma Hex4Cut(s: string, m: nat)
    requires m <= |s|
    ensures Hex4(s[..m]).Some? ==> Hex4(s) == Hex4(s[..m])
    ensures m >= 6 ==> Hex4(s) == Hex4(s[..m])
  {
    assert s == s[..m] + s[m..];
    if m >= 6 {
      Hex4Extends(s[..m], s[m..]);
    }
  }

  lemma UnquoteHeadCut(s: string, m: nat)
    requires s != [] && UnquoteHead(s).Some? && UnquoteHead(s).value.1 < m <= |s|
    ensures UnquoteHead(s[..m]) == UnquoteHead(s)
  {
    if s[0] == '\\' {
      Hex4Cut(s, m);
      if m >= 6 {
        Hex4Cut(s[6..], m - 6);
        assert s[..m][6..] == s[6..][..m - 6];
      }
    } else {
      RuneLenCut(s, m);
      assert s[..m][..SaneHead(s).1] == s[..SaneHead(s).1];
    }
  }

  /** A string that was read is a quoted text, whatever follows it. */
  lemma {:induction false} StringHasRaw(s: string) returns (raw: string)
    requires Unquote(s).Some?
    ensures IsQuoted(raw, Unquote(s).value.0) && s == raw + ("\"" + Unquote(s).value.1)
    decreases |s|
  {
    if s[0] == '"' {
      raw := "";
      assert Unquote("\"") == Some(("", "")) && raw + "\"" == "\"";
    } else {
      var (text, n) := UnquoteHead(s).value;
      var (tail, rest) := Unquote(s[n..]).value;
      var more := StringHasRaw(s[n..]);
      raw := s[..n] + more;
      assert ("\"" + rest)[..1] == "\"";
      RawGrows(s, n, more, "\"" + rest);
      UnquoteHeadCut(s, n + |more| + 1);
      HeadThenRest(s[..n + |more| + 1], text, n, tail);
    }
  }

  lemma RawGrows(s: string, n: nat, more: string, tail: string)
    requires n <= |s| && s[n..] == more + tail && tail != ""
    ensures s == (s[..n] + more) + tail
    ensures s[..n + |more| + 1] == (s[..n] + more) + tail[..1] && s[..n + |more| + 1][n..] == more + tail[..1]
  {
    assert s == s[..n] + s[n..];
  }

  lemma HeadThenRest(p: string, text: string, n: nat, tail: string)
    requires p != [] && p[0] != QUOTE && UnquoteHead(p) == Some((text, n)) && Unquote(p[n..]) == Some((tail, ""))
    ensures Unquote(p) == Some((text + tail, ""))
  {
  }

  // ---- Values ----

  lemma {:induction false} TokenHasDoc(t: string) returns (d: Doc)
    requires ReadToken(t).Some?
    ensures Valid(d) && Meaning(d) == ReadToken(t).value.0 && t == TextOf(d) + ReadToken(t).value.1
    decreases |t|, 1
  {
    var (v, rest) := ReadToken(t).value;
    if t[0] == '[' {
      d := ArrayHasDoc(t[1..]);
      assert t == "[" + t[1..];
    } else if t[0] == '{' {
      d := ObjectHasDoc(t[1..]);
      assert t == "{" + t[1..];
    } else if t[0] == '"' {
      d := StringHasDoc(t[1..]);
      assert t == "\"" + t[1..];
    } else if t[0] == 't' || t[0] == 'f' || t[0] == 'n' {
      d := Word(v);
      WordHasText(t);
    } else {
      d := NumberHasDoc(t);
    }
  }

  lemma NumberHasDoc(t: string) returns (d: Doc)
    requires ReadNumber(t).Some?
    ensures Valid(d) && Meaning(d) == ReadNumber(t).value.0 && t == TextOf(d) + ReadNumber(t).value.1
  {
    var n := NumberLen(t).value;
    d := Numeral(t[..n]);
    NumberCut(t);
    assert t == t[..n] + t[n..];
  }

  lemma StringHasDoc(s: string) returns (d: Doc)
    requires Unquote(s).Some?
    ensures Valid(d) && Meaning(d) == Str(Unquote(s).value.0) && "\"" + s == TextOf(d) + Unquote(s).value.1
  {
    var raw := StringHasRaw(s);
    d := Quoted(raw, Unquote(s).value.0);
    Grouped(raw, "\"", Unquote(s).value.1);
    Grouped("\"", raw + "\"", Unquote(s).value.1);
  }

  lemma WordHasText(t: string)
    requires t != "" && (t[0] == 't' || t[0] == 'f' || t[0] == 'n') && ReadScalar(t).Some?
    ensures var (v, rest) := ReadScalar(t).value; (v.Null? || v.Bool?) && t == TextOf(Word(v)) + rest
  {
  }

  lemma {:induction false} ArrayHasDoc(s: string) returns (d: Doc)
    requires ReadArray(s).Some?
    ensures Valid(d) && Meaning(d) == ReadArray(s).value.0 && "[" + s == TextOf(d) + ReadArray(s).value.1
    decreases |s|, 4
  {
    var rest := ReadArray(s).value.1;
    var u := SkipSpace(s);
    if u != [] && u[0] == ']' {
      var gap := GapBefore(s);
      d := Listed(gap, []);
      assert u == "]" + rest;
      assert "[" + s == "[" + (gap + "]") + rest;
    } else {
      ItemsSkip(s);
      var items := ItemsHave(s);
      d := Listed("", items);
      assert "[" + s == "[" + (ItemsText(items) + "]") + rest;
    }
  }

  lemma {:induction false} ObjectHasDoc(s: string) returns (d: Doc)
    requires ReadObject(s).Some?
    ensures Valid(d) && Meaning(d) == ReadObject(s).value.0 && "{" + s == TextOf(d) + ReadObject(s).value.1
    decreases |s|, 6
  {
    var rest := ReadObject(s).value.1;
    var u := SkipSpace(s);
    if u != [] && u[0] == '}' {
      var gap := GapBefore(s);
      d := Record(gap, []);
      assert u == "}" + rest;
      assert "{" + s == "{" + (gap + "}") + rest;
    } else {
      MembersSkip(s);
      var members := MembersHave(s);
      d := Record("", members);
      assert "{" + s == "{" + (MembersText(members) + "}") + rest;
    }
  }

  lemma {:induction false} ItemHas(s: string) returns (x: Item)
    requires ReadValue(s).Some?
    ensures ValidItem(x) && Meaning(x.doc) == ReadValue(s).value.0
    ensures s == ItemText(x) + SkipSpace(ReadValue(s).value.1)
    decreases |s|, 2
  {
    var before := GapBefore(s);
    var d := TokenHasDoc(SkipSpace(s));
    var rest := ReadValue(s).value.1;
    var after := GapBefore(rest);
    x := Item(before, d, after);
    assert s == before + (TextOf(d) + (after + SkipSpace(rest)));
    assert s == ItemText(x) + SkipSpace(rest);
  }

  lemma {:induction false} ItemsHave(s: string) returns (items: seq<Item>)
    requires ReadItems(s).Some?
    ensures items != [] && forall i :: 0 <= i < |items| ==> ValidItem(items[i])
    ensures ItemMeanings(items) == ReadItems(s).value.0 && s == ItemsText(items) + ("]" + ReadItems(s).value.1)
    decreases |s|, 3
  {
    var rest := ReadItems(s).value.1;
    var x := ItemHas(s);
    var t := SkipSpace(ReadValue(s).value.1);
    if t[0] == ']' {
      items := [x];
      assert t == "]" + rest;
    } else {
      var more := ItemsHave(t[1..]);
      items := [x] + more;
      assert items[1..] == more;
      assert t == "," + t[1..];
      ItemsTextSplit(items, rest);
    }
  }

  lemma {:induction false} MemberHas(s: string) returns (m: Member)
    requires ReadMember(s).Some?
    ensures ValidMember(m) && (m.name, Meaning(m.item.doc)) == ReadMember(s).value.0
    ensures s == MemberText(m) + SkipSpace(ReadMember(s).value.1)
    decreases |s|, 3
  {
    var before := GapBefore(s);
    var t := SkipSpace(s);
    var raw := StringHasRaw(t[1..]);
    var (name, after) := Unquote(t[1..]).value;
    var between := GapBefore(after);
    var u := SkipSpace(after);
    var x := ItemHas(u[1..]);
    m := Member(before, raw, name, between, x);
    MemberParts(s, m, t, after, u, SkipSpace(ReadMember(s).value.1));
  }

  lemma MemberParts(s: string, m: Member, t: string, after: string, u: string, tail: string)
    requires s == m.before + t && t != "" && t[0] == QUOTE && t[1..] == m.raw + ([QUOTE] + after)
    requires after == m.between + u && u != "" && u[0] == ':' && u[1..] == ItemText(m.item) + tail
    ensures s == MemberText(m) + tail
  {
    assert u == ":" + u[1..] && t == "\"" + t[1..];
    MemberTextWith(m, tail);
  }

  lemma {:induction false} MembersHave(s: string) returns (members: seq<Member>)
    requires ReadMembers(s).Some?
    ensures members != [] && forall i :: 0 <= i < |members| ==> ValidMember(members[i])
    ensures MemberMeanings(members) == ReadMembers(s).value.0
    ensures s == MembersText(members) + ("}" + ReadMembers(s).value.1)
    decreases |s|, 5
  {
    var rest := ReadMembers(s).value.1;
    var m := MemberHas(s);
    var t := SkipSpace(ReadMember(s).value.1);
    if t[0] == '}' {
      members := [m];
      assert t == "}" + rest;
    } else {
      var more := MembersHave(t[1..]);
      members := [m] + more;
      assert members[1..] == more;
      assert t == "," + t[1..];
      MembersTextSplit(members, rest);
    }
  }

  /** The reader accepts nothing but texts of the grammar, and reads them as what they mean. */
  lemma OnlyGrammarIsRead(s: string) returns (x: Item)
    requires ReadDocument(s).Some?
    ensures ValidItem(x) && s == ItemText(x) && ReadDocument(s) == Some(Meaning(x.doc))
  {
    x := ItemHas(s);
    assert ItemText(x) + "" == ItemText(x);
  }
}
