/**
  * The bytes of JSON strings: UTF-8 (RFC 3629), the escapes encoding/json writes, and the unquoting it does
  * (section 7 of RFC 8259). A Go string is a sequence of bytes, one char each.
  */
module Text {
  import opened Basics

  // ---- UTF-8 ----

  predicate InRange(c: char, lo: int, hi: int) { lo <= c as int <= hi }

  /** Length of the well-formed UTF-8 sequence s starts with, 0 when its first byte starts none. */
  function RuneLen(s: string): (n: nat)
    requires s != []
    ensures n <= |s| && n <= 4
  {
    var b := s[0] as int;
    if b < 0x80 then 1
    else if 0xC2 <= b <= 0xDF then
      if |s| >= 2 && InRange(s[1], 0x80, 0xBF) then 2 else 0
    else if 0xE0 <= b <= 0xEF then
      if |s| >= 3 && InRange(s[1], if b == 0xE0 then 0xA0 else 0x80, if b == 0xED then 0x9F else 0xBF)
         && InRange(s[2], 0x80, 0xBF) then 3 else 0
    else if 0xF0 <= b <= 0xF4 then
      if |s| >= 4 && InRange(s[1], if b == 0xF0 then 0x90 else 0x80, if b == 0xF4 then 0x8F else 0xBF)
         && InRange(s[2], 0x80, 0xBF) && InRange(s[3], 0x80, 0xBF) then 4 else 0
    else 0
  }

  /** U+FFFD in UTF-8. */
  const REPLACEMENT: string := [0xEF as char, 0xBF as char, 0xBD as char]

  predicate ValidUtf8(s: string)
    decreases |s|
  {
    s == [] || (RuneLen(s) > 0 && ValidUtf8(s[RuneLen(s)..]))
  }

  /** Bytes consumed and bytes kept when text is made valid one sequence at a time. */
  function SaneHead(s: string): (string, nat)
    requires s != []
  {
    var n := RuneLen(s);
    if n == 0 then (REPLACEMENT, 1) else (s[..n], n)
  }

  function Sanitize(s: string): string
    decreases |s|
  {
    if s == [] then [] else SaneHead(s).0 + Sanitize(s[SaneHead(s).1..])
  }

  lemma {:induction false} SanitizeIsIdentityIff(s: string)
    ensures Sanitize(s) == s <==> ValidUtf8(s)
    decreases |s|
  {
    if s == [] {
    } else {
      var (kept, n) := SaneHead(s);
      var rest := s[n..];
      SanitizeIsIdentityIff(rest);
      var whole := kept + Sanitize(rest);
      if RuneLen(s) > 0 {
        assert whole[n..] == Sanitize(rest);
        assert s[..n] + rest == s;
      } else {
        ReplacementIsValid(Sanitize(rest));
      }
    }
  }

  lemma ReplacementIsValid(tail: string)
    ensures RuneLen(REPLACEMENT + tail) == 3
  {
  }

  function Utf8Encode(code: nat): string
    requires code < 0x11_0000
  {
    if code < 0x80 then [code as char]
    else if code < 0x800 then [(0xC0 + code / 0x40) as char, (0x80 + code % 0x40) as char]
    else if code < 0x1_0000 then
      [(0xE0 + code / 0x1000) as char, (0x80 + code / 0x40 % 0x40) as char, (0x80 + code % 0x40) as char]
    else
      [(0xF0 + code / 0x4_0000) as char, (0x80 + code / 0x1000 % 0x40) as char,
       (0x80 + code / 0x40 % 0x40) as char, (0x80 + code % 0x40) as char]
  }

  // ---- Hexadecimal escapes ----

  function HexDigit(c: char): (d: Option<nat>)
    ensures d.Some? ==> d.value < 16
  {
    if '0' <= c <= '9' then Some(c as int - '0' as int)
    else if 'a' <= c <= 'f' then Some(c as int - 'a' as int + 10)
    else if 'A' <= c <= 'F' then Some(c as int - 'A' as int + 10)
    else None
  }

  function HexChar(d: nat): (c: char)
    requires d < 16
    ensures HexDigit(c) == Some(d)
  {
    if d < 10 then (d + '0' as int) as char else (d - 10 + 'a' as int) as char
  }

  /** The code of a \uXXXX escape at the start of s. */
  function Hex4(s: string): (r: Option<nat>)
    ensures r.Some? ==> r.value < 0x1_0000 && |s| >= 6
  {
    if |s| < 6 || s[0] != '\\' || s[1] != 'u' then None
    else
      var (a, b, c, d) := (HexDigit(s[2]), HexDigit(s[3]), HexDigit(s[4]), HexDigit(s[5]));
      if a.None? || b.None? || c.None? || d.None? then None
      else Some(((a.value * 16 + b.value) * 16 + c.value) * 16 + d.value)
  }

  // ---- Writing ----

  /** The default encoder also escapes the three characters that matter in HTML. */
  function EscapeAscii(c: char): string
    requires c as int < 0x80
  {
    if c == '"' then "\\\""
    else if c == '\\' then "\\\\"
    else if c == '\n' then "\\n"
    else if c == '\r' then "\\r"
    else if c == '\t' then "\\t"
    else if c < ' ' || c == '<' || c == '>' || c == '&' then
      "\\u00" + [HexChar(c as int / 16), HexChar(c as int % 16)]
    else [c]
  }

  /** U+2028 and U+2029 are escaped too, and a byte that starts no sequence becomes \ufffd. */
  function EscapedHead(s: string): (r: (string, nat))
    requires s != []
    ensures 0 < r.1 <= |s| && r.1 == SaneHead(s).1
  {
    if s[0] as int < 0x80 then (EscapeAscii(s[0]), 1)
    else
      var n := RuneLen(s);
      if n == 0 then ("\\ufffd", 1)
      else if s[..n] == Utf8Encode(0x2028) then ("\\u2028", n)
      else if s[..n] == Utf8Encode(0x2029) then ("\\u2029", n)
      else (s[..n], n)
  }

  function Escaped(s: string): string
    decreases |s|
  {
    if s == [] then [] else EscapedHead(s).0 + Escaped(s[EscapedHead(s).1..])
  }

  /** Escaping never makes a text shorter. */
  lemma {:induction false} EscapedIsNoShorter(s: string)
    ensures |Escaped(s)| >= |s|
    decreases |s|
  {
    if s == [] {
    } else {
      EscapedIsNoShorter(s[EscapedHead(s).1..]);
    }
  }

  // ---- Reading ----

  /** One character or escape inside a string: decoded bytes and how many bytes it took. */
  function UnquoteHead(s: string): (r: Option<(string, nat)>)
    requires s != []
    ensures r.Some? ==> 0 < r.value.1 <= |s|
  {
    if s[0] == '\\' then
      if |s| < 2 then None
      else if s[1] == '"' || s[1] == '\\' || s[1] == '/' then Some(([s[1]], 2))
      else if s[1] == 'b' then Some(([8 as char], 2))
      else if s[1] == 'f' then Some(([12 as char], 2))
      else if s[1] == 'n' then Some(("\n", 2))
      else if s[1] == 'r' then Some(("\r", 2))
      else if s[1] == 't' then Some(("\t", 2))
      else
        match Hex4(s)
        case None => None
        case Some(code) =>
          if code < 0xD800 || code >= 0xE000 then Some((Utf8Encode(code), 6))
          else
            var low := Hex4(s[6..]);
            if code < 0xDC00 && low.Some? && 0xDC00 <= low.value < 0xE000
            then Some((Utf8Encode(0x1_0000 + (code - 0xD800) * 0x400 + low.value - 0xDC00), 12))
            else Some((REPLACEMENT, 6))
    else if s[0] < ' ' then None
    else Some(SaneHead(s))
  }

  /** The rest of a string after its opening quote: the bytes it denotes and what follows it. */
  function Unquote(s: string): (r: Option<(string, string)>)
    ensures r.Some? ==> |r.value.1| < |s|
    decreases |s|
  {
    if s == [] then None
    else if s[0] == '"' then Some(("", s[1..]))
    else
      match UnquoteHead(s)
      case None => None
      case Some((text, n)) =>
        match Unquote(s[n..])
        case None => None
        case Some((tail, rest)) => Some((text + tail, rest))
  }

  // ---- What was written is read back, made valid ----

  lemma RuneLenLocal(s: string, tail: string)
    requires s != [] && RuneLen(s) > 0
    ensures RuneLen(s[..RuneLen(s)] + tail) == RuneLen(s)
  {
  }

  lemma UnquoteEscapedAscii(c: char, tail: string)
    requires c as int < 0x80
    ensures EscapeAscii(c)[0] != '"'
    ensures UnquoteHead(EscapeAscii(c) + tail) == Some(([c], |EscapeAscii(c)|))
  {
  }

  lemma UnquoteEscapedHead(s: string, tail: string)
    requires s != []
    ensures var (piece, n) := EscapedHead(s);
            piece != "" && piece[0] != '"' && UnquoteHead(piece + tail) == Some((SaneHead(s).0, |piece|))
  {
    var (piece, n) := EscapedHead(s);
    var t := piece + tail;
    assert t[..|piece|] == piece;
    if s[0] as int < 0x80 {
      UnquoteEscapedAscii(s[0], tail);
      assert s[..1] == [s[0]];
    } else if RuneLen(s) == 0 {
      assert Hex4(t) == Some(0xFFFD);
    } else if s[..n] == Utf8Encode(0x2028) {
      assert Hex4(t) == Some(0x2028);
    } else if s[..n] == Utf8Encode(0x2029) {
      assert Hex4(t) == Some(0x2029);
    } else {
      RuneLenLocal(s, tail);
    }
  }

  /** For all bytes: reading what was written gives the text with every invalid byte replaced by U+FFFD. */
  lemma {:induction false} UnquoteEscaped(s: string, rest: string)
    ensures Unquote(Escaped(s) + "\"" + rest) == Some((Sanitize(s), rest))
    decreases |s|
  {
    if s == [] {
      var t := Escaped(s) + "\"" + rest;
      assert t[0] == '"' && t[1..] == rest;
    } else {
      var (piece, n) := EscapedHead(s);
      var more := Escaped(s[n..]);
      UnquoteEscapedHead(s, more + "\"" + rest);
      UnquoteEscaped(s[n..], rest);
      UnquoteStep(piece, SaneHead(s).0, more + "\"" + rest);
      Associates(piece, more, "\"", rest);
      assert Escaped(s) == piece + more;
      assert Sanitize(s) == SaneHead(s).0 + Sanitize(s[n..]);
    }
  }

  lemma Associates(a: string, b: string, c: string, d: string)
    ensures a + b + c + d == a + (b + c + d)
  {
  }

  lemma UnquoteStep(piece: string, text: string, tail: string)
    requires piece != "" && piece[0] != '"' && UnquoteHead(piece + tail) == Some((text, |piece|))
    requires Unquote(tail).Some?
    ensures Unquote(piece + tail) == Some((text + Unquote(tail).value.0, Unquote(tail).value.1))
  {
    assert (piece + tail)[|piece|..] == tail;
  }

  /** No control character is written, so a document stays on one line. */
  predicate OneLine(s: string) { forall i :: 0 <= i < |s| ==> s[i] >= ' ' }

  lemma EscapeAsciiOneLine(c: char)
    requires c as int < 0x80
    ensures OneLine(EscapeAscii(c))
  {
  }

  lemma {:induction false} EscapedOneLine(s: string)
    ensures OneLine(Escaped(s))
    decreases |s|
  {
    if s == [] {
    } else {
      var (piece, n) := EscapedHead(s);
      if s[0] as int < 0x80 {
        EscapeAsciiOneLine(s[0]);
      }
      assert OneLine(piece);
      EscapedOneLine(s[n..]);
    }
  }

  // ---- A string that ends inside p is read the same way when more text follows p ----

  lemma {:induction false} UnquoteNeedsQuote(p: string)
    requires Unquote(p).Some?
    ensures '"' in p
    decreases |p|
  {
    if p[0] == '"' {
    } else {
      var n := UnquoteHead(p).value.1;
      UnquoteNeedsQuote(p[n..]);
      assert p == p[..n] + p[n..];
    }
  }

  lemma SaneHeadExtends(p: string, x: string)
    requires p != [] && Unquote(p[SaneHead(p).1..]).Some?
    ensures SaneHead(p + x) == SaneHead(p)
  {
    var q := p + x;
    assert forall i :: 0 <= i < |p| ==> q[i] == p[i];
    if RuneLen(p) == 0 {
      UnquoteNeedsQuote(p[1..]);
      var i :| 1 <= i < |p| && p[i] == '"';
      assert q[i] == '"';
    } else {
      assert q[..RuneLen(p)] == p[..RuneLen(p)];
    }
  }

  lemma Hex4Extends(p: string, x: string)
    requires |p| >= 6
    ensures Hex4(p + x) == Hex4(p)
  {
  }

  lemma LowSurrogateExtends(p: string, x: string)
    requires Unquote(p).Some?
    ensures Hex4(p + x) == Hex4(p)
  {
  }

  lemma UnquoteHeadExtends(p: string, x: string)
    requires p != [] && UnquoteHead(p).Some? && Unquote(p[UnquoteHead(p).value.1..]).Some?
    ensures UnquoteHead(p + x) == UnquoteHead(p)
  {
    var q, n := p + x, UnquoteHead(p).value.1;
    assert q[0] == p[0];
    if p[0] == '\\' {
      assert q[1] == p[1];
      if Hex4(p).Some? {
        Hex4Extends(p, x);
        assert q[6..] == p[6..] + x;
        if n == 6 {
          LowSurrogateExtends(p[6..], x);
        } else {
          Hex4Extends(p[6..], x);
        }
      }
    } else {
      SaneHeadExtends(p, x);
    }
  }

  lemma {:induction false} UnquoteExtends(p: string, x: string)
    requires Unquote(p).Some?
    ensures Unquote(p + x) == Some((Unquote(p).value.0, Unquote(p).value.1 + x))
    decreases |p|
  {
    assert (p + x)[0] == p[0];
    if p[0] == '"' {
      assert (p + x)[1..] == p[1..] + x;
    } else {
      var (text, n) := UnquoteHead(p).value;
      var (tail, rest) := Unquote(p[n..]).value;
      UnquoteHeadExtends(p, x);
      UnquoteExtends(p[n..], x);
      assert (p + x)[n..] == p[n..] + x;
      assert Unquote(p + x) == Some((text + tail, rest + x));
    }
  }
}
