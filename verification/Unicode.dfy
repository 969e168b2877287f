/**
  * What the bytes of a JSON string mean: which byte sequences are UTF-8 (section 3 of RFC 3629) and what every
  * escape stands for (section 7 of RFC 8259), stated by code points.
  */
module Unicode {
  import opened Basics
  import opened Text

  /** A code point that is no surrogate. */
  predicate Scalar(code: int) { 0 <= code < 0x11_0000 && !(0xD800 <= code < 0xE000) }

  /** The payload bits of a sequence, six from every byte but the first. */
  function CodeOf(s: string): int
    requires 1 <= |s| <= 4
  {
    if |s| == 1 then s[0] as int
    else if |s| == 2 then (s[0] as int - 0xC0) * 0x40 + (s[1] as int - 0x80)
    else if |s| == 3 then ((s[0] as int - 0xE0) * 0x40 + (s[1] as int - 0x80)) * 0x40 + (s[2] as int - 0x80)
    else
      (((s[0] as int - 0xF0) * 0x40 + (s[1] as int - 0x80)) * 0x40 + (s[2] as int - 0x80)) * 0x40 + (s[3] as int - 0x80)
  }

  /** The six-bit groups of a number. */
  lemma Sextets(code: nat)
    ensures code == code / 0x40 * 0x40 + code % 0x40
    ensures code / 0x1000 == code / 0x40 / 0x40 && code / 0x4_0000 == code / 0x1000 / 0x40
  {
  }

  lemma FromSextets(a: nat, b: nat, c: nat, d: nat)
    requires b < 0x40 && c < 0x40 && d < 0x40
    ensures var code := ((a * 0x40 + b) * 0x40 + c) * 0x40 + d;
            && code % 0x40 == d && code / 0x40 == (a * 0x40 + b) * 0x40 + c && code / 0x40 % 0x40 == c
            && code / 0x1000 == a * 0x40 + b && code / 0x1000 % 0x40 == b && code / 0x4_0000 == a
  {
  }

  lemma TwoBytesEncoded(code: nat)
    requires 0x80 <= code < 0x800
    ensures var s := Utf8Encode(code); |s| == 2 && RuneLen(s) == 2 && CodeOf(s) == code
  {
    Sextets(code);
  }

  lemma ThreeBytesEncoded(code: nat)
    requires 0x800 <= code < 0x1_0000 && Scalar(code)
    ensures var s := Utf8Encode(code); |s| == 3 && RuneLen(s) == 3 && CodeOf(s) == code
  {
    var a, b, c := code / 0x1000, code / 0x40 % 0x40, code % 0x40;
    Sextets(code);
    Sextets(code / 0x40);
    assert code == (a * 0x40 + b) * 0x40 + c;
    var s := Utf8Encode(code);
    assert s[0] as int == 0xE0 + a && s[1] as int == 0x80 + b && s[2] as int == 0x80 + c;
  }

  lemma FourBytesEncoded(code: nat)
    requires 0x1_0000 <= code < 0x11_0000
    ensures var s := Utf8Encode(code); |s| == 4 && RuneLen(s) == 4 && CodeOf(s) == code
  {
    var a, b, c, d := code / 0x4_0000, code / 0x1000 % 0x40, code / 0x40 % 0x40, code % 0x40;
    Sextets(code);
    Sextets(code / 0x40);
    Sextets(code / 0x1000);
    assert code == ((a * 0x40 + b) * 0x40 + c) * 0x40 + d;
    var s := Utf8Encode(code);
    assert s[0] as int == 0xF0 + a && s[1] as int == 0x80 + b && s[2] as int == 0x80 + c && s[3] as int == 0x80 + d;
  }

  /** Every scalar is encoded as a well-formed sequence that stands for it. */
  lemma EncodedIsWellFormed(code: nat)
    requires Scalar(code)
    ensures var s := Utf8Encode(code); 1 <= |s| <= 4 && RuneLen(s) == |s| && CodeOf(s) == code
  {
    if code < 0x80 {
    } else if code < 0x800 {
      TwoBytesEncoded(code);
    } else if code < 0x1_0000 {
      ThreeBytesEncoded(code);
    } else {
      FourBytesEncoded(code);
    }
  }

  lemma ThreeBytesDecoded(s: string)
    requires s != [] && RuneLen(s) == 3
    ensures Scalar(CodeOf(s[..3])) && Utf8Encode(CodeOf(s[..3])) == s[..3]
  {
    var a, b, c := s[0] as int - 0xE0, s[1] as int - 0x80, s[2] as int - 0x80;
    var code := CodeOf(s[..3]);
    assert code == (a * 0x40 + b) * 0x40 + c && 0 <= b < 0x40 && 0 <= c < 0x40;
    FromSextets(0, a, b, c);
    assert 0x800 <= code < 0x1_0000;
  }

  lemma FourBytesDecoded(s: string)
    requires s != [] && RuneLen(s) == 4
    ensures Scalar(CodeOf(s[..4])) && Utf8Encode(CodeOf(s[..4])) == s[..4]
  {
    var a, b, c, d := s[0] as int - 0xF0, s[1] as int - 0x80, s[2] as int - 0x80, s[3] as int - 0x80;
    var code := CodeOf(s[..4]);
    assert code == ((a * 0x40 + b) * 0x40 + c) * 0x40 + d && 0 <= b < 0x40 && 0 <= c < 0x40 && 0 <= d < 0x40;
    FromSextets(a, b, c, d);
    assert 0x1_0000 <= code < 0x11_0000;
  }

  lemma TwoBytesDecoded(s: string)
    requires s != [] && RuneLen(s) == 2
    ensures Scalar(CodeOf(s[..2])) && Utf8Encode(CodeOf(s[..2])) == s[..2]
  {
    var a, b := s[0] as int - 0xC0, s[1] as int - 0x80;
    FromSextets(0, 0, a, b);
    assert CodeOf(s[..2]) == a * 0x40 + b;
  }

  /** A byte sequence is well formed only if it is the encoding of the scalar it stands for. */
  lemma WellFormedIsEncoded(s: string)
    requires s != [] && RuneLen(s) > 0
    ensures var rune := s[..RuneLen(s)]; Scalar(CodeOf(rune)) && Utf8Encode(CodeOf(rune)) == rune
  {
    if RuneLen(s) == 2 {
      TwoBytesDecoded(s);
    } else if RuneLen(s) == 3 {
      ThreeBytesDecoded(s);
    } else if RuneLen(s) == 4 {
      FourBytesDecoded(s);
    }
  }

  /** A hexadecimal digit in either case. */
  predicate StandsFor(c: char, d: int) {
    || (0 <= d < 10 && c as int == 0x30 + d)
    || (10 <= d < 16 && (c as int == 0x41 + d - 10 || c as int == 0x61 + d - 10))
  }

  lemma HexDigitMeans(c: char, d: int)
    ensures HexDigit(c) == Some(d) <==> StandsFor(c, d)
  {
  }

  /** The escape of a 16-bit unit: \u and four hexadecimal digits, most significant first. */
  ghost predicate IsEscapeOf(s: string, code: int) {
    && |s| == 6 && s[..2] == "\\u"
    && exists a, b, c, d :: StandsFor(s[2], a) && StandsFor(s[3], b) && StandsFor(s[4], c) && StandsFor(s[5], d)
                            && code == ((a * 16 + b) * 16 + c) * 16 + d
  }

  lemma UnitReads(s: string, code: int, tail: string)
    requires IsEscapeOf(s, code)
    ensures 0 <= code < 0x1_0000 && Hex4(s + tail) == Some(code) && (s + tail)[6..] == tail
    ensures (s + tail)[0] == '\\' && (s + tail)[1] == 'u'
  {
    var a, b, c, d :| StandsFor(s[2], a) && StandsFor(s[3], b) && StandsFor(s[4], c) && StandsFor(s[5], d)
                      && code == ((a * 16 + b) * 16 + c) * 16 + d;
    var t := s + tail;
    assert s[..2][0] == t[0] && s[..2][1] == t[1];
    HexDigitMeans(t[2], a);
    HexDigitMeans(t[3], b);
    HexDigitMeans(t[4], c);
    HexDigitMeans(t[5], d);
  }

  /** An escaped scalar of the basic plane is decoded to its UTF-8. */
  lemma UnitDecodes(s: string, code: int, tail: string)
    requires IsEscapeOf(s, code) && Scalar(code)
    ensures code < 0x1_0000 && UnquoteHead(s + tail) == Some((Utf8Encode(code), 6))
  {
    UnitReads(s, code, tail);
  }

  /** A scalar beyond it is escaped as a surrogate pair, and decoded as one character. */
  lemma PairDecodes(high: string, low: string, code: int, tail: string)
    requires 0x1_0000 <= code < 0x11_0000
    requires IsEscapeOf(high, 0xD800 + (code - 0x1_0000) / 0x400) && IsEscapeOf(low, 0xDC00 + (code - 0x1_0000) % 0x400)
    ensures UnquoteHead(high + low + tail) == Some((Utf8Encode(code), 12))
  {
    assert high + low + tail == high + (low + tail);
    UnitReads(high, 0xD800 + (code - 0x1_0000) / 0x400, low + tail);
    UnitReads(low, 0xDC00 + (code - 0x1_0000) % 0x400, tail);
  }

  /** A surrogate without its partner becomes U+FFFD, and what follows it is read on its own. */
  lemma LoneSurrogateDecodes(s: string, code: int, tail: string)
    requires IsEscapeOf(s, code) && 0xD800 <= code < 0xE000
    requires code >= 0xDC00 || Hex4(tail).None? || !(0xDC00 <= Hex4(tail).value < 0xE000)
    ensures UnquoteHead(s + tail) == Some((Utf8Encode(0xFFFD), 6))
  {
    UnitReads(s, code, tail);
  }

  /** The two-character escapes. */
  lemma ShortEscapes(tail: string)
    ensures UnquoteHead("\\\"" + tail) == Some(("\"", 2)) && UnquoteHead("\\\\" + tail) == Some(("\\", 2))
    ensures UnquoteHead("\\/" + tail) == Some(("/", 2)) && UnquoteHead("\\b" + tail) == Some(("\U{8}", 2))
    ensures UnquoteHead("\\f" + tail) == Some(("\U{C}", 2)) && UnquoteHead("\\n" + tail) == Some(("\U{A}", 2))
    ensures UnquoteHead("\\r" + tail) == Some(("\U{D}", 2)) && UnquoteHead("\\t" + tail) == Some(("\U{9}", 2))
  {
  }

  /** Any other character after a backslash is an error. */
  lemma OtherEscapesAreRefused(c: char, tail: string)
    requires c !in "\"\\/bfnrtu"
    ensures UnquoteHead("\\" + [c] + tail).None?
  {
    var letters := "\"\\/bfnrtu";
    assert letters[0] in letters && letters[1] in letters && letters[2] in letters && letters[3] in letters
           && letters[4] in letters && letters[5] in letters && letters[6] in letters && letters[7] in letters
           && letters[8] in letters;
  }

  lemma ControlCharactersAreRefused(c: char, tail: string)
    requires (c as int) < 0x20
    ensures UnquoteHead([c] + tail).None?
  {
  }

  /** Text is made valid one byte at a time: a byte that starts no character becomes U+FFFD, a character stays. */
  lemma SanitizeStep(s: string)
    requires s != []
    ensures RuneLen(s) == 0 ==> Sanitize(s) == Utf8Encode(0xFFFD) + Sanitize(s[1..])
    ensures RuneLen(s) > 0 ==> Sanitize(s) == s[..RuneLen(s)] + Sanitize(s[RuneLen(s)..])
  {
  }

  lemma CharacterIsItself(s: string, tail: string)
    requires s != [] && RuneLen(s) > 0 && s[0] >= ' ' && s[0] != '\\'
    ensures UnquoteHead(s[..RuneLen(s)] + tail) == Some((s[..RuneLen(s)], RuneLen(s)))
  {
    RuneLenLocal(s, tail);
    assert (s[..RuneLen(s)] + tail)[..RuneLen(s)] == s[..RuneLen(s)];
  }

  lemma SplitAt(s: string, n: nat, x: string)
    requires n <= |s|
    ensures s == s[..n] + s[n..] && s + x == s[..n] + (s[n..] + x)
  {
  }

  predicate Ordinary(c: char) { c >= ' ' && c != '"' && c != '\\' }

  /** A string of ordinary characters, neither quote nor backslash nor control, is read as itself. */
  lemma {:induction false} PlainIsItself(s: string, rest: string)
    requires ValidUtf8(s) && forall i :: 0 <= i < |s| ==> Ordinary(s[i])
    ensures Unquote(s + ("\"" + rest)) == Some((s, rest))
    decreases |s|
  {
    if s == [] {
      NothingIsItself(rest);
    } else {
      var n := RuneLen(s);
      var tail := s[n..] + ("\"" + rest);
      assert Ordinary(s[0]);
      PlainIsItself(s[n..], rest);
      CharacterIsItself(s, tail);
      SplitAt(s, n, "\"" + rest);
      UnquoteStep(s[..n], s[..n], tail);
    }
  }

  lemma NothingIsItself(rest: string)
    ensures Unquote("" + ("\"" + rest)) == Some(("", rest))
  {
    var t := "" + ("\"" + rest);
    assert t[0] == '"' && t[1..] == rest;
  }

  // ---- What is written ----

  /** Two characters for the five short escapes, six for any other control character and the three of HTML. */
  lemma EscapedLength(c: char)
    requires c as int < 0x80
    ensures |EscapeAscii(c)| == if c in "\"\\\n\r\t" then 2 else if c < ' ' || c in "<>&" then 6 else 1
  {
    var short, html := "\"\\\n\r\t", "<>&";
    assert short[0] in short && short[1] in short && short[2] in short && short[3] in short && short[4] in short;
    assert html[0] in html && html[1] in html && html[2] in html;
  }

  lemma SameRune(s: string, code: nat)
    requires s != [] && RuneLen(s) > 0 && Scalar(code)
    ensures s[..RuneLen(s)] == Utf8Encode(code) <==> CodeOf(s[..RuneLen(s)]) == code
  {
    WellFormedIsEncoded(s);
    EncodedIsWellFormed(code);
  }

  /** The two line separators of JavaScript and every stray byte are escaped, all other characters copied. */
  lemma EscapedBeyondAscii(s: string)
    requires s != [] && s[0] as int >= 0x80
    ensures var n := RuneLen(s);
            Escaped(s) == if n == 0 then "\\ufffd" + Escaped(s[1..])
                          else if CodeOf(s[..n]) == 0x2028 then "\\u2028" + Escaped(s[n..])
                          else if CodeOf(s[..n]) == 0x2029 then "\\u2029" + Escaped(s[n..])
                          else s[..n] + Escaped(s[n..])
  {
    if RuneLen(s) > 0 {
      SameRune(s, 0x2028);
      SameRune(s, 0x2029);
      WellFormedIsEncoded(s);
    }
  }

  /** Making text valid gives valid text. */
  lemma {:induction false} SanitizedIsValid(s: string)
    ensures ValidUtf8(Sanitize(s))
    decreases |s|
  {
    if s == [] {
    } else {
      var (kept, n) := SaneHead(s);
      var rest := Sanitize(s[n..]);
      SanitizedIsValid(s[n..]);
      assert (kept + rest)[|kept|..] == rest;
      if RuneLen(s) > 0 {
        RuneLenLocal(s, rest);
      } else {
        ReplacementIsValid(rest);
      }
    }
  }

  predicate HtmlSafe(s: string) { '<' !in s && '>' !in s && '&' !in s }

  lemma AsciiEscapesAreHtmlSafe(c: char)
    requires c as int < 0x80
    ensures HtmlSafe(EscapeAscii(c))
  {
  }

  /** The default encoder writes none of the three characters that matter in HTML. */
  lemma {:induction false} EscapedIsHtmlSafe(s: string)
    ensures HtmlSafe(Escaped(s))
    decreases |s|
  {
    if s == [] {
    } else {
      var (piece, n) := EscapedHead(s);
      if s[0] as int < 0x80 {
        AsciiEscapesAreHtmlSafe(s[0]);
      }
      assert HtmlSafe(piece);
      EscapedIsHtmlSafe(s[n..]);
    }
  }
}
