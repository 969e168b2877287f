/** The number grammar (RFC 8259, section 6), and that the reader takes exactly its texts for numbers. */
module JsonNumbers {
  import opened Basics
  import opened Decimal
  import opened Json
  import opened JsonFacts

  /** The parts of a number (section 6). */
  datatype Number = Number(minus: bool, whole: string, fraction: string, mark: string, exponent: string)

  predicate IsMark(s: string) { s == "e" || s == "E" || s == "e+" || s == "E+" || s == "e-" || s == "E-" }

  predicate IsExponent(mark: string, digits: string) {
    if mark == "" then digits == "" else IsMark(mark) && digits != ""
  }

  predicate ValidNumber(n: Number) {
    && n.whole != "" && AllDigits(n.whole) && (n.whole[0] == '0' ==> n.whole == "0")
    && AllDigits(n.fraction) && AllDigits(n.exponent)
    && IsExponent(n.mark, n.exponent)
  }

  function NumberText(n: Number): string {
    (if n.minus then "-" else "")
    + (n.whole + ((if n.fraction == "" then "" else "." + n.fraction) + (n.mark + n.exponent)))
  }

  // ---- What was taken for a number is one on its own ----

  lemma {:induction false} DigitsEndCut(s: string, i: nat, m: nat)
    requires i <= m <= |s| && DigitsEnd(s, i) <= m
    ensures DigitsEnd(s[..m], i) == DigitsEnd(s, i)
    decreases |s| - i
  {
    if i < m && IsDigit(s[i]) {
      DigitsEndCut(s, i + 1, m);
    }
  }

  /** What was taken for a number is one on its own. */
  lemma NumberCut(s: string)
    requires NumberLen(s).Some?
    ensures IsNumber(s[..NumberLen(s).value])
  {
    var n := NumberLen(s).value;
    var p := s[..n];
    var i := IntEnd(s).value;
    var f := FractionEnd(s, i).value;
    IntCut(s, n);
    FractionCut(s, i, n);
    ExponentCut(s, f, n);
  }

  lemma IntCut(s: string, m: nat)
    requires IntEnd(s).Some? && IntEnd(s).value <= m <= |s|
    ensures IntEnd(s[..m]) == IntEnd(s)
  {
    var i := if s[0] == '-' then 1 else 0;
    if s[i] != '0' {
      DigitsEndCut(s, i, m);
    }
  }

  lemma FractionCut(s: string, i: nat, m: nat)
    requires i <= m <= |s| && FractionEnd(s, i).Some? && FractionEnd(s, i).value <= m
    ensures FractionEnd(s[..m], i) == FractionEnd(s, i)
  {
    if i < |s| && s[i] == '.' {
      DigitsEndCut(s, i + 1, m);
    }
  }

  lemma ExponentCut(s: string, i: nat, m: nat)
    requires i <= m <= |s| && ExponentEnd(s, i).Some? && ExponentEnd(s, i).value == m
    ensures ExponentEnd(s[..m], i) == Some(m)
  {
    if i < |s| && (s[i] == 'e' || s[i] == 'E') {
      DigitsEndCut(s, if s[i + 1] == '+' || s[i + 1] == '-' then i + 2 else i + 1, m);
    }
  }

  // ---- Both directions ----

  lemma {:induction false} DigitsEndIs(s: string, i: nat, e: nat)
    requires i <= e <= |s| && (forall j :: i <= j < e ==> IsDigit(s[j])) && (e < |s| ==> !IsDigit(s[e]))
    ensures DigitsEnd(s, i) == e
    decreases e - i
  {
    if i < e {
      DigitsEndIs(s, i + 1, e);
    }
  }

  function Fraction(n: Number): string { if n.fraction == "" then "" else "." + n.fraction }

  lemma WholeEnds(sign: string, whole: string, rest: string)
    requires (sign == "" || sign == "-") && whole != "" && AllDigits(whole) && (whole[0] == '0' ==> whole == "0")
    requires rest == "" || !IsDigit(rest[0])
    ensures IntEnd(sign + (whole + rest)) == Some(|sign| + |whole|)
  {
    var s, i := sign + (whole + rest), |sign|;
    assert s[i] == whole[0] && forall q :: i <= q < i + |whole| ==> s[q] == whole[q - i];
    assert rest != "" ==> s[i + |whole|] == rest[0];
    DigitsEndIs(s, i, i + |whole|);
  }

  lemma FractionEnds(head: string, digits: string, rest: string)
    requires AllDigits(digits) && (rest == "" || (!IsDigit(rest[0]) && rest[0] != '.'))
    ensures var fraction := if digits == "" then "" else "." + digits;
            FractionEnd(head + (fraction + rest), |head|) == Some(|head| + |fraction|)
  {
    var fraction := if digits == "" then "" else "." + digits;
    var s, i, f := head + (fraction + rest), |head|, |head| + |fraction|;
    assert rest != "" ==> s[f] == rest[0];
    if digits != "" {
      assert s[i] == '.' && forall q :: i + 1 <= q < f ==> s[q] == digits[q - i - 1];
      DigitsEndIs(s, i + 1, f);
    }
  }

  lemma ExponentEnds(head: string, mark: string, digits: string)
    requires AllDigits(digits) && IsExponent(mark, digits)
    ensures ExponentEnd(head + (mark + digits), |head|) == Some(|head| + |mark| + |digits|)
  {
    var s, i := head + (mark + digits), |head|;
    if mark != "" {
      var k := i + |mark|;
      assert s[i] == mark[0] && (|mark| == 2 ==> s[i + 1] == mark[1]);
      assert s[k] == digits[0] && forall q :: k <= q < |s| ==> s[q] == digits[q - k];
      DigitsEndIs(s, k, |s|);
    }
  }

  lemma WholeIn(s: string, sign: string, whole: string, rest: string)
    requires s == sign + (whole + rest)
    requires (sign == "" || sign == "-") && whole != "" && AllDigits(whole) && (whole[0] == '0' ==> whole == "0")
    requires rest == "" || !IsDigit(rest[0])
    ensures IntEnd(s) == Some(|sign| + |whole|) && s[|sign| + |whole|..] == rest
  {
    WholeEnds(sign, whole, rest);
  }

  lemma FractionIn(s: string, i: nat, fraction: string, digits: string, rest: string)
    requires i <= |s| && s[i..] == fraction + rest && fraction == if digits == "" then "" else "." + digits
    requires AllDigits(digits) && (rest == "" || (!IsDigit(rest[0]) && rest[0] != '.'))
    ensures FractionEnd(s, i) == Some(i + |fraction|) && i + |fraction| <= |s| && s[i + |fraction|..] == rest
  {
    assert s == s[..i] + s[i..];
    FractionEnds(s[..i], digits, rest);
    assert s[i..][|fraction|..] == rest;
  }

  lemma ExponentIn(s: string, i: nat, mark: string, digits: string)
    requires i <= |s| && s[i..] == mark + digits
    requires AllDigits(digits) && IsExponent(mark, digits)
    ensures ExponentEnd(s, i) == Some(|s|)
  {
    assert s == s[..i] + s[i..];
    ExponentEnds(s[..i], mark, digits);
  }

  lemma PartsEnd(s: string, i: nat, f: nat)
    requires IntEnd(s) == Some(i) && i <= |s| && FractionEnd(s, i) == Some(f) && f <= |s|
    requires ExponentEnd(s, f) == Some(|s|)
    ensures IsNumber(s)
  {
  }

  lemma TailStart(mark: string, digits: string)
    requires IsExponent(mark, digits)
    ensures mark + digits == "" || (mark + digits)[0] == 'e' || (mark + digits)[0] == 'E'
  {
  }

  lemma RestStart(digits: string, tail: string)
    requires tail == "" || tail[0] == 'e' || tail[0] == 'E'
    ensures var rest := (if digits == "" then "" else "." + digits) + tail; rest == "" || !IsDigit(rest[0])
  {
    assert "" + tail == tail;
  }

  lemma TailIsExponent(s: string, f: nat, n: Number)
    requires ValidNumber(n) && f <= |s| && s[f..] == n.mark + n.exponent
    ensures ExponentEnd(s, f) == Some(|s|)
  {
    ExponentIn(s, f, n.mark, n.exponent);
  }

  lemma MiddleIsFraction(s: string, i: nat, n: Number)
    requires ValidNumber(n) && i <= |s| && s[i..] == Fraction(n) + (n.mark + n.exponent)
    ensures var f := i + |Fraction(n)|;
            FractionEnd(s, i) == Some(f) && f <= |s| && s[f..] == n.mark + n.exponent
  {
    TailStart(n.mark, n.exponent);
    FractionIn(s, i, Fraction(n), n.fraction, n.mark + n.exponent);
  }

  lemma StartIsWhole(s: string, sign: string, n: Number, rest: string)
    requires ValidNumber(n) && (sign == "" || sign == "-") && s == sign + (n.whole + rest)
    requires rest == Fraction(n) + (n.mark + n.exponent)
    ensures var i := |sign| + |n.whole|; IntEnd(s) == Some(i) && i <= |s| && s[i..] == rest
  {
    TailStart(n.mark, n.exponent);
    RestStart(n.fraction, n.mark + n.exponent);
    WholeIn(s, sign, n.whole, rest);
  }

  lemma WholeThenRest(s: string, i: nat, n: Number)
    requires ValidNumber(n) && i <= |s| && IntEnd(s) == Some(i) && s[i..] == Fraction(n) + (n.mark + n.exponent)
    ensures IsNumber(s)
  {
    MiddleIsFraction(s, i, n);
    TailIsExponent(s, i + |Fraction(n)|, n);
    PartsEnd(s, i, i + |Fraction(n)|);
  }

  /** Every text of the number grammar is a number. */
  lemma GrammarIsNumber(n: Number)
    requires ValidNumber(n)
    ensures IsNumber(NumberText(n))
  {
    var sign := if n.minus then "-" else "";
    StartIsWhole(NumberText(n), sign, n, Fraction(n) + (n.mark + n.exponent));
    WholeThenRest(NumberText(n), |sign| + |n.whole|, n);
  }

  lemma Sliced(s: string, i: nat, j: nat, f: nat)
    requires i <= j <= f <= |s|
    ensures s == s[..i] + (s[i..j] + (s[j..f] + s[f..]))
  {
    assert s[j..] == s[j..f] + s[f..];
    assert s[i..] == s[i..j] + s[j..];
    assert s == s[..i] + s[i..];
  }

  /** And every number is a text of it. */
  lemma NumberHasParts(s: string) returns (n: Number)
    requires IsNumber(s)
    ensures ValidNumber(n) && NumberText(n) == s
  {
    var i := if s[0] == '-' then 1 else 0;
    var j := IntEnd(s).value;
    var f := FractionEnd(s, j).value;
    var mark, exponent := ExponentParts(s, f);
    var whole := WholePart(s);
    var fraction := FractionPart(s, j);
    n := Number(i == 1, whole, fraction, mark, exponent);
    Sliced(s, i, j, f);
    assert s[..i] == if n.minus then "-" else "";
  }

  lemma WholePart(s: string) returns (whole: string)
    requires IntEnd(s).Some?
    ensures whole == s[if s[0] == '-' then 1 else 0..IntEnd(s).value]
    ensures whole != "" && AllDigits(whole) && (whole[0] == '0' ==> whole == "0")
  {
    whole := s[if s[0] == '-' then 1 else 0..IntEnd(s).value];
  }

  lemma FractionPart(s: string, i: nat) returns (digits: string)
    requires i <= |s| && FractionEnd(s, i).Some?
    ensures AllDigits(digits) && s[i..FractionEnd(s, i).value] == if digits == "" then "" else "." + digits
  {
    var f := FractionEnd(s, i).value;
    digits := if f == i then "" else s[i + 1..f];
    assert f > i ==> s[i..f] == [s[i]] + s[i + 1..f];
  }

  lemma ExponentParts(s: string, i: nat) returns (mark: string, digits: string)
    requires i <= |s| && ExponentEnd(s, i) == Some(|s|)
    ensures s[i..] == mark + digits && AllDigits(digits)
    ensures IsExponent(mark, digits)
  {
    if i == |s| {
      mark, digits := "", "";
    } else {
      var k := if s[i + 1] == '+' || s[i + 1] == '-' then i + 2 else i + 1;
      mark, digits := s[i..k], s[k..];
      assert mark == if k == i + 1 then [s[i]] else [s[i], s[i + 1]];
    }
  }
}
