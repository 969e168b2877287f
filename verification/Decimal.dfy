/** Decimal text of int64 values: strconv.FormatInt and strconv.ParseInt in base 10. */
module Decimal {
  import opened Basics

  predicate IsDigit(c: char) { '0' <= c <= '9' }

  predicate AllDigits(s: string) { forall i :: 0 <= i < |s| ==> IsDigit(s[i]) }

  function DigitChar(d: int): (c: char)
    requires 0 <= d < 10
    ensures IsDigit(c) && c as int - '0' as int == d
  {
    (d + '0' as int) as char
  }

  function FormatNat(n: nat): (s: string)
    ensures |s| > 0 && AllDigits(s)
    ensures s[0] == '0' ==> s == "0"
  {
    if n < 10 then [DigitChar(n)] else FormatNat(n / 10) + [DigitChar(n % 10)]
  }

  function FormatInt(n: int): (s: string)
    ensures |s| > 0
    ensures forall i :: 0 <= i < |s| ==> IsDigit(s[i]) || (i == 0 && s[i] == '-')
  {
    if n < 0 then "-" + FormatNat(-n) else FormatNat(n)
  }

  function DigitsValue(s: string): nat
    requires AllDigits(s)
  {
    if s == [] then 0
    else 10 * DigitsValue(s[..|s| - 1]) + (s[|s| - 1] as int - '0' as int)
  }

  /** One optional sign, at least one digit, and a value in the int64 range; anything else is an error. */
  function ParseInt64(s: string): Option<Int64> {
    if s == [] then None
    else
      var digits := if s[0] == '-' || s[0] == '+' then s[1..] else s;
      if digits == [] || !AllDigits(digits) then None
      else
        var n: int := if s[0] == '-' then -(DigitsValue(digits) as int) else DigitsValue(digits);
        if -TWO_63 <= n < TWO_63 then Some(n) else None
  }

  lemma {:induction false} DigitsOfNat(n: nat)
    ensures DigitsValue(FormatNat(n)) == n
  {
    if n >= 10 {
      DigitsOfNat(n / 10);
      var s := FormatNat(n);
      assert s[..|s| - 1] == FormatNat(n / 10);
    } else {
      assert DigitsValue(FormatNat(n)[..0]) == 0;
    }
  }

  lemma ParseOfDigits(sign: string, n: nat)
    requires sign == "" || sign == "-"
    requires n < TWO_63 || (n == TWO_63 && sign == "-")
    ensures ParseInt64(sign + FormatNat(n)) == Some(if sign == "-" then 0 - n else n)
  {
    var s := sign + FormatNat(n);
    DigitsOfNat(n);
    assert IsDigit(FormatNat(n)[0]);
    var digits := if s[0] == '-' || s[0] == '+' then s[1..] else s;
    assert digits == FormatNat(n);
  }

  /** Printing and parsing an int64 gives it back, the two range ends included. */
  lemma ParseOfFormat(n: Int64)
    ensures ParseInt64(FormatInt(n)) == Some(n)
  {
    var size: int := n;
    if n < 0 {
      ParseOfDigits("-", -size);
    } else {
      ParseOfDigits("", size);
      assert "" + FormatNat(size) == FormatNat(size);
    }
  }

  /** An optional sign and at least one digit. */
  predicate IsDecimal(s: string) {
    s != "" && (AllDigits(s) || ((s[0] == '+' || s[0] == '-') && |s| > 1 && AllDigits(s[1..])))
  }

  function InRange(n: int): Option<Int64> { if -TWO_63 <= n < TWO_63 then Some(n) else None }

  /** On all texts: without a sign and with a plus the digits' value, with a minus its negation, or out of range. */
  lemma ParseMeans(s: string)
    ensures ParseInt64(s).Some? ==> IsDecimal(s)
    ensures s != "" && AllDigits(s) ==>
              && ParseInt64(s) == ParseInt64("+" + s) == InRange(DigitsValue(s))
              && ParseInt64("-" + s) == InRange(0 - DigitsValue(s))
  {
    assert ("+" + s)[1..] == s && ("-" + s)[1..] == s;
    assert s != "" && AllDigits(s) ==> IsDigit(s[0]);
  }

  function Zeros(n: nat): string { seq(n, _ => '0') }

  /** A row of digits is the decimal text of its value behind leading zeros. */
  lemma {:induction false} DigitsAreText(s: string)
    requires s != "" && AllDigits(s)
    ensures var text := FormatNat(DigitsValue(s)); |text| <= |s| && s == Zeros(|s| - |text|) + text
  {
    var init, d := s[..|s| - 1], s[|s| - 1] as int - '0' as int;
    assert s == init + [DigitChar(d)];
    if init == "" {
      assert s == [DigitChar(d)];
      assert Zeros(0) == "";
    } else {
      DigitsAreText(init);
      var v := DigitsValue(init);
      assert DigitsValue(s) == 10 * v + d;
      if v == 0 {
        assert FormatNat(0) == "0" && FormatNat(d) == [DigitChar(d)];
        assert init == Zeros(|init|);
      } else {
        LastDigit(v, d);
      }
    }
  }

  lemma LastDigit(v: nat, d: nat)
    requires v > 0 && d < 10
    ensures FormatNat(10 * v + d) == FormatNat(v) + [DigitChar(d)]
  {
    assert (10 * v + d) / 10 == v && (10 * v + d) % 10 == d;
  }

  /** Base ten, most significant digit first. */
  lemma DecimalExample()
    ensures FormatInt(-1203) == "-1203"
  {
    assert FormatNat(12) == "12" && FormatNat(120) == FormatNat(12) + "0" && FormatNat(1203) == FormatNat(120) + "3";
    assert FormatInt(-1203) == "-" + FormatNat(1203);
  }

  lemma FormatIntInjective(a: Int64, b: Int64)
    requires FormatInt(a) == FormatInt(b)
    ensures a == b
  {
    ParseOfFormat(a);
    ParseOfFormat(b);
  }
}
