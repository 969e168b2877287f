/** The laws assumed of float text and of the cipher can be met: one instance of each. */
module Laws {
  import opened Basics
  import opened Decimal
  import opened Metrics
  import opened Json
  import opened Codec
  import opened Report
  import opened Transport

  function ParseBits(s: string): Option<Float64> {
    if s != "" && AllDigits(s) && DigitsValue(s) < TWO_64 then Some(DigitsValue(s)) else None
  }

  function BitText(f: Float64): string { FormatNat(f) }

  /** Floats written as the decimal number of their bits. */
  const BITS := FloatText(BitText, BitText, BitText, (n: Int64) => (n as int + TWO_63) as Float64, ParseBits)

  lemma FloatLawsCanHold()
    ensures JsonFloats(BITS) && PathFloats(BITS) && ColonFree(BITS)
  {
    forall f: Float64
      ensures IsNumber(BitText(f)) && ParseBits(BitText(f)) == Some(f) && AllPlain(BitText(f)) && NoColon(BitText(f))
    {
      FormatNatIsNumber(f);
      DigitsOfNat(f);
      var s := BitText(f);
      assert forall i :: 0 <= i < |s| ==> IsDigit(s[i]);
    }
  }

  function Padded(m: string, size: nat): (c: string)
    requires |m| < size
    ensures |c| == size
    decreases size - |m|
  {
    m + "1" + seq(size - |m| - 1, _ => '0')
  }

  function Unpadded(c: string): Option<string> {
    if c == "" then None
    else if c[|c| - 1] == '0' then Unpadded(c[..|c| - 1])
    else Some(c[..|c| - 1])
  }

  lemma {:induction false} UnpaddedOfPadded(m: string, size: nat)
    requires |m| < size
    ensures Unpadded(Padded(m, size)) == Some(m)
    decreases size
  {
    var c := Padded(m, size);
    if size == |m| + 1 {
      assert c == m + "1" && c[..|c| - 1] == m;
    } else {
      assert c[|c| - 1] == '0' && c[..|c| - 1] == Padded(m, size - 1);
      UnpaddedOfPadded(m, size - 1);
    }
  }

  function PadWith(m: string, seed: nat): Option<string> {
    if |m| <= 190 then Some([if seed == 0 then '\0' else '1'] + Padded(m, 255)) else None
  }

  /** A block is read as a number: leading zeros may be missing. */
  function Unpad(c: string): Option<string> {
    if |c| <= 256 then Unpadded(Filled(c, 256)[1..]) else None
  }

  /** A padding without any secrecy, for blocks of 256 bytes of which the first is random. */
  const PADDING := Rsa(256, PadWith, Unpad)

  lemma FilledTwice(c: string, k: nat)
    requires |c| <= k
    ensures Filled(Filled(c, k), k) == Filled(c, k)
  {
  }

  /** Some key pair meets the laws, reads short blocks as Go does, and has ciphertexts with a leading zero. */
  lemma CipherLawsCanHold()
    ensures MatchingKeys(PADDING) && PADDING.size > 66 && ReadsAsNumber(PADDING)
    ensures forall m: string :: |m| <= 190 ==> PADDING.encrypt(m, 0).Some? && PADDING.encrypt(m, 0).value[0] == '\0'
  {
    forall m: string, seed: nat | |m| <= 190 ensures Unpad(PadWith(m, seed).value) == Some(m) {
      var c := PadWith(m, seed).value;
      UnpaddedOfPadded(m, 255);
      assert Filled(c, 256) == c && c[1..] == Padded(m, 255);
    }
    forall c: string | |c| <= 256 ensures Unpad(c) == Unpad(Filled(c, 256)) {
      FilledTwice(c, 256);
    }
  }
}
