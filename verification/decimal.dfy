/** ASCII decimal numerals: the digit test behind `str.isdigit`, the value `int()` reads
    from a digit string, and the canonical numeral `str()` writes for a natural number. */
module Decimal {

  predicate IsDigit(c: char) {
    '0' <= c <= '9'
  }

  /** Every character is an ASCII digit (the empty string qualifies). */
  predicate Digits(s: string) {
    forall i :: 0 <= i < |s| ==> IsDigit(s[i])
  }

  /** `s.isdigit()` restricted to ASCII: non-empty and digits only. */
  predicate IsDigitString(s: string) {
    |s| > 0 && Digits(s)
  }

  /** A numeral without redundant leading zeros ("0" itself is canonical). */
  predicate Canonical(s: string) {
    IsDigitString(s) && (|s| == 1 || s[0] != '0')
  }

  function DigitValue(c: char): (d: nat)
    requires IsDigit(c)
    ensures d < 10
  {
    c as int - '0' as int
  }

  function DigitChar(d: nat): (c: char)
    requires d < 10
    ensures IsDigit(c) && DigitValue(c) == d
  {
    ('0' as int + d) as char
  }

  /** Ten to the power `k`. */
  function Pow10(k: nat): (p: nat)
    ensures p > 0
  {
    if k == 0 then 1 else 10 * Pow10(k - 1)
  }

  /** The number a digit string denotes in base 10, read most significant digit first:
      below ten to the power of its length, and at least ten to the power of one less
      when its leading digit is not zero. */
  function DigitsValue(s: string): (r: nat)
    requires Digits(s)
    ensures r < Pow10(|s|)
    ensures |s| > 0 && s[0] != '0' ==> Pow10(|s| - 1) <= r
  {
    if |s| == 0 then 0
    else DigitsValue(s[..|s| - 1]) * 10 + DigitValue(s[|s| - 1])
  }

  /** The canonical decimal numeral of `n`: it has exactly as many digits as `n` needs. */
  function ShowNat(n: nat): (s: string)
    ensures Canonical(s)
    ensures n < Pow10(|s|)
    ensures n > 0 ==> Pow10(|s| - 1) <= n
  {
    if n < 10 then [DigitChar(n)]
    else ShowNat(n / 10) + [DigitChar(n % 10)]
  }

  /** `s` with its redundant leading zeros removed. */
  function StripZeros(s: string): string
  {
    if |s| > 1 && s[0] == '0' then StripZeros(s[1..]) else s
  }

  /** Reading back the numeral of `n` gives `n`. */
  lemma {:induction false} ValueOfShow(n: nat)
    ensures DigitsValue(ShowNat(n)) == n
  {
    if n >= 10 {
      var s := ShowNat(n);
      assert s[..|s| - 1] == ShowNat(n / 10);
      ValueOfShow(n / 10);
    }
  }

  /** A non-empty digit string that starts with a non-zero digit denotes a positive number. */
  lemma {:induction false} LeadingNonZeroIsPositive(s: string)
    requires IsDigitString(s) && s[0] != '0'
    ensures DigitsValue(s) > 0
  {
    if |s| > 1 {
      LeadingNonZeroIsPositive(s[..|s| - 1]);
    }
  }

  /** A leading zero does not change the value of a digit string. */
  lemma {:induction false} LeadingZeroIgnored(s: string)
    requires Digits(s)
    ensures DigitsValue(['0'] + s) == DigitsValue(s)
  {
    if |s| > 0 {
      var t := ['0'] + s;
      assert t[..|t| - 1] == ['0'] + s[..|s| - 1];
      LeadingZeroIgnored(s[..|s| - 1]);
    }
  }

  /** A canonical numeral is the numeral of its own value. */
  lemma {:induction false} ShowOfCanonical(s: string)
    requires Canonical(s)
    ensures ShowNat(DigitsValue(s)) == s
  {
    if |s| > 1 {
      var p := s[..|s| - 1];
      LeadingNonZeroIsPositive(p);
      ShowOfCanonical(p);
      var v := DigitsValue(s);
      assert v / 10 == DigitsValue(p) && v % 10 == DigitValue(s[|s| - 1]);
      assert s == p + [s[|s| - 1]];
    }
  }

  /** Reading a digit string and writing its value back drops exactly the redundant leading zeros. */
  lemma {:induction false} ShowOfValue(s: string)
    requires IsDigitString(s)
    ensures ShowNat(DigitsValue(s)) == StripZeros(s)
  {
    if |s| > 1 && s[0] == '0' {
      assert s == ['0'] + s[1..];
      LeadingZeroIgnored(s[1..]);
      ShowOfValue(s[1..]);
    } else {
      ShowOfCanonical(s);
    }
  }

  /** Stripping leading zeros yields a canonical numeral; what it removes is a prefix of
      zeros, so the result is a suffix of the input. */
  lemma {:induction false} StripZerosCanonical(s: string)
    requires IsDigitString(s)
    ensures Canonical(StripZeros(s))
    ensures StripZeros(s) == s <==> Canonical(s)
    ensures |StripZeros(s)| <= |s| && StripZeros(s) == s[|s| - |StripZeros(s)|..]
    ensures forall i :: 0 <= i < |s| - |StripZeros(s)| ==> s[i] == '0'
  {
    if |s| > 1 && s[0] == '0' {
      StripZerosCanonical(s[1..]);
      var t := StripZeros(s[1..]);
      assert s[1..][|s| - 1 - |t|..] == s[|s| - |t|..];
      forall i | 0 <= i < |s| - |t| ensures s[i] == '0' {
        if i > 0 { assert s[i] == s[1..][i - 1]; }
      }
    }
  }
}
