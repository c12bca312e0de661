/** `convert_value`: the heuristic that types one CSV cell as an integer, a float or text. */
module Coercion {
  import opened Decimal
  import opened Values

  /** An all-digit cell becomes the integer it spells; otherwise text `float()` accepts
      becomes a float; anything else stays text. */
  function Coerce(s: string, ff: FloatFormat): (v: Value)
    ensures v.Int? <==> IsDigitString(s)
    ensures v.Int? ==> v.i >= 0 && v.i == DigitsValue(s)
    ensures v.Float? <==> !IsDigitString(s) && ff.accepts(s)
    ensures v.Float? ==> v.text == s
    ensures v.Str? ==> v.s == s
  {
    if IsDigitString(s) then Int(DigitsValue(s))
    else if ff.accepts(s) then Float(s)
    else Str(s)
  }

  /** The canonical numeral of any natural number coerces back to that number, whatever
      `float()` would have said about it. */
  lemma CoerceNumeral(n: nat, ff: FloatFormat)
    ensures Coerce(ShowNat(n), ff) == Int(n)
  {
    ValueOfShow(n);
  }

  /** The integer branch has priority: a digit string is never a float or text, even
      though `float()` accepts it too. */
  lemma IntegerPriority(s: string, ff: FloatFormat)
    requires IsDigitString(s)
    ensures !Coerce(s, ff).Float? && !Coerce(s, ff).Str?
    ensures Coerce(s, ff) == Coerce(s, FloatFormat(_ => true, ff.show))
  {
  }

  /** A signed numeral is not all-digit, so it is never an integer; given the float
      syntax facts, a negative numeral becomes a float of its own text. */
  lemma SignedNeverInt(sign: char, d: string, ff: FloatFormat)
    requires sign == '-' || sign == '+'
    ensures !Coerce([sign] + d, ff).Int?
    ensures FloatSyntaxFacts(ff) && sign == '-' && IsDigitString(d) ==>
              Coerce([sign] + d, ff) == Float([sign] + d)
  {
    assert !IsDigit(([sign] + d)[0]);
  }

  /** Text that is neither all-digit nor a float comes back unchanged; given the float
      syntax facts this includes the empty cell. */
  lemma UnparsableUnchanged(s: string, ff: FloatFormat)
    ensures !IsDigitString(s) && !ff.accepts(s) ==> Coerce(s, ff) == Str(s)
    ensures FloatSyntaxFacts(ff) ==> Coerce("", ff) == Str("")
  {
  }

  /** Writing a coerced cell back as CSV text: a digit string loses only its redundant
      leading zeros, a float is re-rendered, and any other text is reproduced exactly. */
  lemma {:induction false} RenderCoerce(s: string, ff: FloatFormat)
    ensures IsDigitString(s) ==> Render(Coerce(s, ff), ff) == StripZeros(s)
    ensures Canonical(s) ==> Render(Coerce(s, ff), ff) == s
    ensures !IsDigitString(s) && ff.accepts(s) ==> Render(Coerce(s, ff), ff) == ff.show(s)
    ensures !IsDigitString(s) && !ff.accepts(s) ==> Render(Coerce(s, ff), ff) == s
  {
    if IsDigitString(s) {
      ShowOfValue(s);
      StripZerosCanonical(s);
    }
  }
}
