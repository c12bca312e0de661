/** Scalar values held by the structured documents, and their CSV text. */
module Values {
  import opened Decimal

  /** A flat document value: an integer, a float (carried as the text it was read from,
      so no floating-point arithmetic enters the model) or a string. */
  datatype Value = Int(i: int) | Float(text: string) | Str(s: string)

  /** Python's float handling, kept abstract: `accepts(t)` holds when `float(t)` succeeds,
      and `show(t)` is the text `str()` writes for the float read from `t`. */
  datatype FloatFormat = FloatFormat(accepts: string -> bool, show: string -> string)

  /** The two facts about `float()` the conversion relies on: it rejects the empty string,
      and it accepts a minus sign followed by ASCII digits. */
  ghost predicate FloatSyntaxFacts(ff: FloatFormat) {
    && !ff.accepts("")
    && forall d :: IsDigitString(d) ==> ff.accepts("-" + d)
  }

  /** The decimal text `str()` writes for an integer: its canonical numeral, after a minus
      sign when it is negative. */
  function ShowInt(i: int): (s: string)
    ensures i >= 0 ==> Canonical(s) && DigitsValue(s) == i
    ensures i < 0 ==> |s| > 1 && s[0] == '-' && Canonical(s[1..]) && DigitsValue(s[1..]) == -i
  {
    ValueOfShow(if i < 0 then -i else i);
    if i < 0 then "-" + ShowNat(-i) else ShowNat(i)
  }

  /** The CSV cell text the writer produces for a value. */
  function Render(v: Value, ff: FloatFormat): (r: string)
    ensures v.Int? && v.i >= 0 ==> Canonical(r) && DigitsValue(r) == v.i
    ensures v.Int? && v.i < 0 ==> |r| > 1 && r[0] == '-' && Canonical(r[1..]) && DigitsValue(r[1..]) == -v.i
    ensures v.Float? ==> r == ff.show(v.text)
    ensures v.Str? ==> r == v.s
  {
    match v
    case Int(i) => ShowInt(i)
    case Float(t) => ff.show(t)
    case Str(s) => s
  }
}
