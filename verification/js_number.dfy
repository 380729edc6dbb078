/**
 JavaScript's `Number(text)` on the strings the forms hold, and the tests the
 guards apply to its result (`Number.isNaN`, `Number.isFinite`, `< 0`).
 Floating point itself is not modelled: a finite result is a real number.
 */
module JsNumber {
  import opened JsText

  /** An IEEE double as the guards see it. */
  datatype NumberValue = NaN | PosInfinity | NegInfinity | Finite(value: real)

  /**
   The StringNumericLiteral grammar on a trimmed, non-blank text: decimal,
   hexadecimal, binary or octal literals, `Infinity` with an optional sign, and
   `NaN` for anything else. The model leaves the grammar to this parameter.
   */
  type NumericLiteral = string -> NumberValue

  /** `Number(text)`: surrounding whitespace is ignored and a blank text is 0. */
  function ToNumber(text: string, literal: NumericLiteral): (r: NumberValue)
    ensures IsBlank(text) ==> r == Finite(0.0)
    ensures !IsBlank(text) ==> r == literal(Trim(text))
  {
    var t := Trim(text);
    if t == [] then Finite(0.0) else literal(t)
  }

  /** Only the trimmed text matters. */
  lemma ToNumberOfTrim(text: string, literal: NumericLiteral)
    ensures ToNumber(Trim(text), literal) == ToNumber(text, literal)
  {
    TrimIdempotent(text);
  }

  /** `Number.isNaN(n)`. */
  predicate IsNaN(n: NumberValue) {
    n.NaN?
  }

  /** `Number.isFinite(n)`. */
  predicate IsFinite(n: NumberValue) {
    n.Finite?
  }

  /** `n < 0`, which is false for `NaN`. */
  predicate IsNegative(n: NumberValue) {
    n.NegInfinity? || (n.Finite? && n.value < 0.0)
  }
}
