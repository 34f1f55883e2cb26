/** JavaScript text as the application sees it.
    A JavaScript string is a sequence of UTF-16 code units; regular
    expressions without the `u` flag, `length` and indexing all work on
    code units, so that is what the model uses. */
module JsText {

  /** One UTF-16 code unit. */
  newtype CodeUnit = x: int | 0 <= x < 0x1_0000

  type JsString = seq<CodeUnit>

  /** The code unit of the ASCII digit `0`. */
  const DIGIT_ZERO: CodeUnit := 0x30

  /** What `\d` matches in a regular expression without the `u` flag:
      the ten ASCII digits and nothing else. */
  predicate IsAsciiDigit(c: CodeUnit) {
    0x30 <= c <= 0x39
  }

  predicate AllAsciiDigits(s: JsString) {
    forall i :: 0 <= i < |s| ==> IsAsciiDigit(s[i])
  }

  /** The ASCII digit for `d`. */
  function DigitFor(d: nat): (c: CodeUnit)
    requires d < 10
    ensures IsAsciiDigit(c) && (c - DIGIT_ZERO) as int == d
  {
    (0x30 + d) as CodeUnit
  }

  /** The decimal text of a non-negative integral Number, as `String(n)` or a
      template-literal interpolation renders it (no sign, no leading zero). */
  function Decimal(n: nat): (s: JsString)
    ensures |s| >= 1 && AllAsciiDigits(s)
    ensures s[0] == DIGIT_ZERO ==> n == 0 && s == [DIGIT_ZERO]
    decreases n
  {
    if n < 10 then [DigitFor(n)] else Decimal(n / 10) + [DigitFor(n % 10)]
  }

  /** The number a string of ASCII digits denotes. */
  function DecimalValue(s: JsString): nat
    requires AllAsciiDigits(s)
    decreases |s|
  {
    if s == [] then 0
    else 10 * DecimalValue(s[..|s| - 1]) + (s[|s| - 1] - DIGIT_ZERO) as int
  }

  /** Reading back the decimal text of `n` gives `n`. */
  lemma {:induction false} DecimalRoundTrip(n: nat)
    ensures DecimalValue(Decimal(n)) == n
    decreases n
  {
    if n >= 10 {
      var s := Decimal(n);
      assert s[..|s| - 1] == Decimal(n / 10);
      DecimalRoundTrip(n / 10);
    }
  }

  /** Different numbers render as different texts. */
  lemma DecimalInjective(m: nat, n: nat)
    ensures Decimal(m) == Decimal(n) <==> m == n
  {
    if Decimal(m) == Decimal(n) {
      DecimalRoundTrip(m);
      DecimalRoundTrip(n);
    }
  }
}
