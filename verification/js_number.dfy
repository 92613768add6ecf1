/**
 Integral JavaScript numbers: the values `Math.floor` can return when it is
 applied to the quotient of two integers, and the text a template literal
 (`${n}`) produces for them.
 */
module JsNumber {
  import opened Wrappers

  /** An integer-valued JavaScript number, or one of the non-finite values a
      division by zero produces. */
  datatype IntegralNumber = Finite(value: int) | PositiveInfinity | NegativeInfinity | NaN

  /** `Math.floor(a / b)` for integers `a` and `b`. A zero divisor gives
      `Infinity`, `-Infinity` or `NaN` as IEEE division does; otherwise the
      result is the largest integer not above the exact quotient. */
  function FloorOfQuotient(a: int, b: int): (r: IntegralNumber)
    ensures b == 0 && a > 0 ==> r == PositiveInfinity
    ensures b == 0 && a < 0 ==> r == NegativeInfinity
    ensures b == 0 && a == 0 ==> r == NaN
    ensures b > 0 ==> r.Finite? && r.value * b <= a < r.value * b + b
    ensures b < 0 ==> r.Finite? && r.value * b + b < a <= r.value * b
  {
    if b > 0 then Finite(a / b)
    else if b < 0 then Finite((-a) / (-b))
    else if a > 0 then PositiveInfinity
    else if a < 0 then NegativeInfinity
    else NaN
  }

  predicate IsDigit(c: char) {
    '0' <= c <= '9'
  }

  predicate AllDigits(s: string) {
    forall i :: 0 <= i < |s| ==> IsDigit(s[i])
  }

  function DigitValue(c: char): (d: nat)
    requires IsDigit(c)
    ensures d < 10
  {
    c as int - '0' as int
  }

  function DigitChar(d: nat): (c: char)
    requires d < 10
    ensures IsDigit(c) && DigitValue(c) == d
  {
    ('0' as int + d) as char
  }

  /** Decimal digits of `n`, most significant first, without leading zeros. */
  function NatToText(n: nat): (s: string)
    ensures |s| > 0 && AllDigits(s)
    ensures s[0] == '0' ==> n == 0
    decreases n
  {
    if n < 10 then [DigitChar(n)] else NatToText(n / 10) + [DigitChar(n % 10)]
  }

  /** The value of a run of decimal digits. */
  function DigitsValue(s: string): nat
    requires AllDigits(s)
    decreases |s|
  {
    if |s| == 0 then 0 else DigitsValue(s[..|s| - 1]) * 10 + DigitValue(s[|s| - 1])
  }

  lemma {:induction false} DigitsValueOfNatToText(n: nat)
    ensures DigitsValue(NatToText(n)) == n
    decreases n
  {
    if n >= 10 {
      var s := NatToText(n);
      var prefix := NatToText(n / 10);
      assert s == prefix + [DigitChar(n % 10)];
      assert s[..|s| - 1] == prefix;
      DigitsValueOfNatToText(n / 10);
    }
  }

  /** The text of `${x}` for an integral number `x`. */
  function ToText(x: IntegralNumber): (s: string)
    ensures |s| > 0
  {
    match x
    case Finite(n) => if n < 0 then "-" + NatToText(-n) else NatToText(n)
    case PositiveInfinity => "Infinity"
    case NegativeInfinity => "-Infinity"
    case NaN => "NaN"
  }

  /** Reads back the text `ToText` writes; `None` for any other text. */
  function Parse(s: string): (r: Option<IntegralNumber>)
  {
    if s == "Infinity" then Some(PositiveInfinity)
    else if s == "-Infinity" then Some(NegativeInfinity)
    else if s == "NaN" then Some(NaN)
    else if |s| > 1 && s[0] == '-' && AllDigits(s[1..]) then Some(Finite(-(DigitsValue(s[1..]) as int)))
    else if |s| > 0 && AllDigits(s) then Some(Finite(DigitsValue(s)))
    else None
  }

  /** The template-literal text of an integral number determines the number. */
  lemma ParseToText(x: IntegralNumber)
    ensures Parse(ToText(x)) == Some(x)
  {
    var s := ToText(x);
    if x.Finite? {
      if x.value < 0 {
        var digits := NatToText(-x.value);
        assert s == "-" + digits;
        assert s[1..] == digits;
        assert IsDigit(s[1]);
        assert s != "-Infinity" by { assert "-Infinity"[1] == 'I'; }
        DigitsValueOfNatToText(-x.value);
      } else {
        assert IsDigit(s[0]);
        assert s != "Infinity" by { assert "Infinity"[0] == 'I'; }
        assert s != "-Infinity" by { assert "-Infinity"[0] == '-'; }
        assert s != "NaN" by { assert "NaN"[0] == 'N'; }
        DigitsValueOfNatToText(x.value);
      }
    }
  }

  /** Distinct integral numbers have distinct template-literal texts. */
  lemma ToTextInjective(x: IntegralNumber, y: IntegralNumber)
    ensures ToText(x) == ToText(y) <==> x == y
  {
    ParseToText(x);
    ParseToText(y);
  }
}
