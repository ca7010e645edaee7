/** Decoding of the calculator's unsigned decimal numbers.

    Both the number tokens of an input line (Calc.cpp, Convert) and the elements of a
    matrix literal (CMatrix.cpp, string constructor) are decoded by the same manual
    fixed-point scheme: every digit is accumulated into one integer, a '.' (re)starts a
    power-of-ten divider, and the integer is divided by that divider at the end. */
module Numbers {

  /** A character that may appear in a number: a decimal digit or '.'
      (`Calc::isDigit` and `isADigit` are the same test). */
  predicate IsDigit(c: char) {
    ('0' <= c <= '9') || c == '.'
  }

  predicate AllDigits(t: string) {
    forall i :: 0 <= i < |t| ==> IsDigit(t[i])
  }

  function DigitValue(c: char): (d: nat)
    requires '0' <= c <= '9'
    ensures d <= 9
  {
    c as int - '0' as int
  }

  function Pow10(n: nat): (p: nat)
    ensures p >= 1
  {
    if n == 0 then 1 else 10 * Pow10(n - 1)
  }

  /** The integer spelled by the decimal digits of t, every '.' ignored. */
  function Mantissa(t: string): nat
    requires AllDigits(t)
  {
    if t == [] then 0
    else if t[|t| - 1] == '.' then Mantissa(t[..|t| - 1])
    else 10 * Mantissa(t[..|t| - 1]) + DigitValue(t[|t| - 1])
  }

  /** The number of digits after the last '.' of t, or None when t has no '.'. */
  function Fraction(t: string): DotInfo
  {
    if t == [] then NoDot
    else if t[|t| - 1] == '.' then Dot(0)
    else match Fraction(t[..|t| - 1])
      case NoDot => NoDot
      case Dot(n) => Dot(n + 1)
  }

  datatype DotInfo = NoDot | Dot(digitsAfter: nat)

  /** The value the calculator gives a digit run: its digits read as one integer, divided by
      ten to the number of digits after the last '.'. */
  function DecimalValue(t: string): real
    requires AllDigits(t)
  {
    match Fraction(t)
    case NoDot => Mantissa(t) as real
    case Dot(n) => Mantissa(t) as real / Pow10(n) as real
  }

  /** Decodes the digit run s[i..j] the way Calc.cpp:374-406 does: ndata accumulates the
      digits, decpwr is 0 until a '.' is met, is reset to 1 by every '.', and is multiplied by
      10 for each later digit; the sum is divided by decpwr when it is positive. */
  method DecodeNumber(s: string, i: nat, j: nat) returns (v: real)
    requires i <= j <= |s|
    requires AllDigits(s[i..j])
    ensures v == DecimalValue(s[i..j])
  {
    v := 0.0;
    var decpwr: nat := 0;
    var k := i;
    while k < j
      invariant i <= k <= j
      invariant AllDigits(s[i..k])
      invariant v == Mantissa(s[i..k]) as real
      invariant decpwr == match Fraction(s[i..k]) case NoDot => 0 case Dot(n) => Pow10(n)
    {
      assert s[i..k + 1][..k - i] == s[i..k];
      assert s[i..k + 1][k - i] == s[k];
      if s[k] == '.' {
        decpwr := 1;
      } else {
        if decpwr > 0 {
          decpwr := decpwr * 10;
        }
        v := v * 10.0 + DigitValue(s[k]) as real;
      }
      k := k + 1;
    }
    if decpwr > 0 {
      v := v / decpwr as real;
    }
  }

  /** A run without '.' decodes to the integer it spells. */
  lemma {:induction false} WholeNumber(t: string)
    requires AllDigits(t)
    requires forall i :: 0 <= i < |t| ==> t[i] != '.'
    ensures Fraction(t) == NoDot
    ensures DecimalValue(t) == Mantissa(t) as real
  {
    if t != [] {
      WholeNumber(t[..|t| - 1]);
    }
  }

  /** Appending a digit after a '.' multiplies the divider by ten. */
  lemma {:induction false} FractionGrows(t: string, c: char)
    requires AllDigits(t) && '0' <= c <= '9'
    ensures Fraction(t + [c]) == match Fraction(t) case NoDot => NoDot case Dot(n) => Dot(n + 1)
    ensures Mantissa(t + [c]) == 10 * Mantissa(t) + DigitValue(c)
  {
    assert (t + [c])[..|t|] == t;
  }
}
