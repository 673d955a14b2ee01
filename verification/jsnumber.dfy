/**
 * JavaScript's `Number(string)` coercion (StringToNumber of ECMAScript)
 * and the comparisons the validators apply to its result. Finite values are
 * kept as exact reals rather than IEEE-754 doubles.
 */
module JsNumber {
  import opened Wrappers
  import opened Text

  /** A JavaScript number value. */
  datatype Num = NaN | Infinity(negative: bool) | Finite(value: real)

  /** `!!n`: NaN and zero are falsy, every other number is truthy. */
  predicate Truthy(n: Num) {
    match n
    case NaN => false
    case Infinity(_) => true
    case Finite(v) => v != 0.0
  }

  /** `n < x`; every comparison with NaN is false. */
  predicate LessThan(n: Num, x: real) {
    match n
    case NaN => false
    case Infinity(neg) => neg
    case Finite(v) => v < x
  }

  /** `n > x`; every comparison with NaN is false. */
  predicate GreaterThan(n: Num, x: real) {
    match n
    case NaN => false
    case Infinity(neg) => !neg
    case Finite(v) => v > x
  }

  predicate IsInteger(v: real) {
    v.Floor as real == v
  }

  function Negate(n: Num): Num {
    match n
    case NaN => NaN
    case Infinity(neg) => Infinity(!neg)
    case Finite(v) => Finite(-v)
  }

  /** The value of `c` as a digit in `radix` (2, 8, 10 or 16), if it is one. */
  function RadixDigit(c: char, radix: nat): (r: Option<nat>)
    ensures r.Some? ==> r.value < radix
  {
    var v :=
      if '0' <= c <= '9' then c as int - '0' as int
      else if 'a' <= c <= 'f' then c as int - 'a' as int + 10
      else if 'A' <= c <= 'F' then c as int - 'A' as int + 10
      else 16;
    if v < radix then Some(v) else None
  }

  predicate AllRadixDigits(s: string, radix: nat) {
    forall i | 0 <= i < |s| :: RadixDigit(s[i], radix).Some?
  }

  /** The value of a numeral written in `radix`, most significant digit first. */
  function DigitsValue(s: string, radix: nat): nat
    requires AllRadixDigits(s, radix)
  {
    if s == [] then 0
    else DigitsValue(s[..|s| - 1], radix) * radix + RadixDigit(s[|s| - 1], radix).value
  }

  function Pow10(n: nat): (p: nat)
    ensures p >= 1
  {
    if n == 0 then 1 else 10 * Pow10(n - 1)
  }

  /** `v * 10^e` for an integer exponent of either sign. */
  function Scale(v: real, e: int): real {
    if e >= 0 then v * Pow10(e) as real else v / Pow10(-e) as real
  }

  /** The first `e` or `E` of a decimal literal: where its exponent part begins. */
  function ExponentMark(u: string): (r: Option<nat>)
    ensures r.Some? ==> r.value < |u| && (u[r.value] == 'e' || u[r.value] == 'E')
    ensures r.None? ==> forall i | 0 <= i < |u| :: u[i] != 'e' && u[i] != 'E'
  {
    if u == [] then None
    else if u[0] == 'e' || u[0] == 'E' then Some(0)
    else match ExponentMark(u[1..])
      case Some(i) => Some(i + 1)
      case None => None
  }

  /** The exponent of a decimal literal: an optional sign and at least one digit. */
  function Exponent(e: string): Option<int> {
    var negative := e != [] && e[0] == '-';
    var digits := if e != [] && (e[0] == '+' || e[0] == '-') then e[1..] else e;
    if digits != [] && AllRadixDigits(digits, 10) then
      var v: int := DigitsValue(digits, 10);
      Some(if negative then -v else v)
    else None
  }

  /**
   * An unsigned decimal literal: `Infinity`, or digits with an optional
   * fraction (at least one digit in all) and an optional exponent.
   */
  function UnsignedDecimal(u: string): Num {
    if u == "Infinity" then Infinity(false)
    else
      var mark := ExponentMark(u);
      var mantissa := if mark.Some? then u[..mark.value] else u;
      var exponent := if mark.Some? then Exponent(u[mark.value + 1..]) else Some(0);
      var dot := IndexOf(mantissa, ".");
      var whole := if dot.Some? then mantissa[..dot.value] else mantissa;
      var fraction := if dot.Some? then mantissa[dot.value + 1..] else [];
      if exponent.Some? && |whole| + |fraction| > 0
         && AllRadixDigits(whole, 10) && AllRadixDigits(fraction, 10)
      then
        var v := DigitsValue(whole, 10) as real
                 + DigitsValue(fraction, 10) as real / Pow10(|fraction|) as real;
        Finite(Scale(v, exponent.value))
      else NaN
  }

  /** A `0x`, `0o` or `0b` literal's digits: unsigned, at least one digit. */
  function NonDecimal(digits: string, radix: nat): Num {
    if digits != [] && AllRadixDigits(digits, radix) then Finite(DigitsValue(digits, radix) as real)
    else NaN
  }

  /**
   * `Number(s)`: surrounding white space is ignored, the empty string is 0,
   * a hexadecimal, octal or binary literal takes no sign, and anything that
   * is not a numeral is NaN.
   */
  function ToNumber(s: string): Num {
    var t := Trim(s);
    if t == [] then Finite(0.0)
    else if |t| >= 2 && t[0] == '0' && (t[1] == 'x' || t[1] == 'X') then NonDecimal(t[2..], 16)
    else if |t| >= 2 && t[0] == '0' && (t[1] == 'o' || t[1] == 'O') then NonDecimal(t[2..], 8)
    else if |t| >= 2 && t[0] == '0' && (t[1] == 'b' || t[1] == 'B') then NonDecimal(t[2..], 2)
    else if t[0] == '+' then UnsignedDecimal(t[1..])
    else if t[0] == '-' then Negate(UnsignedDecimal(t[1..]))
    else UnsignedDecimal(t)
  }

  // ---------------------------------------------------------------------
  // Decimal numerals and their values
  // ---------------------------------------------------------------------

  function DigitChar(d: nat): (c: char)
    requires d < 10
    ensures IsAsciiDigit(c) && DigitValue(c) == d
  {
    "0123456789"[d]
  }

  /** `String(n)` for a natural number: its decimal numeral, without leading zeros. */
  function DecimalString(n: nat): (s: string)
    ensures s != []
    ensures forall i | 0 <= i < |s| :: IsAsciiDigit(s[i])
  {
    if n < 10 then [DigitChar(n)] else DecimalString(n / 10) + [DigitChar(n % 10)]
  }

  lemma DecimalDigitsAreRadixDigits(s: string)
    requires forall i | 0 <= i < |s| :: IsAsciiDigit(s[i])
    ensures AllRadixDigits(s, 10)
    ensures forall i | 0 <= i < |s| :: RadixDigit(s[i], 10) == Some(DigitValue(s[i]))
  {
  }

  /** Reading back the numeral of `n` gives `n`. */
  lemma {:induction false} DecimalStringValue(n: nat)
    ensures AllRadixDigits(DecimalString(n), 10)
    ensures DigitsValue(DecimalString(n), 10) == n
    decreases n
  {
    var s := DecimalString(n);
    DecimalDigitsAreRadixDigits(s);
    if n >= 10 {
      DecimalStringValue(n / 10);
      assert s[..|s| - 1] == DecimalString(n / 10);
    }
  }

  /** A string of ASCII digits has no exponent mark, no point and no surrounding space. */
  lemma DigitStringShape(s: string)
    requires forall i | 0 <= i < |s| :: IsAsciiDigit(s[i])
    ensures Trim(s) == s
    ensures ExponentMark(s) == None
    ensures IndexOf(s, ".") == None
  {
    DigitsTrimmed(s);
    NoExponentMark(s);
    NoPoint(s);
  }

  lemma DigitsTrimmed(s: string)
    requires forall i | 0 <= i < |s| :: IsAsciiDigit(s[i])
    ensures Trim(s) == s
  {
    if s != [] {
      assert IsAsciiDigit(s[0]) && IsAsciiDigit(s[|s| - 1]);
    }
    TrimUnchanged(s);
  }

  lemma NoExponentMark(s: string)
    requires forall i | 0 <= i < |s| :: IsAsciiDigit(s[i])
    ensures ExponentMark(s) == None
  {
    forall i | 0 <= i < |s|
      ensures s[i] != 'e' && s[i] != 'E'
    {
      assert IsAsciiDigit(s[i]);
    }
  }

  lemma NoPoint(s: string)
    requires forall i | 0 <= i < |s| :: IsAsciiDigit(s[i])
    ensures IndexOf(s, ".") == None
  {
    forall i | 0 <= i < |s|
      ensures s[i] != '.'
    {
      assert IsAsciiDigit(s[i]);
    }
    IndexOfCharAbsent(s, '.');
  }

  /** A literal with neither exponent nor point denotes its digits' value. */
  lemma PlainDecimalValue(s: string)
    requires s != [] && s != "Infinity"
    requires AllRadixDigits(s, 10)
    requires ExponentMark(s) == None && IndexOf(s, ".") == None
    ensures UnsignedDecimal(s) == Finite(DigitsValue(s, 10) as real)
  {
    assert AllRadixDigits([], 10);
    assert DigitsValue([], 10) == 0;
  }

  /** An unsigned string of digits is a decimal literal without fraction or exponent. */
  lemma UnsignedDigitString(s: string)
    requires s != []
    requires forall i | 0 <= i < |s| :: IsAsciiDigit(s[i])
    ensures AllRadixDigits(s, 10)
    ensures UnsignedDecimal(s) == Finite(DigitsValue(s, 10) as real)
  {
    assert s != "Infinity" by {
      assert IsAsciiDigit(s[0]);
    }
    assert ExponentMark(s) == None && IndexOf(s, ".") == None by {
      DigitStringShape(s);
    }
    DecimalDigitsAreRadixDigits(s);
    PlainDecimalValue(s);
  }

  /** A trimmed numeral that starts with two digits is read as an unsigned decimal literal. */
  lemma UnsignedNumeral(t: string)
    requires Trim(t) == t && t != []
    requires IsAsciiDigit(t[0]) && (|t| >= 2 ==> IsAsciiDigit(t[1]))
    ensures ToNumber(t) == UnsignedDecimal(t)
  {
  }

  /**
   * `Number` reads a non-empty string of ASCII digits as the integer it
   * denotes, whatever leading zeros it has.
   */
  lemma DigitStringNumber(s: string)
    requires s != []
    requires forall i | 0 <= i < |s| :: IsAsciiDigit(s[i])
    ensures AllRadixDigits(s, 10)
    ensures ToNumber(s) == Finite(DigitsValue(s, 10) as real)
  {
    DigitStringShape(s);
    UnsignedNumeral(s);
    UnsignedDigitString(s);
  }

  /** A non-empty run of ASCII digits, leading zeros allowed. */
  predicate IsNumeral(s: string) {
    s != [] && forall i | 0 <= i < |s| :: IsAsciiDigit(s[i])
  }

  function NumeralValue(s: string): nat
    requires IsNumeral(s)
  {
    DecimalDigitsAreRadixDigits(s);
    DigitsValue(s, 10)
  }

  /** `Number` reads a numeral as its value. */
  lemma NumeralNumber(s: string)
    requires IsNumeral(s)
    ensures ToNumber(s) == Finite(NumeralValue(s) as real)
  {
    DigitStringNumber(s);
  }

  /** `Number(String(n)) == n` for every natural number. */
  lemma DecimalRoundTrip(n: nat)
    ensures ToNumber(DecimalString(n)) == Finite(n as real)
  {
    DecimalStringValue(n);
    DigitStringNumber(DecimalString(n));
  }

  /** `Number("-" + String(n)) == -n`. */
  lemma NegativeDecimalRoundTrip(n: nat)
    ensures ToNumber("-" + DecimalString(n)) == Finite(-(n as real))
  {
    var s := DecimalString(n);
    var t := "-" + s;
    DecimalStringValue(n);
    assert t[1..] == s;
    assert !IsSpace(t[0]) && !IsSpace(t[|t| - 1]);
    TrimUnchanged(t);
    assert ToNumber(t) == Negate(UnsignedDecimal(s));
    UnsignedDigitString(s);
  }

  /** `Number` sees only the trimmed text. */
  lemma SameTrimSameNumber(a: string, b: string)
    requires Trim(a) == Trim(b)
    ensures ToNumber(a) == ToNumber(b)
  {
  }

  /** White space before a numeral does not change the number it denotes. */
  lemma LeadingSpaceIgnored(c: char, s: string)
    requires IsSpace(c)
    ensures ToNumber([c] + s) == ToNumber(s)
  {
    TrimLeadingSpace(c, s);
    SameTrimSameNumber([c] + s, s);
  }
}
