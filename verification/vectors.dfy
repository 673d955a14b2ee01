/**
 * The inputs of the validators' own test suite, with the verdicts the
 * model gives them.
 *
 * Each verdict is proved about a parameter that matches the input
 * character by character, so that the prover works on positions rather
 * than on the literal as a whole.
 */
module Vectors {
  import opened Text
  import opened TaxId

  /** `s` is `t`, character by character. */
  predicate Matches(s: string, t: string) {
    |s| == |t| && forall i | 0 <= i < |t| :: s[i] == t[i]
  }

  // ---------------------------------------------------------------------
  // Masked tax numbers
  // ---------------------------------------------------------------------

  /** A non-digit splits the digit extraction in two. */
  lemma DropSeparator(a: string, c: char, b: string)
    requires !IsAsciiDigit(c)
    ensures Digits(a + [c] + b) == Digits(a) + Digits(b)
  {
    DigitsAppend(a + [c], b);
    DigitsAppend(a, [c]);
    assert Digits([c]) == [];
    assert Digits(a + [c]) == Digits(a);
  }

  /** Cutting `s` at a non-digit splits its digit extraction in two. */
  lemma SplitAtSeparator(s: string, i: nat)
    requires i < |s| && !IsAsciiDigit(s[i])
    ensures Digits(s) == Digits(s[..i]) + Digits(s[i + 1..])
  {
    var a, c, b := s[..i], s[i], s[i + 1..];
    assert s == a + [c] + b;
    DropSeparator(a, c, b);
  }

  /** Three digits from position `i` on. */
  predicate ThreeDigits(s: string, i: nat)
    requires i + 3 <= |s|
  {
    IsAsciiDigit(s[i]) && IsAsciiDigit(s[i + 1]) && IsAsciiDigit(s[i + 2])
  }

  /** A CPF written with its mask, `###.###.###-##`. */
  predicate CpfMask(s: string) {
    |s| == 14
    && ThreeDigits(s, 0) && s[3] == '.' && ThreeDigits(s, 4) && s[7] == '.' && ThreeDigits(s, 8)
    && s[11] == '-' && IsAsciiDigit(s[12]) && IsAsciiDigit(s[13])
  }

  /** A masked CPF is read as its four groups of digits, in order. */
  lemma CpfMaskGroups(s: string)
    requires CpfMask(s)
    ensures Digits(s) == s[..3] + s[4..7] + s[8..11] + s[12..]
  {
    var t := s[4..];
    var u := t[4..];
    SplitAtSeparator(s, 3);
    SplitAtSeparator(t, 3);
    SplitAtSeparator(u, 3);
    assert t[..3] == s[4..7] && u[..3] == s[8..11] && u[4..] == s[12..];
    DigitsOfDigits(s[..3]);
    DigitsOfDigits(s[4..7]);
    DigitsOfDigits(s[8..11]);
    DigitsOfDigits(s[12..]);
  }

  /** The `k`-th digit of a masked CPF stands at position `k + k / 3`. */
  lemma CpfMaskDigits(s: string)
    requires CpfMask(s)
    ensures |Digits(s)| == 11 && forall k | 0 <= k < 11 :: Digits(s)[k] == s[k + k / 3]
  {
    CpfMaskGroups(s);
  }

  /** A CNPJ written with its mask, `##.###.###/####-##`. */
  predicate CnpjMask(s: string) {
    |s| == 18
    && IsAsciiDigit(s[0]) && IsAsciiDigit(s[1]) && s[2] == '.' && ThreeDigits(s, 3) && s[6] == '.'
    && ThreeDigits(s, 7) && s[10] == '/' && ThreeDigits(s, 11) && IsAsciiDigit(s[14]) && s[15] == '-'
    && IsAsciiDigit(s[16]) && IsAsciiDigit(s[17])
  }

  lemma CnpjMaskHead(s: string)
    requires CnpjMask(s)
    ensures Digits(s[..10]) == s[..2] + s[3..6] + s[7..10]
  {
    var h := s[..10];
    var t := h[3..];
    SplitAtSeparator(h, 2);
    SplitAtSeparator(t, 3);
    assert h[..2] == s[..2] && t[..3] == s[3..6] && t[4..] == s[7..10];
    DigitsOfDigits(s[..2]);
    DigitsOfDigits(s[3..6]);
    DigitsOfDigits(s[7..10]);
  }

  lemma CnpjMaskTail(s: string)
    requires CnpjMask(s)
    ensures Digits(s[11..]) == s[11..15] + s[16..]
  {
    var t := s[11..];
    SplitAtSeparator(t, 4);
    assert t[..4] == s[11..15] && t[5..] == s[16..];
    DigitsOfDigits(s[11..15]);
    DigitsOfDigits(s[16..]);
  }

  /** Where the `k`-th digit of a masked CNPJ stands. */
  function CnpjPosition(k: nat): nat {
    if k < 2 then k else if k < 5 then k + 1 else if k < 8 then k + 2 else if k < 12 then k + 3 else k + 4
  }

  /** A masked CNPJ is read as its five groups of digits, in order. */
  lemma CnpjMaskGroups(s: string)
    requires CnpjMask(s)
    ensures Digits(s) == s[..2] + s[3..6] + s[7..10] + s[11..15] + s[16..]
  {
    SplitAtSeparator(s, 10);
    CnpjMaskHead(s);
    CnpjMaskTail(s);
  }

  /** The `k`-th digit of a masked CNPJ stands at `CnpjPosition(k)`. */
  lemma CnpjMaskDigits(s: string)
    requires CnpjMask(s)
    ensures |Digits(s)| == 14 && forall k | 0 <= k < 14 :: Digits(s)[k] == s[CnpjPosition(k)]
  {
    CnpjMaskGroups(s);
  }

  // ---------------------------------------------------------------------
  // Weighted sums by position
  // ---------------------------------------------------------------------

  /** The weighted sum of the digits from position `k` on. */
  function SumFrom(ds: string, weights: seq<int>, k: nat): int
    requires AllDigits(ds) && |ds| == |weights| && k <= |ds|
    decreases |ds| - k
  {
    if k == |ds| then 0 else DigitValue(ds[k]) * weights[k] + SumFrom(ds, weights, k + 1)
  }

  lemma {:induction false} SumFromIsWeighted(ds: string, weights: seq<int>, k: nat)
    requires AllDigits(ds) && |ds| == |weights| && k <= |ds|
    ensures SumFrom(ds, weights, k) == WeightedSum(ds[k..], weights[k..])
    decreases |ds| - k
  {
    if k < |ds| {
      SumFromIsWeighted(ds, weights, k + 1);
      assert ds[k..][1..] == ds[k + 1..];
      assert weights[k..][1..] == weights[k + 1..];
    }
  }

  lemma SumFromStart(ds: string, weights: seq<int>)
    requires AllDigits(ds) && |ds| == |weights|
    ensures SumFrom(ds, weights, 0) == WeightedSum(ds, weights)
  {
    SumFromIsWeighted(ds, weights, 0);
    assert ds[0..] == ds && weights[0..] == weights;
  }
  // ---------------------------------------------------------------------
  // CPF
  // ---------------------------------------------------------------------

  /** The CPF verdict, once the two weighted sums are known. */
  lemma CpfFromSums(s: string, first: int, second: int)
    requires |Digits(s)| == 11 && !AllSame(Digits(s))
    requires WeightedSum(Digits(s)[..9], CpfWeights1) == first
    requires WeightedSum(Digits(s)[..10], CpfWeights2) == second
    ensures ValidateCpf(s)
            <==> CompletesMod11(first, DigitValue(Digits(s)[9])) && CompletesMod11(second, DigitValue(Digits(s)[10]))
  {
    ValidateCpfIsCpf(s);
  }

  /** The digits of 123.456.789-09. */
  lemma CpfAcceptedDigits(s: string)
    requires Matches(s, "123.456.789-09")
    ensures |Digits(s)| == 11 && Matches(Digits(s)[..10], "1234567890") && Digits(s)[10] == '9'
  {
    CpfMaskDigits(s);
  }

  /** The first weighted sum of a CPF that starts 123456789. */
  lemma CpfAcceptedFirst(d: string)
    requires |d| == 11 && AllDigits(d) && Matches(d[..10], "1234567890")
    ensures WeightedSum(d[..9], CpfWeights1) == 210
  {
    var b := d[..9];
    assert SumFrom(b, CpfWeights1, 8) == 18;
    assert SumFrom(b, CpfWeights1, 7) == 42;
    assert SumFrom(b, CpfWeights1, 6) == 70;
    assert SumFrom(b, CpfWeights1, 5) == 100;
    assert SumFrom(b, CpfWeights1, 4) == 130;
    assert SumFrom(b, CpfWeights1, 3) == 158;
    assert SumFrom(b, CpfWeights1, 2) == 182;
    assert SumFrom(b, CpfWeights1, 1) == 200;
    assert SumFrom(b, CpfWeights1, 0) == 210;
    SumFromStart(b, CpfWeights1);
  }

  /** The second weighted sum of a CPF that starts 1234567890. */
  lemma CpfAcceptedSecond(d: string)
    requires |d| == 11 && AllDigits(d) && Matches(d[..10], "1234567890")
    ensures WeightedSum(d[..10], CpfWeights2) == 255
  {
    var b := d[..10];
    assert SumFrom(b, CpfWeights2, 9) == 0;
    assert SumFrom(b, CpfWeights2, 8) == 27;
    assert SumFrom(b, CpfWeights2, 7) == 59;
    assert SumFrom(b, CpfWeights2, 6) == 94;
    assert SumFrom(b, CpfWeights2, 5) == 130;
    assert SumFrom(b, CpfWeights2, 4) == 165;
    assert SumFrom(b, CpfWeights2, 3) == 197;
    assert SumFrom(b, CpfWeights2, 2) == 224;
    assert SumFrom(b, CpfWeights2, 1) == 244;
    assert SumFrom(b, CpfWeights2, 0) == 255;
    SumFromStart(b, CpfWeights2);
  }

  /** 123.456.789-09 is a CPF. */
  lemma CpfAccepted(s: string)
    requires Matches(s, "123.456.789-09")
    ensures ValidateCpf(s)
  {
    CpfAcceptedDigits(s);
    var d := Digits(s);
    CpfAcceptedFirst(d);
    CpfAcceptedSecond(d);
    assert d[..10][0] == d[0] && d[..10][1] == d[1] && d[..10][9] == d[9];
    CpfFromSums(s, 210, 255);
  }

  /** The digits of 121.121.121-12. */
  lemma CpfRefusedDigits(s: string)
    requires Matches(s, "121.121.121-12")
    ensures |Digits(s)| == 11 && Matches(Digits(s)[..10], "1211211211")
  {
    CpfMaskDigits(s);
  }

  /** The first weighted sum of a CPF that starts 121121121. */
  lemma CpfRefusedFirst(d: string)
    requires |d| == 11 && AllDigits(d) && Matches(d[..10], "1211211211")
    ensures WeightedSum(d[..9], CpfWeights1) == 72
  {
    var b := d[..9];
    assert SumFrom(b, CpfWeights1, 8) == 2;
    assert SumFrom(b, CpfWeights1, 7) == 8;
    assert SumFrom(b, CpfWeights1, 6) == 12;
    assert SumFrom(b, CpfWeights1, 5) == 17;
    assert SumFrom(b, CpfWeights1, 4) == 29;
    assert SumFrom(b, CpfWeights1, 3) == 36;
    assert SumFrom(b, CpfWeights1, 2) == 44;
    assert SumFrom(b, CpfWeights1, 1) == 62;
    assert SumFrom(b, CpfWeights1, 0) == 72;
    SumFromStart(b, CpfWeights1);
  }

  /** 121.121.121-12 fails the first check digit: its sum 72 asks for a 5. */
  lemma CpfRefused(s: string)
    requires Matches(s, "121.121.121-12")
    ensures !ValidateCpf(s)
  {
    CpfRefusedDigits(s);
    var d := Digits(s);
    CpfRefusedFirst(d);
    assert d[..10][0] == d[0] && d[..10][1] == d[1] && d[..10][9] == d[9];
    CpfFromSums(s, 72, WeightedSum(d[..10], CpfWeights2));
  }

  /** 111.111.111-11 repeats a single digit. */
  lemma CpfRepeated(s: string)
    requires Matches(s, "111.111.111-11")
    ensures !ValidateCpf(s)
  {
    CpfMaskDigits(s);
    assert AllSame(Digits(s));
    RepeatedDigitsRejected(s);
  }

  /** Fewer than eleven digits make no CPF, and fewer than fourteen no CNPJ. */
  lemma TooFewDigits(s: string)
    ensures |Digits(s)| < 11 ==> !ValidateCpf(s)
    ensures |Digits(s)| < 14 ==> !ValidateCnpj(s)
  {
  }

  /** Appending a digit adds one to the digits extracted. */
  lemma OneDigitShort(s: string, c: char)
    requires IsAsciiDigit(c)
    ensures |Digits(s + [c])| == |Digits(s)| + 1
  {
    DigitsAppend(s, [c]);
    assert [c][1..] == [];
  }

  /** 123.456.789-0 has ten digits. */
  lemma CpfShort(s: string)
    requires Matches(s, "123.456.789-0")
    ensures !ValidateCpf(s)
  {
    var t := s + ['9'];
    assert CpfMask(t);
    CpfMaskDigits(t);
    OneDigitShort(s, '9');
    TooFewDigits(s);
  }

  // ---------------------------------------------------------------------
  // CNPJ
  // ---------------------------------------------------------------------

  /** The CNPJ verdict, once the two weighted sums are known. */
  lemma CnpjFromSums(s: string, first: int, second: int)
    requires |Digits(s)| == 14 && !AllSame(Digits(s))
    requires WeightedSum(Digits(s)[..12], CnpjWeights1) == first
    requires WeightedSum(Digits(s)[..13], CnpjWeights2) == second
    ensures ValidateCnpj(s)
            <==> CompletesMod11(first, DigitValue(Digits(s)[12])) && CompletesMod11(second, DigitValue(Digits(s)[13]))
  {
    ValidateCnpjIsCnpj(s);
  }

  /** The digits of 12.345.678/0001-9 followed by a last digit `last`. */
  lemma CnpjSampleDigits(s: string, last: char)
    requires IsAsciiDigit(last) && Matches(s, "12.345.678/0001-9" + [last])
    ensures |Digits(s)| == 14 && Matches(Digits(s)[..13], "1234567800019") && Digits(s)[13] == last
  {
    CnpjMaskDigits(s);
  }

  /** The first weighted sum of a CNPJ that starts 123456780001. */
  lemma CnpjFirst(d: string)
    requires |d| == 14 && AllDigits(d) && Matches(d[..13], "1234567800019")
    ensures WeightedSum(d[..12], CnpjWeights1) == 222
  {
    var b := d[..12];
    assert SumFrom(b, CnpjWeights1, 11) == 2;
    assert SumFrom(b, CnpjWeights1, 10) == 2;
    assert SumFrom(b, CnpjWeights1, 9) == 2;
    assert SumFrom(b, CnpjWeights1, 8) == 2;
    assert SumFrom(b, CnpjWeights1, 7) == 50;
    assert SumFrom(b, CnpjWeights1, 6) == 99;
    assert SumFrom(b, CnpjWeights1, 5) == 147;
    assert SumFrom(b, CnpjWeights1, 4) == 192;
    assert SumFrom(b, CnpjWeights1, 3) == 200;
    assert SumFrom(b, CnpjWeights1, 2) == 209;
    assert SumFrom(b, CnpjWeights1, 1) == 217;
    assert SumFrom(b, CnpjWeights1, 0) == 222;
    SumFromStart(b, CnpjWeights1);
  }

  /** The second weighted sum of a CNPJ that starts 1234567800019. */
  lemma CnpjSecond(d: string)
    requires |d| == 14 && AllDigits(d) && Matches(d[..13], "1234567800019")
    ensures WeightedSum(d[..13], CnpjWeights2) == 237
  {
    var b := d[..13];
    assert SumFrom(b, CnpjWeights2, 12) == 18;
    assert SumFrom(b, CnpjWeights2, 11) == 21;
    assert SumFrom(b, CnpjWeights2, 10) == 21;
    assert SumFrom(b, CnpjWeights2, 9) == 21;
    assert SumFrom(b, CnpjWeights2, 8) == 21;
    assert SumFrom(b, CnpjWeights2, 7) == 77;
    assert SumFrom(b, CnpjWeights2, 6) == 133;
    assert SumFrom(b, CnpjWeights2, 5) == 187;
    assert SumFrom(b, CnpjWeights2, 4) == 197;
    assert SumFrom(b, CnpjWeights2, 3) == 209;
    assert SumFrom(b, CnpjWeights2, 2) == 221;
    assert SumFrom(b, CnpjWeights2, 1) == 231;
    assert SumFrom(b, CnpjWeights2, 0) == 237;
    SumFromStart(b, CnpjWeights2);
  }

  /** 12.345.678/0001-95 is a CNPJ. */
  lemma CnpjAccepted(s: string)
    requires Matches(s, "12.345.678/0001-95")
    ensures ValidateCnpj(s)
  {
    CnpjSampleDigits(s, '5');
    var d := Digits(s);
    CnpjFirst(d);
    CnpjSecond(d);
    assert d[..13][0] == d[0] && d[..13][1] == d[1] && d[..13][12] == d[12];
    CnpjFromSums(s, 222, 237);
  }

  /** 12.345.678/0001-96 fails the second check digit: its sum 237 asks for a 5. */
  lemma CnpjRefused(s: string)
    requires Matches(s, "12.345.678/0001-96")
    ensures !ValidateCnpj(s)
  {
    CnpjSampleDigits(s, '6');
    var d := Digits(s);
    CnpjFirst(d);
    CnpjSecond(d);
    assert d[..13][0] == d[0] && d[..13][1] == d[1] && d[..13][12] == d[12];
    CnpjFromSums(s, 222, 237);
  }

  /** 11.111.111/1111-11 repeats a single digit. */
  lemma CnpjRepeated(s: string)
    requires Matches(s, "11.111.111/1111-11")
    ensures !ValidateCnpj(s)
  {
    CnpjMaskDigits(s);
    assert AllSame(Digits(s));
    RepeatedDigitsRejected(s);
  }

  /** 12.345.678/0001-9 has thirteen digits. */
  lemma CnpjShort(s: string)
    requires Matches(s, "12.345.678/0001-9")
    ensures !ValidateCnpj(s)
  {
    var t := s + ['5'];
    assert CnpjMask(t);
    CnpjMaskDigits(t);
    OneDigitShort(s, '5');
    TooFewDigits(s);
  }

  /**
   * 123.456.789-09 is a CPF; 121.121.121-12 fails its check digits,
   * 111.111.111-11 repeats one digit, and 123.456.789-0 and the empty
   * string have too few digits.
   */
  lemma CpfVectors()
    ensures ValidateCpf("123.456.789-09")
    ensures !ValidateCpf("121.121.121-12")
    ensures !ValidateCpf("111.111.111-11")
    ensures !ValidateCpf("123.456.789-0")
    ensures !ValidateCpf("")
  {
    CpfAccepted("123.456.789-09");
    CpfRefused("121.121.121-12");
    CpfRepeated("111.111.111-11");
    CpfShort("123.456.789-0");
  }

  /**
   * 12.345.678/0001-95 is a CNPJ; 12.345.678/0001-96 fails its second
   * check digit, 11.111.111/1111-11 repeats one digit, and
   * 12.345.678/0001-9 and the empty string have too few digits.
   */
  lemma CnpjVectors()
    ensures ValidateCnpj("12.345.678/0001-95")
    ensures !ValidateCnpj("12.345.678/0001-96")
    ensures !ValidateCnpj("11.111.111/1111-11")
    ensures !ValidateCnpj("12.345.678/0001-9")
    ensures !ValidateCnpj("")
  {
    CnpjAccepted("12.345.678/0001-95");
    CnpjRefused("12.345.678/0001-96");
    CnpjRepeated("11.111.111/1111-11");
    CnpjShort("12.345.678/0001-9");
  }
}
