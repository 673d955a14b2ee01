/**
 * The Brazilian taxpayer numbers: the CPF of a person (11 digits) and the
 * CNPJ of a company (14 digits). Both end in two check digits computed
 * modulo 11 from the digits before them; punctuation is ignored.
 */
module TaxId {
  import opened Text

  predicate AllDigits(s: string) {
    forall i | 0 <= i < |s| :: IsAsciiDigit(s[i])
  }

  // ---------------------------------------------------------------------
  // The reference check-digit scheme
  // ---------------------------------------------------------------------

  /** The dot product of the digits' values with a weight table. */
  function WeightedSum(ds: string, weights: seq<int>): int
    requires AllDigits(ds) && |ds| == |weights|
  {
    if ds == [] then 0 else DigitValue(ds[0]) * weights[0] + WeightedSum(ds[1..], weights[1..])
  }

  /**
   * The mod-11 check-digit rule: `x` brings `sum + x` to a multiple of 11,
   * or, where that would take a 10, `x` is 0.
   */
  predicate CompletesMod11(sum: int, x: int) {
    (sum + x) % 11 == 0 || (sum % 11 == 1 && x == 0)
  }

  /** At most one digit completes a given sum. */
  lemma CompletionUnique(sum: int, x: int, y: int)
    requires 0 <= x < 10 && 0 <= y < 10
    requires CompletesMod11(sum, x) && CompletesMod11(sum, y)
    ensures x == y
  {
  }

  /** The weights `start, start - 1, ...`, `n` of them. */
  function Descending(start: int, n: nat): (w: seq<int>)
    ensures |w| == n
    ensures forall i | 0 <= i < n :: w[i] == start - i
    decreases n
  {
    if n == 0 then [] else [start] + Descending(start - 1, n - 1)
  }

  const CpfWeights1: seq<int> := [10, 9, 8, 7, 6, 5, 4, 3, 2]
  const CpfWeights2: seq<int> := [11, 10, 9, 8, 7, 6, 5, 4, 3, 2]
  const CnpjWeights1: seq<int> := [5, 4, 3, 2, 9, 8, 7, 6, 5, 4, 3, 2]
  const CnpjWeights2: seq<int> := [6, 5, 4, 3, 2, 9, 8, 7, 6, 5, 4, 3, 2]

  /** A well-formed CPF digit string, stated with the weight tables and the mod-11 rule. */
  predicate IsCpf(d: string) {
    && |d| == 11 && AllDigits(d) && !AllSame(d)
    && CompletesMod11(WeightedSum(d[..9], CpfWeights1), DigitValue(d[9]))
    && CompletesMod11(WeightedSum(d[..10], CpfWeights2), DigitValue(d[10]))
  }

  /** A well-formed CNPJ digit string, stated with the weight tables and the mod-11 rule. */
  predicate IsCnpj(d: string) {
    && |d| == 14 && AllDigits(d) && !AllSame(d)
    && CompletesMod11(WeightedSum(d[..12], CnpjWeights1), DigitValue(d[12]))
    && CompletesMod11(WeightedSum(d[..13], CnpjWeights2), DigitValue(d[13]))
  }

  // ---------------------------------------------------------------------
  // CPF as the source computes it
  // ---------------------------------------------------------------------

  /** The CPF loop `sum += Number(digit) * factor--`: weights fall by one from `factor`. */
  function CpfSum(base: string, factor: int): int
    requires AllDigits(base)
  {
    if base == [] then 0 else DigitValue(base[0]) * factor + CpfSum(base[1..], factor - 1)
  }

  /**
   * The CPF `calcDigit`: `(sum * 10) % 11`, a 10 read as 0. Both callers
   * pass a factor no smaller than the number of digits, so every weight
   * is positive and the sum is never negative.
   */
  function CpfCheckDigit(base: string, factor: int): int
    requires AllDigits(base) && factor >= |base|
  {
    var r := (CpfSum(base, factor) * 10) % 11;
    if r == 10 then 0 else r
  }

  /** `validateCPF`. */
  function ValidateCpf(cpf: string): bool {
    if cpf == [] then false
    else
      var digits := Digits(cpf);
      if |digits| != 11 then false
      else if AllSame(digits) then false
      else
        && CpfCheckDigit(digits[..9], 10) == DigitValue(digits[9])
        && CpfCheckDigit(digits[..10], 11) == DigitValue(digits[10])
  }

  // ---------------------------------------------------------------------
  // CNPJ as the source computes it
  // ---------------------------------------------------------------------

  /** The CNPJ `calcDigit`: `sum % 11`, then 0 below 2 and `11 - r` otherwise. */
  function CnpjCheckDigit(base: string, weights: seq<int>): int
    requires AllDigits(base) && |base| == |weights|
    requires forall i | 0 <= i < |weights| :: weights[i] >= 0
  {
    var r := WeightedSum(base, weights) % 11;
    if r < 2 then 0 else 11 - r
  }

  /** `validateCNPJ`. */
  function ValidateCnpj(cnpj: string): bool {
    if cnpj == [] then false
    else
      var digits := Digits(cnpj);
      if |digits| != 14 then false
      else if AllSame(digits) then false
      else
        && CnpjCheckDigit(digits[..12], CnpjWeights1) == DigitValue(digits[12])
        && CnpjCheckDigit(digits[..13], CnpjWeights2) == DigitValue(digits[13])
  }

  // ---------------------------------------------------------------------
  // The source's arithmetic agrees with the reference scheme
  // ---------------------------------------------------------------------

  /** The falling-factor loop is the weighted sum with the table `factor, factor - 1, ...`. */
  lemma {:induction false} CpfSumIsWeighted(base: string, factor: int)
    requires AllDigits(base)
    ensures CpfSum(base, factor) == WeightedSum(base, Descending(factor, |base|))
    decreases |base|
  {
    if base != [] {
      CpfSumIsWeighted(base[1..], factor - 1);
      assert Descending(factor, |base|)[1..] == Descending(factor - 1, |base| - 1);
    }
  }

  /** A weighted sum with non-negative weights is non-negative. */
  lemma {:induction false} WeightedSumNonNegative(ds: string, weights: seq<int>)
    requires AllDigits(ds) && |ds| == |weights|
    requires forall i | 0 <= i < |weights| :: weights[i] >= 0
    ensures WeightedSum(ds, weights) >= 0
    decreases |ds|
  {
    if ds != [] {
      WeightedSumNonNegative(ds[1..], weights[1..]);
    }
  }

  /** Since 10 is -1 modulo 11, `(10 * sum) % 11` is what completes `sum`. */
  lemma TimesTenMod11(sum: int)
    requires sum >= 0
    ensures (sum * 10) % 11 == 10 <==> sum % 11 == 1
    ensures (sum * 10) % 11 != 10 ==> (sum + (sum * 10) % 11) % 11 == 0
  {
    var q, k := sum / 11, sum % 11;
    assert sum * 10 == 11 * (10 * q) + 10 * k;
    assert (sum * 10) % 11 == (10 * k) % 11;
    assert sum + (sum * 10) % 11 == 11 * q + k + (10 * k) % 11;
  }

  lemma ModOfMultiplePlus(q: int, r: int)
    requires 0 <= r < 11
    ensures (11 * q + r) % 11 == r
  {
  }

  /** `11 - sum % 11`, or 0 for a remainder below 2, completes `sum`. */
  lemma RemainderRule(sum: int)
    requires sum >= 0
    ensures CompletesMod11(sum, if sum % 11 < 2 then 0 else 11 - sum % 11)
  {
    var q, r := sum / 11, sum % 11;
    if r >= 2 {
      ModOfMultiplePlus(q + 1, 0);
      assert sum + (11 - r) == 11 * (q + 1);
    }
  }

  /** The CPF check digit is the one digit that completes the falling-factor sum. */
  lemma CpfCheckDigitCompletes(base: string, factor: int, x: int)
    requires AllDigits(base) && factor >= |base|
    requires 0 <= x < 10
    ensures 0 <= CpfCheckDigit(base, factor) < 10
    ensures CpfCheckDigit(base, factor) == x <==> CompletesMod11(CpfSum(base, factor), x)
  {
    var sum := CpfSum(base, factor);
    CpfSumIsWeighted(base, factor);
    WeightedSumNonNegative(base, Descending(factor, |base|));
    TimesTenMod11(sum);
    var d := CpfCheckDigit(base, factor);
    assert CompletesMod11(sum, d);
    if CompletesMod11(sum, x) {
      CompletionUnique(sum, x, d);
    }
  }

  /** The remainder rule yields the one digit that completes `sum`. */
  lemma RemainderRuleUnique(sum: int, x: int)
    requires sum >= 0 && 0 <= x < 10
    ensures var d := if sum % 11 < 2 then 0 else 11 - sum % 11;
            0 <= d < 10 && (d == x <==> CompletesMod11(sum, x))
  {
    RemainderRule(sum);
    var d := if sum % 11 < 2 then 0 else 11 - sum % 11;
    if CompletesMod11(sum, x) {
      CompletionUnique(sum, x, d);
    }
  }

  /** The CNPJ check digit is the one digit that completes the weighted sum. */
  lemma CnpjCheckDigitCompletes(base: string, weights: seq<int>, x: int)
    requires AllDigits(base) && |base| == |weights|
    requires forall i | 0 <= i < |weights| :: weights[i] >= 0
    requires 0 <= x < 10
    ensures 0 <= CnpjCheckDigit(base, weights) < 10
    ensures CnpjCheckDigit(base, weights) == x <==> CompletesMod11(WeightedSum(base, weights), x)
  {
    WeightedSumNonNegative(base, weights);
    RemainderRuleUnique(WeightedSum(base, weights), x);
  }

  // ---------------------------------------------------------------------
  // Characterisations and consequences
  // ---------------------------------------------------------------------

  /** The CPF weight tables are the falling factors from 10 and from 11. */
  lemma CpfWeightTables()
    ensures Descending(10, 9) == CpfWeights1
    ensures Descending(11, 10) == CpfWeights2
  {
  }

  /** The CPF check in the source's terms is the reference scheme's check, digit by digit. */
  lemma CpfChecksAgree(d: string)
    requires |d| == 11 && AllDigits(d)
    ensures CpfCheckDigit(d[..9], 10) == DigitValue(d[9])
            <==> CompletesMod11(WeightedSum(d[..9], CpfWeights1), DigitValue(d[9]))
    ensures CpfCheckDigit(d[..10], 11) == DigitValue(d[10])
            <==> CompletesMod11(WeightedSum(d[..10], CpfWeights2), DigitValue(d[10]))
  {
    CpfWeightTables();
    CpfSumIsWeighted(d[..9], 10);
    CpfSumIsWeighted(d[..10], 11);
    CpfCheckDigitCompletes(d[..9], 10, DigitValue(d[9]));
    CpfCheckDigitCompletes(d[..10], 11, DigitValue(d[10]));
  }

  /**
   * `validateCPF(s)` holds exactly when the digits of `s` form a CPF: eleven
   * digits, not all the same, whose last two complete the weighted sums.
   */
  lemma ValidateCpfIsCpf(s: string)
    ensures ValidateCpf(s) <==> IsCpf(Digits(s))
  {
    var d := Digits(s);
    if |d| == 11 && !AllSame(d) {
      CpfChecksAgree(d);
    }
  }

  /** The CNPJ check in the source's terms is the reference scheme's check, digit by digit. */
  lemma CnpjChecksAgree(d: string)
    requires |d| == 14 && AllDigits(d)
    ensures CnpjCheckDigit(d[..12], CnpjWeights1) == DigitValue(d[12])
            <==> CompletesMod11(WeightedSum(d[..12], CnpjWeights1), DigitValue(d[12]))
    ensures CnpjCheckDigit(d[..13], CnpjWeights2) == DigitValue(d[13])
            <==> CompletesMod11(WeightedSum(d[..13], CnpjWeights2), DigitValue(d[13]))
  {
    CnpjCheckDigitCompletes(d[..12], CnpjWeights1, DigitValue(d[12]));
    CnpjCheckDigitCompletes(d[..13], CnpjWeights2, DigitValue(d[13]));
  }

  /**
   * `validateCNPJ(s)` holds exactly when the digits of `s` form a CNPJ:
   * fourteen digits, not all the same, whose last two complete the weighted sums.
   */
  lemma ValidateCnpjIsCnpj(s: string)
    ensures ValidateCnpj(s) <==> IsCnpj(Digits(s))
  {
    var d := Digits(s);
    if |d| == 14 && !AllSame(d) {
      CnpjChecksAgree(d);
    }
  }

  /** A repeated digit is rejected whatever the checksum says. */
  lemma RepeatedDigitsRejected(s: string)
    requires AllSame(Digits(s))
    ensures !ValidateCpf(s) && !ValidateCnpj(s)
  {
  }

  /** Only the digits count: punctuation anywhere leaves both verdicts unchanged. */
  lemma NonDigitIgnored(a: string, c: char, b: string)
    requires !IsAsciiDigit(c)
    ensures ValidateCpf(a + [c] + b) == ValidateCpf(a + b)
    ensures ValidateCnpj(a + [c] + b) == ValidateCnpj(a + b)
  {
    DigitsAppend(a + [c], b);
    DigitsAppend(a, [c]);
    DigitsAppend(a, b);
    assert Digits([c]) == [];
    assert Digits(a + [c]) == Digits(a);
    ValidateCpfIsCpf(a + [c] + b);
    ValidateCpfIsCpf(a + b);
    ValidateCnpjIsCnpj(a + [c] + b);
    ValidateCnpjIsCnpj(a + b);
  }

  /** The first nine digits of a CPF fix its two check digits. */
  lemma CpfCheckDigitsDetermined(d: string, e: string)
    requires IsCpf(d) && IsCpf(e) && d[..9] == e[..9]
    ensures d == e
  {
    CompletionUnique(WeightedSum(d[..9], CpfWeights1), DigitValue(d[9]), DigitValue(e[9]));
    assert d[9] == e[9];
    assert d[..10] == e[..10];
    CompletionUnique(WeightedSum(d[..10], CpfWeights2), DigitValue(d[10]), DigitValue(e[10]));
    assert d == d[..10] + [d[10]] && e == e[..10] + [e[10]];
  }

  /** The first twelve digits of a CNPJ fix its two check digits. */
  lemma CnpjCheckDigitsDetermined(d: string, e: string)
    requires IsCnpj(d) && IsCnpj(e) && d[..12] == e[..12]
    ensures d == e
  {
    CompletionUnique(WeightedSum(d[..12], CnpjWeights1), DigitValue(d[12]), DigitValue(e[12]));
    assert d[12] == e[12];
    assert d[..13] == e[..13];
    CompletionUnique(WeightedSum(d[..13], CnpjWeights2), DigitValue(d[13]), DigitValue(e[13]));
    assert d == d[..13] + [d[13]] && e == e[..13] + [e[13]];
  }
}
