/** The Brazilian postal code (CEP): eight digits, with any punctuation ignored. */
module PostalCode {
  import opened Text

  /** `validateCEP`: the string holds exactly eight ASCII digits, and they are not all the same. */
  function ValidateCep(cep: string): bool {
    var digits := Digits(cep);
    if |digits| != 8 then false
    else if AllSame(digits) then false
    else true
  }

  /** Two different ASCII digits occur somewhere in `s`. */
  predicate TwoDistinctDigits(s: string) {
    exists i, j | 0 <= i < |s| && 0 <= j < |s| :: IsAsciiDigit(s[i]) && IsAsciiDigit(s[j]) && s[i] != s[j]
  }

  /** The extracted digits are all the same exactly when `s` has no two different digits. */
  lemma AllSameDigits(s: string)
    ensures AllSame(Digits(s)) <==> !TwoDistinctDigits(s)
  {
    var d := Digits(s);
    if !AllSame(d) {
      var k :| 0 <= k < |d| && d[k] != d[0];
      DigitsMembers(s, d[0]);
      DigitsMembers(s, d[k]);
      var i :| 0 <= i < |s| && s[i] == d[0];
      var j :| 0 <= j < |s| && s[j] == d[k];
      assert IsAsciiDigit(s[i]) && IsAsciiDigit(s[j]) && s[i] != s[j];
    }
    if TwoDistinctDigits(s) {
      var i, j :| 0 <= i < |s| && 0 <= j < |s| && IsAsciiDigit(s[i]) && IsAsciiDigit(s[j]) && s[i] != s[j];
      DigitsMembers(s, s[i]);
      DigitsMembers(s, s[j]);
      var a :| 0 <= a < |d| && d[a] == s[i];
      var b :| 0 <= b < |d| && d[b] == s[j];
      assert d[a] != d[0] || d[b] != d[0];
    }
  }

  /** `validateCEP(s)` holds exactly when `s` has eight ASCII digits and two of them differ. */
  lemma ValidateCepCharacterization(s: string)
    ensures ValidateCep(s) <==> |Digits(s)| == 8 && TwoDistinctDigits(s)
  {
    AllSameDigits(s);
  }

  /** A non-digit anywhere in the string leaves the verdict unchanged. */
  lemma NonDigitIgnored(a: string, c: char, b: string)
    requires !IsAsciiDigit(c)
    ensures ValidateCep(a + [c] + b) == ValidateCep(a + b)
  {
    DigitsAppend(a + [c], b);
    DigitsAppend(a, [c]);
    DigitsAppend(a, b);
    assert Digits([c]) == [];
    assert Digits(a + [c]) == Digits(a);
    assert Digits(a + [c] + b) == Digits(a + b);
  }

  /** "12345678" is accepted. */
  lemma PlainCodeAccepted()
    ensures ValidateCep("12345678")
  {
    DigitsOfDigits("12345678");
    assert "12345678"[1] != "12345678"[0];
  }

  /** "12345-678" is accepted. */
  lemma HyphenatedCodeAccepted()
    ensures ValidateCep("12345-678")
  {
    PlainCodeAccepted();
    NonDigitIgnored("12345", '-', "678");
    assert "12345" + ['-'] + "678" == "12345-678";
    assert "12345" + "678" == "12345678";
  }

  /** "1234-567" has only seven digits. */
  lemma ShortCodeRejected()
    ensures !ValidateCep("1234-567")
  {
    NonDigitIgnored("1234", '-', "567");
    assert "1234" + ['-'] + "567" == "1234-567";
    assert "1234" + "567" == "1234567";
    DigitsOfDigits("1234567");
  }

  /** 12345-678 and 12345678 are accepted; 1234-567 and the empty string are not. */
  lemma CepVectors()
    ensures ValidateCep("12345-678")
    ensures !ValidateCep("1234-567")
    ensures !ValidateCep("")
    ensures ValidateCep("12345678")
  {
    HyphenatedCodeAccepted();
    ShortCodeRejected();
    PlainCodeAccepted();
  }
}
