/**
 * `validateEmail`: exactly one `@`, a local part and a dotted domain with
 * no dot at either end and no two dots in a row, a final domain label of
 * at least two characters, and nothing outside printable ASCII.
 */
module Email {
  import opened Text

  /** The checks on the text before the `@`. */
  predicate LocalPartPasses(local: string) {
    local != []
    && !(StartsWith(local, ".") || EndsWith(local, "."))
    && !Contains(local, "..")
  }

  /**
   * The checks on the text after the `@`: it contains a dot, does not start
   * or end with one, no label between dots is empty, and the last label
   * (the top-level domain) has at least two characters.
   */
  predicate DomainPasses(domain: string) {
    domain != []
    && Contains(domain, ".")
    && !(StartsWith(domain, ".") || EndsWith(domain, "."))
    && var labels := Split(domain, ".");
       !HasEmptyPiece(labels) && |labels[|labels| - 1]| >= 2
  }

  /** `validateEmail`. */
  predicate ValidateEmail(email: string) {
    if Contains(email, " ") then false
    else
      var parts := Split(email, "@");
      if |parts| != 2 then false
      else if !LocalPartPasses(parts[0]) then false
      else if !DomainPasses(parts[1]) then false
      else AllPrintable(email)
  }

  // ---------------------------------------------------------------------
  // A character-level reading
  // ---------------------------------------------------------------------

  /** A local part: not empty, no dot at either end, no two dots in a row. */
  predicate LocalPartOk(l: string) {
    l != [] && l[0] != '.' && l[|l| - 1] != '.' && !HasPair(l, '.', '.')
  }

  /**
   * A domain: some dot, none at either end, no two in a row, and neither of
   * the last two characters is a dot.
   */
  predicate DomainOk(d: string) {
    |d| >= 2 && '.' in d
    && d[0] != '.' && d[|d| - 1] != '.' && d[|d| - 2] != '.'
    && !HasPair(d, '.', '.')
  }

  /** Printable ASCII with a single `@`, a valid local part before it and a valid domain after it. */
  predicate IsEmailAddress(e: string) {
    AllPrintable(e) && Count(e, '@') == 1
    && exists at | 0 <= at < |e| && e[at] == '@' :: LocalPartOk(e[..at]) && DomainOk(e[at + 1..])
  }

  lemma LocalPartIff(l: string)
    ensures LocalPartPasses(l) <==> LocalPartOk(l)
  {
    ContainsPair(l, '.', '.');
    if l != [] {
      StartsEndsWithChar(l, '.');
    }
  }

  /** The last label has two or more characters exactly when neither of the last two characters is a dot. */
  lemma LastLabelIff(d: string)
    ensures var labels := Split(d, ".");
            |labels[|labels| - 1]| >= 2 <==> |d| >= 2 && d[|d| - 1] != '.' && d[|d| - 2] != '.'
  {
    var labels := Split(d, ".");
    var last := labels[|labels| - 1];
    SplitLast(d, '.');
    SplitPiecesFree(d, ".");
    ContainsChar(last, '.');
    LastPieceEnds(d, last);
  }

  /** A dot-free end of `d` that is all of `d` or follows a dot has two or more characters exactly when neither of the last two characters of `d` is a dot. */
  lemma LastPieceEnds(d: string, last: string)
    requires EndPiece(d, '.', last) && '.' !in last
    ensures |last| >= 2 <==> |d| >= 2 && d[|d| - 1] != '.' && d[|d| - 2] != '.'
  {
    if |last| >= 2 {
      assert d[|d| - 1] == last[|last| - 1] && d[|d| - 2] == last[|last| - 2];
    } else if |last| == 1 && |d| >= 2 {
      assert d[|d| - 1] == last[0];
    }
  }

  lemma DomainIff(d: string)
    ensures DomainPasses(d) <==> DomainOk(d)
  {
    ContainsChar(d, '.');
    SplitEmptyPiece(d, '.');
    LastLabelIff(d);
    if d != [] {
      StartsEndsWithChar(d, '.');
    }
  }

  /** A character that occurs once occurs neither before nor after that place. */
  lemma OnlyOccurrence(e: string, c: char, at: nat)
    requires at < |e| && e[at] == c
    requires Count(e, c) == 1
    ensures c !in e[..at] && c !in e[at + 1..]
  {
    assert e == e[..at] + [c] + e[at + 1..];
    assert multiset(e) == multiset(e[..at]) + multiset([c]) + multiset(e[at + 1..]);
  }

  /** With a single `@`, the split gives the text before it and the text after it. */
  lemma SplitAtSign(e: string, at: nat)
    requires at < |e| && e[at] == '@'
    requires Count(e, '@') == 1
    ensures Split(e, "@") == [e[..at], e[at + 1..]]
  {
    OnlyOccurrence(e, '@', at);
    var rest := e[at + 1..];
    forall j | 0 <= j < at
      ensures e[j] != '@'
    {
      assert e[j] == e[..at][j];
    }
    IndexOfCharAt(e, '@', at);
    SplitStep(e, "@", at);
    IndexOfCharAbsent(rest, '@');
    assert Split(rest, "@") == [rest];
  }

  /** `validateEmail` accepts exactly the texts the character-level reading calls e-mail addresses. */
  lemma ValidateEmailIff(e: string)
    ensures ValidateEmail(e) <==> IsEmailAddress(e)
  {
    ContainsChar(e, ' ');
    SplitCount(e, '@');
    if ' ' in e {
      var i :| 0 <= i < |e| && e[i] == ' ';
      assert !IsPrintable(e[i]);
    } else if Count(e, '@') == 1 {
      assert '@' in multiset(e);
      var at :| 0 <= at < |e| && e[at] == '@';
      SplitAtSign(e, at);
      LocalPartIff(e[..at]);
      DomainIff(e[at + 1..]);
      if IsEmailAddress(e) {
        var at' :| 0 <= at' < |e| && e[at'] == '@' && LocalPartOk(e[..at']) && DomainOk(e[at' + 1..]);
        SplitAtSign(e, at');
      }
    }
  }

  /** A white-space or control character anywhere makes the address invalid. */
  lemma UnprintableRejected(e: string, i: nat)
    requires i < |e| && !IsPrintable(e[i])
    ensures !ValidateEmail(e)
  {
    ValidateEmailIff(e);
  }
}
