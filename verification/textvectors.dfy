/**
 * The names, e-mail addresses and URLs of the validators' own test suite,
 * with the verdicts the model gives them.
 */
module TextVectors {
  import opened Text
  import opened Names
  import opened Email
  import opened Url
  import opened Vectors

  // ---------------------------------------------------------------------
  // validateFullName
  // ---------------------------------------------------------------------

  /** No white space in `w`. */
  predicate SpaceFree(w: string) {
    forall j | 0 <= j < |w| :: !IsSpace(w[j])
  }

  /** A name of two or more characters followed by a space and a full-name tail is a full name. */
  lemma NameBefore(w: string, rest: string)
    requires |w| >= 2 && SpaceFree(w)
    requires rest != [] && !IsSpace(rest[0]) && NoIsolated(rest)
    ensures IsFullName(w + " " + rest)
  {
    var s := w + " " + rest;
    assert s[..|w|] == w && s[|w| + 1..] == rest;
    RunNoIsolated(w);
    NoIsolatedAcrossSpaces(s, |w|, |w| + 1);
    assert SpaceBetween(s, |w| - 1, |w|, |w| + 1);
  }

  lemma TwoNames(s: string)
    requires Matches(s, "John Doe")
    ensures ValidateFullName(s)
  {
    var w, rest := s[..4], s[5..];
    assert SpaceFree(w) && SpaceFree(rest);
    RunNoIsolated(rest);
    assert s == w + " " + rest;
    NameBefore(w, rest);
    ValidateFullNameIff(s);
  }

  /** The last two of three names. */
  lemma MiddleAndLastNames(s: string)
    requires Matches(s, "John Michael Doe")
    ensures !IsSpace(s[5]) && IsFullName(s[5..])
  {
    var middle, last := s[5..12], s[13..];
    assert SpaceFree(middle) && SpaceFree(last);
    RunNoIsolated(last);
    assert s[5..] == middle + " " + last;
    NameBefore(middle, last);
  }

  lemma ThreeNames(s: string)
    requires Matches(s, "John Michael Doe")
    ensures ValidateFullName(s)
  {
    var first := s[..4];
    assert SpaceFree(first);
    MiddleAndLastNames(s);
    assert s == first + " " + s[5..];
    NameBefore(first, s[5..]);
    ValidateFullNameIff(s);
  }

  lemma SingleName(s: string)
    requires Matches(s, "John")
    ensures !ValidateFullName(s)
  {
    assert SpaceFree(s);
    ValidateFullNameIff(s);
  }

  lemma InitialsOnly(s: string)
    requires Matches(s, "J D")
    ensures !ValidateFullName(s)
  {
    assert Isolated(s, 0);
    ValidateFullNameIff(s);
  }

  /** John Doe and John Michael Doe are full names; John, J D and the empty string are not. */
  lemma FullNameVectors()
    ensures ValidateFullName("John Doe")
    ensures !ValidateFullName("John")
    ensures !ValidateFullName("")
    ensures !ValidateFullName("J D")
    ensures ValidateFullName("John Michael Doe")
  {
    TwoNames("John Doe");
    SingleName("John");
    InitialsOnly("J D");
    ThreeNames("John Michael Doe");
  }

  // ---------------------------------------------------------------------
  // validateEmail
  // ---------------------------------------------------------------------

  /** A character found at `at` and nowhere else occurs once. */
  lemma SoleOccurrence(e: string, c: char, at: nat)
    requires at < |e| && e[at] == c
    requires c !in e[..at] && c !in e[at + 1..]
    ensures Count(e, c) == 1
  {
    assert e == e[..at] + [c] + e[at + 1..];
    assert multiset(e) == multiset(e[..at]) + multiset{c} + multiset(e[at + 1..]);
  }

  /** Printable text with a single `@` between a valid local part and a valid domain is accepted. */
  lemma AddressAccepted(e: string, at: nat)
    requires at < |e| && e[at] == '@' && '@' !in e[..at] && '@' !in e[at + 1..]
    requires AllPrintable(e) && LocalPartOk(e[..at]) && DomainOk(e[at + 1..])
    ensures ValidateEmail(e)
  {
    SoleOccurrence(e, '@', at);
    ValidateEmailIff(e);
  }

  /** Text without an `@` is refused. */
  lemma NoAtSignRefused(e: string)
    requires '@' !in e
    ensures !ValidateEmail(e)
  {
    assert Count(e, '@') == 0;
    ValidateEmailIff(e);
  }

  /** A domain with a single dot, at least two characters from either end. */
  lemma OneDotDomain(d: string, dot: nat)
    requires 2 <= dot < |d| - 2 && d[dot] == '.'
    requires forall k | 0 <= k < |d| && k != dot :: d[k] != '.'
    ensures DomainOk(d)
  {
    assert '.' in d;
  }

  /** A local part without a dot. */
  lemma DotlessLocalPart(l: string)
    requires l != [] && '.' !in l
    ensures LocalPartOk(l)
  {
  }

  lemma ExampleAddress(e: string)
    requires Matches(e, "test@example.com")
    ensures ValidateEmail(e)
  {
    assert AllPrintable(e);
    assert '@' !in e[..4] && '.' !in e[..4];
    DotlessLocalPart(e[..4]);
    var d := e[5..];
    assert '@' !in d && d[7] == '.';
    assert forall k | 0 <= k < |d| && k != 7 :: d[k] != '.';
    OneDotDomain(d, 7);
    AddressAccepted(e, 4);
  }

  lemma DigitsInDomain(e: string)
    requires Matches(e, "invalid@abc1111.com")
    ensures ValidateEmail(e)
  {
    assert AllPrintable(e);
    assert '@' !in e[..7] && '.' !in e[..7];
    DotlessLocalPart(e[..7]);
    var d := e[8..];
    assert '@' !in d && d[7] == '.';
    assert forall k | 0 <= k < |d| && k != 7 :: d[k] != '.';
    OneDotDomain(d, 7);
    AddressAccepted(e, 7);
  }

  lemma MissingAtSign(e: string)
    requires Matches(e, "invalid-email")
    ensures !ValidateEmail(e)
  {
    assert '@' !in e;
    NoAtSignRefused(e);
  }

  /**
   * test@example.com and invalid@abc1111.com are accepted (the suite names
   * the second test as a rejection but expects acceptance); invalid-email
   * and the empty string are refused.
   */
  lemma EmailVectors()
    ensures ValidateEmail("test@example.com")
    ensures ValidateEmail("invalid@abc1111.com")
    ensures !ValidateEmail("invalid-email")
    ensures !ValidateEmail("")
  {
    ExampleAddress("test@example.com");
    DigitsInDomain("invalid@abc1111.com");
    MissingAtSign("invalid-email");
    NoAtSignRefused("");
  }

  // ---------------------------------------------------------------------
  // validateUrl
  // ---------------------------------------------------------------------

  /** A character found at `i` and `j` and nowhere else occurs twice. */
  lemma TwoOccurrences(s: string, c: char, i: nat, j: nat)
    requires i < j < |s| && s[i] == c && s[j] == c
    requires forall k | 0 <= k < |s| && k != i && k != j :: s[k] != c
    ensures Count(s, c) == 2
  {
    var a, b, d := s[..i], s[i + 1..j], s[j + 1..];
    assert s == a + [c] + b + [c] + d;
    assert c !in a && c !in b && c !in d by {
      assert forall k | 0 <= k < |a| :: a[k] == s[k];
      assert forall k | 0 <= k < |b| :: b[k] == s[i + 1 + k];
      assert forall k | 0 <= k < |d| :: d[k] == s[j + 1 + k];
    }
    assert multiset(s) == multiset(a) + multiset{c} + multiset(b) + multiset{c} + multiset(d);
  }

  /** `://` at `i`, and `:` nowhere else. */
  lemma SoleSeparator(url: string, i: nat)
    requires i + 3 <= |url| && url[i..i + 3] == "://"
    requires forall k | 0 <= k < |url| && k != i :: url[k] != ':'
    ensures OnlySeparatorAt(url, i)
  {
    forall j | 0 <= j <= |url| - 3 && OccursAt(url, "://", j)
      ensures j == i
    {
      assert url[j] == url[j..j + 3][0];
    }
  }

  /** No `:` followed by `//` anywhere. */
  lemma NoSeparatorRefused(url: string)
    requires forall k | 0 <= k < |url| - 2 :: !(url[k] == ':' && url[k + 1] == '/' && url[k + 2] == '/')
    ensures !ValidateUrl(url)
  {
    forall i | 0 <= i <= |url| - 3
      ensures !OccursAt(url, "://", i)
    {
      var w := url[i..i + 3];
      assert w[0] == url[i] && w[1] == url[i + 1] && w[2] == url[i + 2];
    }
    ValidateUrlIff(url);
  }

  /** www.example.com is a host name: labels of letters between single dots. */
  lemma ExampleHostName(h: string)
    requires Matches(h, "www.example.com")
    ensures IsHostName(h)
  {
  }

  /** www.example.com is a host name with two dots. */
  lemma ExampleHost(h: string)
    requires Matches(h, "www.example.com")
    ensures IsValidHost(h) && ':' !in h && '/' !in h
  {
    TwoOccurrences(h, '.', 3, 11);
    ExampleHostName(h);
    IsValidHostIff(h);
  }

  /** The scheme of https://www.example.com and its separator. */
  lemma ExampleScheme(url: string)
    requires Matches(url, "https://www.example.com")
    ensures OnlySeparatorAt(url, 5) && url[..5] in Schemes && AllPrintable(url)
  {
    assert url[5] == ':' && url[6] == '/' && url[7] == '/';
    assert url[5..8] == "://";
    SoleSeparator(url, 5);
    assert url[0] == 'h' && url[1] == 't' && url[2] == 't' && url[3] == 'p' && url[4] == 's';
    assert url[..5] == "https";
    assert AllPrintable(url);
  }

  /** The host of https://www.example.com passes, with neither port nor path. */
  lemma ExampleHostPort(url: string)
    requires Matches(url, "https://www.example.com")
    ensures HostPortPasses(HostPort(url[8..]))
  {
    var h := url[8..];
    ExampleHost(h);
    HostWithoutPort(h);
    HostPortBeforePath(h, []);
    assert h + [] == h;
  }

  lemma ExampleUrl(url: string)
    requires Matches(url, "https://www.example.com")
    ensures ValidateUrl(url)
  {
    ExampleScheme(url);
    ExampleHostPort(url);
    ValidateUrlIff(url);
  }

  lemma SingleSlash(url: string)
    requires Matches(url, "htp:/invalid-url")
    ensures !ValidateUrl(url)
  {
    NoSeparatorRefused(url);
  }

  lemma SpaceInHost(url: string)
    requires Matches(url, "https://www.exa mple.com")
    ensures !ValidateUrl(url)
  {
    assert !IsPrintable(url[15]);
    ValidateUrlIff(url);
  }

  /** https://www.example.com is accepted; htp:/invalid-url, a URL with a space and the empty string are not. */
  lemma UrlVectors()
    ensures ValidateUrl("https://www.example.com")
    ensures !ValidateUrl("htp:/invalid-url")
    ensures !ValidateUrl("https://www.exa mple.com")
    ensures !ValidateUrl("")
  {
    ExampleUrl("https://www.example.com");
    SingleSlash("htp:/invalid-url");
    SpaceInHost("https://www.exa mple.com");
    NoSeparatorRefused("");
  }
}
