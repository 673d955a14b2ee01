/**
 * `validateUrl` and `isValidHost`: a scheme among http, https and ftp,
 * exactly one `://`, a host (a name, a four-part address or `localhost`)
 * with an optional port before the first `/`, all in printable ASCII.
 */
module Url {
  import opened Wrappers
  import opened Text
  import opened JsNumber

  /** The schemes `validateUrl` accepts. */
  const Schemes: set<string> := {"http", "https", "ftp"}

  /** A character allowed in a domain label: an ASCII letter, an ASCII digit or a hyphen. */
  predicate IsLabelChar(c: char) {
    IsAsciiLetter(c) || IsAsciiDigit(c) || c == '-'
  }

  /** One label of a domain name: not empty, no hyphen at either end, nothing but label characters. */
  predicate LabelPasses(part: string) {
    part != []
    && !(StartsWith(part, "-") || EndsWith(part, "-"))
    && forall i | 0 <= i < |part| :: IsLabelChar(part[i])
  }

  /**
   * One part of a four-part host: not empty, and its number neither below 0
   * nor above 255. A part that is not a number is NaN, which passes both
   * comparisons.
   */
  predicate OctetPasses(part: string) {
    part != [] && !(LessThan(ToNumber(part), 0.0) || GreaterThan(ToNumber(part), 255.0))
  }

  /**
   * `isValidHost`: `localhost`; or, when there are exactly four dot-separated
   * parts, four octets; or else at least two labels, all of them valid.
   */
  predicate IsValidHost(host: string) {
    if host == [] then false
    else if host == "localhost" then true
    else
      var parts := Split(host, ".");
      if |parts| == 4 then forall k | 0 <= k < 4 :: OctetPasses(parts[k])
      else if |parts| < 2 then false
      else forall k | 0 <= k < |parts| :: LabelPasses(parts[k])
  }

  /** The port after the first `:`: present, and its number neither below 1 nor above 65535 (NaN passes). */
  predicate PortPasses(port: string) {
    port != [] && !(LessThan(ToNumber(port), 1.0) || GreaterThan(ToNumber(port), 65535.0))
  }

  /** The host and port: what follows `://` up to the first `/`. */
  function HostPort(rest: string): (hp: string)
    ensures '/' !in hp
  {
    match IndexOf(rest, "/")
    case Some(i) =>
      IndexOfCharFound(rest, '/');
      rest[..i]
    case None =>
      ContainsChar(rest, '/');
      rest
  }

  /** A non-empty host, with a valid port when a `:` follows it. */
  predicate HostPortPasses(hostPort: string) {
    hostPort != []
    && match IndexOf(hostPort, ":")
       case Some(p) => PortPasses(hostPort[p + 1..]) && IsValidHost(hostPort[..p])
       case None => IsValidHost(hostPort)
  }

  /** `validateUrl`. */
  predicate ValidateUrl(url: string) {
    if Contains(url, " ") then false
    else
      var pieces := Split(url, "://");
      if |pieces| != 2 then false
      else if pieces[0] !in Schemes then false
      else if !HostPortPasses(HostPort(pieces[1])) then false
      else AllPrintable(url)
  }

  // ---------------------------------------------------------------------
  // Host names, character by character
  // ---------------------------------------------------------------------

  /**
   * A dotted host name: letters, digits, hyphens and dots only; a dot at
   * neither end and no two in a row; no hyphen at either end, next to a dot.
   */
  predicate IsHostName(h: string) {
    h != []
    && (forall i | 0 <= i < |h| :: IsLabelChar(h[i]) || h[i] == '.')
    && h[0] != '.' && h[|h| - 1] != '.' && !HasPair(h, '.', '.')
    && h[0] != '-' && h[|h| - 1] != '-' && !HasPair(h, '.', '-') && !HasPair(h, '-', '.')
  }

  /**
   * A label passes as it reads character by character: the `startsWith` and
   * `endsWith` of "-" become the first and last characters. This is the
   * step from one label to `HostNameIff`'s reading of the whole host.
   */
  lemma LabelPassesIff(part: string)
    ensures LabelPasses(part)
            <==> part != [] && part[0] != '-' && part[|part| - 1] != '-'
                 && forall i | 0 <= i < |part| :: IsLabelChar(part[i])
  {
    if part != [] {
      StartsEndsWithChar(part, '-');
    }
  }

  /** Every label passes exactly when no label is empty or hyphen-edged and every character is a label character or a dot. */
  lemma AllLabelsPassIff(h: string)
    ensures var parts := Split(h, ".");
            (forall k | 0 <= k < |parts| :: LabelPasses(parts[k]))
            <==> !HasEmptyPiece(parts) && !HasPieceStarting(parts, '-') && !HasPieceEnding(parts, '-')
                 && forall i | 0 <= i < |h| :: IsLabelChar(h[i]) || h[i] == '.'
  {
    var parts := Split(h, ".");
    SplitPiecesFree(h, ".");
    if forall k | 0 <= k < |parts| :: LabelPasses(parts[k]) {
      forall k | 0 <= k < |parts|
        ensures parts[k] != [] && parts[k][0] != '-' && parts[k][|parts[k]| - 1] != '-'
      {
        LabelPassesIff(parts[k]);
      }
      forall i | 0 <= i < |h| && h[i] != '.'
        ensures IsLabelChar(h[i])
      {
        SplitPieceEdges(h, '.', h[i]);
        var k :| 0 <= k < |parts| && h[i] in parts[k];
        LabelPassesIff(parts[k]);
      }
    }
    if && !HasEmptyPiece(parts) && !HasPieceStarting(parts, '-') && !HasPieceEnding(parts, '-')
       && forall i | 0 <= i < |h| :: IsLabelChar(h[i]) || h[i] == '.'
    {
      forall k | 0 <= k < |parts|
        ensures LabelPasses(parts[k])
      {
        forall i | 0 <= i < |parts[k]|
          ensures IsLabelChar(parts[k][i])
        {
          var x := parts[k][i];
          ContainsChar(parts[k], '.');
          assert x != '.';
          assert HasPieceContaining(parts, x);
          SplitPieceEdges(h, '.', x);
        }
        LabelPassesIff(parts[k]);
      }
    }
  }

  /** The label branch of `isValidHost` accepts exactly the dotted host names. */
  lemma HostNameIff(h: string)
    ensures (forall k | 0 <= k < |Split(h, ".")| :: LabelPasses(Split(h, ".")[k])) <==> IsHostName(h)
  {
    AllLabelsPassIff(h);
    SplitEmptyPiece(h, '.');
    SplitPieceEdges(h, '.', '-');
  }

  /** Four dot-separated parts, each passing the octet check. */
  predicate FourOctets(parts: seq<string>) {
    |parts| == 4 && forall k | 0 <= k < 4 :: OctetPasses(parts[k])
  }

  /**
   * `isValidHost` accepts `localhost`, a host with three dots whose four
   * parts pass the octet check, and a dotted host name with one, two, or
   * four or more dots.
   */
  lemma IsValidHostIff(h: string)
    ensures IsValidHost(h)
            <==> || h == "localhost"
                 || (Count(h, '.') == 3 && FourOctets(Split(h, ".")))
                 || (Count(h, '.') != 3 && Count(h, '.') >= 1 && IsHostName(h))
  {
    SplitCount(h, '.');
    HostNameIff(h);
  }

  // ---------------------------------------------------------------------
  // Four-part addresses and ports written as numerals
  // ---------------------------------------------------------------------

  /** A numeral passes the octet check exactly when its value is at most 255. */
  lemma OctetNumeral(part: string)
    requires IsNumeral(part)
    ensures OctetPasses(part) <==> NumeralValue(part) <= 255
  {
    NumeralNumber(part);
  }

  /** A numeral passes the port check exactly when its value is between 1 and 65535. */
  lemma PortNumeral(port: string)
    requires IsNumeral(port)
    ensures PortPasses(port) <==> 1 <= NumeralValue(port) <= 65535
  {
    NumeralNumber(port);
  }

  lemma NumeralHasNoDot(s: string)
    requires IsNumeral(s)
    ensures '.' !in s
  {
  }

  /** A host that is neither empty nor `localhost` and has four dot-separated parts is judged by the octet check alone. */
  lemma FourPartHost(h: string)
    requires h != [] && h != "localhost" && |Split(h, ".")| == 4
    ensures IsValidHost(h) <==> FourOctets(Split(h, "."))
  {
  }

  /**
   * Four numerals joined by dots are accepted exactly when each is at most
   * 255; leading zeros are allowed.
   */
  lemma DottedQuadIff(parts: seq<string>)
    requires |parts| == 4 && forall k | 0 <= k < 4 :: IsNumeral(parts[k])
    ensures IsValidHost(Join(parts, "."))
            <==> forall k | 0 <= k < 4 :: NumeralValue(parts[k]) <= 255
  {
    var h := Join(parts, ".");
    forall k | 0 <= k < 4
      ensures '.' !in parts[k]
    {
      NumeralHasNoDot(parts[k]);
    }
    JoinSplit(parts, '.');
    assert h[0] == parts[0][0];
    FourPartHost(h);
    forall k | 0 <= k < 4
      ensures OctetPasses(parts[k]) <==> NumeralValue(parts[k]) <= 255
    {
      OctetNumeral(parts[k]);
    }
  }

  /** A port that is not a number at all reads as NaN and is let through. */
  lemma NaNPortPasses(port: string)
    requires port != [] && ToNumber(port) == NaN
    ensures PortPasses(port)
  {
  }

  // ---------------------------------------------------------------------
  // Host and port
  // ---------------------------------------------------------------------

  /** The host and port end at the first `/` of the path that follows them. */
  lemma HostPortBeforePath(hostPort: string, path: string)
    requires '/' !in hostPort
    requires path == [] || path[0] == '/'
    ensures HostPort(hostPort + path) == hostPort
  {
    var rest := hostPort + path;
    if path == [] {
      assert rest == hostPort;
      IndexOfCharAbsent(rest, '/');
    } else {
      IndexOfCharAt(rest, '/', |hostPort|);
    }
  }

  /** A host with no `:` followed by `:` and a port passes exactly when both do. */
  lemma HostWithPort(host: string, port: string)
    requires ':' !in host
    ensures HostPortPasses(host + ":" + port) <==> PortPasses(port) && IsValidHost(host)
  {
    var hostPort := host + ":" + port;
    IndexOfCharAt(hostPort, ':', |host|);
    assert hostPort[..|host|] == host && hostPort[|host| + 1..] == port;
  }

  /** A host with no `:` and nothing after it passes exactly when `isValidHost` accepts it. */
  lemma HostWithoutPort(host: string)
    requires ':' !in host
    ensures HostPortPasses(host) <==> IsValidHost(host)
  {
    IndexOfCharAbsent(host, ':');
  }

  // ---------------------------------------------------------------------
  // The scheme separator
  // ---------------------------------------------------------------------

  /** `://` occurs at `i` and nowhere else. */
  predicate OnlySeparatorAt(url: string, i: int) {
    OccursAt(url, "://", i) && forall j | 0 <= j <= |url| - 3 :: OccursAt(url, "://", j) ==> j == i
  }

  /** Two occurrences of `://` are at least three characters apart: the pattern cannot overlap itself. */
  lemma SeparatorsApart(url: string, i: int, j: int)
    requires OccursAt(url, "://", i) && OccursAt(url, "://", j) && i < j
    ensures j >= i + 3
  {
    assert url[i..i + 3][1] == url[i + 1] && url[i..i + 3][2] == url[i + 2];
    assert url[j..j + 3][0] == url[j];
  }

  /** An occurrence of `://` after the first lies in the text that follows the first. */
  lemma LaterSeparator(url: string, i: nat, j: int)
    requires OccursAt(url, "://", i) && OccursAt(url, "://", j) && i < j
    ensures OccursAt(url[i + 3..], "://", j - i - 3)
  {
    SeparatorsApart(url, i, j);
    OccursSuffixIff(url, i + 3, "://", j - i - 3);
  }

  /** When the first `://` has no other after it, it is the only one. */
  lemma LastSeparatorOnly(url: string, i: nat)
    requires IndexOf(url, "://") == Some(i)
    requires IndexOf(url[i + 3..], "://").None?
    ensures i <= |url| - 3 && OnlySeparatorAt(url, i)
  {
    forall j | 0 <= j <= |url| - 3 && OccursAt(url, "://", j)
      ensures j == i
    {
      if j > i {
        LaterSeparator(url, i, j);
      }
    }
  }

  /** When the first `://` has no other after it, the split cuts there and only there. */
  lemma LastSeparator(url: string, i: nat)
    requires IndexOf(url, "://") == Some(i)
    requires IndexOf(url[i + 3..], "://").None?
    ensures i <= |url| - 3 && OnlySeparatorAt(url, i)
    ensures Split(url, "://") == [url[..i], url[i + 3..]]
  {
    LastSeparatorOnly(url, i);
    SplitStep(url, "://", i);
    assert Split(url[i + 3..], "://") == [url[i + 3..]];
  }

  /** Two different occurrences of `://` leave no single separator. */
  lemma TwoSeparators(url: string, p: int, q: int)
    requires OccursAt(url, "://", p) && OccursAt(url, "://", q) && p != q
    ensures forall i | 0 <= i <= |url| - 3 :: !OnlySeparatorAt(url, i)
  {
  }

  /** A second `://` after the first leaves more than two pieces and no single separator. */
  lemma AnotherSeparator(url: string, i: nat)
    requires IndexOf(url, "://") == Some(i)
    requires IndexOf(url[i + 3..], "://").Some?
    ensures |Split(url, "://")| > 2
    ensures forall i' | 0 <= i' <= |url| - 3 :: !OnlySeparatorAt(url, i')
  {
    var rest := url[i + 3..];
    var k := IndexOf(rest, "://").value;
    OccursSuffixIff(url, i + 3, "://", k);
    TwoSeparators(url, i, i + 3 + k);
    SplitStep(url, "://", i);
    SplitStep(rest, "://", k);
  }

  /** Splitting at `://` gives two pieces exactly when it occurs once, and then the pieces are the text around it. */
  lemma SchemeSplitIff(url: string)
    ensures |Split(url, "://")| == 2
            <==> exists i | 0 <= i <= |url| - 3 :: OnlySeparatorAt(url, i)
    ensures forall i | 0 <= i <= |url| - 3 && OnlySeparatorAt(url, i) ::
              Split(url, "://") == [url[..i], url[i + 3..]]
  {
    match IndexOf(url, "://")
    case None =>
      assert Split(url, "://") == [url];
    case Some(i) =>
      if IndexOf(url[i + 3..], "://").None? {
        LastSeparator(url, i);
      } else {
        AnotherSeparator(url, i);
      }
  }

  /**
   * `validateUrl` accepts exactly the printable texts with a single `://`,
   * an accepted scheme before it, and an accepted host and port between it
   * and the first `/` after it.
   */
  lemma ValidateUrlIff(url: string)
    ensures ValidateUrl(url)
            <==> AllPrintable(url)
                 && exists i | 0 <= i <= |url| - 3 ::
                      && OnlySeparatorAt(url, i)
                      && url[..i] in Schemes
                      && HostPortPasses(HostPort(url[i + 3..]))
  {
    ContainsChar(url, ' ');
    SchemeSplitIff(url);
    if ' ' in url {
      var k :| 0 <= k < |url| && url[k] == ' ';
      assert !IsPrintable(url[k]);
    }
  }

  /** A scheme followed by `://` starts with one of the three accepted prefixes. */
  lemma SchemePrefix(scheme: string, rest: string)
    requires scheme in Schemes
    ensures var url := scheme + "://" + rest;
            StartsWith(url, "http://") || StartsWith(url, "https://") || StartsWith(url, "ftp://")
  {
    var url := scheme + "://" + rest;
    assert url[..|scheme| + 3] == scheme + "://";
  }

  /** An accepted URL starts with `http://`, `https://` or `ftp://`. */
  lemma AcceptedScheme(url: string)
    requires ValidateUrl(url)
    ensures StartsWith(url, "http://") || StartsWith(url, "https://") || StartsWith(url, "ftp://")
  {
    var pieces := Split(url, "://");
    SplitJoin(url, "://");
    assert Join(pieces, "://") == pieces[0] + "://" + pieces[1];
    SchemePrefix(pieces[0], pieces[1]);
  }

  /** None of the accepted schemes holds a `:`. */
  lemma SchemeHasNoColon(scheme: string)
    requires scheme in Schemes
    ensures forall k | 0 <= k < |scheme| :: scheme[k] != ':'
  {
  }

  /** Where a pattern occurs, the text holds the pattern's first character. */
  lemma OccursFirstChar(s: string, pat: string, j: int)
    ensures OccursAt(s, pat, j) && pat != [] ==> s[j] == pat[0]
  {
    if OccursAt(s, pat, j) && pat != [] {
      assert s[j..j + |pat|][0] == s[j];
    }
  }

  /**
   * A URL put together from an accepted scheme, `://`, a host and port and
   * a path starting with `/` is accepted exactly when it is printable and
   * the host and port pass, provided `://` appears nowhere after the scheme.
   */
  lemma ComposedUrlIff(scheme: string, hostPort: string, path: string)
    requires scheme in Schemes
    requires '/' !in hostPort
    requires path == [] || path[0] == '/'
    requires !Contains(hostPort + path, "://")
    ensures var url := scheme + "://" + hostPort + path;
            ValidateUrl(url) <==> AllPrintable(url) && HostPortPasses(hostPort)
  {
    var rest := hostPort + path;
    var url := scheme + "://" + rest;
    assert url == scheme + "://" + hostPort + path;
    var i := |scheme|;
    assert url[..i] == scheme && url[i + 3..] == rest;
    assert OccursAt(url, "://", i);
    SchemeHasNoColon(scheme);
    forall j | 0 <= j < i
      ensures !OccursAt(url, "://", j)
    {
      assert url[j] == scheme[j];
      OccursFirstChar(url, "://", j);
    }
    forall j | 0 <= j <= |url| - 3 && OccursAt(url, "://", j)
      ensures j == i
    {
      if j > i {
        LaterSeparator(url, i, j);
      }
    }
    assert OnlySeparatorAt(url, i);
    HostPortBeforePath(hostPort, path);
    ValidateUrlIff(url);
  }
}
