/**
 * The parts of the JavaScript string library that the validators rely on,
 * over `seq<char>`: character classes, `indexOf` / `includes`, `split` with a
 * string separator, `trim`, and the extraction of the ASCII digits.
 * A `char` is a Unicode scalar value; where the source reads UTF-16 units
 * (`charCodeAt`, `length`), a scalar outside the Basic Multilingual Plane
 * counts here as one character where JavaScript sees two units.
 */
module Text {
  import opened Wrappers

  /** An ASCII decimal digit, code 48..57: the class `\d` of a non-Unicode regular expression. */
  predicate IsAsciiDigit(c: char) {
    '0' <= c <= '9'
  }

  /** The value `Number` gives a one-character string holding an ASCII digit. */
  function DigitValue(c: char): (v: nat)
    requires IsAsciiDigit(c)
    ensures v < 10
    ensures c == "0123456789"[v]
  {
    c as int - '0' as int
  }

  /** An ASCII letter, codes 65..90 or 97..122. */
  predicate IsAsciiLetter(c: char) {
    'A' <= c <= 'Z' || 'a' <= c <= 'z'
  }

  /** A printable, non-blank ASCII character: code 33..126. */
  predicate IsPrintable(c: char) {
    33 <= c as int <= 126
  }

  predicate AllPrintable(s: string) {
    forall i | 0 <= i < |s| :: IsPrintable(s[i])
  }

  /**
   * ECMAScript WhiteSpace or LineTerminator: what `trim` strips, what `\s`
   * matches and what `Number` ignores around a numeral.
   */
  predicate IsSpace(c: char) {
    || c == '\t' || c == '\n' || c == '\U{000B}' || c == '\U{000C}' || c == '\r'
    || c == ' ' || c == '\U{00A0}' || c == '\U{1680}'
    || ('\U{2000}' <= c <= '\U{200A}')
    || c == '\U{2028}' || c == '\U{2029}' || c == '\U{202F}' || c == '\U{205F}'
    || c == '\U{3000}' || c == '\U{FEFF}'
  }

  /** Number of occurrences of `c` in `s`. */
  function Count(s: string, c: char): nat {
    multiset(s)[c]
  }

  /** Every character of `s` equals the first one (true of the empty string). */
  predicate AllSame(s: string) {
    forall i | 0 <= i < |s| :: s[i] == s[0]
  }

  /** Some two adjacent characters of `s` are `a` followed by `b`. */
  predicate HasPair(s: string, a: char, b: char) {
    exists i | 0 <= i < |s| - 1 :: s[i] == a && s[i + 1] == b
  }

  // ---------------------------------------------------------------------
  // Substring search: indexOf, includes, startsWith, endsWith
  // ---------------------------------------------------------------------

  /** `pat` occurs in `s` at index `i`. */
  predicate OccursAt(s: string, pat: string, i: int) {
    0 <= i && i + |pat| <= |s| && s[i..i + |pat|] == pat
  }

  lemma OccursShift(s: string, pat: string)
    requires |s| > 0
    ensures forall j {:trigger OccursAt(s, pat, j)} :: 1 <= j ==>
              (OccursAt(s, pat, j) <==> OccursAt(s[1..], pat, j - 1))
  {
    forall j | 1 <= j
      ensures OccursAt(s, pat, j) <==> OccursAt(s[1..], pat, j - 1)
    {
      if j + |pat| <= |s| {
        assert s[1..][j - 1..j - 1 + |pat|] == s[j..j + |pat|];
      }
    }
  }

  /** An occurrence inside a prefix is an occurrence in the whole string. */
  lemma OccursInPrefix(s: string, n: nat, pat: string, j: int)
    requires n <= |s| && OccursAt(s[..n], pat, j)
    ensures OccursAt(s, pat, j) && j + |pat| <= n
  {
    assert s[..n][j..j + |pat|] == s[j..j + |pat|];
  }

  /** An occurrence inside a suffix is an occurrence in the whole string. */
  lemma OccursInSuffix(s: string, n: nat, pat: string, j: int)
    requires n <= |s| && OccursAt(s[n..], pat, j)
    ensures OccursAt(s, pat, n + j)
  {
    assert s[n..][j..j + |pat|] == s[n + j..n + j + |pat|];
  }

  /** A one-character pattern occurs exactly where that character stands. */
  lemma OccursChar(s: string, c: char, j: int)
    ensures OccursAt(s, [c], j) <==> 0 <= j < |s| && s[j] == c
  {
    if 0 <= j < |s| {
      assert s[j..j + 1] == [s[j]];
    }
  }

  /** `s.indexOf(pat)`: the first index at which `pat` occurs, if there is one. */
  function IndexOf(s: string, pat: string): (r: Option<nat>)
    ensures r.Some? ==> OccursAt(s, pat, r.value)
    ensures r.Some? ==> forall j | 0 <= j < r.value :: !OccursAt(s, pat, j)
    ensures r.None? ==> forall j :: !OccursAt(s, pat, j)
    decreases |s|
  {
    if |s| < |pat| then None
    else if s[..|pat|] == pat then Some(0)
    else
      OccursShift(s, pat);
      match IndexOf(s[1..], pat)
      case Some(i) => Some(i + 1)
      case None => None
  }

  /** `s.includes(pat)`. */
  predicate Contains(s: string, pat: string) {
    IndexOf(s, pat).Some?
  }

  /** `s.startsWith(p)`. */
  predicate StartsWith(s: string, p: string) {
    |p| <= |s| && s[..|p|] == p
  }

  /** `s.endsWith(p)`. */
  predicate EndsWith(s: string, p: string) {
    |p| <= |s| && s[|s| - |p|..] == p
  }

  /** For a one-character prefix or suffix, `startsWith` and `endsWith` look at one end of `s`. */
  lemma StartsEndsWithChar(s: string, c: char)
    requires s != []
    ensures StartsWith(s, [c]) <==> s[0] == c
    ensures EndsWith(s, [c]) <==> s[|s| - 1] == c
  {
    assert s[..1] == [s[0]];
    assert s[|s| - 1..] == [s[|s| - 1]];
  }

  /** An occurrence in a suffix is an occurrence in the whole string, shifted, and the other way round. */
  lemma OccursSuffixIff(s: string, n: nat, pat: string, j: int)
    requires n <= |s| && 0 <= j
    ensures OccursAt(s[n..], pat, j) <==> OccursAt(s, pat, n + j)
  {
    if n + j + |pat| <= |s| {
      assert s[n..][j..j + |pat|] == s[n + j..n + j + |pat|];
    }
  }

  /** The first occurrence of a single character is its first index. */
  lemma IndexOfCharAt(s: string, c: char, i: nat)
    requires i < |s| && s[i] == c
    requires forall j | 0 <= j < i :: s[j] != c
    ensures IndexOf(s, [c]) == Some(i)
  {
    OccursChar(s, c, i);
    var r := IndexOf(s, [c]);
    assert r.Some?;
    OccursChar(s, c, r.value);
    assert r.value <= i;
  }

  lemma IndexOfCharAbsent(s: string, c: char)
    requires c !in s
    ensures IndexOf(s, [c]) == None
  {
    if IndexOf(s, [c]).Some? {
      OccursChar(s, c, IndexOf(s, [c]).value);
    }
  }

  lemma IndexOfCharFound(s: string, c: char)
    requires IndexOf(s, [c]).Some?
    ensures IndexOf(s, [c]).value < |s| && s[IndexOf(s, [c]).value] == c
    ensures forall j | 0 <= j < IndexOf(s, [c]).value :: s[j] != c
  {
    var i := IndexOf(s, [c]).value;
    OccursChar(s, c, i);
    forall j | 0 <= j < i
      ensures s[j] != c
    {
      OccursChar(s, c, j);
    }
  }

  /** `s.includes(c)` for a one-character string is membership. */
  lemma ContainsChar(s: string, c: char)
    ensures Contains(s, [c]) <==> c in s
  {
    if c in s {
      var i :| 0 <= i < |s| && s[i] == c;
      OccursChar(s, c, i);
    } else {
      IndexOfCharAbsent(s, c);
    }
  }

  /** `s.includes(ab)` for a two-character string is an adjacent pair. */
  lemma ContainsPair(s: string, a: char, b: char)
    ensures Contains(s, [a, b]) <==> HasPair(s, a, b)
  {
    if HasPair(s, a, b) {
      var i :| 0 <= i < |s| - 1 && s[i] == a && s[i + 1] == b;
      assert s[i..i + 2] == [a, b];
      assert OccursAt(s, [a, b], i);
    }
    if Contains(s, [a, b]) {
      var i := IndexOf(s, [a, b]).value;
      assert s[i..i + 2][0] == s[i] && s[i..i + 2][1] == s[i + 1];
    }
  }

  // ---------------------------------------------------------------------
  // split with a string separator
  // ---------------------------------------------------------------------

  /**
   * `s.split(sep)` for a non-empty separator: the pieces of `s` between
   * successive leftmost, non-overlapping occurrences of `sep`.
   */
  function Split(s: string, sep: string): (parts: seq<string>)
    requires |sep| > 0
    ensures |parts| >= 1
    decreases |s|
  {
    match IndexOf(s, sep)
    case None => [s]
    case Some(i) => [s[..i]] + Split(s[i + |sep|..], sep)
  }

  /** `parts.join(sep)`. */
  function Join(parts: seq<string>, sep: string): string
    requires |parts| >= 1
  {
    if |parts| == 1 then parts[0] else parts[0] + sep + Join(parts[1..], sep)
  }

  /** Where `sep` is first found, the split cuts off the text before it and goes on after it. */
  lemma SplitStep(s: string, sep: string, i: nat)
    requires |sep| > 0 && IndexOf(s, sep) == Some(i)
    ensures s == s[..i] + sep + s[i + |sep|..]
    ensures Split(s, sep) == [s[..i]] + Split(s[i + |sep|..], sep)
  {
    OccursDecompose(s, sep, i);
  }

  /** An occurrence of `pat` cuts `s` into the text before it, `pat` and the text after it. */
  lemma OccursDecompose(s: string, pat: string, i: int)
    requires OccursAt(s, pat, i)
    ensures s == s[..i] + pat + s[i + |pat|..]
  {
    assert s == s[..i] + s[i..i + |pat|] + s[i + |pat|..];
  }

  lemma JoinCons(p: string, parts: seq<string>, sep: string)
    requires |parts| >= 1
    ensures Join([p] + parts, sep) == p + sep + Join(parts, sep)
  {
    assert ([p] + parts)[1..] == parts;
  }

  /** Joining the pieces of a split with the same separator gives back the string. */
  lemma {:induction false} SplitJoin(s: string, sep: string)
    requires |sep| > 0
    ensures Join(Split(s, sep), sep) == s
    decreases |s|
  {
    match IndexOf(s, sep)
    case None =>
    case Some(i) =>
      var rest := s[i + |sep|..];
      SplitJoin(rest, sep);
      SplitStep(s, sep, i);
      JoinCons(s[..i], Split(rest, sep), sep);
  }

  /** No piece of a split contains the separator. */
  lemma {:induction false} SplitPiecesFree(s: string, sep: string)
    requires |sep| > 0
    ensures forall k | 0 <= k < |Split(s, sep)| :: !Contains(Split(s, sep)[k], sep)
    decreases |s|
  {
    match IndexOf(s, sep)
    case None =>
    case Some(i) =>
      var rest := s[i + |sep|..];
      SplitPiecesFree(rest, sep);
      SplitStep(s, sep, i);
      if Contains(s[..i], sep) {
        var j := IndexOf(s[..i], sep).value;
        OccursInPrefix(s, i, sep, j);
        assert false;
      }
  }

  /** With a one-character separator there is one more piece than separators. */
  lemma {:induction false} SplitCount(s: string, c: char)
    ensures |Split(s, [c])| == Count(s, c) + 1
    decreases |s|
  {
    match IndexOf(s, [c])
    case None =>
      if c in s {
        ContainsChar(s, c);
      }
    case Some(i) =>
      IndexOfCharFound(s, c);
      var rest := s[i + 1..];
      SplitCount(rest, c);
      SplitStep(s, [c], i);
      assert c !in s[..i];
      assert multiset(s) == multiset(s[..i]) + multiset([c]) + multiset(rest);
  }

  /** In `p + [c] + tail` with no `c` in `p`, the first `c` is the one after `p`. */
  lemma FirstSeparator(p: string, c: char, tail: string)
    requires c !in p
    ensures IndexOf(p + [c] + tail, [c]) == Some(|p|)
    ensures (p + [c] + tail)[..|p|] == p && (p + [c] + tail)[|p| + 1..] == tail
  {
    var s := p + [c] + tail;
    forall j | 0 <= j < |p|
      ensures s[j] != c
    {
      assert s[j] == p[j];
    }
    IndexOfCharAt(s, c, |p|);
  }

  /** Split undoes Join when no piece contains the one-character separator. */
  lemma {:induction false} JoinSplit(parts: seq<string>, c: char)
    requires |parts| >= 1
    requires forall k | 0 <= k < |parts| :: c !in parts[k]
    ensures Split(Join(parts, [c]), [c]) == parts
    decreases |parts|
  {
    if |parts| == 1 {
      IndexOfCharAbsent(parts[0], c);
    } else {
      var p := parts[0];
      var tail := Join(parts[1..], [c]);
      assert Join(parts, [c]) == p + [c] + tail;
      assert c !in p;
      FirstSeparator(p, c, tail);
      SplitStep(p + [c] + tail, [c], |p|);
      JoinSplit(parts[1..], c);
      assert parts == [p] + parts[1..];
    }
  }

  /** The last element of a list with one more element in front is the list's own last element. */
  lemma LastOfCons<T>(w: T, xs: seq<T>)
    requires |xs| >= 1
    ensures ([w] + xs)[|xs|] == xs[|xs| - 1]
  {
  }

  /** `last` ends `s`, and unless it is all of `s` a `c` stands right before it. */
  predicate EndPiece(s: string, c: char, last: string) {
    |last| <= |s| && last == s[|s| - |last|..] && (|last| < |s| ==> s[|s| - |last| - 1] == c)
  }

  /** What ends the text after a `c` also ends the whole text. */
  lemma EndPieceAfter(s: string, c: char, i: nat, last: string)
    requires i < |s| && s[i] == c
    requires EndPiece(s[i + 1..], c, last)
    ensures EndPiece(s, c, last)
  {
    SuffixOfSuffix(s, i + 1, |last|);
    if |last| == |s| - i - 1 {
      assert s[|s| - |last| - 1] == s[i];
    }
  }

  /** Where the last piece of a split sits. */
  lemma {:induction false} SplitLast(s: string, c: char)
    ensures var parts := Split(s, [c]); EndPiece(s, c, parts[|parts| - 1])
    decreases |s|
  {
    match IndexOf(s, [c])
    case None =>
      assert Split(s, [c]) == [s];
      assert s[|s| - |s|..] == s;
    case Some(i) =>
      IndexOfCharFound(s, c);
      var rest := s[i + 1..];
      SplitLast(rest, c);
      SplitStep(s, [c], i);
      var tail := Split(rest, [c]);
      LastOfCons(s[..i], tail);
      EndPieceAfter(s, c, i, tail[|tail| - 1]);
  }

  /** A suffix of `s[n..]` is the suffix of `s` of the same length, and the character before it is the same too. */
  lemma SuffixOfSuffix(s: string, n: nat, len: nat)
    requires n <= |s| && len <= |s| - n
    ensures s[n..][|s| - n - len..] == s[|s| - len..]
    ensures len < |s| - n ==> s[n..][|s| - n - len - 1] == s[|s| - len - 1]
  {
  }

  /** Some piece of the list is the empty string. */
  predicate HasEmptyPiece(parts: seq<string>) {
    exists k | 0 <= k < |parts| :: parts[k] == []
  }

  lemma HasEmptyPieceCons(w: string, parts: seq<string>)
    ensures HasEmptyPiece([w] + parts) <==> w == [] || HasEmptyPiece(parts)
  {
    var all := [w] + parts;
    assert all[0] == w;
    if HasEmptyPiece(parts) {
      var k :| 0 <= k < |parts| && parts[k] == [];
      assert all[k + 1] == parts[k];
    }
    if HasEmptyPiece(all) {
      var k :| 0 <= k < |all| && all[k] == [];
      if k > 0 {
        assert parts[k - 1] == all[k];
      }
    }
  }

  /** A pair `c x` lies either right at the first `c` or in the text after it. */
  lemma PairAfterFirst(s: string, c: char, x: char, i: nat)
    requires i < |s| && s[i] == c
    requires forall j | 0 <= j < i :: s[j] != c
    ensures HasPair(s, c, x) <==> (i + 1 < |s| && s[i + 1] == x) || HasPair(s[i + 1..], c, x)
  {
    var rest := s[i + 1..];
    if HasPair(s, c, x) {
      var p :| 0 <= p < |s| - 1 && s[p] == c && s[p + 1] == x;
      assert p >= i;
      if p > i {
        assert rest[p - i - 1] == s[p] && rest[p - i] == s[p + 1];
      }
    }
    if HasPair(rest, c, x) {
      var p :| 0 <= p < |rest| - 1 && rest[p] == c && rest[p + 1] == x;
      assert s[i + 1 + p] == rest[p] && s[i + 2 + p] == rest[p + 1];
    }
  }

  /** A pair `x c`, for `x` other than `c`, lies either right before the first `c` or in the text after it. */
  lemma PairBeforeFirst(s: string, c: char, x: char, i: nat)
    requires x != c
    requires i < |s| && s[i] == c
    requires forall j | 0 <= j < i :: s[j] != c
    ensures HasPair(s, x, c) <==> (i > 0 && s[i - 1] == x) || HasPair(s[i + 1..], x, c)
  {
    var rest := s[i + 1..];
    if HasPair(s, x, c) {
      var p :| 0 <= p < |s| - 1 && s[p] == x && s[p + 1] == c;
      assert p + 1 >= i;
      if p + 1 > i {
        assert p > i;
        assert rest[p - i - 1] == s[p] && rest[p - i] == s[p + 1];
      }
    }
    if HasPair(rest, x, c) {
      var p :| 0 <= p < |rest| - 1 && rest[p] == x && rest[p + 1] == c;
      assert s[i + 1 + p] == rest[p] && s[i + 2 + p] == rest[p + 1];
    }
    if i > 0 && s[i - 1] == x {
      assert s[i - 1] == x && s[i] == c;
    }
  }

  /** `s` is empty, starts or ends with `c`, or holds `c` twice in a row. */
  predicate LeavesEmptyPiece(s: string, c: char) {
    s == [] || s[0] == c || s[|s| - 1] == c || HasPair(s, c, c)
  }

  /** Past the first `c`, the text leaves an empty piece exactly when the rest does or the `c` is at the start. */
  lemma LeavesEmptyPieceAfterFirst(s: string, c: char, i: nat)
    requires i < |s| && s[i] == c
    requires forall j | 0 <= j < i :: s[j] != c
    ensures LeavesEmptyPiece(s, c) <==> i == 0 || LeavesEmptyPiece(s[i + 1..], c)
  {
    var rest := s[i + 1..];
    PairAfterFirst(s, c, c, i);
    if rest != [] {
      assert rest[0] == s[i + 1] && rest[|rest| - 1] == s[|s| - 1];
    }
  }

  /**
   * A one-character split has an empty piece exactly when `s` is empty,
   * starts or ends with the separator, or holds it twice in a row.
   */
  lemma {:induction false} SplitEmptyPiece(s: string, c: char)
    ensures HasEmptyPiece(Split(s, [c])) <==> LeavesEmptyPiece(s, c)
    decreases |s|
  {
    match IndexOf(s, [c])
    case None =>
      ContainsChar(s, c);
      assert Split(s, [c]) == [s];
      assert [s][0] == s;
    case Some(i) =>
      IndexOfCharFound(s, c);
      var rest := s[i + 1..];
      SplitEmptyPiece(rest, c);
      SplitStep(s, [c], i);
      HasEmptyPieceCons(s[..i], Split(rest, [c]));
      LeavesEmptyPieceAfterFirst(s, c, i);
  }

  /** Some piece of the list starts with `x`. */
  predicate HasPieceStarting(parts: seq<string>, x: char) {
    exists k | 0 <= k < |parts| :: parts[k] != [] && parts[k][0] == x
  }

  /** Some piece of the list ends with `x`. */
  predicate HasPieceEnding(parts: seq<string>, x: char) {
    exists k | 0 <= k < |parts| :: parts[k] != [] && parts[k][|parts[k]| - 1] == x
  }

  /** Some piece of the list contains `x`. */
  predicate HasPieceContaining(parts: seq<string>, x: char) {
    exists k | 0 <= k < |parts| :: x in parts[k]
  }

  lemma PieceStartingCons(w: string, parts: seq<string>, x: char)
    ensures HasPieceStarting([w] + parts, x) <==> (w != [] && w[0] == x) || HasPieceStarting(parts, x)
  {
    var all := [w] + parts;
    assert all[0] == w;
    if HasPieceStarting(all, x) {
      var k :| 0 <= k < |all| && all[k] != [] && all[k][0] == x;
      if k > 0 {
        assert parts[k - 1] == all[k];
      }
    }
    if HasPieceStarting(parts, x) {
      var k :| 0 <= k < |parts| && parts[k] != [] && parts[k][0] == x;
      assert all[k + 1] == parts[k];
    }
  }

  lemma PieceEndingCons(w: string, parts: seq<string>, x: char)
    ensures HasPieceEnding([w] + parts, x) <==> (w != [] && w[|w| - 1] == x) || HasPieceEnding(parts, x)
  {
    var all := [w] + parts;
    assert all[0] == w;
    if HasPieceEnding(all, x) {
      var k :| 0 <= k < |all| && all[k] != [] && all[k][|all[k]| - 1] == x;
      if k > 0 {
        assert parts[k - 1] == all[k];
      }
    }
    if HasPieceEnding(parts, x) {
      var k :| 0 <= k < |parts| && parts[k] != [] && parts[k][|parts[k]| - 1] == x;
      assert all[k + 1] == parts[k];
    }
  }

  lemma PieceContainingCons(w: string, parts: seq<string>, x: char)
    ensures HasPieceContaining([w] + parts, x) <==> x in w || HasPieceContaining(parts, x)
  {
    var all := [w] + parts;
    assert all[0] == w;
    if HasPieceContaining(all, x) {
      var k :| 0 <= k < |all| && x in all[k];
      if k > 0 {
        assert parts[k - 1] == all[k];
      }
    }
    if HasPieceContaining(parts, x) {
      var k :| 0 <= k < |parts| && x in parts[k];
      assert all[k + 1] == parts[k];
    }
  }

  /** `s` starts with `x` or has `x` right after a `c`. */
  predicate StartsAfter(s: string, c: char, x: char) {
    (s != [] && s[0] == x) || HasPair(s, c, x)
  }

  /** `s` ends with `x` or has `x` right before a `c`. */
  predicate EndsBefore(s: string, c: char, x: char) {
    (s != [] && s[|s| - 1] == x) || HasPair(s, x, c)
  }

  /** Splitting `s` at its first `c` into `w` and `rest`. */
  lemma StartsAfterFirst(s: string, c: char, x: char, i: nat)
    requires x != c
    requires i < |s| && s[i] == c
    requires forall j | 0 <= j < i :: s[j] != c
    ensures var (w, rest) := (s[..i], s[i + 1..]);
            StartsAfter(s, c, x) <==> (w != [] && w[0] == x) || StartsAfter(rest, c, x)
  {
    var w, rest := s[..i], s[i + 1..];
    PairAfterFirst(s, c, x, i);
    if rest != [] {
      assert rest[0] == s[i + 1];
    }
    if i > 0 {
      assert w[0] == s[0];
    }
  }

  lemma EndsBeforeFirst(s: string, c: char, x: char, i: nat)
    requires x != c
    requires i < |s| && s[i] == c
    requires forall j | 0 <= j < i :: s[j] != c
    ensures var (w, rest) := (s[..i], s[i + 1..]);
            EndsBefore(s, c, x) <==> (w != [] && w[|w| - 1] == x) || EndsBefore(rest, c, x)
  {
    var w, rest := s[..i], s[i + 1..];
    PairBeforeFirst(s, c, x, i);
    if rest != [] {
      assert rest[|rest| - 1] == s[|s| - 1];
    }
    if i > 0 {
      assert w[i - 1] == s[i - 1];
    }
  }

  lemma ContainsAroundFirst(s: string, c: char, x: char, i: nat)
    requires x != c
    requires i < |s| && s[i] == c
    ensures x in s <==> x in s[..i] || x in s[i + 1..]
  {
    assert s == s[..i] + [c] + s[i + 1..];
  }

  /** For `x` other than the separator `c`, a piece starts with `x` exactly when `s` does or `x` follows a `c`. */
  lemma {:induction false} SplitPieceStarting(s: string, c: char, x: char)
    requires x != c
    ensures HasPieceStarting(Split(s, [c]), x) <==> StartsAfter(s, c, x)
    decreases |s|
  {
    match IndexOf(s, [c])
    case None =>
      ContainsChar(s, c);
      assert Split(s, [c]) == [s] + [];
      PieceStartingCons(s, [], x);
    case Some(i) =>
      IndexOfCharFound(s, c);
      var rest := s[i + 1..];
      SplitPieceStarting(rest, c, x);
      SplitStep(s, [c], i);
      PieceStartingCons(s[..i], Split(rest, [c]), x);
      StartsAfterFirst(s, c, x, i);
  }

  /** For `x` other than the separator `c`, a piece ends with `x` exactly when `s` does or `x` precedes a `c`. */
  lemma {:induction false} SplitPieceEnding(s: string, c: char, x: char)
    requires x != c
    ensures HasPieceEnding(Split(s, [c]), x) <==> EndsBefore(s, c, x)
    decreases |s|
  {
    match IndexOf(s, [c])
    case None =>
      ContainsChar(s, c);
      assert Split(s, [c]) == [s] + [];
      PieceEndingCons(s, [], x);
    case Some(i) =>
      IndexOfCharFound(s, c);
      var rest := s[i + 1..];
      SplitPieceEnding(rest, c, x);
      SplitStep(s, [c], i);
      PieceEndingCons(s[..i], Split(rest, [c]), x);
      EndsBeforeFirst(s, c, x, i);
  }

  /** For `x` other than the separator `c`, a piece contains `x` exactly when `s` does. */
  lemma {:induction false} SplitPieceContaining(s: string, c: char, x: char)
    requires x != c
    ensures HasPieceContaining(Split(s, [c]), x) <==> x in s
    decreases |s|
  {
    match IndexOf(s, [c])
    case None =>
      assert Split(s, [c]) == [s] + [];
      PieceContainingCons(s, [], x);
    case Some(i) =>
      IndexOfCharFound(s, c);
      var rest := s[i + 1..];
      SplitPieceContaining(rest, c, x);
      SplitStep(s, [c], i);
      PieceContainingCons(s[..i], Split(rest, [c]), x);
      ContainsAroundFirst(s, c, x, i);
  }

  /** The three facts together. */
  lemma SplitPieceEdges(s: string, c: char, x: char)
    requires x != c
    ensures HasPieceStarting(Split(s, [c]), x) <==> StartsAfter(s, c, x)
    ensures HasPieceEnding(Split(s, [c]), x) <==> EndsBefore(s, c, x)
    ensures HasPieceContaining(Split(s, [c]), x) <==> x in s
  {
    SplitPieceStarting(s, c, x);
    SplitPieceEnding(s, c, x);
    SplitPieceContaining(s, c, x);
  }

  // ---------------------------------------------------------------------
  // trim
  // ---------------------------------------------------------------------

  /** The first index at or after `i` that does not hold white space, or `|s|`. */
  function SkipSpaces(s: string, i: nat): (j: nat)
    requires i <= |s|
    ensures i <= j <= |s|
    ensures forall k | i <= k < j :: IsSpace(s[k])
    ensures j == |s| || !IsSpace(s[j])
    decreases |s| - i
  {
    if i < |s| && IsSpace(s[i]) then SkipSpaces(s, i + 1) else i
  }

  /** The end of the text before `j` once the white space just before `j` is dropped. */
  function SkipSpacesBack(s: string, j: nat): (i: nat)
    requires j <= |s|
    ensures i <= j
    ensures forall k | i <= k < j :: IsSpace(s[k])
    ensures i == 0 || !IsSpace(s[i - 1])
  {
    if j > 0 && IsSpace(s[j - 1]) then SkipSpacesBack(s, j - 1) else j
  }

  /** Where `s.trim()` starts in `s`: after the leading white space. */
  function TrimFrom(s: string): nat {
    SkipSpaces(s, 0)
  }

  /** Where `s.trim()` ends in `s`: before the trailing white space, and never before it starts. */
  function TrimTo(s: string): (b: nat)
    ensures TrimFrom(s) <= b <= |s|
    ensures TrimFrom(s) < b ==> !IsSpace(s[b - 1])
    ensures forall k | b <= k < |s| :: IsSpace(s[k])
  {
    var a := TrimFrom(s);
    var b := SkipSpacesBack(s, |s|);
    if a == |s| then |s|
    else
      assert !IsSpace(s[a]);
      b
  }

  /**
   * `s.trim()`: what is left once the white space at both ends is dropped.
   * Only white space is dropped, only from the two ends, and what is left
   * neither starts nor ends with it.
   */
  function Trim(s: string): (t: string)
    ensures |t| <= |s|
    ensures TrimFrom(s) + |t| <= |s| && t == s[TrimFrom(s)..TrimFrom(s) + |t|]
    ensures forall k | 0 <= k < TrimFrom(s) :: IsSpace(s[k])
    ensures forall k | TrimFrom(s) + |t| <= k < |s| :: IsSpace(s[k])
    ensures t != [] ==> !IsSpace(t[0]) && !IsSpace(t[|t| - 1])
  {
    s[TrimFrom(s)..TrimTo(s)]
  }

  /** A text with no white space at either end is its own trim. */
  lemma TrimUnchanged(s: string)
    requires s != [] ==> !IsSpace(s[0]) && !IsSpace(s[|s| - 1])
    ensures Trim(s) == s
  {
    if s != [] {
      assert TrimFrom(s) == 0;
      assert SkipSpacesBack(s, |s|) == |s|;
    }
  }

  /** White space in front of a text does not change its trim. */
  lemma TrimLeadingSpace(c: char, s: string)
    requires IsSpace(c)
    ensures Trim([c] + s) == Trim(s)
  {
    TrimFromShift(c, s);
    if TrimFrom(s) < |s| {
      TrimToShift(c, s);
      ShiftedSlice(c, s, TrimFrom(s), TrimTo(s));
    }
  }

  lemma TrimFromShift(c: char, s: string)
    requires IsSpace(c)
    ensures TrimFrom([c] + s) == TrimFrom(s) + 1
  {
    SkipSpacesShift(c, s, 0);
  }

  lemma TrimToShift(c: char, s: string)
    requires IsSpace(c)
    requires TrimFrom(s) < |s|
    ensures TrimTo([c] + s) == TrimTo(s) + 1
  {
    TrimFromShift(c, s);
    SkipSpacesBackShift(c, s, |s|);
  }

  lemma ShiftedSlice(c: char, s: string, a: nat, b: nat)
    requires a <= b <= |s|
    ensures ([c] + s)[a + 1..b + 1] == s[a..b]
  {
  }

  lemma {:induction false} SkipSpacesShift(c: char, s: string, i: nat)
    requires i <= |s|
    ensures SkipSpaces([c] + s, i + 1) == SkipSpaces(s, i) + 1
    decreases |s| - i
  {
    assert ([c] + s)[i + 1..] == s[i..];
    if i < |s| && IsSpace(s[i]) {
      assert ([c] + s)[i + 1] == s[i];
      SkipSpacesShift(c, s, i + 1);
    }
  }

  lemma {:induction false} SkipSpacesBackShift(c: char, s: string, j: nat)
    requires IsSpace(c)
    requires j <= |s|
    ensures SkipSpacesBack([c] + s, j + 1) == (if SkipSpacesBack(s, j) == 0 then 0 else SkipSpacesBack(s, j) + 1)
    decreases j
  {
    if j > 0 {
      assert ([c] + s)[j] == s[j - 1];
      if IsSpace(s[j - 1]) {
        SkipSpacesBackShift(c, s, j - 1);
      }
    }
  }

  // ---------------------------------------------------------------------
  // ASCII digits
  // ---------------------------------------------------------------------

  /** The ASCII digits of `s` in order: `s.replaceAll(/\D/g, "")`. */
  function Digits(s: string): (d: string)
    ensures |d| <= |s|
    ensures forall i | 0 <= i < |d| :: IsAsciiDigit(d[i])
  {
    if s == [] then []
    else (if IsAsciiDigit(s[0]) then [s[0]] else []) + Digits(s[1..])
  }

  /** Digit extraction distributes over concatenation. */
  lemma {:induction false} DigitsAppend(a: string, b: string)
    ensures Digits(a + b) == Digits(a) + Digits(b)
    decreases |a|
  {
    if a != [] {
      assert (a + b)[1..] == a[1..] + b;
      DigitsAppend(a[1..], b);
    } else {
      assert a + b == b;
    }
  }

  /** A character is among the extracted digits exactly when it is a digit of `s`. */
  lemma {:induction false} DigitsMembers(s: string, c: char)
    ensures c in Digits(s) <==> c in s && IsAsciiDigit(c)
    decreases |s|
  {
    if s != [] {
      DigitsMembers(s[1..], c);
      assert s == [s[0]] + s[1..];
    }
  }

  /** A string of digits is its own digit extraction. */
  lemma {:induction false} DigitsOfDigits(s: string)
    requires forall i | 0 <= i < |s| :: IsAsciiDigit(s[i])
    ensures Digits(s) == s
    decreases |s|
  {
    if s != [] {
      DigitsOfDigits(s[1..]);
      assert s == [s[0]] + s[1..];
    }
  }
}
