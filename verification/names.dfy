/**
 * `validateFullName`: at least two names separated by white space, each
 * name at least two characters long.
 */
module Names {
  import opened Wrappers
  import opened Text

  /** The first white-space character of `s`, if any. */
  function FirstSpace(s: string): (r: Option<nat>)
    ensures r.Some? ==> r.value < |s| && IsSpace(s[r.value])
    ensures r.Some? ==> forall j | 0 <= j < r.value :: !IsSpace(s[j])
    ensures r.None? ==> forall j | 0 <= j < |s| :: !IsSpace(s[j])
  {
    if s == [] then None
    else if IsSpace(s[0]) then Some(0)
    else match FirstSpace(s[1..])
      case None => None
      case Some(i) => Some(i + 1)
  }

  /**
   * `s.split(/\s+/)`: the pieces between maximal runs of white space, with
   * an empty piece before a leading run and after a trailing one.
   */
  function SplitSpaceRuns(s: string): (parts: seq<string>)
    ensures |parts| >= 1
    decreases |s|
  {
    match FirstSpace(s)
    case None => [s]
    case Some(i) => [s[..i]] + SplitSpaceRuns(s[SkipSpaces(s, i)..])
  }

  predicate AllLong(names: seq<string>) {
    forall k | 0 <= k < |names| :: |names[k]| >= 2
  }

  /** `validateFullName`: the trimmed text splits into at least two names, none shorter than two characters. */
  predicate ValidateFullName(fullName: string) {
    if fullName == [] then false
    else
      var names := SplitSpaceRuns(Trim(fullName));
      |names| >= 2 && AllLong(names)
  }

  // ---------------------------------------------------------------------
  // A character-level reading
  // ---------------------------------------------------------------------

  /** The non-space character `s[i]` stands alone: white space or an end of the text on both sides. */
  predicate Isolated(s: string, i: int)
    requires 0 <= i < |s|
  {
    !IsSpace(s[i]) && (i == 0 || IsSpace(s[i - 1])) && (i + 1 == |s| || IsSpace(s[i + 1]))
  }

  predicate NoIsolated(s: string) {
    forall i | 0 <= i < |s| :: !Isolated(s, i)
  }

  /** White space at `s[j]` between the non-space characters `s[i]` and `s[k]`. */
  predicate SpaceBetween(s: string, i: int, j: int, k: int) {
    0 <= i < j < k < |s| && !IsSpace(s[i]) && IsSpace(s[j]) && !IsSpace(s[k])
  }

  /** Some white space lies between two non-space characters. */
  predicate HasInnerSpace(s: string) {
    exists i, j, k | 0 <= i < j < k < |s| :: SpaceBetween(s, i, j, k)
  }

  predicate HasSpace(s: string) {
    exists j | 0 <= j < |s| :: IsSpace(s[j])
  }

  /** No non-space character stands alone, and some white space lies between two of them. */
  predicate IsFullName(s: string) {
    HasInnerSpace(s) && NoIsolated(s)
  }

  /** Neither end of `s` is white space. */
  predicate Trimmed(s: string) {
    s != [] && !IsSpace(s[0]) && !IsSpace(s[|s| - 1])
  }

  /** A single run of non-space characters has no isolated character exactly when it is at least two long. */
  lemma RunNoIsolated(w: string)
    requires w != []
    requires forall j | 0 <= j < |w| :: !IsSpace(w[j])
    ensures NoIsolated(w) <==> |w| >= 2
  {
    if |w| >= 2 {
      forall i | 0 <= i < |w|
        ensures !Isolated(w, i)
      {
        if i == 0 {
          assert !IsSpace(w[1]);
        } else {
          assert !IsSpace(w[i - 1]);
        }
      }
    } else {
      assert Isolated(w, 0);
    }
  }

  /** Cutting `s` at a run of white space `s[i..j]` leaves isolation unchanged on both sides. */
  lemma NoIsolatedAcrossSpaces(s: string, i: nat, j: nat)
    requires 0 < i < j < |s|
    requires forall k | i <= k < j :: IsSpace(s[k])
    ensures NoIsolated(s) <==> NoIsolated(s[..i]) && NoIsolated(s[j..])
  {
    var w, r := s[..i], s[j..];
    if NoIsolated(s) {
      forall p | 0 <= p < |w|
        ensures !Isolated(w, p)
      {
        assert !Isolated(s, p);
        assert s[p] == w[p];
        if p > 0 {
          assert s[p - 1] == w[p - 1];
        }
        if p + 1 < i {
          assert s[p + 1] == w[p + 1];
        } else {
          assert IsSpace(s[p + 1]);
        }
      }
      forall p | 0 <= p < |r|
        ensures !Isolated(r, p)
      {
        assert !Isolated(s, j + p);
        assert s[j + p] == r[p];
        if p > 0 {
          assert s[j + p - 1] == r[p - 1];
        } else {
          assert IsSpace(s[j - 1]);
        }
        if p + 1 < |r| {
          assert s[j + p + 1] == r[p + 1];
        }
      }
    }
    if NoIsolated(w) && NoIsolated(r) {
      forall p | 0 <= p < |s|
        ensures !Isolated(s, p)
      {
        if p < i {
          assert !Isolated(w, p);
          assert w[p] == s[p];
          if p > 0 {
            assert w[p - 1] == s[p - 1];
          }
          if p + 1 < i {
            assert w[p + 1] == s[p + 1];
          }
        } else if p < j {
          assert IsSpace(s[p]);
        } else {
          assert !Isolated(r, p - j);
          assert r[p - j] == s[p];
          if p > j {
            assert r[p - j - 1] == s[p - 1];
          }
          if p + 1 < |s| {
            assert r[p - j + 1] == s[p + 1];
          }
        }
      }
    }
  }

  /** The split's first step: a name `s[..i]`, a run of white space `s[i..j]`, and the text after it. */
  lemma FirstRun(s: string, i: nat)
    requires Trimmed(s)
    requires FirstSpace(s) == Some(i)
    ensures 0 < i < SkipSpaces(s, i) < |s|
    ensures Trimmed(s[SkipSpaces(s, i)..])
    ensures forall k | 0 <= k < i :: !IsSpace(s[..i][k])
  {
    var j := SkipSpaces(s, i);
    assert i != 0;
    assert j != |s| by {
      assert !IsSpace(s[|s| - 1]);
    }
    assert s[j..][0] == s[j] && s[j..][|s| - j - 1] == s[|s| - 1];
    forall k | 0 <= k < i
      ensures !IsSpace(s[..i][k])
    {
      assert s[..i][k] == s[k];
    }
  }

  lemma AllLongCons(w: string, names: seq<string>)
    ensures AllLong([w] + names) <==> |w| >= 2 && AllLong(names)
  {
    var all := [w] + names;
    if AllLong(all) {
      assert all[0] == w;
      forall k | 0 <= k < |names|
        ensures |names[k]| >= 2
      {
        assert all[k + 1] == names[k];
      }
    }
  }

  /** For text with no white space at either end, every piece of the split is long exactly when no character is isolated. */
  lemma {:induction false} PiecesLongIff(s: string)
    requires Trimmed(s)
    ensures AllLong(SplitSpaceRuns(s)) <==> NoIsolated(s)
    decreases |s|
  {
    match FirstSpace(s)
    case None =>
      RunNoIsolated(s);
      assert SplitSpaceRuns(s) == [s];
      assert [s][0] == s;
    case Some(i) =>
      FirstRun(s, i);
      var j := SkipSpaces(s, i);
      PiecesLongIff(s[j..]);
      RunNoIsolated(s[..i]);
      NoIsolatedAcrossSpaces(s, i, j);
      assert SplitSpaceRuns(s) == [s[..i]] + SplitSpaceRuns(s[j..]);
      AllLongCons(s[..i], SplitSpaceRuns(s[j..]));
  }

  /** `s.split(/\s+/)` yields two or more pieces exactly when `s` has white space. */
  lemma SplitSpaceRunsCount(s: string)
    ensures |SplitSpaceRuns(s)| >= 2 <==> HasSpace(s)
  {
    match FirstSpace(s)
    case None =>
    case Some(i) =>
  }

  /** White space around `s[a..b]` creates or removes no isolated character. */
  lemma NoIsolatedPadded(s: string, a: nat, b: nat)
    requires a <= b <= |s|
    requires forall k | 0 <= k < a :: IsSpace(s[k])
    requires forall k | b <= k < |s| :: IsSpace(s[k])
    ensures NoIsolated(s) <==> NoIsolated(s[a..b])
  {
    var t := s[a..b];
    if NoIsolated(s) {
      forall p | 0 <= p < |t|
        ensures !Isolated(t, p)
      {
        assert !Isolated(s, a + p);
        assert s[a + p] == t[p];
        if p > 0 {
          assert s[a + p - 1] == t[p - 1];
        } else if a > 0 {
          assert IsSpace(s[a - 1]);
        }
        if p + 1 < |t| {
          assert s[a + p + 1] == t[p + 1];
        } else if b < |s| {
          assert IsSpace(s[b]);
        }
      }
    }
    if NoIsolated(t) {
      forall p | 0 <= p < |s|
        ensures !Isolated(s, p)
      {
        if p < a {
          assert IsSpace(s[p]);
        } else if p >= b {
          assert IsSpace(s[p]);
        } else {
          assert !Isolated(t, p - a);
          assert t[p - a] == s[p];
          if p > a {
            assert t[p - a - 1] == s[p - 1];
          }
          if p + 1 < b {
            assert t[p - a + 1] == s[p + 1];
          }
        }
      }
    }
  }

  /** White space around `s[a..b]` creates or removes no white space between names. */
  lemma InnerSpacePadded(s: string, a: nat, b: nat)
    requires a <= b <= |s|
    requires forall k | 0 <= k < a :: IsSpace(s[k])
    requires forall k | b <= k < |s| :: IsSpace(s[k])
    ensures HasInnerSpace(s) <==> HasInnerSpace(s[a..b])
  {
    var t := s[a..b];
    if HasInnerSpace(s) {
      var i, j, k :| 0 <= i < j < k < |s| && SpaceBetween(s, i, j, k);
      assert 0 <= i < j < k < |s| && !IsSpace(s[i]) && IsSpace(s[j]) && !IsSpace(s[k]);
      assert a <= i && k < b;
      assert t[i - a] == s[i] && t[j - a] == s[j] && t[k - a] == s[k];
      assert SpaceBetween(t, i - a, j - a, k - a);
    }
    if HasInnerSpace(t) {
      var i, j, k :| 0 <= i < j < k < |t| && SpaceBetween(t, i, j, k);
      assert 0 <= i < j < k < |t| && !IsSpace(t[i]) && IsSpace(t[j]) && !IsSpace(t[k]);
      assert t[i] == s[a + i] && t[j] == s[a + j] && t[k] == s[a + k];
      assert SpaceBetween(s, a + i, a + j, a + k);
    }
  }

  /** In text with no white space at either end, any white space lies between two names. */
  lemma TrimmedInnerSpace(t: string)
    requires Trimmed(t)
    ensures HasInnerSpace(t) <==> HasSpace(t)
  {
    if HasSpace(t) {
      var j :| 0 <= j < |t| && IsSpace(t[j]);
      assert SpaceBetween(t, 0, j, |t| - 1);
    }
    if HasInnerSpace(t) {
      var i, j, k :| 0 <= i < j < k < |t| && SpaceBetween(t, i, j, k);
      assert 0 <= j < |t| && IsSpace(t[j]);
    }
  }

  /**
   * `validateFullName` holds exactly when some white space lies between
   * two non-space characters and no non-space character stands alone.
   */
  lemma ValidateFullNameIff(s: string)
    ensures ValidateFullName(s) <==> IsFullName(s)
  {
    var a, b := TrimFrom(s), TrimTo(s);
    var t := Trim(s);
    assert t == s[a..b];
    NoIsolatedPadded(s, a, b);
    InnerSpacePadded(s, a, b);
    if s != [] {
      SplitSpaceRunsCount(t);
      if t == [] {
        assert SplitSpaceRuns(t) == [[]];
        assert |SplitSpaceRuns(t)[0]| == 0;
      } else {
        TrimmedInnerSpace(t);
        PiecesLongIff(t);
      }
    }
  }

  lemma SpacePrepended(s: string, c: char)
    requires IsSpace(c)
    ensures IsFullName([c] + s) <==> IsFullName(s)
  {
    assert ([c] + s)[1..|s| + 1] == s;
    NoIsolatedPadded([c] + s, 1, |s| + 1);
    InnerSpacePadded([c] + s, 1, |s| + 1);
  }

  lemma SpaceAppended(s: string, c: char)
    requires IsSpace(c)
    ensures IsFullName(s + [c]) <==> IsFullName(s)
  {
    assert (s + [c])[0..|s|] == s;
    NoIsolatedPadded(s + [c], 0, |s|);
    InnerSpacePadded(s + [c], 0, |s|);
  }

  /** White space before the text does not change the verdict. */
  lemma LeadingSpaceIgnored(s: string, c: char)
    requires IsSpace(c)
    ensures ValidateFullName([c] + s) == ValidateFullName(s)
  {
    ValidateFullNameIff(s);
    ValidateFullNameIff([c] + s);
    SpacePrepended(s, c);
  }

  /** White space after the text does not change the verdict. */
  lemma TrailingSpaceIgnored(s: string, c: char)
    requires IsSpace(c)
    ensures ValidateFullName(s + [c]) == ValidateFullName(s)
  {
    ValidateFullNameIff(s);
    ValidateFullNameIff(s + [c]);
    SpaceAppended(s, c);
  }
}
