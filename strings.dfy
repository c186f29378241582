/**
 The string built-in that `remove_diacritics` relies on: `unicode.replace`.
 Strings are sequences of code points.
 */
module Strings {

  /** `pat` occurs somewhere in `s`. */
  predicate Contains(s: string, pat: string)
  {
    exists i :: 0 <= i <= |s| && pat <= s[i..]
  }

  /**
   `s.replace(pat, rep)`: scanning from the left, every occurrence of `pat`
   that does not overlap an occurrence already replaced becomes `rep`.
   */
  function Replace(s: string, pat: string, rep: string): (r: string)
    requires pat != []
    ensures forall c :: c in r ==> c in s || c in rep
    decreases |s|
  {
    if s == [] then []
    else if pat <= s then rep + Replace(s[|pat|..], pat, rep)
    else [s[0]] + Replace(s[1..], pat, rep)
  }

  /** Text without any occurrence of the pattern is left alone. */
  lemma {:induction false} ReplaceWithoutMatch(s: string, pat: string, rep: string)
    requires pat != []
    requires !Contains(s, pat)
    ensures Replace(s, pat, rep) == s
    decreases |s|
  {
    if s != [] {
      assert !(pat <= s[0..]);
      assert s[0..] == s;
      forall i | 0 <= i <= |s[1..]|
        ensures !(pat <= s[1..][i..])
      {
        assert s[1..][i..] == s[i + 1..];
      }
      ReplaceWithoutMatch(s[1..], pat, rep);
    }
  }

  /** Text with an occurrence of the pattern gets at least one copy of the replacement. */
  lemma {:induction false} ReplaceWithMatch(s: string, pat: string, rep: string)
    requires pat != [] && rep != []
    requires Contains(s, pat)
    ensures rep[0] in Replace(s, pat, rep)
    decreases |s|
  {
    var i :| 0 <= i <= |s| && pat <= s[i..];
    if !(pat <= s) {
      assert i != 0 by { assert s[0..] == s; }
      assert s[1..][i - 1..] == s[i..];
      ReplaceWithMatch(s[1..], pat, rep);
    }
  }

  /** A prefix that cannot start a match is copied unchanged. */
  lemma {:induction false} ReplaceSkips(x: string, y: string, pat: string, rep: string)
    requires pat != []
    requires pat[0] !in x
    ensures Replace(x + y, pat, rep) == x + Replace(y, pat, rep)
    decreases |x|
  {
    if x != [] {
      assert (x + y)[0] == x[0];
      assert (x + y)[1..] == x[1..] + y;
      ReplaceSkips(x[1..], y, pat, rep);
    } else {
      assert x + y == y;
    }
  }

  /** A match at the front is replaced and the scan resumes after it. */
  lemma ReplaceAtMatch(pat: string, y: string, rep: string)
    requires pat != []
    ensures Replace(pat + y, pat, rep) == rep + Replace(y, pat, rep)
  {
    assert pat <= pat + y;
    assert (pat + y)[|pat|..] == y;
  }

  /**
   Replacing the pattern by a character the text does not hold, and then
   that character by the pattern, gives the text back.
   */
  lemma {:induction false} ReplaceUndo(s: string, pat: string, x: char)
    requires pat != []
    requires x !in s
    ensures Replace(Replace(s, pat, [x]), [x], pat) == s
    decreases |s|
  {
    if s != [] {
      if pat <= s {
        ReplaceUndo(s[|pat|..], pat, x);
        ReplaceAtMatch([x], Replace(s[|pat|..], pat, [x]), pat);
        assert s == pat + s[|pat|..];
      } else {
        ReplaceUndo(s[1..], pat, x);
        ReplaceSkips([s[0]], Replace(s[1..], pat, [x]), [x], pat);
        assert s == [s[0]] + s[1..];
      }
    }
  }

  /** The number of occurrences the left-to-right scan of `Replace` replaces. */
  function Matches(s: string, pat: string): nat
    requires pat != []
    decreases |s|
  {
    if s == [] then 0
    else if pat <= s then 1 + Matches(s[|pat|..], pat)
    else Matches(s[1..], pat)
  }

  /** Replacing by a character the text does not hold puts in one copy per match. */
  lemma {:induction false} ReplaceCount(s: string, pat: string, x: char)
    requires pat != []
    requires x !in s
    ensures multiset(Replace(s, pat, [x]))[x] == Matches(s, pat)
    decreases |s|
  {
    if s != [] {
      if pat <= s {
        ReplaceCount(s[|pat|..], pat, x);
      } else {
        ReplaceCount(s[1..], pat, x);
      }
    }
  }

  /** The scan of a text finds at least as many matches as the scan of any suffix of it. */
  lemma {:induction false} MatchesSuffix(s: string, pat: string, k: nat)
    requires pat != [] && k <= |s|
    ensures Matches(s[k..], pat) <= Matches(s, pat)
    decreases |s|, 1
  {
    if k > 0 {
      MatchesSuffix(s[1..], pat, k - 1);
      assert s[1..][k - 1..] == s[k..];
      if pat <= s {
        MatchesShift(s[1..], pat, |pat| - 1);
        assert s[1..][|pat| - 1..] == s[|pat|..];
      }
    }
  }

  /**
   Starting the scan up to one pattern length later loses at most one match:
   the left-to-right choice is never worse than skipping ahead.
   */
  lemma {:induction false} MatchesShift(t: string, pat: string, d: nat)
    requires pat != [] && d <= |pat| && d <= |t|
    ensures Matches(t, pat) <= 1 + Matches(t[d..], pat)
    decreases |t|, 0
  {
    if d > 0 {
      if pat <= t {
        MatchesSuffix(t[d..], pat, |pat| - d);
        assert t[d..][|pat| - d..] == t[|pat|..];
      } else {
        MatchesShift(t[1..], pat, d - 1);
        assert t[1..][d - 1..] == t[d..];
      }
    }
  }

  /** Every occurrence counts: one after `x` adds a match to those found in what follows it. */
  lemma {:induction false} MatchesAfter(x: string, pat: string, y: string)
    requires pat != []
    ensures Matches(x + pat + y, pat) >= 1 + Matches(y, pat)
    decreases |x|
  {
    var s := x + pat + y;
    if pat <= s {
      assert s[|pat|..][|x|..] == y;
      MatchesSuffix(s[|pat|..], pat, |x|);
    } else {
      assert x != [] by { assert pat <= pat + y; }
      assert s[1..] == x[1..] + pat + y;
      MatchesAfter(x[1..], pat, y);
    }
  }

  /** The position of the first `c` in `s`. */
  function IndexOf(s: string, c: char): (i: nat)
    requires c in s
    ensures i < |s| && s[i] == c && c !in s[..i]
  {
    if s[0] == c then 0
    else
      var i := IndexOf(s[1..], c);
      assert s[..i + 1] == [s[0]] + s[1..][..i];
      i + 1
  }

}
