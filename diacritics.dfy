/**
 `remove_diacritics`: reduce a word to ASCII while keeping the letter ñ.

 The compatibility decomposition (Normalization Form KD of Unicode Standard
 Annex #15) comes from a library and is a parameter `nfkd` here. The only
 thing assumed of it is `AsciiIsFixed`.
 */
module Diacritics {
  import opened Strings

  /** LATIN SMALL LETTER N WITH TILDE, U+00F1. */
  const Enye: char := '\U{00F1}'

  /** The ASCII marker that stands in for ñ while the word is decomposed. */
  const Placeholder: string := "_ENYE_"

  predicate IsAscii(c: char)
  {
    (c as int) < 128
  }

  predicate AllAscii(s: string)
  {
    forall c :: c in s ==> IsAscii(c)
  }

  /**
   What the decomposition does to ASCII: each ASCII character decomposes to
   itself and is a starter (canonical combining class 0), so nothing is
   reordered across it. The string therefore splits at it.
   */
  ghost predicate AsciiIsFixed(nfkd: string -> string)
  {
    && nfkd([]) == []
    && forall a: string, c: char, b: string :: IsAscii(c) ==> SplitsAt(nfkd, a, c, b)
  }

  /** The decomposition of `a + [c] + b` is that of `a`, then `c`, then that of `b`. */
  ghost predicate SplitsAt(nfkd: string -> string, a: string, c: char, b: string)
  {
    nfkd(a + [c] + b) == nfkd(a) + [c] + nfkd(b)
  }

  /** `[c for c in s if ord(c) < 128]`: the ASCII characters of `s`, in order. */
  function KeepAscii(s: string): (r: string)
    ensures AllAscii(r)
    ensures |r| <= |s|
    ensures forall c :: c in r ==> c in s
    ensures AllAscii(s) ==> r == s
  {
    if s == [] then []
    else if IsAscii(s[0]) then [s[0]] + KeepAscii(s[1..])
    else KeepAscii(s[1..])
  }

  /** What survives of `s` once decomposed and filtered to ASCII. */
  function Strip(nfkd: string -> string, s: string): string
  {
    KeepAscii(nfkd(s))
  }

  /**
   The four steps: hide every ñ behind the placeholder, decompose, keep the
   ASCII characters, and turn the placeholder back into ñ.
   */
  function RemoveDiacritics(nfkd: string -> string, word: string): (r: string)
    ensures forall c :: c in r ==> IsAscii(c) || c == Enye
  {
    var hidden := Replace(word, [Enye], Placeholder);
    var ascii := KeepAscii(nfkd(hidden));
    Replace(ascii, Placeholder, [Enye])
  }

  lemma {:induction false} KeepAsciiAppend(x: string, y: string)
    ensures KeepAscii(x + y) == KeepAscii(x) + KeepAscii(y)
    decreases |x|
  {
    if x == [] {
      assert x + y == y;
    } else {
      assert (x + y)[0] == x[0];
      assert (x + y)[1..] == x[1..] + y;
      KeepAsciiAppend(x[1..], y);
    }
  }

  /** An ASCII run at the front passes through the decomposition unchanged. */
  lemma {:induction false} NfkdAsciiPrefix(nfkd: string -> string, m: string, b: string)
    requires AsciiIsFixed(nfkd)
    requires AllAscii(m)
    ensures nfkd(m + b) == m + nfkd(b)
    decreases |m|
  {
    if m == [] {
      assert m + b == b;
    } else {
      assert m + b == [] + [m[0]] + (m[1..] + b);
      assert SplitsAt(nfkd, [], m[0], m[1..] + b);
      NfkdAsciiPrefix(nfkd, m[1..], b);
      assert m == [m[0]] + m[1..];
    }
  }

  /** An ASCII run anywhere passes through and splits the decomposition. */
  lemma NfkdAsciiRun(nfkd: string -> string, a: string, m: string, b: string)
    requires AsciiIsFixed(nfkd)
    requires AllAscii(m) && m != []
    ensures nfkd(a + m + b) == nfkd(a) + m + nfkd(b)
  {
    assert a + m + b == a + [m[0]] + (m[1..] + b);
    assert SplitsAt(nfkd, a, m[0], m[1..] + b);
    NfkdAsciiPrefix(nfkd, m[1..], b);
    assert m == [m[0]] + m[1..];
  }

  /** An ASCII character other than `_` comes out of the transform as it went in. */
  lemma AsciiCharSurvives(nfkd: string -> string, c: char, v: string)
    requires AsciiIsFixed(nfkd)
    requires IsAscii(c) && c != '_'
    ensures RemoveDiacritics(nfkd, [c] + v) == [c] + RemoveDiacritics(nfkd, v)
  {
    var hidden := Replace(v, [Enye], Placeholder);
    ReplaceSkips([c], v, [Enye], Placeholder);
    NfkdAsciiRun(nfkd, [], [c], hidden);
    assert [] + [c] + hidden == [c] + hidden;
    KeepAsciiAppend([c], nfkd(hidden));
    ReplaceSkips([c], KeepAscii(nfkd(hidden)), Placeholder, [Enye]);
  }

  /**
   Each ñ survives: the part `u` before the first ñ is reduced on its own, the
   ñ is kept, and the rest of the word is transformed as if it stood alone. The
   residue of `u` must not contain `_`, or it could join the placeholder.
   */
  lemma EnyeSurvives(nfkd: string -> string, u: string, v: string)
    requires AsciiIsFixed(nfkd)
    requires Enye !in u
    requires '_' !in Strip(nfkd, u)
    ensures RemoveDiacritics(nfkd, u + [Enye] + v) == Strip(nfkd, u) + [Enye] + RemoveDiacritics(nfkd, v)
  {
    ResidueSplits(nfkd, u, v);
    RestoreEnye(Strip(nfkd, u), Strip(nfkd, Replace(v, [Enye], Placeholder)));
  }

  /** Hiding: the first ñ after an ñ-free prefix becomes the placeholder. */
  lemma HideEnye(u: string, v: string)
    requires Enye !in u
    ensures Replace(u + [Enye] + v, [Enye], Placeholder) == u + Placeholder + Replace(v, [Enye], Placeholder)
  {
    ReplaceSkips(u, [Enye] + v, [Enye], Placeholder);
    ReplaceAtMatch([Enye], v, Placeholder);
    assert u + [Enye] + v == u + ([Enye] + v);
  }

  /** Restoring: the first placeholder after a prefix without `_` becomes ñ. */
  lemma RestoreEnye(x: string, rest: string)
    requires '_' !in x
    ensures Replace(x + Placeholder + rest, Placeholder, [Enye]) == x + [Enye] + Replace(rest, Placeholder, [Enye])
  {
    ReplaceSkips(x, Placeholder + rest, Placeholder, [Enye]);
    ReplaceAtMatch(Placeholder, rest, [Enye]);
    assert x + Placeholder + rest == x + (Placeholder + rest);
  }

  /** Filtering keeps an ASCII run in place between the filtered surroundings. */
  lemma KeepAsciiRun(x: string, m: string, y: string)
    requires AllAscii(m)
    ensures KeepAscii(x + m + y) == KeepAscii(x) + m + KeepAscii(y)
  {
    KeepAsciiAppend(x + m, y);
    KeepAsciiAppend(x, m);
  }

  /**
   A word without ñ is reduced to its ASCII residue, and the residue is
   returned as is unless it carries a `_`.
   */
  lemma WithoutEnye(nfkd: string -> string, u: string)
    requires Enye !in u
    ensures RemoveDiacritics(nfkd, u) == Replace(Strip(nfkd, u), Placeholder, [Enye])
    ensures '_' !in Strip(nfkd, u) ==> RemoveDiacritics(nfkd, u) == Strip(nfkd, u)
  {
    ReplaceSkips(u, [], [Enye], Placeholder);
    assert u + [] == u;
    if '_' !in Strip(nfkd, u) {
      ReplaceSkips(Strip(nfkd, u), [], Placeholder, [Enye]);
      assert Strip(nfkd, u) + [] == Strip(nfkd, u);
    }
  }

  /** A word of ASCII letters and ñ, without `_`, is its own normal form. */
  lemma {:induction false} AsciiOrEnyeUnchanged(nfkd: string -> string, w: string)
    requires AsciiIsFixed(nfkd)
    requires forall c :: c in w ==> (IsAscii(c) && c != '_') || c == Enye
    ensures RemoveDiacritics(nfkd, w) == w
    decreases |w|
  {
    if w == [] {
      assert Replace([], [Enye], Placeholder) == [];
    } else {
      AsciiOrEnyeUnchanged(nfkd, w[1..]);
      if w[0] == Enye {
        assert Strip(nfkd, []) == [];
        EnyeSurvives(nfkd, [], w[1..]);
        assert [] + [Enye] + w[1..] == w;
      } else {
        AsciiCharSurvives(nfkd, w[0], w[1..]);
        assert [w[0]] + w[1..] == w;
      }
    }
  }

  /**
   Normalising a normalised word again changes nothing. The result is the
   residue with every placeholder turned into ñ; hiding those ñ again gives the
   residue back, and the residue is ASCII, so it passes through unchanged.
   */
  lemma Idempotent(nfkd: string -> string, w: string)
    requires AsciiIsFixed(nfkd)
    ensures RemoveDiacritics(nfkd, RemoveDiacritics(nfkd, w)) == RemoveDiacritics(nfkd, w)
  {
    var ascii := Strip(nfkd, Replace(w, [Enye], Placeholder));
    assert Enye !in ascii by { assert !IsAscii(Enye); }
    ReplaceUndo(ascii, Placeholder, Enye);
    NfkdAsciiPrefix(nfkd, ascii, []);
    assert ascii + [] == ascii;
  }

  /**
   No ñ is lost: the result holds at least as many ñ as the word. (It can hold
   more, when the word spells out the placeholder itself.)
   */
  lemma EnyeCount(nfkd: string -> string, w: string)
    requires AsciiIsFixed(nfkd)
    ensures multiset(RemoveDiacritics(nfkd, w))[Enye] >= multiset(w)[Enye]
  {
    var ascii := Strip(nfkd, Replace(w, [Enye], Placeholder));
    assert Enye !in ascii by { assert !IsAscii(Enye); }
    ReplaceCount(ascii, Placeholder, Enye);
    PlaceholdersKept(nfkd, w);
  }

  /** Each ñ of the word leaves a placeholder in the residue that the restore scan counts. */
  lemma {:induction false} PlaceholdersKept(nfkd: string -> string, w: string)
    requires AsciiIsFixed(nfkd)
    ensures Matches(Strip(nfkd, Replace(w, [Enye], Placeholder)), Placeholder) >= multiset(w)[Enye]
    decreases |w|
  {
    if Enye in w {
      var i := IndexOf(w, Enye);
      var u, v := w[..i], w[i + 1..];
      assert w == u + [Enye] + v;
      ResidueSplits(nfkd, u, v);
      var x, y := Strip(nfkd, u), Strip(nfkd, Replace(v, [Enye], Placeholder));
      MatchesAfter(x, Placeholder, y);
      PlaceholdersKept(nfkd, v);
      assert multiset(w)[Enye] == multiset(u)[Enye] + 1 + multiset(v)[Enye] by {
        assert multiset(w) == multiset(u) + multiset([Enye]) + multiset(v);
      }
    }
  }

  /** At the first ñ the residue splits: that of the part before it, the placeholder, that of the rest. */
  lemma ResidueSplits(nfkd: string -> string, u: string, v: string)
    requires AsciiIsFixed(nfkd)
    requires Enye !in u
    ensures Strip(nfkd, Replace(u + [Enye] + v, [Enye], Placeholder))
         == Strip(nfkd, u) + Placeholder + Strip(nfkd, Replace(v, [Enye], Placeholder))
  {
    var hv := Replace(v, [Enye], Placeholder);
    HideEnye(u, v);
    NfkdAsciiRun(nfkd, u, Placeholder, hv);
    KeepAsciiRun(nfkd(u), Placeholder, nfkd(hv));
  }

  /**
   An all-ASCII word is returned unchanged exactly when it does not contain
   the placeholder; a literal `_ENYE_` in it comes out as ñ.
   */
  lemma AsciiWord(nfkd: string -> string, w: string)
    requires AsciiIsFixed(nfkd)
    requires AllAscii(w)
    ensures RemoveDiacritics(nfkd, w) == Replace(w, Placeholder, [Enye])
    ensures RemoveDiacritics(nfkd, w) == w <==> !Contains(w, Placeholder)
  {
    assert Enye !in w;
    ReplaceSkips(w, [], [Enye], Placeholder);
    assert w + [] == w;
    NfkdAsciiPrefix(nfkd, w, []);
    if Contains(w, Placeholder) {
      ReplaceWithMatch(w, Placeholder, [Enye]);
    } else {
      ReplaceWithoutMatch(w, Placeholder, [Enye]);
    }
  }

  /**
   The placeholder can overlap text of the word: in `_ENYE` followed by ñ the
   scan restores the wrong `_ENYE_`, and the ñ moves to the front.
   */
  lemma EnyeDisplaced(nfkd: string -> string)
    requires AsciiIsFixed(nfkd)
    ensures RemoveDiacritics(nfkd, "_ENYE" + [Enye]) == [Enye] + "ENYE_"
  {
    var hidden := "_ENYE" + Placeholder;
    HideEnye("_ENYE", []);
    assert "_ENYE" + [Enye] + [] == "_ENYE" + [Enye];
    assert Replace([], [Enye], Placeholder) == [];
    assert Replace("_ENYE" + [Enye], [Enye], Placeholder) == hidden;
    NfkdAsciiPrefix(nfkd, hidden, []);
    assert hidden + [] == hidden;
    assert KeepAscii(nfkd(hidden)) == hidden;
    RestoreEnye([], "ENYE_");
    assert [] + Placeholder + "ENYE_" == hidden;
    ReplaceWithoutMatch("ENYE_", Placeholder, [Enye]);
  }

  /**
   Worked examples: "café" loses its accent and "niño" keeps its ñ, given that
   é decomposes to e and a combining acute accent (U+0301).
   */
  lemma Examples(nfkd: string -> string)
    requires AsciiIsFixed(nfkd)
    requires nfkd(['\U{00E9}']) == ['e', '\U{0301}']
    ensures RemoveDiacritics(nfkd, "caf" + ['\U{00E9}']) == "cafe"
    ensures RemoveDiacritics(nfkd, "ni" + [Enye] + "o") == "ni" + [Enye] + "o"
  {
    AccentDropped(nfkd, "caf", '\U{00E9}');
    AsciiOrEnyeUnchanged(nfkd, "ni" + [Enye] + "o");
  }

  /**
   An ASCII stem followed by a letter that decomposes to e and a combining
   acute accent (as é does) comes out as the stem followed by e.
   */
  lemma AccentDropped(nfkd: string -> string, stem: string, c: char)
    requires AsciiIsFixed(nfkd)
    requires AllAscii(stem) && '_' !in stem
    requires c != Enye && nfkd([c]) == ['e', '\U{0301}']
    ensures RemoveDiacritics(nfkd, stem + [c]) == stem + "e"
  {
    var w := stem + [c];
    assert Enye !in w;
    WithoutEnye(nfkd, w);
    NfkdAsciiPrefix(nfkd, stem, [c]);
    KeepAsciiAppend(stem, nfkd([c]));
    assert KeepAscii(nfkd([c])) == "e";
    assert Strip(nfkd, w) == stem + "e";
  }

}
