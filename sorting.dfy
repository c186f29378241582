/**
 Ordering of words as Python compares unicode strings (lexicographically by
 code point, a proper prefix first), and the sort of a set of words.
 */
module Sorting {

  /** `a < b` on unicode strings. */
  predicate Below(a: string, b: string)
  {
    if a == [] then b != []
    else if b == [] then false
    else a[0] < b[0] || (a[0] == b[0] && Below(a[1..], b[1..]))
  }

  lemma {:induction false} BelowIrreflexive(a: string)
    ensures !Below(a, a)
    decreases |a|
  {
    if a != [] {
      BelowIrreflexive(a[1..]);
    }
  }

  lemma {:induction false} BelowAsymmetric(a: string, b: string)
    ensures !(Below(a, b) && Below(b, a))
    decreases |a|
  {
    if a != [] && b != [] {
      BelowAsymmetric(a[1..], b[1..]);
    }
  }

  lemma {:induction false} BelowTransitive(a: string, b: string, c: string)
    requires Below(a, b) && Below(b, c)
    ensures Below(a, c)
    decreases |a|
  {
    if a != [] && a[0] == b[0] && b[0] == c[0] {
      BelowTransitive(a[1..], b[1..], c[1..]);
    }
  }

  /** Any two different words are ordered one way or the other. */
  lemma {:induction false} BelowTotal(a: string, b: string)
    ensures a == b || Below(a, b) || Below(b, a)
    decreases |a|
  {
    if a != [] && b != [] && a[0] == b[0] {
      BelowTotal(a[1..], b[1..]);
      if a[1..] == b[1..] {
        assert a == [a[0]] + a[1..] && b == [b[0]] + b[1..];
      }
    }
  }

  /** Every earlier word sorts strictly before every later one. */
  ghost predicate StrictlyAscending(ws: seq<string>)
  {
    forall i, j :: 0 <= i < j < |ws| ==> Below(ws[i], ws[j])
  }

  function Elems(ws: seq<string>): set<string>
  {
    set w | w in ws
  }

  /** A strictly ascending list has no duplicates and each entry sorts before the next. */
  lemma AscendingDistinct(ws: seq<string>)
    requires StrictlyAscending(ws)
    ensures forall i, j :: 0 <= i < j < |ws| ==> ws[i] != ws[j]
    ensures forall i :: 0 < i < |ws| ==> Below(ws[i - 1], ws[i])
    ensures |Elems(ws)| == |ws|
  {
    forall i, j | 0 <= i < j < |ws|
      ensures ws[i] != ws[j]
    {
      BelowIrreflexive(ws[i]);
    }
    DistinctCard(ws);
  }

  lemma {:induction false} DistinctCard(ws: seq<string>)
    requires forall i, j :: 0 <= i < j < |ws| ==> ws[i] != ws[j]
    ensures |Elems(ws)| == |ws|
  {
    if ws != [] {
      DistinctCard(ws[1..]);
      assert Elems(ws) == {ws[0]} + Elems(ws[1..]);
      assert ws[0] !in Elems(ws[1..]);
    }
  }

  /** Puts `x` into its place in an ascending list (or leaves the list alone if `x` is there). */
  function Insert(ws: seq<string>, x: string): (r: seq<string>)
    requires StrictlyAscending(ws)
    ensures StrictlyAscending(r)
    ensures Elems(r) == Elems(ws) + {x}
  {
    if ws == [] then [x]
    else if Below(x, ws[0]) then
      assert forall j :: 0 < j < |ws| ==> Below(x, ws[j]) by {
        forall j | 0 < j < |ws| ensures Below(x, ws[j]) { BelowTransitive(x, ws[0], ws[j]); }
      }
      assert Elems([x] + ws) == {x} + Elems(ws);
      [x] + ws
    else if x == ws[0] then ws
    else
      BelowTotal(x, ws[0]);
      var tail := Insert(ws[1..], x);
      assert Elems(ws) == {ws[0]} + Elems(ws[1..]);
      assert Elems([ws[0]] + tail) == {ws[0]} + Elems(tail);
      assert forall j :: 0 <= j < |tail| ==> Below(ws[0], tail[j]) by {
        forall j | 0 <= j < |tail| ensures Below(ws[0], tail[j]) {
          assert tail[j] in Elems(tail);
        }
      }
      [ws[0]] + tail
  }

  /** The ascending list of the words of `s`. */
  ghost function Sorted(s: set<string>): (ws: seq<string>)
    ensures StrictlyAscending(ws)
    ensures Elems(ws) == s
    decreases s
  {
    if s == {} then []
    else
      var x :| x in s;
      Insert(Sorted(s - {x}), x)
  }

  /** Two ascending lists of the same words are the same list. */
  lemma {:induction false} AscendingUnique(a: seq<string>, b: seq<string>)
    requires StrictlyAscending(a) && StrictlyAscending(b)
    requires Elems(a) == Elems(b)
    ensures a == b
    decreases |a|
  {
    assert a == [] <==> b == [] by {
      if a != [] { assert a[0] in Elems(b); }
      if b != [] { assert b[0] in Elems(a); }
    }
    if a != [] {
      SameHead(a, b);
      AscendingTail(a);
      AscendingTail(b);
      AscendingUnique(a[1..], b[1..]);
      assert a == [a[0]] + a[1..] && b == [b[0]] + b[1..];
    }
  }

  /** The first entry of an ascending list is the least of its words. */
  lemma SameHead(a: seq<string>, b: seq<string>)
    requires StrictlyAscending(a) && StrictlyAscending(b)
    requires Elems(a) == Elems(b) && a != [] && b != []
    ensures a[0] == b[0]
  {
    if a[0] != b[0] {
      assert a[0] in Elems(b) && b[0] in Elems(a);
      var i :| 0 <= i < |b| && b[i] == a[0];
      var j :| 0 <= j < |a| && a[j] == b[0];
      assert Below(b[0], a[0]) by { assert 0 < i; }
      assert Below(a[0], b[0]) by { assert 0 < j; }
      BelowAsymmetric(a[0], b[0]);
    }
  }

  /** The rest of an ascending list is ascending and holds every word but the first. */
  lemma AscendingTail(a: seq<string>)
    requires StrictlyAscending(a) && a != []
    ensures StrictlyAscending(a[1..])
    ensures Elems(a[1..]) == Elems(a) - {a[0]}
  {
    AscendingDistinct(a);
    assert Elems(a) == {a[0]} + Elems(a[1..]);
    assert a[0] !in Elems(a[1..]);
  }

  /**
   `list(words)` followed by `words.sort()`: the words of the set, taken out
   one at a time in no particular order, end up in ascending order.
   */
  method SortWords(s: set<string>) returns (ws: seq<string>)
    ensures StrictlyAscending(ws)
    ensures Elems(ws) == s
    ensures ws == Sorted(s)
  {
    ws := [];
    var rest := s;
    while rest != {}
      invariant StrictlyAscending(ws)
      invariant Elems(ws) + rest == s
      decreases rest
    {
      var x :| x in rest;
      ws := Insert(ws, x);
      rest := rest - {x};
    }
    AscendingUnique(ws, Sorted(s));
  }

}
