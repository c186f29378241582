/**
 `main`: read the first token of every line into a set, normalise every word
 with `remove_diacritics`, sort the distinct results and write them one per
 line. Files are not modelled: the input is the sequence of its lines (each
 with its line break, as Python iterates them) and the output is the text
 that would be written.
 */
module Wordlist {
  import opened Wrappers
  import opened Diacritics
  import opened Sorting

  /** The characters `str.split()` separates at: space, tab, LF, CR, VT and FF. */
  predicate IsSpace(c: char)
  {
    c == ' ' || c == '\t' || c == '\n' || c == '\r' || c == '\U{000B}' || c == '\U{000C}'
  }

  /** A line with no token at all. */
  predicate Blank(s: string)
  {
    forall i :: 0 <= i < |s| ==> IsSpace(s[i])
  }

  /** A run of characters none of which is whitespace. */
  predicate Unbroken(s: string)
  {
    forall i :: 0 <= i < |s| ==> !IsSpace(s[i])
  }

  /** The line without its leading whitespace. */
  function DropSpace(s: string): string
  {
    if s != [] && IsSpace(s[0]) then DropSpace(s[1..]) else s
  }

  /** The longest prefix of `s` without whitespace. */
  function TakeWord(s: string): string
  {
    if s == [] || IsSpace(s[0]) then [] else [s[0]] + TakeWord(s[1..])
  }

  /**
   `line.split()[0]`: the first maximal run of non-whitespace characters, or
   `None` when the line has no token (where Python raises IndexError). Its
   properties are the lemmas below.
   */
  function FirstToken(line: string): Option<string>
  {
    var rest := DropSpace(line);
    if rest == [] then None else Some(TakeWord(rest))
  }

  /** Only whitespace is dropped, up to the first other character. */
  lemma {:induction false} DropSpaceSpec(s: string)
    ensures |DropSpace(s)| <= |s| && DropSpace(s) == s[|s| - |DropSpace(s)|..]
    ensures Blank(s[..|s| - |DropSpace(s)|])
    ensures DropSpace(s) == [] || !IsSpace(DropSpace(s)[0])
    decreases |s|
  {
    if s != [] && IsSpace(s[0]) {
      DropSpaceSpec(s[1..]);
      var r := DropSpace(s[1..]);
      assert s[..|s| - |r|] == [s[0]] + s[1..][..|s[1..]| - |r|];
    }
  }

  /** The word taken is a prefix without whitespace that stops at whitespace or the end. */
  lemma {:induction false} TakeWordSpec(s: string)
    ensures TakeWord(s) <= s
    ensures Unbroken(TakeWord(s))
    ensures |TakeWord(s)| == |s| || IsSpace(s[|TakeWord(s)|])
    decreases |s|
  {
    if s != [] && !IsSpace(s[0]) {
      TakeWordSpec(s[1..]);
    }
  }

  /** `split()[0]` fails exactly on a line of whitespace only (the empty line included). */
  lemma FirstTokenNone(line: string)
    ensures FirstToken(line).None? <==> Blank(line)
  {
    DropSpaceSpec(line);
    var rest := DropSpace(line);
    var k := |line| - |rest|;
    if rest == [] {
      assert line[..k] == line;
    } else {
      assert line[k] == rest[0];
    }
  }

  /**
   Otherwise the first token is a non-empty run without whitespace that
   stands after leading whitespace only and is followed by whitespace or the
   end of the line.
   */
  lemma FirstTokenShape(line: string)
    requires FirstToken(line).Some?
    ensures FirstToken(line).value != [] && Unbroken(FirstToken(line).value)
    ensures exists k :: 0 <= k <= |line| && Blank(line[..k]) && FirstToken(line).value <= line[k..]
                        && (|line[k..]| == |FirstToken(line).value| || IsSpace(line[k..][|FirstToken(line).value|]))
  {
    DropSpaceSpec(line);
    var rest := DropSpace(line);
    TakeWordSpec(rest);
    var k := |line| - |rest|;
    assert line[k..] == rest;
  }

  /** Conversely, a token after leading whitespace and before whitespace or the end is the first token. */
  lemma FirstTokenOf(pre: string, token: string, post: string)
    requires Blank(pre)
    requires token != [] && Unbroken(token)
    requires post == [] || IsSpace(post[0])
    ensures FirstToken(pre + token + post) == Some(token)
  {
    var line := pre + token + post;
    DropSpaceSpec(line);
    var rest := DropSpace(line);
    var k := |line| - |rest|;
    assert forall j :: 0 <= j < |pre| ==> IsSpace(line[j]) by {
      assert forall j :: 0 <= j < |pre| ==> line[j] == pre[j];
    }
    assert !IsSpace(line[|pre|]) by { assert line[|pre|] == token[0]; }
    assert forall j :: 0 <= j < k ==> line[..k][j] == line[j];
    assert k == |pre|;
    assert rest == token + post;
    TakeWordSpec(rest);
    var t := TakeWord(rest);
    assert forall j :: 0 <= j < |token| ==> rest[j] == token[j];
    assert |token| < |rest| ==> IsSpace(rest[|token|]) by {
      if |token| < |rest| { assert rest[|token|] == post[0]; }
    }
    assert |t| == |token|;
    assert t == token by {
      assert forall j :: 0 <= j < |t| ==> t[j] == rest[j] == token[j];
    }
  }

  /** The error `main` stops with: the line at this index has no token. */
  datatype MalformedLine = BlankLine(index: nat)

  /** The index of the first line without a token, if any. */
  function FirstBlank(lines: seq<string>): (r: Option<nat>)
    ensures r.Some? ==> r.value < |lines| && FirstToken(lines[r.value]).None?
    ensures r.Some? ==> forall j :: 0 <= j < r.value ==> FirstToken(lines[j]).Some?
    ensures r.None? <==> forall j :: 0 <= j < |lines| ==> FirstToken(lines[j]).Some?
  {
    if lines == [] then None
    else if FirstToken(lines[0]).None? then Some(0)
    else match FirstBlank(lines[1..])
      case None => None
      case Some(i) => Some(i + 1)
  }

  /** The first blank line is the one with only non-blank lines before it. */
  lemma FirstBlankAt(lines: seq<string>, i: nat)
    requires i < |lines| && FirstToken(lines[i]).None?
    requires forall j :: 0 <= j < i ==> FirstToken(lines[j]).Some?
    ensures FirstBlank(lines) == Some(i)
  {
    var r := FirstBlank(lines);
    assert r.Some?;
  }

  /** The set of first tokens of the lines that have one. */
  function Tokens(lines: seq<string>): set<string>
  {
    set i | 0 <= i < |lines| && FirstToken(lines[i]).Some? :: FirstToken(lines[i]).value
  }

  /** `set(map(remove_diacritics, words))`. */
  function Normalise(nfkd: string -> string, words: set<string>): set<string>
  {
    set w | w in words :: RemoveDiacritics(nfkd, w)
  }

  /** The text written: every word followed by a line break, the last one included. */
  function Serialize(ws: seq<string>): (text: string)
    ensures forall c :: c in text ==> c == '\n' || exists i :: 0 <= i < |ws| && c in ws[i]
  {
    if ws == [] then []
    else
      var rest := Serialize(ws[1..]);
      assert forall c :: c in rest ==> c == '\n' || exists i :: 0 <= i < |ws| && c in ws[i] by {
        forall c | c in rest && c != '\n' ensures exists i :: 0 <= i < |ws| && c in ws[i] {
          var i :| 0 <= i < |ws[1..]| && c in ws[1..][i];
          assert ws[1..][i] == ws[i + 1];
        }
      }
      ws[0] + "\n" + rest
  }

  /** What `main` produces for the lines of its input file. */
  ghost function Expected(nfkd: string -> string, lines: seq<string>): Result<string, MalformedLine>
  {
    match FirstBlank(lines)
    case Some(i) => Failure(BlankLine(i))
    case None => Success(Serialize(Sorted(Normalise(nfkd, Tokens(lines)))))
  }

  /**
   `main(filename, outfile)`: fails at the first line without a token;
   otherwise returns the text written to `outfile`.
   */
  method FixWordlist(nfkd: string -> string, lines: seq<string>) returns (r: Result<string, MalformedLine>)
    ensures r == Expected(nfkd, lines)
  {
    var collected := CollectTokens(lines);
    if collected.Failure? {
      return Failure(collected.error);
    }
    var normalised := Normalise(nfkd, collected.value);
    var sorted := SortWords(normalised);
    var out := WriteWords(sorted);
    return Success(out);
  }

  /**
   The first loop of `main`: adds the first token of every line to a set,
   and stops at the first line that has none.
   */
  method CollectTokens(lines: seq<string>) returns (r: Result<set<string>, MalformedLine>)
    ensures r.Failure? <==> FirstBlank(lines).Some?
    ensures r.Failure? ==> r.error == BlankLine(FirstBlank(lines).value)
    ensures r.Success? ==> r.value == Tokens(lines)
  {
    var words: set<string> := {};
    for i := 0 to |lines|
      invariant forall j :: 0 <= j < i ==> FirstToken(lines[j]).Some?
      invariant words == Tokens(lines[..i])
    {
      var token := FirstToken(lines[i]);
      if token.None? {
        FirstBlankAt(lines, i);
        return Failure(BlankLine(i));
      }
      TokensStep(lines, i);
      words := words + {token.value};
    }
    assert lines[..|lines|] == lines;
    return Success(words);
  }

  /** The last loop of `main`: writes every word and a line break after it. */
  method WriteWords(ws: seq<string>) returns (out: string)
    ensures out == Serialize(ws)
  {
    out := "";
    for k := 0 to |ws|
      invariant out == Serialize(ws[..k])
    {
      SerializeAppend(ws[..k], ws[k]);
      assert ws[..k + 1] == ws[..k] + [ws[k]];
      out := out + ws[k] + "\n";
    }
    assert ws[..|ws|] == ws;
  }

  lemma TokensStep(lines: seq<string>, i: nat)
    requires i < |lines| && FirstToken(lines[i]).Some?
    ensures Tokens(lines[..i + 1]) == Tokens(lines[..i]) + {FirstToken(lines[i]).value}
  {
    TokensSnoc(lines[..i], lines[i]);
    assert lines[..i + 1] == lines[..i] + [lines[i]];
  }

  /** A further line adds its first token to the set. */
  lemma TokensSnoc(lines: seq<string>, line: string)
    requires FirstToken(line).Some?
    ensures Tokens(lines + [line]) == Tokens(lines) + {FirstToken(line).value}
  {
    var all := lines + [line];
    forall t | t in Tokens(all) ensures t in Tokens(lines) + {FirstToken(line).value} {
      var i :| 0 <= i < |all| && FirstToken(all[i]).Some? && t == FirstToken(all[i]).value;
      if i < |lines| {
        assert all[i] == lines[i];
      }
    }
    forall t | t in Tokens(lines) ensures t in Tokens(all) {
      var i :| 0 <= i < |lines| && FirstToken(lines[i]).Some? && t == FirstToken(lines[i]).value;
      assert all[i] == lines[i];
    }
    assert all[|lines|] == line;
  }

  lemma {:induction false} SerializeAppend(ws: seq<string>, w: string)
    ensures Serialize(ws + [w]) == Serialize(ws) + w + "\n"
    decreases |ws|
  {
    if ws == [] {
      assert [] + [w] == [w];
    } else {
      assert (ws + [w])[0] == ws[0];
      assert (ws + [w])[1..] == ws[1..] + [w];
      SerializeAppend(ws[1..], w);
    }
  }

  /**
   The output is the serialisation of THE ascending list whose words are
   exactly the normalised first tokens: it is sorted, has no duplicates, and
   nothing else decides it.
   */
  lemma ExpectedOutput(nfkd: string -> string, lines: seq<string>, ws: seq<string>)
    requires forall i :: 0 <= i < |lines| ==> FirstToken(lines[i]).Some?
    requires StrictlyAscending(ws)
    requires forall w :: w in ws <==> exists i :: 0 <= i < |lines| && w == RemoveDiacritics(nfkd, FirstToken(lines[i]).value)
    ensures Expected(nfkd, lines) == Success(Serialize(ws))
  {
    var image := Normalise(nfkd, Tokens(lines));
    assert Elems(ws) == image by {
      forall w | w in image ensures w in ws {
        var t :| t in Tokens(lines) && w == RemoveDiacritics(nfkd, t);
        var i :| 0 <= i < |lines| && FirstToken(lines[i]).Some? && t == FirstToken(lines[i]).value;
      }
      forall w | w in ws ensures w in image {
        var i :| 0 <= i < |lines| && w == RemoveDiacritics(nfkd, FirstToken(lines[i]).value);
        assert FirstToken(lines[i]).value in Tokens(lines);
      }
    }
    AscendingUnique(ws, Sorted(image));
  }

  /**
   Reordering the lines, repeating some or dropping repeats, changes nothing:
   only the set of lines matters.
   */
  lemma OrderIndependent(nfkd: string -> string, lines1: seq<string>, lines2: seq<string>)
    requires forall l :: l in lines1 <==> l in lines2
    ensures Expected(nfkd, lines1).Success? <==> Expected(nfkd, lines2).Success?
    ensures Expected(nfkd, lines1).Success? ==> Expected(nfkd, lines1) == Expected(nfkd, lines2)
  {
    assert FirstBlank(lines1).None? <==> FirstBlank(lines2).None? by {
      if FirstBlank(lines1).Some? {
        assert lines1[FirstBlank(lines1).value] in lines2;
      }
      if FirstBlank(lines2).Some? {
        assert lines2[FirstBlank(lines2).value] in lines1;
      }
    }
    TokensOfSameLines(lines1, lines2);
  }

  /**
   Only the first tokens matter: two inputs without blank lines whose lines
   have the same first tokens (however often, in whatever order, whatever
   follows them) give the same text.
   */
  lemma SameWords(nfkd: string -> string, lines1: seq<string>, lines2: seq<string>)
    requires forall i :: 0 <= i < |lines1| ==> FirstToken(lines1[i]).Some?
    requires forall j :: 0 <= j < |lines2| ==> FirstToken(lines2[j]).Some?
    requires Covers(lines1, lines2) && Covers(lines2, lines1)
    ensures Expected(nfkd, lines1).Success?
    ensures Expected(nfkd, lines1) == Expected(nfkd, lines2)
  {
    TokensCovered(lines1, lines2);
    TokensCovered(lines2, lines1);
    SameTokens(nfkd, lines1, lines2);
  }

  /** Inputs without blank lines and with the same set of first tokens give the same text. */
  lemma SameTokens(nfkd: string -> string, lines1: seq<string>, lines2: seq<string>)
    requires forall i :: 0 <= i < |lines1| ==> FirstToken(lines1[i]).Some?
    requires forall j :: 0 <= j < |lines2| ==> FirstToken(lines2[j]).Some?
    requires Tokens(lines1) == Tokens(lines2)
    ensures Expected(nfkd, lines1).Success?
    ensures Expected(nfkd, lines1) == Expected(nfkd, lines2)
  {
    assert FirstBlank(lines1).None? && FirstBlank(lines2).None?;
  }

  /** Every line of `lines1` has the same first token as some line of `lines2`. */
  ghost predicate Covers(lines1: seq<string>, lines2: seq<string>)
  {
    forall i :: 0 <= i < |lines1| ==> exists j :: 0 <= j < |lines2| && FirstToken(lines2[j]) == FirstToken(lines1[i])
  }

  /** The first tokens of `lines1` are all first tokens of `lines2`. */
  lemma TokensCovered(lines1: seq<string>, lines2: seq<string>)
    requires Covers(lines1, lines2)
    ensures Tokens(lines1) <= Tokens(lines2)
  {
    forall t | t in Tokens(lines1) ensures t in Tokens(lines2) {
      var i :| 0 <= i < |lines1| && FirstToken(lines1[i]).Some? && t == FirstToken(lines1[i]).value;
      var j :| 0 <= j < |lines2| && FirstToken(lines2[j]) == FirstToken(lines1[i]);
      assert t == FirstToken(lines2[j]).value;
    }
  }

  lemma TokensOfSameLines(lines1: seq<string>, lines2: seq<string>)
    requires forall l :: l in lines1 <==> l in lines2
    ensures Tokens(lines1) == Tokens(lines2)
  {
    TokensIncluded(lines1, lines2);
    TokensIncluded(lines2, lines1);
  }

  lemma TokensIncluded(lines1: seq<string>, lines2: seq<string>)
    requires forall l :: l in lines1 ==> l in lines2
    ensures Tokens(lines1) <= Tokens(lines2)
  {
    forall t | t in Tokens(lines1) ensures t in Tokens(lines2) {
      var i :| 0 <= i < |lines1| && FirstToken(lines1[i]).Some? && t == FirstToken(lines1[i]).value;
      assert lines1[i] in lines2;
      var j :| 0 <= j < |lines2| && lines2[j] == lines1[i];
    }
  }

  /**
   A further line whose first token was already seen changes nothing, however
   the rest of the line differs.
   */
  lemma DuplicateWord(nfkd: string -> string, lines: seq<string>, line: string)
    requires FirstToken(line).Some? && FirstToken(line).value in Tokens(lines)
    ensures Expected(nfkd, lines + [line]) == Expected(nfkd, lines)
  {
    TokensSnoc(lines, line);
    assert Tokens(lines + [line]) == Tokens(lines);
    FirstBlankSnoc(lines, line);
  }

  /** A further line with a token does not move the first blank line. */
  lemma FirstBlankSnoc(lines: seq<string>, line: string)
    requires FirstToken(line).Some?
    ensures FirstBlank(lines + [line]) == FirstBlank(lines)
  {
    var all := lines + [line];
    assert forall j :: 0 <= j < |lines| ==> all[j] == lines[j];
    match FirstBlank(lines)
    case Some(i) =>
      FirstBlankAt(all, i);
    case None =>
      assert all[|lines|] == line;
  }

  /**
   A line of whitespace only makes the run fail, at that line or at an
   earlier blank one, and every line before the reported one has a token.
   */
  lemma BlankLineFails(nfkd: string -> string, lines: seq<string>, i: nat)
    requires i < |lines| && Blank(lines[i])
    ensures Expected(nfkd, lines).Failure?
    ensures Expected(nfkd, lines).error.index <= i
    ensures Blank(lines[Expected(nfkd, lines).error.index])
    ensures forall j :: 0 <= j < Expected(nfkd, lines).error.index ==> !Blank(lines[j])
  {
    FirstTokenNone(lines[i]);
    var k := FirstBlank(lines).value;
    assert k <= i;
    FirstTokenNone(lines[k]);
    forall j | 0 <= j < k ensures !Blank(lines[j]) {
      FirstTokenNone(lines[j]);
    }
  }

  /** Every character written is ASCII or ñ. */
  lemma OutputCharset(nfkd: string -> string, lines: seq<string>)
    ensures Expected(nfkd, lines).Success? ==>
              forall c :: c in Expected(nfkd, lines).value ==> IsAscii(c) || c == Enye
  {
    if FirstBlank(lines).None? {
      var ws := Sorted(Normalise(nfkd, Tokens(lines)));
      forall c | c in Serialize(ws) ensures IsAscii(c) || c == Enye {
        if c != '\n' {
          var i :| 0 <= i < |ws| && c in ws[i];
          assert ws[i] in Elems(ws);
        }
      }
    }
  }

  /** The index just past the first line of `text`: its line break, or the end. */
  function LineEnd(text: string): (k: nat)
    ensures k <= |text|
    ensures '\n' !in text[..k]
    ensures k < |text| ==> text[k] == '\n'
  {
    if text == [] || text[0] == '\n' then 0
    else
      var k := LineEnd(text[1..]);
      assert text[..k + 1] == [text[0]] + text[1..][..k];
      k + 1
  }

  /** Reading text back line by line, each line with its line break. */
  function FileLines(text: string): seq<string>
    decreases |text|
  {
    if text == [] then []
    else
      var k := LineEnd(text);
      if k == |text| then [text] else [text[..k + 1]] + FileLines(text[k + 1..])
  }

  /**
   Reading the output back gives one line per word, in order, each with its
   line break, provided no word holds a line break itself.
   */
  lemma {:induction false} ReadBack(ws: seq<string>)
    requires forall i :: 0 <= i < |ws| ==> '\n' !in ws[i]
    ensures |FileLines(Serialize(ws))| == |ws|
    ensures forall i :: 0 <= i < |ws| ==> FileLines(Serialize(ws))[i] == ws[i] + "\n"
    decreases |ws|
  {
    if ws != [] {
      var text := Serialize(ws);
      var rest := Serialize(ws[1..]);
      assert text == ws[0] + "\n" + rest;
      var k := LineEnd(text);
      assert k == |ws[0]| by {
        assert text[|ws[0]|] == '\n';
        assert forall j :: 0 <= j < |ws[0]| ==> text[j] == ws[0][j];
      }
      assert text[..k + 1] == ws[0] + "\n";
      assert text[k + 1..] == rest;
      ReadBack(ws[1..]);
    }
  }

  /**
   Worked example: the lines "niño 120", "nino 5" and "café 30" give
   "cafe", "nino" and "niño", in that order (ñ sorts after every ASCII letter).
   */
  lemma Example(nfkd: string -> string)
    requires AsciiIsFixed(nfkd)
    requires nfkd(['\U{00E9}']) == ['e', '\U{0301}']
    ensures Expected(nfkd, ["ni" + [Enye] + "o 120\n", "nino 5\n", "caf" + ['\U{00E9}'] + " 30\n"])
         == Success("cafe\nnino\nni" + [Enye] + "o\n")
  {
    var lines := ["ni" + [Enye] + "o 120\n", "nino 5\n", "caf" + ['\U{00E9}'] + " 30\n"];
    var ws := ["cafe", "nino", "ni" + [Enye] + "o"];
    ExampleWords(nfkd, lines, ws);
    assert StrictlyAscending(ws) by {
      assert Below("cafe", "nino") && Below("nino", ws[2]);
      BelowTransitive("cafe", "nino", ws[2]);
    }
    ExpectedOutput(nfkd, lines, ws);
    ExampleText();
  }

  /** The example's lines hold the words of `ws` once normalised. */
  lemma ExampleWords(nfkd: string -> string, lines: seq<string>, ws: seq<string>)
    requires AsciiIsFixed(nfkd)
    requires nfkd(['\U{00E9}']) == ['e', '\U{0301}']
    requires lines == ["ni" + [Enye] + "o 120\n", "nino 5\n", "caf" + ['\U{00E9}'] + " 30\n"]
    requires ws == ["cafe", "nino", "ni" + [Enye] + "o"]
    ensures forall i :: 0 <= i < |lines| ==> FirstToken(lines[i]).Some?
    ensures forall w :: w in ws <==> exists i :: 0 <= i < |lines| && w == RemoveDiacritics(nfkd, FirstToken(lines[i]).value)
  {
    var nino, cafe := "ni" + [Enye] + "o", "caf" + ['\U{00E9}'];
    ExampleTokens(lines);
    Examples(nfkd);
    AsciiOrEnyeUnchanged(nfkd, "nino");
    var tokens := [nino, "nino", cafe];
    assert RemoveDiacritics(nfkd, tokens[0]) == ws[2];
    assert RemoveDiacritics(nfkd, tokens[1]) == ws[1];
    assert RemoveDiacritics(nfkd, tokens[2]) == ws[0];
    ImageOfTokens(nfkd, lines, tokens, ws);
  }

  /**
   Three lines whose first tokens normalise to the three words of `ws`, the
   first line to the last word (the example's lines come in descending order).
   Stated for any strings, so that the solver does not unfold the example's
   literals.
   */
  lemma ImageOfTokens(nfkd: string -> string, lines: seq<string>, tokens: seq<string>, ws: seq<string>)
    requires |lines| == |tokens| == |ws| == 3
    requires FirstToken(lines[0]) == Some(tokens[0])
    requires FirstToken(lines[1]) == Some(tokens[1])
    requires FirstToken(lines[2]) == Some(tokens[2])
    requires RemoveDiacritics(nfkd, tokens[0]) == ws[2]
    requires RemoveDiacritics(nfkd, tokens[1]) == ws[1]
    requires RemoveDiacritics(nfkd, tokens[2]) == ws[0]
    ensures forall i :: 0 <= i < |lines| ==> FirstToken(lines[i]).Some?
    ensures forall w :: w in ws <==> exists i :: 0 <= i < |lines| && w == RemoveDiacritics(nfkd, FirstToken(lines[i]).value)
  {
    forall i | 0 <= i < 3
      ensures FirstToken(lines[i]) == Some(tokens[i]) && RemoveDiacritics(nfkd, tokens[i]) == ws[2 - i]
    {
      assert i == 0 || i == 1 || i == 2;
    }
    forall w | w in ws
      ensures exists i :: 0 <= i < |lines| && w == RemoveDiacritics(nfkd, FirstToken(lines[i]).value)
    {
      var k :| 0 <= k < 3 && w == ws[k];
      assert w == RemoveDiacritics(nfkd, tokens[2 - k]);
    }
  }

  /** The first tokens of the example's lines. */
  lemma ExampleTokens(lines: seq<string>)
    requires lines == ["ni" + [Enye] + "o 120\n", "nino 5\n", "caf" + ['\U{00E9}'] + " 30\n"]
    ensures FirstToken(lines[0]) == Some("ni" + [Enye] + "o")
    ensures FirstToken(lines[1]) == Some("nino")
    ensures FirstToken(lines[2]) == Some("caf" + ['\U{00E9}'])
  {
    var nino, cafe := "ni" + [Enye] + "o", "caf" + ['\U{00E9}'];
    FirstTokenOf([], nino, " 120\n");
    FirstTokenOf([], "nino", " 5\n");
    FirstTokenOf([], cafe, " 30\n");
    assert lines[0] == [] + nino + " 120\n";
    assert lines[1] == [] + "nino" + " 5\n";
    assert lines[2] == [] + cafe + " 30\n";
  }

  lemma ExampleText()
    ensures Serialize(["cafe", "nino", "ni" + [Enye] + "o"]) == "cafe\nnino\nni" + [Enye] + "o\n"
  {
    var nino := "ni" + [Enye] + "o";
    var ws := ["cafe", "nino", nino];
    assert ws[1..] == ["nino", nino] && ws[1..][1..] == [nino] && ws[1..][1..][1..] == [];
    assert Serialize([nino]) == nino + "\n" + [];
    assert Serialize(ws[1..]) == "nino" + "\n" + (nino + "\n" + []);
    assert Serialize(ws) == "cafe" + "\n" + ("nino" + "\n" + (nino + "\n" + []));
  }

}
