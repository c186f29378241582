# Spanish word list normaliser, modelled in Dafny

`fix_spanish_wordlist.py` turns a Spanish word list into the dictionary a
word game solver uses. It has two steps.

- `main` takes the first whitespace-separated token of every line and collects
  the tokens in a set. It maps each one through `remove_diacritics` and
  collapses the results into a set again. It then sorts them and writes one
  word per line, each followed by a line break.
- `remove_diacritics` reduces a word to ASCII but keeps the letter ñ:
  1. Every ñ is hidden behind the ASCII marker `_ENYE_`.
  2. The word is put into Unicode compatibility decomposition (NFKD, Unicode
     Standard Annex #15).
  3. Only the characters below code point 128 are kept.
  4. The marker is turned back into ñ.

The model has five modules:

- `Wrappers`: `Option` and `Result`.
- `Strings`: `str.replace` as Python defines it. It scans from the left and
  replaces non-overlapping occurrences.
- `Diacritics`: `remove_diacritics` and what it keeps and drops.
- `Sorting`: Python's ordering of unicode strings (lexicographic by code
  point, a proper prefix first), and `list.sort` applied to a set of words.
- `Wordlist`: `main`.
  - `FixWordlist`, with its two loops `CollectTokens` and `WriteWords`, is
    imperative and proved equal to the specification function `Expected`.
  - The properties of `Expected` are proved as lemmas.

The decomposition comes from a library and is a parameter
`nfkd: string -> string`. Only one thing is assumed about it, the predicate
`Diacritics.AsciiIsFixed`:

- the empty string decomposes to itself;
- an ASCII character decomposes to itself and splits the decomposition:
  `nfkd(a + [c] + b) == nfkd(a) + [c] + nfkd(b)`. This holds because every
  ASCII character is a starter (canonical combining class 0), so canonical
  reordering never moves anything across it.

Every lemma that depends on the decomposition takes this as a precondition.

`str.split()[0]` raises an exception on a line without a token. The model
returns that as `Failure(BlankLine(i))`, where `i` is the index of the first
such line. The script raises before it opens the output file, so nothing is
written in that case.

## Model

| member | source | states |
|---|---|---|
| Strings.Replace | fix_spanish_wordlist.py:22 | every character of the result comes from the text or from the replacement |
| Strings.ReplaceWithoutMatch | fix_spanish_wordlist.py:26 | text that does not contain the pattern is returned unchanged |
| Strings.ReplaceWithMatch | fix_spanish_wordlist.py:26 | text that contains the pattern gets the replacement in the result |
| Strings.ReplaceSkips | fix_spanish_wordlist.py:22 | a prefix without the pattern's first character is copied unchanged and the scan continues after it |
| Strings.ReplaceAtMatch | fix_spanish_wordlist.py:22 | a match at the front becomes the replacement and the scan resumes after the match |
| Strings.ReplaceUndo | fix_spanish_wordlist.py:22-26 | replacing the pattern by a character the text lacks and then that character by the pattern gives the text back |
| Strings.ReplaceCount | fix_spanish_wordlist.py:26 | replacing by a character the text lacks puts in exactly one copy per match of the scan |
| Strings.MatchesSuffix | fix_spanish_wordlist.py:26 | the scan finds at least as many matches in a text as in any suffix of it |
| Strings.MatchesShift | fix_spanish_wordlist.py:26 | starting the scan at most one pattern length later loses at most one match |
| Strings.MatchesAfter | fix_spanish_wordlist.py:26 | an occurrence of the pattern adds one match to those found in the text after it |
| Diacritics.AsciiIsFixed | fix_spanish_wordlist.py:24 | the one assumption about the decomposition: the empty string stays empty and every ASCII character stays itself and splits the string around it |
| Diacritics.KeepAscii | fix_spanish_wordlist.py:25 | the filter keeps only ASCII characters, all taken from the input, and returns an all-ASCII input unchanged |
| Diacritics.KeepAsciiAppend | fix_spanish_wordlist.py:25 | filtering distributes over concatenation |
| Diacritics.KeepAsciiRun | fix_spanish_wordlist.py:25 | an ASCII run stays in place between its filtered surroundings |
| Diacritics.NfkdAsciiPrefix | fix_spanish_wordlist.py:24 | assuming ASCII is fixed, an ASCII prefix passes through the decomposition unchanged |
| Diacritics.NfkdAsciiRun | fix_spanish_wordlist.py:24 | assuming ASCII is fixed, an ASCII run anywhere passes through and splits the decomposition |
| Diacritics.RemoveDiacritics | fix_spanish_wordlist.py:20-27 | every character of the result is ASCII or ñ |
| Diacritics.AsciiCharSurvives | fix_spanish_wordlist.py:20-27 | an ASCII character other than `_` at the front of a word comes out unchanged, followed by the transform of the rest |
| Diacritics.HideEnye | fix_spanish_wordlist.py:22 | the first ñ after an ñ-free prefix becomes the marker |
| Diacritics.RestoreEnye | fix_spanish_wordlist.py:26 | the first marker after a prefix without `_` becomes ñ |
| Diacritics.EnyeSurvives | fix_spanish_wordlist.py:22-26 | at an ñ whose ñ-free prefix leaves an ASCII residue without `_`, the result is that residue, then ñ, then the transform of the rest of the word |
| Diacritics.ResidueSplits | fix_spanish_wordlist.py:22-25 | at the first ñ the ASCII residue splits into the residue of the part before it, the placeholder, and the residue of the rest |
| Diacritics.EnyeCount | fix_spanish_wordlist.py:22-26 | no ñ is lost: the result holds at least as many ñ as the word, for every word |
| Diacritics.PlaceholdersKept | fix_spanish_wordlist.py:22-26 | the restore scan finds at least one placeholder per ñ of the word |
| Diacritics.WithoutEnye | fix_spanish_wordlist.py:20-27 | a word without ñ becomes its ASCII residue with the marker restored, and exactly its residue when the residue has no `_` |
| Diacritics.AsciiOrEnyeUnchanged | fix_spanish_wordlist.py:20-27 | a word of ASCII characters other than `_` and ñ is returned unchanged |
| Diacritics.Idempotent | fix_spanish_wordlist.py:20-27 | normalising a result again changes nothing, for every word |
| Diacritics.AsciiWord | fix_spanish_wordlist.py:20-27 | an all-ASCII word comes out with every `_ENYE_` replaced by ñ, so it is unchanged exactly when it does not contain `_ENYE_` |
| Diacritics.EnyeDisplaced | fix_spanish_wordlist.py:22-26 | the marker can overlap the word's own text: `_ENYE` followed by ñ comes out as ñ followed by `ENYE_` |
| Diacritics.AccentDropped | fix_spanish_wordlist.py:24-25 | an ASCII stem without `_` followed by a letter that decomposes to e and U+0301 (as é does) comes out as the stem followed by e |
| Diacritics.Examples | fix_spanish_wordlist.py:20-27 | "café" becomes "cafe" and "niño" keeps its ñ |
| Sorting.Below | fix_spanish_wordlist.py:12 | Python's `<` on unicode strings: lexicographic by code point, with a proper prefix first |
| Sorting.BelowIrreflexive | fix_spanish_wordlist.py:12 | no word sorts before itself |
| Sorting.BelowAsymmetric | fix_spanish_wordlist.py:12 | two words never sort before each other |
| Sorting.BelowTransitive | fix_spanish_wordlist.py:12 | the string order is transitive |
| Sorting.BelowTotal | fix_spanish_wordlist.py:12 | any two different words are ordered one way or the other |
| Sorting.AscendingDistinct | fix_spanish_wordlist.py:11-12 | a strictly ascending list has no duplicates, each entry sorts before the next, and it has as many distinct words as entries |
| Sorting.DistinctCard | fix_spanish_wordlist.py:11 | a list without duplicates has as many distinct words as entries |
| Sorting.Insert | fix_spanish_wordlist.py:12 | inserting into a strictly ascending list keeps it strictly ascending and adds exactly the new word |
| Sorting.Sorted | fix_spanish_wordlist.py:11-12 | the ascending list of a set is strictly ascending and holds exactly the set's words |
| Sorting.AscendingUnique | fix_spanish_wordlist.py:11-12 | two strictly ascending lists with the same words are the same list |
| Sorting.SameHead | fix_spanish_wordlist.py:12 | two strictly ascending lists with the same words start with the same word |
| Sorting.AscendingTail | fix_spanish_wordlist.py:12 | the tail of a strictly ascending list is strictly ascending and holds every word but the first |
| Sorting.SortWords | fix_spanish_wordlist.py:11-12 | turning the set into a list and sorting it gives the strictly ascending list of exactly the set's words, whatever order the words were taken in |
| Wordlist.IsSpace | fix_spanish_wordlist.py:8 | the six characters `str.split()` separates at: space, tab, line feed, carriage return, vertical tab, form feed |
| Wordlist.FirstToken | fix_spanish_wordlist.py:8 | `line.split()[0]`, or nothing when the line has no token; characterised by the four lemmas below |
| Wordlist.DropSpaceSpec | fix_spanish_wordlist.py:8 | only leading whitespace is dropped, up to the first other character |
| Wordlist.TakeWordSpec | fix_spanish_wordlist.py:8 | the word taken is a whitespace-free prefix that ends at whitespace or at the end of the line |
| Wordlist.FirstTokenNone | fix_spanish_wordlist.py:8 | `split()[0]` fails exactly on a line of whitespace only, the empty line included |
| Wordlist.FirstTokenShape | fix_spanish_wordlist.py:8 | otherwise the first token is non-empty, has no whitespace, follows leading whitespace only, and is followed by whitespace or the end of the line |
| Wordlist.FirstTokenOf | fix_spanish_wordlist.py:8 | a token after leading whitespace and before whitespace or the end is the first token, whatever follows it |
| Wordlist.FirstBlank | fix_spanish_wordlist.py:7-8 | the index of the first line without a token, with a token on every line before it, and no index exactly when every line has a token |
| Wordlist.FirstBlankAt | fix_spanish_wordlist.py:7-8 | a line without a token preceded only by lines with one is the first blank line |
| Wordlist.FirstBlankSnoc | fix_spanish_wordlist.py:7-8 | appending a line with a token does not move the first blank line |
| Wordlist.Tokens | fix_spanish_wordlist.py:6-9 | the set the first loop fills: the first tokens of the lines that have one |
| Wordlist.Normalise | fix_spanish_wordlist.py:10-11 | `set(map(remove_diacritics, words))`: the image of the token set |
| Wordlist.Expected | fix_spanish_wordlist.py:5-17 | what `main` produces: a failure at the first blank line, or the text of the ascending list of the normalised tokens |
| Wordlist.Serialize | fix_spanish_wordlist.py:14-16 | every character written is a line break or a character of some word |
| Wordlist.FixWordlist | fix_spanish_wordlist.py:5-17 | the script fails at the first blank line, and otherwise writes the serialised ascending list of the normalised first tokens |
| Wordlist.CollectTokens | fix_spanish_wordlist.py:6-9 | the first loop fails exactly when some line is blank, reports the first one, and otherwise yields the set of first tokens |
| Wordlist.WriteWords | fix_spanish_wordlist.py:14-16 | the output loop writes each word followed by a line break, in list order |
| Wordlist.TokensStep | fix_spanish_wordlist.py:9 | each loop step adds that line's first token to the set |
| Wordlist.TokensSnoc | fix_spanish_wordlist.py:6-9 | a further line adds exactly its first token to the set |
| Wordlist.SerializeAppend | fix_spanish_wordlist.py:14-16 | writing one more word appends the word and a line break |
| Wordlist.ExpectedOutput | fix_spanish_wordlist.py:10-12 | the output is the serialisation of the one strictly ascending list whose words are exactly the normalised first tokens |
| Wordlist.OrderIndependent | fix_spanish_wordlist.py:6-11 | reordering the lines or repeating them does not change whether the script succeeds, nor what it writes |
| Wordlist.SameWords | fix_spanish_wordlist.py:6-11 | inputs without blank lines whose lines have the same first tokens, however often, in whatever order and whatever follows them, give the same text |
| Wordlist.TokensCovered | fix_spanish_wordlist.py:6-9 | when every line's first token is also the first token of a line of another input, the token set is included in the other's |
| Wordlist.SameTokens | fix_spanish_wordlist.py:6-11 | inputs without blank lines and with the same token set give the same text |
| Wordlist.TokensOfSameLines | fix_spanish_wordlist.py:6-9 | lists with the same lines have the same token set |
| Wordlist.TokensIncluded | fix_spanish_wordlist.py:6-9 | the token set grows with the set of lines |
| Wordlist.DuplicateWord | fix_spanish_wordlist.py:6-11 | a further line whose first token was already seen changes nothing, whatever the rest of that line holds |
| Wordlist.BlankLineFails | fix_spanish_wordlist.py:7-8 | a whitespace-only line makes the script fail at it or at an earlier whitespace-only line, and every line before the reported one has a token |
| Wordlist.OutputCharset | fix_spanish_wordlist.py:14-16 | every character written is ASCII or ñ |
| Wordlist.LineEnd | fix_spanish_wordlist.py:16 | the index of the first line break, or the end when the text has none |
| Wordlist.ReadBack | fix_spanish_wordlist.py:14-16 | reading the output back line by line gives each word, in order, followed by its line break, as long as no word holds a line break |
| Wordlist.ExampleTokens | fix_spanish_wordlist.py:8 | the first tokens of "niño 120", "nino 5" and "café 30" are the words before the numbers |
| Wordlist.ImageOfTokens | fix_spanish_wordlist.py:10-11 | when three lines' first tokens normalise to the three words of a list, last to first, those words are exactly the normalised tokens |
| Wordlist.ExampleWords | fix_spanish_wordlist.py:8-11 | the example lines normalise to "cafe", "nino" and "niño" |
| Wordlist.ExampleText | fix_spanish_wordlist.py:14-16 | the example's list is written as "cafe\nnino\nniño\n" |
| Wordlist.Example | fix_spanish_wordlist.py:5-17 | the lines "niño 120", "nino 5" and "café 30" give "cafe", "nino" and "niño" in that order, because ñ sorts after every ASCII letter |

## Left out

- File I/O (fix_spanish_wordlist.py:7, 13, 15-17). The input is the sequence of its lines, each with its line break, and the output is the text that would be written. The never-called `out.close` (line 17) is not modelled.
- The hard-coded input and output paths of the `__main__` block (lines 30-32).
- The NFKD table (`unicodedata.normalize`, line 24). It is a parameter, and the only thing assumed of it is that ASCII is fixed. So no lemma says what happens to a particular non-ASCII letter unless that is given as a precondition (as `Diacritics.Examples` does for é). For example, uppercase Ñ decomposes to N and a combining tilde, and so comes out as plain N. That follows from the code as written, but the model cannot show it without such a precondition.
- UTF-8 decoding and encoding (lines 15 and 21) and Python 2's split between byte strings and unicode. Words are sequences of code points throughout. A first token that is not valid UTF-8 makes the script raise (line 21) before the output is opened; that failure is not modelled. The rest of a line is never decoded.
- `Diacritics.EnyeSurvives`: the positional form needs the ASCII residue before the ñ to have no `_`, or the restore scan can take a placeholder that starts inside that residue (`Diacritics.EnyeDisplaced` shows such a word). For every word, `Diacritics.EnyeCount` states only that no ñ is lost, not where each one ends up.
- `Wordlist.FixWordlist`: the exception `split()[0]` raises on a blank line becomes a `Failure` result. The stack trace and the exit status are not modelled.
- `Wordlist.OrderIndependent`: when both inputs fail, it does not claim that the reported line index is the same. The first blank line does depend on the order of the lines.
