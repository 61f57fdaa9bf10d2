/**
 * Sentence preprocessing: split on whitespace, drop the words with no
 * letter, and keep only the letters of the others, in lower case.
 * Characters are modelled over ASCII: letters are `A`-`Z` and `a`-`z`, and
 * the separators are the ASCII characters that `str.split()` splits on.
 */
module Preprocess {
  import opened Text

  /** Space, tab, line feed, vertical tab, form feed, carriage return and the four ASCII information separators. */
  predicate IsSpace(c: char)
  {
    9 <= c as int <= 13 || 28 <= c as int <= 32
  }

  predicate IsLetter(c: char)
  {
    'a' <= c <= 'z' || 'A' <= c <= 'Z'
  }

  predicate IsLowerWord(w: string)
  {
    |w| > 0 && forall i :: 0 <= i < |w| ==> 'a' <= w[i] <= 'z'
  }

  function Lower(c: char): (r: char)
    ensures IsLetter(c) ==> 'a' <= r <= 'z'
    ensures 'a' <= c <= 'z' ==> r == c
  {
    if 'A' <= c <= 'Z' then (c as int + 32) as char else c
  }

  /** Length of the run of non-separators at the start of `s`. */
  function WordEnd(s: string): (n: nat)
    ensures n <= |s|
    ensures forall i :: 0 <= i < n ==> !IsSpace(s[i])
    ensures n == |s| || IsSpace(s[n])
  {
    if s == [] || IsSpace(s[0]) then 0 else 1 + WordEnd(s[1..])
  }

  /** `s.split()`: the maximal runs of non-separators, in order. */
  function Words(s: string): (ws: seq<string>)
    ensures forall i :: 0 <= i < |ws| ==> |ws[i]| > 0 && forall j :: 0 <= j < |ws[i]| ==> !IsSpace(ws[i][j])
    decreases |s|
  {
    if s == [] then []
    else if IsSpace(s[0]) then Words(s[1..])
    else
      var n := WordEnd(s);
      [s[..n]] + Words(s[n..])
  }

  /** `is_word`: the word holds at least one letter. */
  predicate IsWord(w: string)
  {
    exists i :: 0 <= i < |w| && IsLetter(w[i])
  }

  /** `filter_word`: the letters of `w`, lowered, in order. */
  function FilterWord(w: string): (r: string)
    ensures forall i :: 0 <= i < |r| ==> 'a' <= r[i] <= 'z'
    ensures r != [] <==> IsWord(w)
  {
    if w == [] then []
    else (if IsLetter(w[0]) then [Lower(w[0])] else []) + FilterWord(w[1..])
  }

  function FilterWords(ws: seq<string>): (r: seq<string>)
    ensures |r| <= |ws|
    ensures forall i :: 0 <= i < |r| ==> IsLowerWord(r[i])
  {
    if ws == [] then []
    else (if IsWord(ws[0]) then [FilterWord(ws[0])] else []) + FilterWords(ws[1..])
  }

  /** `preprocess`: one lower-case token per whitespace-separated word that holds a letter. */
  function Preprocess(sentence: string): (r: seq<string>)
    ensures forall i :: 0 <= i < |r| ==> IsLowerWord(r[i])
  {
    FilterWords(Words(sentence))
  }

  // ---------------------------------------------------------------------

  /** A word made of lower-case letters passes the filter unchanged. */
  lemma {:induction false} FilterLowerWord(w: string)
    requires forall i :: 0 <= i < |w| ==> 'a' <= w[i] <= 'z'
    ensures FilterWord(w) == w
  {
    if w != [] {
      FilterLowerWord(w[1..]);
      assert w == [w[0]] + w[1..];
    }
  }

  lemma {:induction false} FilterLowerWords(ws: seq<string>)
    requires forall i :: 0 <= i < |ws| ==> IsLowerWord(ws[i])
    ensures FilterWords(ws) == ws
  {
    if ws != [] {
      FilterLowerWord(ws[0]);
      assert IsLetter(ws[0][0]);
      FilterLowerWords(ws[1..]);
      assert ws == [ws[0]] + ws[1..];
    }
  }

  lemma {:induction false} WordEndOf(w: string, t: string)
    requires forall i :: 0 <= i < |w| ==> !IsSpace(w[i])
    requires t == [] || IsSpace(t[0])
    ensures WordEnd(w + t) == |w|
  {
    if w != [] {
      assert (w + t)[1..] == w[1..] + t;
      WordEndOf(w[1..], t);
    } else {
      assert w + t == t;
    }
  }

  /** Splitting the space-joined words gives them back. */
  lemma {:induction false} WordsOfJoin(ws: seq<string>)
    requires forall i :: 0 <= i < |ws| ==> |ws[i]| > 0 && forall j :: 0 <= j < |ws[i]| ==> !IsSpace(ws[i][j])
    ensures Words(Join(ws)) == ws
  {
    if |ws| == 1 {
      WordEndOf(ws[0], []);
      assert ws[0] + [] == ws[0];
      assert Join(ws)[|ws[0]|..] == [];
    } else if |ws| > 1 {
      var s := Join(ws);
      var tail := " " + Join(ws[1..]);
      assert s == ws[0] + tail;
      WordEndOf(ws[0], tail);
      assert s[..|ws[0]|] == ws[0];
      assert s[|ws[0]|..] == tail;
      assert tail[1..] == Join(ws[1..]);
      WordsOfJoin(ws[1..]);
      assert ws == [ws[0]] + ws[1..];
    }
  }

  /** Preprocessing its own output, re-joined with spaces, changes nothing. */
  lemma PreprocessIdempotent(sentence: string)
    ensures Preprocess(Join(Preprocess(sentence))) == Preprocess(sentence)
  {
    var tokens := Preprocess(sentence);
    WordsOfJoin(tokens);
    FilterLowerWords(tokens);
  }

  // ---------------------------------------------------------------------
  // Case does not matter

  /** `s.lower()` over ASCII. */
  function Lowered(s: string): (r: string)
    ensures |r| == |s| && forall i :: 0 <= i < |s| ==> r[i] == Lower(s[i])
  {
    seq(|s|, i requires 0 <= i < |s| => Lower(s[i]))
  }

  function LoweredAll(ws: seq<string>): (r: seq<string>)
    ensures |r| == |ws|
  {
    if ws == [] then [] else [Lowered(ws[0])] + LoweredAll(ws[1..])
  }

  lemma LowerKeepsKind(c: char)
    ensures IsSpace(Lower(c)) == IsSpace(c)
    ensures IsLetter(Lower(c)) == IsLetter(c)
    ensures Lower(Lower(c)) == Lower(c)
  {
  }

  lemma {:induction false} WordEndLowered(s: string)
    ensures WordEnd(Lowered(s)) == WordEnd(s)
  {
    if s != [] {
      LowerKeepsKind(s[0]);
      assert Lowered(s)[1..] == Lowered(s[1..]);
      WordEndLowered(s[1..]);
    }
  }

  /** Lowering before splitting is lowering each word after splitting. */
  lemma {:induction false} WordsLowered(s: string)
    ensures Words(Lowered(s)) == LoweredAll(Words(s))
    decreases |s|
  {
    if s != [] {
      LowerKeepsKind(s[0]);
      if IsSpace(s[0]) {
        assert Lowered(s)[1..] == Lowered(s[1..]);
        WordsLowered(s[1..]);
      } else {
        var n := WordEnd(s);
        WordEndLowered(s);
        assert Lowered(s)[..n] == Lowered(s[..n]);
        assert Lowered(s)[n..] == Lowered(s[n..]);
        WordsLowered(s[n..]);
        assert ([s[..n]] + Words(s[n..]))[1..] == Words(s[n..]);
      }
    }
  }

  lemma {:induction false} FilterWordLowered(w: string)
    ensures FilterWord(Lowered(w)) == FilterWord(w)
    ensures IsWord(Lowered(w)) == IsWord(w)
  {
    if w != [] {
      LowerKeepsKind(w[0]);
      assert Lowered(w)[1..] == Lowered(w[1..]);
      FilterWordLowered(w[1..]);
    }
  }

  lemma {:induction false} FilterWordsLowered(ws: seq<string>)
    ensures FilterWords(LoweredAll(ws)) == FilterWords(ws)
  {
    if ws != [] {
      FilterWordLowered(ws[0]);
      FilterWordsLowered(ws[1..]);
      assert LoweredAll(ws)[1..] == LoweredAll(ws[1..]);
    }
  }

  /** Preprocessing does not depend on the case of the letters. */
  lemma PreprocessIgnoresCase(sentence: string)
    ensures Preprocess(Lowered(sentence)) == Preprocess(sentence)
  {
    WordsLowered(sentence);
    FilterWordsLowered(Words(sentence));
  }
}
