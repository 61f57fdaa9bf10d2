/**
 * The retrieval half of the question answerer: inverse document frequencies
 * over a collection of word lists, tf-idf ranking of files, and ranking of
 * sentences by summed idf with query-term density breaking ties.
 *
 * A Python dictionary from names to word lists is a sequence of `Doc`s with
 * distinct names, in insertion order (the order the dictionary iterates in).
 * Scores are real numbers; `math.log` is the parameter `log`.
 */
module Questions {
  import opened Ranking

  /** One entry of a name-keyed dictionary of word lists: a file or a sentence. */
  datatype Doc = Doc(name: string, words: seq<string>)

  /** Dictionary keys are unique. */
  predicate DistinctNames(docs: seq<Doc>)
  {
    forall i, j :: 0 <= i < j < |docs| ==> docs[i].name != docs[j].name
  }

  /** The dictionary's keys in iteration order. */
  function Names(docs: seq<Doc>): (r: seq<string>)
    ensures |r| == |docs| && forall i :: 0 <= i < |docs| ==> r[i] == docs[i].name
  {
    seq(|docs|, i requires 0 <= i < |docs| => docs[i].name)
  }

  lemma NamesDistinct(docs: seq<Doc>)
    requires DistinctNames(docs)
    ensures Distinct(Names(docs))
  {
  }

  lemma NamesMember(docs: seq<Doc>, x: string)
    ensures x in Names(docs) <==> exists i :: 0 <= i < |docs| && docs[i].name == x
  {
    if x in Names(docs) {
      var i :| 0 <= i < |Names(docs)| && Names(docs)[i] == x;
      assert docs[i].name == x;
    }
  }

  // ---------------------------------------------------------------------
  // Document frequency and idf

  /** `w` is one of the words of some document. */
  ghost predicate Occurs(docs: seq<Doc>, w: string)
  {
    exists i :: 0 <= i < |docs| && w in docs[i].words
  }

  /** The names of the documents that contain `w`, in dictionary order. */
  function DocsContaining(docs: seq<Doc>, w: string): seq<string>
  {
    if docs == [] then []
    else
      var last := docs[|docs| - 1];
      DocsContaining(docs[..|docs| - 1], w) + if w in last.words then [last.name] else []
  }

  lemma {:induction false} DocsContainingMember(docs: seq<Doc>, w: string, x: string)
    ensures x in DocsContaining(docs, w) <==>
      exists i :: 0 <= i < |docs| && docs[i].name == x && w in docs[i].words
  {
    if docs != [] {
      var init := docs[..|docs| - 1];
      DocsContainingMember(init, w, x);
      if exists i :: 0 <= i < |docs| && docs[i].name == x && w in docs[i].words {
        var i :| 0 <= i < |docs| && docs[i].name == x && w in docs[i].words;
        if i < |docs| - 1 {
          assert init[i] == docs[i];
        }
      }
      if x in DocsContaining(init, w) {
        var i :| 0 <= i < |init| && init[i].name == x && w in init[i].words;
        assert docs[i] == init[i];
      }
    }
  }

  /**
   * The document frequency of `w`: at most the number of documents, non-zero
   * exactly when `w` occurs, and equal to the number of documents exactly
   * when every document contains `w`.
   */
  lemma {:induction false} DocFrequency(docs: seq<Doc>, w: string)
    ensures |DocsContaining(docs, w)| <= |docs|
    ensures DocsContaining(docs, w) != [] <==> Occurs(docs, w)
    ensures |DocsContaining(docs, w)| == |docs| <==> forall i :: 0 <= i < |docs| ==> w in docs[i].words
  {
    if docs != [] {
      var init := docs[..|docs| - 1];
      var last := docs[|docs| - 1];
      DocFrequency(init, w);
      if Occurs(init, w) {
        var i :| 0 <= i < |init| && w in init[i].words;
        assert w in docs[i].words;
      }
      if Occurs(docs, w) && w !in last.words {
        var i :| 0 <= i < |docs| && w in docs[i].words;
        assert w in init[i].words;
      }
      if forall i :: 0 <= i < |docs| ==> w in docs[i].words {
        assert forall i :: 0 <= i < |init| ==> init[i] == docs[i];
      }
      if |DocsContaining(docs, w)| == |docs| {
        forall i | 0 <= i < |docs|
          ensures w in docs[i].words
        {
          if i < |init| {
            assert init[i] == docs[i];
          }
        }
      }
    }
  }

  /** With unique names no document is listed twice. */
  lemma {:induction false} DocsContainingDistinct(docs: seq<Doc>, w: string)
    requires DistinctNames(docs)
    ensures Distinct(DocsContaining(docs, w))
  {
    if docs != [] {
      var init := docs[..|docs| - 1];
      var last := docs[|docs| - 1];
      DocsContainingDistinct(init, w);
      if w in last.words {
        DocsContainingMember(init, w, last.name);
      }
    }
  }

  /**
   * The ratio idf takes the logarithm of is at least 1 for every word that
   * occurs, and exactly 1 for a word every document contains.
   */
  lemma IdfRatio(docs: seq<Doc>, w: string)
    requires Occurs(docs, w)
    ensures DocsContaining(docs, w) != []
    ensures |docs| as real / |DocsContaining(docs, w)| as real >= 1.0
    ensures |docs| as real / |DocsContaining(docs, w)| as real == 1.0 <==>
      forall i :: 0 <= i < |docs| ==> w in docs[i].words
  {
    DocFrequency(docs, w);
    RatioAtLeastOne(|docs|, |DocsContaining(docs, w)|);
  }

  lemma RatioAtLeastOne(a: nat, b: nat)
    requires 0 < b <= a
    ensures a as real / b as real >= 1.0
    ensures a as real / b as real == 1.0 <==> a == b
  {
    var r := a as real / b as real;
    assert r * b as real == a as real;
    assert (r - 1.0) * b as real == (a - b) as real;
  }

  /** The second loop of `compute_idfs`: one idf per word, from its list of documents. */
  method IdfsFromCounts(containing: map<string, seq<string>>, total: nat, log: real -> real) returns (idf: map<string, real>)
    requires forall w :: w in containing ==> containing[w] != []
    ensures idf.Keys == containing.Keys
    ensures forall w :: w in idf ==> idf[w] == log(total as real / |containing[w]| as real)
  {
    idf := map[];
    var pending := containing.Keys;
    while pending != {}
      invariant pending <= containing.Keys
      invariant forall w :: w in idf <==> w in containing && w !in pending
      invariant forall w :: w in idf ==> idf[w] == log(total as real / |containing[w]| as real)
      decreases |pending|
    {
      var word :| word in pending;
      idf := idf[word := log(total as real / |containing[word]| as real)];
      pending := pending - {word};
    }
  }

  /**
   * `compute_idfs`: every word of every document gets the logarithm of the
   * number of documents over the number of documents containing it.
   */
  method ComputeIdfs(documents: seq<Doc>, log: real -> real) returns (idf: map<string, real>)
    requires DistinctNames(documents)
    ensures forall w :: w in idf <==> Occurs(documents, w)
    ensures forall w :: w in idf ==>
      DocsContaining(documents, w) != [] &&
      idf[w] == log(|documents| as real / |DocsContaining(documents, w)| as real)
  {
    var containing: map<string, seq<string>> := map[];
    for d := 0 to |documents|
      invariant forall w :: w in containing <==> DocsContaining(documents[..d], w) != []
      invariant forall w :: w in containing ==> containing[w] == DocsContaining(documents[..d], w)
    {
      var doc := documents[d];
      assert documents[..d + 1][..d] == documents[..d];
      forall w
        ensures doc.name !in DocsContaining(documents[..d], w)
      {
        DocsContainingMember(documents[..d], w, doc.name);
      }
      for j := 0 to |doc.words|
        invariant forall w :: w in containing <==>
          DocsContaining(documents[..d], w) != [] || w in doc.words[..j]
        invariant forall w :: w in containing ==>
          containing[w] == DocsContaining(documents[..d], w) + if w in doc.words[..j] then [doc.name] else []
      {
        var word := doc.words[j];
        assert doc.words[..j + 1] == doc.words[..j] + [word];
        if word !in containing || containing[word] == [] {
          containing := containing[word := [doc.name]];
        } else if doc.name !in containing[word] {
          containing := containing[word := containing[word] + [doc.name]];
        }
      }
      assert doc.words[..|doc.words|] == doc.words;
    }
    assert documents[..|documents|] == documents;

    idf := IdfsFromCounts(containing, |documents|, log);
    forall w
      ensures w in idf <==> Occurs(documents, w)
    {
      DocFrequency(documents, w);
    }
  }

  // ---------------------------------------------------------------------
  // Sums over sets of words

  /** The sum of `f` over a finite set (Python's `sum` over a set; no rounding). */
  ghost function SetSum(s: set<string>, f: string -> real): real
  {
    if s == {} then 0.0
    else
      var x :| x in s;
      f(x) + SetSum(s - {x}, f)
  }

  lemma {:induction false} SetSumRemove(s: set<string>, f: string -> real, y: string)
    requires y in s
    ensures SetSum(s, f) == f(y) + SetSum(s - {y}, f)
    decreases |s|
  {
    var x :| x in s && SetSum(s, f) == f(x) + SetSum(s - {x}, f);
    if x != y {
      SetSumRemove(s - {x}, f, y);
      SetSumRemove(s - {y}, f, x);
      assert s - {x} - {y} == s - {y} - {x};
    }
  }

  /** Sums of functions that agree on the set are equal. */
  lemma {:induction false} SetSumCongruent(s: set<string>, f: string -> real, g: string -> real)
    requires forall w :: w in s ==> f(w) == g(w)
    ensures SetSum(s, f) == SetSum(s, g)
    decreases |s|
  {
    if s != {} {
      var x :| x in s;
      SetSumRemove(s, f, x);
      SetSumRemove(s, g, x);
      SetSumCongruent(s - {x}, f, g);
    }
  }

  lemma {:induction false} SetSumNonNegative(s: set<string>, f: string -> real)
    requires forall w :: w in s ==> f(w) >= 0.0
    ensures SetSum(s, f) >= 0.0
    decreases |s|
  {
    if s != {} {
      var x :| x in s;
      SetSumRemove(s, f, x);
      SetSumNonNegative(s - {x}, f);
    }
  }

  /** `sum(f(w) for w in s)`. */
  method Sum(s: set<string>, f: string -> real) returns (total: real)
    ensures total == SetSum(s, f)
  {
    total := 0.0;
    var pending := s;
    while pending != {}
      invariant pending <= s
      invariant total + SetSum(pending, f) == SetSum(s, f)
      decreases |pending|
    {
      var w :| w in pending;
      SetSumRemove(pending, f, w);
      total := total + f(w);
      pending := pending - {w};
    }
  }

  // ---------------------------------------------------------------------
  // Files: tf-idf

  /** How many times `w` occurs in `ws`. */
  function Count(ws: seq<string>, w: string): nat
  {
    if ws == [] then 0
    else Count(ws[..|ws| - 1], w) + if ws[|ws| - 1] == w then 1 else 0
  }

  lemma {:induction false} CountAbsent(ws: seq<string>, w: string)
    ensures Count(ws, w) == 0 <==> w !in ws
  {
    if ws != [] {
      var init := ws[..|ws| - 1];
      CountAbsent(init, w);
      assert ws == init + [ws[|ws| - 1]];
    }
  }

  /** Query words the file contains that have an idf. */
  ghost function Matched(query: set<string>, words: seq<string>, idfs: map<string, real>): set<string>
  {
    set w | w in query && w in idfs && w in words
  }

  /** A word's idf times its frequency in `words`. */
  ghost function TfIdf(idfs: map<string, real>, words: seq<string>): string -> real
  {
    w => if w in idfs then idfs[w] * Count(words, w) as real else 0.0
  }

  /** The tf-idf score of a file for a query. */
  ghost function FileScore(query: set<string>, words: seq<string>, idfs: map<string, real>): real
  {
    SetSum(Matched(query, words, idfs), TfIdf(idfs, words))
  }

  /** The `score` dictionary after the files in `files` have been scored. */
  ghost function FileScores(query: set<string>, files: seq<Doc>, idfs: map<string, real>): map<string, real>
  {
    if files == [] then map[]
    else
      var last := files[|files| - 1];
      FileScores(query, files[..|files| - 1], idfs)[last.name := FileScore(query, last.words, idfs)]
  }

  lemma {:induction false} FileScoresKeys(query: set<string>, files: seq<Doc>, idfs: map<string, real>)
    ensures forall x :: x in FileScores(query, files, idfs) <==> x in Names(files)
  {
    if files != [] {
      var init := files[..|files| - 1];
      FileScoresKeys(query, init, idfs);
      forall x
        ensures x in FileScores(query, files, idfs) <==> x in Names(files)
      {
        NamesMember(files, x);
        NamesMember(init, x);
        if x in Names(init) {
          var i :| 0 <= i < |init| && init[i].name == x;
          assert files[i] == init[i];
        }
      }
    }
  }

  /** The score dictionary holds each file's own tf-idf score. */
  lemma {:induction false} FileScoresAt(query: set<string>, files: seq<Doc>, idfs: map<string, real>)
    requires DistinctNames(files)
    ensures forall i :: 0 <= i < |files| ==>
      files[i].name in FileScores(query, files, idfs) &&
      FileScores(query, files, idfs)[files[i].name] == FileScore(query, files[i].words, idfs)
  {
    if files != [] {
      var init := files[..|files| - 1];
      FileScoresAt(query, init, idfs);
      FileScoresKeys(query, files, idfs);
      forall i | 0 <= i < |files|
        ensures files[i].name in FileScores(query, files, idfs)
      {
        NamesMember(files, files[i].name);
      }
      forall i | 0 <= i < |init|
        ensures FileScores(query, files, idfs)[files[i].name] == FileScore(query, files[i].words, idfs)
      {
        assert init[i] == files[i];
      }
    }
  }

  /** The score of a file read word by word: each occurrence of a query word adds its idf. */
  function OccurrenceScore(query: set<string>, words: seq<string>, idfs: map<string, real>): real
  {
    if words == [] then 0.0
    else
      var w := words[|words| - 1];
      OccurrenceScore(query, words[..|words| - 1], idfs) + if w in query && w in idfs then idfs[w] else 0.0
  }

  lemma CountSnoc(ws: seq<string>, v: string, w: string)
    ensures Count(ws + [v], w) == Count(ws, w) + if v == w then 1 else 0
  {
    assert (ws + [v])[..|ws|] == ws;
  }

  lemma MatchedSnoc(query: set<string>, ws: seq<string>, v: string, idfs: map<string, real>)
    ensures Matched(query, ws + [v], idfs) ==
      Matched(query, ws, idfs) + if v in query && v in idfs then {v} else {}
  {
  }

  /** Appending `v` leaves the tf-idf term of every other word unchanged. */
  lemma TfIdfSnoc(idfs: map<string, real>, ws: seq<string>, v: string, s: set<string>)
    ensures forall w :: w in s - {v} ==> TfIdf(idfs, ws)(w) == TfIdf(idfs, ws + [v])(w)
    ensures TfIdf(idfs, ws + [v])(v) == TfIdf(idfs, ws)(v) + if v in idfs then idfs[v] else 0.0
  {
    forall w | w in s - {v}
      ensures TfIdf(idfs, ws)(w) == TfIdf(idfs, ws + [v])(w)
    {
      CountSnoc(ws, v, w);
    }
    CountSnoc(ws, v, v);
  }

  /** One more word changes the tf-idf score by that word's idf when it is a query word with an idf. */
  lemma FileScoreSnoc(query: set<string>, ws: seq<string>, v: string, idfs: map<string, real>)
    ensures FileScore(query, ws + [v], idfs) ==
      FileScore(query, ws, idfs) + if v in query && v in idfs then idfs[v] else 0.0
  {
    var s, s' := Matched(query, ws, idfs), Matched(query, ws + [v], idfs);
    var f, f' := TfIdf(idfs, ws), TfIdf(idfs, ws + [v]);
    MatchedSnoc(query, ws, v, idfs);
    TfIdfSnoc(idfs, ws, v, s);
    SetSumCongruent(s - {v}, f, f');
    if v in query && v in idfs {
      assert s' - {v} == s - {v};
      SetSumRemove(s', f', v);
      if v in s {
        SetSumRemove(s, f, v);
      } else {
        CountAbsent(ws, v);
        assert s - {v} == s;
      }
    } else {
      assert s' == s && s - {v} == s;
      assert SetSum(s', f') == SetSum(s, f);
    }
  }

  /** tf-idf over the distinct query words equals the sum over the file's word occurrences. */
  lemma {:induction false} FileScoreByOccurrence(query: set<string>, words: seq<string>, idfs: map<string, real>)
    ensures FileScore(query, words, idfs) == OccurrenceScore(query, words, idfs)
  {
    if words == [] {
      assert Matched(query, words, idfs) == {};
    } else {
      var init := words[..|words| - 1];
      FileScoreByOccurrence(query, init, idfs);
      assert words == init + [words[|words| - 1]];
      FileScoreSnoc(query, init, words[|words| - 1], idfs);
    }
  }

  function RealLe(a: real, b: real): bool
  {
    a <= b
  }

  lemma RealLeTotal()
    ensures TotalPreorder(RealLe)
  {
  }

  /**
   * The body of the scoring loop of `top_files` for one file: count the
   * query words (`tfs`), then sum idf times count over the query words that
   * have an idf.
   */
  method ScoreFile(query: set<string>, words: seq<string>, idfs: map<string, real>) returns (total: real)
    ensures total == FileScore(query, words, idfs)
  {
    var tfs: map<string, int> := map[];
    for j := 0 to |words|
      invariant forall w :: w in tfs <==> w in query && w in words[..j]
      invariant forall w :: w in tfs ==> tfs[w] == Count(words[..j], w) > 0
    {
      var word := words[j];
      CountSnoc(words[..j], word, word);
      assert words[..j + 1] == words[..j] + [word];
      forall w | w != word
        ensures Count(words[..j + 1], w) == Count(words[..j], w)
      {
        CountSnoc(words[..j], word, w);
      }
      if word !in query {
        continue;
      } else if word !in tfs || tfs[word] == 0 {
        CountAbsent(words[..j], word);
        tfs := tfs[word := 1];
      } else {
        tfs := tfs[word := tfs[word] + 1];
      }
    }
    assert words[..|words|] == words;
    var matched := tfs.Keys * idfs.Keys * query;
    assert matched == Matched(query, words, idfs);
    var g := w => if w in idfs && w in tfs then idfs[w] * tfs[w] as real else 0.0;
    SetSumCongruent(matched, g, TfIdf(idfs, words));
    total := Sum(matched, g);
  }

  /**
   * `top_files`: the names of the `n` files with the highest tf-idf scores,
   * best first, ties in dictionary order.
   */
  method TopFiles(query: set<string>, files: seq<Doc>, idfs: map<string, real>, n: int) returns (ranking: seq<string>)
    requires DistinctNames(files)
    ensures HasKeys(Names(files), FileScores(query, files, idfs))
    ensures ranking == TopN(Names(files), FileScores(query, files, idfs), RealLe, n)
    ensures IsTopN(ranking, Names(files), FileScores(query, files, idfs), RealLe, n)
    ensures forall i, j :: 0 <= i < |files| && 0 <= j < |files| && files[i].name !in ranking && files[j].name in ranking ==>
      FileScore(query, files[i].words, idfs) <= FileScore(query, files[j].words, idfs)
  {
    var score: map<string, real> := map[];
    for f := 0 to |files|
      invariant score == FileScores(query, files[..f], idfs)
    {
      var file := files[f];
      assert files[..f + 1][..f] == files[..f];
      var total := ScoreFile(query, file.words, idfs);
      score := score[file.name := total];
    }
    assert files[..|files|] == files;
    FileScoresKeys(query, files, idfs);
    FileScoresAt(query, files, idfs);
    ranking := TopN(Names(files), score, RealLe, n);
    RealLeTotal();
    NamesDistinct(files);
    TopNSpec(Names(files), score, RealLe, n);
  }

  // ---------------------------------------------------------------------
  // Sentences: idf sum, then query-term density

  /** The distinct words of a sentence. */
  function WordSet(tokens: seq<string>): (r: set<string>)
    ensures forall w :: w in r <==> w in tokens
  {
    set w | w in tokens
  }

  /** The idf of a word (0 for a word without one, which is never summed). */
  function IdfOf(idfs: map<string, real>): string -> real
  {
    w => if w in idfs then idfs[w] else 0.0
  }

  /** The fraction of a sentence's distinct words that are query words. */
  function Density(words: set<string>, query: set<string>): real
    requires words != {}
  {
    |words * query| as real / |words| as real
  }

  /** A sentence's key: summed idf of its query words, then query-term density. */
  ghost function SentenceScore(query: set<string>, tokens: seq<string>, idfs: map<string, real>): (real, real)
    requires tokens != []
  {
    var words := WordSet(tokens);
    assert tokens[0] in words;
    (SetSum(words * idfs.Keys * query, IdfOf(idfs)), Density(words, query))
  }

  /** Python's ordering of pairs, non-strict. */
  function PairLe(a: (real, real), b: (real, real)): bool
  {
    a.0 < b.0 || (a.0 == b.0 && a.1 <= b.1)
  }

  lemma PairLeTotal()
    ensures TotalPreorder(PairLe)
  {
  }

  /** Every sentence tokenizes to at least one word. */
  ghost predicate Tokenizable(sentences: seq<Doc>, tokenize: string -> seq<string>)
  {
    forall i :: 0 <= i < |sentences| ==> tokenize(sentences[i].name) != []
  }

  /** The `score` dictionary after the sentences in `sentences` have been scored. */
  ghost function SentenceScores(query: set<string>, sentences: seq<Doc>, idfs: map<string, real>,
                                tokenize: string -> seq<string>): map<string, (real, real)>
    requires Tokenizable(sentences, tokenize)
  {
    if sentences == [] then map[]
    else
      var s := sentences[|sentences| - 1].name;
      SentenceScores(query, sentences[..|sentences| - 1], idfs, tokenize)[s := SentenceScore(query, tokenize(s), idfs)]
  }

  lemma TokenizablePrefix(sentences: seq<Doc>, tokenize: string -> seq<string>, k: nat)
    requires Tokenizable(sentences, tokenize) && k <= |sentences|
    ensures Tokenizable(sentences[..k], tokenize)
  {
    assert forall i :: 0 <= i < k ==> sentences[..k][i] == sentences[i];
  }

  lemma {:induction false} SentenceScoresKeys(query: set<string>, sentences: seq<Doc>, idfs: map<string, real>,
                                              tokenize: string -> seq<string>)
    requires Tokenizable(sentences, tokenize)
    ensures forall x :: x in SentenceScores(query, sentences, idfs, tokenize) <==> x in Names(sentences)
  {
    if sentences != [] {
      var init := sentences[..|sentences| - 1];
      TokenizablePrefix(sentences, tokenize, |init|);
      SentenceScoresKeys(query, init, idfs, tokenize);
      forall x
        ensures x in SentenceScores(query, sentences, idfs, tokenize) <==> x in Names(sentences)
      {
        NamesMember(sentences, x);
        NamesMember(init, x);
        if x in Names(init) {
          var i :| 0 <= i < |init| && init[i].name == x;
          assert sentences[i] == init[i];
        }
      }
    }
  }

  /** Scoring one more sentence adds its key under its text. */
  lemma SentenceScoresSnoc(query: set<string>, sentences: seq<Doc>, idfs: map<string, real>,
                           tokenize: string -> seq<string>, i: int)
    requires Tokenizable(sentences, tokenize) && 0 <= i < |sentences|
    ensures Tokenizable(sentences[..i], tokenize) && Tokenizable(sentences[..i + 1], tokenize)
    ensures tokenize(sentences[i].name) != []
    ensures SentenceScores(query, sentences[..i + 1], idfs, tokenize) ==
      SentenceScores(query, sentences[..i], idfs, tokenize)[sentences[i].name := SentenceScore(query, tokenize(sentences[i].name), idfs)]
    ensures HasKeys(Names(sentences[..i + 1]), SentenceScores(query, sentences[..i + 1], idfs, tokenize))
  {
    TokenizablePrefix(sentences, tokenize, i);
    TokenizablePrefix(sentences, tokenize, i + 1);
    assert sentences[..i + 1][..i] == sentences[..i];
    SentenceScoresKeys(query, sentences[..i + 1], idfs, tokenize);
  }

  /** The score dictionary holds each sentence's own key. */
  lemma {:induction false} SentenceScoresAt(query: set<string>, sentences: seq<Doc>, idfs: map<string, real>,
                                            tokenize: string -> seq<string>)
    requires DistinctNames(sentences) && Tokenizable(sentences, tokenize)
    ensures forall i :: 0 <= i < |sentences| ==>
      tokenize(sentences[i].name) != [] &&
      sentences[i].name in SentenceScores(query, sentences, idfs, tokenize) &&
      SentenceScores(query, sentences, idfs, tokenize)[sentences[i].name] ==
        SentenceScore(query, tokenize(sentences[i].name), idfs)
  {
    if sentences != [] {
      var init := sentences[..|sentences| - 1];
      TokenizablePrefix(sentences, tokenize, |init|);
      SentenceScoresKeys(query, init, idfs, tokenize);
      SentenceScoresAt(query, init, idfs, tokenize);
      SentenceScoresKeys(query, sentences, idfs, tokenize);
      forall i | 0 <= i < |sentences|
        ensures sentences[i].name in SentenceScores(query, sentences, idfs, tokenize)
      {
        NamesMember(sentences, sentences[i].name);
      }
      forall i | 0 <= i < |init|
        ensures SentenceScores(query, sentences, idfs, tokenize)[sentences[i].name] ==
          SentenceScore(query, tokenize(sentences[i].name), idfs)
      {
        assert init[i] == sentences[i];
      }
    }
  }

  /**
   * Query-term density lies between 0 and 1: it is 1 exactly when every word
   * of the sentence is a query word, and 0 exactly when none is.
   */
  lemma DensityBounds(words: set<string>, query: set<string>)
    requires words != {}
    ensures 0.0 <= Density(words, query) <= 1.0
    ensures Density(words, query) == 1.0 <==> words <= query
    ensures Density(words, query) == 0.0 <==> words * query == {}
  {
    CommonWords(words, query);
    Fraction(|words * query|, |words|);
  }

  /** The query words of a sentence are all of its words exactly when it has no other word. */
  lemma CommonWords(words: set<string>, query: set<string>)
    ensures |words * query| <= |words|
    ensures |words * query| == |words| <==> words <= query
  {
    var common, rest := words * query, words - query;
    assert words == common + rest && common * rest == {};
    if !(words <= query) {
      var w :| w in words && w !in query;
      assert w in rest;
    }
  }

  lemma Fraction(c: nat, t: nat)
    requires 0 <= c <= t && t > 0
    ensures 0.0 <= c as real / t as real <= 1.0
    ensures c as real / t as real == 1.0 <==> c == t
    ensures c as real / t as real == 0.0 <==> c == 0
  {
    var d := c as real / t as real;
    assert d * t as real == c as real;
    assert (1.0 - d) * t as real == (t - c) as real;
    if d == 1.0 {
      assert c as real == t as real;
    }
  }

  /** With non-negative idfs the idf sum is non-negative. */
  lemma IdfSumNonNegative(query: set<string>, tokens: seq<string>, idfs: map<string, real>)
    requires tokens != []
    requires forall w :: w in idfs ==> idfs[w] >= 0.0
    ensures SentenceScore(query, tokens, idfs).0 >= 0.0
  {
    SetSumNonNegative(WordSet(tokens) * idfs.Keys * query, IdfOf(idfs));
  }

  /**
   * The body of the scoring loop of `top_sentences` for one sentence: the
   * idf sum over its query words that have an idf, and its query-term density.
   */
  method ScoreSentence(query: set<string>, tokens: seq<string>, idfs: map<string, real>) returns (key: (real, real))
    requires tokens != []
    ensures key == SentenceScore(query, tokens, idfs)
  {
    var sentenceWords := WordSet(tokens);
    assert tokens[0] in sentenceWords;
    var words := sentenceWords * idfs.Keys * query;
    var idfsSum := Sum(words, IdfOf(idfs));
    var density := |sentenceWords * query| as real / |sentenceWords| as real;
    key := (idfsSum, density);
  }

  /**
   * `top_sentences`: the `n` sentences with the highest idf sums, a higher
   * query-term density first among equal sums, ties in dictionary order.
   * The sentence's words are those `tokenize` gives for its text. The
   * ranking is recomputed after every sentence, as `top_sentences` does.
   */
  method TopSentences(query: set<string>, sentences: seq<Doc>, idfs: map<string, real>, n: int,
                      tokenize: string -> seq<string>) returns (ranking: seq<string>)
    requires DistinctNames(sentences) && Tokenizable(sentences, tokenize)
    ensures HasKeys(Names(sentences), SentenceScores(query, sentences, idfs, tokenize))
    ensures ranking == TopN(Names(sentences), SentenceScores(query, sentences, idfs, tokenize), PairLe, n)
    ensures IsTopN(ranking, Names(sentences), SentenceScores(query, sentences, idfs, tokenize), PairLe, n)
  {
    var score: map<string, (real, real)> := map[];
    ranking := [];
    for i := 0 to |sentences|
      invariant Tokenizable(sentences[..i], tokenize)
      invariant score == SentenceScores(query, sentences[..i], idfs, tokenize)
      invariant HasKeys(Names(sentences[..i]), score)
      invariant ranking == TopN(Names(sentences[..i]), score, PairLe, n)
    {
      var sentence := sentences[i].name;
      SentenceScoresSnoc(query, sentences, idfs, tokenize, i);
      var key := ScoreSentence(query, tokenize(sentence), idfs);
      score := score[sentence := key];
      ranking := TopN(Names(sentences[..i + 1]), score, PairLe, n);
    }
    assert sentences[..|sentences|] == sentences;
    SentenceScoresKeys(query, sentences, idfs, tokenize);
    PairLeTotal();
    NamesDistinct(sentences);
    TopNSpec(Names(sentences), score, PairLe, n);
  }
}
