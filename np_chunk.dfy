/**
 * Noun-phrase chunk extraction over a parse tree.
 *
 * The extractor keeps two pieces of mutable state that its inner helpers
 * share: the result list `res` and a cache from phrase text to "this phrase
 * has an NP below it". Here each helper takes that state in and hands the
 * new state back. The walk re-visits nodes many times, because every
 * recursive step is handed the whole pre-order list of a node's
 * descendants; only the cache keeps a chunk from being reported twice, and
 * it is keyed on text, not on the node.
 */
module NpChunk {
  import opened Text
  import opened Trees
  import Preprocess

  predicate IsNP(t: Tree)
  {
    t.Node? && t.symbol == "NP"
  }

  /** A chunk: an NP node with no NP node among its strict descendants. */
  predicate IsChunk(t: Tree)
  {
    IsNP(t) && forall x :: x in Descendants(t) ==> !IsNP(x)
  }

  /** Some tree in `res` covers exactly the text `p`. */
  predicate PhraseSeen(res: seq<Tree>, p: string)
  {
    exists i :: 0 <= i < |res| && Phrase(res[i]) == p
  }

  /**
   * The cache key is a faithful name for the words a subtree covers: when
   * every leaf word is non-empty and free of whitespace, two subtrees have
   * the same key exactly when they have the same words.
   */
  lemma PhraseKey(a: Tree, b: Tree)
    requires forall i :: 0 <= i < |Leaves(a)| ==>
      |Leaves(a)[i]| > 0 && forall j :: 0 <= j < |Leaves(a)[i]| ==> !Preprocess.IsSpace(Leaves(a)[i][j])
    requires forall i :: 0 <= i < |Leaves(b)| ==>
      |Leaves(b)[i]| > 0 && forall j :: 0 <= j < |Leaves(b)[i]| ==> !Preprocess.IsSpace(Leaves(b)[i][j])
    ensures Phrase(a) == Phrase(b) <==> Leaves(a) == Leaves(b)
  {
    Preprocess.WordsOfJoin(Leaves(a));
    Preprocess.WordsOfJoin(Leaves(b));
  }

  /** The chunks of `ts`, in order. */
  function ChunksIn(ts: seq<Tree>): seq<Tree>
  {
    if ts == [] then []
    else (if IsChunk(ts[0]) then [ts[0]] else []) + ChunksIn(ts[1..])
  }

  /** Appends the elements of `xs` in order, each unless its text is already listed. */
  function AddNew(s: seq<Tree>, xs: seq<Tree>): seq<Tree>
    decreases |xs|
  {
    if xs == [] then s
    else AddNew(if PhraseSeen(s, Phrase(xs[0])) then s else s + [xs[0]], xs[1..])
  }

  /**
   * What the extractor computes on trees where text identifies the node:
   * the chunks below the root in pre-order, each text kept at its first
   * occurrence.
   */
  function ChunkSpec(root: Tree): seq<Tree>
  {
    AddNew([], ChunksIn(Descendants(root)))
  }

  /**
   * Trees a grammar without empty productions derives, in which two
   * subtree values below the root that cover the same text are nested. The
   * comparison is between values: two equal subtrees in sibling positions
   * meet it, so it does not say that a text occurs at one position only
   * (`NodesDistinct` adds that).
   */
  predicate DistinctPhrases(root: Tree)
  {
    && WellFormed(root)
    && forall a, b :: a in Descendants(root) && b in Descendants(root) && Phrase(a) == Phrase(b) ==>
                      a in Subtrees(b) || b in Subtrees(a)
  }

  /**
   * The state shared by the helpers: every reported node is a chunk below
   * the root, reported texts are distinct, and the cache maps a text to
   * `false` exactly when that text has been reported.
   */
  predicate Tracked(root: Tree, res: seq<Tree>, cache: map<string, bool>)
  {
    Reported(root, res) && TextsDistinct(res) && CacheMatches(res, cache)
  }

  predicate Reported(root: Tree, res: seq<Tree>)
  {
    forall i :: 0 <= i < |res| ==> IsChunk(res[i]) && res[i] in Descendants(root)
  }

  predicate TextsDistinct(res: seq<Tree>)
  {
    forall i, j :: 0 <= i < j < |res| ==> Phrase(res[i]) != Phrase(res[j])
  }

  predicate CacheMatches(res: seq<Tree>, cache: map<string, bool>)
  {
    && (forall i :: 0 <= i < |res| ==> Phrase(res[i]) in cache && !cache[Phrase(res[i])])
    && (forall p :: p in cache && !cache[p] ==> PhraseSeen(res, p))
  }

  // ---------------------------------------------------------------------
  // The extractor

  /** Whether some strict descendant of `node` is an NP; records the answer under its text. */
  method HasNPChildren(node: Tree, cache: map<string, bool>) returns (has: bool, cache': map<string, bool>)
    requires node.Node?
    ensures has <==> exists x :: x in Descendants(node) && IsNP(x)
    ensures cache' == cache[Phrase(node) := has]
  {
    // `children` always starts with `node` itself, so the `if not children`
    // branch of `has_NP_children` is never taken.
    var children := Subtrees(node);
    has := exists i | 1 <= i < |children| :: IsNP(children[i]);
    cache' := cache[Phrase(node) := has];
    assert children[1..] == Descendants(node);
    if has {
      var i :| 1 <= i < |children| && IsNP(children[i]);
      assert children[i] in Descendants(node);
    }
  }

  /** Reports `node` when it is a chunk; the cache is written only for NP nodes. */
  method Validate(node: Tree, res: seq<Tree>, cache: map<string, bool>) returns (res': seq<Tree>, cache': map<string, bool>)
    requires node.Node?
    ensures res' == if IsChunk(node) then res + [node] else res
    ensures cache' == if IsNP(node) then cache[Phrase(node) := !IsChunk(node)] else cache
  {
    res', cache' := res, cache;
    if node.symbol == "NP" {
      var has;
      has, cache' := HasNPChildren(node, cache);
      if !has {
        res' := res + [node];
      }
    }
  }

  /**
   * Walks `nodes` in order: a node whose text is cached as chunk-free is
   * skipped; any other node is validated and then the walk recurs on the
   * node's subtree list without its first element (the node itself).
   */
  method Recur(root: Tree, nodes: seq<Tree>, res: seq<Tree>, cache: map<string, bool>)
    returns (res': seq<Tree>, cache': map<string, bool>)
    requires forall i :: 0 <= i < |nodes| ==> nodes[i] in Descendants(root)
    requires Tracked(root, res, cache)
    ensures Tracked(root, res', cache')
    ensures res <= res'
    ensures DistinctPhrases(root) ==> res' == AddNew(res, ChunksIn(SubtreesOf(nodes)))
    decreases MaxHeight(nodes)
  {
    res', cache' := res, cache;
    for k := 0 to |nodes|
      invariant Tracked(root, res', cache')
      invariant res <= res'
      invariant DistinctPhrases(root) ==> res' == AddNew(res, ChunksIn(SubtreesOf(nodes[..k])))
    {
      var node := nodes[k];
      DescendantIsNode(root, node);
      PrefixStep(res, nodes, k);
      var phrase := Phrase(node);
      if phrase in cache' && !cache'[phrase] {
        if DistinctPhrases(root) {
          SkipStep(root, node, res');
        }
        continue;
      }
      ghost var before, cacheBefore := res', cache';
      res', cache' := Validate(node, res', cache');
      ValidateTracked(root, node, before, cacheBefore, res', cache');
      ghost var validated := res';
      MaxHeightBound(nodes, k);
      DescendantsLower(node);
      forall i | 0 <= i < |Descendants(node)|
        ensures Descendants(node)[i] in Descendants(root)
      {
        SubtreesAreNodes(node, Descendants(node)[i]);
        DescendantTransitive(Descendants(node)[i], node, root);
      }
      res', cache' := Recur(root, Subtrees(node)[1..], res', cache');
      if DistinctPhrases(root) {
        VisitStep(node, before, validated, res');
      }
    }
    assert nodes[..|nodes|] == nodes;
  }

  /** The chunks of `tree`; the root itself is never validated. */
  method Chunks(tree: Tree) returns (res: seq<Tree>)
    requires tree.Node?
    requires forall c :: c in tree.children ==> c.Node?
    ensures forall i :: 0 <= i < |res| ==> IsChunk(res[i]) && res[i] in Descendants(tree)
    ensures tree !in res
    ensures forall i, j :: 0 <= i < j < |res| ==> Phrase(res[i]) != Phrase(res[j])
    ensures forall i, j :: 0 <= i < |res| && 0 <= j < |res| && i != j ==> res[i] !in Subtrees(res[j])
    ensures DistinctPhrases(tree) ==> res == ChunkSpec(tree)
    ensures DistinctPhrases(tree) && NodesDistinct(tree) ==> res == ChunksIn(Descendants(tree))
  {
    var cache: map<string, bool> := map[];
    // Iterating over a tree yields its children: the root's own node is not
    // part of the first list.
    forall i | 0 <= i < |tree.children|
      ensures tree.children[i] in Descendants(tree)
    {
      assert tree.children[i] in tree.children;
      ChildIsDescendant(tree, i);
    }
    res, cache := Recur(tree, tree.children, [], cache);
    NotOwnDescendant(tree);
    forall i, j | 0 <= i < |res| && 0 <= j < |res| && i != j
      ensures res[i] !in Subtrees(res[j])
    {
      if i < j {
        assert Phrase(res[i]) != Phrase(res[j]);
      } else {
        assert Phrase(res[j]) != Phrase(res[i]);
      }
      ChunksNotNested(res[i], res[j]);
    }
    if DistinctPhrases(tree) && NodesDistinct(tree) {
      ChunkSpecByNode(tree);
    }
  }

  // ---------------------------------------------------------------------
  // Lemmas used by the walk

  lemma DescendantIsNode(root: Tree, x: Tree)
    requires x in Descendants(root)
    ensures x.Node?
  {
    SubtreesAreNodes(root, x);
  }

  /** Two distinct chunks are never nested, since a chunk has no NP below it. */
  lemma ChunksNotNested(a: Tree, b: Tree)
    requires IsChunk(a) && IsChunk(b) && a != b
    ensures a !in Subtrees(b)
  {
  }

  lemma {:induction false} ChunksInConcat(a: seq<Tree>, b: seq<Tree>)
    ensures ChunksIn(a + b) == ChunksIn(a) + ChunksIn(b)
  {
    if a == [] {
      assert a + b == b;
    } else {
      var ab := a + b;
      assert ab[0] == a[0] && ab[1..] == a[1..] + b;
      var head := if IsChunk(a[0]) then [a[0]] else [];
      ChunksInConcat(a[1..], b);
      calc {
        ChunksIn(ab);
        head + ChunksIn(a[1..] + b);
        head + (ChunksIn(a[1..]) + ChunksIn(b));
        (head + ChunksIn(a[1..])) + ChunksIn(b);
      }
    }
  }

  lemma {:induction false} ChunksInMember(ts: seq<Tree>, x: Tree)
    ensures x in ChunksIn(ts) <==> x in ts && IsChunk(x)
  {
    if ts != [] {
      ChunksInMember(ts[1..], x);
      assert ts == [ts[0]] + ts[1..];
    }
  }

  lemma {:induction false} AddNewConcat(s: seq<Tree>, a: seq<Tree>, b: seq<Tree>)
    ensures AddNew(s, a + b) == AddNew(AddNew(s, a), b)
    decreases |a|
  {
    if a == [] {
      assert a + b == b;
    } else {
      assert (a + b)[1..] == a[1..] + b;
      var s' := if PhraseSeen(s, Phrase(a[0])) then s else s + [a[0]];
      AddNewConcat(s', a[1..], b);
    }
  }

  /** `AddNew` only appends, and afterwards every text of `xs` is listed. */
  lemma {:induction false} AddNewCovers(s: seq<Tree>, xs: seq<Tree>)
    ensures s <= AddNew(s, xs)
    ensures forall i :: 0 <= i < |xs| ==> PhraseSeen(AddNew(s, xs), Phrase(xs[i]))
    decreases |xs|
  {
    if xs != [] {
      var s' := if PhraseSeen(s, Phrase(xs[0])) then s else s + [xs[0]];
      AddNewCovers(s', xs[1..]);
      assert PhraseSeen(s', Phrase(xs[0])) by {
        if !PhraseSeen(s, Phrase(xs[0])) {
          assert Phrase(s'[|s|]) == Phrase(xs[0]);
        }
      }
      var r := AddNew(s, xs);
      forall i | 0 <= i < |xs|
        ensures PhraseSeen(r, Phrase(xs[i]))
      {
        if i == 0 {
          var j :| 0 <= j < |s'| && Phrase(s'[j]) == Phrase(xs[0]);
          assert r[j] == s'[j];
        } else {
          assert xs[i] == xs[1..][i - 1];
        }
      }
    }
  }

  /** Elements whose text is already listed add nothing. */
  lemma {:induction false} AddNewAbsorbed(s: seq<Tree>, xs: seq<Tree>)
    requires forall i :: 0 <= i < |xs| ==> PhraseSeen(s, Phrase(xs[i]))
    ensures AddNew(s, xs) == s
  {
    if xs != [] {
      AddNewAbsorbed(s, xs[1..]);
    }
  }

  lemma PrefixStep(s: seq<Tree>, nodes: seq<Tree>, k: int)
    requires 0 <= k < |nodes|
    ensures AddNew(s, ChunksIn(SubtreesOf(nodes[..k + 1])))
         == AddNew(AddNew(s, ChunksIn(SubtreesOf(nodes[..k]))), ChunksIn(Subtrees(nodes[k])))
  {
    var single := [nodes[k]];
    assert nodes[..k + 1] == nodes[..k] + single;
    assert single[1..] == [];
    assert SubtreesOf(single) == Subtrees(nodes[k]);
    SubtreesOfConcat(nodes[..k], single);
    ChunksInConcat(SubtreesOf(nodes[..k]), Subtrees(nodes[k]));
    AddNewConcat(s, ChunksIn(SubtreesOf(nodes[..k])), ChunksIn(Subtrees(nodes[k])));
  }

  /** Re-walking the descendants of a node adds nothing beyond the node's own pass. */
  lemma DescendantsAbsorbed(s: seq<Tree>, c: Tree)
    requires c.Node?
    ensures AddNew(s, ChunksIn(SubtreesOf(Subtrees(c)))) == AddNew(s, ChunksIn(Subtrees(c)))
  {
    var own := ChunksIn(Subtrees(c));
    var later := ChunksIn(SubtreesOf(Descendants(c)));
    assert Subtrees(c) == [c] + Descendants(c);
    assert SubtreesOf(Subtrees(c)) == Subtrees(c) + SubtreesOf(Descendants(c));
    ChunksInConcat(Subtrees(c), SubtreesOf(Descendants(c)));
    AddNewConcat(s, own, later);
    var s1 := AddNew(s, own);
    AddNewCovers(s, own);
    forall i | 0 <= i < |later|
      ensures PhraseSeen(s1, Phrase(later[i]))
    {
      var x := later[i];
      ChunksInMember(SubtreesOf(Descendants(c)), x);
      SubtreesOfMember(Descendants(c), x);
      var j :| 0 <= j < |Descendants(c)| && x in Subtrees(Descendants(c)[j]);
      DescendantTransitive(x, Descendants(c)[j], c);
      ChunksInMember(Subtrees(c), x);
      var k :| 0 <= k < |own| && own[k] == x;
    }
    AddNewAbsorbed(s1, later);
  }

  /**
   * Re-walking the descendants of every element of a subtree list reports
   * nothing beyond a single pass over that list.
   */
  lemma {:induction false} Absorb(s: seq<Tree>, cs: seq<Tree>)
    ensures AddNew(s, ChunksIn(SubtreesOf(SubtreesOf(cs)))) == AddNew(s, ChunksIn(SubtreesOf(cs)))
    decreases cs
  {
    if cs != [] {
      var c, rest := cs[0], cs[1..];
      assert SubtreesOf(cs) == Subtrees(c) + SubtreesOf(rest);
      SubtreesOfConcat(Subtrees(c), SubtreesOf(rest));
      ChunksInConcat(SubtreesOf(Subtrees(c)), SubtreesOf(SubtreesOf(rest)));
      ChunksInConcat(Subtrees(c), SubtreesOf(rest));
      AddNewConcat(s, ChunksIn(SubtreesOf(Subtrees(c))), ChunksIn(SubtreesOf(SubtreesOf(rest))));
      AddNewConcat(s, ChunksIn(Subtrees(c)), ChunksIn(SubtreesOf(rest)));
      if c.Node? {
        DescendantsAbsorbed(s, c);
      } else {
        assert SubtreesOf(Subtrees(c)) == [];
      }
      Absorb(AddNew(s, ChunksIn(Subtrees(c))), rest);
    }
  }

  /** Validating a node whose text is not yet reported keeps the shared state consistent. */
  lemma ValidateTracked(root: Tree, node: Tree, res: seq<Tree>, cache: map<string, bool>,
                        res': seq<Tree>, cache': map<string, bool>)
    requires node in Descendants(root)
    requires Tracked(root, res, cache) && !(Phrase(node) in cache && !cache[Phrase(node)])
    requires cache' == if IsNP(node) then cache[Phrase(node) := !IsChunk(node)] else cache
    requires res' == if IsChunk(node) then res + [node] else res
    ensures Tracked(root, res', cache')
    ensures !PhraseSeen(res, Phrase(node))
  {
    var p := Phrase(node);
    if IsChunk(node) {
      ReportChunk(root, node, res, cache);
    } else if IsNP(node) {
      CacheNonChunk(res, cache, p);
    }
  }

  lemma ReportChunk(root: Tree, node: Tree, res: seq<Tree>, cache: map<string, bool>)
    requires node in Descendants(root) && IsChunk(node)
    requires Tracked(root, res, cache) && !PhraseSeen(res, Phrase(node))
    ensures Tracked(root, res + [node], cache[Phrase(node) := false])
  {
    var p := Phrase(node);
    var res', cache' := res + [node], cache[p := false];
    assert Reported(root, res');
    forall i, j | 0 <= i < j < |res'|
      ensures Phrase(res'[i]) != Phrase(res'[j])
    {
      if j == |res| {
        assert res'[j] == node && res'[i] == res[i];
      }
    }
    forall i | 0 <= i < |res'|
      ensures Phrase(res'[i]) in cache' && !cache'[Phrase(res'[i])]
    {
      if i < |res| {
        assert res'[i] == res[i];
      }
    }
    forall q | q in cache' && !cache'[q]
      ensures PhraseSeen(res', q)
    {
      if q == p {
        assert Phrase(res'[|res|]) == q;
      } else {
        var i :| 0 <= i < |res| && Phrase(res[i]) == q;
        assert res'[i] == res[i];
      }
    }
  }

  lemma CacheNonChunk(res: seq<Tree>, cache: map<string, bool>, p: string)
    requires CacheMatches(res, cache) && !PhraseSeen(res, p)
    ensures CacheMatches(res, cache[p := true])
  {
    forall i | 0 <= i < |res|
      ensures Phrase(res[i]) != p
    {
    }
  }

  /** A skipped node's chunks all have their text reported already. */
  lemma SkipStep(root: Tree, node: Tree, s: seq<Tree>)
    requires DistinctPhrases(root)
    requires node in Descendants(root)
    requires forall i :: 0 <= i < |s| ==> IsChunk(s[i]) && s[i] in Descendants(root)
    requires PhraseSeen(s, Phrase(node))
    ensures AddNew(s, ChunksIn(Subtrees(node))) == s
  {
    var i :| 0 <= i < |s| && Phrase(s[i]) == Phrase(node);
    var r := s[i];
    var xs := ChunksIn(Subtrees(node));
    DescendantIsNode(root, node);
    forall j | 0 <= j < |xs|
      ensures PhraseSeen(s, Phrase(xs[j]))
    {
      var x := xs[j];
      ChunksInMember(Subtrees(node), x);
      if r in Subtrees(node) && r != node {
        // the node spans the same text as the chunk below it: it is a chain
        // of single children down to that chunk
        SubtreesOfMember(node.children, r);
        SubtreesAreNodes(root, root);
        SubtreesAreNodes(root, node);
        WellFormedSubtree(root, node);
        WellFormedLeaves(node);
        WellFormedSubtree(node, r);
        WellFormedLeaves(r);
        JoinLength(Leaves(node));
        JoinLength(Leaves(r));
        UnaryChain(node, r);
        assert x in Subtrees(r);
        assert x == r;
      } else {
        assert node in Subtrees(r);
        SubtreeTransitive(x, node, r);
        assert x == r;
      }
    }
    AddNewAbsorbed(s, xs);
  }

  /** Validating a fresh node and then walking its descendants adds the node's chunks once each. */
  lemma VisitStep(node: Tree, s: seq<Tree>, s1: seq<Tree>, s2: seq<Tree>)
    requires node.Node?
    requires !PhraseSeen(s, Phrase(node))
    requires s1 == if IsChunk(node) then s + [node] else s
    requires s2 == AddNew(s1, ChunksIn(SubtreesOf(Subtrees(node)[1..])))
    ensures s2 == AddNew(s, ChunksIn(Subtrees(node)))
  {
    assert Subtrees(node)[1..] == Descendants(node) == SubtreesOf(node.children);
    Absorb(s1, node.children);
    assert Subtrees(node) == [node] + Descendants(node);
    ChunksInConcat([node], Descendants(node));
    AddNewConcat(s, ChunksIn([node]), ChunksIn(Descendants(node)));
    assert ChunksIn([node]) == (if IsChunk(node) then [node] else []) + ChunksIn([]);
  }

  // ---------------------------------------------------------------------
  // What the result is on trees where text identifies the node

  /** `a` can be obtained from `b` by deleting elements. */
  predicate Subsequence(a: seq<Tree>, b: seq<Tree>)
    decreases |b|
  {
    a == [] || (b != [] && ((a[0] == b[0] && Subsequence(a[1..], b[1..])) || Subsequence(a, b[1..])))
  }

  lemma {:induction false} AddNewMembers(s: seq<Tree>, xs: seq<Tree>, x: Tree)
    requires x in AddNew(s, xs)
    ensures x in s || x in xs
    decreases |xs|
  {
    if xs != [] {
      var s' := if PhraseSeen(s, Phrase(xs[0])) then s else s + [xs[0]];
      AddNewMembers(s', xs[1..], x);
    }
  }

  lemma {:induction false} AddNewDistinct(s: seq<Tree>, xs: seq<Tree>)
    requires TextsDistinct(s)
    ensures TextsDistinct(AddNew(s, xs))
    decreases |xs|
  {
    if xs != [] {
      var s' := if PhraseSeen(s, Phrase(xs[0])) then s else s + [xs[0]];
      forall i, j | 0 <= i < j < |s'|
        ensures Phrase(s'[i]) != Phrase(s'[j])
      {
        if j == |s| {
          assert s'[i] == s[i];
        }
      }
      AddNewDistinct(s', xs[1..]);
    }
  }

  lemma {:induction false} AddNewSubsequence(s: seq<Tree>, xs: seq<Tree>)
    ensures |s| <= |AddNew(s, xs)|
    ensures Subsequence(AddNew(s, xs)[|s|..], xs)
    decreases |xs|
  {
    if xs != [] {
      var r := AddNew(s, xs);
      if PhraseSeen(s, Phrase(xs[0])) {
        AddNewSubsequence(s, xs[1..]);
      } else {
        var s' := s + [xs[0]];
        AddNewSubsequence(s', xs[1..]);
        AddNewCovers(s', xs[1..]);
        assert r[|s|] == xs[0];
        assert r[|s|..][1..] == r[|s'|..];
      }
    } else {
      assert AddNew(s, xs)[|s|..] == [];
    }
  }

  /** Every NP node has a chunk among its subtrees (possibly itself). */
  lemma {:induction false} ChunkBelow(t: Tree)
    requires IsNP(t)
    ensures exists x :: x in Subtrees(t) && IsChunk(x)
    decreases Height(t)
  {
    if !IsChunk(t) {
      var d :| d in Descendants(t) && IsNP(d);
      SubtreeHeight(t, d);
      ChunkBelow(d);
      var x :| x in Subtrees(d) && IsChunk(x);
      DescendantTransitive(x, d, t);
    }
  }

  /**
   * When subtree values that cover the same text are nested, the chunk
   * values reported are exactly the chunk values strictly below the root,
   * each once. This counts values: a chunk that occurs at two positions is
   * reported once (`ChunkSpecByNode` counts positions).
   */
  lemma ChunkSpecExact(root: Tree)
    requires DistinctPhrases(root)
    ensures forall x :: x in ChunkSpec(root) <==> x in Descendants(root) && IsChunk(x)
    ensures forall i, j :: 0 <= i < j < |ChunkSpec(root)| ==> ChunkSpec(root)[i] != ChunkSpec(root)[j]
  {
    var all := ChunksIn(Descendants(root));
    var spec := ChunkSpec(root);
    forall x | x in spec
      ensures x in Descendants(root) && IsChunk(x)
    {
      AddNewMembers([], all, x);
      ChunksInMember(Descendants(root), x);
    }
    AddNewCovers([], all);
    forall x | x in Descendants(root) && IsChunk(x)
      ensures x in spec
    {
      ChunksInMember(Descendants(root), x);
      var k :| 0 <= k < |all| && all[k] == x;
      var i :| 0 <= i < |spec| && Phrase(spec[i]) == Phrase(x);
      var r := spec[i];
      assert r in spec;
      if r != x {
        ChunksNotNested(r, x);
        ChunksNotNested(x, r);
      }
    }
    AddNewDistinct([], all);
  }

  /** The chunks are reported in depth-first, left-to-right pre-order. */
  lemma ChunkSpecInPreOrder(root: Tree)
    ensures Subsequence(ChunkSpec(root), ChunksIn(Descendants(root)))
  {
    AddNewSubsequence([], ChunksIn(Descendants(root)));
    assert ChunkSpec(root)[0..] == ChunkSpec(root);
  }

  /** Every NP node below the root is a reported chunk or has one below it. */
  lemma ChunkTotality(root: Tree, t: Tree)
    requires DistinctPhrases(root)
    requires t in Descendants(root) && IsNP(t)
    ensures exists x :: x in ChunkSpec(root) && x in Subtrees(t)
  {
    ChunkBelow(t);
    var x :| x in Subtrees(t) && IsChunk(x);
    DescendantTransitive(x, t, root);
    ChunkSpecExact(root);
  }

  /** No subtree value occurs at two positions of the pre-order list below the root. */
  predicate NodesDistinct(root: Tree)
  {
    forall i, j :: 0 <= i < j < |Descendants(root)| ==> Descendants(root)[i] != Descendants(root)[j]
  }

  lemma {:induction false} ChunksInDistinct(ts: seq<Tree>)
    requires forall i, j :: 0 <= i < j < |ts| ==> ts[i] != ts[j]
    ensures forall i, j :: 0 <= i < j < |ChunksIn(ts)| ==> ChunksIn(ts)[i] != ChunksIn(ts)[j]
  {
    if ts != [] {
      var rest := ts[1..];
      ChunksInDistinct(rest);
      assert ts[0] !in rest by {
        forall k | 0 <= k < |rest|
          ensures rest[k] != ts[0]
        {
          assert rest[k] == ts[k + 1];
        }
      }
      ChunksInMember(rest, ts[0]);
    }
  }

  /** Appending elements whose texts are new and pairwise distinct keeps them all. */
  lemma {:induction false} AddNewKeepsAll(s: seq<Tree>, xs: seq<Tree>)
    requires TextsDistinct(s + xs)
    ensures AddNew(s, xs) == s + xs
    decreases |xs|
  {
    if xs == [] {
      assert s + xs == s;
    } else {
      assert !PhraseSeen(s, Phrase(xs[0])) by {
        forall i | 0 <= i < |s|
          ensures Phrase(s[i]) != Phrase(xs[0])
        {
          assert (s + xs)[i] == s[i] && (s + xs)[|s|] == xs[0];
        }
      }
      assert (s + [xs[0]]) + xs[1..] == s + xs;
      AddNewKeepsAll(s + [xs[0]], xs[1..]);
    }
  }

  /**
   * When moreover no subtree value occurs twice below the root, the
   * extractor's result is every chunk strictly below the root, once per
   * position, in pre-order: the list the walk by node returns.
   */
  lemma ChunkSpecByNode(root: Tree)
    requires DistinctPhrases(root) && NodesDistinct(root)
    ensures ChunkSpec(root) == ChunksIn(Descendants(root))
  {
    var all := ChunksIn(Descendants(root));
    ChunksInDistinct(Descendants(root));
    forall i, j | 0 <= i < j < |all|
      ensures Phrase(all[i]) != Phrase(all[j])
    {
      assert all[i] in all && all[j] in all;
      ChunksInMember(Descendants(root), all[i]);
      ChunksInMember(Descendants(root), all[j]);
      ChunksNotNested(all[i], all[j]);
      ChunksNotNested(all[j], all[i]);
    }
    assert [] + all == all;
    AddNewKeepsAll([], all);
  }

  // ---------------------------------------------------------------------
  // Two chunks with the same text

  /** A parse tree of "holmes sat and holmes smiled"; its two noun phrases are equal. */
  function HolmesTwice(): Tree
  {
    Node("S", [Clause("sat"), Node("Conj", [Leaf("and")]), Clause("smiled")])
  }

  function HolmesNP(): Tree
  {
    Node("NP", [Node("ADJN", [Node("N", [Leaf("holmes")])])])
  }

  /** `S -> NP VP_OBJ` with the noun phrase "holmes" and a one-verb predicate. */
  function Clause(verb: string): Tree
  {
    Node("S", [HolmesNP(), Predicate(verb)])
  }

  function Predicate(verb: string): Tree
  {
    Node("VP_OBJ", [Node("VP", [Node("V", [Leaf(verb)])])])
  }

  lemma {:induction false} NoNPNoChunks(ts: seq<Tree>)
    requires forall i :: 0 <= i < |ts| ==> !IsNP(ts[i])
    ensures ChunksIn(ts) == []
  {
    if ts != [] {
      NoNPNoChunks(ts[1..]);
    }
  }

  lemma UnaryPath(x: string, y: string, z: string, w: string)
    ensures var c := Node(z, [Leaf(w)]); var b := Node(y, [c]); var a := Node(x, [b]);
            Subtrees(a) == [a, b, c]
  {
    var c := Node(z, [Leaf(w)]);
    var b := Node(y, [c]);
    var a := Node(x, [b]);
    assert [Leaf(w)][1..] == [] && [c][1..] == [] && [b][1..] == [];
    assert SubtreesOf([Leaf(w)]) == [];
    assert Subtrees(c) == [c];
    assert SubtreesOf([c]) == [c];
    assert Subtrees(b) == [b, c];
    assert SubtreesOf([b]) == [b, c];
  }

  lemma HolmesNPChunks()
    ensures IsChunk(HolmesNP())
    ensures forall x :: x in Subtrees(HolmesNP()) && IsNP(x) ==> x == HolmesNP()
    ensures ChunksIn(Subtrees(HolmesNP())) == [HolmesNP()]
  {
    var np := HolmesNP();
    UnaryPath("NP", "ADJN", "N", "holmes");
    var rest := Subtrees(np)[1..];
    assert Subtrees(np) == [np] + rest;
    NoNPNoChunks(rest);
    ChunksInConcat([np], rest);
  }

  lemma PredicateChunks(verb: string)
    ensures forall x :: x in Subtrees(Predicate(verb)) ==> !IsNP(x)
    ensures ChunksIn(Subtrees(Predicate(verb))) == []
  {
    UnaryPath("VP_OBJ", "VP", "V", verb);
    NoNPNoChunks(Subtrees(Predicate(verb)));
  }

  lemma ClauseSubtrees(verb: string)
    ensures forall x :: x in Subtrees(Clause(verb)) && IsNP(x) ==> x == HolmesNP()
    ensures ChunksIn(Subtrees(Clause(verb))) == [HolmesNP()]
  {
    var c, np, pred := Clause(verb), HolmesNP(), Predicate(verb);
    HolmesNPChunks();
    PredicateChunks(verb);
    assert [pred][1..] == [];
    assert SubtreesOf([pred]) == Subtrees(pred);
    assert Subtrees(c) == [c] + Subtrees(np) + Subtrees(pred);
    NoNPNoChunks([c]);
    ChunksInConcat([c] + Subtrees(np), Subtrees(pred));
    ChunksInConcat([c], Subtrees(np));
  }

  lemma HolmesTwiceChunks()
    ensures forall x :: x in Descendants(HolmesTwice()) && IsNP(x) ==> x == HolmesNP()
    ensures ChunksIn(Descendants(HolmesTwice())) == [HolmesNP(), HolmesNP()]
  {
    var c1, conj, c2 := Clause("sat"), Node("Conj", [Leaf("and")]), Clause("smiled");
    ClauseSubtrees("sat");
    ClauseSubtrees("smiled");
    assert Subtrees(conj) == [conj] + SubtreesOf([Leaf("and")]);
    assert SubtreesOf([c2]) == Subtrees(c2) + SubtreesOf([]);
    assert SubtreesOf([conj, c2]) == Subtrees(conj) + SubtreesOf([c2]);
    assert Descendants(HolmesTwice()) == Subtrees(c1) + [conj] + Subtrees(c2);
    ChunksInConcat(Subtrees(c1) + [conj], Subtrees(c2));
    ChunksInConcat(Subtrees(c1), [conj]);
  }

  /**
   * The extractor as written reports one chunk per text: in this tree the
   * second "holmes" noun phrase is skipped because its text is cached,
   * although it is a chunk of its own.
   */
  method SameTextExample() returns (reported: seq<Tree>, chunks: seq<Tree>)
    ensures chunks == ChunksIn(Descendants(HolmesTwice()))
    ensures |chunks| == 2 && |reported| <= 1
  {
    var t := HolmesTwice();
    HolmesTwiceChunks();
    reported := Chunks(t);
    chunks := ChunksIn(Descendants(t));
    assert Reported(t, reported) && TextsDistinct(reported);
    OneTextOneReport(t, HolmesNP(), reported);
  }

  /** When every NP below the root is the same tree, at most one chunk is reported. */
  lemma OneTextOneReport(root: Tree, v: Tree, res: seq<Tree>)
    requires forall x :: x in Descendants(root) && IsNP(x) ==> x == v
    requires Reported(root, res) && TextsDistinct(res)
    ensures |res| <= 1
  {
    if |res| > 1 {
      FirstTwoDiffer(res);
      assert false;
    }
  }

  lemma FirstTwoDiffer(res: seq<Tree>)
    requires TextsDistinct(res) && |res| > 1
    ensures res[0] != res[1]
  {
    assert Phrase(res[0]) != Phrase(res[1]);
  }

  // ---------------------------------------------------------------------
  // A walk that tells chunks apart by node rather than by text

  /**
   * Depth-first, left to right: an NP node with no NP below it is reported
   * and not entered; every other internal node is entered.
   */
  method WalkByNode(nodes: seq<Tree>) returns (res: seq<Tree>)
    ensures res == ChunksIn(SubtreesOf(nodes))
    decreases MaxHeight(nodes)
  {
    res := [];
    for k := 0 to |nodes|
      invariant res == ChunksIn(SubtreesOf(nodes[..k]))
    {
      var node := nodes[k];
      ChunksInSnoc(nodes, k);
      if node.Leaf? {
        continue;
      }
      NodeChunks(node);
      if IsChunk(node) {
        res := res + [node];
      } else {
        MaxHeightBound(nodes, k);
        var below := WalkByNode(node.children);
        res := res + below;
      }
    }
    assert nodes[..|nodes|] == nodes;
  }

  /** A chunk's own list holds only itself; any other node's list is that of its children. */
  lemma NodeChunks(node: Tree)
    requires node.Node?
    ensures IsChunk(node) ==> ChunksIn(Subtrees(node)) == [node]
    ensures !IsChunk(node) ==> ChunksIn(Subtrees(node)) == ChunksIn(SubtreesOf(node.children))
  {
    assert Subtrees(node) == [node] + Descendants(node);
    ChunksInConcat([node], Descendants(node));
    assert ChunksIn([node]) == (if IsChunk(node) then [node] else []) + ChunksIn([]);
    if IsChunk(node) {
      NoNPNoChunks(Descendants(node));
    }
  }

  /** Every chunk strictly below the root, once per node, in pre-order. */
  method ChunksByNode(tree: Tree) returns (res: seq<Tree>)
    ensures res == ChunksIn(Descendants(tree))
    ensures forall x :: x in res <==> x in Descendants(tree) && IsChunk(x)
  {
    if tree.Leaf? {
      return [];
    }
    res := WalkByNode(tree.children);
    forall x
      ensures x in res <==> x in Descendants(tree) && IsChunk(x)
    {
      ChunksInMember(Descendants(tree), x);
    }
  }

  /**
   * The extractor as written and the walk by node agree on every tree where
   * no subtree value occurs twice and equal texts are nested.
   */
  method CompareWalks(tree: Tree) returns (asWritten: seq<Tree>, byNode: seq<Tree>)
    requires tree.Node?
    requires forall c :: c in tree.children ==> c.Node?
    ensures DistinctPhrases(tree) && NodesDistinct(tree) ==> asWritten == byNode
  {
    asWritten := Chunks(tree);
    byNode := ChunksByNode(tree);
  }

  lemma ChunksInSnoc(nodes: seq<Tree>, k: int)
    requires 0 <= k < |nodes|
    ensures ChunksIn(SubtreesOf(nodes[..k + 1])) == ChunksIn(SubtreesOf(nodes[..k])) + ChunksIn(Subtrees(nodes[k]))
  {
    var single := [nodes[k]];
    assert nodes[..k + 1] == nodes[..k] + single;
    assert single[1..] == [];
    assert SubtreesOf(single) == Subtrees(nodes[k]);
    SubtreesOfConcat(nodes[..k], single);
    ChunksInConcat(SubtreesOf(nodes[..k]), Subtrees(nodes[k]));
  }
}
