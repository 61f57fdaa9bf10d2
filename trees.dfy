/**
 * Parse trees as produced by the chart parser: an internal node carries a
 * nonterminal label and an ordered list of children, a leaf carries one word.
 * The functions here are the navigation primitives the chunk extractor uses:
 * `Subtrees` (nltk's `Tree.subtrees()`), `Leaves` (`Tree.leaves()`) and
 * `Phrase` (the leaves joined with single spaces).
 */
module Trees {
  import opened Text

  datatype Tree = Node(symbol: string, children: seq<Tree>) | Leaf(word: string)

  /** All internal-node subtrees of `t` in depth-first pre-order, `t` first. */
  function Subtrees(t: Tree): seq<Tree>
  {
    match t
    case Leaf(_) => []
    case Node(_, cs) => [t] + SubtreesOf(cs)
  }

  /** Concatenation of the pre-order subtree lists of a list of trees. */
  function SubtreesOf(ts: seq<Tree>): seq<Tree>
  {
    if ts == [] then [] else Subtrees(ts[0]) + SubtreesOf(ts[1..])
  }

  /** The strict descendants of `t` that are internal nodes, in pre-order. */
  function Descendants(t: Tree): seq<Tree>
  {
    if t.Leaf? then [] else SubtreesOf(t.children)
  }

  /** The words at the leaves of `t`, left to right. */
  function Leaves(t: Tree): seq<string>
  {
    match t
    case Leaf(w) => [w]
    case Node(_, cs) => LeavesOf(cs)
  }

  function LeavesOf(ts: seq<Tree>): seq<string>
  {
    if ts == [] then [] else Leaves(ts[0]) + LeavesOf(ts[1..])
  }

  /** The text a subtree covers: its leaves joined with spaces. */
  function Phrase(t: Tree): string
  {
    Join(Leaves(t))
  }

  function Height(t: Tree): nat
  {
    match t
    case Leaf(_) => 0
    case Node(_, cs) => 1 + MaxHeight(cs)
  }

  /** The largest height in a list of trees (0 for the empty list). */
  function MaxHeight(ts: seq<Tree>): nat
  {
    if ts == [] then 0
    else
      var h := MaxHeight(ts[1..]);
      if Height(ts[0]) > h then Height(ts[0]) else h
  }

  /**
   * A tree a context-free grammar without empty productions can derive:
   * every internal node has at least one child and every word is non-empty.
   */
  predicate WellFormed(t: Tree)
  {
    match t
    case Leaf(w) => |w| > 0
    case Node(_, cs) => |cs| > 0 && forall c :: c in cs ==> WellFormed(c)
  }

  // ---------------------------------------------------------------------
  // Membership in the pre-order lists

  lemma {:induction false} SubtreesOfMember(ts: seq<Tree>, x: Tree)
    ensures x in SubtreesOf(ts) <==> exists i :: 0 <= i < |ts| && x in Subtrees(ts[i])
  {
    if ts != [] {
      SubtreesOfMember(ts[1..], x);
      if x in SubtreesOf(ts[1..]) {
        var i :| 0 <= i < |ts[1..]| && x in Subtrees(ts[1..][i]);
        assert x in Subtrees(ts[i + 1]);
      }
      if exists i :: 0 <= i < |ts| && x in Subtrees(ts[i]) {
        var i :| 0 <= i < |ts| && x in Subtrees(ts[i]);
        if i > 0 {
          assert x in Subtrees(ts[1..][i - 1]);
        }
      }
    }
  }

  lemma {:induction false} SubtreesOfConcat(a: seq<Tree>, b: seq<Tree>)
    ensures SubtreesOf(a + b) == SubtreesOf(a) + SubtreesOf(b)
  {
    if a == [] {
      assert a + b == b;
    } else {
      assert (a + b)[1..] == a[1..] + b;
      SubtreesOfConcat(a[1..], b);
    }
  }

  /** Every element of a subtree list is an internal node. */
  lemma {:induction false} SubtreesAreNodes(t: Tree, x: Tree)
    requires x in Subtrees(t)
    ensures x.Node?
  {
    if x != t {
      SubtreesOfMember(t.children, x);
      var i :| 0 <= i < |t.children| && x in Subtrees(t.children[i]);
      SubtreesAreNodes(t.children[i], x);
    }
  }

  /** An internal-node child is one of the strict descendants. */
  lemma ChildIsDescendant(t: Tree, i: int)
    requires t.Node? && 0 <= i < |t.children| && t.children[i].Node?
    ensures t.children[i] in Descendants(t)
  {
    SubtreesOfMember(t.children, t.children[i]);
  }

  /** Being a subtree is transitive. */
  lemma {:induction false} SubtreeTransitive(x: Tree, y: Tree, z: Tree)
    requires x in Subtrees(y) && y in Subtrees(z)
    ensures x in Subtrees(z)
  {
    if y != z {
      SubtreesOfMember(z.children, y);
      var i :| 0 <= i < |z.children| && y in Subtrees(z.children[i]);
      SubtreeTransitive(x, y, z.children[i]);
      SubtreesOfMember(z.children, x);
    }
  }

  /** A subtree of a strict descendant is a strict descendant. */
  lemma DescendantTransitive(x: Tree, y: Tree, z: Tree)
    requires x in Subtrees(y) && y in Descendants(z)
    ensures x in Descendants(z)
  {
    SubtreesOfMember(z.children, y);
    var i :| 0 <= i < |z.children| && y in Subtrees(z.children[i]);
    SubtreeTransitive(x, y, z.children[i]);
    SubtreesOfMember(z.children, x);
  }

  // ---------------------------------------------------------------------
  // Heights: descendants are strictly lower, which bounds the recursion of
  // the chunk extractor.

  lemma {:induction false} MaxHeightBound(ts: seq<Tree>, i: int)
    requires 0 <= i < |ts|
    ensures Height(ts[i]) <= MaxHeight(ts)
  {
    if i > 0 {
      MaxHeightBound(ts[1..], i - 1);
    }
  }

  lemma {:induction false} MaxHeightBelow(ts: seq<Tree>, h: nat)
    requires h > 0
    requires forall i :: 0 <= i < |ts| ==> Height(ts[i]) < h
    ensures MaxHeight(ts) < h
  {
    if ts != [] {
      MaxHeightBelow(ts[1..], h);
    }
  }

  lemma {:induction false} SubtreeHeight(t: Tree, x: Tree)
    requires x in Subtrees(t)
    ensures Height(x) <= Height(t)
    ensures x in Descendants(t) ==> Height(x) < Height(t)
  {
    if x in Descendants(t) {
      SubtreesOfMember(t.children, x);
      var i :| 0 <= i < |t.children| && x in Subtrees(t.children[i]);
      SubtreeHeight(t.children[i], x);
      MaxHeightBound(t.children, i);
    }
  }

  /** No tree is its own strict descendant. */
  lemma NotOwnDescendant(t: Tree)
    ensures t !in Descendants(t)
  {
    if t in Descendants(t) {
      SubtreeHeight(t, t);
    }
  }

  /** The list a recursive walk hands on is strictly lower than the node it came from. */
  lemma DescendantsLower(t: Tree)
    requires t.Node?
    ensures MaxHeight(Descendants(t)) < Height(t)
  {
    var ds := Descendants(t);
    forall i | 0 <= i < |ds|
      ensures Height(ds[i]) < Height(t)
    {
      SubtreeHeight(t, ds[i]);
    }
    MaxHeightBelow(ds, Height(t));
  }

  // ---------------------------------------------------------------------
  // Phrase lengths in well-formed trees

  lemma {:induction false} WellFormedSubtree(t: Tree, x: Tree)
    requires WellFormed(t) && x in Subtrees(t)
    ensures WellFormed(x)
  {
    if x != t {
      SubtreesOfMember(t.children, x);
      var i :| 0 <= i < |t.children| && x in Subtrees(t.children[i]);
      assert t.children[i] in t.children;
      WellFormedSubtree(t.children[i], x);
    }
  }

  lemma {:induction false} WellFormedLeaves(t: Tree)
    requires WellFormed(t)
    ensures Leaves(t) != []
  {
    if t.Node? {
      assert t.children[0] in t.children;
      WellFormedLeaves(t.children[0]);
      assert LeavesOf(t.children) == Leaves(t.children[0]) + LeavesOf(t.children[1..]);
    }
  }

  /** Each well-formed child adds at least one to the weight of its parent's leaves. */
  lemma {:induction false} ChildWeight(ts: seq<Tree>, i: int)
    requires 0 <= i < |ts|
    requires forall c :: c in ts ==> WellFormed(c)
    ensures Weight(LeavesOf(ts)) >= Weight(Leaves(ts[i])) + |ts| - 1
  {
    WeightConcat(Leaves(ts[0]), LeavesOf(ts[1..]));
    assert ts[0] in ts;
    WellFormedLeaves(ts[0]);
    forall c | c in ts[1..] ensures WellFormed(c) {
      assert c in ts;
    }
    if i == 0 {
      if |ts| > 1 {
        assert ts[1..][0] in ts;
        WellFormedLeaves(ts[1..][0]);
        ChildWeight(ts[1..], 0);
      }
    } else {
      ChildWeight(ts[1..], i - 1);
    }
  }

  lemma {:induction false} SubtreeWeight(t: Tree, x: Tree)
    requires WellFormed(t) && x in Subtrees(t)
    ensures Weight(Leaves(x)) <= Weight(Leaves(t))
  {
    if x != t {
      SubtreesOfMember(t.children, x);
      var i :| 0 <= i < |t.children| && x in Subtrees(t.children[i]);
      assert t.children[i] in t.children;
      SubtreeWeight(t.children[i], x);
      ChildWeight(t.children, i);
    }
  }

  /**
   * In a well-formed tree, a node whose leaves weigh no more than those of
   * one of its strict descendants `r` sits on a chain of single children
   * down to `r`: each of its subtrees is below `r` or strictly above it.
   */
  lemma {:induction false} UnaryChain(n: Tree, r: Tree)
    requires WellFormed(n) && r in Descendants(n)
    requires Weight(Leaves(n)) <= Weight(Leaves(r))
    ensures forall x :: x in Subtrees(n) ==> x in Subtrees(r) || r in Descendants(x)
  {
    var cs := n.children;
    SubtreesOfMember(cs, r);
    var i :| 0 <= i < |cs| && r in Subtrees(cs[i]);
    assert cs[i] in cs;
    SubtreeWeight(cs[i], r);
    ChildWeight(cs, i);
    assert |cs| == 1 && i == 0;
    forall x | x in Subtrees(n)
      ensures x in Subtrees(r) || r in Descendants(x)
    {
      if x != n {
        SubtreesOfMember(cs, x);
        assert x in Subtrees(cs[0]);
        if cs[0] != r {
          assert r in Descendants(cs[0]);
          UnaryChain(cs[0], r);
        }
      }
    }
  }
}
