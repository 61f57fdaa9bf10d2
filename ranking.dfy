/**
 * The ranking step shared by the file and sentence searches:
 * `sorted(score, key=score.get, reverse=True)[:n]`. Python's sort is
 * stable, also with `reverse=True`, so entries with equal scores keep the
 * order of the dictionary they come from.
 */
module Ranking {

  /** `xs[:n]` on a Python list; a negative `n` drops that many from the end. */
  function Slice<T>(xs: seq<T>, n: int): (r: seq<T>)
    ensures r <= xs
    ensures n >= 0 ==> |r| == if n < |xs| then n else |xs|
    ensures n < 0 ==> |r| == if |xs| + n > 0 then |xs| + n else 0
  {
    if n >= 0 then xs[..if n < |xs| then n else |xs|]
    else xs[..if |xs| + n > 0 then |xs| + n else 0]
  }

  /** `le` orders every pair of keys and is transitive. */
  ghost predicate TotalPreorder<K(!new)>(le: (K, K) -> bool)
  {
    && (forall a, b :: le(a, b) || le(b, a))
    && (forall a, b, c :: le(a, b) && le(b, c) ==> le(a, c))
  }

  predicate HasKeys<K>(xs: seq<string>, key: map<string, K>)
  {
    forall x :: x in xs ==> x in key
  }

  /** Non-increasing in key order. */
  ghost predicate SortedDesc<K>(r: seq<string>, key: map<string, K>, le: (K, K) -> bool)
    requires HasKeys(r, key)
  {
    forall i, j :: 0 <= i < j < |r| ==> le(key[r[j]], key[r[i]])
  }

  ghost predicate Distinct<T>(xs: seq<T>)
  {
    forall i, j :: 0 <= i < j < |xs| ==> xs[i] != xs[j]
  }

  /** Puts `x` in front of the first element whose key is not above its own. */
  function Insert<K>(x: string, ys: seq<string>, key: map<string, K>, le: (K, K) -> bool): (r: seq<string>)
    requires x in key && HasKeys(ys, key)
    ensures multiset(r) == multiset(ys) + multiset{x}
    ensures HasKeys(r, key)
  {
    if ys == [] || le(key[ys[0]], key[x]) then [x] + ys
    else
      assert ys == [ys[0]] + ys[1..];
      [ys[0]] + Insert(x, ys[1..], key, le)
  }

  /** Stable sort into non-increasing key order. */
  function SortDesc<K>(xs: seq<string>, key: map<string, K>, le: (K, K) -> bool): (r: seq<string>)
    requires HasKeys(xs, key)
    ensures multiset(r) == multiset(xs)
    ensures HasKeys(r, key)
  {
    if xs == [] then []
    else
      assert xs == [xs[0]] + xs[1..];
      Insert(xs[0], SortDesc(xs[1..], key, le), key, le)
  }

  /** The first `n` entries by descending key. */
  function TopN<K>(xs: seq<string>, key: map<string, K>, le: (K, K) -> bool, n: int): (r: seq<string>)
    requires HasKeys(xs, key)
    ensures n >= 0 ==> |r| == if n < |xs| then n else |xs|
    ensures n < 0 ==> |r| == if |xs| + n > 0 then |xs| + n else 0
    ensures forall y :: y in r ==> y in xs
    ensures HasKeys(r, key)
  {
    var sorted := SortDesc(xs, key, le);
    assert |sorted| == |multiset(sorted)| == |xs|;
    PrefixMembers(xs, sorted, Slice(sorted, n));
    Slice(sorted, n)
  }

  // ---------------------------------------------------------------------

  lemma {:induction false} InsertSorted<K(!new)>(x: string, ys: seq<string>, key: map<string, K>, le: (K, K) -> bool)
    requires TotalPreorder(le)
    requires x in key && HasKeys(ys, key) && SortedDesc(ys, key, le)
    ensures SortedDesc(Insert(x, ys, key, le), key, le)
  {
    var r := Insert(x, ys, key, le);
    if ys == [] {
    } else if le(key[ys[0]], key[x]) {
      forall i, j | 0 <= i < j < |r|
        ensures le(key[r[j]], key[r[i]])
      {
        if i == 0 && j > 1 {
          assert le(key[ys[j - 1]], key[ys[0]]);
        }
      }
    } else {
      var rest := Insert(x, ys[1..], key, le);
      InsertSorted(x, ys[1..], key, le);
      assert le(key[x], key[ys[0]]);
      forall k | 0 <= k < |rest|
        ensures le(key[rest[k]], key[ys[0]])
      {
        assert rest[k] in multiset(ys[1..]) + multiset{x};
        if rest[k] != x {
          assert rest[k] in ys[1..];
          var m :| 0 <= m < |ys[1..]| && ys[1..][m] == rest[k];
          assert ys[m + 1] == rest[k];
        }
      }
      assert r == [ys[0]] + rest;
    }
  }

  lemma {:induction false} SortDescSorted<K(!new)>(xs: seq<string>, key: map<string, K>, le: (K, K) -> bool)
    requires TotalPreorder(le) && HasKeys(xs, key)
    ensures SortedDesc(SortDesc(xs, key, le), key, le)
  {
    if xs != [] {
      SortDescSorted(xs[1..], key, le);
      InsertSorted(xs[0], SortDesc(xs[1..], key, le), key, le);
    }
  }

  lemma {:induction false} DistinctCount<T>(xs: seq<T>, v: T)
    requires Distinct(xs)
    ensures multiset(xs)[v] <= 1
  {
    if xs != [] {
      assert xs == [xs[0]] + xs[1..];
      DistinctCount(xs[1..], v);
      if xs[0] == v {
        assert v !in xs[1..];
      }
    }
  }

  /** A permutation of a list without repeats has no repeats. */
  lemma PermutationDistinct<T>(xs: seq<T>, r: seq<T>)
    requires Distinct(xs) && multiset(r) == multiset(xs)
    ensures Distinct(r)
  {
    forall i, j | 0 <= i < j < |r|
      ensures r[i] != r[j]
    {
      if r[i] == r[j] {
        var v := r[i];
        assert r == r[..j] + [r[j]] + r[j + 1..];
        assert v in r[..j];
        assert multiset(r)[v] >= 2;
        DistinctCount(xs, v);
        assert false;
      }
    }
  }

  /**
   * `r` is a top-`n` selection from `xs`: as many entries as asked for (or
   * all there are), drawn from `xs`, none twice, in non-increasing key
   * order, and nothing left out ranks above anything kept.
   */
  ghost predicate IsTopN<K>(r: seq<string>, xs: seq<string>, key: map<string, K>, le: (K, K) -> bool, n: int)
    requires HasKeys(xs, key)
  {
    && (n >= 0 ==> |r| == if n < |xs| then n else |xs|)
    && (forall y :: y in r ==> y in xs)
    && Distinct(r)
    && SortedDesc(r, key, le)
    && (forall x, y :: x in xs && x !in r && y in r ==> le(key[x], key[y]))
  }

  /** In a sorted list, whatever lies beyond a prefix ranks no higher than what the prefix holds. */
  lemma SortedPrefixOutranks<K>(s: seq<string>, r: seq<string>, key: map<string, K>, le: (K, K) -> bool)
    requires HasKeys(s, key) && SortedDesc(s, key, le) && r <= s
    ensures forall x, y :: x in s && x !in r && y in r ==> le(key[x], key[y])
  {
    forall x, y | x in s && x !in r && y in r
      ensures le(key[x], key[y])
    {
      var p :| 0 <= p < |s| && s[p] == x;
      var q :| 0 <= q < |r| && r[q] == y;
      assert s[q] == y;
      assert forall k :: 0 <= k < |r| ==> s[k] != x;
    }
  }

  lemma PrefixMembers<T>(xs: seq<T>, s: seq<T>, r: seq<T>)
    requires multiset(s) == multiset(xs) && r <= s
    ensures forall y :: y in r ==> y in xs
  {
    forall y | y in r
      ensures y in xs
    {
      assert y in s;
      assert y in multiset(s);
    }
  }

  /** A prefix of a sorted list without repeats is sorted and has no repeats. */
  lemma SortedPrefix<K>(s: seq<string>, r: seq<string>, key: map<string, K>, le: (K, K) -> bool)
    requires HasKeys(s, key) && SortedDesc(s, key, le) && Distinct(s) && r <= s
    ensures HasKeys(r, key) && SortedDesc(r, key, le) && Distinct(r)
  {
    assert forall i :: 0 <= i < |r| ==> r[i] == s[i];
  }

  /** `TopN` selects the top `n`. */
  lemma TopNSpec<K(!new)>(xs: seq<string>, key: map<string, K>, le: (K, K) -> bool, n: int)
    requires TotalPreorder(le) && HasKeys(xs, key) && Distinct(xs)
    ensures IsTopN(TopN(xs, key, le, n), xs, key, le, n)
  {
    var sorted := SortDesc(xs, key, le);
    var r := Slice(sorted, n);
    assert TopN(xs, key, le, n) == r;
    SortDescSorted(xs, key, le);
    PermutationDistinct(xs, sorted);
    assert |sorted| == |multiset(sorted)| == |xs|;
    PrefixMembers(xs, sorted, r);
    SortedPrefix(sorted, r, key, le);
    SortedPrefixOutranks(sorted, r, key, le);
    assert forall x :: x in xs <==> x in sorted by {
      PrefixMembers(sorted, xs, xs);
      PrefixMembers(xs, sorted, sorted);
    }
  }

  // ---------------------------------------------------------------------
  // Stability

  /** `a` occurs before `b` in `r`. */
  ghost predicate Before(r: seq<string>, a: string, b: string)
  {
    exists p, q :: 0 <= p < q < |r| && r[p] == a && r[q] == b
  }

  /** Inserting keeps the relative order of the entries already there. */
  lemma {:induction false} InsertKeepsOrder<K>(x: string, ys: seq<string>, key: map<string, K>, le: (K, K) -> bool,
                                               a: string, b: string)
    requires x in key && HasKeys(ys, key) && Before(ys, a, b)
    ensures Before(Insert(x, ys, key, le), a, b)
  {
    var r := Insert(x, ys, key, le);
    var p, q :| 0 <= p < q < |ys| && ys[p] == a && ys[q] == b;
    if ys == [] || le(key[ys[0]], key[x]) {
      assert r[p + 1] == a && r[q + 1] == b;
    } else {
      var rest := Insert(x, ys[1..], key, le);
      assert r == [ys[0]] + rest;
      if p == 0 {
        assert ys[1..][q - 1] == b;
        assert b in multiset(rest);
        var q' :| 0 <= q' < |rest| && rest[q'] == b;
        assert r[0] == a && r[q' + 1] == b;
      } else {
        assert ys[1..][p - 1] == a && ys[1..][q - 1] == b;
        InsertKeepsOrder(x, ys[1..], key, le, a, b);
        var p', q' :| 0 <= p' < q' < |rest| && rest[p'] == a && rest[q'] == b;
        assert r[p' + 1] == a && r[q' + 1] == b;
      }
    }
  }

  /** The inserted entry goes before every entry whose key is not above its own. */
  lemma {:induction false} InsertBefore<K>(x: string, ys: seq<string>, key: map<string, K>, le: (K, K) -> bool,
                                           y: string)
    requires x in key && HasKeys(ys, key) && y in ys && le(key[y], key[x])
    ensures Before(Insert(x, ys, key, le), x, y)
  {
    var r := Insert(x, ys, key, le);
    var q :| 0 <= q < |ys| && ys[q] == y;
    if le(key[ys[0]], key[x]) {
      assert r[0] == x && r[q + 1] == y;
    } else {
      var rest := Insert(x, ys[1..], key, le);
      assert r == [ys[0]] + rest;
      assert ys[1..][q - 1] == y;
      InsertBefore(x, ys[1..], key, le, y);
      var p', q' :| 0 <= p' < q' < |rest| && rest[p'] == x && rest[q'] == y;
      assert r[p' + 1] == x && r[q' + 1] == y;
    }
  }

  /**
   * The sort is stable: an entry ranks before every later entry whose key
   * is not above its own, so equal keys keep their original order.
   */
  lemma {:induction false} SortDescStable<K>(xs: seq<string>, key: map<string, K>, le: (K, K) -> bool, i: int, j: int)
    requires HasKeys(xs, key) && 0 <= i < j < |xs|
    requires le(key[xs[j]], key[xs[i]])
    ensures Before(SortDesc(xs, key, le), xs[i], xs[j])
  {
    var rest := SortDesc(xs[1..], key, le);
    if i == 0 {
      assert xs[1..][j - 1] == xs[j];
      assert xs[j] in multiset(rest);
      InsertBefore(xs[0], rest, key, le, xs[j]);
    } else {
      assert xs[1..][i - 1] == xs[i] && xs[1..][j - 1] == xs[j];
      SortDescStable(xs[1..], key, le, i - 1, j - 1);
      InsertKeepsOrder(xs[0], rest, key, le, xs[i], xs[j]);
    }
  }
}
