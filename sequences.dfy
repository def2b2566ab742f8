/** Generic facts about sequences that the timetable model uses in several places:
    flattening a sequence of lists, keeping the first element of each key, and
    summing a per-element score. */
module Sequences {

  /** The in-order concatenation of a sequence of lists. */
  function Concat<T>(xss: seq<seq<T>>): seq<T>
    decreases |xss|
  {
    if xss == [] then [] else Concat(xss[..|xss| - 1]) + xss[|xss| - 1]
  }

  /** The sum of the lengths of the lists in xss. */
  function TotalLength<T>(xss: seq<seq<T>>): nat
    decreases |xss|
  {
    if xss == [] then 0 else TotalLength(xss[..|xss| - 1]) + |xss[|xss| - 1]|
  }

  lemma {:induction false} ConcatLength<T>(xss: seq<seq<T>>)
    ensures |Concat(xss)| == TotalLength(xss)
    decreases |xss|
  {
    if xss != [] {
      ConcatLength(xss[..|xss| - 1]);
    }
  }

  /** Concatenating one more list at the front. */
  lemma {:induction false} ConcatCons<T>(xs: seq<T>, xss: seq<seq<T>>)
    ensures Concat([xs] + xss) == xs + Concat(xss)
    decreases |xss|
  {
    var ys := [xs] + xss;
    if xss == [] {
      assert ys[..0] == [];
    } else {
      var n := |xss|;
      assert ys[..n] == [xs] + xss[..n - 1];
      ConcatCons(xs, xss[..n - 1]);
      assert Concat(ys) == Concat([xs] + xss[..n - 1]) + xss[n - 1];
      AppendAssoc(xs, Concat(xss[..n - 1]), xss[n - 1]);
    }
  }

  /** An element is in the flattening iff it is in one of the lists. */
  lemma {:induction false} ConcatMember<T>(xss: seq<seq<T>>, x: T)
    ensures x in Concat(xss) <==> exists i :: 0 <= i < |xss| && x in xss[i]
    decreases |xss|
  {
    if xss != [] {
      var n := |xss|;
      ConcatMember(xss[..n - 1], x);
      if x in Concat(xss[..n - 1]) {
        var i :| 0 <= i < n - 1 && x in xss[..n - 1][i];
        assert x in xss[i];
      }
      if exists i :: 0 <= i < n && x in xss[i] {
        var i :| 0 <= i < n && x in xss[i];
        if i < n - 1 {
          assert x in xss[..n - 1][i];
        }
      }
    }
  }

  /** Concatenation is associative. Stated as a lemma so that callers with a large proof
      context get the identity without Dafny unfolding sequence equality there. */
  lemma {:induction false} AppendAssoc<T>(a: seq<T>, b: seq<T>, c: seq<T>)
    ensures (a + b) + c == a + (b + c)
  {
  }

  /** Any index splits a sequence into its prefix and the rest. */
  lemma {:induction false} SplitAtIndex<T>(xs: seq<T>, k: nat)
    requires k <= |xs|
    ensures xs[..k] + xs[k..] == xs
  {
  }

  /** A sequence is what comes before position k, element k, and what comes after it. */
  lemma {:induction false} SplitAround<T>(xs: seq<T>, k: nat)
    requires k < |xs|
    ensures xs == xs[..k] + [xs[k]] + xs[k + 1..]
  {
    assert xs[..k] + [xs[k]] + xs[k + 1..] == xs[..k] + xs[k..];
  }

  /** A slice of at least one element is the shorter slice and then its last element. */
  lemma {:induction false} SliceSnoc<T>(xs: seq<T>, a: nat, b: nat)
    requires a < b <= |xs|
    ensures xs[a..b] == xs[a..b - 1] + [xs[b - 1]]
  {
  }

  /** The first i + 1 elements are the first i and then element i. */
  lemma {:induction false} PrefixSnoc<T>(xs: seq<T>, i: nat)
    requires i < |xs|
    ensures xs[..i + 1][..i] == xs[..i]
    ensures xs[..i + 1] == xs[..i] + [xs[i]]
  {
  }

  /** The keys of the elements of xs. */
  function KeysOf<T(==), K>(xs: seq<T>, key: T -> K): set<K>
  {
    set x | x in xs :: key(x)
  }

  /** The elements of xs whose key no earlier element has, in their order in xs. */
  function DedupBy<T(==), K(==)>(xs: seq<T>, key: T -> K): seq<T>
    decreases |xs|
  {
    if xs == [] then []
    else
      var init, last := xs[..|xs| - 1], xs[|xs| - 1];
      if key(last) in KeysOf(init, key) then DedupBy(init, key) else DedupBy(init, key) + [last]
  }

  /** a is obtained from b by deleting elements. */
  ghost predicate Subsequence<T>(a: seq<T>, b: seq<T>)
    decreases |b|
  {
    if b == [] then a == []
    else
      (a != [] && a[|a| - 1] == b[|b| - 1] && Subsequence(a[..|a| - 1], b[..|b| - 1]))
      || Subsequence(a, b[..|b| - 1])
  }

  lemma {:induction false} SubsequenceMember<T>(a: seq<T>, b: seq<T>, x: T)
    requires Subsequence(a, b)
    requires x in a
    ensures x in b
    decreases |b|
  {
    var n := |b|;
    if a != [] && a[|a| - 1] == b[n - 1] && Subsequence(a[..|a| - 1], b[..n - 1]) {
      if x != a[|a| - 1] {
        assert x in a[..|a| - 1];
        SubsequenceMember(a[..|a| - 1], b[..n - 1], x);
      }
    } else {
      SubsequenceMember(a, b[..n - 1], x);
    }
  }

  lemma {:induction false} DedupByIsSubsequence<T, K>(xs: seq<T>, key: T -> K)
    ensures Subsequence(DedupBy(xs, key), xs)
    decreases |xs|
  {
    if xs != [] {
      var init := xs[..|xs| - 1];
      DedupByIsSubsequence(init, key);
      var d := DedupBy(init, key);
      if key(xs[|xs| - 1]) !in KeysOf(init, key) {
        assert (d + [xs[|xs| - 1]])[..|d|] == d;
      }
    }
  }

  lemma {:induction false} DedupByMember<T, K>(xs: seq<T>, key: T -> K, x: T)
    requires x in DedupBy(xs, key)
    ensures x in xs
  {
    DedupByIsSubsequence(xs, key);
    SubsequenceMember(DedupBy(xs, key), xs, x);
  }

  /** Dropping duplicates loses no key. */
  lemma {:induction false} DedupByKeys<T, K>(xs: seq<T>, key: T -> K)
    ensures KeysOf(DedupBy(xs, key), key) == KeysOf(xs, key)
    decreases |xs|
  {
    if xs != [] {
      var init, last := xs[..|xs| - 1], xs[|xs| - 1];
      DedupByKeys(init, key);
      assert xs == init + [last];
      assert KeysOf(xs, key) == KeysOf(init, key) + {key(last)};
      var d := DedupBy(init, key);
      assert KeysOf(d + [last], key) == KeysOf(d, key) + {key(last)};
    }
  }

  /** One more element: its key joins the keys, and it is kept iff its key is new. */
  lemma {:induction false} DedupBySnoc<T, K>(xs: seq<T>, x: T, key: T -> K)
    ensures KeysOf(xs + [x], key) == KeysOf(xs, key) + {key(x)}
    ensures DedupBy(xs + [x], key)
         == if key(x) in KeysOf(xs, key) then DedupBy(xs, key) else DedupBy(xs, key) + [x]
  {
    assert (xs + [x])[..|xs|] == xs;
  }

  /** No two elements of xs share a key. */
  ghost predicate DistinctKeys<T, K>(xs: seq<T>, key: T -> K)
  {
    forall i, j :: 0 <= i < j < |xs| ==> key(xs[i]) != key(xs[j])
  }

  /** No two kept elements share a key. */
  lemma {:induction false} DedupByDistinctKeys<T, K>(xs: seq<T>, key: T -> K)
    ensures DistinctKeys(DedupBy(xs, key), key)
    decreases |xs|
  {
    if xs != [] {
      var init, last := xs[..|xs| - 1], xs[|xs| - 1];
      DedupByDistinctKeys(init, key);
      var d := DedupBy(init, key);
      if key(last) !in KeysOf(init, key) {
        DedupByKeys(init, key);
        var d' := d + [last];
        assert DedupBy(xs, key) == d';
        forall i, j | 0 <= i < j < |d'|
          ensures key(d'[i]) != key(d'[j])
        {
          assert d'[i] == d[i];
          if j < |d| {
            assert d'[j] == d[j];
          } else {
            assert key(d[i]) in KeysOf(d, key);
          }
        }
      }
    }
  }

  /** No element occurs twice. */
  ghost predicate NoDuplicates<T>(xs: seq<T>)
  {
    forall i, j :: 0 <= i < j < |xs| ==> xs[i] != xs[j]
  }

  /** When no two elements share a key, nothing is dropped. */
  lemma {:induction false} DedupByKeepsAll<T, K>(xs: seq<T>, key: T -> K)
    requires DistinctKeys(xs, key)
    ensures DedupBy(xs, key) == xs
    decreases |xs|
  {
    if xs != [] {
      var init, last := xs[..|xs| - 1], xs[|xs| - 1];
      DedupByKeepsAll(init, key);
      forall y | y in init
        ensures key(y) != key(last)
      {
        var i :| 0 <= i < |init| && init[i] == y;
        assert key(xs[i]) != key(xs[|xs| - 1]);
      }
    }
  }

  /** The sum of score(x) over the elements x of xs. */
  function SumOver<T>(xs: seq<T>, score: T -> int): int
    decreases |xs|
  {
    if xs == [] then 0 else SumOver(xs[..|xs| - 1], score) + score(xs[|xs| - 1])
  }

  lemma {:induction false} SumOverCons<T>(x: T, xs: seq<T>, score: T -> int)
    ensures SumOver([x] + xs, score) == score(x) + SumOver(xs, score)
    decreases |xs|
  {
    if xs == [] {
      assert ([x] + xs)[..0] == [];
    } else {
      var n := |xs|;
      assert ([x] + xs)[..n] == [x] + xs[..n - 1];
      SumOverCons(x, xs[..n - 1], score);
    }
  }

  lemma {:induction false} SumOverAppend<T>(xs: seq<T>, ys: seq<T>, score: T -> int)
    ensures SumOver(xs + ys, score) == SumOver(xs, score) + SumOver(ys, score)
    decreases |ys|
  {
    if ys == [] {
      assert xs + ys == xs;
    } else {
      var n := |ys|;
      assert (xs + ys)[..|xs| + n - 1] == xs + ys[..n - 1];
      SumOverAppend(xs, ys[..n - 1], score);
    }
  }

  /** A sum of non-negative terms is non-negative. */
  lemma {:induction false} SumOverNonNegative<T>(xs: seq<T>, score: T -> int)
    requires forall x :: x in xs ==> score(x) >= 0
    ensures SumOver(xs, score) >= 0
    decreases |xs|
  {
    if xs != [] {
      var init := xs[..|xs| - 1];
      assert forall x :: x in init ==> x in xs;
      SumOverNonNegative(init, score);
      assert xs[|xs| - 1] in xs;
    }
  }

  /** Removing the element at index k. */
  function RemoveAt<T>(xs: seq<T>, k: nat): seq<T>
    requires k < |xs|
  {
    xs[..k] + xs[k + 1..]
  }

  lemma {:induction false} RemoveAtMultiset<T>(xs: seq<T>, k: nat)
    requires k < |xs|
    ensures multiset(RemoveAt(xs, k)) == multiset(xs) - multiset{xs[k]}
  {
    assert xs == xs[..k] + [xs[k]] + xs[k + 1..];
  }

  /** The sum does not depend on the order of the elements. */
  lemma {:induction false} SumOverPermutation<T>(xs: seq<T>, ys: seq<T>, score: T -> int)
    requires multiset(xs) == multiset(ys)
    ensures SumOver(xs, score) == SumOver(ys, score)
    decreases |xs|
  {
    if xs == [] {
      assert |ys| == |multiset(ys)| == 0;
    } else {
      var k := FindRemoved(xs, ys, |xs| - 1);
      SumOverPermutation(RemoveAt(xs, |xs| - 1), RemoveAt(ys, k), score);
      SumOverRemoveAt(ys, k, score);
      SumOverRemoveAt(xs, |xs| - 1, score);
    }
  }

  /** Where the element at position i of xs sits in a permutation ys of xs; removing both leaves
      permutations of each other. */
  lemma {:induction false} FindRemoved<T>(xs: seq<T>, ys: seq<T>, i: nat) returns (k: nat)
    requires multiset(xs) == multiset(ys) && i < |xs|
    ensures k < |ys| && ys[k] == xs[i]
    ensures multiset(RemoveAt(xs, i)) == multiset(RemoveAt(ys, k))
  {
    assert xs[i] in multiset(ys) by {
      assert xs[i] in multiset(xs);
    }
    k :| 0 <= k < |ys| && ys[k] == xs[i];
    RemoveAtMultiset(xs, i);
    RemoveAtMultiset(ys, k);
  }

  lemma {:induction false} SumOverRemoveAt<T>(ys: seq<T>, k: nat, score: T -> int)
    requires k < |ys|
    ensures SumOver(ys, score) == SumOver(RemoveAt(ys, k), score) + score(ys[k])
  {
    assert ys == ys[..k] + ([ys[k]] + ys[k + 1..]);
    SumOverAppend(ys[..k], [ys[k]] + ys[k + 1..], score);
    SumOverCons(ys[k], ys[k + 1..], score);
    SumOverAppend(ys[..k], ys[k + 1..], score);
  }
}
