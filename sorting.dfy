/**
 * Ordering a list by an integer key, as the game's rankings do with a comparator.
 * The result is a permutation of the input in non-decreasing key order; which of
 * several elements with equal keys comes first is not specified.
 */
module Sorting {

  /** `xs` is in non-decreasing order of `key`. */
  ghost predicate SortedBy<T>(xs: seq<T>, key: T -> int)
  {
    forall i, j :: 0 <= i < j < |xs| ==> key(xs[i]) <= key(xs[j])
  }

  /** No element occurs twice. */
  ghost predicate NoDuplicates<T(!new)>(xs: seq<T>)
  {
    forall x :: multiset(xs)[x] <= 1
  }

  method SortBy<T>(xs: seq<T>, key: T -> int) returns (ys: seq<T>)
    ensures multiset(ys) == multiset(xs)
    ensures SortedBy(ys, key)
  {
    ys := [];
    var i := 0;
    while i < |xs|
      invariant 0 <= i <= |xs|
      invariant multiset(ys) == multiset(xs[..i])
      invariant SortedBy(ys, key)
    {
      ys := InsertSorted(ys, xs[i], key);
      assert xs[..i + 1] == xs[..i] + [xs[i]];
      i := i + 1;
    }
    assert xs[..i] == xs;
  }

  /** Puts `x` after every element whose key is not larger. */
  method InsertSorted<T>(ys: seq<T>, x: T, key: T -> int) returns (zs: seq<T>)
    requires SortedBy(ys, key)
    ensures multiset(zs) == multiset(ys) + multiset{x}
    ensures SortedBy(zs, key)
  {
    var j := 0;
    while j < |ys| && key(ys[j]) <= key(x)
      invariant 0 <= j <= |ys|
      invariant forall k :: 0 <= k < j ==> key(ys[k]) <= key(x)
    {
      j := j + 1;
    }
    zs := ys[..j] + [x] + ys[j..];
    assert ys == ys[..j] + ys[j..];
    InsertKeepsSorted(ys, x, key, j);
  }

  lemma InsertKeepsSorted<T>(ys: seq<T>, x: T, key: T -> int, j: nat)
    requires SortedBy(ys, key) && j <= |ys|
    requires forall k :: 0 <= k < j ==> key(ys[k]) <= key(x)
    requires j < |ys| ==> key(x) < key(ys[j])
    ensures SortedBy(ys[..j] + [x] + ys[j..], key)
  {
    var zs := ys[..j] + [x] + ys[j..];
    assert forall k :: 0 <= k < |zs| ==> zs[k] == if k < j then ys[k] else if k == j then x else ys[k - 1];
    forall a, b | 0 <= a < b < |zs| ensures key(zs[a]) <= key(zs[b]) {
      if b > j {
        assert key(x) < key(ys[j]) <= key(ys[b - 1]);
      }
    }
  }

  /** A prefix of a sorted list holds the smallest keys. */
  lemma SortedPrefix<T>(ys: seq<T>, key: T -> int, n: nat)
    requires SortedBy(ys, key) && n <= |ys|
    ensures SortedBy(ys[..n], key)
    ensures forall a, b :: a in ys[..n] && b in ys[n..] ==> key(a) <= key(b)
  {
    forall a, b | a in ys[..n] && b in ys[n..] ensures key(a) <= key(b) {
      var i :| 0 <= i < n && ys[..n][i] == a;
      var j :| 0 <= j < |ys| - n && ys[n..][j] == b;
      assert ys[i] == a && ys[n + j] == b;
    }
  }

  /** Appending an element that is not there yet keeps a list free of duplicates. */
  lemma AppendFresh<T(!new)>(xs: seq<T>, x: T)
    requires NoDuplicates(xs) && x !in xs
    ensures NoDuplicates(xs + [x])
  {
    assert multiset(xs + [x]) == multiset(xs) + multiset{x};
  }

  /** A permutation has the same elements, and no duplicates when the original has none. */
  lemma PermutationFacts<T(!new)>(xs: seq<T>, ys: seq<T>)
    requires multiset(xs) == multiset(ys)
    ensures |xs| == |ys|
    ensures forall x :: x in xs <==> x in ys
    ensures NoDuplicates(xs) ==> NoDuplicates(ys)
  {
    assert |multiset(xs)| == |multiset(ys)|;
    forall x ensures x in xs <==> x in ys {
      assert x in xs <==> x in multiset(xs);
      assert x in ys <==> x in multiset(ys);
    }
  }

  /** A list without duplicates is as long as the set of its elements. */
  lemma {:induction false} DistinctCount<T(!new)>(xs: seq<T>, s: set<T>)
    requires NoDuplicates(xs) && forall x :: x in xs <==> x in s
    ensures |xs| == |s|
  {
    if xs != [] {
      var n := |xs|;
      var x, rest := xs[n - 1], xs[..n - 1];
      assert xs == rest + [x];
      assert multiset(xs) == multiset(rest) + multiset{x};
      assert multiset(xs)[x] <= 1;
      assert x !in multiset(rest);
      assert NoDuplicates(rest) by {
        forall y ensures multiset(rest)[y] <= 1 {
          assert multiset(rest)[y] <= multiset(xs)[y];
        }
      }
      DistinctCount(rest, s - {x});
    }
  }

  /** An element of a list that is not among its first `n` is among the others. */
  lemma PrefixOrRest<T>(ys: seq<T>, n: nat, x: T)
    requires n <= |ys| && x in ys && x !in ys[..n]
    ensures x in ys[n..]
  {
    assert ys == ys[..n] + ys[n..];
  }

  /** The first `n` elements of a list without duplicates are elements of it, each once. */
  lemma PrefixFacts<T(!new)>(ys: seq<T>, n: nat)
    requires n <= |ys|
    ensures forall x :: x in ys[..n] ==> x in ys
    ensures NoDuplicates(ys) ==> NoDuplicates(ys[..n])
  {
    assert ys == ys[..n] + ys[n..];
    assert multiset(ys) == multiset(ys[..n]) + multiset(ys[n..]);
    forall x | x in ys[..n] ensures x in ys {
      assert x in multiset(ys[..n]);
    }
    if NoDuplicates(ys) {
      forall x ensures multiset(ys[..n])[x] <= 1 {
        assert multiset(ys)[x] <= 1;
      }
    }
  }
}
