/** The stable "newest first" ordering used by the client (`Array.prototype.sort`
    with a `b - a` comparator, which is stable) and by the services
    (`sorted(..., key=..., reverse=True)`, also stable): an insertion sort on
    an integer key, descending, with the facts the callers rely on. */
module Sorting {

  /** Keys never increase from left to right. */
  ghost predicate SortedDesc<T>(s: seq<T>, key: T -> int)
  {
    forall i, j :: 0 <= i < j < |s| ==> key(s[i]) >= key(s[j])
  }

  /** Inserts `x` in front of the first element whose key is not larger, so
      that `x` stays ahead of the elements with an equal key. */
  function InsertDesc<T>(x: T, s: seq<T>, key: T -> int): (r: seq<T>)
    ensures |r| == |s| + 1
    ensures multiset(r) == multiset(s) + multiset{x}
  {
    if |s| == 0 || key(s[0]) <= key(x) then [x] + s
    else
      assert s == [s[0]] + s[1..];
      [s[0]] + InsertDesc(x, s[1..], key)
  }

  /** Stable sort, largest key first. */
  function SortDesc<T>(s: seq<T>, key: T -> int): (r: seq<T>)
    ensures |r| == |s|
    ensures multiset(r) == multiset(s)
  {
    if |s| == 0 then []
    else
      assert s == [s[0]] + s[1..];
      InsertDesc(s[0], SortDesc(s[1..], key), key)
  }

  /** The elements of `s` whose key is `k`, in their order in `s`. */
  function WithKey<T>(s: seq<T>, key: T -> int, k: int): seq<T>
  {
    if |s| == 0 then []
    else (if key(s[0]) == k then [s[0]] else []) + WithKey(s[1..], key, k)
  }

  lemma {:induction false} InsertDescSorted<T>(x: T, s: seq<T>, key: T -> int)
    requires SortedDesc(s, key)
    ensures SortedDesc(InsertDesc(x, s, key), key)
  {
    if |s| == 0 || key(s[0]) <= key(x) {
    } else {
      var t := s[1..];
      assert SortedDesc(t, key);
      InsertDescSorted(x, t, key);
      var r := InsertDesc(x, t, key);
      forall y | y in r ensures key(s[0]) >= key(y) {
        assert y in multiset(r);
        if y != x {
          assert y in t;
        }
      }
    }
  }

  /** The result of the sort is ordered, largest key first. */
  lemma {:induction false} SortDescSorted<T>(s: seq<T>, key: T -> int)
    ensures SortedDesc(SortDesc(s, key), key)
  {
    if |s| > 0 {
      SortDescSorted(s[1..], key);
      InsertDescSorted(s[0], SortDesc(s[1..], key), key);
    }
  }

  lemma {:induction false} InsertDescStable<T>(x: T, s: seq<T>, key: T -> int, k: int)
    ensures WithKey(InsertDesc(x, s, key), key, k)
         == (if key(x) == k then [x] else []) + WithKey(s, key, k)
  {
    var xs: seq<T> := if key(x) == k then [x] else [];
    if |s| == 0 || key(s[0]) <= key(x) {
      assert ([x] + s)[1..] == s;
      assert WithKey([x] + s, key, k) == xs + WithKey(s, key, k);
    } else {
      var tail := InsertDesc(x, s[1..], key);
      var hs: seq<T> := if key(s[0]) == k then [s[0]] else [];
      InsertDescStable(x, s[1..], key, k);
      assert ([s[0]] + tail)[0] == s[0] && ([s[0]] + tail)[1..] == tail;
      assert WithKey([s[0]] + tail, key, k) == hs + WithKey(tail, key, k);
      assert WithKey(tail, key, k) == xs + WithKey(s[1..], key, k);
      assert WithKey(s, key, k) == hs + WithKey(s[1..], key, k);
      assert hs == [] || xs == [];
      assert hs + (xs + WithKey(s[1..], key, k)) == xs + (hs + WithKey(s[1..], key, k));
    }
  }

  /** Stability: for every key, the elements carrying it keep their relative
      order. */
  lemma {:induction false} SortDescStable<T>(s: seq<T>, key: T -> int, k: int)
    ensures WithKey(SortDesc(s, key), key, k) == WithKey(s, key, k)
  {
    if |s| > 0 {
      SortDescStable(s[1..], key, k);
      InsertDescStable(s[0], SortDesc(s[1..], key), key, k);
    }
  }

  // ---------------------------------------------------------------------
  // Permutations

  /** No two positions of `s` carry the same `f`-value. */
  ghost predicate DistinctBy<T, K>(s: seq<T>, f: T -> K)
  {
    forall i, j :: 0 <= i < j < |s| ==> f(s[i]) != f(s[j])
  }

  lemma TwoIndicesCount<T>(s: seq<T>, i: nat, j: nat)
    requires i < j < |s| && s[i] == s[j]
    ensures multiset(s)[s[i]] >= 2
  {
    assert s == s[..j] + [s[j]] + s[j + 1..];
    assert s[i] in s[..j];
  }

  lemma {:induction false} CountTwoIndices<T>(s: seq<T>, x: T) returns (p: nat, q: nat)
    requires multiset(s)[x] >= 2
    ensures p < q < |s| && s[p] == x && s[q] == x
  {
    assert s == [s[0]] + s[1..];
    if s[0] == x {
      assert x in multiset(s[1..]);
      var k :| 0 <= k < |s[1..]| && s[1..][k] == x;
      p, q := 0, k + 1;
    } else {
      var p', q' := CountTwoIndices(s[1..], x);
      p, q := p' + 1, q' + 1;
    }
  }

  /** A permutation of a sequence with distinct `f`-values has distinct
      `f`-values too. */
  lemma PermutationKeepsDistinct<T, K>(s1: seq<T>, s2: seq<T>, f: T -> K)
    requires multiset(s1) == multiset(s2) && DistinctBy(s1, f)
    ensures DistinctBy(s2, f)
  {
    forall i, j | 0 <= i < j < |s2| ensures f(s2[i]) != f(s2[j]) {
      if s2[i] == s2[j] {
        TwoIndicesCount(s2, i, j);
        var p, q := CountTwoIndices(s1, s2[i]);
        assert false;
      } else {
        assert s2[i] in multiset(s1) && s2[j] in multiset(s1);
        var p :| 0 <= p < |s1| && s1[p] == s2[i];
        var q :| 0 <= q < |s1| && s1[q] == s2[j];
        if p < q {
        } else {
        }
      }
    }
  }
}
