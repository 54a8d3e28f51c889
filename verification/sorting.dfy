/** Python's `sorted(xs, key=key, reverse=True)`: a stable sort, highest key first. */
module Sorting {
  import opened Seqs

  /** Keys never increase from left to right. */
  predicate Descending<T>(s: seq<T>, key: T -> int) {
    forall i, j :: 0 <= i < j < |s| ==> key(s[i]) >= key(s[j])
  }

  /** Puts `e` in front of the first element whose key is not larger than its own, so it lands
      after every larger key and before every equal one. */
  function Insert<T>(e: T, xs: seq<T>, key: T -> int): (r: seq<T>)
    ensures multiset(r) == multiset(xs) + multiset{e}
  {
    if |xs| == 0 || key(xs[0]) <= key(e) then [e] + xs
    else
      assert xs == [xs[0]] + xs[1..];
      [xs[0]] + Insert(e, xs[1..], key)
  }

  /** Every element satisfies `p`. */
  predicate All<T>(s: seq<T>, p: T -> bool) {
    forall i :: 0 <= i < |s| ==> p(s[i])
  }

  /** Insertion adds `e` and nothing else, so a property of `e` and of all of `xs` holds of all the result. */
  lemma {:induction false} InsertAll<T>(e: T, xs: seq<T>, key: T -> int, p: T -> bool)
    requires p(e) && All(xs, p)
    ensures All(Insert(e, xs, key), p)
    decreases |xs|
  {
    if |xs| > 0 && key(xs[0]) > key(e) {
      InsertAll(e, xs[1..], key, p);
    }
  }

  lemma {:induction false} SortAll<T>(s: seq<T>, key: T -> int, p: T -> bool)
    requires All(s, p)
    ensures All(Sort(s, key), p)
    decreases |s|
  {
    if |s| > 0 {
      SortAll(s[1..], key, p);
      InsertAll(s[0], Sort(s[1..], key), key, p);
    }
  }

  lemma {:induction false} InsertDescending<T>(e: T, xs: seq<T>, key: T -> int)
    requires Descending(xs, key)
    ensures Descending(Insert(e, xs, key), key)
    decreases |xs|
  {
    if |xs| > 0 && key(xs[0]) > key(e) {
      InsertDescending(e, xs[1..], key);
      var x := xs[0];
      var atMost := (z: T) => key(z) <= key(x);
      InsertAll(e, xs[1..], key, atMost);
      var tail := Insert(e, xs[1..], key);
      assert forall j :: 0 <= j < |tail| ==> atMost(tail[j]);
    }
  }

  /** Insertion sort: the head is inserted last, in front of every element whose key is not
      larger, so equal keys keep their input order. */
  function Sort<T>(s: seq<T>, key: T -> int): (r: seq<T>)
    ensures multiset(r) == multiset(s)
    ensures |r| == |s|
    ensures Descending(r, key)
  {
    if |s| == 0 then []
    else
      assert s == [s[0]] + s[1..];
      InsertDescending(s[0], Sort(s[1..], key), key);
      Insert(s[0], Sort(s[1..], key), key)
  }

  /** The elements of `s` whose key is `k`, in their order in `s`. */
  function WithKey<T>(s: seq<T>, key: T -> int, k: int): seq<T> {
    if |s| == 0 then []
    else (if key(s[0]) == k then [s[0]] else []) + WithKey(s[1..], key, k)
  }

  lemma {:induction false} InsertWithKey<T>(e: T, xs: seq<T>, key: T -> int, k: int)
    ensures WithKey(Insert(e, xs, key), key, k) == (if key(e) == k then [e] else []) + WithKey(xs, key, k)
    decreases |xs|
  {
    if |xs| == 0 || key(xs[0]) <= key(e) {
      assert ([e] + xs)[1..] == xs;
    } else {
      var x, rest := xs[0], xs[1..];
      InsertWithKey(e, rest, key, k);
      var tail := Insert(e, rest, key);
      var r := [x] + tail;
      assert Insert(e, xs, key) == r;
      assert r[0] == x && r[1..] == tail;
      assert WithKey(r, key, k) == (if key(x) == k then [x] else []) + WithKey(tail, key, k);
      assert WithKey(xs, key, k) == (if key(x) == k then [x] else []) + WithKey(rest, key, k);
    }
  }

  /** Stability: among equal keys the sorted order is the input order. */
  lemma {:induction false} SortStable<T>(s: seq<T>, key: T -> int, k: int)
    ensures WithKey(Sort(s, key), key, k) == WithKey(s, key, k)
    decreases |s|
  {
    if |s| > 0 {
      SortStable(s[1..], key, k);
      InsertWithKey(s[0], Sort(s[1..], key), key, k);
    }
  }

  /** `rank` strictly increases along `s`. */
  predicate Increasing<T>(s: seq<T>, rank: T -> int) {
    forall i, j :: 0 <= i < j < |s| ==> rank(s[i]) < rank(s[j])
  }

  /** Ordered by `key` descending, ties broken by `rank` ascending. */
  predicate RankedBy<T>(s: seq<T>, key: T -> int, rank: T -> int) {
    forall i, j :: 0 <= i < j < |s| ==> Before(s[i], s[j], key, rank)
  }

  /** `a` may come before `b`: a larger key, or an equal key and a smaller rank. */
  predicate Before<T>(a: T, b: T, key: T -> int, rank: T -> int) {
    key(a) > key(b) || (key(a) == key(b) && rank(a) < rank(b))
  }

  lemma {:induction false} InsertRanked<T>(e: T, xs: seq<T>, key: T -> int, rank: T -> int)
    requires RankedBy(xs, key, rank)
    requires All(xs, z => rank(e) < rank(z))
    ensures RankedBy(Insert(e, xs, key), key, rank)
    decreases |xs|
  {
    if |xs| == 0 || key(xs[0]) <= key(e) {
      var r := [e] + xs;
      forall i, j | 0 <= i < j < |r|
        ensures Before(r[i], r[j], key, rank)
      {
        if i == 0 {
          assert r[j] == xs[j - 1];
          assert Before(xs[0], xs[j - 1], key, rank) || j == 1;
        } else {
          assert r[i] == xs[i - 1] && r[j] == xs[j - 1];
        }
      }
    } else {
      var x := xs[0];
      InsertRanked(e, xs[1..], key, rank);
      var after := (z: T) => Before(x, z, key, rank);
      assert All(xs[1..], after) by {
        assert forall j :: 1 <= j < |xs| ==> Before(x, xs[j], key, rank);
      }
      InsertAll(e, xs[1..], key, after);
      var tail := Insert(e, xs[1..], key);
      assert forall j :: 0 <= j < |tail| ==> after(tail[j]);
    }
  }

  /** Stability stated through a rank: when the input is listed in increasing rank, the output
      is ordered by key, and equal keys keep increasing rank. */
  lemma {:induction false} SortRanked<T>(s: seq<T>, key: T -> int, rank: T -> int)
    requires Increasing(s, rank)
    ensures RankedBy(Sort(s, key), key, rank)
    decreases |s|
  {
    if |s| > 0 {
      SortRanked(s[1..], key, rank);
      var later := (z: T) => rank(s[0]) < rank(z);
      assert All(s[1..], later) by {
        assert forall j :: 1 <= j < |s| ==> rank(s[0]) < rank(s[j]);
      }
      SortAll(s[1..], key, later);
      InsertRanked(s[0], Sort(s[1..], key), key, rank);
    }
  }

  /** The sort moves elements around and neither adds nor drops any, so sums are unchanged. */
  lemma {:induction false} SortPreservesSum<T>(s: seq<T>, key: T -> int, f: T -> int)
    ensures SumBy(Sort(s, key), f) == SumBy(s, f)
    decreases |s|
  {
    if |s| > 0 {
      var x, rest := s[0], s[1..];
      assert s == [x] + rest;
      SumByCons(x, rest, f);
      SortPreservesSum(rest, key, f);
      InsertPreservesSum(x, Sort(rest, key), key, f);
    }
  }

  lemma {:induction false} InsertPreservesSum<T>(e: T, xs: seq<T>, key: T -> int, f: T -> int)
    ensures SumBy(Insert(e, xs, key), f) == f(e) + SumBy(xs, f)
    decreases |xs|
  {
    if |xs| == 0 || key(xs[0]) <= key(e) {
      SumByCons(e, xs, f);
    } else {
      InsertPreservesSum(e, xs[1..], key, f);
      SumByCons(xs[0], Insert(e, xs[1..], key), f);
      assert xs == [xs[0]] + xs[1..];
      SumByCons(xs[0], xs[1..], f);
    }
  }

  lemma {:induction false} InsertDistinctBy<T, K>(e: T, xs: seq<T>, key: T -> int, f: T -> K)
    requires DistinctBy(xs, f)
    requires All(xs, z => f(z) != f(e))
    ensures DistinctBy(Insert(e, xs, key), f)
    decreases |xs|
  {
    if |xs| == 0 || key(xs[0]) <= key(e) {
      var r := [e] + xs;
      forall i, j | 0 <= i < j < |r|
        ensures f(r[i]) != f(r[j])
      {
        assert r[j] == xs[j - 1];
        if i > 0 {
          assert r[i] == xs[i - 1];
        }
      }
    } else {
      var x := xs[0];
      InsertDistinctBy(e, xs[1..], key, f);
      var other := (z: T) => f(z) != f(x);
      assert All(xs[1..], other) by {
        assert forall j :: 1 <= j < |xs| ==> f(xs[0]) != f(xs[j]);
      }
      InsertAll(e, xs[1..], key, other);
      var tail := Insert(e, xs[1..], key);
      assert forall j :: 0 <= j < |tail| ==> other(tail[j]);
    }
  }

  /** Sorting neither merges nor duplicates elements, so distinct `f` values stay distinct. */
  lemma {:induction false} SortDistinctBy<T, K>(s: seq<T>, key: T -> int, f: T -> K)
    requires DistinctBy(s, f)
    ensures DistinctBy(Sort(s, key), f)
    decreases |s|
  {
    if |s| > 0 {
      SortDistinctBy(s[1..], key, f);
      var other := (z: T) => f(z) != f(s[0]);
      assert All(s[1..], other) by {
        assert forall j :: 1 <= j < |s| ==> f(s[0]) != f(s[j]);
      }
      SortAll(s[1..], key, other);
      InsertDistinctBy(s[0], Sort(s[1..], key), key, f);
    }
  }
}
