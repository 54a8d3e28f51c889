/** Small facts about sequences shared by the rest of the model. */
module Seqs {

  /** Position of the first occurrence of `x` in `s`, or `|s|` when `x` does not occur. */
  function IndexOf<T(==)>(s: seq<T>, x: T): (i: nat)
    ensures i <= |s|
    ensures i < |s| ==> s[i] == x
    ensures forall j :: 0 <= j < i ==> s[j] != x
    ensures i == |s| <==> x !in s
  {
    if |s| == 0 then 0
    else if s[0] == x then 0
    else 1 + IndexOf(s[1..], x)
  }

  /** Appending an element does not move the first occurrence of anything already present. */
  lemma IndexOfAppend<T>(s: seq<T>, y: T, x: T)
    ensures x in s ==> IndexOf(s + [y], x) == IndexOf(s, x)
    ensures x !in s && x == y ==> IndexOf(s + [y], x) == |s|
  {
    var i, k := IndexOf(s + [y], x), IndexOf(s, x);
    if x in s {
      assert (s + [y])[k] == x;
    } else if x == y {
      assert (s + [y])[|s|] == x;
    }
  }

  /** `f` applied to every element, in order. */
  function Map<A, B>(s: seq<A>, f: A -> B): (t: seq<B>)
    ensures |t| == |s|
    ensures forall i :: 0 <= i < |s| ==> t[i] == f(s[i])
  {
    if |s| == 0 then [] else Map(s[..|s| - 1], f) + [f(s[|s| - 1])]
  }

  /** No element occurs twice. */
  predicate Distinct<T(==)>(s: seq<T>) {
    forall i, j :: 0 <= i < j < |s| ==> s[i] != s[j]
  }

  /** No two elements of `s` share a value of `f`. */
  predicate DistinctBy<T, K(==)>(s: seq<T>, f: T -> K) {
    forall i, j :: 0 <= i < j < |s| ==> f(s[i]) != f(s[j])
  }

  /** The sum of `f` over the elements of `s`, added up from the front. */
  function SumBy<T>(s: seq<T>, f: T -> int): int {
    if |s| == 0 then 0 else SumBy(s[..|s| - 1], f) + f(s[|s| - 1])
  }

  lemma SumByAppend<T>(s: seq<T>, x: T, f: T -> int)
    ensures SumBy(s + [x], f) == SumBy(s, f) + f(x)
  {
    assert (s + [x])[..|s|] == s;
  }

  lemma {:induction false} SumByConcat<T>(a: seq<T>, b: seq<T>, f: T -> int)
    ensures SumBy(a + b, f) == SumBy(a, f) + SumBy(b, f)
    decreases |b|
  {
    if |b| == 0 {
      assert a + b == a;
    } else {
      var b' := b[..|b| - 1];
      SumByConcat(a, b', f);
      assert (a + b)[..|a + b| - 1] == a + b';
    }
  }

  /** Two sequences whose elements agree pointwise under `f` and `g` have equal sums. */
  lemma {:induction false} SumByPointwise<A, B>(s: seq<A>, t: seq<B>, f: A -> int, g: B -> int)
    requires |s| == |t|
    requires forall i :: 0 <= i < |s| ==> f(s[i]) == g(t[i])
    ensures SumBy(s, f) == SumBy(t, g)
    decreases |s|
  {
    if |s| > 0 {
      SumByPointwise(s[..|s| - 1], t[..|t| - 1], f, g);
    }
  }

  lemma SumByCons<T>(x: T, s: seq<T>, f: T -> int)
    ensures SumBy([x] + s, f) == f(x) + SumBy(s, f)
  {
    SumByConcat([x], s, f);
    assert [x][..0] == [];
  }

  /** Replacing one element changes the sum by exactly the difference of the two values. */
  lemma {:induction false} SumByUpdate<T>(s: seq<T>, i: nat, x: T, f: T -> int)
    requires i < |s|
    ensures SumBy(s[i := x], f) == SumBy(s, f) - f(s[i]) + f(x)
    decreases |s|
  {
    var p := s[..|s| - 1];
    if i == |s| - 1 {
      assert s[i := x][..|s| - 1] == p;
    } else {
      SumByUpdate(p, i, x, f);
      assert s[i := x][..|s| - 1] == p[i := x];
    }
  }
}
