/** Sums over sequences and the facts that make them independent of order. */
module Sums {

  /** f summed over xs, left to right. */
  function Sum<T>(xs: seq<T>, f: T -> int): int
  {
    if |xs| == 0 then 0 else f(xs[0]) + Sum(xs[1..], f)
  }

  /** The elements of xs that satisfy keep, in their original order. */
  function Filter<T>(xs: seq<T>, keep: T -> bool): (r: seq<T>)
    ensures forall x | x in r :: x in xs && keep(x)
    ensures |r| <= |xs|
  {
    if |xs| == 0 then [] else (if keep(xs[0]) then [xs[0]] else []) + Filter(xs[1..], keep)
  }

  lemma {:induction false} SumAppend<T>(xs: seq<T>, ys: seq<T>, f: T -> int)
    ensures Sum(xs + ys, f) == Sum(xs, f) + Sum(ys, f)
  {
    if |xs| > 0 {
      assert (xs + ys)[1..] == xs[1..] + ys;
      SumAppend(xs[1..], ys, f);
    } else {
      assert xs + ys == ys;
    }
  }

  /** A sum depends only on the multiset of the summed elements. */
  lemma {:induction false} SumPermutation<T>(xs: seq<T>, ys: seq<T>, f: T -> int)
    requires multiset(xs) == multiset(ys)
    ensures Sum(xs, f) == Sum(ys, f)
    decreases |xs|
  {
    if |xs| == 0 {
      assert |ys| == |multiset(ys)| == 0;
    } else {
      var x := xs[0];
      assert x in multiset(ys);
      var k :| 0 <= k < |ys| && ys[k] == x;
      var rest := ys[..k] + ys[k + 1..];
      assert ys == ys[..k] + [x] + ys[k + 1..];
      assert xs == [x] + xs[1..];
      assert multiset(ys) == multiset(ys[..k]) + multiset([x]) + multiset(ys[k + 1..]);
      assert multiset(rest) == multiset(ys[..k]) + multiset(ys[k + 1..]);
      assert multiset(xs) == multiset([x]) + multiset(xs[1..]);
      forall y
        ensures multiset(xs[1..])[y] == multiset(rest)[y]
      {
        assert multiset(xs)[y] == multiset([x])[y] + multiset(xs[1..])[y];
        assert multiset(ys)[y] == multiset([x])[y] + multiset(rest)[y];
      }
      MultisetExt(multiset(xs[1..]), multiset(rest));
      SumPermutation(xs[1..], rest, f);
      SumAppend(ys[..k] + [x], ys[k + 1..], f);
      SumAppend(ys[..k], [x], f);
      SumAppend(ys[..k], ys[k + 1..], f);
    }
  }

  /** Summing two functions that agree on every element gives the same total. */
  lemma {:induction false} SumCongruent<T>(xs: seq<T>, f: T -> int, g: T -> int)
    requires forall x | x in xs :: f(x) == g(x)
    ensures Sum(xs, f) == Sum(xs, g)
  {
    if |xs| > 0 {
      SumCongruent(xs[1..], f, g);
    }
  }

  lemma {:induction false} FilterMultiset<T>(xs: seq<T>, keep: T -> bool, x: T)
    ensures multiset(Filter(xs, keep))[x] == if keep(x) then multiset(xs)[x] else 0
  {
    if |xs| > 0 {
      var head: seq<T> := if keep(xs[0]) then [xs[0]] else [];
      var rest := Filter(xs[1..], keep);
      FilterMultiset(xs[1..], keep, x);
      assert Filter(xs, keep) == head + rest;
      assert multiset(Filter(xs, keep)) == multiset(head) + multiset(rest);
      assert xs == [xs[0]] + xs[1..];
      assert multiset(xs) == multiset([xs[0]]) + multiset(xs[1..]);
    }
  }

  lemma MultisetExt<T>(a: multiset<T>, b: multiset<T>)
    requires forall x :: a[x] == b[x]
    ensures a == b
  {
  }

  /** Filtering two permutations of each other gives permutations of each other. */
  lemma FilterPermutation<T>(xs: seq<T>, ys: seq<T>, keep: T -> bool)
    requires multiset(xs) == multiset(ys)
    ensures multiset(Filter(xs, keep)) == multiset(Filter(ys, keep))
  {
    var a, b := multiset(Filter(xs, keep)), multiset(Filter(ys, keep));
    forall x
      ensures a[x] == b[x]
    {
      FilterMultiset(xs, keep, x);
      FilterMultiset(ys, keep, x);
    }
    MultisetExt(a, b);
  }

  predicate Distinct<T(==)>(xs: seq<T>) {
    forall i, j | 0 <= i < j < |xs| :: xs[i] != xs[j]
  }

  lemma {:induction false} DistinctCount<T>(xs: seq<T>, x: T)
    requires Distinct(xs)
    ensures multiset(xs)[x] == if x in xs then 1 else 0
  {
    if |xs| > 0 {
      assert xs == [xs[0]] + xs[1..];
      assert Distinct(xs[1..]);
      DistinctCount(xs[1..], x);
      if x == xs[0] {
        assert x !in xs[1..];
      }
    }
  }

  /** Two duplicate-free sequences with the same elements are permutations of each other. */
  lemma DistinctSameElements<T>(xs: seq<T>, ys: seq<T>)
    requires Distinct(xs) && Distinct(ys)
    requires forall x :: x in xs <==> x in ys
    ensures multiset(xs) == multiset(ys)
  {
    forall x
      ensures multiset(xs)[x] == multiset(ys)[x]
    {
      DistinctCount(xs, x);
      DistinctCount(ys, x);
    }
    MultisetExt(multiset(xs), multiset(ys));
  }
}
