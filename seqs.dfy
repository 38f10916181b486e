/** Sequence helpers shared by every part of the model: order-preserving
    filtering (a boolean mask applied to a frame) and counting by key. */
module Seqs {

  /** The elements of `xs` that satisfy `p`, in their original order. */
  function Filter<T(!new)>(xs: seq<T>, p: T -> bool): (r: seq<T>)
    ensures |r| <= |xs|
  {
    if xs == [] then []
    else
      var rest := Filter(xs[1..], p);
      if p(xs[0]) then [xs[0]] + rest else rest
  }

  /** What `Filter` keeps: only elements of `xs` that satisfy `p`, every
      element that satisfies it, each as many times as in `xs`. */
  lemma {:induction false} FilterMembers<T(!new)>(xs: seq<T>, p: T -> bool)
    ensures forall x :: x in Filter(xs, p) ==> x in xs && p(x)
    ensures forall x :: x in xs && p(x) ==> x in Filter(xs, p)
    ensures multiset(Filter(xs, p)) <= multiset(xs)
    ensures forall x :: p(x) ==> multiset(Filter(xs, p))[x] == multiset(xs)[x]
  {
    if xs != [] {
      FilterMembers(xs[1..], p);
      assert xs == [xs[0]] + xs[1..];
    }
  }

  /** `xs` can be obtained from `ys` by deleting elements, keeping the order. */
  ghost predicate IsSubsequence<T>(xs: seq<T>, ys: seq<T>)
    decreases |ys|
  {
    xs == [] ||
    (ys != [] &&
     ((xs[0] == ys[0] && IsSubsequence(xs[1..], ys[1..])) || IsSubsequence(xs, ys[1..])))
  }

  lemma {:induction false} FilterIsSubsequence<T(!new)>(xs: seq<T>, p: T -> bool)
    ensures IsSubsequence(Filter(xs, p), xs)
  {
    if xs != [] {
      FilterIsSubsequence(xs[1..], p);
    }
  }

  lemma {:induction false} FilterAppend<T(!new)>(xs: seq<T>, ys: seq<T>, p: T -> bool)
    ensures Filter(xs + ys, p) == Filter(xs, p) + Filter(ys, p)
  {
    if xs == [] {
      assert xs + ys == ys;
    } else {
      assert (xs + ys)[1..] == xs[1..] + ys;
      FilterAppend(xs[1..], ys, p);
    }
  }

  /** Filtering twice by the same mask removes nothing more. */
  lemma {:induction false} FilterIdempotent<T(!new)>(xs: seq<T>, p: T -> bool)
    ensures Filter(Filter(xs, p), p) == Filter(xs, p)
  {
    if xs != [] {
      FilterIdempotent(xs[1..], p);
    }
  }

  /** Two masks applied in sequence equal one mask that is their conjunction. */
  lemma {:induction false} FilterFilter<T(!new)>(xs: seq<T>, p: T -> bool, q: T -> bool, both: T -> bool)
    requires forall x :: both(x) == (p(x) && q(x))
    ensures Filter(Filter(xs, p), q) == Filter(xs, both)
  {
    if xs != [] {
      FilterFilter(xs[1..], p, q, both);
    }
  }

  /** A mask that every element passes keeps the sequence as it is. */
  lemma {:induction false} FilterAll<T(!new)>(xs: seq<T>, p: T -> bool)
    requires forall x :: x in xs ==> p(x)
    ensures Filter(xs, p) == xs
  {
    if xs != [] {
      assert forall x :: x in xs[1..] ==> x in xs;
      FilterAll(xs[1..], p);
    }
  }

  /** Two masks that agree on every element select the same elements. */
  lemma {:induction false} FilterCongruent<T(!new)>(xs: seq<T>, p: T -> bool, q: T -> bool)
    requires forall x :: x in xs ==> p(x) == q(x)
    ensures Filter(xs, p) == Filter(xs, q)
  {
    if xs != [] {
      assert forall x :: x in xs[1..] ==> x in xs;
      FilterCongruent(xs[1..], p, q);
    }
  }

  /** A mask nothing passes keeps nothing. */
  lemma {:induction false} FilterNone<T(!new)>(xs: seq<T>, p: T -> bool)
    requires forall x :: !p(x)
    ensures Filter(xs, p) == []
  {
    if xs != [] {
      FilterNone(xs[1..], p);
    }
  }

  /** A mask that is the disjoint union of two masks keeps as many
      elements as the two together. */
  lemma {:induction false} FilterSplitCount<T(!new)>(xs: seq<T>, p: T -> bool, a: T -> bool, b: T -> bool)
    requires forall x :: p(x) == (a(x) || b(x))
    requires forall x :: !(a(x) && b(x))
    ensures |Filter(xs, p)| == |Filter(xs, a)| + |Filter(xs, b)|
  {
    if xs != [] {
      FilterSplitCount(xs[1..], p, a, b);
    }
  }

  /** Number of elements of `xs` whose key under `f` is `k`. */
  function CountKey<T(!new), K(==)>(xs: seq<T>, f: T -> K, k: K): nat
  {
    if xs == [] then 0
    else (if f(xs[0]) == k then 1 else 0) + CountKey(xs[1..], f, k)
  }

  /** Number of elements of `xs` whose key under `f` is one of `ks`. */
  function CountIn<T(!new), K(==)>(xs: seq<T>, f: T -> K, ks: seq<K>): (n: nat)
    ensures n <= |xs|
  {
    if xs == [] then 0
    else (if f(xs[0]) in ks then 1 else 0) + CountIn(xs[1..], f, ks)
  }

  /** The per-key counts of `xs`, summed over the keys `ks`. */
  function SumCounts<T(!new), K(==)>(xs: seq<T>, f: T -> K, ks: seq<K>): nat
  {
    if ks == [] then 0 else CountKey(xs, f, ks[0]) + SumCounts(xs, f, ks[1..])
  }

  predicate Distinct<K(==)>(ks: seq<K>)
  {
    forall i, j :: 0 <= i < j < |ks| ==> ks[i] != ks[j]
  }

  lemma {:induction false} SumCountsHead<T(!new), K>(x: T, xs: seq<T>, f: T -> K, ks: seq<K>)
    requires Distinct(ks)
    ensures SumCounts([x] + xs, f, ks) == (if f(x) in ks then 1 else 0) + SumCounts(xs, f, ks)
  {
    if ks != [] {
      assert ([x] + xs)[1..] == xs;
      SumCountsHead(x, xs, f, ks[1..]);
      assert f(x) in ks <==> f(x) == ks[0] || f(x) in ks[1..];
    }
  }

  /** Keys that are pairwise distinct split a sequence into disjoint parts:
      the per-key counts add up to the number of elements whose key is
      among them, so never to more than the length. */
  lemma {:induction false} SumCountsDistinct<T(!new), K>(xs: seq<T>, f: T -> K, ks: seq<K>)
    requires Distinct(ks)
    ensures SumCounts(xs, f, ks) == CountIn(xs, f, ks)
    ensures SumCounts(xs, f, ks) <= |xs|
  {
    if xs == [] {
      ZeroCounts(xs, f, ks);
    } else {
      SumCountsDistinct(xs[1..], f, ks);
      assert xs == [xs[0]] + xs[1..];
      SumCountsHead(xs[0], xs[1..], f, ks);
    }
  }

  lemma {:induction false} ZeroCounts<T(!new), K>(xs: seq<T>, f: T -> K, ks: seq<K>)
    requires xs == []
    ensures SumCounts(xs, f, ks) == 0
  {
    if ks != [] {
      ZeroCounts(xs, f, ks[1..]);
    }
  }

  /** The length of a filter by key equality is the count of that key. */
  lemma {:induction false} FilterCount<T(!new), K>(xs: seq<T>, p: T -> bool, f: T -> K, k: K)
    requires forall x :: p(x) == (f(x) == k)
    ensures |Filter(xs, p)| == CountKey(xs, f, k)
  {
    if xs != [] {
      FilterCount(xs[1..], p, f, k);
    }
  }

  /** If every element's key is among `ks`, the filter by membership keeps all. */
  lemma {:induction false} CountInAll<T(!new), K>(xs: seq<T>, f: T -> K, ks: seq<K>)
    requires forall x :: x in xs ==> f(x) in ks
    ensures CountIn(xs, f, ks) == |xs|
  {
    if xs != [] {
      assert forall x :: x in xs[1..] ==> x in xs;
      CountInAll(xs[1..], f, ks);
    }
  }

  /** The number of elements satisfying `p`. */
  lemma {:induction false} CountInFilter<T(!new), K>(xs: seq<T>, f: T -> K, ks: seq<K>, p: T -> bool)
    requires forall x :: p(x) == (f(x) in ks)
    ensures CountIn(xs, f, ks) == |Filter(xs, p)|
  {
    if xs != [] {
      CountInFilter(xs[1..], f, ks, p);
    }
  }

  /** A key no element has is counted 0. */
  lemma {:induction false} CountKeyAbsent<T(!new), K>(xs: seq<T>, f: T -> K, k: K)
    requires forall x :: x in xs ==> f(x) != k
    ensures CountKey(xs, f, k) == 0
  {
    if xs != [] {
      assert forall x :: x in xs[1..] ==> x in xs;
      CountKeyAbsent(xs[1..], f, k);
    }
  }
}
