/** Order-preserving filtering of a sequence, the shape of a loop that visits every
    element and acts on those that pass a test. */
module Seqs {

  /** The elements of `xs` that satisfy `keep`, in their order in `xs`. */
  function Filter<T>(xs: seq<T>, keep: T -> bool): (r: seq<T>)
    ensures |r| <= |xs|
  {
    if xs == [] then []
    else (if keep(xs[0]) then [xs[0]] else []) + Filter(xs[1..], keep)
  }

  lemma ConcatAssoc<T>(x: seq<T>, y: seq<T>, z: seq<T>)
    ensures x + (y + z) == (x + y) + z
  {
  }

  /** Filtering distributes over concatenation. */
  lemma {:induction false} FilterAppend<T>(xs: seq<T>, ys: seq<T>, keep: T -> bool)
    ensures Filter(xs + ys, keep) == Filter(xs, keep) + Filter(ys, keep)
  {
    if xs == [] {
      assert xs + ys == ys;
    } else {
      assert (xs + ys)[0] == xs[0];
      assert (xs + ys)[1..] == xs[1..] + ys;
      FilterAppend(xs[1..], ys, keep);
      var h := if keep(xs[0]) then [xs[0]] else [];
      ConcatAssoc(h, Filter(xs[1..], keep), Filter(ys, keep));
    }
  }

  /** One element passes exactly when it satisfies the test. */
  lemma FilterSingleton<T>(x: T, keep: T -> bool)
    ensures Filter([x], keep) == if keep(x) then [x] else []
  {
    assert [x][1..] == [];
  }

  /** Visiting one more element appends it when, and only when, it passes. */
  lemma FilterSnoc<T>(xs: seq<T>, x: T, keep: T -> bool)
    ensures Filter(xs + [x], keep) == Filter(xs, keep) + (if keep(x) then [x] else [])
  {
    FilterAppend(xs, [x], keep);
    FilterSingleton(x, keep);
  }

  /** Of three elements where only the last fails the test, the first two pass, in order. */
  lemma FilterKeepsFirstTwo<T>(a: T, b: T, c: T, keep: T -> bool)
    requires keep(a) && keep(b) && !keep(c)
    ensures Filter([a, b, c], keep) == [a, b]
  {
    FilterSingleton(a, keep);
    FilterSnoc([a], b, keep);
    assert [a] + [b] == [a, b];
    FilterSnoc([a, b], c, keep);
    assert [a, b] + [c] == [a, b, c];
  }

  /** Every element that passes satisfies the test. */
  lemma {:induction false} FilterKept<T>(xs: seq<T>, keep: T -> bool)
    ensures forall k | 0 <= k < |Filter(xs, keep)| :: keep(Filter(xs, keep)[k])
  {
    if xs != [] {
      FilterKept(xs[1..], keep);
      var h := if keep(xs[0]) then [xs[0]] else [];
      var t := Filter(xs[1..], keep);
      forall k | 0 <= k < |h + t| ensures keep((h + t)[k]) {
        if k >= |h| {
          assert (h + t)[k] == t[k - |h|];
        }
      }
    }
  }

  /** The elements that pass are exactly the elements that satisfy the test. */
  lemma {:induction false} FilterMembers<T>(xs: seq<T>, keep: T -> bool, x: T)
    ensures x in Filter(xs, keep) <==> x in xs && keep(x)
  {
    if xs != [] {
      FilterMembers(xs[1..], keep, x);
      assert xs == [xs[0]] + xs[1..];
    }
  }

  /** `f` applied to every element of `xs`, in order. */
  function Map<T, U>(xs: seq<T>, f: T -> U): (r: seq<U>)
    ensures |r| == |xs|
    ensures forall k | 0 <= k < |xs| :: r[k] == f(xs[k])
  {
    seq(|xs|, k requires 0 <= k < |xs| => f(xs[k]))
  }

  /** Mapping one more element appends its image. */
  lemma MapSnoc<T, U>(xs: seq<T>, x: T, f: T -> U)
    ensures Map(xs + [x], f) == Map(xs, f) + [f(x)]
  {
    var l, r := Map(xs + [x], f), Map(xs, f) + [f(x)];
    forall k | 0 <= k < |l| ensures l[k] == r[k] {
      if k < |xs| {
        assert (xs + [x])[k] == xs[k];
      }
    }
  }
}
