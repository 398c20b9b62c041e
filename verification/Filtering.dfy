/** `Array.prototype.filter` on sequences, and the facts about it that the
    archive filter relies on: it keeps an order-preserving subsequence, it is
    the identity under an always-true predicate, and successive filters
    combine into one conjunctive filter, in either order. */
module Filtering {

  /** `xs.filter(p)`: the elements satisfying `p`, in their original order. */
  function Keep<T>(xs: seq<T>, p: T -> bool): (ys: seq<T>)
    ensures |ys| <= |xs|
    ensures forall i :: 0 <= i < |ys| ==> p(ys[i]) && ys[i] in xs
  {
    if |xs| == 0 then []
    else (if p(xs[0]) then [xs[0]] else []) + Keep(xs[1..], p)
  }

  /** `a` is obtained from `b` by deleting elements, keeping the order of the rest. */
  predicate IsSubsequence<T(==)>(a: seq<T>, b: seq<T>)
    decreases |b|
  {
    |a| == 0
    || (|b| > 0 && ((a[0] == b[0] && IsSubsequence(a[1..], b[1..])) || IsSubsequence(a, b[1..])))
  }

  /** A filter keeps an order-preserving subsequence of its input. */
  lemma {:induction false} KeepIsSubsequence<T>(xs: seq<T>, p: T -> bool)
    ensures IsSubsequence(Keep(xs, p), xs)
  {
    if |xs| > 0 {
      KeepIsSubsequence(xs[1..], p);
      var rest := Keep(xs[1..], p);
      if p(xs[0]) {
        assert Keep(xs, p) == [xs[0]] + rest;
        assert ([xs[0]] + rest)[1..] == rest;
      } else {
        assert Keep(xs, p) == rest;
      }
    }
  }

  /** An element is kept exactly when it occurs in the input and satisfies the predicate. */
  lemma {:induction false} KeepMembership<T>(xs: seq<T>, p: T -> bool, x: T)
    ensures x in Keep(xs, p) <==> x in xs && p(x)
  {
    if |xs| > 0 {
      KeepMembership(xs[1..], p, x);
      assert xs == [xs[0]] + xs[1..];
    }
  }

  /** A filter whose predicate holds of every element changes nothing. */
  lemma {:induction false} KeepEverything<T>(xs: seq<T>, p: T -> bool)
    requires forall i :: 0 <= i < |xs| ==> p(xs[i])
    ensures Keep(xs, p) == xs
  {
    if |xs| > 0 {
      KeepEverything(xs[1..], p);
      assert [xs[0]] + xs[1..] == xs;
    }
  }

  /** Filters with pointwise equal predicates agree. */
  lemma {:induction false} KeepExtensional<T>(xs: seq<T>, p: T -> bool, q: T -> bool)
    requires forall x :: p(x) == q(x)
    ensures Keep(xs, p) == Keep(xs, q)
  {
    if |xs| > 0 {
      KeepExtensional(xs[1..], p, q);
    }
  }

  /** Filtering twice is filtering once by the conjunction. */
  lemma {:induction false} KeepKeep<T>(xs: seq<T>, p: T -> bool, q: T -> bool)
    ensures Keep(Keep(xs, p), q) == Keep(xs, x => p(x) && q(x))
  {
    if |xs| > 0 {
      KeepKeep(xs[1..], p, q);
      var rest := Keep(xs[1..], p);
      if p(xs[0]) {
        assert Keep(xs, p) == [xs[0]] + rest;
        assert ([xs[0]] + rest)[1..] == rest;
      } else {
        assert Keep(xs, p) == rest;
      }
    }
  }

  /** Three successive filters are one filter by any predicate equivalent to their conjunction. */
  lemma {:induction false} KeepThree<T>(xs: seq<T>, p: T -> bool, q: T -> bool, r: T -> bool, all: T -> bool)
    requires forall x :: all(x) == (p(x) && q(x) && r(x))
    ensures Keep(Keep(Keep(xs, p), q), r) == Keep(xs, all)
  {
    if |xs| > 0 {
      KeepThree(xs[1..], p, q, r, all);
      var k1 := Keep(xs[1..], p);
      var k2 := Keep(k1, q);
      if p(xs[0]) {
        assert Keep(xs, p) == [xs[0]] + k1;
        assert ([xs[0]] + k1)[1..] == k1;
        if q(xs[0]) {
          assert Keep([xs[0]] + k1, q) == [xs[0]] + k2;
          assert ([xs[0]] + k2)[1..] == k2;
        } else {
          assert Keep([xs[0]] + k1, q) == k2;
        }
      } else {
        assert Keep(xs, p) == k1;
      }
    }
  }

  /** Two filters can be applied in either order. */
  lemma KeepCommutes<T>(xs: seq<T>, p: T -> bool, q: T -> bool)
    ensures Keep(Keep(xs, p), q) == Keep(Keep(xs, q), p)
  {
    KeepKeep(xs, p, q);
    KeepKeep(xs, q, p);
    KeepExtensional(xs, x => p(x) && q(x), x => q(x) && p(x));
  }

  /** Filtering again by the same predicate changes nothing. */
  lemma KeepIdempotent<T>(xs: seq<T>, p: T -> bool)
    ensures Keep(Keep(xs, p), p) == Keep(xs, p)
  {
    KeepEverything(Keep(xs, p), p);
  }
}
