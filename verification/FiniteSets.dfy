/** Sizes of finite sets, and sequences without repetition. */
module FiniteSets {

  function UpTo(n: nat): (r: set<nat>)
    ensures forall x: nat :: x in r <==> x < n
    ensures |r| == n
  {
    if n == 0 then {} else UpTo(n - 1) + {n - 1}
  }

  lemma SubsetSize<X>(a: set<X>, b: set<X>)
    requires a <= b
    ensures |a| <= |b|
    ensures |a| == |b| ==> a == b
  {
    assert b == a + (b - a);
    if |a| == |b| {
      assert |b - a| == 0;
    }
  }

  /** Replacing each element by a different one keeps the size. */
  lemma {:induction false} ImageSize(m: seq<nat>, from: set<nat>, image: set<nat>)
    requires forall r :: r in from ==> r < |m|
    requires forall r, r' :: r in from && r' in from && m[r] == m[r'] ==> r == r'
    requires image == set r | r in from :: m[r]
    ensures |image| == |from|
  {
    if r :| r in from {
      var rest := from - {r};
      assert image - {m[r]} == set x | x in rest :: m[x];
      ImageSize(m, rest, image - {m[r]});
    }
  }

  // ---- Sequences without repetition -----------------------------------------------------------------------------

  ghost predicate Distinct<X>(xs: seq<X>) { forall i, j :: 0 <= i < j < |xs| ==> xs[i] != xs[j] }

  function ElementsOf<X>(xs: seq<X>): set<X> { set x | x in xs }

  lemma {:induction false} DistinctSize<X>(xs: seq<X>)
    requires Distinct(xs)
    ensures |ElementsOf(xs)| == |xs|
  {
    if xs != [] {
      DistinctSize(xs[1..]);
      assert ElementsOf(xs) == {xs[0]} + ElementsOf(xs[1..]);
    }
  }
}
