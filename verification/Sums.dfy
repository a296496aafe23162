/** Sums of a weight over a sequence, and how they react to updates, permutations and larger weights. */
module Sums {

  function Sum<X>(s: seq<X>, f: X -> int): int
  {
    if s == [] then 0 else f(s[0]) + Sum(s[1..], f)
  }

  lemma {:induction false} SumConcat<X>(a: seq<X>, b: seq<X>, f: X -> int)
    ensures Sum(a + b, f) == Sum(a, f) + Sum(b, f)
  {
    if a == [] {
      assert a + b == b;
    } else {
      assert (a + b)[1..] == a[1..] + b;
      SumConcat(a[1..], b, f);
    }
  }

  lemma {:induction false} SumUpdate<X>(s: seq<X>, k: nat, x: X, f: X -> int)
    requires k < |s|
    ensures Sum(s[k := x], f) == Sum(s, f) - f(s[k]) + f(x)
  {
    if k == 0 {
      assert s[0 := x][1..] == s[1..];
    } else {
      assert s[k := x][1..] == s[1..][k - 1 := x];
      SumUpdate(s[1..], k - 1, x, f);
    }
  }

  function Without<X>(s: seq<X>, k: nat): seq<X>
    requires k < |s|
  {
    s[..k] + s[k + 1..]
  }

  lemma {:induction false} SumWithout<X>(s: seq<X>, k: nat, f: X -> int)
    requires k < |s|
    ensures Sum(s, f) == f(s[k]) + Sum(Without(s, k), f)
  {
    if k == 0 {
      assert Without(s, 0) == s[1..];
    } else {
      SumWithout(s[1..], k - 1, f);
      assert Without(s, k)[1..] == Without(s[1..], k - 1);
    }
  }

  lemma MultisetWithout<X>(s: seq<X>, k: nat)
    requires k < |s|
    ensures multiset(Without(s, k)) == multiset(s) - multiset{s[k]}
  {
    assert s == s[..k] + [s[k]] + s[k + 1..];
  }

  lemma WithoutAt<X>(s: seq<X>, k: nat, i: nat)
    requires k < |s|
    ensures |Without(s, k)| == |s| - 1
    ensures i < |s| - 1 ==> Without(s, k)[i] == s[if i < k then i else i + 1]
  {}

  /** An element of one order is in the other. */
  lemma FoundAgain<X>(a: seq<X>, b: seq<X>, i: nat) returns (k: nat)
    requires multiset(a) == multiset(b) && i < |a|
    ensures k < |b| && b[k] == a[i]
  {
    assert a[i] in multiset(b);
    k :| k < |b| && b[k] == a[i];
  }

  /** A sum does not depend on the order of the elements. */
  lemma {:induction false} SumPermutation<X>(a: seq<X>, b: seq<X>, f: X -> int)
    requires multiset(a) == multiset(b)
    ensures Sum(a, f) == Sum(b, f)
  {
    if a == [] {
      assert |b| == |multiset(b)| == 0;
    } else {
      assert a[0] in multiset(b);
      var k :| 0 <= k < |b| && b[k] == a[0];
      MultisetWithout(a, 0);
      MultisetWithout(b, k);
      SumWithout(a, 0, f);
      SumWithout(b, k, f);
      SumPermutation(Without(a, 0), Without(b, k), f);
    }
  }

  lemma {:induction false} SumMonotone<X>(s: seq<X>, f: X -> int, g: X -> int)
    requires forall x :: x in s ==> f(x) <= g(x)
    ensures Sum(s, f) <= Sum(s, g)
  {
    if s != [] {
      SumMonotone(s[1..], f, g);
    }
  }

  lemma {:induction false} SumEqual<X>(s: seq<X>, f: X -> int, g: X -> int)
    requires forall x :: x in s ==> f(x) == g(x)
    ensures Sum(s, f) == Sum(s, g)
  {
    SumMonotone(s, f, g);
    SumMonotone(s, g, f);
  }

  lemma {:induction false} SumNonNegative<X>(s: seq<X>, f: X -> int)
    requires forall x :: x in s ==> 0 <= f(x)
    ensures 0 <= Sum(s, f)
  {
    if s != [] {
      SumNonNegative(s[1..], f);
    }
  }

  /** A positive sum has a positive term. */
  lemma {:induction false} PositiveTerm<X>(s: seq<X>, f: X -> int) returns (k: nat)
    requires 0 < Sum(s, f)
    ensures k < |s| && 0 < f(s[k])
  {
    if 0 < f(s[0]) {
      k := 0;
    } else {
      k := PositiveTerm(s[1..], f);
      k := k + 1;
    }
  }

  /** A term of a sum of non-negative terms is at most the sum. */
  lemma {:induction false} TermAtMostSum<X>(s: seq<X>, k: nat, f: X -> int)
    requires k < |s|
    requires forall x :: x in s ==> 0 <= f(x)
    ensures f(s[k]) <= Sum(s, f)
  {
    if k == 0 {
      SumNonNegative(s[1..], f);
    } else {
      TermAtMostSum(s[1..], k - 1, f);
    }
  }

  lemma {:induction false} SumZero<X>(s: seq<X>)
    ensures Sum(s, _ => 0) == 0
  {
    if s != [] { SumZero(s[1..]); }
  }

  lemma {:induction false} AtMostEach<X>(xs: seq<X>, f: X -> int, most: nat)
    requires forall x :: x in xs ==> f(x) <= most
    ensures Sum(xs, f) <= |xs| * most
  {
    if xs != [] {
      AtMostEach(xs[1..], f, most);
      assert |xs| * most == (|xs| - 1) * most + most;
    }
  }
}
