/** Remainders of sums and products. */
module Modular {

  /** `a` and `b` leave the same remainder. */
  ghost predicate Cong(a: int, b: int, m: int)
    requires 0 < m
  {
    exists k: int :: a == b + k * m
  }

  lemma CongMod(a: int, m: int)
    requires 0 < m
    ensures Cong(a % m, a, m)
  {
    assert a % m == a + (-(a / m)) * m;
  }

  lemma SameMod(a: int, b: int, m: int)
    requires 0 < m && Cong(a, b, m)
    ensures a % m == b % m
  {
    var k: int :| a == b + k * m;
    ModPlusMultiple(b, k, m);
  }

  lemma ModPlusMultiple(b: int, k: int, m: int)
    requires 0 < m
    ensures (b + k * m) % m == b % m
  {
    var q, r := b / m, b % m;
    var x := b + k * m;
    assert x == (q + k) * m + r;
    var e := x / m - (q + k);
    assert e * m == r - x % m;
    if 1 <= e { Grows(e, m); } else if e <= -1 { Grows(-e, m); }
  }

  lemma Grows(e: int, m: int)
    requires 1 <= e && 0 < m
    ensures m <= e * m
  {}

  lemma CongSelf(a: int, m: int)
    requires 0 < m
    ensures Cong(a, a, m)
  {
    assert a == a + 0 * m;
  }

  lemma CongAdd(a: int, b: int, c: int, d: int, m: int)
    requires 0 < m && Cong(a, b, m) && Cong(c, d, m)
    ensures Cong(a + c, b + d, m)
  {
    var k: int :| a == b + k * m;
    var l: int :| c == d + l * m;
    assert a + c == b + d + (k + l) * m;
  }

  lemma CongSub(a: int, b: int, c: int, d: int, m: int)
    requires 0 < m && Cong(a, b, m) && Cong(c, d, m)
    ensures Cong(a - c, b - d, m)
  {
    var k: int :| a == b + k * m;
    var l: int :| c == d + l * m;
    assert a - c == b - d + (k - l) * m;
  }

  lemma CongMul(a: int, b: int, c: int, d: int, m: int)
    requires 0 < m && Cong(a, b, m) && Cong(c, d, m)
    ensures Cong(a * c, b * d, m)
  {
    var k: int :| a == b + k * m;
    var l: int :| c == d + l * m;
    assert a * c == b * d + (b * l + k * d + k * l * m) * m by { Expand(b, k, d, l, m); }
  }

  lemma Expand(b: int, k: int, d: int, l: int, m: int)
    ensures (b + k * m) * (d + l * m) == b * d + (b * l + k * d + k * l * m) * m
  {}

  lemma CongTrans(a: int, b: int, c: int, m: int)
    requires 0 < m && Cong(a, b, m) && Cong(b, c, m)
    ensures Cong(a, c, m)
  {
    var k: int :| a == b + k * m;
    var l: int :| b == c + l * m;
    assert a == c + (k + l) * m;
  }

  /** Dropping or adding whole multiples. */
  lemma CongShift(a: int, k: int, m: int)
    requires 0 < m
    ensures Cong(a + k * m, a, m)
  {}

  lemma CongModOf(a: int, b: int, m: int)
    requires 0 < m && Cong(a, b, m)
    ensures Cong(a % m, b, m)
  {
    CongMod(a, m);
    CongTrans(a % m, a, b, m);
  }

  /** The remainder of a product of congruent factors. */
  lemma CongMulMod(a: int, b: int, c: int, d: int, m: int)
    requires 0 < m && Cong(a, b, m) && Cong(c, d, m)
    ensures Cong(a * c % m, b * d, m)
  {
    CongMul(a, b, c, d, m);
    CongModOf(a * c, b * d, m);
  }
}
