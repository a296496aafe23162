/** Remainders and powers of two, by linear facts. */
module Arithmetic {

  lemma AtLeastOnce(k: int, n: int)
    requires 1 <= k && 0 <= n
    ensures n <= k * n
  {}

  lemma Remainder(x: int, n: int, q: int, r: int)
    requires 0 <= r < n && x == q * n + r
    ensures x % n == r && x / n == q
  {
    var k := x / n - q;
    assert k * n == r - x % n;
    if 1 <= k { AtLeastOnce(k, n); } else if k <= -1 { AtLeastOnce(-k, n); }
  }

  /** Adding less than a whole turn. */
  lemma ModWrap(n: nat, x: nat)
    requires 0 < n && x < 3 * n
    ensures x % n == if x < n then x else if x < 2 * n then x - n else x - 2 * n
  {
    if x < n { Remainder(x, n, 0, x); }
    else if x < 2 * n { Remainder(x, n, 1, x - n); }
    else { Remainder(x, n, 2, x - 2 * n); }
  }

  lemma ModAtMost(x: nat, p: nat)
    requires 0 < p
    ensures x % p <= x
  {
    assert x == (x / p) * p + x % p;
  }

  function Pow2(k: nat): (p: nat)
    ensures k < p
  {
    if k == 0 then 1 else 2 * Pow2(k - 1)
  }

  lemma {:induction false} Pow2Increases(j: nat, k: nat)
    requires j < k
    ensures 2 * Pow2(j) <= Pow2(k)
  {
    if j + 1 < k { Pow2Increases(j, k - 1); }
  }

  /** A multiple of p is a multiple of 2p, or leaves p. */
  lemma HalfStep(x: nat, p: nat)
    requires 0 < p && x % p == 0
    ensures x % (2 * p) == 0 || x % (2 * p) == p
  {
    var q := x / p;
    assert x == q * p;
    if q % 2 == 0 {
      assert x == (q / 2) * (2 * p) + 0;
      Remainder(x, 2 * p, q / 2, 0);
    } else {
      assert q == 2 * (q / 2) + 1;
      assert x == (q / 2) * (2 * p) + p;
      Remainder(x, 2 * p, q / 2, p);
    }
  }

  lemma {:induction false} MultipleOfSmallerPower(x: nat, j: nat, k: nat)
    requires j <= k && x % Pow2(k) == 0
    ensures x % Pow2(j) == 0
  {
    if j < k {
      var p := Pow2(k - 1);
      var q := x / Pow2(k);
      assert x == q * (2 * p) == (2 * q) * p + 0;
      Remainder(x, p, 2 * q, 0);
      MultipleOfSmallerPower(x, j, k - 1);
    }
  }

  /** Taking the remainder p away from x leaves a multiple of 2p. */
  lemma DropRemainder(x: nat, p: nat)
    requires 0 < p && x % (2 * p) == p
    ensures p <= x && (x - p) % (2 * p) == 0
  {
    var q := x / (2 * p);
    assert x == q * (2 * p) + p;
    if q == 0 {} else { AtLeastOnce(q, 2 * p); }
    Remainder(x - p, 2 * p, q, 0);
  }

  lemma AddBit(x: nat, p: nat)
    requires 0 < p && x % (2 * p) == 0
    ensures (x + p) % p == 0 && (x + p) % (2 * p) == p
  {
    var q := x / (2 * p);
    assert x == q * (2 * p) == (2 * q) * p;
    Remainder(x + p, 2 * p, q, p);
    assert x + p == (2 * q + 1) * p + 0;
    Remainder(x + p, p, 2 * q + 1, 0);
  }
}
