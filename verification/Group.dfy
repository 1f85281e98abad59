/**
 The scalar arithmetic behind Ristretto255: integers modulo a prime order L.

 A group element is named by its discrete logarithm to the base point, so the group
 is Z_L and `P.multiply(k)` is multiplication modulo L.
 */
module Group {

  ghost predicate IsPrime(p: nat) {
    p >= 2 && forall d :: 2 <= d < p ==> p % d != 0
  }

  lemma MulGap(m: int, d: int)
    requires m > 0
    ensures d >= 1 ==> m * d >= m
    ensures d <= -1 ==> m * d <= -m
  {}

  lemma ModShift(x: int, k: int, m: nat)
    requires m > 0
    ensures (x + m * k) % m == x % m
  {
    var q, r := (x + m * k) / m, (x + m * k) % m;
    var q', r' := x / m, x % m;
    MulGap(m, q - q' - k);
    assert m * (q - q' - k) == r' - r;
  }

  lemma ModMul(a: nat, b: nat, m: nat)
    requires m > 0
    ensures ((a % m) * b) % m == (a * b) % m
  {
    var q := a / m;
    assert (a % m) * b == a * b + m * (-q * b) by {
      assert a % m == a - m * q;
      assert (a - m * q) * b == a * b - (m * q) * b;
      assert (m * q) * b == m * (q * b);
    }
    ModShift(a * b, -q * b, m);
  }

  /** Euclid's lemma, by descending through the remainders of p. */
  lemma {:induction false} NoZeroDivisor(p: nat, r: nat, b: nat)
    requires IsPrime(p) && 0 < r < p && (r * b) % p == 0
    ensures b % p == 0
    decreases r
  {
    if r == 1 {
    } else {
      var q, s, k := p / r, p % r, (r * b) / p;
      assert r * b == p * k;
      assert s * b == p * (b - q * k) by {
        assert s == p - q * r;
        assert (p - q * r) * b == p * b - q * (r * b);
        assert q * (p * k) == p * (q * k);
      }
      ModShift(0, b - q * k, p);
      NoZeroDivisor(p, s, b);
    }
  }

  lemma ProductNonZero(p: nat, a: nat, b: nat)
    requires IsPrime(p) && 0 < a < p && 0 < b < p
    ensures 0 < (a * b) % p < p
  {
    if (a * b) % p == 0 { NoZeroDivisor(p, a, b); }
  }

  /** A node with secret k and a sender with scalar a reach the same shared element. */
  lemma SharedElement(a: nat, k: nat, m: nat)
    requires m > 0
    ensures ((k % m) * a) % m == (a * k) % m
  {
    ModMul(k, a, m);
    assert k * a == a * k;
  }
}
