/** Residues: uniqueness of remainders, and inverses modulo a prime. */
module ModularArithmetic {

  /** A multiple of n closer to zero than n is zero. */
  lemma {:induction false} SmallMultiple(k: int, n: int)
    requires n > 0 && -n < k * n < n
    ensures k == 0
  {
    if k >= 1 {
      MulAtLeast(k, n);
    } else if k <= -1 {
      MulAtLeast(-k, n);
    }
  }

  lemma {:induction false} MulAtLeast(k: int, n: int)
    requires k >= 1 && n > 0
    ensures k * n >= n
  {
    assert (k - 1) * n >= 0;
  }

  /** The remainder is the only representative below n. */
  lemma {:induction false} Remainder(a: int, q: int, r: int, n: int)
    requires n > 0 && 0 <= r < n && a == q * n + r
    ensures a % n == r
  {
    assert (a / n) * n + a % n == a;
    assert (a / n - q) * n == r - a % n;
    SmallMultiple(a / n - q, n);
  }

  /** a and b leave the same remainder when they differ by a multiple of n. */
  lemma {:induction false} SameRemainder(a: int, b: int, k: int, n: int)
    requires n > 0 && a == b + k * n
    ensures a % n == b % n
  {
    assert (b / n) * n + b % n == b;
    assert a == (b / n + k) * n + b % n;
    Remainder(a, b / n + k, b % n, n);
  }

  lemma {:induction false} MulMod(a: int, b: int, n: int)
    requires n > 0
    ensures ((a % n) * b) % n == (a * b) % n
    ensures (a * (b % n)) % n == (a * b) % n
  {
    assert a == (a / n) * n + a % n && b == (b / n) * n + b % n;
    assert a * b == (a % n) * b + ((a / n) * b) * n;
    SameRemainder(a * b, (a % n) * b, (a / n) * b, n);
    assert a * b == a * (b % n) + (a * (b / n)) * n;
    SameRemainder(a * b, a * (b % n), a * (b / n), n);
  }

  lemma {:induction false} AddMod(a: int, b: int, n: int)
    requires n > 0
    ensures (a % n + b) % n == (a + b) % n
  {
    assert a == (a / n) * n + a % n;
    SameRemainder(a + b, a % n + b, a / n, n);
  }

  ghost predicate IsPrime(n: int) {
    n > 1 && forall d :: 1 < d < n ==> n % d != 0
  }

  /** Every nonzero residue modulo a prime has an inverse. */
  lemma {:induction false} InverseExists(s: nat, n: nat) returns (w: nat)
    requires IsPrime(n) && 0 < s < n
    ensures 0 < w < n && (s * w) % n == 1
    decreases s
  {
    if s == 1 {
      w := 1;
      Remainder(1, 0, 1, n);
    } else {
      var q, r := n / s, n % s;
      assert n == s * q + r;
      var v := InverseExists(r, n);
      // r == n - s * q, so -q * v inverts s
      var u := -q * v;
      assert s * u == r * v - v * n by {
        assert s * u == -(s * q) * v;
        assert (r - n) * v == r * v - n * v;
      }
      SameRemainder(s * u, r * v, -v, n);
      w := u % n;
      MulMod(s, u, n);
      assert w == 0 ==> s * w == 0;
    }
  }
}
