/** Arithmetic modulo a prime: Euclid's lemma, cancellation, powers. */
module ModArith {

  type Modulus = n: nat | n > 1 witness 2

  ghost predicate Prime(p: Modulus) {
    forall d | 1 < d < p :: p % d != 0
  }

  function Pow(b: nat, e: nat): nat {
    if e == 0 then 1 else b * Pow(b, e - 1)
  }

  /** Python's pow(b, e, p) */
  function PowMod(b: nat, e: nat, p: Modulus): (r: nat)
    ensures r < p
  {
    Pow(b, e) % p
  }

  // ----- multiples ----------------------------------------------------------------------------

  lemma Multiple(p: Modulus, k: int)
    ensures (k * p) % p == 0
  {
    var q, r := (k * p) / p, (k * p) % p;
    assert k * p == q * p + r;
    var d := k - q;
    assert d * p == r;
    Between(d, p);
  }

  /** The only multiple of p in [0, p) is zero. */
  lemma Between(d: int, p: Modulus)
    ensures 0 <= d * p < p ==> d == 0
  {
    Signs(d, p);
    Signs(d - 1, p);
    assert d * p == (d - 1) * p + p;
  }

  lemma Signs(d: int, p: Modulus)
    ensures d >= 0 ==> d * p >= 0
    ensures d < 0 ==> d * p < 0
  {
  }

  lemma SameRemainder(p: Modulus, x: int, y: int)
    ensures x % p == y % p <==> (x - y) % p == 0
  {
    var k := x / p - y / p;
    assert x - y == k * p + (x % p - y % p) by {
      assert x == (x / p) * p + x % p && y == (y / p) * p + y % p;
      assert k * p == (x / p) * p - (y / p) * p;
    }
    if x % p == y % p {
      Multiple(p, k);
    }
    if (x - y) % p == 0 {
      var m := (x - y) / p;
      assert (m - k) * p == x % p - y % p;
      assert (k - m) * p == y % p - x % p;
      Between(m - k, p);
      Between(k - m, p);
    }
  }

  lemma MultipleTimes(p: Modulus, n: int, z: int)
    requires n % p == 0
    ensures (n * z) % p == 0
  {
    var k := n / p;
    assert n == k * p;
    assert n * z == (k * z) * p;
    Multiple(p, k * z);
  }

  lemma MultipleSum(p: Modulus, m: int, n: int)
    requires m % p == 0 && n % p == 0
    ensures (m - n) % p == 0
  {
    SameRemainder(p, m, n);
  }

  // ----- Euclid's lemma -------------------------------------------------------------------------

  lemma {:induction false} EuclidBelow(p: Modulus, c: nat, z: int)
    requires Prime(p) && 0 < c < p && (c * z) % p == 0
    ensures z % p == 0
    decreases c
  {
    if c > 1 {
      var k, r := p / c, p % c;
      assert p == k * c + r;
      assert r * z == p * z - k * (c * z) by {
        assert (k * c) * z == k * (c * z);
        assert (p - k * c) * z == p * z - (k * c) * z;
      }
      Multiple(p, z);
      MultipleTimes(p, c * z, k);
      MultipleSum(p, p * z, (c * z) * k);
      EuclidBelow(p, r, z);
    }
  }

  /** A prime that divides a product but not its first factor divides the second. */
  lemma Euclid(p: Modulus, c: nat, z: int)
    requires Prime(p) && c % p != 0 && (c * z) % p == 0
    ensures z % p == 0
  {
    var q, r := c / p, c % p;
    assert c == q * p + r;
    assert r * z == c * z - (q * z) * p by {
      assert (q * p) * z == (q * z) * p;
      assert (c - q * p) * z == c * z - (q * p) * z;
    }
    Multiple(p, q * z);
    MultipleSum(p, c * z, (q * z) * p);
    EuclidBelow(p, r, z);
  }

  lemma Cancel(p: Modulus, c: nat, x: int, y: int)
    requires Prime(p) && c % p != 0
    ensures (c * x) % p == (c * y) % p <==> x % p == y % p
  {
    assert c * x - c * y == c * (x - y) == (x - y) * c;
    SameRemainder(p, c * x, c * y);
    SameRemainder(p, x, y);
    if (c * x) % p == (c * y) % p {
      Euclid(p, c, x - y);
    }
    if x % p == y % p {
      MultipleTimes(p, x - y, c);
    }
  }

  lemma ProductNonzero(p: Modulus, x: nat, y: nat)
    requires Prime(p) && x % p != 0 && y % p != 0
    ensures (x * y) % p != 0
  {
    if (x * y) % p == 0 {
      Euclid(p, x, y);
    }
  }

  lemma {:induction false} PowNonzero(p: Modulus, b: nat, e: nat)
    requires Prime(p) && b % p != 0
    ensures Pow(b, e) % p != 0
    decreases e
  {
    if e > 0 {
      PowNonzero(p, b, e - 1);
      ProductNonzero(p, b, Pow(b, e - 1));
    } else {
      OneModulo(p);
    }
  }

  lemma OneModulo(p: Modulus)
    ensures 1 % p == 1
  {
  }

  lemma {:induction false} PowSum(b: nat, m: nat, n: nat)
    ensures Pow(b, m + n) == Pow(b, m) * Pow(b, n)
    decreases m
  {
    if m > 0 {
      PowSum(b, m - 1, n);
      assert b * (Pow(b, m - 1) * Pow(b, n)) == (b * Pow(b, m - 1)) * Pow(b, n);
    }
  }

  lemma ReduceLeft(p: Modulus, x: nat, y: nat)
    ensures ((x % p) * y) % p == (x * y) % p
  {
    var a, r := x / p, x % p;
    assert x == a * p + r;
    assert x * y - r * y == (a * y) * p by {
      assert (a * p) * y == (a * y) * p;
    }
    Multiple(p, a * y);
    SameRemainder(p, x * y, r * y);
  }

  lemma Commute(x: nat, y: nat)
    ensures x * y == y * x
  {
  }

  lemma ReduceFactors(p: Modulus, x: nat, y: nat)
    ensures ((x % p) * (y % p)) % p == (x * y) % p
  {
    ReduceLeft(p, x, y % p);
    Commute(x, y % p);
    ReduceLeft(p, y, x);
    Commute(y, x);
  }

  // ----- the order of an element ----------------------------------------------------------------

  ghost predicate IsOne(p: Modulus, x: nat) {
    x % p == 1
  }

  lemma TwiceReduced(p: Modulus, x: nat)
    ensures (x % p) % p == x % p
  {
  }

  lemma ProductOne(p: Modulus, x: nat, y: nat)
    requires IsOne(p, x * y) && IsOne(p, y)
    ensures IsOne(p, x)
  {
    ReduceFactors(p, x, y);
    TwiceReduced(p, x);
    assert (x % p) * (y % p) == x % p;
  }

  lemma PowerDifference(p: Modulus, g: nat, m: nat, n: nat)
    requires IsOne(p, Pow(g, m + n)) && IsOne(p, Pow(g, n))
    ensures IsOne(p, Pow(g, m))
  {
    PowSum(g, m, n);
    ProductOne(p, Pow(g, m), Pow(g, n));
  }

  /** What is left of n = times * k + r after taking k away as often as that. */
  lemma {:induction false} PowerRemainder(p: Modulus, g: nat, n: nat, times: nat, k: nat, r: nat)
    requires IsOne(p, Pow(g, n)) && IsOne(p, Pow(g, k)) && n == times * k + r
    ensures IsOne(p, Pow(g, r))
    decreases times
  {
    if times > 0 {
      assert n - k == (times - 1) * k + r && n - k >= 0 by {
        assert times * k == (times - 1) * k + k;
      }
      PowerDifference(p, g, n - k, k);
      PowerRemainder(p, g, n - k, times - 1, k, r);
    }
  }

  /** An element with a prime power of one is one, or has no smaller power of one. */
  lemma {:induction false} PrimeOrder(p: Modulus, q: Modulus, g: nat, k: nat)
    requires Prime(q) && 0 < k < q && IsOne(p, Pow(g, q)) && IsOne(p, Pow(g, k))
    ensures IsOne(p, g)
    decreases k
  {
    if k > 1 {
      assert q == (q / k) * k + q % k;
      PowerRemainder(p, g, q, q / k, k, q % k);
      PrimeOrder(p, q, g, q % k);
    } else {
      assert Pow(g, 1) == g * Pow(g, 0) == g;
    }
  }
}
