/**
 * Exact integer arithmetic that the RSA core rests on: powers, divisibility,
 * the greatest common divisor with Bezout coefficients, primes and Euclid's
 * lemma. Everything is over unbounded integers, as java.math.BigInteger is.
 */
module Arithmetic {

  /** b raised to the e-th power, exactly. */
  function Pow(b: int, e: nat): int
  {
    if e == 0 then 1 else b * Pow(b, e - 1)
  }

  /** d is a positive divisor of x. */
  predicate Divides(d: int, x: int)
  {
    d > 0 && x % d == 0
  }

  /** p is a prime number: at least 2 and without a divisor strictly between 1 and p. */
  predicate IsPrime(p: int)
  {
    p >= 2 && forall k :: 2 <= k < p ==> !Divides(k, p)
  }

  /** Greatest common divisor, by Euclid's algorithm. */
  function Gcd(a: nat, b: nat): nat
    decreases b
  {
    if b == 0 then a else Gcd(b, a % b)
  }

  /** Bezout coefficients (x, y) with a * x + b * y == Gcd(a, b), by the extended Euclidean algorithm. */
  function ExtGcd(a: nat, b: nat): (r: (int, int))
    ensures a * r.0 + b * r.1 == Gcd(a, b)
    decreases b
  {
    if b == 0 then (1, 0)
    else
      var (x, y) := ExtGcd(b, a % b);
      assert a == (a / b) * b + a % b;
      assert a * y + b * (x - (a / b) * y) == b * x + (a - (a / b) * b) * y;
      (y, x - (a / b) * y)
  }

  // ---------------------------------------------------------------------------
  // Division with remainder

  lemma {:induction false} MulAtLeast(t: int, m: int)
    requires t >= 1 && m > 0
    ensures t * m >= m
  {
    if t > 1 {
      MulAtLeast(t - 1, m);
      assert t * m == (t - 1) * m + m;
    }
  }

  /** Euclidean division is determined by its defining equation. */
  lemma ModUnique(x: int, m: int, q: int, r: int)
    requires m > 0 && 0 <= r < m && x == q * m + r
    ensures x / m == q && x % m == r
  {
    var q', r' := x / m, x % m;
    assert x == q' * m + r';
    assert (q - q') * m == r' - r;
    if q > q' {
      MulAtLeast(q - q', m);
    } else if q < q' {
      MulAtLeast(q' - q, m);
    }
  }

  lemma ModAddMultiple(k: int, b: int, m: int)
    requires m > 0
    ensures (k * m + b) % m == b % m
  {
    assert b == (b / m) * m + b % m;
    ModUnique(k * m + b, m, k + b / m, b % m);
  }

  lemma ModOfResidue(x: int, m: int)
    requires m > 0
    ensures (x % m) % m == x % m
  {
    ModUnique(x % m, m, 0, x % m);
  }

  lemma MulMod(x: int, y: int, m: int)
    requires m > 0
    ensures (x * y) % m == ((x % m) * (y % m)) % m
  {
    var qx, rx := x / m, x % m;
    var qy, ry := y / m, y % m;
    assert x == qx * m + rx && y == qy * m + ry;
    assert x * y == (qx * qy * m + qx * ry + rx * qy) * m + rx * ry;
    ModAddMultiple(qx * qy * m + qx * ry + rx * qy, rx * ry, m);
  }

  // ---------------------------------------------------------------------------
  // Divisibility

  lemma DividesIntro(d: int, x: int, k: int)
    requires d > 0 && x == d * k
    ensures Divides(d, x)
  {
    ModUnique(x, d, k, 0);
  }

  lemma DividesElim(d: int, x: int)
    requires Divides(d, x)
    ensures x == d * (x / d)
  {
    assert x == (x / d) * d + x % d;
  }

  /** A common divisor of x and y divides every integer combination of them. */
  lemma DividesLinear(d: int, x: int, y: int, a: int, b: int)
    requires Divides(d, x) && Divides(d, y)
    ensures Divides(d, a * x + b * y)
  {
    DividesElim(d, x);
    DividesElim(d, y);
    var kx, ky := x / d, y / d;
    assert a * x + b * y == d * (a * kx + b * ky);
    DividesIntro(d, a * x + b * y, a * kx + b * ky);
  }

  lemma DividesLe(d: int, x: int)
    requires Divides(d, x) && x > 0
    ensures d <= x
  {
    DividesElim(d, x);
    var k := x / d;
    assert k >= 1;
    MulAtLeast(k, d);
    assert k * d == x;
  }

  lemma DividesTrans(a: int, b: int, c: int)
    requires Divides(a, b) && Divides(b, c)
    ensures Divides(a, c)
  {
    DividesElim(a, b);
    DividesElim(b, c);
    var j, k := b / a, c / b;
    assert c == a * (j * k);
    DividesIntro(a, c, j * k);
  }

  /** Two integers have the same residue modulo m exactly when m divides their difference. */
  lemma ModEqDivides(x: int, y: int, m: int)
    requires m > 0
    ensures x % m == y % m <==> Divides(m, x - y)
  {
    var qx, rx := x / m, x % m;
    var qy, ry := y / m, y % m;
    assert x - y == (qx - qy) * m + (rx - ry);
    if rx == ry {
      DividesIntro(m, x - y, qx - qy);
    } else if Divides(m, x - y) {
      DividesElim(m, x - y);
      var t := (x - y) / m - (qx - qy);
      assert rx - ry == m * t;
      if t >= 1 {
        MulAtLeast(t, m);
      } else if t <= -1 {
        MulAtLeast(-t, m);
      }
    }
  }

  // ---------------------------------------------------------------------------
  // Powers

  lemma {:induction false} PowAdd(b: int, x: nat, y: nat)
    ensures Pow(b, x + y) == Pow(b, x) * Pow(b, y)
  {
    if x > 0 {
      PowAdd(b, x - 1, y);
      assert Pow(b, x + y) == b * Pow(b, x - 1 + y);
    }
  }

  lemma {:induction false} PowMul(b: int, x: nat, y: nat)
    ensures Pow(b, x * y) == Pow(Pow(b, x), y)
  {
    if y > 0 {
      PowMul(b, x, y - 1);
      assert x * y == x * (y - 1) + x;
      PowAdd(b, x * (y - 1), x);
    }
  }

  lemma {:induction false} PowNonnegative(b: int, e: nat)
    requires b >= 0
    ensures Pow(b, e) >= 0
  {
    if e > 0 {
      PowNonnegative(b, e - 1);
    }
  }

  /** Reducing the base modulo m first does not change the power modulo m. */
  lemma {:induction false} PowMod(b: int, e: nat, m: int)
    requires m > 0
    ensures Pow(b % m, e) % m == Pow(b, e) % m
  {
    if e > 0 {
      var x, y := b % m, Pow(b, e - 1);
      var z := Pow(x, e - 1);
      PowMod(b, e - 1, m);
      assert Pow(x, e) == x * z && Pow(b, e) == b * y;
      MulMod(x, z, m);
      MulMod(b, y, m);
      ModOfResidue(b, m);
      assert (x * z) % m == (x * (y % m)) % m;
    }
  }

  /** A power of a number congruent to 1 is congruent to 1. */
  lemma {:induction false} DividesPowMinusOne(d: int, x: int, k: nat)
    requires Divides(d, x - 1)
    ensures Divides(d, Pow(x, k) - 1)
  {
    if k == 0 {
      DividesIntro(d, 0, 0);
    } else {
      DividesPowMinusOne(d, x, k - 1);
      assert Pow(x, k) - 1 == x * (Pow(x, k - 1) - 1) + 1 * (x - 1);
      DividesLinear(d, Pow(x, k - 1) - 1, x - 1, x, 1);
    }
  }

  // ---------------------------------------------------------------------------
  // Greatest common divisor and primes

  lemma {:induction false} GcdDivides(a: nat, b: nat)
    requires a > 0 || b > 0
    ensures Divides(Gcd(a, b), a) && Divides(Gcd(a, b), b)
    decreases b
  {
    if b == 0 {
      DividesIntro(a, a, 1);
      DividesIntro(a, 0, 0);
    } else {
      GcdDivides(b, a % b);
      var g := Gcd(b, a % b);
      assert a == (a / b) * b + 1 * (a % b);
      DividesLinear(g, b, a % b, a / b, 1);
    }
  }

  /** The only positive divisors of a prime are 1 and itself. */
  lemma PrimeDivisors(p: int, d: int)
    requires IsPrime(p) && Divides(d, p)
    ensures d == 1 || d == p
  {
    DividesLe(d, p);
    assert 2 <= d < p ==> !Divides(d, p);
  }

  /** Bezout coefficients of a prime p and a residue modulo p that is not 0. */
  lemma CoprimeResidue(p: int, a: int) returns (x: int, y: int)
    requires IsPrime(p) && !Divides(p, a)
    ensures p * x + (a % p) * y == 1
  {
    var r := a % p;
    GcdDivides(p, r);
    var g := Gcd(p, r);
    PrimeDivisors(p, g);
    DividesLe(g, r);
    var bezout := ExtGcd(p, r);
    x, y := bezout.0, bezout.1;
  }

  lemma ResidueProduct(p: int, a: int, b: int)
    requires Divides(p, a * b)
    ensures Divides(p, (a % p) * b)
  {
    var k, r := a / p, a % p;
    DividesIntro(p, p, 1);
    Regroup(a, k, p, r, b);
    DividesLinear(p, a * b, p, 1, -k * b);
  }

  lemma Regroup(a: int, k: int, p: int, r: int, b: int)
    requires a == k * p + r
    ensures r * b == 1 * (a * b) + (-k * b) * p
  {
  }

  lemma Rescale(b: int, p: int, x: int, r: int, y: int)
    requires p * x + r * y == 1
    ensures b == (x * b) * p + y * (r * b)
  {
    assert b == b * (p * x + r * y);
  }

  /** Euclid's lemma: a prime that divides a product divides one of its factors. */
  lemma EuclidLemma(p: int, a: int, b: int)
    requires IsPrime(p) && Divides(p, a * b)
    ensures Divides(p, a) || Divides(p, b)
  {
    if !Divides(p, a) {
      var r := a % p;
      var x, y := CoprimeResidue(p, a);
      DividesIntro(p, p, 1);
      ResidueProduct(p, a, b);
      Rescale(b, p, x, r, y);
      DividesLinear(p, p, r * b, x * b, y);
    }
  }

  /** Two distinct primes that both divide x divide x together. */
  lemma DistinctPrimesDivide(p: int, q: int, x: int)
    requires IsPrime(p) && IsPrime(q) && p != q
    requires Divides(p, x) && Divides(q, x)
    ensures Divides(p * q, x)
  {
    DividesElim(q, x);
    var y := x / q;
    assert x == q * y;
    EuclidLemma(p, q, y);
    if Divides(p, q) {
      PrimeDivisors(q, p);
      assert false;
    }
    DividesElim(p, y);
    var z := y / p;
    assert x == (p * q) * z;
    DividesIntro(p * q, x, z);
  }
}
