/**
 * Why textbook RSA decrypts what it encrypts: the binomial theorem, Fermat's
 * little theorem, and the combination of the two prime moduli.
 */
module Fermat {
  import opened Arithmetic

  /** The binomial coefficient "n choose k", by Pascal's rule. */
  function Binom(n: nat, k: nat): nat
  {
    if k == 0 then 1 else if n == 0 then 0 else Binom(n - 1, k - 1) + Binom(n - 1, k)
  }

  /** The partial binomial sum: Binom(n, i) * a^i summed over i < j. */
  function BinomSum(a: int, n: nat, j: nat): int
  {
    if j == 0 then 0 else BinomSum(a, n, j - 1) + Binom(n, j - 1) * Pow(a, j - 1)
  }

  lemma {:induction false} BinomAbove(n: nat, k: nat)
    requires k > n
    ensures Binom(n, k) == 0
  {
    if n > 0 {
      BinomAbove(n - 1, k - 1);
      BinomAbove(n - 1, k);
    }
  }

  lemma {:induction false} BinomDiagonal(n: nat)
    ensures Binom(n, n) == 1
  {
    if n > 0 {
      BinomDiagonal(n - 1);
      BinomAbove(n - 1, n);
    }
  }

  lemma {:induction false} BinomOne(n: nat)
    ensures Binom(n, 1) == n
  {
    if n > 0 {
      BinomOne(n - 1);
    }
  }

  /** The absorption identity k * (n choose k) == n * (n-1 choose k-1). */
  lemma {:induction false} BinomAbsorb(n: nat, k: nat)
    requires 1 <= k <= n
    ensures k * Binom(n, k) == n * Binom(n - 1, k - 1)
    decreases n
  {
    if k == 1 {
      BinomOne(n);
    } else {
      if k <= n - 1 {
        BinomAbsorb(n - 1, k);
      } else {
        BinomAbove(n - 1, k);
        BinomAbove(n - 2, k - 1);
      }
      BinomAbsorb(n - 1, k - 1);
      AbsorbStep(n, k, Binom(n - 1, k - 1), Binom(n - 1, k), Binom(n - 2, k - 2), Binom(n - 2, k - 1));
    }
  }

  lemma AbsorbStep(n: int, k: int, c: int, u: int, x: int, y: int)
    requires c == x + y && (k - 1) * c == (n - 1) * x && k * u == (n - 1) * y
    ensures k * (c + u) == n * c
  {
  }

  /** A prime p divides every inner coefficient of row p of Pascal's triangle. */
  lemma PrimeDividesBinom(p: int, k: nat)
    requires IsPrime(p) && 0 < k < p
    ensures Divides(p, Binom(p, k))
  {
    BinomAbsorb(p, k);
    DividesIntro(p, k * Binom(p, k), Binom(p - 1, k - 1));
    EuclidLemma(p, k, Binom(p, k));
    if Divides(p, k) {
      DividesLe(p, k);
      assert false;
    }
  }

  lemma {:induction false} BinomSumPascal(a: int, n: nat, j: nat)
    ensures BinomSum(a, n + 1, j + 1) == BinomSum(a, n, j + 1) + a * BinomSum(a, n, j)
  {
    if j > 0 {
      BinomSumPascal(a, n, j - 1);
      assert Binom(n + 1, j) == Binom(n, j - 1) + Binom(n, j);
      assert Pow(a, j) == a * Pow(a, j - 1);
      PascalStep(a, BinomSum(a, n + 1, j), BinomSum(a, n, j), BinomSum(a, n, j - 1),
                 Binom(n, j - 1), Binom(n, j), Pow(a, j - 1));
    }
  }

  lemma PascalStep(a: int, s1: int, s: int, s0: int, c0: int, c1: int, w: int)
    requires s1 == s + a * s0 && s == s0 + c0 * w
    ensures s1 + (c0 + c1) * (a * w) == (s + c1 * (a * w)) + a * s
  {
  }

  /** The binomial theorem for (a + 1)^n. */
  lemma {:induction false} BinomialTheorem(a: int, n: nat)
    ensures Pow(a + 1, n) == BinomSum(a, n, n + 1)
  {
    if n > 0 {
      BinomialTheorem(a, n - 1);
      BinomSumPascal(a, n - 1, n);
      BinomAbove(n - 1, n);
      assert BinomSum(a, n - 1, n + 1) == BinomSum(a, n - 1, n);
    }
  }

  lemma {:induction false} BinomSumModPrime(a: int, p: int, j: nat)
    requires IsPrime(p) && 1 <= j <= p
    ensures Divides(p, BinomSum(a, p, j) - 1)
  {
    if j == 1 {
      assert BinomSum(a, p, 1) == 1;
      DividesIntro(p, 0, 0);
    } else {
      BinomSumModPrime(a, p, j - 1);
      PrimeDividesBinom(p, j - 1);
      DividesLinear(p, BinomSum(a, p, j - 1) - 1, Binom(p, j - 1), 1, Pow(a, j - 1));
    }
  }

  /** (a + 1)^p and a^p + 1 are congruent modulo a prime p. */
  lemma FreshmansDream(a: int, p: int)
    requires IsPrime(p)
    ensures Divides(p, Pow(a + 1, p) - Pow(a, p) - 1)
  {
    BinomialTheorem(a, p);
    BinomSumModPrime(a, p, p);
    BinomDiagonal(p);
    assert BinomSum(a, p, p + 1) == BinomSum(a, p, p) + Pow(a, p);
  }

  /** Fermat's little theorem: a^p and a are congruent modulo a prime p. */
  lemma {:induction false} FermatLittle(a: nat, p: int)
    requires IsPrime(p)
    ensures Divides(p, Pow(a, p) - a)
  {
    if a == 0 {
      assert Pow(0, p) == 0 * Pow(0, p - 1);
      DividesIntro(p, 0, 0);
    } else {
      FermatLittle(a - 1, p);
      FreshmansDream(a - 1, p);
      DividesLinear(p, Pow(a, p) - Pow(a - 1, p) - 1, Pow(a - 1, p) - (a - 1), 1, 1);
    }
  }

  /** For a not divisible by the prime p, a^(p-1) is congruent to 1 modulo p. */
  lemma FermatUnit(a: nat, p: int)
    requires IsPrime(p) && !Divides(p, a)
    ensures Divides(p, Pow(a, p - 1) - 1)
  {
    FermatLittle(a, p);
    assert Pow(a, p) - a == a * (Pow(a, p - 1) - 1);
    EuclidLemma(p, a, Pow(a, p - 1) - 1);
  }

  /** m^(1 + t(p-1)) is congruent to m modulo a prime p, for every m. */
  lemma RsaModPrime(m: nat, p: int, t: nat)
    requires IsPrime(p)
    ensures Divides(p, Pow(m, 1 + t * (p - 1)) - m)
  {
    var k: nat := (p - 1) * t;
    if !Divides(p, m) {
      FermatUnit(m, p);
      PowMul(m, p - 1, t);
      DividesPowMinusOne(p, Pow(m, p - 1), t);
    }
    PowSuccCongruent(m, p, k);
    assert 1 + t * (p - 1) == k + 1;
  }

  /** m^(k+1) is congruent to m when p divides m or m^k is congruent to 1. */
  lemma PowSuccCongruent(m: int, p: int, k: nat)
    requires Divides(p, m) || Divides(p, Pow(m, k) - 1)
    ensures Divides(p, Pow(m, k + 1) - m)
  {
    var x := Pow(m, k);
    assert Pow(m, k + 1) == m * x;
    if Divides(p, m) {
      DividesLinear(p, m, m, x, -1);
    } else {
      DividesLinear(p, x - 1, x - 1, m, 0);
      assert m * (x - 1) + 0 * (x - 1) == m * x - m;
    }
  }

  /** m^ed is congruent to m modulo p*q when ed is congruent to 1 modulo (p-1)(q-1). */
  lemma RsaPowCongruent(p: int, q: int, ed: nat, m: nat)
    requires IsPrime(p) && IsPrime(q) && p != q
    requires (p - 1) * (q - 1) > 0 && ed % ((p - 1) * (q - 1)) == 1
    ensures Divides(p * q, Pow(m, ed) - m)
  {
    var phi := (p - 1) * (q - 1);
    var t: nat := ed / phi;
    assert ed == t * phi + 1;
    ExponentSplit(ed, t, p - 1, q - 1);
    RsaModPrime(m, p, t * (q - 1));
    RsaModPrime(m, q, t * (p - 1));
    DistinctPrimesDivide(p, q, Pow(m, ed) - m);
  }

  lemma ExponentSplit(ed: int, t: int, a: int, b: int)
    requires ed == t * (a * b) + 1
    ensures ed == 1 + (t * b) * a && ed == 1 + (t * a) * b
  {
  }

  /**
   * Textbook RSA is correct: for distinct primes p and q and exponents with
   * e * d == 1 modulo (p-1)(q-1), raising any residue m of n = p*q to the e-th
   * and then to the d-th power modulo n gives m back.
   */
  lemma RsaCorrect(p: int, q: int, e: nat, d: nat, m: int)
    requires IsPrime(p) && IsPrime(q) && p != q
    requires (e * d) % ((p - 1) * (q - 1)) == 1
    requires 0 <= m < p * q
    ensures Pow(Pow(m, e) % (p * q), d) % (p * q) == m
  {
    var n := p * q;
    MulAtLeast(p - 1, q - 1);
    RsaPowCongruent(p, q, e * d, m);
    var x := Pow(m, e * d);
    DividesElim(n, x - m);
    ModUnique(x, n, (x - m) / n, m);
    PowMod(Pow(m, e), d, n);
    PowMul(m, e, d);
  }
}
