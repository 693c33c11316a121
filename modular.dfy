/**
 * The modular operations of java.math.BigInteger that the RSA core calls,
 * specified by their documented results: modInverse and modPow.
 */
module Modular {
  import opened Outcomes
  import opened Arithmetic

  /** d is a multiplicative inverse of a modulo m. */
  predicate IsInverseOf(d: int, a: int, m: int)
  {
    m > 0 && (a * d) % m == 1 % m
  }

  /**
   * BigInteger.modInverse(m): the inverse of a modulo m as a residue in
   * [0, m). An ArithmeticException when m <= 0 or when a and m are not
   * coprime.
   */
  function ModInverse(a: int, m: int): (r: Result<int>)
    ensures r.Ok? ==> 0 <= r.value < m && IsInverseOf(r.value, a, m)
  {
    if m <= 0 then Err(Arithmetic)
    else
      var b := a % m;
      if Gcd(b, m) != 1 then Err(Arithmetic)
      else
        var (x, y) := ExtGcd(b, m);
        BezoutInverse(a, m, x, y);
        Ok(x % m)
  }

  /**
   * BigInteger.modPow(exponent, m): b^e mod m as a residue in [0, m). For a
   * negative exponent it is the inverse of b^(-e) modulo m, which fails with
   * an ArithmeticException when there is none; m <= 0 is an
   * ArithmeticException too.
   */
  function ModPow(b: int, e: int, m: int): (r: Result<int>)
    ensures r.Ok? ==> 0 <= r.value < m
    ensures e < 0 && r.Ok? ==> IsInverseOf(r.value, Pow(b, -e), m)
  {
    if m <= 0 then Err(Arithmetic)
    else if e >= 0 then Ok(Pow(b, e) % m)
    else
      var r := ModInverse(Pow(b, -e) % m, m);
      InverseOfResidue(Pow(b, -e), m, r);
      r
  }

  // ---------------------------------------------------------------------------

  lemma BezoutInverse(a: int, m: int, x: int, y: int)
    requires m > 0 && (a % m) * x + m * y == 1
    ensures IsInverseOf(x % m, a, m)
  {
    var b, xr := a % m, x % m;
    ModOfResidue(x, m);
    ModOfResidue(a, m);
    MulMod(a, xr, m);
    assert (a * xr) % m == (b * xr) % m;
    MulMod(b, x, m);
    assert (b * x) % m == (b * xr) % m;
    assert b * x == (-y) * m + 1;
    ModAddMultiple(-y, 1, m);
  }

  lemma InverseOfResidue(x: int, m: int, r: Result<int>)
    requires m > 0
    requires r.Ok? ==> IsInverseOf(r.value, x % m, m)
    ensures r.Ok? ==> IsInverseOf(r.value, x, m)
  {
    if r.Ok? {
      MulMod(x % m, r.value, m);
      MulMod(x, r.value, m);
      ModOfResidue(x, m);
    }
  }

  /** modInverse fails only when no inverse exists. */
  lemma ModInverseFails(a: int, m: int, d: int)
    requires ModInverse(a, m).Err?
    ensures !IsInverseOf(d, a, m)
  {
    if IsInverseOf(d, a, m) {
      var b := a % m;
      var g := Gcd(b, m);
      GcdDivides(b, m);
      assert g != 1;
      assert a == 1 * b + (a / m) * m;
      DividesLinear(g, b, m, 1, a / m);
      ModEqDivides(a * d, 1, m);
      DividesTrans(g, m, a * d - 1);
      DividesLinear(g, a, a * d - 1, d, -1);
      assert d * a + (-1) * (a * d - 1) == 1;
      DividesLe(g, 1);
      assert false;
    }
  }

  /**
   * modInverse returns the inverse: whenever a has an inverse d in [0, m),
   * modInverse succeeds with exactly d.
   */
  lemma ModInverseUnique(a: int, m: int, d: int)
    requires IsInverseOf(d, a, m) && 0 <= d < m
    ensures ModInverse(a, m) == Ok(d)
  {
    if ModInverse(a, m).Err? {
      ModInverseFails(a, m, d);
      assert false;
    }
    var d' := ModInverse(a, m).value;
    ModEqDivides(a * d, 1, m);
    ModEqDivides(a * d', 1, m);
    DividesLinear(m, a * d - 1, a * d' - 1, d', -d);
    assert d' * (a * d - 1) + (-d) * (a * d' - 1) == d - d';
    ModEqDivides(d, d', m);
    ModUnique(d, m, 0, d);
    ModUnique(d', m, 0, d');
  }

  /** a has a multiplicative inverse modulo m. */
  ghost predicate HasInverse(a: int, m: int)
  {
    exists d :: IsInverseOf(d, a, m)
  }

  /** modInverse succeeds exactly when an inverse exists. */
  lemma ModInverseSucceeds(a: int, m: int)
    ensures ModInverse(a, m).Ok? <==> HasInverse(a, m)
  {
    if ModInverse(a, m).Ok? {
      assert IsInverseOf(ModInverse(a, m).value, a, m);
    } else if HasInverse(a, m) {
      var d :| IsInverseOf(d, a, m);
      ModInverseFails(a, m, d);
    }
  }

  /**
   * modPow fails exactly when the modulus is not positive, or the exponent is
   * negative and b^(-e) has no inverse modulo m.
   */
  lemma ModPowFails(b: int, e: int, m: int)
    ensures ModPow(b, e, m).Err? <==> m <= 0 || (e < 0 && !HasInverse(Pow(b, -e), m))
  {
    if m > 0 && e < 0 {
      var x := Pow(b, -e);
      ModInverseSucceeds(x % m, m);
      if HasInverse(x, m) {
        var d :| IsInverseOf(d, x, m);
        InverseOfResidueBack(x, m, d);
      }
    }
  }

  lemma InverseOfResidueBack(x: int, m: int, d: int)
    requires IsInverseOf(d, x, m)
    ensures IsInverseOf(d, x % m, m)
  {
    MulMod(x % m, d, m);
    MulMod(x, d, m);
    ModOfResidue(x, m);
  }
}
