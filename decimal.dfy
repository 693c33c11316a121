/**
 * The decimal text of java.math.BigInteger: toString() writes it and the
 * constructor BigInteger(String) reads it.
 */
module Decimal {
  import opened Outcomes
  import opened Arithmetic

  predicate IsDigit(c: char)
  {
    '0' <= c <= '9'
  }

  predicate AllDigits(s: string)
  {
    forall i :: 0 <= i < |s| ==> IsDigit(s[i])
  }

  function DigitChar(d: int): (c: char)
    requires 0 <= d < 10
    ensures IsDigit(c)
  {
    "0123456789"[d]
  }

  function DigitValue(c: char): (d: int)
    requires IsDigit(c)
    ensures 0 <= d < 10 && DigitChar(d) == c
  {
    c as int - '0' as int
  }

  /** The decimal digits of x, most significant first, without leading zeros. */
  function NatToDecimal(x: nat): (s: string)
    ensures |s| > 0 && AllDigits(s)
    decreases x
  {
    if x < 10 then [DigitChar(x)] else NatToDecimal(x / 10) + [DigitChar(x % 10)]
  }

  /** BigInteger.toString(): a minus sign for negative values, then the decimal digits. */
  function ToDecimal(x: int): (s: string)
    ensures |s| > 0 && (s[0] == '-' <==> x < 0)
    ensures x >= 0 ==> AllDigits(s)
    ensures x < 0 ==> AllDigits(s[1..])
  {
    if x < 0 then "-" + NatToDecimal(-x) else NatToDecimal(x)
  }

  /** The value of a string of decimal digits, most significant first. */
  function DigitsValue(s: string): nat
    requires AllDigits(s)
  {
    if s == [] then 0 else DigitsValue(s[..|s| - 1]) * 10 + DigitValue(s[|s| - 1])
  }

  /** One or more decimal digits and their value; anything else is a NumberFormatException. */
  function ParseDigitString(digits: string): Result<nat>
  {
    if |digits| == 0 || !AllDigits(digits) then Err(NumberFormat) else Ok(DigitsValue(digits))
  }

  /**
   * new BigInteger(String): one optional sign character '-' or '+', then one
   * or more decimal digits (leading zeros allowed). Anything else, including
   * the empty string and a lone sign, is a NumberFormatException.
   */
  function ParseDecimal(s: string): (r: Result<int>)
    ensures r.Err? ==> r.error == NumberFormat
    ensures s == "" || s == "-" || s == "+" ==> r.Err?
    ensures r.Ok? ==> (IsDigit(s[0]) || s[0] == '-' || s[0] == '+') && AllDigits(s[1..])
    ensures r.Ok? && r.value < 0 ==> s[0] == '-'
  {
    if |s| == 0 then Err(NumberFormat)
    else if s[0] == '-' then
      var v :- ParseDigitString(s[1..]);
      Ok(-(v as int))
    else if s[0] == '+' then
      var v :- ParseDigitString(s[1..]);
      Ok(v as int)
    else
      var v :- ParseDigitString(s);
      Ok(v as int)
  }

  /** The one spelling toString() gives a value: no '+', no leading zeros, no "-0". */
  predicate IsCanonical(s: string)
  {
    s == "0" ||
    (|s| > 0 && '1' <= s[0] <= '9' && AllDigits(s)) ||
    (|s| > 1 && s[0] == '-' && '1' <= s[1] <= '9' && AllDigits(s[1..]))
  }

  // ---------------------------------------------------------------------------

  lemma {:induction false} DigitsOfNat(x: nat)
    ensures DigitsValue(NatToDecimal(x)) == x
    ensures NatToDecimal(x)[0] == '0' <==> x == 0
    decreases x
  {
    var s := NatToDecimal(x);
    if x < 10 {
      assert s[..0] == [];
    } else {
      DigitsOfNat(x / 10);
      assert s[..|s| - 1] == NatToDecimal(x / 10);
      assert x == (x / 10) * 10 + x % 10;
    }
  }

  lemma ParseDigits(s: string)
    requires |s| > 0 && AllDigits(s)
    ensures ParseDecimal(s) == Ok(DigitsValue(s))
  {
    assert IsDigit(s[0]);
  }

  lemma ParseNegDigits(s: string, v: nat)
    requires ParseDigitString(s) == Ok(v)
    ensures ParseDecimal("-" + s) == Ok(-(v as int))
  {
    var t := "-" + s;
    assert t[1..] == s;
  }

  /** Parsing what toString() wrote gives back the same integer, for every integer. */
  lemma DecimalRoundTrip(x: int)
    ensures ParseDecimal(ToDecimal(x)) == Ok(x)
  {
    var y: nat := if x < 0 then -x else x;
    DigitsOfNat(y);
    ParseDigits(NatToDecimal(y));
    ParseNegDigits(NatToDecimal(y), y);
  }

  /** toString() always writes the canonical spelling. */
  lemma ToDecimalIsCanonical(x: int)
    ensures IsCanonical(ToDecimal(x))
  {
    var y: nat := if x < 0 then -x else x;
    var s := NatToDecimal(y);
    DigitsOfNat(y);
    assert IsDigit(s[0]);
    if x < 0 {
      assert ToDecimal(x) == "-" + s;
      assert ("-" + s)[1..] == s;
    } else if x == 0 {
      assert s == "0";
    }
  }

  lemma {:induction false} LeadingDigitPositive(s: string)
    requires |s| > 0 && AllDigits(s) && s[0] != '0'
    ensures DigitsValue(s) >= 1
  {
    if |s| > 1 {
      var init := s[..|s| - 1];
      assert init[0] == s[0];
      LeadingDigitPositive(init);
    }
  }

  lemma {:induction false} NatToDecimalOfDigits(s: string)
    requires |s| > 0 && AllDigits(s) && (s[0] != '0' || |s| == 1)
    ensures NatToDecimal(DigitsValue(s)) == s
  {
    if |s| > 1 {
      var init := s[..|s| - 1];
      assert init[0] == s[0];
      LeadingDigitPositive(init);
      NatToDecimalOfDigits(init);
      var x := DigitsValue(s);
      ModUnique(x, 10, DigitsValue(init), DigitValue(s[|s| - 1]));
      assert s == init + [s[|s| - 1]];
    } else {
      assert s[..0] == [];
    }
  }

  /**
   * Parsing a string and printing the value back with toString() gives the
   * same string exactly when the string is canonical.
   */
  lemma CanonicalNegative(digits: string)
    requires |digits| > 0 && AllDigits(digits) && digits[0] != '0'
    ensures ParseDecimal("-" + digits) == Ok(-(DigitsValue(digits) as int))
    ensures ToDecimal(-(DigitsValue(digits) as int)) == "-" + digits
  {
    ParseNegDigits(digits, DigitsValue(digits));
    LeadingDigitPositive(digits);
    NatToDecimalOfDigits(digits);
  }

  lemma CanonicalNonnegative(s: string)
    requires |s| > 0 && AllDigits(s) && (s[0] != '0' || |s| == 1)
    ensures ParseDecimal(s) == Ok(DigitsValue(s))
    ensures ToDecimal(DigitsValue(s)) == s
  {
    ParseDigits(s);
    NatToDecimalOfDigits(s);
  }

  /**
   * Parsing a string and printing the value back with toString() gives the
   * same string exactly when the string is canonical.
   */
  lemma DecimalCanonical(s: string)
    requires ParseDecimal(s).Ok?
    ensures ToDecimal(ParseDecimal(s).value) == s <==> IsCanonical(s)
  {
    ToDecimalIsCanonical(ParseDecimal(s).value);
    if IsCanonical(s) {
      if s[0] == '-' {
        assert s == "-" + s[1..];
        CanonicalNegative(s[1..]);
      } else {
        CanonicalNonnegative(s);
      }
    }
  }
}
