/**
 * The byte-level conversions of java.math.BigInteger: the constructor
 * BigInteger(byte[]) reads a big-endian two's-complement integer, and
 * toByteArray() writes the shortest such encoding.
 */
module TwosComplement {
  import opened Outcomes
  import opened Arithmetic

  /** An octet. Java's signed byte b stands for the octet b mod 256. */
  type byte = x: int | 0 <= x < 256

  /** Value of a big-endian byte string read without sign. */
  function Unsigned(bs: seq<byte>): nat
  {
    if bs == [] then 0 else Unsigned(bs[..|bs| - 1]) * 256 + bs[|bs| - 1]
  }

  /**
   * new BigInteger(byte[] val): the two's-complement big-endian value of val;
   * the top bit of the first byte is the sign. An empty array is a
   * NumberFormatException ("Zero length BigInteger").
   */
  function FromByteArray(bs: seq<byte>): (r: Result<int>)
    ensures r.Err? <==> |bs| == 0
    ensures r.Err? ==> r.error == NumberFormat
    ensures r.Ok? ==> -128 * Pow(256, |bs| - 1) <= r.value < 128 * Pow(256, |bs| - 1)
    ensures r.Ok? ==> (r.value < 0 <==> bs[0] >= 128)
  {
    if |bs| == 0 then Err(NumberFormat)
    else
      UnsignedBounds(bs);
      SignBitRange(bs[0], Unsigned(bs), Pow(256, |bs| - 1));
      Ok(Unsigned(bs) - (if bs[0] >= 128 then Pow(256, |bs|) else 0))
  }

  /** The first byte fixes the unsigned value to one block of 256^(|bs|-1) values. */
  lemma {:induction false} UnsignedBounds(bs: seq<byte>)
    requires |bs| > 0
    ensures bs[0] * Pow(256, |bs| - 1) <= Unsigned(bs) < (bs[0] + 1) * Pow(256, |bs| - 1)
    ensures Pow(256, |bs|) == 256 * Pow(256, |bs| - 1)
  {
    if |bs| == 1 {
      assert bs[..0] == [];
    } else {
      var init := bs[..|bs| - 1];
      UnsignedBounds(init);
      assert init[0] == bs[0];
      BlockScale(bs[0], Unsigned(init), bs[|bs| - 1], Pow(256, |init| - 1));
    }
  }

  lemma BlockScale(b0: int, u: int, last: int, w: int)
    requires b0 * w <= u < (b0 + 1) * w && 0 <= last < 256
    ensures b0 * (256 * w) <= u * 256 + last < (b0 + 1) * (256 * w)
  {
    assert u <= (b0 + 1) * w - 1;
    assert u * 256 <= ((b0 + 1) * w - 1) * 256;
  }

  /** Subtracting 256^|bs| when the sign bit is set lands in the signed range. */
  lemma SignBitRange(b0: byte, u: int, w: nat)
    requires b0 * w <= u < (b0 + 1) * w
    ensures var v := u - (if b0 >= 128 then 256 * w else 0);
      -128 * w <= v < 128 * w && (v < 0 <==> b0 >= 128)
  {
    if b0 >= 128 {
      ScaleLe(b0 + 1, 256, w);
      ScaleLe(128, b0, w);
    } else {
      ScaleLe(b0 + 1, 128, w);
      ScaleLe(0, b0, w);
    }
  }

  lemma ScaleLe(a: int, b: int, w: nat)
    requires a <= b
    ensures a * w <= b * w
  {
    assert b * w - a * w == (b - a) * w;
  }

  /**
   * toByteArray(): the big-endian two's-complement encoding of x in the
   * fewest bytes that still hold a sign bit; zero is the single byte 0.
   */
  function ToByteArray(x: int): (bs: seq<byte>)
    ensures |bs| > 0
    ensures bs[0] < 128 <==> x >= 0
    decreases if x >= 0 then x else -x
  {
    if -128 <= x < 128 then [x % 256] else ToByteArray(x / 256) + [x % 256]
  }

  /**
   * bs is the shortest two's-complement encoding of its value: no leading
   * 0x00 before a byte whose top bit is clear, no leading 0xFF before a byte
   * whose top bit is set.
   */
  predicate IsMinimal(bs: seq<byte>)
  {
    |bs| > 0 &&
    (|bs| >= 2 ==> !(bs[0] == 0 && bs[1] < 128) && !(bs[0] == 255 && bs[1] >= 128))
  }

  /** The two's-complement value computed byte by byte, most significant first. */
  function Signed(bs: seq<byte>): int
    requires |bs| > 0
  {
    if |bs| == 1 then (if bs[0] >= 128 then bs[0] - 256 else bs[0])
    else Signed(bs[..|bs| - 1]) * 256 + bs[|bs| - 1]
  }

  // ---------------------------------------------------------------------------
  // The byte-by-byte value is the two's-complement value

  lemma {:induction false} SignedIsTwosComplement(bs: seq<byte>)
    requires |bs| > 0
    ensures FromByteArray(bs) == Ok(Signed(bs))
  {
    if |bs| > 1 {
      var init := bs[..|bs| - 1];
      SignedIsTwosComplement(init);
      assert init[0] == bs[0];
      var c := if bs[0] >= 128 then 1 else 0;
      assert Signed(init) == Unsigned(init) - c * Pow(256, |init|);
      assert Pow(256, |bs|) == 256 * Pow(256, |init|);
      assert Signed(bs) == (Unsigned(init) - c * Pow(256, |init|)) * 256 + bs[|bs| - 1];
    } else {
      assert bs[..0] == [];
      assert Unsigned(bs) == bs[0];
      assert Pow(256, 1) == 256;
    }
  }

  // ---------------------------------------------------------------------------
  // Round trips

  lemma {:induction false} SignedOfToByteArray(x: int)
    ensures Signed(ToByteArray(x)) == x
    decreases if x >= 0 then x else -x
  {
    if !(-128 <= x < 128) {
      SignedOfToByteArray(x / 256);
      var init := ToByteArray(x / 256);
      assert ToByteArray(x)[..|ToByteArray(x)| - 1] == init;
      assert x == (x / 256) * 256 + x % 256;
    }
  }

  /** Reading back what toByteArray() wrote gives the same integer, for every integer. */
  lemma ByteArrayRoundTrip(x: int)
    ensures FromByteArray(ToByteArray(x)) == Ok(x)
  {
    SignedOfToByteArray(x);
    SignedIsTwosComplement(ToByteArray(x));
  }

  /** toByteArray() always writes a shortest encoding. */
  lemma {:induction false} ToByteArrayIsMinimal(x: int)
    ensures IsMinimal(ToByteArray(x))
    decreases if x >= 0 then x else -x
  {
    if !(-128 <= x < 128) {
      var h := x / 256;
      ToByteArrayIsMinimal(h);
      if -128 <= h < 128 {
        var b0, b1 := h % 256, x % 256;
        assert ToByteArray(x) == [b0, b1];
        assert x == h * 256 + b1;
      } else {
        assert ToByteArray(x)[..2] == ToByteArray(h)[..2];
      }
    }
  }

  /** A shortest encoding of length two or more does not hold a value that fits one byte. */
  lemma {:induction false} MinimalIsWide(bs: seq<byte>)
    requires IsMinimal(bs) && |bs| >= 2
    ensures !(-128 <= Signed(bs) < 128)
  {
    var init := bs[..|bs| - 1];
    if |bs| > 2 {
      assert init[..2] == bs[..2];
      MinimalIsWide(init);
    }
  }

  /** A shortest encoding is what toByteArray() writes for its value. */
  lemma {:induction false} ToByteArrayOfSigned(bs: seq<byte>)
    requires IsMinimal(bs)
    ensures ToByteArray(Signed(bs)) == bs
  {
    if |bs| > 1 {
      var init := bs[..|bs| - 1];
      var x, last := Signed(bs), bs[|bs| - 1];
      MinimalIsWide(bs);
      if |bs| > 2 {
        assert init[..2] == bs[..2];
      }
      ToByteArrayOfSigned(init);
      ModUnique(x, 256, Signed(init), last);
      assert bs == init + [last];
    }
  }

  /**
   * Converting bytes to an integer and back with toByteArray() is the
   * identity exactly on the shortest encodings.
   */
  lemma ByteArrayCanonical(bs: seq<byte>)
    requires |bs| > 0
    ensures ToByteArray(FromByteArray(bs).value) == bs <==> IsMinimal(bs)
  {
    SignedIsTwosComplement(bs);
    if IsMinimal(bs) {
      ToByteArrayOfSigned(bs);
    }
    ToByteArrayIsMinimal(FromByteArray(bs).value);
  }
}
