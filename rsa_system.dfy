/**
 * The RSA core of RSA-Crypto-Tool (class rsasystem.RSAsystem): key
 * derivation with its process-wide acceptance flag, the textbook cipher
 * primitives, the comment-stripping reader and the line layouts of the key,
 * ciphertext and plaintext files.
 */
module RsaSystem {
  import opened Outcomes
  import opened Arithmetic
  import opened TwosComplement
  import opened Decimal
  import opened Modular

  /**
   * A java.math.BigInteger object. It stands for the one place where the code
   * compares two BigIntegers with `!=`, which compares object identities,
   * not values.
   */
  class BigIntegerRef {
    const value: int

    constructor (value: int)
      ensures this.value == value
    {
      this.value := value;
    }
  }

  /**
   * The exponent test of keyGen: `totient.mod(e) != new BigInteger("0")`.
   * The right operand is a freshly allocated object, so it is never the same
   * object as the remainder and the test accepts every candidate.
   */
  method ExponentTest(totient: int, e: BigIntegerRef) returns (accepted: bool)
    requires e.value > 0
    ensures accepted
  {
    var remainder := new BigIntegerRef(totient % e.value);
    var zero := new BigIntegerRef(0);
    accepted := remainder != zero;
  }

  /**
   * What keyGen returns, given the flag `pass` as it was on entry, the primes
   * p and q and the first exponent candidate drawn: the decimal strings of
   * n, e and d; a NullPointerException when the flag was already set, since
   * then no candidate is drawn; an ArithmeticException when e has no inverse
   * modulo the totient.
   */
  function KeyGenOutcome(passOnEntry: bool, p: int, q: int, e: int): Result<seq<string>>
  {
    if passOnEntry then Err(NullPointer)
    else
      var d :- ModInverse(e, (p - 1) * (q - 1));
      Ok([ToDecimal(p * q), ToDecimal(e), ToDecimal(d)])
  }

  /**
   * The static state of the tool. Its one field is the flag `pass`, which
   * starts out false and which keyGen sets and never resets.
   */
  class RSAsystem {
    var pass: bool

    constructor ()
      ensures !pass
    {
      pass := false;
    }

    /**
     * keyGen: n = p*q, totient = (p-1)(q-1), a loop that draws 8-bit prime
     * candidates for e until `pass` is set, then d = e.modInverse(totient).
     * The primes p and q and the stream of candidates stand for what
     * BigInteger.probablePrime returns; `drawn` counts the candidates the loop
     * takes from the stream.
     */
    method KeyGen(p: int, q: int, candidates: seq<int>) returns (r: Result<seq<string>>, ghost drawn: nat)
      requires IsPrime(p) && IsPrime(q)
      requires |candidates| > 0
      requires forall i :: 0 <= i < |candidates| ==> IsPrime(candidates[i]) && 128 <= candidates[i] < 256
      modifies this
      ensures pass
      ensures drawn == if old(pass) then 0 else 1
      ensures r == KeyGenOutcome(old(pass), p, q, candidates[0])
    {
      var n := p * q;
      var totient := (p - 1) * (q - 1);
      var e: BigIntegerRef? := null;
      var i := 0;
      drawn := 0;
      while !pass
        invariant drawn == i <= 1
        invariant old(pass) ==> pass && drawn == 0 && e == null
        invariant !old(pass) ==> (pass <==> drawn == 1)
        invariant drawn == 0 ==> e == null
        invariant drawn == 1 ==> e != null && e.value == candidates[0]
        decreases if pass then 0 else 1
      {
        e := new BigIntegerRef(candidates[i]);
        i, drawn := i + 1, drawn + 1;
        var accepted := ExponentTest(totient, e);
        if accepted {
          pass := true;
        }
      }
      if e == null {
        r := Err(NullPointer);
      } else {
        var d := ModInverse(e.value, totient);
        if d.Err? {
          r := Err(d.error);
        } else {
          r := Ok([ToDecimal(n), ToDecimal(e.value), ToDecimal(d.value)]);
        }
      }
    }
  }

  // ---------------------------------------------------------------------------
  // Cipher primitives

  /**
   * encrpyt: the message bytes read as a two's-complement integer m, then
   * m^exp mod pubKey in decimal.
   */
  function Encrypt(pubKey: int, exp: int, msg: seq<byte>): (r: Result<string>)
    ensures r.Ok? ==> ParseDecimal(r.value).Ok? && 0 <= ParseDecimal(r.value).value < pubKey
    ensures r.Ok? ==> IsCanonical(r.value)
    ensures exp >= 0 ==> (r.Err? <==> |msg| == 0 || pubKey <= 0)
    ensures |msg| == 0 ==> r == Err(NumberFormat)
    ensures |msg| > 0 && pubKey <= 0 ==> r == Err(Arithmetic)
  {
    var m :- FromByteArray(msg);
    var c :- ModPow(m, exp, pubKey);
    DecimalRoundTrip(c);
    ToDecimalIsCanonical(c);
    Ok(ToDecimal(c))
  }

  /**
   * decrpyt: ctext^priKey mod pubKey, written with toByteArray(). The
   * conversion of those bytes to a String is left to the caller.
   */
  function Decrypt(pubKey: int, priKey: int, ctext: int): (r: Result<seq<byte>>)
    ensures r.Ok? ==> IsMinimal(r.value) && r.value[0] < 128
    ensures priKey >= 0 ==> (r.Err? <==> pubKey <= 0)
    ensures pubKey <= 0 ==> r == Err(Arithmetic)
  {
    var m :- ModPow(ctext, priKey, pubKey);
    ToByteArrayIsMinimal(m);
    Ok(ToByteArray(m))
  }

  // ---------------------------------------------------------------------------
  // Text files as sequences of lines

  /** A line that fileToString skips: its first character is '#'. */
  predicate IsComment(line: string)
  {
    |line| > 0 && line[0] == '#'
  }

  /** The lines that are not comments, in their original order. */
  function Kept(lines: seq<string>): seq<string>
  {
    if lines == [] then []
    else Kept(lines[..|lines| - 1]) + (if IsComment(lines[|lines| - 1]) then [] else [lines[|lines| - 1]])
  }

  /**
   * The concatenation of the given lines, each followed by terminator. With
   * the line separator as terminator it is also the text toFile writes, since
   * println ends every line with System.lineSeparator().
   */
  function Joined(lines: seq<string>, terminator: string): string
  {
    if lines == [] then "" else Joined(lines[..|lines| - 1], terminator) + lines[|lines| - 1] + terminator
  }

  /**
   * What the reading loop of fileToString makes of the lines of a file: the
   * non-comment lines concatenated, each followed by the platform line
   * separator when isText; an empty line makes charAt(0) throw a
   * StringIndexOutOfBoundsException, which nothing catches.
   */
  function ReadLines(lines: seq<string>, isText: bool, separator: string): Result<string>
  {
    if "" in lines then Err(StringIndexOutOfBounds)
    else Ok(Joined(Kept(lines), if isText then separator else ""))
  }

  /** The reading loop of fileToString over the lines that readLine returns. */
  method FileToString(lines: seq<string>, isText: bool, separator: string) returns (r: Result<string>)
    ensures r == ReadLines(lines, isText, separator)
  {
    var sb := "";
    var i := 0;
    while i < |lines|
      invariant 0 <= i <= |lines|
      invariant "" !in lines[..i]
      invariant sb == Joined(Kept(lines[..i]), if isText then separator else "")
    {
      var line := lines[i];
      if |line| == 0 {
        assert line in lines;
        return Err(StringIndexOutOfBounds);
      }
      assert lines[..i + 1][..i] == lines[..i];
      ghost var terminator := if isText then separator else "";
      ghost var kept := Kept(lines[..i]);
      if !(line[0] == '#') {
        assert Kept(lines[..i + 1]) == kept + [line];
        assert (kept + [line])[..|kept|] == kept;
        sb := sb + line;
        if isText {
          sb := sb + separator;
        }
        assert sb == Joined(kept, terminator) + line + terminator;
      } else {
        assert IsComment(lines[..i + 1][i]);
        assert Kept(lines[..i + 1]) == kept + [] == kept;
      }
      i := i + 1;
    }
    assert lines[..i] == lines;
    r := Ok(sb);
  }

  /** A character at which readLine ends a line. */
  predicate IsLineBreak(c: char)
  {
    c == '\n' || c == '\r'
  }

  /** A line with no line break in it, as every line readLine returns is. */
  predicate IsSingleLine(line: string)
  {
    forall i :: 0 <= i < |line| ==> !IsLineBreak(line[i])
  }

  /** The values System.lineSeparator() takes: "\n", "\r\n" or "\r". */
  predicate IsLineSeparator(nl: string)
  {
    nl == "\n" || nl == "\r\n" || nl == "\r"
  }

  /**
   * The lines BufferedReader.readLine returns, one call after another, until
   * it returns null: the text is cut at every '\n', '\r' or "\r\n", and a
   * last piece with no terminator after it is a line when it is not empty.
   * current holds the characters of the line read so far.
   */
  function SplitLines(content: string, current: string): (lines: seq<string>)
    ensures IsSingleLine(current) ==> forall i :: 0 <= i < |lines| ==> IsSingleLine(lines[i])
    decreases |content|
  {
    if content == "" then (if current == "" then [] else [current])
    else if content[0] == '\n' then [current] + SplitLines(content[1..], "")
    else if content[0] == '\r' then
      [current] + SplitLines(if |content| > 1 && content[1] == '\n' then content[2..] else content[1..], "")
    else SplitLines(content[1..], current + [content[0]])
  }

  /** The key file written after key generation; keys holds n, e and d in that order. */
  function KeyFileLines(bits: int, keys: seq<string>): (lines: seq<string>)
    requires |keys| == 3
    ensures |lines| == 8 && lines[2] == keys[0] && lines[4] == keys[1] && lines[6] == keys[2]
    ensures forall i :: 0 <= i < 8 && i != 2 && i != 4 && i != 6 ==> IsComment(lines[i])
  {
    ["#START OF " + ToDecimal(bits) + "-BIT RSA KEYPAIR",
     "#---PUBLIC KEY:", keys[0],
     "#---EXPONENT:", keys[1],
     "#---PRIVATE KEY:", keys[2],
     "#END OF " + ToDecimal(bits) + "-BIT RSA KEYPAIR"]
  }

  /** The ciphertext file written after encryption. */
  function CiphertextFileLines(ciphertext: string): (lines: seq<string>)
    ensures |lines| == 3 && lines[1] == ciphertext && IsComment(lines[0]) && IsComment(lines[2])
  {
    ["#START OF CIPHERTEXT", ciphertext, "#END OF CIPHERTEXT"]
  }

  /** The plaintext file written after decryption. */
  function PlaintextFileLines(plaintext: string): (lines: seq<string>)
    ensures |lines| == 3 && lines[1] == plaintext && IsComment(lines[0]) && IsComment(lines[2])
  {
    ["#START OF PLAINTEXT", plaintext, "#END OF PLAINTEXT"]
  }

  // ---------------------------------------------------------------------------
  // The encryption and decryption commands of main

  /**
   * Command 2 of main: parse the public key and the exponent, read the
   * plaintext file as text, encrypt its bytes and build the ciphertext file.
   * encode stands for String.getBytes() in the platform charset.
   */
  function EncryptCommand(pubKeyText: string, expText: string, plaintextFile: seq<string>,
                          separator: string, encode: string -> seq<byte>): (r: Result<seq<string>>)
    ensures ParseDecimal(pubKeyText).Err? || ParseDecimal(expText).Err? ==> r == Err(NumberFormat)
    ensures r.Ok? ==> ParseDecimal(pubKeyText).Ok? && ReadLines(plaintextFile, true, separator).Ok?
    ensures r.Ok? ==> |r.value| == 3 && var c := r.value[1];
      r.value == CiphertextFileLines(c) && IsCanonical(c) &&
      0 <= ParseDecimal(c).value < ParseDecimal(pubKeyText).value
  {
    var pubKey :- ParseDecimal(pubKeyText);
    var exp :- ParseDecimal(expText);
    var text :- ReadLines(plaintextFile, true, separator);
    var c :- Encrypt(pubKey, exp, encode(text));
    Ok(CiphertextFileLines(c))
  }

  /**
   * Command 3 of main: parse the public and the private key, read the
   * ciphertext file without separators, parse it, decrypt it and build the
   * plaintext file. decode stands for new String(byte[]) in the platform
   * charset.
   */
  function DecryptCommand(pubKeyText: string, priKeyText: string, ciphertextFile: seq<string>,
                          separator: string, decode: seq<byte> -> string): (r: Result<seq<string>>)
    ensures ParseDecimal(pubKeyText).Err? || ParseDecimal(priKeyText).Err? ==> r == Err(NumberFormat)
    ensures ParseDecimal(pubKeyText).Ok? && ParseDecimal(priKeyText).Ok? && "" in ciphertextFile ==>
              r == Err(StringIndexOutOfBounds)
    ensures r.Ok? ==> exists plain :: IsMinimal(plain) && plain[0] < 128 &&
                        r.value == PlaintextFileLines(decode(plain))
  {
    var pubKey :- ParseDecimal(pubKeyText);
    var priKey :- ParseDecimal(priKeyText);
    var text :- ReadLines(ciphertextFile, false, separator);
    var ctext :- ParseDecimal(text);
    var plain :- Decrypt(pubKey, priKey, ctext);
    Ok(PlaintextFileLines(decode(plain)))
  }
}
