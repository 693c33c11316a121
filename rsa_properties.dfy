/**
 * What the RSA core promises, stated about the model: the keys keyGen derives,
 * the lifecycle of the `pass` flag, the cipher round trip and its limits, the
 * comment-stripping reader against the three file layouts, and the
 * generate-encrypt-decrypt cycle of the tool end to end.
 */
module RsaProperties {
  import opened Outcomes
  import opened Arithmetic
  import opened Fermat
  import opened TwosComplement
  import opened Decimal
  import opened Modular
  import opened RsaSystem

  // ---------------------------------------------------------------------------
  // Key generation

  /**
   * A prime exponent e has an inverse modulo the totient exactly when it does
   * not divide the totient; this is the test line 62 was meant to make.
   */
  lemma ExponentInvertible(e: int, totient: int)
    requires IsPrime(e) && totient > 0
    ensures ModInverse(e, totient).Ok? <==> totient % e != 0
  {
    if totient % e == 0 {
      if ModInverse(e, totient).Ok? {
        var d := ModInverse(e, totient).value;
        DividesLe(e, totient);
        ModEqDivides(e * d, 1, totient);
        DividesTrans(e, totient, e * d - 1);
        DividesIntro(e, e * d, d);
        DividesLinear(e, e * d, e * d - 1, 1, -1);
        assert 1 * (e * d) + (-1) * (e * d - 1) == 1;
        DividesLe(e, 1);
        assert false;
      }
    } else {
      var b := e % totient;
      var g := Gcd(b, totient);
      GcdDivides(b, totient);
      assert e == (e / totient) * totient + 1 * b;
      DividesLinear(g, totient, b, e / totient, 1);
      PrimeDivisors(e, g);
      assert g == 1;
    }
  }

  /** The totient of two primes is positive, and at least 2 when they differ. */
  lemma TotientPositive(p: int, q: int)
    requires IsPrime(p) && IsPrime(q)
    ensures (p - 1) * (q - 1) >= 1
    ensures p != q ==> (p - 1) * (q - 1) >= 2
  {
    MulAtLeast(p - 1, q - 1);
    MulAtLeast(q - 1, p - 1);
  }

  /**
   * The first key generation succeeds exactly when the drawn exponent does
   * not divide the totient, and fails with an ArithmeticException from
   * modInverse otherwise; on success it yields the decimal strings of n = p*q, of
   * e and of a private exponent d in [0, totient) with e*d == 1 modulo the
   * totient, each in the spelling toString() gives it.
   */
  lemma KeyGenKeys(p: int, q: int, e: int)
    requires IsPrime(p) && IsPrime(q) && IsPrime(e)
    ensures KeyGenOutcome(false, p, q, e).Ok? <==> ((p - 1) * (q - 1)) % e != 0
    ensures KeyGenOutcome(false, p, q, e).Err? ==> KeyGenOutcome(false, p, q, e) == Err(Arithmetic)
    ensures KeyGenOutcome(false, p, q, e).Ok? ==>
      var keys := KeyGenOutcome(false, p, q, e).value;
      var totient := (p - 1) * (q - 1);
      |keys| == 3 &&
      ParseDecimal(keys[0]) == Ok(p * q) &&
      ParseDecimal(keys[1]) == Ok(e) &&
      ParseDecimal(keys[2]).Ok? &&
      0 <= ParseDecimal(keys[2]).value < totient &&
      IsInverseOf(ParseDecimal(keys[2]).value, e, totient) &&
      IsCanonical(keys[0]) && IsCanonical(keys[1]) && IsCanonical(keys[2])
  {
    var totient := (p - 1) * (q - 1);
    TotientPositive(p, q);
    ExponentInvertible(e, totient);
    if ModInverse(e, totient).Ok? {
      var d := ModInverse(e, totient).value;
      DecimalRoundTrip(p * q);
      DecimalRoundTrip(e);
      DecimalRoundTrip(d);
      ToDecimalIsCanonical(p * q);
      ToDecimalIsCanonical(e);
      ToDecimalIsCanonical(d);
    }
  }

  /**
   * With distinct primes the private exponent is an exact inverse:
   * (e*d) % totient == 1, the precondition of textbook RSA.
   */
  lemma KeyGenInverse(p: int, q: int, e: int)
    requires IsPrime(p) && IsPrime(q) && p != q && IsPrime(e)
    requires KeyGenOutcome(false, p, q, e).Ok?
    ensures ParseDecimal(KeyGenOutcome(false, p, q, e).value[2]).Ok?
    ensures var d := ParseDecimal(KeyGenOutcome(false, p, q, e).value[2]).value;
      d >= 0 && (e * d) % ((p - 1) * (q - 1)) == 1
  {
    KeyGenKeys(p, q, e);
    TotientPositive(p, q);
    var totient := (p - 1) * (q - 1);
    var d := ParseDecimal(KeyGenOutcome(false, p, q, e).value[2]).value;
    assert IsInverseOf(d, e, totient);
    ModUnique(1, totient, 0, 1);
  }

  /**
   * The lifecycle of the static flag: on a fresh RSAsystem the first keyGen
   * draws one exponent and returns its keys, and every later keyGen finds
   * `pass` already set, draws nothing and dies with a NullPointerException.
   */
  method KeyGenTwice(p: int, q: int, candidates: seq<int>, later: seq<int>)
    returns (first: Result<seq<string>>, second: Result<seq<string>>)
    requires IsPrime(p) && IsPrime(q)
    requires |candidates| > 0 && |later| > 0
    requires forall i :: 0 <= i < |candidates| ==> IsPrime(candidates[i]) && 128 <= candidates[i] < 256
    requires forall i :: 0 <= i < |later| ==> IsPrime(later[i]) && 128 <= later[i] < 256
    ensures first == KeyGenOutcome(false, p, q, candidates[0])
    ensures second == Err(NullPointer)
  {
    var system := new RSAsystem();
    ghost var drawn;
    first, drawn := system.KeyGen(p, q, candidates);
    assert drawn == 1;
    second, drawn := system.KeyGen(p, q, later);
    assert drawn == 0;
  }

  /** The modulus of two h-bit primes has 2h - 1 or 2h bits. */
  lemma ModulusWidth(p: int, q: int, h: nat)
    requires h >= 1
    requires Pow(2, h - 1) <= p < Pow(2, h) && Pow(2, h - 1) <= q < Pow(2, h)
    ensures Pow(2, 2 * h - 2) <= p * q < Pow(2, 2 * h)
  {
    var lo, hi := Pow(2, h - 1), Pow(2, h);
    PowAdd(2, h - 1, h - 1);
    PowAdd(2, h, h);
    PowNonnegative(2, h - 1);
    assert 2 * h - 2 == (h - 1) + (h - 1) && 2 * h == h + h;
    MulMonotone(lo, p, lo, q);
    MulStrict(p, hi, q, hi);
  }

  lemma MulMonotone(a: int, b: int, c: int, d: int)
    requires 0 <= a <= b && 0 <= c <= d
    ensures a * c <= b * d
  {
  }

  lemma MulStrict(a: int, b: int, c: int, d: int)
    requires 0 <= a < b && 0 <= c < d
    ensures a * c < b * d
  {
  }

  // ---------------------------------------------------------------------------
  // The cipher

  /**
   * Textbook RSA over the byte conversions: for distinct primes and
   * exponents that are inverse modulo the totient, decrypting the encryption
   * of a non-empty message gives the shortest encoding of the message's
   * value reduced modulo n. That is the message itself exactly when the
   * message is a shortest encoding whose value lies in [0, n): a message
   * value of n or more, a message whose first byte has its top bit set, or
   * one with a redundant leading zero byte does not come back.
   */
  lemma CipherRoundTrip(p: int, q: int, e: nat, d: nat, msg: seq<byte>)
    requires IsPrime(p) && IsPrime(q) && p != q
    requires (e * d) % ((p - 1) * (q - 1)) == 1
    requires |msg| > 0
    ensures p * q > 1
    ensures Encrypt(p * q, e, msg).Ok?
    ensures ParseDecimal(Encrypt(p * q, e, msg).value).Ok?
    ensures var c := ParseDecimal(Encrypt(p * q, e, msg).value).value;
      var m := FromByteArray(msg).value;
      Decrypt(p * q, d, c) == Ok(ToByteArray(m % (p * q))) &&
      (Decrypt(p * q, d, c) == Ok(msg) <==> IsMinimal(msg) && 0 <= m < p * q)
  {
    var n := p * q;
    TotientPositive(p, q);
    MulAtLeast(p, q);
    var m := FromByteArray(msg).value;
    var c := Pow(m, e) % n;
    DecimalRoundTrip(c);
    PowMod(m, e, n);
    RsaCorrect(p, q, e, d, m % n);
    assert Decrypt(n, d, c) == Ok(ToByteArray(m % n));
    ByteArrayCanonical(msg);
    if ToByteArray(m % n) == msg {
      ByteArrayRoundTrip(m % n);
    }
    if 0 <= m < n {
      ModUnique(m, n, 0, m);
    }
  }

  // ---------------------------------------------------------------------------
  // The reader and the file layouts

  /** The comment filter distributes over concatenation of files. */
  lemma {:induction false} KeptAppend(a: seq<string>, b: seq<string>)
    ensures Kept(a + b) == Kept(a) + Kept(b)
    decreases |b|
  {
    if b != [] {
      var b' := b[..|b| - 1];
      assert (a + b)[..|a + b| - 1] == a + b';
      KeptAppend(a, b');
    } else {
      assert a + b == a;
    }
  }

  /**
   * The filter keeps every line that is not a comment and nothing else,
   * in the original order.
   */
  lemma {:induction false} KeptExactly(lines: seq<string>)
    ensures forall l :: l in Kept(lines) <==> l in lines && !IsComment(l)
  {
    if lines != [] {
      var init := lines[..|lines| - 1];
      KeptExactly(init);
      assert lines == init + [lines[|lines| - 1]];
    }
  }

  /** Joining distributes over concatenation of line lists. */
  lemma {:induction false} JoinedAppend(a: seq<string>, b: seq<string>, terminator: string)
    ensures Joined(a + b, terminator) == Joined(a, terminator) + Joined(b, terminator)
    decreases |b|
  {
    if b != [] {
      var b' := b[..|b| - 1];
      assert (a + b)[..|a + b| - 1] == a + b';
      JoinedAppend(a, b', terminator);
    } else {
      assert a + b == a;
    }
  }

  lemma JoinedSingle(line: string, terminator: string)
    ensures Joined([line], terminator) == line + terminator
  {
    assert [line][..0] == [];
  }

  // ---------------------------------------------------------------------------
  // What toFile writes and readLine reads back

  /** readLine consumes a piece without line breaks into the line it is reading. */
  lemma {:induction false} SplitSingleLine(s: string, current: string, rest: string)
    requires IsSingleLine(s)
    ensures SplitLines(s + rest, current) == SplitLines(rest, current + s)
    decreases |s|
  {
    if s == "" {
      assert s + rest == rest && current + s == current;
    } else {
      assert (s + rest)[0] == s[0] && (s + rest)[1..] == s[1..] + rest;
      SplitSingleLine(s[1..], current + [s[0]], rest);
      assert current + [s[0]] + s[1..] == current + s;
    }
  }

  /** A line separator ends the line being read. */
  lemma SplitSeparator(nl: string, current: string, rest: string)
    requires IsLineSeparator(nl)
    requires nl == "\r" && |rest| > 0 ==> rest[0] != '\n'
    ensures SplitLines(nl + rest, current) == [current] + SplitLines(rest, "")
  {
    if nl == "\r\n" {
      assert (nl + rest)[2..] == rest;
    } else {
      assert (nl + rest)[1..] == rest;
    }
  }

  /** A line without line breaks followed by a separator reads as that one line. */
  lemma SplitOneLine(line: string, nl: string, rest: string)
    requires IsLineSeparator(nl) && IsSingleLine(line)
    requires nl == "\r" && |rest| > 0 ==> rest[0] != '\n'
    ensures SplitLines(line + (nl + rest), "") == [line] + SplitLines(rest, "")
  {
    SplitSingleLine(line, "", nl + rest);
    assert "" + line == line;
    SplitSeparator(nl, line, rest);
  }

  lemma {:induction false} SplitJoinedAppend(lines: seq<string>, nl: string, rest: string)
    requires IsLineSeparator(nl)
    requires forall i :: 0 <= i < |lines| ==> IsSingleLine(lines[i])
    requires nl == "\r" && |rest| > 0 ==> rest[0] != '\n'
    ensures SplitLines(Joined(lines, nl) + rest, "") == lines + SplitLines(rest, "")
    decreases |lines|
  {
    if lines == [] {
      assert Joined(lines, nl) + rest == rest;
    } else {
      var init, last := lines[..|lines| - 1], lines[|lines| - 1];
      var rest' := JoinedLast(lines, nl, rest);
      assert forall i :: 0 <= i < |init| ==> init[i] == lines[i];
      SplitJoinedAppend(init, nl, rest');
      SplitOneLine(last, nl, rest);
      assert lines == init + [last];
    }
  }

  /** Peels the last line off a joined list, in front of what follows it. */
  lemma JoinedLast(lines: seq<string>, nl: string, rest: string) returns (rest': string)
    requires lines != [] && IsLineSeparator(nl)
    requires IsSingleLine(lines[|lines| - 1])
    ensures rest' == lines[|lines| - 1] + (nl + rest)
    ensures Joined(lines, nl) + rest == Joined(lines[..|lines| - 1], nl) + rest'
    ensures rest'[0] != '\n' || nl != "\r"
  {
    var last := lines[|lines| - 1];
    rest' := last + (nl + rest);
    if last != "" {
      assert rest'[0] == last[0];
    }
  }

  /**
   * Reading back with readLine what toFile wrote with println gives the
   * array toFile was given exactly when none of its elements contains a line
   * break.
   */
  lemma ReadBackWritten(lines: seq<string>, nl: string)
    requires IsLineSeparator(nl)
    ensures SplitLines(Joined(lines, nl), "") == lines <==>
            forall i :: 0 <= i < |lines| ==> IsSingleLine(lines[i])
  {
    if forall i :: 0 <= i < |lines| ==> IsSingleLine(lines[i]) {
      SplitJoinedAppend(lines, nl, "");
      assert Joined(lines, nl) + "" == Joined(lines, nl) && lines + [] == lines;
    }
  }

  /** One step of the filter: the next line is dropped exactly when it is a comment. */
  lemma KeptPrefix(lines: seq<string>, k: nat)
    requires k < |lines|
    ensures Kept(lines[..k + 1]) == Kept(lines[..k]) + if IsComment(lines[k]) then [] else [lines[k]]
  {
    assert lines[..k + 1][..k] == lines[..k];
  }

  /** A three-line file whose middle line is the only non-comment line. */
  lemma ReadFramed(first: string, middle: string, last: string, isText: bool, separator: string)
    requires IsComment(first) && IsComment(last)
    requires middle != "" && !IsComment(middle)
    ensures ReadLines([first, middle, last], isText, separator) ==
            Ok(middle + if isText then separator else "")
  {
    var lines := [first, middle, last];
    assert lines[..0] == [] && lines[..3] == lines;
    KeptPrefix(lines, 0);
    KeptPrefix(lines, 1);
    KeptPrefix(lines, 2);
    assert Kept(lines) == [middle];
    JoinedSingle(middle, if isText then separator else "");
  }

  /**
   * The ciphertext file, read back without separators as decryption reads
   * it, gives the ciphertext string, and that parses to the value written.
   */
  lemma CiphertextFileRoundTrip(c: int, separator: string)
    ensures ReadLines(CiphertextFileLines(ToDecimal(c)), false, separator) == Ok(ToDecimal(c))
    ensures ParseDecimal(ReadLines(CiphertextFileLines(ToDecimal(c)), false, separator).value) == Ok(c)
    ensures IsLineSeparator(separator) ==>
              SplitLines(Joined(CiphertextFileLines(ToDecimal(c)), separator), "") == CiphertextFileLines(ToDecimal(c))
  {
    var s := ToDecimal(c);
    if IsLineSeparator(separator) {
      DecimalIsSingleLine(c);
      HeaderLines();
      ReadBackWritten(CiphertextFileLines(s), separator);
    }
    ToDecimalIsCanonical(c);
    assert s[0] != '#';
    ReadFramed("#START OF CIPHERTEXT", s, "#END OF CIPHERTEXT", false, separator);
    assert s + "" == s;
    DecimalRoundTrip(c);
  }

  /**
   * The plaintext file, read back as text, gives the plaintext followed by one
   * line separator, provided the plaintext is one non-empty line that does
   * not start with '#'; and readLine does return the three lines toFile
   * wrote.
   */
  lemma PlaintextFileRoundTrip(text: string, separator: string)
    requires text != "" && !IsComment(text) && IsSingleLine(text)
    ensures ReadLines(PlaintextFileLines(text), true, separator) == Ok(text + separator)
    ensures IsLineSeparator(separator) ==>
              SplitLines(Joined(PlaintextFileLines(text), separator), "") == PlaintextFileLines(text)
  {
    ReadFramed("#START OF PLAINTEXT", text, "#END OF PLAINTEXT", true, separator);
    if IsLineSeparator(separator) {
      HeaderLines();
      ReadBackWritten(PlaintextFileLines(text), separator);
    }
  }

  /** The fixed comment lines of the ciphertext and plaintext files hold no line break. */
  lemma HeaderLines()
    ensures IsSingleLine("#START OF CIPHERTEXT") && IsSingleLine("#END OF CIPHERTEXT")
    ensures IsSingleLine("#START OF PLAINTEXT") && IsSingleLine("#END OF PLAINTEXT")
  {
  }

  /** The decimal text of a value is a single line. */
  lemma DecimalIsSingleLine(x: int)
    ensures IsSingleLine(ToDecimal(x))
  {
    var s := ToDecimal(x);
    forall i | 0 <= i < |s|
      ensures !IsLineBreak(s[i])
    {
      if x < 0 && i > 0 {
        assert s[i] == s[1..][i - 1];
      }
    }
  }

  /**
   * Text read for encryption ends with the line separator, so when such a
   * text comes back out of decryption and the plaintext file is written with
   * println, the file holds an empty line, and reading it again with
   * fileToString fails on charAt(0). The lines of plaintextFile are the
   * lines readLine returned, so none holds a line break.
   */
  lemma DecryptedPlaintextDoesNotReadBack(plaintextFile: seq<string>, separator: string)
    requires IsLineSeparator(separator)
    requires forall i :: 0 <= i < |plaintextFile| ==> IsSingleLine(plaintextFile[i])
    requires ReadLines(plaintextFile, true, separator).Ok? && Kept(plaintextFile) != []
    ensures var text := ReadLines(plaintextFile, true, separator).value;
      |text| >= |separator| && text[|text| - |separator|..] == separator &&
      ReadLines(SplitLines(Joined(PlaintextFileLines(text), separator), ""), true, separator) ==
        Err(StringIndexOutOfBounds)
  {
    var ks := Kept(plaintextFile);
    var text := Joined(ks, separator);
    JoinedEndsWithTerminator(ks, separator);
    var written := [PlaintextFileLines(text)[0]] + ks + [""] + [PlaintextFileLines(text)[2]];
    JoinedPlaintext(ks, separator);
    KeptExactly(plaintextFile);
    HeaderLines();
    forall i | 0 <= i < |written|
      ensures IsSingleLine(written[i])
    {
      if 0 < i <= |ks| {
        assert written[i] == ks[i - 1] && ks[i - 1] in plaintextFile;
      }
    }
    ReadBackWritten(written, separator);
    assert written[|ks| + 1] == "";
  }

  /** Joining a non-empty list of lines leaves the terminator at the end. */
  lemma JoinedEndsWithTerminator(lines: seq<string>, terminator: string)
    requires lines != []
    ensures var s := Joined(lines, terminator);
      |s| >= |terminator| && s[|s| - |terminator|..] == terminator
  {
    var x := Joined(lines[..|lines| - 1], terminator) + lines[|lines| - 1];
    assert Joined(lines, terminator) == x + terminator;
    assert (x + terminator)[|x|..] == terminator;
  }

  /**
   * Written line by line, a plaintext file whose text is the joined list ks
   * is the same text as the list with ks spread over lines of its own,
   * followed by one empty line.
   */
  lemma JoinedPlaintext(ks: seq<string>, separator: string)
    ensures var lines := PlaintextFileLines(Joined(ks, separator));
      Joined(lines, separator) == Joined([lines[0]] + ks + [""] + [lines[2]], separator)
  {
    var text := Joined(ks, separator);
    var a, b := "#START OF PLAINTEXT", "#END OF PLAINTEXT";
    JoinedAppend([a] + ks + [""], [b], separator);
    JoinedAppend([a] + ks, [""], separator);
    JoinedAppend([a], ks, separator);
    JoinedSingle(a, separator);
    JoinedSingle("", separator);
    JoinedSingle(b, separator);
    assert [a, text, b] == [a, text] + [b] && [a, text] == [a] + [text];
    JoinedAppend([a, text], [b], separator);
    JoinedAppend([a], [text], separator);
    JoinedSingle(text, separator);
  }

  /**
   * An eight-line layout whose lines 2, 4 and 6 (from 0) are the only
   * non-comment lines keeps exactly those three.
   */
  lemma KeptKeyLayout(lines: seq<string>)
    requires |lines| == 8
    requires IsComment(lines[0]) && IsComment(lines[1]) && IsComment(lines[3])
    requires IsComment(lines[5]) && IsComment(lines[7])
    requires !IsComment(lines[2]) && !IsComment(lines[4]) && !IsComment(lines[6])
    ensures Kept(lines) == [lines[2], lines[4], lines[6]]
  {
    assert lines[..0] == [] && lines[..8] == lines;
    KeptPrefix(lines, 0);
    KeptPrefix(lines, 1);
    KeptPrefix(lines, 2);
    assert Kept(lines[..3]) == [lines[2]];
    KeptPrefix(lines, 3);
    KeptPrefix(lines, 4);
    assert Kept(lines[..5]) == [lines[2], lines[4]];
    KeptPrefix(lines, 5);
    KeptPrefix(lines, 6);
    assert Kept(lines[..7]) == [lines[2], lines[4], lines[6]];
    KeptPrefix(lines, 7);
  }

  /** Of the key file only the three keys, in order, survive the comment filter. */
  lemma KeyFileKept(bits: int, keys: seq<string>)
    requires |keys| == 3
    requires forall i :: 0 <= i < 3 ==> !IsComment(keys[i])
    ensures Kept(KeyFileLines(bits, keys)) == keys
  {
    var lines := KeyFileLines(bits, keys);
    assert lines[0][0] == '#' && lines[7][0] == '#';
    KeptKeyLayout(lines);
  }

  /**
   * Read without separators, if the reader were given the key file, it would
   * run the three keys together into one string.
   */
  lemma KeyFileRead(bits: int, keys: seq<string>, separator: string)
    requires |keys| == 3
    requires forall i :: 0 <= i < 3 ==> keys[i] != "" && !IsComment(keys[i])
    ensures ReadLines(KeyFileLines(bits, keys), false, separator) == Ok(keys[0] + keys[1] + keys[2])
  {
    var lines := KeyFileLines(bits, keys);
    KeyFileKept(bits, keys);
    assert forall i :: 0 <= i < |lines| ==> lines[i] != "" by {
      assert lines[0][0] == '#' && lines[1][0] == '#' && lines[3][0] == '#';
      assert lines[5][0] == '#' && lines[7][0] == '#';
    }
    var a, b, c := keys[0], keys[1], keys[2];
    assert keys == [a, b] + [c];
    assert [a, b] == [a] + [b];
    JoinedAppend([a, b], [c], "");
    JoinedAppend([a], [b], "");
    JoinedSingle(a, "");
    JoinedSingle(b, "");
    JoinedSingle(c, "");
    assert a + "" == a && b + "" == b && c + "" == c;
  }

  /** A key written by toString() is a line the reader keeps. */
  lemma DecimalIsKept(x: int)
    ensures ToDecimal(x) != "" && !IsComment(ToDecimal(x))
  {
    ToDecimalIsCanonical(x);
  }

  // ---------------------------------------------------------------------------
  // The tool end to end

  /**
   * Generate, encrypt, decrypt: with distinct primes and an exponent that
   * key generation accepts, encrypting a plaintext file whose text encodes to
   * a non-empty byte string and decrypting the ciphertext file it produces
   * writes the plaintext file of the shortest encoding of the message value
   * modulo n; that is the encoded text itself whenever it is a shortest
   * encoding of a value below n.
   */
  lemma GenerateEncryptDecrypt(p: int, q: int, e: int, plaintextFile: seq<string>, separator: string,
                               encode: string -> seq<byte>, decode: seq<byte> -> string)
    requires IsPrime(p) && IsPrime(q) && p != q && IsPrime(e)
    requires KeyGenOutcome(false, p, q, e).Ok?
    requires ReadLines(plaintextFile, true, separator).Ok?
    requires |encode(ReadLines(plaintextFile, true, separator).value)| > 0
    ensures var keys := KeyGenOutcome(false, p, q, e).value;
      var msg := encode(ReadLines(plaintextFile, true, separator).value);
      var m := FromByteArray(msg).value;
      var ciphertextFile := EncryptCommand(keys[0], keys[1], plaintextFile, separator, encode);
      ciphertextFile.Ok? &&
      DecryptCommand(keys[0], keys[2], ciphertextFile.value, separator, decode) ==
        Ok(PlaintextFileLines(decode(ToByteArray(m % (p * q))))) &&
      (IsMinimal(msg) && 0 <= m < p * q ==>
        DecryptCommand(keys[0], keys[2], ciphertextFile.value, separator, decode) ==
          Ok(PlaintextFileLines(decode(msg))))
  {
    var keys := KeyGenOutcome(false, p, q, e).value;
    KeyGenKeys(p, q, e);
    KeyGenInverse(p, q, e);
    var d := ParseDecimal(keys[2]).value;
    var msg := encode(ReadLines(plaintextFile, true, separator).value);
    CipherRoundTrip(p, q, e, d, msg);
    var c := ParseDecimal(Encrypt(p * q, e, msg).value).value;
    assert ToDecimal(c) == Encrypt(p * q, e, msg).value by {
      DecimalCanonical(Encrypt(p * q, e, msg).value);
    }
    CiphertextFileRoundTrip(c, separator);
  }
}
