# RSA-Crypto-Tool in Dafny

This project models the core of RSA-Crypto-Tool, the class
`rsasystem.RSAsystem`. Dafny proves that model correct. The tool has three
commands:

- It generates a textbook RSA key pair and writes the modulus `n`, the public
  exponent `e` and the private exponent `d` to a key file, as decimal strings
  between `#` comment lines.
- It encrypts the bytes of a plaintext file as one big integer `m^e mod n`, and
  writes the result to a ciphertext file.
- It decrypts a ciphertext file with `c^d mod n`, and writes the bytes of the
  result to a plaintext file.

The model is split into modules:

- `Outcomes` holds the result type. Each Java exception that the core can raise
  becomes an `Err` value:
  - `NumberFormatException`
  - `ArithmeticException`
  - `NullPointerException`
  - `StringIndexOutOfBoundsException`
- `Arithmetic` holds the exact integer arithmetic: powers, divisibility,
  Euclid's algorithm with Bezout coefficients, primes and Euclid's lemma.
- `Fermat` proves textbook RSA correct from the ground up. It goes from the
  binomial theorem to Fermat's little theorem, then to the two-prime step.
- `TwosComplement` covers `new BigInteger(byte[])` and `toByteArray()`. Both
  use big-endian two's complement with the top bit as the sign.
- `Decimal` covers `BigInteger.toString()` and `new BigInteger(String)`.
- `Modular` covers `modInverse` and `modPow`, with their documented results
  and exceptions.
- `RsaSystem` holds the class `RSAsystem` with its static flag `pass` and the
  `keyGen` loop. It also holds the cipher primitives `encrpyt` and `decrpyt`,
  the reading loop of `fileToString`, the way `readLine` cuts a file into
  lines, the three file layouts, and the encrypt and decrypt commands of
  `main`.
- `RsaProperties` holds the properties that several operations share:
  - the keys that key generation derives;
  - the life cycle of `pass`;
  - the cipher round trip and where it stops working;
  - the comment filter against the file layouts;
  - what `println` writes against what `readLine` reads back;
  - generate, then encrypt, then decrypt, end to end.

## Behaviour of the code worth knowing

- **Byte conversion.** `new BigInteger(byte[])` (line 80) reads the message
  bytes as a signed two's-complement integer. A message whose first byte is
  0x80 or above is therefore a negative `m`, and it does not come back from
  decryption (`RsaProperties.CipherRoundTrip`).
- **The acceptance flag.** `pass` (line 41) is static, `keyGen` sets it, and
  nothing resets it. A second key generation in the same run draws no
  exponent and throws a `NullPointerException` (`RsaProperties.KeyGenTwice`).
- **The exponent test.** Line 62 compares two `BigInteger` references with
  `!=`, and the right operand is a new object, so every candidate is
  accepted. The first exponent drawn is always taken. When it divides the
  totient, `modInverse` throws an `ArithmeticException`
  (`RsaProperties.ExponentInvertible`, `RsaProperties.KeyGenKeys`).
- **Plaintext read for encryption.** `fileToString(…, true)` (lines 134-137)
  ends every kept line with the line separator, so the text it returns ends
  with one. When decryption gives that text back, `println` (line 105) writes
  it followed by a second separator. That leaves an empty line in the
  plaintext file, and reading the file again throws at `charAt(0)` (line 131)
  (`RsaProperties.DecryptedPlaintextDoesNotReadBack`).

Bytes are the octets 0..255: Java's signed byte `b` stands for `b mod 256`.
The following are parameters of the model:

- The primes that `BigInteger.probablePrime` returns: `p` and `q`, and a stream
  of 8-bit candidates for `e`.
- The platform line separator.
- The platform charset, as an `encode` function and a `decode` function.
- The lines that `readLine` returns, or the text of the file, which
  `RsaSystem.SplitLines` cuts into those lines.

## Model

| member | source | states |
|---|---|---|
| RsaSystem.ExponentTest | src/rsasystem/RSAsystem.java:62 | the exponent test compares object identities against a freshly allocated zero, so it accepts every candidate e |
| RsaSystem.RSAsystem.constructor | src/rsasystem/RSAsystem.java:41 | the static flag `pass` starts out false |
| RsaSystem.RSAsystem.KeyGen | src/rsasystem/RSAsystem.java:50-71 | `pass` is set afterwards and never reset; the first call draws exactly one candidate and returns the decimal strings of p*q, e and e.modInverse((p-1)(q-1)), or modInverse's exception; a call made with `pass` already set draws nothing and fails with a NullPointerException |
| RsaProperties.KeyGenTwice | src/rsasystem/RSAsystem.java:60-67 | on a fresh system the first keyGen returns its keys and the second fails with a NullPointerException, whatever candidates it is given |
| RsaProperties.ExponentInvertible | src/rsasystem/RSAsystem.java:62-67 | a prime e has an inverse modulo the totient if and only if the totient mod e is not 0, which is the test line 62 was meant to make |
| RsaProperties.KeyGenKeys | src/rsasystem/RSAsystem.java:55-68 | the first key generation succeeds if and only if the totient mod e is not 0, and otherwise fails with an ArithmeticException; on success there are three strings that parse back to n = p*q, to e and to a d with 0 <= d < totient and e*d = 1 modulo the totient, and each is in toString's canonical spelling without leading zeros |
| RsaProperties.KeyGenInverse | src/rsasystem/RSAsystem.java:67 | for distinct primes the private exponent is non-negative and (e*d) % totient == 1 exactly |
| RsaProperties.ModulusWidth | src/rsasystem/RSAsystem.java:52-55 | for two h-bit primes, n = p*q has 2h-1 or 2h bits |
| Modular.ModInverse | src/rsasystem/RSAsystem.java:67 | modInverse returns a residue in [0, m) that is an inverse of a modulo m |
| Modular.ModInverseFails | src/rsasystem/RSAsystem.java:67 | when modInverse throws, no inverse exists |
| Modular.ModInverseUnique | src/rsasystem/RSAsystem.java:67 | whenever an inverse d in [0, m) exists, modInverse returns exactly d |
| Modular.ModInverseSucceeds | src/rsasystem/RSAsystem.java:67 | modInverse succeeds if and only if an inverse exists |
| Modular.ModPow | src/rsasystem/RSAsystem.java:80 | modPow returns a residue in [0, m); for a negative exponent that residue is the inverse of b^(-e) |
| Modular.ModPowFails | src/rsasystem/RSAsystem.java:90 | modPow throws if and only if m <= 0, or the exponent is negative and b^(-e) has no inverse modulo m |
| RsaSystem.Encrypt | src/rsasystem/RSAsystem.java:79-81 | the ciphertext string parses back to a value in [0, pubKey) and is canonical; empty message bytes fail with a NumberFormatException, and otherwise pubKey <= 0 fails with an ArithmeticException; for a non-negative exponent those are the only failures |
| RsaSystem.Decrypt | src/rsasystem/RSAsystem.java:89-91 | the plaintext bytes are a shortest two's-complement encoding whose first byte has its top bit clear; pubKey <= 0 fails with an ArithmeticException, and for a non-negative private exponent that is the only failure |
| Fermat.RsaCorrect | src/rsasystem/RSAsystem.java:79-91 | for distinct primes p, q and e*d = 1 modulo (p-1)(q-1), (m^e mod n)^d mod n == m for every 0 <= m < n |
| RsaProperties.CipherRoundTrip | src/rsasystem/RSAsystem.java:79-91 | decrypting the encryption of non-empty message bytes gives the encoding of the message value mod n; the decrypted bytes equal the message if and only if the message is a shortest encoding of a value in [0, n) |
| TwosComplement.FromByteArray | src/rsasystem/RSAsystem.java:80 | new BigInteger(byte[]) fails with a NumberFormatException if and only if the array is empty; otherwise the value of k bytes lies in [-128*256^(k-1), 128*256^(k-1)) and is negative if and only if the top bit of the first byte is set |
| TwosComplement.SignedIsTwosComplement | src/rsasystem/RSAsystem.java:80 | the value of a byte array is its byte-by-byte big-endian value with the first byte taken as signed |
| TwosComplement.ByteArrayRoundTrip | src/rsasystem/RSAsystem.java:79-91 | converting the bytes that toByteArray writes back into an integer gives the original value |
| TwosComplement.ToByteArray | src/rsasystem/RSAsystem.java:90 | toByteArray writes at least one byte, and the first byte has its top bit clear if and only if the value is non-negative |
| TwosComplement.ToByteArrayIsMinimal | src/rsasystem/RSAsystem.java:90 | toByteArray writes a non-empty shortest encoding with no redundant 0x00 or 0xFF leading byte |
| TwosComplement.ByteArrayCanonical | src/rsasystem/RSAsystem.java:79-91 | bytes, converted to an integer and back, come back unchanged if and only if they are a shortest encoding |
| Decimal.ToDecimal | src/rsasystem/RSAsystem.java:68 | toString() writes a non-empty string that starts with '-' if and only if the value is negative, with only digits after that sign |
| Decimal.ParseDecimal | src/rsasystem/RSAsystem.java:208 | new BigInteger(String), for the keys at lines 208, 211, 229 and 232 and the ciphertext at line 238: it throws only NumberFormatException; the empty string and a lone sign fail; what parses is one optional sign then digits, and a negative result has a leading '-' |
| Decimal.DecimalRoundTrip | src/rsasystem/RSAsystem.java:68 | new BigInteger(String) applied to the output of toString() gives back the same integer |
| Decimal.ToDecimalIsCanonical | src/rsasystem/RSAsystem.java:68 | toString() writes "0", or a leading digit 1-9 with an optional '-', and only digits after that |
| Decimal.DecimalCanonical | src/rsasystem/RSAsystem.java:208 | a string that parses comes back from parse-then-toString unchanged if and only if it is canonical |
| RsaSystem.FileToString | src/rsasystem/RSAsystem.java:130-141 | the reading loop returns the non-comment lines in order, each followed by the separator when isText; when a line is empty it throws a StringIndexOutOfBoundsException instead |
| RsaSystem.KeyFileLines | src/rsasystem/RSAsystem.java:194-198 | the key file has eight lines: n, e and d at positions 2, 4 and 6, and a comment at every other position |
| RsaSystem.CiphertextFileLines | src/rsasystem/RSAsystem.java:219-220 | the ciphertext file has three lines: a comment, the ciphertext, a comment |
| RsaSystem.PlaintextFileLines | src/rsasystem/RSAsystem.java:239-240 | the plaintext file has three lines: a comment, the plaintext, a comment |
| RsaSystem.EncryptCommand | src/rsasystem/RSAsystem.java:206-221 | a public key or exponent that does not parse fails with a NumberFormatException; on success the ciphertext file is the three-line layout around a canonical ciphertext that parses to a value in [0, n) |
| RsaSystem.DecryptCommand | src/rsasystem/RSAsystem.java:227-241 | a public or private key that does not parse fails with a NumberFormatException; with both parsed, an empty line in the ciphertext file fails with a StringIndexOutOfBoundsException; on success the plaintext file is the layout around the decoding of a shortest two's-complement encoding with a clear top bit |
| RsaSystem.SplitLines | src/rsasystem/RSAsystem.java:128-139 | the lines the readLine calls return, cut at every '\n', '\r' or "\r\n"; none of them holds a line break |
| RsaProperties.ReadBackWritten | src/rsasystem/RSAsystem.java:104-105 | readLine gives back the array that println wrote line by line if and only if no element of the array contains a line break |
| RsaProperties.KeptAppend | src/rsasystem/RSAsystem.java:130-140 | filtering a concatenation of lines gives the concatenation of the filtered parts |
| RsaProperties.KeptExactly | src/rsasystem/RSAsystem.java:130-140 | a line is in the filtered output if and only if it is in the input and is not a comment |
| RsaProperties.JoinedAppend | src/rsasystem/RSAsystem.java:132-137 | appending each line with its terminator distributes over concatenation |
| RsaProperties.ReadFramed | src/rsasystem/RSAsystem.java:130-140 | a file of a comment, one non-empty non-comment line and a comment reads as that line, followed by the separator when isText |
| RsaProperties.DecimalIsKept | src/rsasystem/RSAsystem.java:131 | a key or ciphertext written by toString() is a non-empty line that the reader keeps |
| RsaProperties.CiphertextFileRoundTrip | src/rsasystem/RSAsystem.java:219-238 | the ciphertext file, read without separators, gives back the ciphertext string, and that string parses to the value written; readLine gives back exactly the three lines println wrote |
| RsaProperties.PlaintextFileRoundTrip | src/rsasystem/RSAsystem.java:239-240 | a plaintext of one non-empty line with no line break that does not start with '#' is written as three lines that readLine returns unchanged; read as text, the file gives the plaintext followed by one line separator |
| RsaProperties.DecryptedPlaintextDoesNotReadBack | src/rsasystem/RSAsystem.java:131-137 | text read for encryption ends with the line separator; written back as a plaintext file and read again, it fails with a StringIndexOutOfBoundsException because of the empty line the extra separator makes |
| RsaProperties.KeptKeyLayout | src/rsasystem/RSAsystem.java:194-198 | the only lines of the key-file layout that survive the comment filter are lines 2, 4 and 6 |
| RsaProperties.KeyFileKept | src/rsasystem/RSAsystem.java:194-198 | only the three keys of the key file, in order, survive the comment filter |
| RsaProperties.KeyFileRead | src/rsasystem/RSAsystem.java:194-198 | read without separators, the key file runs n, e and d together into one string |
| RsaProperties.GenerateEncryptDecrypt | src/rsasystem/RSAsystem.java:193-241 | generate, then encrypt, then decrypt: the key strings of a successful key generation encrypt the plaintext file; decrypting the resulting ciphertext file writes the plaintext file of the message value mod n, which is the encoded text itself whenever that is a shortest encoding of a value below n |

## Left out

- Randomness. `BigInteger.probablePrime` and the `Random` source (lines 40, 52, 53 and 61) are left out. The primes p and q and the stream of exponent candidates are inputs, and are assumed to be truly prime.
- RsaSystem.RSAsystem.KeyGen: the parameter `bits` is not modelled. It only sets the bit length of p and q; `RsaProperties.ModulusWidth` states what that bit length gives n.
- RsaSystem.RSAsystem.KeyGen: the candidates are required to be primes in [128, 256), which is what `probablePrime(8, rng)` returns apart from its small error probability.
- RsaSystem.Encrypt: the ensures characterises failure only for a non-negative exponent. Failure for a negative exponent is the one `Modular.ModPowFails` states.
- RsaSystem.Decrypt: the ensures characterises failure only for a non-negative private exponent, for the same reason.
- Charsets. `String.getBytes()` and `new String(byte[])` (lines 80 and 90) depend on the platform charset. They are the `encode` and `decode` parameters of the command functions. Decrypt returns the bytes and leaves their decoding to the caller.
- `new BigInteger(String)` also accepts non-ASCII Unicode decimal digits, through `Character.digit`. `Decimal.ParseDecimal` accepts only ASCII '0' to '9'.
- File I/O:
  - Opening the files, the UTF-8 encoding `PrintWriter` writes with and the
    platform charset `FileReader` reads with, and the caught exceptions of
    `toFile` (lines 97-116) are left out. The text `toFile` writes is
    `RsaSystem.Joined` of its array with the line separator.
  - The caught `FileNotFoundException` and `IOException` that make
    `fileToString` return "" (lines 126, 142-149) are left out. The reader
    takes either the lines `readLine` returns or the file text cut by
    `RsaSystem.SplitLines`.
- RsaProperties.PlaintextFileRoundTrip: it requires a plaintext with no line break. Only then are the lines that readLine returns the array toFile wrote; `RsaProperties.DecryptedPlaintextDoesNotReadBack` states what happens to a plaintext that ends with a separator.
- The interactive menu of `main` (lines 156-252) is left out: the `Scanner` tokenising, the key-size choice and every `println`. It appears only as its file layouts and as the encrypt and decrypt command flows (`EncryptCommand`, `DecryptCommand`).
- Uncaught exceptions end the Java program. In the model they are `Err` values that the later steps pass on.
- The internals of `java.math.BigInteger` are left out. Its operations are defined by their documented results over unbounded integers.
- RsaProperties.CipherRoundTrip: it requires p != q. `probablePrime` can return the same prime twice, and then (p-1)(q-1) is not the totient of n and the round trip is not promised.
