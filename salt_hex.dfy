/** `generateSalt` (backend/routes/users.js:10-12): sixteen random bytes from
    `crypto.randomBytes`, rendered by Node's `toString('hex')` as two
    lower-case hexadecimal digits per byte, high nibble first. The random
    source itself is a parameter: the bytes are whatever it produced. */
module SaltHex {

  type Byte = x: int | 0 <= x < 256

  /** The argument of `crypto.randomBytes`. */
  const SaltByteCount: nat := 16

  predicate IsLowerHexDigit(c: char)
  {
    '0' <= c <= '9' || 'a' <= c <= 'f'
  }

  /** The digit Node writes for a nibble. */
  function HexDigit(n: int): (c: char)
    requires 0 <= n < 16
    ensures IsLowerHexDigit(c)
  {
    if n < 10 then (48 + n) as char else (87 + n) as char
  }

  /** Distinct nibbles get distinct digits. */
  lemma HexDigitInjective(m: int, n: int)
    requires 0 <= m < 16 && 0 <= n < 16 && HexDigit(m) == HexDigit(n)
    ensures m == n
  {
  }

  /** `Buffer.toString('hex')`. */
  function HexEncode(bytes: seq<Byte>): (hex: string)
    ensures |hex| == 2 * |bytes|
    ensures forall i :: 0 <= i < |hex| ==> IsLowerHexDigit(hex[i])
  {
    if bytes == [] then ""
    else [HexDigit(bytes[0] / 16), HexDigit(bytes[0] % 16)] + HexEncode(bytes[1..])
  }

  /** Two byte strings with the same hex rendering are the same bytes. */
  lemma {:induction false} HexEncodeInjective(a: seq<Byte>, b: seq<Byte>)
    requires HexEncode(a) == HexEncode(b)
    ensures a == b
  {
    if a != [] {
      assert b != [];
      var ha, hb := HexEncode(a), HexEncode(b);
      assert HexDigit(a[0] / 16) == ha[0] == hb[0] == HexDigit(b[0] / 16);
      assert HexDigit(a[0] % 16) == ha[1] == hb[1] == HexDigit(b[0] % 16);
      HexDigitInjective(a[0] / 16, b[0] / 16);
      HexDigitInjective(a[0] % 16, b[0] % 16);
      assert a[0] == b[0];
      assert HexEncode(a[1..]) == ha[2..] == hb[2..] == HexEncode(b[1..]);
      HexEncodeInjective(a[1..], b[1..]);
    }
  }

  /** `generateSalt()` given the bytes the random source returned: a
      32-character lower-case hex string, never empty, so a record carrying
      it is on the salted path; distinct random bytes give distinct salts. */
  function GenerateSalt(random: seq<Byte>): (salt: string)
    requires |random| == SaltByteCount
    ensures |salt| == 2 * SaltByteCount && salt != ""
    ensures forall i :: 0 <= i < |salt| ==> IsLowerHexDigit(salt[i])
  {
    HexEncode(random)
  }

  lemma DistinctBytesGiveDistinctSalts(a: seq<Byte>, b: seq<Byte>)
    requires |a| == SaltByteCount && |b| == SaltByteCount && a != b
    ensures GenerateSalt(a) != GenerateSalt(b)
  {
    if GenerateSalt(a) == GenerateSalt(b) {
      HexEncodeInjective(a, b);
    }
  }
}
