/** A stand-in for the `bcrypt` library: `hash(password, 10)` and `compare(password, hash)`.
    bcrypt keys its cipher with the UTF-8 bytes of the password and uses at most the first 72
    of them. A stored hash records the random salt it was made with and a digest of that key;
    the digest here is the key itself, so the model says nothing about one-wayness or cost,
    only which passwords `compare` accepts for a hash. */
module Bcrypt {

  type byte = bv8

  /** The number of rounds both applications pass to `bcrypt.hash`. */
  const SaltRounds: nat := 10

  /** The most password bytes bcrypt uses. */
  const MaxKeyBytes: nat := 72

  datatype PasswordHash = PasswordHash(rounds: nat, salt: nat, digest: seq<byte>)

  /** The UTF-8 encoding of one character. */
  function Utf8Char(c: char): (bytes: seq<byte>)
    ensures 1 <= |bytes| <= 4
  {
    var n := c as int;
    if n < 0x80 then [n as byte]
    else if n < 0x800 then [(0xC0 + n / 0x40) as byte, (0x80 + n % 0x40) as byte]
    else if n < 0x1_0000 then
      [(0xE0 + n / 0x1000) as byte, (0x80 + n / 0x40 % 0x40) as byte, (0x80 + n % 0x40) as byte]
    else
      [(0xF0 + n / 0x4_0000) as byte, (0x80 + n / 0x1000 % 0x40) as byte,
       (0x80 + n / 0x40 % 0x40) as byte, (0x80 + n % 0x40) as byte]
  }

  /** The UTF-8 encoding of a string: at least one byte per character. */
  function Utf8(s: string): (bytes: seq<byte>)
    ensures |bytes| >= |s|
  {
    if s == [] then [] else Utf8Char(s[0]) + Utf8(s[1..])
  }

  /** The bytes of the password that the hash depends on. */
  function Key(password: string): (key: seq<byte>)
    ensures |key| <= MaxKeyBytes && key <= Utf8(password)
    ensures |Utf8(password)| <= MaxKeyBytes ==> key == Utf8(password)
  {
    var bytes := Utf8(password);
    if |bytes| <= MaxKeyBytes then bytes else bytes[..MaxKeyBytes]
  }

  /** `bcrypt.hash(password, SaltRounds)` with the random salt made explicit. */
  function Hash(password: string, salt: nat): PasswordHash {
    PasswordHash(SaltRounds, salt, Key(password))
  }

  /** `bcrypt.compare(password, hash)`: recompute the digest with the stored salt and compare. */
  predicate Compare(password: string, hash: PasswordHash) {
    Hash(password, hash.salt) == hash
  }

  /** A password matches every hash made of it, whatever the salt. */
  lemma CompareHash(password: string, salt: nat)
    ensures Compare(password, Hash(password, salt))
  {
  }

  /** A hash matches exactly the passwords with the same key as the one it was made of. */
  lemma CompareIffSameKey(password: string, other: string, salt: nat)
    ensures Compare(other, Hash(password, salt)) <==> Key(other) == Key(password)
  {
  }

  /** Encoding distributes over concatenation. */
  lemma {:induction false} Utf8Append(s: string, t: string)
    ensures Utf8(s + t) == Utf8(s) + Utf8(t)
  {
    if s == [] {
      assert s + t == t;
    } else {
      assert (s + t)[0] == s[0];
      assert (s + t)[1..] == s[1..] + t;
      Utf8Append(s[1..], t);
    }
  }

  /** Once a password has 72 characters, whatever follows them is ignored: the hash of `p + x`
      accepts `p + y`. */
  lemma LongPasswordsCollide(p: string, x: string, y: string, salt: nat)
    requires |p| >= MaxKeyBytes
    ensures Compare(p + y, Hash(p + x, salt))
  {
    Utf8Append(p, x);
    Utf8Append(p, y);
    var e := Utf8(p);
    assert (e + Utf8(x))[..MaxKeyBytes] == e[..MaxKeyBytes];
    assert (e + Utf8(y))[..MaxKeyBytes] == e[..MaxKeyBytes];
  }
}
