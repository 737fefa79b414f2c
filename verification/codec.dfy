/** The per-line cipher of the vault: every byte of the UTF-8 plaintext is
    combined by exclusive or with the key byte at the same index modulo the key
    length, and the result is written as base64. */
module Codec {
  import opened Wrappers
  import opened Strings
  import Base64

  function Pow2(n: nat): nat {
    if n == 0 then 1 else 2 * Pow2(n - 1)
  }

  /** Bitwise exclusive or of the n low bits of two naturals, least significant bit first. */
  function XorBits(a: nat, b: nat, n: nat): (r: nat)
    ensures r < Pow2(n)
  {
    if n == 0 then 0 else (a % 2 + b % 2) % 2 + 2 * XorBits(a / 2, b / 2, n - 1)
  }

  /** A low bit and the higher bits of a natural are recovered by halving. */
  lemma HalveBits(bit: nat, h: nat)
    requires bit < 2
    ensures (bit + 2 * h) / 2 == h && (bit + 2 * h) % 2 == bit
  {
  }

  /** Halving a natural below 2^n leaves one below 2^(n-1). */
  lemma HalfBelow(a: nat, n: nat)
    requires n > 0 && a < Pow2(n)
    ensures a / 2 < Pow2(n - 1)
  {
  }

  /** One bit combined twice with the same bit is itself. */
  lemma BitTwice(p: nat, q: nat)
    requires p < 2 && q < 2
    ensures ((p + q) % 2 + q) % 2 == p
  {
  }

  /** One step of XorBits: the low bit, then the rest shifted right. */
  lemma XorBitsStep(a: nat, b: nat, n: nat)
    requires n > 0
    ensures XorBits(a, b, n) == (a % 2 + b % 2) % 2 + 2 * XorBits(a / 2, b / 2, n - 1)
  {
  }

  /** The inductive step of XorBitsTwice, for a first combination `x` whose
      low bit and higher bits are known. */
  lemma XorBitsTwiceStep(a: nat, b: nat, n: nat, x: nat, h: nat)
    requires n > 0
    requires x == (a % 2 + b % 2) % 2 + 2 * h
    requires XorBits(h, b / 2, n - 1) == a / 2
    ensures XorBits(x, b, n) == a
  {
    var bit := (a % 2 + b % 2) % 2;
    HalveBits(bit, h);
    BitTwice(a % 2, b % 2);
    XorBitsStep(x, b, n);
  }

  /** Combining twice with the same value gives back an n-bit original. */
  lemma {:induction false} XorBitsTwice(a: nat, b: nat, n: nat)
    requires a < Pow2(n)
    ensures XorBits(XorBits(a, b, n), b, n) == a
  {
    if n > 0 {
      HalfBelow(a, n);
      XorBitsTwice(a / 2, b / 2, n - 1);
      XorBitsStep(a, b, n);
      XorBitsTwiceStep(a, b, n, XorBits(a, b, n), XorBits(a / 2, b / 2, n - 1));
    }
  }

  /** Different second operands give different results: a byte can be
      recovered from its combination with a known value. */
  lemma {:induction false} XorBitsCancel(x: nat, a: nat, b: nat, n: nat)
    requires a < Pow2(n) && b < Pow2(n)
    requires XorBits(x, a, n) == XorBits(x, b, n)
    ensures a == b
  {
    if n > 0 {
      var ra, rb := XorBits(x / 2, a / 2, n - 1), XorBits(x / 2, b / 2, n - 1);
      var bita, bitb := (x % 2 + a % 2) % 2, (x % 2 + b % 2) % 2;
      assert bita + 2 * ra == bitb + 2 * rb;
      HalveBits(bita, ra);
      HalveBits(bitb, rb);
      assert ra == rb && a % 2 == b % 2;
      XorBitsCancel(x / 2, a / 2, b / 2, n - 1);
      assert a == 2 * (a / 2) + a % 2 && b == 2 * (b / 2) + b % 2;
    }
  }

  /** The C# `^` on two bytes. */
  function XorByte(a: byte, k: byte): byte {
    XorBits(a as nat, k as nat, 8) as byte
  }

  /** Byte i of the keystream: the key repeated without end. */
  function KeyByte(key: Text, i: nat): byte
    requires |key| > 0
  {
    key[i % |key|]
  }

  /** The keystream applied to a buffer: byte i is combined with KeyByte(key, i). */
  function Xor(data: Text, key: Text): (r: Text)
    requires |key| > 0
    ensures |r| == |data|
  {
    seq(|data|, i requires 0 <= i < |data| => XorByte(data[i], KeyByte(key, i)))
  }

  /** Applying the keystream twice restores the buffer. */
  lemma XorTwice(data: Text, key: Text)
    requires |key| > 0
    ensures Xor(Xor(data, key), key) == data
  {
    forall i | 0 <= i < |data|
      ensures Xor(Xor(data, key), key)[i] == data[i]
    {
      XorBitsTwice(data[i] as nat, KeyByte(key, i) as nat, 8);
    }
  }

  /** Encrypt (Program.cs): the line written to the file for a plaintext. */
  function EncryptLine(plain: Text, key: Text): string
    requires |key| > 0
  {
    Base64.Encode(Xor(plain, key))
  }

  /** Decrypt (Program.cs): the plaintext of a line, or None where
      Convert.FromBase64String throws. */
  function DecryptLine(line: string, key: Text): Option<Text>
    requires |key| > 0
  {
    match Base64.Decode(line)
    case None => None
    case Some(data) => Some(Xor(data, key))
  }

  /** Decrypting with the key that encrypted gives back the plaintext. */
  lemma DecryptEncrypt(plain: Text, key: Text)
    requires |key| > 0
    ensures DecryptLine(EncryptLine(plain, key), key) == Some(plain)
  {
    Base64.DecodeEncode(Xor(plain, key));
    XorTwice(plain, key);
  }

  /** The line of a non-empty plaintext is never blank, so a load does not skip it. */
  lemma EncryptedLineNotBlank(plain: Text, key: Text)
    requires |key| > 0 && |plain| > 0
    ensures !IsBlank(EncryptLine(plain, key))
  {
    Base64.EncodeStartsWithDigit(Xor(plain, key));
    assert !IsWhiteSpace(EncryptLine(plain, key)[0]);
  }

  /** A line written with one key decrypts to its plaintext under another
      exactly when the two keystreams agree on the plaintext's length. */
  lemma {:induction false} DecryptOtherKey(plain: Text, k1: Text, k2: Text)
    requires |k1| > 0 && |k2| > 0
    ensures DecryptLine(EncryptLine(plain, k1), k2) == Some(plain) <==>
      forall i :: 0 <= i < |plain| ==> KeyByte(k1, i) == KeyByte(k2, i)
  {
    var cipher := Xor(plain, k1);
    Base64.DecodeEncode(cipher);
    assert DecryptLine(EncryptLine(plain, k1), k2) == Some(Xor(cipher, k2));
    XorTwice(plain, k1);
    if forall i :: 0 <= i < |plain| ==> KeyByte(k1, i) == KeyByte(k2, i) {
      assert Xor(cipher, k2) == Xor(cipher, k1);
    }
    if Xor(cipher, k2) == plain {
      forall i | 0 <= i < |plain|
        ensures KeyByte(k1, i) == KeyByte(k2, i)
      {
        var c := cipher[i] as nat;
        XorBitsTwice(plain[i] as nat, KeyByte(k1, i) as nat, 8);
        assert XorBits(c, KeyByte(k1, i) as nat, 8) == XorBits(c, KeyByte(k2, i) as nat, 8);
        XorBitsCancel(c, KeyByte(k1, i) as nat, KeyByte(k2, i) as nat, 8);
      }
    }
  }
}
