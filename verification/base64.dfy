/** Standard base64 with padding (section 4 of RFC 4648), as used by
    Convert.ToBase64String and Convert.FromBase64String. */
module Base64 {
  import opened Wrappers
  import opened Strings

  /** A value of six bits, the unit of one letter. */
  type sextet = v: int | 0 <= v < 64

  /** The letter of the base64 alphabet for a 6-bit value. */
  function Digit(v: sextet): char {
    if v < 26 then ('A' as int + v) as char
    else if v < 52 then ('a' as int + v - 26) as char
    else if v < 62 then ('0' as int + v - 52) as char
    else if v == 62 then '+' else '/'
  }

  predicate IsDigit(c: char) {
    'A' <= c <= 'Z' || 'a' <= c <= 'z' || '0' <= c <= '9' || c == '+' || c == '/'
  }

  /** The 6-bit value of a letter of the alphabet. */
  function Value(c: char): sextet
    requires IsDigit(c)
  {
    if 'A' <= c <= 'Z' then c as int - 'A' as int
    else if 'a' <= c <= 'z' then c as int - 'a' as int + 26
    else if '0' <= c <= '9' then c as int - '0' as int + 52
    else if c == '+' then 62 else 63
  }

  /** Every 6-bit value has a letter, and Value reads it back. */
  lemma DigitValue(v: sextet)
    ensures IsDigit(Digit(v)) && Value(Digit(v)) == v
  {
  }

  /** Four letters for three bytes: the 24 bits cut into four sextets, most significant first. */
  function EncodeBlock(b0: byte, b1: byte, b2: byte): string {
    [Digit(b0 as int / 4), Digit(b0 as int % 4 * 16 + b1 as int / 16),
     Digit(b1 as int % 16 * 4 + b2 as int / 64), Digit(b2 as int % 64)]
  }

  /** Convert.ToBase64String: three bytes per block of four letters; a last
      block of one or two bytes is padded with '='. */
  function Encode(data: seq<byte>): (s: string)
    ensures |s| == 4 * ((|data| + 2) / 3)
    decreases |data|
  {
    if |data| == 0 then ""
    else if |data| == 1 then
      [Digit(data[0] as int / 4), Digit(data[0] as int % 4 * 16), '=', '=']
    else if |data| == 2 then
      [Digit(data[0] as int / 4), Digit(data[0] as int % 4 * 16 + data[1] as int / 16),
       Digit(data[1] as int % 16 * 4), '=']
    else
      EncodeBlock(data[0], data[1], data[2]) + Encode(data[3..])
  }

  /** Three bytes from four letters, or None when one is not in the alphabet. */
  function DecodeBlock(c0: char, c1: char, c2: char, c3: char): Option<seq<byte>> {
    if IsDigit(c0) && IsDigit(c1) && IsDigit(c2) && IsDigit(c3) then
      var v0, v1, v2, v3 := Value(c0), Value(c1), Value(c2), Value(c3);
      Some([(v0 * 4 + v1 / 16) as byte, (v1 % 16 * 16 + v2 / 4) as byte, (v2 % 4 * 64 + v3) as byte])
    else None
  }

  /** The last block, which may carry one or two '=' of padding; the bits
      below the last byte are ignored. */
  function DecodeLast(c0: char, c1: char, c2: char, c3: char): Option<seq<byte>> {
    if c2 == '=' && c3 == '=' then
      if IsDigit(c0) && IsDigit(c1) then Some([(Value(c0) * 4 + Value(c1) / 16) as byte]) else None
    else if c3 == '=' then
      if IsDigit(c0) && IsDigit(c1) && IsDigit(c2) then
        var v0, v1, v2 := Value(c0), Value(c1), Value(c2);
        Some([(v0 * 4 + v1 / 16) as byte, (v1 % 16 * 16 + v2 / 4) as byte])
      else None
    else DecodeBlock(c0, c1, c2, c3)
  }

  function DecodeBlocks(s: string): Option<seq<byte>>
    requires |s| % 4 == 0
    decreases |s|
  {
    if |s| == 0 then Some([])
    else if |s| == 4 then DecodeLast(s[0], s[1], s[2], s[3])
    else
      match DecodeBlock(s[0], s[1], s[2], s[3])
      case None => None
      case Some(head) =>
        match DecodeBlocks(s[4..])
        case None => None
        case Some(tail) => Some(head + tail)
  }

  /** Convert.FromBase64String: None where .NET throws a FormatException (a
      length that is not a multiple of four, a letter outside the alphabet, or
      '=' anywhere but at the end of the last block). */
  function Decode(s: string): Option<seq<byte>> {
    if |s| % 4 != 0 then None else DecodeBlocks(s)
  }

  /** Four letters of the alphabet decode to the three bytes their sextets spell. */
  lemma DecodeDigits(v0: sextet, v1: sextet, v2: sextet, v3: sextet)
    ensures DecodeBlock(Digit(v0), Digit(v1), Digit(v2), Digit(v3))
      == Some([(v0 * 4 + v1 / 16) as byte, (v1 % 16 * 16 + v2 / 4) as byte, (v2 % 4 * 64 + v3) as byte])
  {
    DigitValue(v0);
    DigitValue(v1);
    DigitValue(v2);
    DigitValue(v3);
  }

  /** The first byte survives being cut into the first two sextets. */
  lemma FirstByte(x0: int, x1: int)
    requires 0 <= x0 < 256 && 0 <= x1 < 256
    ensures x0 / 4 * 4 + (x0 % 4 * 16 + x1 / 16) / 16 == x0
  {
  }

  /** The second byte survives being cut across the second and third sextets. */
  lemma SecondByte(x0: int, x1: int, x2: int)
    requires 0 <= x0 < 256 && 0 <= x1 < 256 && 0 <= x2 < 256
    ensures (x0 % 4 * 16 + x1 / 16) % 16 * 16 + (x1 % 16 * 4 + x2 / 64) / 4 == x1
  {
  }

  /** The third byte survives being cut into the last two sextets. */
  lemma ThirdByte(x1: int, x2: int)
    requires 0 <= x1 < 256 && 0 <= x2 < 256
    ensures (x1 % 16 * 4 + x2 / 64) % 4 * 64 + x2 % 64 == x2
  {
  }

  /** Four letters are decoded as the last block. */
  lemma DecodeOneBlock(s: string)
    requires |s| == 4
    ensures Decode(s) == DecodeLast(s[0], s[1], s[2], s[3])
  {
  }

  /** A block padded with "==" decodes to one byte. */
  lemma DecodePadded2(v0: sextet, v1: sextet)
    ensures DecodeLast(Digit(v0), Digit(v1), '=', '=') == Some([(v0 * 4 + v1 / 16) as byte])
  {
    DigitValue(v0);
    DigitValue(v1);
  }

  /** A block padded with "=" decodes to two bytes. */
  lemma DecodePadded1(v0: sextet, v1: sextet, v2: sextet)
    ensures DecodeLast(Digit(v0), Digit(v1), Digit(v2), '=')
      == Some([(v0 * 4 + v1 / 16) as byte, (v1 % 16 * 16 + v2 / 4) as byte])
  {
    DigitValue(v0);
    DigitValue(v1);
    DigitValue(v2);
  }

  /** The padded block of one byte decodes back to it. */
  lemma Padded2RoundTrip(b0: byte)
    ensures DecodeLast(Digit(b0 as int / 4), Digit(b0 as int % 4 * 16), '=', '=') == Some([b0])
  {
    var x0 := b0 as int;
    DecodePadded2(x0 / 4, x0 % 4 * 16);
    FirstByte(x0, 0);
    assert x0 / 4 * 4 + x0 % 4 * 16 / 16 == x0;
  }

  /** The padded block of two bytes decodes back to them. */
  lemma Padded1RoundTrip(b0: byte, b1: byte)
    ensures DecodeLast(Digit(b0 as int / 4), Digit(b0 as int % 4 * 16 + b1 as int / 16), Digit(b1 as int % 16 * 4), '=')
      == Some([b0, b1])
  {
    var x0, x1 := b0 as int, b1 as int;
    var v0, v1, v2 := x0 / 4, x0 % 4 * 16 + x1 / 16, x1 % 16 * 4;
    DecodePadded1(v0, v1, v2);
    FirstByte(x0, x1);
    SecondByte(x0, x1, 0);
    assert v0 * 4 + v1 / 16 == x0;
    assert v1 % 16 * 16 + v2 / 4 == x1;
  }

  /** The encoding of two bytes: one block padded with a single '='. */
  lemma EncodeTwo(data: seq<byte>)
    requires |data| == 2
    ensures Encode(data) == [Digit(data[0] as int / 4), Digit(data[0] as int % 4 * 16 + data[1] as int / 16),
                             Digit(data[1] as int % 16 * 4), '=']
  {
  }

  /** The encoding of three bytes: one full block. */
  lemma EncodeThree(data: seq<byte>)
    requires |data| == 3
    ensures Encode(data) == EncodeBlock(data[0], data[1], data[2])
  {
    assert Encode(data[3..]) == "";
  }

  /** A last block of one byte decodes back to that byte. */
  lemma OneByteRoundTrip(data: seq<byte>)
    requires |data| == 1
    ensures Decode(Encode(data)) == Some(data)
  {
    var s := Encode(data);
    assert s == [Digit(data[0] as int / 4), Digit(data[0] as int % 4 * 16), '=', '='];
    DecodeOneBlock(s);
    Padded2RoundTrip(data[0]);
    assert data == [data[0]];
  }

  /** A last block of two bytes decodes back to those bytes. */
  lemma TwoByteRoundTrip(data: seq<byte>)
    requires |data| == 2
    ensures Decode(Encode(data)) == Some(data)
  {
    var s := Encode(data);
    EncodeTwo(data);
    DecodeOneBlock(s);
    Padded1RoundTrip(data[0], data[1]);
    assert data == [data[0], data[1]];
  }

  /** A full block decodes back to its three bytes. */
  lemma BlockRoundTrip(b0: byte, b1: byte, b2: byte)
    ensures var s := EncodeBlock(b0, b1, b2);
      DecodeBlock(s[0], s[1], s[2], s[3]) == Some([b0, b1, b2]) &&
      DecodeLast(s[0], s[1], s[2], s[3]) == Some([b0, b1, b2])
  {
    var x0, x1, x2 := b0 as int, b1 as int, b2 as int;
    var v0, v1, v2, v3 := x0 / 4, x0 % 4 * 16 + x1 / 16, x1 % 16 * 4 + x2 / 64, x2 % 64;
    DecodeDigits(v0, v1, v2, v3);
    FirstByte(x0, x1);
    SecondByte(x0, x1, x2);
    ThirdByte(x1, x2);
    DigitValue(v3);
  }

  /** A full block in front of further blocks contributes its three bytes. */
  lemma DecodeCons(block: string, rest: string, head: seq<byte>, tail: seq<byte>)
    requires |block| == 4 && |rest| > 0 && |rest| % 4 == 0
    requires DecodeBlock(block[0], block[1], block[2], block[3]) == Some(head)
    requires Decode(rest) == Some(tail)
    ensures Decode(block + rest) == Some(head + tail)
  {
    var s := block + rest;
    assert s[..4] == block && s[4..] == rest;
  }

  /** Exactly three bytes make one unpadded block. */
  lemma ThreeByteRoundTrip(data: seq<byte>)
    requires |data| == 3
    ensures Decode(Encode(data)) == Some(data)
  {
    var s := EncodeBlock(data[0], data[1], data[2]);
    EncodeThree(data);
    BlockRoundTrip(data[0], data[1], data[2]);
    DecodeOneBlock(s);
    assert data == [data[0], data[1], data[2]];
  }

  /** The inductive step: a full block in front of an encoding that round-trips. */
  lemma LongRoundTrip(data: seq<byte>, block: string, rest: string)
    requires |data| > 3 && block == EncodeBlock(data[0], data[1], data[2])
    requires |rest| > 0 && |rest| % 4 == 0 && Decode(rest) == Some(data[3..])
    ensures Decode(block + rest) == Some(data)
  {
    BlockRoundTrip(data[0], data[1], data[2]);
    assert [data[0], data[1], data[2]] == data[..3];
    DecodeCons(block, rest, data[..3], data[3..]);
    assert data[..3] + data[3..] == data;
  }

  /** Decoding undoes encoding, for every byte string. */
  lemma {:induction false} DecodeEncode(data: seq<byte>)
    ensures Decode(Encode(data)) == Some(data)
    decreases |data|
  {
    if |data| == 1 {
      OneByteRoundTrip(data);
    } else if |data| == 2 {
      TwoByteRoundTrip(data);
    } else if |data| == 3 {
      ThreeByteRoundTrip(data);
    } else if |data| > 3 {
      var block, rest := EncodeBlock(data[0], data[1], data[2]), Encode(data[3..]);
      DecodeEncode(data[3..]);
      assert Encode(data) == block + rest;
      LongRoundTrip(data, block, rest);
    }
  }

  /** A non-empty encoding starts with a letter of the alphabet. */
  lemma EncodeStartsWithDigit(data: seq<byte>)
    requires |data| > 0
    ensures |Encode(data)| >= 4 && IsDigit(Encode(data)[0])
  {
    DigitValue(data[0] as int / 4);
  }
}
