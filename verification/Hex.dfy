/** Lower-case hexadecimal text of bytes.

    `hex::encode` writes two digits a byte, high digit first. `hash_bytes` reads exactly
    the canonical text of 32 bytes: 64 characters, digits and the letters a to f only,
    so that a hash has one text and a text one hash. Record fields, path nodes, log
    identifiers and manifest digests are all held in this form. */
module Hex {
  import opened Numbers
  import opened Outcome
  import opened Merkle

  const HEX_DIGITS: string := "0123456789abcdef"

  predicate IsHexDigit(c: char) { '0' <= c <= '9' || 'a' <= c <= 'f' }

  function Nibble(c: char): (n: nat)
    requires IsHexDigit(c)
    ensures n < 16 && HEX_DIGITS[n] == c
  {
    if c <= '9' then c as int - '0' as int else c as int - 'a' as int + 10
  }

  predicate IsHex(s: string) { forall c <- s :: IsHexDigit(c) }

  function HexPair(b: byte): (s: string)
    ensures |s| == 2 && IsHexDigit(s[0]) && IsHexDigit(s[1])
  {
    [HEX_DIGITS[b / 16], HEX_DIGITS[b % 16]]
  }

  function PairByte(hi: char, lo: char): byte
    requires IsHexDigit(hi) && IsHexDigit(lo)
  {
    16 * Nibble(hi) + Nibble(lo)
  }

  lemma NibbleOfDigit(n: nat)
    requires n < 16
    ensures IsHexDigit(HEX_DIGITS[n]) && Nibble(HEX_DIGITS[n]) == n
  {
    assert HEX_DIGITS[n] as int == if n < 10 then '0' as int + n else 'a' as int + n - 10;
  }

  /** A byte is written high digit first. */
  lemma PairOfByte(b: byte)
    ensures 16 * Nibble(HexPair(b)[0]) + Nibble(HexPair(b)[1]) == b
    ensures PairByte(HexPair(b)[0], HexPair(b)[1]) == b
  {
    NibbleOfDigit(b / 16);
    NibbleOfDigit(b % 16);
    hide Nibble;
  }

  lemma NibblesApart(hi: nat, lo: nat)
    requires hi < 16 && lo < 16
    ensures (16 * hi + lo) / 16 == hi && (16 * hi + lo) % 16 == lo
  {
  }

  lemma ByteOfPair(hi: char, lo: char)
    requires IsHexDigit(hi) && IsHexDigit(lo)
    ensures HexPair(PairByte(hi, lo)) == [hi, lo]
  {
    hide Nibble;
    NibblesApart(Nibble(hi), Nibble(lo));
  }

  function Encode(bytes: Bytes): (s: string)
    ensures |s| == 2 * |bytes| && IsHex(s)
  {
    if bytes == [] then "" else HexPair(bytes[0]) + Encode(bytes[1..])
  }

  function Decode(s: string): (bytes: Bytes)
    requires |s| % 2 == 0 && IsHex(s)
    ensures 2 * |bytes| == |s|
  {
    if s == [] then []
    else
      assert IsHexDigit(s[0]) && IsHexDigit(s[1]);
      [PairByte(s[0], s[1])] + Decode(s[2..])
  }

  lemma {:induction false} DecodeOfEncode(bytes: Bytes)
    ensures Decode(Encode(bytes)) == bytes
  {
    if bytes != [] {
      hide HexPair, PairByte;
      PairOfByte(bytes[0]);
      assert Encode(bytes)[2..] == Encode(bytes[1..]);
      DecodeOfEncode(bytes[1..]);
    }
  }

  lemma EncodeCons(b: byte, bytes: Bytes)
    ensures Encode([b] + bytes) == HexPair(b) + Encode(bytes)
  {
    hide HexPair;
    assert ([b] + bytes)[1..] == bytes;
  }

  lemma {:induction false} EncodeOfDecode(s: string)
    requires |s| % 2 == 0 && IsHex(s)
    ensures Encode(Decode(s)) == s
  {
    if s != [] {
      hide HexPair, PairByte, Encode;
      assert IsHexDigit(s[0]) && IsHexDigit(s[1]);
      ByteOfPair(s[0], s[1]);
      EncodeOfDecode(s[2..]);
      EncodeCons(PairByte(s[0], s[1]), Decode(s[2..]));
      assert s == [s[0], s[1]] + s[2..];
    }
  }

  /** `hash_bytes`: 64 lower-case digits and nothing else. */
  function HashBytes(value: string): Option<Hash> {
    if |value| == 64 && IsHex(value) then Some(Decode(value)) else None
  }

  /** Canonical text and value determine each other. */
  lemma HashBytesExact(value: string, hash: Hash)
    ensures HashBytes(value) == Some(hash) <==> value == Encode(hash)
  {
    DecodeOfEncode(hash);
    if |value| == 64 && IsHex(value) { EncodeOfDecode(value); }
  }
}
