/** Lower-case hexadecimal text of byte strings, as `b.toString(16).padStart(2, '0')`
    joined over a `Uint8Array` produces it, and its inverse. */
module Hex {
  import opened Wrappers

  newtype byte = x: int | 0 <= x < 256

  /** The lower-case hex digit of a value below 16. */
  function HexDigit(d: nat): (c: char)
    requires d < 16
  {
    if d < 10 then ('0' as int + d) as char else ('a' as int + d - 10) as char
  }

  predicate IsHexChar(c: char) {
    '0' <= c <= '9' || 'a' <= c <= 'f'
  }

  /** The value of one lower-case hex character; it inverts `HexDigit`. */
  function HexValue(c: char): (v: nat)
    requires IsHexChar(c)
    ensures v < 16 && HexDigit(v) == c
  {
    if '0' <= c <= '9' then c as int - '0' as int else c as int - 'a' as int + 10
  }

  /** `n.toString(16)`: base-16 digits of `n` without leading zeros. */
  function ToBase16(n: nat): (r: string)
    ensures |r| >= 1
    ensures forall i | 0 <= i < |r| :: IsHexChar(r[i])
  {
    if n < 16 then [HexDigit(n)] else ToBase16(n / 16) + [HexDigit(n % 16)]
  }

  /** `s.padStart(width, fill)`. */
  function PadStart(s: string, width: nat, fill: char): (r: string)
    ensures |r| == if |s| >= width then |s| else width
    ensures r[|r| - |s|..] == s
  {
    if |s| >= width then s else seq(width - |s|, _ => fill) + s
  }

  /** The two characters one byte contributes to a session id. */
  function ByteToHex(b: byte): string {
    PadStart(ToBase16(b as nat), 2, '0')
  }

  /** Padding makes every byte exactly two digits: the high nibble, then the low one. */
  lemma ByteToHexDigits(b: byte)
    ensures ByteToHex(b) == [HexDigit(b as int / 16), HexDigit(b as int % 16)]
  {
    if b < 16 {
      assert ToBase16(b as nat) == [HexDigit(b as nat)];
    } else {
      assert ToBase16(b as nat / 16) == [HexDigit(b as int / 16)];
    }
  }

  /** `Array.from(bytes, ByteToHex).join('')`. */
  function Encode(bytes: seq<byte>): (r: string)
    ensures |r| == 2 * |bytes|
    ensures forall i | 0 <= i < |r| :: IsHexChar(r[i])
  {
    if bytes == [] then []
    else
      ByteToHexDigits(bytes[0]);
      ByteToHex(bytes[0]) + Encode(bytes[1..])
  }

  /** Reads a string of lower-case hex digit pairs back into bytes; anything else is `None`. */
  function Decode(s: string): (r: Option<seq<byte>>)
    ensures r.Some? ==> |r.value| * 2 == |s|
  {
    if s == [] then Some([])
    else if |s| < 2 || !IsHexChar(s[0]) || !IsHexChar(s[1]) then None
    else
      match Decode(s[2..])
      case None => None
      case Some(rest) => Some([(HexValue(s[0]) * 16 + HexValue(s[1])) as byte] + rest)
  }

  lemma HexValueOfDigit(d: nat)
    requires d < 16
    ensures IsHexChar(HexDigit(d)) && HexValue(HexDigit(d)) == d
  {
  }

  /** The first two characters of an encoding are the first byte's high and low digits. */
  lemma EncodeCons(bytes: seq<byte>)
    requires bytes != []
    ensures Encode(bytes) == [HexDigit(bytes[0] as int / 16), HexDigit(bytes[0] as int % 16)] + Encode(bytes[1..])
  {
    ByteToHexDigits(bytes[0]);
  }

  /** Decoding a session id gives back the random bytes it was made from. */
  lemma {:induction false} DecodeEncode(bytes: seq<byte>)
    ensures Decode(Encode(bytes)) == Some(bytes)
  {
    if bytes != [] {
      var hi, lo := HexDigit(bytes[0] as int / 16), HexDigit(bytes[0] as int % 16);
      EncodeCons(bytes);
      DecodeEncode(bytes[1..]);
      ByteDigitsReadBack(bytes[0]);
      DecodePair(hi, lo, Encode(bytes[1..]));
      assert bytes == [bytes[0]] + bytes[1..];
    }
  }

  /** A byte's two digits read back as the byte. */
  lemma ByteDigitsReadBack(b: byte)
    ensures IsHexChar(HexDigit(b as int / 16)) && IsHexChar(HexDigit(b as int % 16))
    ensures (HexValue(HexDigit(b as int / 16)) * 16 + HexValue(HexDigit(b as int % 16))) as byte == b
  {
    HexValueOfDigit(b as int / 16);
    HexValueOfDigit(b as int % 16);
  }

  /** Decoding reads one pair of digits as one byte, then the rest. */
  lemma DecodePair(hi: char, lo: char, rest: string)
    requires IsHexChar(hi) && IsHexChar(lo)
    ensures Decode([hi, lo] + rest) ==
      match Decode(rest)
      case None => None
      case Some(tail) => Some([(HexValue(hi) * 16 + HexValue(lo)) as byte] + tail)
  {
    var s := [hi, lo] + rest;
    assert s[0] == hi && s[1] == lo && s[2..] == rest;
  }

  /** The encoding is canonical: every string that decodes is the encoding of what it decodes to. */
  lemma {:induction false} EncodeDecode(s: string)
    requires Decode(s).Some?
    ensures Encode(Decode(s).value) == s
  {
    if s != [] {
      var hi, lo, rest := s[0], s[1], s[2..];
      assert s == [hi, lo] + rest;
      DecodePair(hi, lo, rest);
      EncodeDecode(rest);
      var bytes := Decode(s).value;
      var v := HexValue(hi) * 16 + HexValue(lo);
      assert bytes == [v as byte] + Decode(rest).value;
      assert v / 16 == HexValue(hi) && v % 16 == HexValue(lo);
      EncodeCons(bytes);
      assert bytes[1..] == Decode(rest).value;
    }
  }
}
