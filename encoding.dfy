/**
 * Byte strings and the two text encodings the Merkle engine uses:
 * hexadecimal rendering of `Data` (the `hexEncodedString` extension) and
 * the UTF-8 view of a Swift `String` (`data(using: .utf8)`).
 */
module Encoding {
  import opened Wrappers

  newtype Byte = b: int | 0 <= b < 256

  type Bytes = seq<Byte>

  /* ---------------- Hexadecimal ---------------- */

  const LowerDigits: string := "0123456789abcdef"
  const UpperDigits: string := "0123456789ABCDEF"

  /** The character for one nibble, in the requested case. */
  function HexDigit(n: int, upperCase: bool): (c: char)
    requires 0 <= n < 16
    ensures ('0' <= c <= '9') == (n < 10)
    ensures !upperCase ==> '0' <= c <= '9' || 'a' <= c <= 'f'
    ensures upperCase ==> '0' <= c <= '9' || 'A' <= c <= 'F'
  {
    if upperCase then UpperDigits[n] else LowerDigits[n]
  }

  /** The value of a hexadecimal digit of either case; None for any other character. */
  function DigitValue(c: char): (r: Option<int>)
    ensures r.Some? ==> 0 <= r.value < 16
  {
    if '0' <= c <= '9' then Some(c as int - '0' as int)
    else if 'a' <= c <= 'f' then Some(c as int - 'a' as int + 10)
    else if 'A' <= c <= 'F' then Some(c as int - 'A' as int + 10)
    else None
  }

  lemma DigitRoundTrip(n: int, upperCase: bool)
    requires 0 <= n < 16
    ensures DigitValue(HexDigit(n, upperCase)) == Some(n)
  {
  }

  /** Two characters per byte, high nibble first (the `%02hhx` / `%02hhX` format). */
  function HexByte(b: Byte, upperCase: bool): string
  {
    [HexDigit(b as int / 16, upperCase), HexDigit(b as int % 16, upperCase)]
  }

  /**
   * `Data.hexEncodedString(options:)`: the bytes rendered in order, two digits
   * each, no separator; `upperCase` stands for the `.upperCase` option.
   */
  function HexEncodedString(data: Bytes, upperCase: bool): (s: string)
    ensures |s| == 2 * |data|
    ensures forall i :: 0 <= i < |data| ==>
              s[2 * i] == HexDigit(data[i] as int / 16, upperCase) &&
              s[2 * i + 1] == HexDigit(data[i] as int % 16, upperCase)
  {
    if data == [] then ""
    else
      var rest := HexEncodedString(data[1..], upperCase);
      assert forall i :: 1 <= i < |data| ==> data[i] == data[1..][i - 1];
      HexByte(data[0], upperCase) + rest
  }

  /** Reads back a string of hexadecimal digit pairs; None when the text is not one. */
  function HexDecode(s: string): (r: Option<Bytes>)
    ensures r.Some? ==> 2 * |r.value| == |s|
  {
    if s == [] then Some([])
    else if |s| == 1 then None
    else
      match (DigitValue(s[0]), DigitValue(s[1]), HexDecode(s[2..]))
      case (Some(hi), Some(lo), Some(rest)) => Some([(16 * hi + lo) as Byte] + rest)
      case _ => None
  }

  /** Decoding undoes encoding, in either case. */
  lemma {:induction false} HexRoundTrip(data: Bytes, upperCase: bool)
    ensures HexDecode(HexEncodedString(data, upperCase)) == Some(data)
  {
    if data != [] {
      var rest := HexEncodedString(data[1..], upperCase);
      assert HexEncodedString(data, upperCase) == HexByte(data[0], upperCase) + rest;
      HexRoundTrip(data[1..], upperCase);
      HexPairDecodes(data[0], rest, data[1..], upperCase);
      assert [data[0]] + data[1..] == data;
    }
  }

  /** A byte's two digits in front of decodable text decode to that byte in front of its bytes. */
  lemma HexPairDecodes(b: Byte, rest: string, tail: Bytes, upperCase: bool)
    requires HexDecode(rest) == Some(tail)
    ensures HexDecode(HexByte(b, upperCase) + rest) == Some([b] + tail)
  {
    var s := HexByte(b, upperCase) + rest;
    DigitRoundTrip(b as int / 16, upperCase);
    DigitRoundTrip(b as int % 16, upperCase);
    assert s[0] == HexDigit(b as int / 16, upperCase) && s[1] == HexDigit(b as int % 16, upperCase);
    assert s[2..] == rest;
    assert (16 * (b as int / 16) + b as int % 16) as Byte == b;
  }

  /** Two byte strings render to the same hex text exactly when they are equal. */
  lemma HexInjective(a: Bytes, b: Bytes, upperCase: bool)
    ensures HexEncodedString(a, upperCase) == HexEncodedString(b, upperCase) <==> a == b
  {
    HexRoundTrip(a, upperCase);
    HexRoundTrip(b, upperCase);
  }

  /* ---------------- UTF-8 ---------------- */

  /** The UTF-8 encoding of one Unicode scalar value (RFC 3629, section 3). */
  function Utf8Char(c: char): (r: Bytes)
    ensures 1 <= |r| <= 4
    ensures (|r| == 1) == (c as int < 0x80)
    ensures |r| == 1 ==> r[0] as int == c as int
  {
    var cp := c as int;
    if cp < 0x80 then
      [cp as Byte]
    else if cp < 0x800 then
      [(0xC0 + cp / 0x40) as Byte, (0x80 + cp % 0x40) as Byte]
    else if cp < 0x1_0000 then
      [(0xE0 + cp / 0x1000) as Byte, (0x80 + cp / 0x40 % 0x40) as Byte, (0x80 + cp % 0x40) as Byte]
    else
      [(0xF0 + cp / 0x4_0000) as Byte, (0x80 + cp / 0x1000 % 0x40) as Byte,
       (0x80 + cp / 0x40 % 0x40) as Byte, (0x80 + cp % 0x40) as Byte]
  }

  /** `String.data(using: .utf8)`: the characters' encodings, concatenated in order. */
  function Utf8(s: string): (r: Bytes)
    ensures |s| <= |r| <= 4 * |s|
  {
    if s == [] then [] else Utf8Char(s[0]) + Utf8(s[1..])
  }

  /** Text made of ASCII characters encodes to one byte per character, equal to its code. */
  lemma {:induction false} Utf8Ascii(s: string)
    requires forall i :: 0 <= i < |s| ==> s[i] as int < 0x80
    ensures |Utf8(s)| == |s|
    ensures forall i :: 0 <= i < |s| ==> Utf8(s)[i] as int == s[i] as int
  {
    if s != [] {
      Utf8Ascii(s[1..]);
      assert forall i :: 1 <= i < |s| ==> Utf8(s)[i] == Utf8(s[1..])[i - 1];
    }
  }

  /** The byte encodings of the two proof side tags, "left" and "right". */
  lemma Utf8OfTags()
    ensures Utf8("left") == [0x6C, 0x65, 0x66, 0x74]
    ensures Utf8("right") == [0x72, 0x69, 0x67, 0x68, 0x74]
  {
    Utf8Ascii("left");
    Utf8Ascii("right");
  }
}
