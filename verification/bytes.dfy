/**
 * Raw payload bytes and their lowercase hexadecimal form, as Python's
 * `bytes.hex()` writes it: two digits per byte, high nibble first.
 */
module Bytes {
  import opened Wrappers

  type Byte = x: int | 0 <= x < 256

  /** `0`-`9` and `a`-`f`. */
  predicate IsHexDigit(c: char) {
    '0' <= c <= '9' || 'a' <= c <= 'f'
  }

  /** The lowercase digit for a nibble. */
  function HexDigit(n: int): (c: char)
    requires 0 <= n < 16
    ensures IsHexDigit(c)
  {
    if n < 10 then ('0' as int + n) as char else ('a' as int + n - 10) as char
  }

  /** The nibble a lowercase digit stands for; `None` for any other character. */
  function DigitValue(c: char): (r: Option<int>)
    ensures r.Some? ==> 0 <= r.value < 16 && HexDigit(r.value) == c
    ensures IsHexDigit(c) <==> r.Some?
  {
    if '0' <= c <= '9' then Some(c as int - '0' as int)
    else if 'a' <= c <= 'f' then Some(c as int - 'a' as int + 10)
    else None
  }

  lemma DigitValueOfDigit(n: int)
    requires 0 <= n < 16
    ensures DigitValue(HexDigit(n)) == Some(n)
  {
  }

  /** `bytes.hex()` */
  function Hex(b: seq<Byte>): (h: string)
    ensures |h| == 2 * |b|
    ensures forall i :: 0 <= i < |h| ==> IsHexDigit(h[i])
  {
    if |b| == 0 then ""
    else [HexDigit(b[0] / 16), HexDigit(b[0] % 16)] + Hex(b[1..])
  }

  /** Reads lowercase hexadecimal back into bytes; `None` for an odd length or
      a character that is not a lowercase digit. */
  function Unhex(h: string): (r: Option<seq<Byte>>)
    ensures r.Some? ==> 2 * |r.value| == |h|
    decreases |h|
  {
    if |h| == 0 then Some([])
    else if |h| == 1 then None
    else match (DigitValue(h[0]), DigitValue(h[1]), Unhex(h[2..]))
      case (Some(hi), Some(lo), Some(rest)) => Some([hi * 16 + lo] + rest)
      case _ => None
  }

  /** The hexadecimal form reads back to the original bytes. */
  lemma {:induction false} UnhexHex(b: seq<Byte>)
    ensures Unhex(Hex(b)) == Some(b)
  {
    if |b| > 0 {
      var h := Hex(b);
      UnhexHex(b[1..]);
      DigitValueOfDigit(b[0] / 16);
      DigitValueOfDigit(b[0] % 16);
      assert h[2..] == Hex(b[1..]);
      assert [b[0] / 16 * 16 + b[0] % 16] + b[1..] == b;
    }
  }

  /** Hexadecimal is injective: distinct payloads never share a hex string. */
  lemma HexInjective(a: seq<Byte>, b: seq<Byte>)
    requires Hex(a) == Hex(b)
    ensures a == b
  {
    UnhexHex(a);
    UnhexHex(b);
  }

  /** The worked case: bytes ff fe 00. */
  lemma HexExample(b: seq<Byte>)
    requires b == [0xff, 0xfe, 0x00]
    ensures Hex(b) == "fffe00"
  {
    assert Hex(b[2..]) == "00";
    assert Hex(b[1..]) == "fe00";
  }
}
