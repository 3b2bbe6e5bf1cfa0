/**
 * UTF-8 as section 4 of RFC 3629 defines its well-formed byte sequences: the
 * strict decoding `bytes.decode('utf-8')` performs, which refuses overlong
 * forms, surrogate code points and anything above U+10FFFF.
 */
module Utf8 {
  import opened Wrappers
  import opened Bytes

  /** A continuation byte, `%x80-BF`. */
  predicate IsTail(b: Byte) {
    0x80 <= b <= 0xBF
  }

  /** The bytes one character encodes to. */
  function EncodeChar(c: char): (b: seq<Byte>)
    ensures 1 <= |b| <= 4
  {
    var cp := c as int;
    if cp < 0x80 then [cp]
    else if cp < 0x800 then [0xC0 + cp / 64, 0x80 + cp % 64]
    else if cp < 0x1_0000 then [0xE0 + cp / 4096, 0x80 + cp / 64 % 64, 0x80 + cp % 64]
    else [0xF0 + cp / 262144, 0x80 + cp / 4096 % 64, 0x80 + cp / 64 % 64, 0x80 + cp % 64]
  }

  /** The character of a two-byte sequence `%xC2-DF UTF8-tail`. */
  function Decode2(b0: Byte, b1: Byte): (c: char)
    requires 0xC2 <= b0 <= 0xDF && IsTail(b1)
    ensures EncodeChar(c) == [b0, b1]
  {
    var cp := (b0 - 0xC0) * 64 + (b1 - 0x80);
    assert cp / 64 == b0 - 0xC0 && cp % 64 == b1 - 0x80;
    cp as char
  }

  /** The second byte a three-byte sequence allows after its lead byte. */
  predicate Second3(b0: Byte, b1: Byte) {
    if b0 == 0xE0 then 0xA0 <= b1 <= 0xBF
    else if b0 == 0xED then 0x80 <= b1 <= 0x9F
    else IsTail(b1)
  }

  /** The character of a three-byte sequence. */
  function Decode3(b0: Byte, b1: Byte, b2: Byte): (c: char)
    requires 0xE0 <= b0 <= 0xEF && Second3(b0, b1) && IsTail(b2)
    ensures EncodeChar(c) == [b0, b1, b2]
  {
    var hi := (b0 - 0xE0) * 64 + (b1 - 0x80);
    var cp := hi * 64 + (b2 - 0x80);
    assert cp / 64 == hi && cp % 64 == b2 - 0x80;
    assert hi / 64 == b0 - 0xE0 && hi % 64 == b1 - 0x80;
    DivDiv(cp, hi);
    cp as char
  }

  /** The second byte a four-byte sequence allows after its lead byte. */
  predicate Second4(b0: Byte, b1: Byte) {
    if b0 == 0xF0 then 0x90 <= b1 <= 0xBF
    else if b0 == 0xF4 then 0x80 <= b1 <= 0x8F
    else IsTail(b1)
  }

  /** The character of a four-byte sequence. */
  function Decode4(b0: Byte, b1: Byte, b2: Byte, b3: Byte): (c: char)
    requires 0xF0 <= b0 <= 0xF4 && Second4(b0, b1) && IsTail(b2) && IsTail(b3)
    ensures EncodeChar(c) == [b0, b1, b2, b3]
  {
    var top := (b0 - 0xF0) * 64 + (b1 - 0x80);
    var mid := top * 64 + (b2 - 0x80);
    var cp := mid * 64 + (b3 - 0x80);
    assert cp / 64 == mid && cp % 64 == b3 - 0x80;
    assert mid / 64 == top && mid % 64 == b2 - 0x80;
    assert top / 64 == b0 - 0xF0 && top % 64 == b1 - 0x80;
    DivDiv(cp, mid);
    DivDiv(mid, top);
    DivDiv(cp / 64, top);
    cp as char
  }

  /** Dividing by 64 twice is dividing by 4096, and three times by 262144. */
  lemma DivDiv(x: int, q: int)
    requires 0 <= x && q == x / 64
    ensures x / 4096 == q / 64 && x / 262144 == q / 4096
  {
  }

  /** The first character of `b` and the number of bytes it takes, when `b`
      starts with a well-formed sequence. */
  function DecodeChar(b: seq<Byte>): (r: Option<(char, nat)>)
    ensures r.Some? ==> 1 <= r.value.1 <= |b| && EncodeChar(r.value.0) == b[..r.value.1]
  {
    if |b| == 0 then None
    else if b[0] < 0x80 then Some((b[0] as char, 1))
    else if 0xC2 <= b[0] <= 0xDF then
      if |b| >= 2 && IsTail(b[1]) then Some((Decode2(b[0], b[1]), 2)) else None
    else if 0xE0 <= b[0] <= 0xEF then
      if |b| >= 3 && Second3(b[0], b[1]) && IsTail(b[2]) then Some((Decode3(b[0], b[1], b[2]), 3)) else None
    else if 0xF0 <= b[0] <= 0xF4 then
      if |b| >= 4 && Second4(b[0], b[1]) && IsTail(b[2]) && IsTail(b[3]) then Some((Decode4(b[0], b[1], b[2], b[3]), 4))
      else None
    else None
  }

  /** `bytes.decode('utf-8')`: the text, or `None` where Python raises
      `UnicodeDecodeError`. */
  function Decode(b: seq<Byte>): (r: Option<string>)
    decreases |b|
  {
    if |b| == 0 then Some([])
    else match DecodeChar(b)
      case None => None
      case Some((c, n)) =>
        match Decode(b[n..])
        case None => None
        case Some(rest) => Some([c] + rest)
  }

  /** `str.encode('utf-8')` */
  function Encode(s: string): (b: seq<Byte>)
    ensures |s| <= |b| <= 4 * |s|
  {
    if |s| == 0 then [] else EncodeChar(s[0]) + Encode(s[1..])
  }

  /** Bytes are well-formed UTF-8 when they decode. */
  predicate WellFormed(b: seq<Byte>) {
    Decode(b).Some?
  }

  /** Decoding reads back exactly the bytes: whatever decodes is the encoding
      of what it decodes to. */
  lemma {:induction false} DecodeEncodes(b: seq<Byte>)
    requires WellFormed(b)
    ensures Encode(Decode(b).value) == b
    decreases |b|
  {
    if |b| > 0 {
      var r := DecodeChar(b).value;
      var tail := b[r.1..];
      assert Decode(b) == Some([r.0] + Decode(tail).value);
      DecodeEncodes(tail);
      EncodeCons(r.0, Decode(tail).value);
      assert b == b[..r.1] + tail;
    }
  }

  lemma EncodeCons(c: char, s: string)
    ensures Encode([c] + s) == EncodeChar(c) + Encode(s)
  {
    assert ([c] + s)[1..] == s;
  }

  /** Every character's encoding is read back by `DecodeChar`, whatever follows. */
  lemma DecodeEncodeChar(c: char, rest: seq<Byte>)
    ensures DecodeChar(EncodeChar(c) + rest) == Some((c, |EncodeChar(c)|))
  {
    var cp := c as int;
    var b := EncodeChar(c) + rest;
    if cp < 0x80 {
    } else if cp < 0x800 {
      assert 0xC2 <= b[0] <= 0xDF;
      CharOfEncoding(DecodeChar(b).value.0, c);
    } else if cp < 0x1_0000 {
      assert 0xE0 <= b[0] <= 0xEF && Second3(b[0], b[1]);
      CharOfEncoding(DecodeChar(b).value.0, c);
    } else {
      assert 0xF0 <= b[0] <= 0xF4 && Second4(b[0], b[1]);
      CharOfEncoding(DecodeChar(b).value.0, c);
    }
  }

  /** The code point an encoding spells out, read from its bytes. */
  function ValueOf(b: seq<Byte>): int
    requires 1 <= |b| <= 4
  {
    if |b| == 1 then b[0] as int
    else if |b| == 2 then (b[0] as int - 0xC0) * 64 + (b[1] as int - 0x80)
    else if |b| == 3 then ((b[0] as int - 0xE0) * 64 + (b[1] as int - 0x80)) * 64 + (b[2] as int - 0x80)
    else (((b[0] as int - 0xF0) * 64 + (b[1] as int - 0x80)) * 64 + (b[2] as int - 0x80)) * 64 + (b[3] as int - 0x80)
  }

  /** An encoding spells out its character's code point. */
  lemma ValueOfEncoding(c: char)
    ensures ValueOf(EncodeChar(c)) == c as int
  {
    var cp := c as int;
    if cp < 0x80 {
    } else if cp < 0x800 {
      assert cp == cp / 64 * 64 + cp % 64;
    } else if cp < 0x1_0000 {
      var q := cp / 64;
      DivDiv(cp, q);
      assert q == q / 64 * 64 + q % 64;
      assert cp == q * 64 + cp % 64;
    } else {
      var q := cp / 64;
      var q2 := q / 64;
      DivDiv(cp, q);
      DivDiv(q, q2);
      assert q2 == q2 / 64 * 64 + q2 % 64;
      assert q == q2 * 64 + q % 64;
      assert cp == q * 64 + cp % 64;
    }
  }

  /** Distinct characters encode differently. */
  lemma CharOfEncoding(c: char, d: char)
    requires EncodeChar(c) == EncodeChar(d)
    ensures c == d
  {
    ValueOfEncoding(c);
    ValueOfEncoding(d);
  }

  /** Every string encodes to well-formed UTF-8 that decodes back to it. */
  lemma {:induction false} EncodeDecodes(s: string)
    ensures Decode(Encode(s)) == Some(s)
  {
    if |s| > 0 {
      var b := Encode(s);
      DecodeEncodeChar(s[0], Encode(s[1..]));
      EncodeDecodes(s[1..]);
      assert b[|EncodeChar(s[0])|..] == Encode(s[1..]);
      assert [s[0]] + s[1..] == s;
    }
  }

  /** The octets section 1 of RFC 3629 says never appear in UTF-8. */
  predicate NeverInUtf8(x: Byte) {
    x == 0xC0 || x == 0xC1 || x >= 0xF5
  }

  lemma EncodeCharAvoids(c: char)
    ensures forall i :: 0 <= i < |EncodeChar(c)| ==> !NeverInUtf8(EncodeChar(c)[i])
  {
  }

  lemma {:induction false} EncodeAvoids(s: string)
    ensures forall i :: 0 <= i < |Encode(s)| ==> !NeverInUtf8(Encode(s)[i])
  {
    if |s| > 0 {
      EncodeCharAvoids(s[0]);
      EncodeAvoids(s[1..]);
    }
  }

  /** Well-formed input never holds C0, C1 or F5 to FF. */
  lemma WellFormedAvoids(b: seq<Byte>)
    requires WellFormed(b)
    ensures forall i :: 0 <= i < |b| ==> !NeverInUtf8(b[i])
  {
    DecodeEncodes(b);
    EncodeAvoids(Decode(b).value);
  }

  /** ED A0 80 would be the surrogate U+D800, and is refused. */
  lemma SurrogateRefused(b: seq<Byte>)
    requires b == [0xED, 0xA0, 0x80]
    ensures !WellFormed(b)
  {
  }

  /** C0 80 would be an overlong NUL, and is refused. */
  lemma OverlongRefused(b: seq<Byte>)
    requires b == [0xC0, 0x80]
    ensures !WellFormed(b)
  {
  }
}
