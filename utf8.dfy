/** UTF-8, as Java applies it: `String.getBytes(UTF_8)` on the way to the
    store and `new String(bytes, UTF_8)` on the way back.  A Dafny `char` is a
    Unicode scalar value, so every string here is well formed. */
module Utf8 {

  newtype byte = x: int | 0 <= x < 256

  type Bytes = seq<byte>

  /** U+FFFD, which the Java decoder substitutes for malformed input. */
  const Replacement: char := '\U{FFFD}'

  /** The one to four bytes that encode one scalar value. */
  function EncodeChar(c: char): (r: Bytes)
    ensures 1 <= |r| <= 4
    ensures (c as int < 0x80) == (|r| == 1)
  {
    var cp := c as int;
    var q1 := cp / 64;
    var q2 := q1 / 64;
    var q3 := q2 / 64;
    if cp < 0x80 then [cp as byte]
    else if cp < 0x800 then [(0xC0 + q1) as byte, (0x80 + cp % 64) as byte]
    else if cp < 0x10000 then
      [(0xE0 + q2) as byte, (0x80 + q1 % 64) as byte, (0x80 + cp % 64) as byte]
    else
      [(0xF0 + q3) as byte, (0x80 + q2 % 64) as byte, (0x80 + q1 % 64) as byte, (0x80 + cp % 64) as byte]
  }

  /** `s.getBytes(UTF_8)`. */
  function Encode(s: string): (r: Bytes)
    ensures |s| <= |r| <= 4 * |s|
  {
    if s == [] then [] else EncodeChar(s[0]) + Encode(s[1..])
  }

  predicate IsContinuation(b: byte) {
    0x80 <= b < 0xC0
  }

  function Payload(b: byte): int {
    b as int % 64
  }

  function Scalar3(b0: byte, b1: byte, b2: byte): int {
    ((b0 as int - 0xE0) * 64 + Payload(b1)) * 64 + Payload(b2)
  }

  function Scalar4(b0: byte, b1: byte, b2: byte, b3: byte): int {
    (((b0 as int - 0xF0) * 64 + Payload(b1)) * 64 + Payload(b2)) * 64 + Payload(b3)
  }

  /** Decodes the character at the head of `bs` and says how many bytes it
      took; a byte that does not start a well-formed sequence becomes U+FFFD
      and is skipped on its own. */
  function DecodeStep(bs: Bytes): (r: (char, nat))
    requires |bs| > 0
    ensures 1 <= r.1 <= |bs|
  {
    var b0 := bs[0];
    if b0 < 0x80 then
      (b0 as int as char, 1)
    else if 0xC2 <= b0 < 0xE0 && |bs| >= 2 && IsContinuation(bs[1]) then
      (((b0 as int - 0xC0) * 64 + Payload(bs[1])) as char, 2)
    else if 0xE0 <= b0 < 0xF0 && |bs| >= 3 && IsContinuation(bs[1]) && IsContinuation(bs[2])
         && 0x800 <= Scalar3(b0, bs[1], bs[2]) && !(0xD800 <= Scalar3(b0, bs[1], bs[2]) < 0xE000) then
      (Scalar3(b0, bs[1], bs[2]) as char, 3)
    else if 0xF0 <= b0 < 0xF5 && |bs| >= 4 && IsContinuation(bs[1]) && IsContinuation(bs[2])
         && IsContinuation(bs[3]) && 0x10000 <= Scalar4(b0, bs[1], bs[2], bs[3]) < 0x110000 then
      (Scalar4(b0, bs[1], bs[2], bs[3]) as char, 4)
    else
      (Replacement, 1)
  }

  /** `new String(bs, UTF_8)`. */
  function Decode(bs: Bytes): (r: string)
    ensures |r| <= |bs|
    decreases |bs|
  {
    if bs == [] then [] else
      var (c, n) := DecodeStep(bs);
      [c] + Decode(bs[n..])
  }

  /** Decoding the encoding of one character, whatever follows it, gives the
      character back and consumes exactly its encoding. */
  lemma DecodeStepEncodeChar(c: char, rest: Bytes)
    ensures DecodeStep(EncodeChar(c) + rest) == (c, |EncodeChar(c)|)
  {
    var cp := c as int;
    var bs := EncodeChar(c) + rest;
    if cp < 0x80 {
    } else if cp < 0x800 {
      assert bs[0] as int == 0xC0 + cp / 64;
      assert Payload(bs[1]) == cp % 64;
    } else if cp < 0x10000 {
      var q1 := cp / 64;
      assert Payload(bs[1]) == q1 % 64;
      assert Payload(bs[2]) == cp % 64;
      assert Scalar3(bs[0], bs[1], bs[2]) == cp;
    } else {
      var q1 := cp / 64;
      var q2 := q1 / 64;
      assert Payload(bs[1]) == q2 % 64;
      assert Payload(bs[2]) == q1 % 64;
      assert Payload(bs[3]) == cp % 64;
      assert Scalar4(bs[0], bs[1], bs[2], bs[3]) == cp;
    }
  }

  /** Reading back what was written gives the same string. */
  lemma {:induction false} DecodeEncode(s: string)
    ensures Decode(Encode(s)) == s
  {
    if s != [] {
      var e := EncodeChar(s[0]);
      assert Encode(s) == e + Encode(s[1..]);
      DecodeStepEncodeChar(s[0], Encode(s[1..]));
      assert Encode(s)[|e|..] == Encode(s[1..]);
      DecodeEncode(s[1..]);
    }
  }

  /** Distinct strings never share an encoding, so distinct string keys never
      collide in the store. */
  lemma EncodeInjective(s: string, t: string)
    requires Encode(s) == Encode(t)
    ensures s == t
  {
    DecodeEncode(s);
    DecodeEncode(t);
  }

  predicate IsAscii(s: string) {
    forall i :: 0 <= i < |s| ==> s[i] as int < 0x80
  }

  /** An ASCII string encodes to one byte per character, each the character
      code. */
  lemma {:induction false} EncodeAscii(s: string)
    requires IsAscii(s)
    ensures |Encode(s)| == |s|
    ensures forall i :: 0 <= i < |s| ==> Encode(s)[i] as int == s[i] as int
  {
    if s != [] {
      assert IsAscii(s[1..]) by {
        forall i | 0 <= i < |s[1..]| ensures s[1..][i] as int < 0x80 {
          assert s[1..][i] == s[i + 1];
        }
      }
      EncodeAscii(s[1..]);
      assert Encode(s) == [s[0] as int as byte] + Encode(s[1..]);
    }
  }

  /** Encoding distributes over concatenation. */
  lemma {:induction false} EncodeAppend(a: string, b: string)
    ensures Encode(a + b) == Encode(a) + Encode(b)
  {
    if a == [] {
      assert a + b == b;
    } else {
      assert (a + b)[0] == a[0];
      assert (a + b)[1..] == a[1..] + b;
      EncodeAppend(a[1..], b);
    }
  }
}
