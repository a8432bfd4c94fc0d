/**
 * Python's `str.encode('utf-8')`: every code point becomes one to four
 * bytes, the leading byte saying how many follow, each continuation byte
 * carrying six bits. A Dafny `char` is a Unicode scalar value, which is
 * what a Python `str` can encode without error.
 */
module Utf8 {
  import opened HexCodec

  /** The bytes of one code point. */
  function EncodeChar(c: char): (bs: seq<byte>)
    ensures 1 <= |bs| <= 4
    ensures c as int < 0x80 ==> bs == [c as int]
  {
    var n := c as int;
    if n < 0x80 then [n]
    else if n < 0x800 then [0xC0 + n / 64, 0x80 + n % 64]
    else if n < 0x10000 then [0xE0 + n / 4096, 0x80 + n / 64 % 64, 0x80 + n % 64]
    else [0xF0 + n / 262144, 0x80 + n / 4096 % 64, 0x80 + n / 64 % 64, 0x80 + n % 64]
  }

  /** How many bytes a sequence starting with lead byte b has, or 0 where b cannot lead. */
  function LeadLength(b: byte): nat {
    if b < 0x80 then 1
    else if b < 0xC0 then 0
    else if b < 0xE0 then 2
    else if b < 0xF0 then 3
    else if b < 0xF8 then 4
    else 0
  }

  predicate IsContinuation(b: byte) {
    0x80 <= b < 0xC0
  }

  /**
   * The encoding of a code point is well formed: the lead byte announces
   * the length, every later byte is a continuation byte, and the length is
   * the shortest one that holds the code point.
   */
  lemma EncodeCharShape(c: char)
    ensures LeadLength(EncodeChar(c)[0]) == |EncodeChar(c)|
    ensures forall i :: 1 <= i < |EncodeChar(c)| ==> IsContinuation(EncodeChar(c)[i])
    ensures |EncodeChar(c)| == (if c as int < 0x80 then 1 else if c as int < 0x800 then 2
                                else if c as int < 0x10000 then 3 else 4)
  {
  }

  /** The code point a well-formed sequence of one to four bytes carries. */
  function DecodePoint(bs: seq<byte>): int
    requires 1 <= |bs| <= 4
  {
    var b: seq<int> := bs;
    if |b| == 1 then b[0]
    else if |b| == 2 then (b[0] - 0xC0) * 64 + (b[1] - 0x80)
    else if |b| == 3 then (b[0] - 0xE0) * 4096 + (b[1] - 0x80) * 64 + (b[2] - 0x80)
    else (b[0] - 0xF0) * 262144 + (b[1] - 0x80) * 4096 + (b[2] - 0x80) * 64 + (b[3] - 0x80)
  }

  /** Decoding the bytes of a code point gives it back. */
  lemma DecodeEncodeChar(c: char)
    ensures DecodePoint(EncodeChar(c)) == c as int
  {
    var n := c as int;
    if n >= 0x10000 {
      FourDigits(n);
    } else if n >= 0x800 {
      ThreeDigits(n);
    }
  }

  /** n written in base 64 with three digits below the top. */
  lemma FourDigits(n: nat)
    ensures n == n / 262144 * 262144 + n / 4096 % 64 * 4096 + n / 64 % 64 * 64 + n % 64
  {
    var q1, r1 := n / 64, n % 64;
    var q2, r2 := q1 / 64, q1 % 64;
    var q3, r3 := q2 / 64, q2 % 64;
    assert n == 262144 * q3 + (4096 * r3 + 64 * r2 + r1);
    assert n / 4096 == q2;
    assert n / 262144 == q3;
  }

  /** n written in base 64 with two digits below the top. */
  lemma ThreeDigits(n: nat)
    ensures n == n / 4096 * 4096 + n / 64 % 64 * 64 + n % 64
  {
    var q1, r1 := n / 64, n % 64;
    var q2, r2 := q1 / 64, q1 % 64;
    assert n == 4096 * q2 + (64 * r2 + r1);
    assert n / 4096 == q2;
  }

  /** `s.encode('utf-8')`: the bytes of the code points in order. */
  function Encode(s: string): (bs: seq<byte>)
    ensures |s| <= |bs| <= 4 * |s|
    decreases |s|
  {
    if s == [] then [] else EncodeChar(s[0]) + Encode(s[1..])
  }

  /** Encoding is done code point by code point, so it distributes over concatenation. */
  lemma {:induction false} EncodeAppend(s: string, t: string)
    ensures Encode(s + t) == Encode(s) + Encode(t)
    decreases |s|
  {
    if s != [] {
      assert (s + t)[1..] == s[1..] + t;
      EncodeAppend(s[1..], t);
    } else {
      assert s + t == t;
    }
  }

  /** Text of ASCII characters is encoded one byte per character. */
  lemma {:induction false} EncodeAscii(s: string)
    requires forall i :: 0 <= i < |s| ==> s[i] as int < 0x80
    ensures Encode(s) == seq(|s|, i requires 0 <= i < |s| => s[i] as int)
    decreases |s|
  {
    if s != [] {
      EncodeAscii(s[1..]);
    }
  }

  /**
   * The code points of a byte sequence, read by the lead bytes; reading
   * stops at a byte that cannot lead or a sequence cut short.
   */
  function Decode(bs: seq<byte>): seq<int>
    decreases |bs|
  {
    if bs == [] then []
    else
      var k := LeadLength(bs[0]);
      if k == 0 || k > |bs| then []
      else [DecodePoint(bs[..k])] + Decode(bs[k..])
  }

  /** Decoding the encoding of a string gives its code points back. */
  lemma {:induction false} DecodeEncode(s: string)
    ensures Decode(Encode(s)) == seq(|s|, i requires 0 <= i < |s| => s[i] as int)
    decreases |s|
  {
    if s != [] {
      var e := EncodeChar(s[0]);
      var bs := Encode(s);
      assert bs == e + Encode(s[1..]);
      EncodeCharShape(s[0]);
      DecodeEncodeChar(s[0]);
      assert bs[..|e|] == e && bs[|e|..] == Encode(s[1..]);
      DecodeEncode(s[1..]);
    }
  }
}
