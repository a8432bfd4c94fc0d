/**
 * Colour strings as main.py builds them: every channel becomes the digits of
 * Python's `hex()` without the `0x`, left-padded with '0' to width 2, and the
 * fields are concatenated in order.
 */
module HexCodec {
  import opened Wrappers
  import opened Padding

  type byte = b: nat | b < 256

  /** The characters Python's `hex()` and `'{:02x}'` produce: 0-9 and a-f. */
  predicate IsHexChar(c: char) {
    '0' <= c <= '9' || 'a' <= c <= 'f'
  }

  predicate IsLowerHex(s: string) {
    forall i :: 0 <= i < |s| ==> IsHexChar(s[i])
  }

  function HexDigit(d: nat): (c: char)
    requires d < 16
    ensures IsHexChar(c)
  {
    if d < 10 then ('0' as int + d) as char else ('a' as int + d - 10) as char
  }

  /** The value of one lowercase hex digit, or None for any other character. */
  function DigitValue(c: char): (r: Option<nat>)
    ensures r.Some? <==> IsHexChar(c)
    ensures r.Some? ==> r.value < 16 && HexDigit(r.value) == c
  {
    if '0' <= c <= '9' then Some(c as nat - '0' as nat)
    else if 'a' <= c <= 'f' then Some(c as nat - 'a' as nat + 10)
    else None
  }

  /** `hex(n)[2:]` for a non-negative n: the digits without leading zeros, "0" for zero. */
  function HexDigits(n: nat): (s: string)
    ensures 1 <= |s| && IsLowerHex(s)
    ensures n < 16 <==> |s| == 1
    ensures 16 <= n < 256 ==> |s| == 2
    ensures s[|s| - 1] == HexDigit(n % 16)
    decreases n
  {
    if n < 16 then [HexDigit(n)] else HexDigits(n / 16) + [HexDigit(n % 16)]
  }

  /** One channel, `'{:02x}'`-style: at least two lowercase hex digits. */
  function IntToHex2(n: nat): (s: string)
    ensures IsLowerHex(s) && 2 <= |s|
  {
    var digits := HexDigits(n);
    RJustShape(digits, 2, '0');
    RJust(digits, 2, '0')
  }

  /** A channel in 0..255 becomes exactly its high and its low hex digit. */
  lemma IntToHex2OfByte(n: nat)
    requires n < 256
    ensures IntToHex2(n) == [HexDigit(n / 16), HexDigit(n % 16)]
  {
    var d := HexDigits(n);
    if n < 16 {
      assert d == [HexDigit(n)];
      assert n / 16 == 0 && n % 16 == n;
      assert HexDigit(0) == '0';
      assert RJust(d, 2, '0') == ['0'] + d;
    } else {
      var hi := n / 16;
      assert hi < 16;
      assert HexDigits(hi) == [HexDigit(hi)];
      assert d == HexDigits(hi) + [HexDigit(n % 16)];
    }
  }

  predicate AllBytes(ints: seq<nat>) {
    forall i :: 0 <= i < |ints| ==> ints[i] < 256
  }

  /** The fields of `three_ints_to_rgb_hex_string`, one per channel, joined in input order. */
  function Fields(ints: seq<nat>): string
  {
    if ints == [] then "" else IntToHex2(ints[0]) + Fields(ints[1..])
  }

  lemma {:induction false} FieldsFacts(ints: seq<nat>)
    ensures IsLowerHex(Fields(ints))
    ensures AllBytes(ints) ==> |Fields(ints)| == 2 * |ints|
    decreases |ints|
  {
    if ints != [] {
      FieldsFacts(ints[1..]);
      var h, r := IntToHex2(ints[0]), Fields(ints[1..]);
      assert Fields(ints) == h + r;
      forall i | 0 <= i < |h + r|
        ensures IsHexChar((h + r)[i])
      {
        if i < |h| { assert (h + r)[i] == h[i]; } else { assert (h + r)[i] == r[i - |h|]; }
      }
      if ints[0] < 256 {
        IntToHex2OfByte(ints[0]);
        assert AllBytes(ints) ==> AllBytes(ints[1..]);
      }
    }
  }

  /** `three_ints_to_rgb_hex_string`: the comprehension and join over any list of ints. */
  function ThreeIntsToRgbHexString(ints: seq<nat>): (s: string)
    ensures IsLowerHex(s)
    ensures AllBytes(ints) ==> |s| == 2 * |ints|
  {
    FieldsFacts(ints);
    Fields(ints)
  }

  /** The fields are produced channel by channel and joined in input order. */
  lemma {:induction false} FieldsConcat(a: seq<nat>, b: seq<nat>)
    ensures Fields(a + b) == Fields(a) + Fields(b)
    decreases |a|
  {
    if a == [] {
      assert a + b == b;
    } else {
      assert (a + b)[0] == a[0] && (a + b)[1..] == a[1..] + b;
      FieldsConcat(a[1..], b);
    }
  }

  lemma HexConcat(a: seq<nat>, b: seq<nat>)
    ensures ThreeIntsToRgbHexString(a + b) == ThreeIntsToRgbHexString(a) + ThreeIntsToRgbHexString(b)
  {
    FieldsConcat(a, b);
  }

  /** `three_bytes_to_rgb_hex_string`: the bytes are taken as ints. */
  function ThreeBytesToRgbHexString(pixel: seq<byte>): (s: string)
    ensures |s| == 2 * |pixel| && IsLowerHex(s)
  {
    assert AllBytes(pixel);
    ThreeIntsToRgbHexString(pixel)
  }

  /** `int(pair, 16)` applied to consecutive pairs of lowercase hex digits. */
  function ParseHexPairs(s: string): (r: Option<seq<nat>>)
    ensures r.Some? ==> |r.value| == |s| / 2 && forall i :: 0 <= i < |r.value| ==> r.value[i] < 256
    decreases |s|
  {
    if s == [] then Some([])
    else if |s| == 1 then None
    else match (DigitValue(s[0]), DigitValue(s[1]), ParseHexPairs(s[2..]))
      case (Some(hi), Some(lo), Some(rest)) => Some([16 * hi + lo] + rest)
      case _ => None
  }

  /** Reading a digit back gives the value it was written for. */
  lemma DigitOfHexDigit(d: nat)
    requires d < 16
    ensures DigitValue(HexDigit(d)) == Some(d)
  {
  }

  /** The colour string of a non-empty list: the first channel's field, then the rest. */
  lemma BytesHexCons(bytes: seq<byte>)
    requires bytes != []
    ensures ThreeBytesToRgbHexString(bytes) == IntToHex2(bytes[0]) + ThreeBytesToRgbHexString(bytes[1..])
  {
  }

  /** Parsing a byte's field in front of a string parses that string and puts the byte first. */
  lemma ParseFieldCons(b: byte, t: string)
    ensures ParseHexPairs(IntToHex2(b) + t) ==
            match ParseHexPairs(t)
            case Some(rest) => Some([b] + rest)
            case None => None
  {
    var s := IntToHex2(b) + t;
    IntToHex2OfByte(b);
    DigitOfHexDigit(b / 16);
    DigitOfHexDigit(b % 16);
    assert s[0] == HexDigit(b / 16) && s[1] == HexDigit(b % 16) && s[2..] == t;
    assert 16 * (b / 16) + b % 16 == b;
  }

  /** Splitting the colour string into pairs and parsing them gives back the channels. */
  lemma {:induction false} HexRoundTrip(bytes: seq<byte>)
    ensures ParseHexPairs(ThreeBytesToRgbHexString(bytes)) == Some(bytes)
    decreases |bytes|
  {
    if bytes != [] {
      var t := ThreeBytesToRgbHexString(bytes[1..]);
      HexRoundTrip(bytes[1..]);
      ParseFieldCons(bytes[0], t);
      assert ParseHexPairs(IntToHex2(bytes[0]) + t) == Some([bytes[0]] + bytes[1..]);
      BytesHexCons(bytes);
      assert [bytes[0]] + bytes[1..] == bytes;
    }
  }

  /** Three channels in 0..255 always give a six-character colour. */
  lemma ThreeBytesGiveSixChars(r: byte, g: byte, b: byte)
    ensures ThreeBytesToRgbHexString([r, g, b]) ==
            [HexDigit(r / 16), HexDigit(r % 16), HexDigit(g / 16), HexDigit(g % 16), HexDigit(b / 16), HexDigit(b % 16)]
  {
    HexOfThree(r, g, b);
    IntToHex2OfByte(r);
    IntToHex2OfByte(g);
    IntToHex2OfByte(b);
  }

  /** Three channels are converted one after the other. */
  lemma HexOfThree(a: nat, b: nat, c: nat)
    ensures ThreeIntsToRgbHexString([a, b, c]) == IntToHex2(a) + IntToHex2(b) + IntToHex2(c)
  {
    assert [a, b, c][1..] == [b, c] && [b, c][1..] == [c] && [c][1..] == [];
    assert Fields([c]) == IntToHex2(c) + "";
    assert Fields([b, c]) == IntToHex2(b) + Fields([c]);
    assert Fields([a, b, c]) == IntToHex2(a) + Fields([b, c]);
  }
}
