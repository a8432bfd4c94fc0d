/**
 * pixels/util.py: colour formatting, decoding the canvas bytes into an RGB
 * image, and the size arithmetic of `scale_image`.
 */
module PixelsUtil {
  import opened Wrappers
  import opened HexCodec
  import opened Images

  datatype Error = IndexError | ValueError | ZeroDivisionError

  /**
   * `'{prefix}{:02x}{:02x}{:02x}'.format(*rgb_ints, prefix=prefix)`: the
   * first three values, each as at least two lowercase hex digits, which is
   * main.py's per-channel conversion; fewer than three values leave a
   * replacement field without an argument.
   */
  function RgbToHex(rgb: seq<nat>, prefix: string): (r: Result<string, Error>)
    ensures r.Err? <==> |rgb| < 3
    ensures r.Ok? ==> |prefix| <= |r.value| && r.value[..|prefix|] == prefix && IsLowerHex(r.value[|prefix|..])
  {
    if |rgb| < 3 then Err(IndexError)
    else
      var fields := ThreeIntsToRgbHexString(rgb[..3]);
      assert (prefix + fields)[|prefix|..] == fields;
      Ok(prefix + fields)
  }

  /** Channels in 0..255 give the prefix and six characters: 7 with '#', 6 with ''. */
  lemma RgbToHexLength(rgb: seq<byte>, prefix: string)
    requires |rgb| >= 3
    ensures RgbToHex(rgb, prefix).Ok? && |RgbToHex(rgb, prefix).value| == |prefix| + 6
  {
    assert AllBytes(rgb[..3]);
  }

  /** Parsing the three hex pairs after the prefix gives back the channels. */
  lemma RgbToHexRoundTrip(rgb: seq<byte>, prefix: string)
    requires |rgb| == 3
    ensures RgbToHex(rgb, prefix).Ok?
    ensures ParseHexPairs(RgbToHex(rgb, prefix).value[|prefix|..]) == Some(rgb)
  {
    assert rgb[..3] == rgb;
    HexRoundTrip(rgb);
    assert ThreeBytesToRgbHexString(rgb) == ThreeIntsToRgbHexString(rgb);
    var s := prefix + ThreeIntsToRgbHexString(rgb);
    assert s[|prefix|..] == ThreeIntsToRgbHexString(rgb);
  }

  /** White is '#ffffff' with the default prefix; the bare 'ffffff' needs prefix ''. */
  lemma White()
    ensures RgbToHex([255, 255, 255], "#") == Ok("#ffffff")
    ensures RgbToHex([255, 255, 255], "") == Ok("ffffff")
  {
    var w: seq<nat> := [255, 255, 255];
    assert w[..3] == w;
    ThreeBytesGiveSixChars(255, 255, 255);
    assert HexDigit(15) == 'f';
    assert ThreeIntsToRgbHexString(w) == "ffffff";
    assert "#" + "ffffff" == "#ffffff";
    assert "" + "ffffff" == "ffffff";
  }

  /**
   * `Image.frombytes(mode='RGB', size=(width, height), data=bytes)`: pixel
   * (x, y) is the three bytes from 3*(y*width + x); too few bytes is a
   * ValueError, bytes past the end are not used.
   */
  function BytesToImage(bytes: seq<byte>, width: nat, height: nat): (r: Result<Image, Error>)
    ensures r.Err? <==> |bytes| < 3 * (width * height)
    ensures r.Ok? ==> r.value == Image(width, height, Chunks3(bytes, width * height)) && WellFormed(r.value, 3)
  {
    if |bytes| < 3 * (width * height) then Err(ValueError)
    else Ok(Image(width, height, Chunks3(bytes, width * height)))
  }

  /** The first n three-byte groups of bytes. */
  function Chunks3(bytes: seq<byte>, n: nat): (c: seq<Pixel>)
    requires 3 * n <= |bytes|
    ensures |c| == n
    ensures forall i :: 0 <= i < n ==> c[i] == bytes[3 * i..3 * i + 3]
  {
    seq(n, i requires 0 <= i < n => bytes[3 * i..3 * i + 3])
  }


  /**
   * `scale_image`'s new size: `(w // s, h // s)` when shrinking,
   * `(w * s, h * s)` when enlarging; shrinking by 0 divides by zero.
   */
  function ScaleImageSize(w: int, h: int, scale: int, down: bool): (r: Result<(int, int), Error>)
    ensures r.Err? <==> down && scale == 0
    ensures r.Ok? && down && scale > 0 ==>
              (r.value.0 * scale <= w < r.value.0 * scale + scale && r.value.1 * scale <= h < r.value.1 * scale + scale)
    ensures r.Ok? && !down ==> r.value == (w * scale, h * scale)
  {
    if down then
      if scale == 0 then Err(ZeroDivisionError) else Ok((FloorDiv(w, scale), FloorDiv(h, scale)))
    else Ok((w * scale, h * scale))
  }

  /** Enlarging and then shrinking by the same positive scale restores the size. */
  lemma ScaleUpDown(w: int, h: int, scale: int)
    requires scale >= 1
    ensures var up := ScaleImageSize(w, h, scale, false).value;
            ScaleImageSize(up.0, up.1, scale, true) == Ok((w, h))
  {
    var up := ScaleImageSize(w, h, scale, false).value;
    var down := ScaleImageSize(up.0, up.1, scale, true).value;
    DivExact(w, scale);
    DivExact(h, scale);
  }

  lemma DivExact(a: int, s: int)
    requires s >= 1
    ensures FloorDiv(a * s, s) == a
  {
    var q := FloorDiv(a * s, s);
    var d := a - q;
    assert d * s == a * s - q * s;
    assert 0 <= d * s < s;
    if d >= 1 {
      MulMono(1, d, s);
    } else if d <= -1 {
      MulMono(d, -1, s);
    }
  }

  lemma MulMono(x: int, y: int, s: int)
    requires x <= y && s >= 0
    ensures x * s <= y * s
  {
  }
}
