/**
 * The text-to-colour scripts text2rgb.py, pixels/text2rgb.py and
 * text_to_rgb.py: the text is encoded as UTF-8, padded to a whole number
 * of three-byte pixels, and every pixel is written out as a hex colour;
 * the two text2rgb scripts also name and size the image they save.
 */
module TextColours {
  import opened Wrappers
  import opened Padding
  import opened HexCodec
  import opened Decimal
  import opened PathNames
  import opened Utf8
  import opened PixelsUtil
  import opened MainZone

  // ---------------------------------------------------------------------------
  // File names

  /** `str.isalnum()` on ASCII characters: a letter or a digit. */
  predicate IsAlnum(c: char) {
    'a' <= c <= 'z' || 'A' <= c <= 'Z' || '0' <= c <= '9'
  }

  /** The characters of s that are alphanumeric, in their order. */
  function Sanitised(s: string): string
    decreases |s|
  {
    if s == [] then []
    else (if IsAlnum(s[0]) then [s[0]] else []) + Sanitised(s[1..])
  }

  /** `sanitise_filename`: keep each alphanumeric character, in order. */
  method SanitiseFilename(s: string) returns (r: string)
    ensures r == Sanitised(s)
  {
    var kept: seq<char> := [];
    for i := 0 to |s|
      invariant Sanitised(s) == kept + Sanitised(s[i..])
    {
      assert s[i..][1..] == s[i + 1..];
      if IsAlnum(s[i]) {
        kept := kept + [s[i]];
      }
    }
    assert s[|s|..] == [];
    r := kept;
  }

  /** Sanitising a concatenation sanitises the two parts. */
  lemma {:induction false} SanitisedAppend(s: string, t: string)
    ensures Sanitised(s + t) == Sanitised(s) + Sanitised(t)
    decreases |s|
  {
    if s == [] {
      assert s + t == t;
    } else {
      var head := if IsAlnum(s[0]) then [s[0]] else [];
      assert (s + t)[0] == s[0] && (s + t)[1..] == s[1..] + t;
      assert Sanitised(s + t) == head + Sanitised(s[1..] + t);
      SanitisedAppend(s[1..], t);
      assert head + (Sanitised(s[1..]) + Sanitised(t)) == (head + Sanitised(s[1..])) + Sanitised(t);
    }
  }

  /**
   * Exactly the alphanumeric characters survive: each of them as often as
   * in s, every other character never; so the result is never longer.
   */
  lemma {:induction false} SanitisedKeeps(s: string)
    ensures forall c :: multiset(Sanitised(s))[c] == if IsAlnum(c) then multiset(s)[c] else 0
    ensures |Sanitised(s)| <= |s|
    decreases |s|
  {
    if s != [] {
      SanitisedKeeps(s[1..]);
      assert s == [s[0]] + s[1..];
    }
  }

  /** A sanitised name is left as it is by a second pass. */
  lemma {:induction false} SanitisedIdempotent(s: string)
    ensures Sanitised(Sanitised(s)) == Sanitised(s)
    decreases |s|
  {
    if s != [] {
      var head := if IsAlnum(s[0]) then [s[0]] else [];
      var rest := Sanitised(s[1..]);
      SanitisedIdempotent(s[1..]);
      SanitisedAppend(head, rest);
      if IsAlnum(s[0]) {
        assert head[1..] == [];
      }
    }
  }

  // ---------------------------------------------------------------------------
  // Padding to whole pixels

  /** `len + (3 - len % 3)`: the next multiple of 3 strictly above len. */
  function PaddedLength(n: nat): (m: nat)
    ensures m % 3 == 0 && n < m <= n + 3
    ensures m == n + 3 <==> n % 3 == 0
  {
    n + (3 - n % 3)
  }

  /** The padded text: zero bytes in text2rgb.py and pixels/text2rgb.py, spaces in text_to_rgb.py. */
  function Pad(bs: seq<byte>, fill: byte): (r: seq<byte>)
  {
    LJust(bs, PaddedLength(|bs|), fill)
  }

  /** Padding keeps the bytes, adds one to three fill bytes, and gives whole pixels. */
  lemma PadShape(bs: seq<byte>, fill: byte)
    ensures |Pad(bs, fill)| % 3 == 0 && |bs| < |Pad(bs, fill)| <= |bs| + 3
    ensures Pad(bs, fill) == bs + seq(|Pad(bs, fill)| - |bs|, _ => fill)
  {
    var r := Pad(bs, fill);
    assert r == r[..|bs|] + r[|bs|..];
  }

  // ---------------------------------------------------------------------------
  // Colours

  /** The pixels of bs: `bs[i*3:i*3+3]` for every i in `range(len(bs) // 3)`. */
  function Pixels(bs: seq<byte>): (ps: seq<seq<byte>>)
    ensures |ps| == |bs| / 3
    ensures forall i :: 0 <= i < |ps| ==> |ps[i]| == 3
    decreases |bs|
  {
    if |bs| < 3 then [] else [bs[..3]] + Pixels(bs[3..])
  }

  /** Pixel i is the slice of bytes 3i to 3i + 3. */
  lemma {:induction false} PixelsAt(bs: seq<byte>, i: nat)
    requires i < |bs| / 3
    ensures 3 * i + 3 <= |bs| && Pixels(bs)[i] == bs[3 * i..3 * i + 3]
    decreases i
  {
    if i > 0 {
      PixelsAt(bs[3..], i - 1);
      assert bs[3..][3 * (i - 1)..3 * (i - 1) + 3] == bs[3 * i..3 * i + 3];
    }
  }

  /** The bare colour of every pixel, in order: what text_to_rgb.py collects. */
  function ColourLines(ps: seq<seq<byte>>): (colours: seq<string>)
    ensures |colours| == |ps|
    decreases |ps|
  {
    if ps == [] then [] else [ThreeBytesToRgbHexString(ps[0])] + ColourLines(ps[1..])
  }

  /** The '#'-prefixed colour of every pixel, in order: what the text2rgb scripts print. */
  function PrintedLines(ps: seq<seq<byte>>): (lines: seq<string>)
    requires forall i :: 0 <= i < |ps| ==> |ps[i]| == 3
    ensures |lines| == |ps|
    decreases |ps|
  {
    if ps == [] then []
    else
      RgbToHexLength(ps[0], "#");
      [RgbToHex(ps[0], "#").value] + PrintedLines(ps[1..])
  }

  /** One more pixel adds its colour at the end. */
  lemma {:induction false} ColourLinesSnoc(ps: seq<seq<byte>>, p: seq<byte>)
    ensures ColourLines(ps + [p]) == ColourLines(ps) + [ThreeBytesToRgbHexString(p)]
    decreases |ps|
  {
    if ps == [] {
      assert ps + [p] == [p];
    } else {
      assert (ps + [p])[1..] == ps[1..] + [p];
      ColourLinesSnoc(ps[1..], p);
    }
  }

  /** One more pixel adds its printed line at the end. */
  lemma {:induction false} PrintedLinesSnoc(ps: seq<seq<byte>>, p: seq<byte>)
    requires forall i :: 0 <= i < |ps| ==> |ps[i]| == 3
    requires |p| == 3
    ensures RgbToHex(p, "#").Ok?
    ensures PrintedLines(ps + [p]) == PrintedLines(ps) + [RgbToHex(p, "#").value]
    decreases |ps|
  {
    RgbToHexLength(p, "#");
    if ps == [] {
      assert ps + [p] == [p];
    } else {
      assert (ps + [p])[1..] == ps[1..] + [p];
      PrintedLinesSnoc(ps[1..], p);
    }
  }

  /**
   * The loop of text2rgb.py and pixels/text2rgb.py: `rgb_to_hex` of each
   * three-byte chunk with the default '#' prefix, one printed line each.
   */
  method PrintColours(padded: seq<byte>) returns (lines: seq<string>)
    ensures lines == PrintedLines(Pixels(padded))
  {
    lines := [];
    ghost var ps := Pixels(padded);
    for i := 0 to |padded| / 3
      invariant lines == PrintedLines(ps[..i])
    {
      PixelsAt(padded, i);
      var pixel := padded[3 * i..3 * i + 3];
      assert ps[..i + 1] == ps[..i] + [pixel];
      PrintedLinesSnoc(ps[..i], pixel);
      var colour := RgbToHex(pixel, "#");
      lines := lines + [colour.value];
    }
    assert ps[..|ps|] == ps;
  }

  /** The loop of text_to_rgb.py: `three_bytes_to_rgb_hex_string` of each chunk, collected in `colours`. */
  method Colours(padded: seq<byte>) returns (colours: seq<string>)
    ensures colours == ColourLines(Pixels(padded))
  {
    colours := [];
    ghost var ps := Pixels(padded);
    for i := 0 to |padded| / 3
      invariant colours == ColourLines(ps[..i])
    {
      PixelsAt(padded, i);
      var pixel := padded[3 * i..3 * i + 3];
      assert ps[..i + 1] == ps[..i] + [pixel];
      ColourLinesSnoc(ps[..i], pixel);
      var colour := ThreeBytesToRgbHexString(pixel);
      colours := colours + [colour];
    }
    assert ps[..|ps|] == ps;
  }

  /** Reading every colour back as three hex pairs, after a prefix of p characters. */
  function Unhex(colours: seq<string>, p: nat): Option<seq<nat>>
    decreases |colours|
  {
    if colours == [] then Some([])
    else if |colours[0]| < p then None
    else match (ParseHexPairs(colours[0][p..]), Unhex(colours[1..], p))
      case (Some(a), Some(b)) => Some(a + b)
      case _ => None
  }

  /** Parsing the colours text_to_rgb.py collects gives back the padded bytes. */
  lemma {:induction false} ColoursRoundTrip(padded: seq<byte>)
    requires |padded| % 3 == 0
    ensures Unhex(ColourLines(Pixels(padded)), 0) == Some(padded)
    decreases |padded|
  {
    if padded != [] {
      var rest := padded[3..];
      var colours := ColourLines(Pixels(padded));
      assert Pixels(padded) == [padded[..3]] + Pixels(rest);
      assert colours == [ThreeBytesToRgbHexString(padded[..3])] + ColourLines(Pixels(rest));
      ColoursRoundTrip(rest);
      HexRoundTrip(padded[..3]);
      assert colours[0][0..] == colours[0];
      assert colours[1..] == ColourLines(Pixels(rest));
      assert padded == padded[..3] + rest;
    }
  }

  /** Parsing the printed lines of the text2rgb scripts after their '#' gives back the padded bytes. */
  lemma {:induction false} PrintedRoundTrip(padded: seq<byte>)
    requires |padded| % 3 == 0
    ensures Unhex(PrintedLines(Pixels(padded)), 1) == Some(padded)
    decreases |padded|
  {
    if padded != [] {
      var rest := padded[3..];
      var lines := PrintedLines(Pixels(padded));
      assert Pixels(padded) == [padded[..3]] + Pixels(rest);
      RgbToHexRoundTrip(padded[..3], "#");
      assert lines == [RgbToHex(padded[..3], "#").value] + PrintedLines(Pixels(rest));
      PrintedRoundTrip(rest);
      assert lines[1..] == PrintedLines(Pixels(rest));
      assert padded == padded[..3] + rest;
    }
  }

  /**
   * End to end for text_to_rgb.py: the colours of a text read back as its
   * UTF-8 bytes followed by one to three spaces, and those bytes decode to
   * the code points of the text.
   */
  lemma TextToRgbRoundTrip(text: string)
    ensures Unhex(ColourLines(Pixels(Pad(Encode(text), 0x20))), 0).Some?
    ensures var bs := Encode(text);
            var r := Unhex(ColourLines(Pixels(Pad(bs, 0x20))), 0).value;
            |bs| < |r| <= |bs| + 3 && r[..|bs|] == bs
            && (forall i :: |bs| <= i < |r| ==> r[i] == 0x20)
            && Decode(r[..|bs|]) == seq(|text|, i requires 0 <= i < |text| => text[i] as int)
  {
    var bs := Encode(text);
    PadShape(bs, 0x20);
    ColoursRoundTrip(Pad(bs, 0x20));
    DecodeEncode(text);
  }

  /**
   * End to end for the text2rgb scripts: the printed colours, read after
   * their '#', give the UTF-8 bytes of the text followed by one to three
   * zero bytes.
   */
  lemma Text2RgbRoundTrip(text: string)
    ensures Unhex(PrintedLines(Pixels(Pad(Encode(text), 0))), 1).Some?
    ensures var bs := Encode(text);
            var r := Unhex(PrintedLines(Pixels(Pad(bs, 0))), 1).value;
            |bs| < |r| <= |bs| + 3 && r[..|bs|] == bs
            && (forall i :: |bs| <= i < |r| ==> r[i] == 0)
  {
    var bs := Encode(text);
    PadShape(bs, 0);
    PrintedRoundTrip(Pad(bs, 0));
  }

  // ---------------------------------------------------------------------------
  // Image size, scale and name

  /** `(len(padded) // 3, 1)`, each side multiplied by the scale when it is not 1. */
  function TextImageSize(paddedLength: nat, scale: int): (size: (int, int))
    ensures scale == 1 ==> size == (paddedLength / 3, 1)
  {
    var w := paddedLength / 3;
    if scale != 1 then (w * scale, 1 * scale) else (w, 1)
  }

  /**
   * The scaled size is what `scale_image` computes when scaling up, and
   * for a positive scale scaling it back down gives one row of one pixel
   * per chunk.
   */
  lemma TextImageSizeScales(paddedLength: nat, scale: int)
    requires scale >= 1
    ensures ScaleImageSize(paddedLength / 3, 1, scale, false) == Ok(TextImageSize(paddedLength, scale))
    ensures ScaleImageSize(TextImageSize(paddedLength, scale).0, TextImageSize(paddedLength, scale).1, scale, true)
            == Ok((paddedLength / 3, 1))
  {
    ScaleUpDown(paddedLength / 3, 1, scale);
  }

  /**
   * `Image.frombytes('RGB', (len // 3, 1), padded)`: one row holding the
   * pixels whose colours were printed, in order.
   */
  lemma TextImagePixels(padded: seq<byte>)
    requires |padded| % 3 == 0
    ensures var img := BytesToImage(padded, |padded| / 3, 1);
            img.Ok? && img.value.width == |padded| / 3 && img.value.height == 1
            && img.value.data == Pixels(padded)
  {
    var img := BytesToImage(padded, |padded| / 3, 1);
    forall i | 0 <= i < |padded| / 3
      ensures img.value.data[i] == Pixels(padded)[i]
    {
      PixelsAt(padded, i);
    }
  }

  /**
   * pixels/text2rgb.py asks for the scale when no text was given on the
   * command line: `int(input)` (None for its ValueError), and 0 falls back
   * to the command-line scale.
   */
  function InteractiveScale(entered: string, argsScale: int): (r: Option<int>)
    ensures r.Some? <==> ParseInt(entered).Some?
    ensures r.Some? ==> r.value == (if ParseInt(entered).value == 0 then argsScale else ParseInt(entered).value)
  {
    match ParseInt(entered)
    case None => None
    case Some(v) => Some(if v == 0 then argsScale else v)
  }

  /** Entering the digits of a scale gives that scale, and only a 0 gives the default. */
  lemma InteractiveScaleOf(n: int, argsScale: int)
    ensures InteractiveScale(IntToString(n), argsScale) == Some(if n == 0 then argsScale else n)
  {
    IntRoundTrip(n);
  }

  /** text2rgb.py: `{sanitised}-{encoding}-{scale}x.png`. */
  function Text2RgbName(text: string, encoding: string, scale: int): string {
    Sanitised(text) + "-" + encoding + "-" + IntToString(scale) + "x.png"
  }

  /** pixels/text2rgb.py: `{sanitised}-utf-8,{scale}x,(,).png`, coordinates left empty. */
  function PixelsText2RgbName(text: string, scale: int): string {
    Sanitised(text) + "-utf-8," + IntToString(scale) + "x,(,).png"
  }

  /** `images/ignore / name`. */
  function IgnoredPath(name: string): string {
    "images/ignore/" + name
  }

  lemma {:induction false} NoNewlines(s: string)
    ensures forall i :: 0 <= i < |Sanitised(s)| ==> Sanitised(s)[i] != '\n'
    decreases |s|
  {
    if s != [] {
      NoNewlines(s[1..]);
    }
  }

  /** The name text2rgb.py writes has suffix '.png' and keeps everything before it as its stem. */
  lemma Text2RgbNameParts(text: string, encoding: string, scale: int)
    ensures Suffix(Text2RgbName(text, encoding, scale)) == ".png"
    ensures Stem(Text2RgbName(text, encoding, scale)) == Sanitised(text) + "-" + encoding + "-" + IntToString(scale) + "x"
  {
    var stem := Sanitised(text) + "-" + encoding + "-" + IntToString(scale) + "x";
    assert Text2RgbName(text, encoding, scale) == stem + "." + "png";
    StemOfExtension(stem, "png");
  }

  /**
   * The name pixels/text2rgb.py writes for a non-negative scale has the
   * `name,Sx,(X,Y)` form with both coordinates empty, which main.py's
   * file-name parser rejects at `int('')`.
   */
  lemma PixelsText2RgbNameUnloadable(text: string, scale: nat)
    ensures var name := PixelsText2RgbName(text, scale);
            Suffix(name) == ".png" && ParseImgName(Stem(name)) == Err(EmptyNumber)
  {
    var front := Sanitised(text) + "-utf-8";
    var stem := front + "," + NatToString(scale) + "x,(,)";
    assert PixelsText2RgbName(text, scale) == stem + "." + "png";
    StemOfExtension(stem, "png");
    NoNewlines(text);
    EmptyCoordinates(front, scale);
  }
}
