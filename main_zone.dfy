/**
 * main.py's zones: the image file name `name,Sx,(X,Y)` read with
 * `Zone.img_name_regexp`, the conversion of an RGBA image to a template of
 * colour strings (None where transparent), the area counts, and
 * `load_zones`, which looks the wanted names up in a directory listing.
 */
module MainZone {
  import opened Wrappers
  import opened HexCodec
  import opened Decimal
  import opened Images
  import opened PathNames

  datatype ZoneError =
    | NoMatch          // re.match gave None; subscripting it is a TypeError
    | EmptyNumber      // int('') on an empty digit group: ValueError
    | ZeroScale        // scale_img divides by a scale of 0
    | ResizeFailed     // PIL refused the new size
    | NotAnImage       // PIL.Image.open could not read the file

  // ---------------------------------------------------------------------------
  // The file-name regex (.*),([0-9]*)x,\(([0-9]*),([0-9]*)\)

  /** The end of the run of digits that starts at i. */
  function DigitEnd(s: string, i: nat): (j: nat)
    requires i <= |s|
    ensures i <= j <= |s| && AllDigits(s[i..j]) && (j < |s| ==> !IsDigit(s[j]))
    decreases |s| - i
  {
    if i < |s| && IsDigit(s[i]) then
      var j := DigitEnd(s, i + 1);
      assert s[i..j] == [s[i]] + s[i + 1..j];
      j
    else i
  }

  lemma {:induction false} DigitEndIs(s: string, i: nat, j: nat)
    requires i <= j <= |s| && AllDigits(s[i..j]) && (j < |s| ==> !IsDigit(s[j]))
    ensures DigitEnd(s, i) == j
    decreases j - i
  {
    if i < j {
      assert s[i] == s[i..j][0];
      assert s[i + 1..j] == s[i..j][1..];
      DigitEndIs(s, i + 1, j);
    }
  }

  /**
   * The part of the pattern after `(.*)`, tried at position i: the three digit
   * groups, which are forced to be maximal runs because a digit never matches
   * the literal that follows them.
   */
  function TailAt(s: string, i: nat): Option<(string, string, string)>
    requires i <= |s|
  {
    if i < |s| && s[i] == ',' then
      var j1 := DigitEnd(s, i + 1);
      if j1 + 3 <= |s| && s[j1..j1 + 3] == "x,(" then
        var j2 := DigitEnd(s, j1 + 3);
        if j2 < |s| && s[j2] == ',' then
          var j3 := DigitEnd(s, j2 + 1);
          if j3 < |s| && s[j3] == ')' then Some((s[i + 1..j1], s[j1 + 3..j2], s[j2 + 1..j3])) else None
        else None
      else None
    else None
  }

  /** How far `.*` can reach: `.` does not match a newline. */
  function FirstNewline(s: string): (n: nat)
    ensures n <= |s| && (n < |s| ==> s[n] == '\n')
    ensures forall i :: 0 <= i < n ==> s[i] != '\n'
    decreases |s|
  {
    if s == [] then 0
    else if s[0] == '\n' then 0
    else 1 + FirstNewline(s[1..])
  }

  /** The greedy `.*` backs off from i until the rest of the pattern matches. */
  function LastTail(s: string, i: nat): (r: Option<nat>)
    requires i <= |s|
    ensures r.Some? ==> r.value <= i && TailAt(s, r.value).Some?
    ensures r.Some? ==> forall k :: r.value < k <= i ==> TailAt(s, k).None?
    ensures r.None? ==> forall k :: 0 <= k <= i ==> TailAt(s, k).None?
    decreases i
  {
    if TailAt(s, i).Some? then Some(i)
    else if i == 0 then None
    else LastTail(s, i - 1)
  }

  datatype ImgName = ImgName(name: string, scale: nat, x: nat, y: nat)

  /**
   * `re.match(img_name_regexp, stem)` followed by `int` of the three groups
   * (Zone.__init__): the name is the longest prefix after which the rest of
   * the pattern matches; anything after the closing parenthesis is ignored.
   */
  function ParseImgName(stem: string): (r: Result<ImgName, ZoneError>)
    ensures r.Ok? ==> |r.value.name| < |stem| && stem[|r.value.name|] == ','
    ensures r.Ok? ==> forall i :: 0 <= i < |r.value.name| ==> r.value.name[i] != '\n'
  {
    match LastTail(stem, FirstNewline(stem))
    case None => Err(NoMatch)
    case Some(k) =>
      var groups := TailAt(stem, k).value;
      if groups.0 == [] || groups.1 == [] || groups.2 == [] then Err(EmptyNumber)
      else Ok(ImgName(stem[..k], DigitsValue(groups.0), DigitsValue(groups.1), DigitsValue(groups.2)))
  }

  /** The file name main.py expects for a zone: `name,S` `x,(X,Y)`. */
  function ImgNameString(n: ImgName): string {
    n.name + "," + NatToString(n.scale) + "x,(" + NatToString(n.x) + "," + NatToString(n.y) + ")"
  }

  /** Any name without a newline, commas included, is read back with its three numbers. */
  lemma ParseImgNameRoundTrip(n: ImgName)
    requires forall i :: 0 <= i < |n.name| ==> n.name[i] != '\n'
    ensures ParseImgName(ImgNameString(n)) == Ok(n)
  {
    var a, b, c := NatToString(n.scale), NatToString(n.x), NatToString(n.y);
    assert ImgNameString(n) == Glue(n.name, a, b, c);
    GlueMatches(n.name, a, b, c);
    NatRoundTrip(n.scale);
    NatRoundTrip(n.x);
    NatRoundTrip(n.y);
  }

  /** A name whose coordinates are left empty matches the regex but fails in `int('')`. */
  lemma EmptyCoordinates(name: string, scale: nat)
    requires forall i :: 0 <= i < |name| ==> name[i] != '\n'
    ensures ParseImgName(name + "," + NatToString(scale) + "x,(,)") == Err(EmptyNumber)
  {
    var a := NatToString(scale);
    assert name + "," + a + "x,(,)" == Glue(name, a, "", "");
    GlueMatches(name, a, "", "");
  }

  /** The text `name,{a}x,({b},{c})`, with the three groups as given. */
  function Glue(name: string, a: string, b: string, c: string): string {
    name + "," + a + "x,(" + b + "," + c + ")"
  }

  /** With digit groups, the pattern matches with `(.*)` taking exactly the name. */
  lemma GlueMatches(name: string, a: string, b: string, c: string)
    requires forall i :: 0 <= i < |name| ==> name[i] != '\n'
    requires AllDigits(a) && AllDigits(b) && AllDigits(c)
    ensures var s := Glue(name, a, b, c);
            && LastTail(s, FirstNewline(s)) == Some(|name|)
            && TailAt(s, |name|) == Some((a, b, c)) && s[..|name|] == name
  {
    var s := Glue(name, a, b, c);
    GlueLayout(name, a, b, c);
    GlueNoNewline(name, a, b, c);
    GlueTail(name, a, b, c);
    GlueNoLaterTail(name, a, b, c);
    LastTailIs(s, |name|);
  }

  /** The last match at or before the end is k when k matches and nothing after it does. */
  lemma LastTailIs(s: string, k: nat)
    requires k <= |s| && TailAt(s, k).Some?
    requires forall i :: k < i <= |s| ==> TailAt(s, i).None?
    ensures LastTail(s, |s|) == Some(k)
  {
  }

  lemma GlueNoNewline(name: string, a: string, b: string, c: string)
    requires forall i :: 0 <= i < |name| ==> name[i] != '\n'
    requires AllDigits(a) && AllDigits(b) && AllDigits(c)
    ensures FirstNewline(Glue(name, a, b, c)) == |Glue(name, a, b, c)|
  {
    var s := Glue(name, a, b, c);
    GlueLayout(name, a, b, c);
    var k := |name|;
    var p1 := k + 1 + |a|;
    var p2 := p1 + 3 + |b|;
    var p3 := p2 + 1 + |c|;
    DigitsAt(s, k + 1, p1);
    DigitsAt(s, p1 + 3, p2);
    DigitsAt(s, p2 + 1, p3);
    forall i | 0 <= i < |s| ensures s[i] != '\n' {
      if i < k {
        assert s[i] == s[..k][i];
      }
    }
  }

  /** The pattern matches at the comma after the name. */
  lemma GlueTail(name: string, a: string, b: string, c: string)
    requires AllDigits(a) && AllDigits(b) && AllDigits(c)
    ensures |name| <= |Glue(name, a, b, c)| && TailAt(Glue(name, a, b, c), |name|) == Some((a, b, c))
  {
    GlueLayout(name, a, b, c);
    TailOfLayout(Glue(name, a, b, c), |name|, a, b, c);
  }

  lemma TailOfLayout(s: string, k: nat, a: string, b: string, c: string)
    requires AllDigits(a) && AllDigits(b) && AllDigits(c)
    requires var p1 := k + 1 + |a|; var p2 := p1 + 3 + |b|; var p3 := p2 + 1 + |c|;
             && |s| == p3 + 1 && s[k] == ','
             && s[k + 1..p1] == a && s[p1] == 'x' && s[p1 + 1] == ',' && s[p1 + 2] == '('
             && s[p1 + 3..p2] == b && s[p2] == ',' && s[p2 + 1..p3] == c && s[p3] == ')'
    ensures TailAt(s, k) == Some((a, b, c))
  {
    var p1 := k + 1 + |a|;
    var p2 := p1 + 3 + |b|;
    var p3 := p2 + 1 + |c|;
    DigitEndIs(s, k + 1, p1);
    assert s[p1..p1 + 3] == "x,(";
    DigitEndIs(s, p1 + 3, p2);
    DigitEndIs(s, p2 + 1, p3);
  }

  /** The pattern matches at no position to the right of that comma. */
  lemma GlueNoLaterTail(name: string, a: string, b: string, c: string)
    requires AllDigits(a) && AllDigits(b) && AllDigits(c)
    ensures forall i :: |name| < i <= |Glue(name, a, b, c)| ==> TailAt(Glue(name, a, b, c), i).None?
  {
    GlueLayout(name, a, b, c);
    NoTailAfterLayout(Glue(name, a, b, c), |name|, a, b, c);
  }

  lemma NoTailAfterLayout(s: string, k: nat, a: string, b: string, c: string)
    requires AllDigits(a) && AllDigits(b) && AllDigits(c)
    requires var p1 := k + 1 + |a|; var p2 := p1 + 3 + |b|; var p3 := p2 + 1 + |c|;
             && |s| == p3 + 1 && s[k] == ','
             && s[k + 1..p1] == a && s[p1] == 'x' && s[p1 + 1] == ',' && s[p1 + 2] == '('
             && s[p1 + 3..p2] == b && s[p2] == ',' && s[p2 + 1..p3] == c && s[p3] == ')'
    ensures forall i :: k < i <= |s| ==> TailAt(s, i).None?
  {
    var p1 := k + 1 + |a|;
    var p2 := p1 + 3 + |b|;
    var p3 := p2 + 1 + |c|;
    DigitsAt(s, k + 1, p1);
    DigitsAt(s, p1 + 3, p2);
    DigitsAt(s, p2 + 1, p3);
    forall i | k < i <= |s| ensures TailAt(s, i).None? {
      if i < |s| && s[i] == ',' {
        assert i == p1 + 1 || i == p2;
        if i == p1 + 1 {
          DigitEndIs(s, i + 1, i + 1);
        } else {
          DigitEndIs(s, i + 1, p3);
        }
      }
    }
  }

  /** Every character of a run of digits is a digit. */
  lemma DigitsAt(s: string, lo: nat, hi: nat)
    requires lo <= hi <= |s| && AllDigits(s[lo..hi])
    ensures forall i :: lo <= i < hi ==> IsDigit(s[i])
  {
    forall i | lo <= i < hi ensures IsDigit(s[i]) {
      assert s[i] == s[lo..hi][i - lo];
    }
  }

  /** Where each piece of the text sits. */
  lemma GlueLayout(name: string, a: string, b: string, c: string)
    ensures var s := Glue(name, a, b, c);
            var k := |name|; var p1 := k + 1 + |a|; var p2 := p1 + 3 + |b|; var p3 := p2 + 1 + |c|;
            && |s| == p3 + 1 && s[..k] == name && s[k] == ','
            && s[k + 1..p1] == a && s[p1] == 'x' && s[p1 + 1] == ',' && s[p1 + 2] == '('
            && s[p1 + 3..p2] == b && s[p2] == ',' && s[p2 + 1..p3] == c && s[p3] == ')'
  {
    var s0 := name + ",";
    var s1 := s0 + a;
    var s2 := s1 + "x,(";
    var s3 := s2 + b;
    var s4 := s3 + ",";
    var s5 := s4 + c;
    var s := s5 + ")";
    assert s == Glue(name, a, b, c);
    assert s[..|s|] == s5 + ")";
    Peel(s, s5, ")");
    Peel(s, s4, c);
    Peel(s, s3, ",");
    Peel(s, s2, b);
    Peel(s, s1, "x,(");
    Peel(s, s0, a);
    Peel(s, name, ",");
    assert s[|s5|] == s[|s5|..|s|][0];
    assert s[|s3|] == s[|s3|..|s4|][0];
    assert s[|name|] == s[|name|..|s0|][0];
    assert s[|s1|] == s[|s1|..|s2|][0] && s[|s1| + 1] == s[|s1|..|s2|][1] && s[|s1| + 2] == s[|s1|..|s2|][2];
  }

  /** When `t + y` starts s, t starts s and y follows it. */
  lemma Peel(s: string, t: string, y: string)
    requires |t| + |y| <= |s| && s[..|t| + |y|] == t + y
    ensures s[..|t|] == t && s[|t|..|t| + |y|] == y
  {
    forall i | 0 <= i < |t| ensures s[i] == t[i] {
      assert s[i] == s[..|t| + |y|][i];
    }
    forall i | 0 <= i < |y| ensures s[|t| + i] == y[i] {
      assert s[|t| + i] == s[..|t| + |y|][|t| + i];
    }
  }

  // ---------------------------------------------------------------------------
  // Images to templates

  /** One RGBA pixel of the template: None when fully transparent, else its colour string. */
  function TemplateCell(p: Pixel): (c: Option<string>)
    requires |p| == 4
    ensures c.None? <==> p[3] == 0
    ensures c.Some? ==> |c.value| == 6 && IsLowerHex(c.value)
  {
    if p[3] == 0 then None else Some(ThreeBytesToRgbHexString(p[..3]))
  }

  /** `img_to_lists`: the converted pixels cut into rows of the image's width. */
  function TemplateOf(img: Image): seq<seq<Option<string>>>
    requires WellFormed(img, 4)
  {
    Grid(seq(|img.data|, i requires 0 <= i < |img.data| => TemplateCell(img.data[i])), img.width, img.height)
  }

  /** The template has the image's shape, and cell (x, y) comes from pixel y*width + x. */
  lemma TemplateShape(img: Image)
    requires WellFormed(img, 4)
    ensures |TemplateOf(img)| == img.height
    ensures forall y :: 0 <= y < img.height ==> |TemplateOf(img)[y]| == img.width
    ensures forall y, x :: 0 <= y < img.height && 0 <= x < img.width ==>
              TemplateOf(img)[y][x] == TemplateCell(img.data[y * img.width + x])
  {
    var cells := seq(|img.data|, i requires 0 <= i < |img.data| => TemplateCell(img.data[i]));
    GridCells(cells, img.width, img.height);
  }

  /** `img_to_lists` with its two append loops. */
  method ImgToLists(img: Image) returns (t: seq<seq<Option<string>>>)
    requires WellFormed(img, 4)
    ensures t == TemplateOf(img)
  {
    var cells: seq<Option<string>> := [];
    var i := 0;
    while i < |img.data|
      invariant i <= |img.data| && |cells| == i
      invariant forall j :: 0 <= j < i ==> cells[j] == TemplateCell(img.data[j])
    {
      var p := img.data[i];
      if p[3] == 0 {
        cells := cells + [None];
      } else {
        cells := cells + [Some(ThreeBytesToRgbHexString(p[..3]))];
      }
      assert cells[i] == TemplateCell(img.data[i]);
      i := i + 1;
    }
    assert cells == seq(|img.data|, i requires 0 <= i < |img.data| => TemplateCell(img.data[i]));
    t := [];
    var row := 0;
    while row < img.height
      invariant row <= img.height && |t| == row
      invariant forall r :: 0 <= r < row ==> t[r] == GridRow(cells, img.width, r)
    {
      var w := img.width;
      t := t + [PySlice(cells, row * w, row * w + w)];
      assert t[row] == GridRow(cells, w, row);
      row := row + 1;
    }
    assert t == Grid(cells, img.width, img.height);
  }

  /** The number of transparent cells. */
  function CountNone<T>(t: seq<seq<Option<T>>>): (n: nat)
    decreases |t|
  {
    if t == [] then 0 else CountNoneRow(t[|t| - 1]) + CountNone(t[..|t| - 1])
  }

  function CountNoneRow<T>(row: seq<Option<T>>): (n: nat)
    ensures n <= |row|
    decreases |row|
  {
    if row == [] then 0 else (if row[|row| - 1].None? then 1 else 0) + CountNoneRow(row[..|row| - 1])
  }

  /** A rectangular template has at most width*height transparent cells. */
  lemma {:induction false} CountNoneBound<T>(t: seq<seq<Option<T>>>, w: nat)
    requires forall y :: 0 <= y < |t| ==> |t[y]| == w
    ensures CountNone(t) <= |t| * w
    decreases |t|
  {
    if t != [] {
      CountNoneBound(t[..|t| - 1], w);
      assert |t| * w == (|t| - 1) * w + w;
    }
  }

  /** The `area_not_transparent` loop: one decrement per None cell. */
  method AreaNotTransparent(t: seq<seq<Option<string>>>, area: int) returns (n: int)
    ensures n == area - CountNone(t)
  {
    n := area;
    var y := 0;
    while y < |t|
      invariant y <= |t| && n == area - CountNone(t[..y])
    {
      var row := t[y];
      var x := 0;
      var before := n;
      while x < |row|
        invariant x <= |row| && n == before - CountNoneRow(row[..x])
      {
        if row[x].None? {
          n := n - 1;
        }
        assert row[..x + 1][..x] == row[..x];
        x := x + 1;
      }
      assert row[..|row|] == row;
      assert t[..y + 1][..y] == t[..y];
      y := y + 1;
    }
    assert t[..|t|] == t;
  }

  // ---------------------------------------------------------------------------
  // Zones

  datatype Zone = Zone(path: string, name: string, scale: nat, locX: nat, locY: nat,
                       width: nat, height: nat, area: nat, img: seq<seq<Option<string>>>,
                       areaNotTransparent: int)

  /** `scale_img`'s new size, `(w // scale, h // scale)`. */
  function ScaleImgSize(w: nat, h: nat, scale: nat): (r: Option<(nat, nat)>)
    ensures r.None? <==> scale == 0
    ensures r.Some? ==> r.value.0 * scale <= w < r.value.0 * scale + scale
                        && r.value.1 * scale <= h < r.value.1 * scale + scale
  {
    if scale == 0 then None else Some((w / scale, h / scale))
  }

  /** The image after the optional rescale of Zone.__init__. */
  function Scaled(image: Image, scale: nat, resize: Resize): Result<Image, ZoneError> {
    if scale == 1 then Ok(image)
    else match ScaleImgSize(image.width, image.height, scale)
      case None => Err(ZeroScale)
      case Some(size) =>
        match resize(image, size.0, size.1)
        case None => Err(ResizeFailed)
        case Some(scaled) => Ok(scaled)
  }

  lemma ScaledWellFormed(image: Image, scale: nat, resize: Resize)
    requires WellFormed(image, 4) && Sized(resize, 4)
    ensures Scaled(image, scale, resize).Ok? ==> WellFormed(Scaled(image, scale, resize).value, 4)
  {
  }

  /**
   * `Zone(file)` for a file called fileName whose content PIL reads as image,
   * or None when PIL cannot open it. The name is parsed before the file is
   * opened, so a badly named file that is no image fails on its name.
   */
  function ZoneOf(fileName: string, image: Option<Image>, resize: Resize): (r: Result<Zone, ZoneError>)
    requires image.Some? ==> WellFormed(image.value, 4)
    requires Sized(resize, 4)
  {
    match ParseImgName(Stem(fileName))
    case Err(e) => Err(e)
    case Ok(n) =>
      if image.None? then Err(NotAnImage)
      else match Scaled(image.value, n.scale, resize)
        case Err(e) => Err(e)
        case Ok(img) => Ok(ZoneFrom(fileName, n, img))
  }

  /** What opening the file called name gives: its image, or None when it is no image. */
  function Opened(images: map<string, Image>, name: string): Option<Image> {
    if name in images then Some(images[name]) else None
  }

  function ZoneFrom(fileName: string, n: ImgName, img: Image): Zone
    requires WellFormed(img, 4)
  {
    var t := TemplateOf(img);
    var area := img.width * img.height;
    Zone(fileName, n.name, n.scale, n.x, n.y, img.width, img.height, area, t, area - CountNone(t))
  }

  /**
   * What a loaded zone holds: the numbers of its file name, a size that is
   * the image's or its floor-divided shrink, a template of that size, and a
   * count of non-transparent cells between 0 and the area.
   */
  lemma ZoneFacts(fileName: string, image: Option<Image>, resize: Resize)
    requires image.Some? ==> WellFormed(image.value, 4)
    requires Sized(resize, 4)
    requires ZoneOf(fileName, image, resize).Ok?
    ensures image.Some?
    ensures var z := ZoneOf(fileName, image, resize).value;
            && ParseImgName(Stem(fileName)) == Ok(ImgName(z.name, z.scale, z.locX, z.locY))
            && (z.scale == 1 ==> z.width == image.value.width && z.height == image.value.height)
            && (z.scale != 1 ==> z.width == image.value.width / z.scale && z.height == image.value.height / z.scale)
            && z.area == z.width * z.height
            && |z.img| == z.height && (forall y :: 0 <= y < z.height ==> |z.img[y]| == z.width)
            && 0 <= z.areaNotTransparent <= z.area
  {
    var n := ParseImgName(Stem(fileName)).value;
    var img := Scaled(image.value, n.scale, resize).value;
    assert WellFormed(img, 4);
    TemplateShape(img);
    CountNoneBound(TemplateOf(img), img.width);
  }

  /** `Zone.__init__`: parse the name, open and rescale, convert, then count in two loops. */
  method LoadZone(fileName: string, image: Option<Image>, resize: Resize) returns (r: Result<Zone, ZoneError>)
    requires image.Some? ==> WellFormed(image.value, 4)
    requires Sized(resize, 4)
    ensures r == ZoneOf(fileName, image, resize)
  {
    var parsed := ParseImgName(Stem(fileName));
    if parsed.Err? {
      return Err(parsed.error);
    }
    var n := parsed.value;
    if image.None? {
      return Err(NotAnImage);
    }
    var scaled := Scaled(image.value, n.scale, resize);
    if scaled.Err? {
      return Err(scaled.error);
    }
    var img := scaled.value;
    assert WellFormed(img, 4) by {
      ScaledWellFormed(image.value, n.scale, resize);
    }
    var area := img.width * img.height;
    var t := ImgToLists(img);
    var counted := AreaNotTransparent(t, area);
    var z := Zone(fileName, n.name, n.scale, n.x, n.y, img.width, img.height, area, t, counted);
    assert z == ZoneFrom(fileName, n, img);
    r := Ok(z);
  }

  // ---------------------------------------------------------------------------
  // load_zones

  datatype Entry = Entry(name: string, isFile: bool)

  /** Whether some regular file of the listing is called name. */
  predicate HasFile(listing: seq<Entry>, name: string) {
    exists i :: 0 <= i < |listing| && listing[i].name == name && listing[i].isFile
  }

  /** For each wanted name in order: the zone of the file of that name, or nothing. */
  function LoadZonesSpec(listing: seq<Entry>, names: seq<string>, images: map<string, Image>, resize: Resize): Result<seq<Zone>, ZoneError>
    requires Sized(resize, 4) && forall k :: k in images ==> WellFormed(images[k], 4)
    decreases |names|
  {
    if names == [] then Ok([])
    else
      var name := names[0];
      var first :=
        if !HasFile(listing, name) then Ok([])
        else match ZoneOf(name, Opened(images, name), resize)
          case Err(e) => Err(e)
          case Ok(z) => Ok([z]);
      match first
      case Err(e) => Err(e)
      case Ok(zs) =>
        match LoadZonesSpec(listing, names[1..], images, resize)
        case Err(e) => Err(e)
        case Ok(rest) => Ok(zs + rest)
  }

  /** The wanted names that have a regular file in the listing, in the wanted order. */
  function Found(listing: seq<Entry>, names: seq<string>): (r: seq<string>)
    ensures |r| <= |names|
    decreases |names|
  {
    if names == [] then []
    else (if HasFile(listing, names[0]) then [names[0]] else []) + Found(listing, names[1..])
  }

  function Paths(zones: seq<Zone>): seq<string> {
    seq(|zones|, i requires 0 <= i < |zones| => zones[i].path)
  }

  lemma PathsCons(z: Zone, rest: seq<Zone>)
    ensures Paths([z] + rest) == [z.path] + Paths(rest)
  {
  }

  /** The zones come in the order of the wanted names, one per name that has a file; the rest are skipped. */
  lemma {:induction false} LoadZonesOrder(listing: seq<Entry>, names: seq<string>, images: map<string, Image>, resize: Resize)
    requires Sized(resize, 4) && forall k :: k in images ==> WellFormed(images[k], 4)
    requires LoadZonesSpec(listing, names, images, resize).Ok?
    ensures Paths(LoadZonesSpec(listing, names, images, resize).value) == Found(listing, names)
    decreases |names|
  {
    if names != [] {
      LoadZonesOrder(listing, names[1..], images, resize);
      var rest := LoadZonesSpec(listing, names[1..], images, resize).value;
      var all := LoadZonesSpec(listing, names, images, resize).value;
      if HasFile(listing, names[0]) {
        var z := ZoneOf(names[0], Opened(images, names[0]), resize).value;
        assert all == [z] + rest;
        PathsCons(z, rest);
      } else {
        assert all == [] + rest == rest;
      }
    }
  }

  function Prepend(zones: seq<Zone>, r: Result<seq<Zone>, ZoneError>): Result<seq<Zone>, ZoneError> {
    match r
    case Err(e) => Err(e)
    case Ok(rest) => Ok(zones + rest)
  }

  /** Prepending to a result twice is prepending the two parts at once. */
  lemma PrependTwice(a: seq<Zone>, b: seq<Zone>, r: Result<seq<Zone>, ZoneError>)
    ensures Prepend(a, Prepend(b, r)) == Prepend(a + b, r)
  {
    if r.Ok? {
      assert a + (b + r.value) == (a + b) + r.value;
    }
  }

  /** The specification for the names from n on: the n-th name's zone, if any, before the rest. */
  lemma LoadZonesSpecStep(listing: seq<Entry>, names: seq<string>, n: nat, images: map<string, Image>, resize: Resize)
    requires Sized(resize, 4) && forall k :: k in images ==> WellFormed(images[k], 4)
    requires n < |names|
    ensures var tail := LoadZonesSpec(listing, names[n + 1..], images, resize);
            LoadZonesSpec(listing, names[n..], images, resize) ==
              if !HasFile(listing, names[n]) then Prepend([], tail)
              else match ZoneOf(names[n], Opened(images, names[n]), resize)
                case Err(e) => Err(e)
                case Ok(z) => Prepend([z], tail)
  {
    assert names[n..][0] == names[n] && names[n..][1..] == names[n + 1..];
  }

  /** The inner scan of `load_zones`: whether a regular file of that name is listed, stopped at the first hit. */
  method FindFile(listing: seq<Entry>, name: string) returns (found: bool)
    ensures found <==> HasFile(listing, name)
  {
    var i := 0;
    found := false;
    while i < |listing| && !found
      invariant i <= |listing|
      invariant found ==> HasFile(listing, name)
      invariant !found ==> forall j :: 0 <= j < i ==> !(listing[j].name == name && listing[j].isFile)
      decreases |listing| - i, if found then 0 else 1
    {
      if listing[i].name == name && listing[i].isFile {
        found := true;
      } else {
        i := i + 1;
      }
    }
  }

  /** `load_zones(directory, img_names)`: a scan of the listing per name, stopped at the first hit. */
  method LoadZones(listing: seq<Entry>, names: seq<string>, images: map<string, Image>, resize: Resize)
    returns (r: Result<seq<Zone>, ZoneError>)
    requires Sized(resize, 4) && forall k :: k in images ==> WellFormed(images[k], 4)
    ensures r == LoadZonesSpec(listing, names, images, resize)
  {
    var zones: seq<Zone> := [];
    var n := 0;
    assert names[0..] == names;
    PrependTwice([], [], LoadZonesSpec(listing, names, images, resize));
    assert Prepend([], LoadZonesSpec(listing, names, images, resize)) == LoadZonesSpec(listing, names, images, resize) by {
      var all := LoadZonesSpec(listing, names, images, resize);
      if all.Ok? {
        assert [] + all.value == all.value;
      }
    }
    while n < |names|
      invariant n <= |names|
      invariant LoadZonesSpec(listing, names, images, resize) == Prepend(zones, LoadZonesSpec(listing, names[n..], images, resize))
    {
      var name := names[n];
      var found := FindFile(listing, name);
      LoadZonesSpecStep(listing, names, n, images, resize);
      var tail := LoadZonesSpec(listing, names[n + 1..], images, resize);
      if found {
        var z := LoadZone(name, Opened(images, name), resize);
        if z.Err? {
          return Err(z.error);
        }
        PrependTwice(zones, [z.value], tail);
        zones := zones + [z.value];
      } else {
        PrependTwice(zones, [], tail);
        assert zones + [] == zones;
      }
      n := n + 1;
    }
    assert names[n..] == [];
    assert zones + [] == zones;
    r := Ok(zones);
  }
}
