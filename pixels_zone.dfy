/**
 * pixels/zone.py: a zone is read from a JSON definition naming its image,
 * its top-left coordinates and its scale; the image is converted to RGBA,
 * shrunk when the scale is not 1, and cut into rows. `load_zones` builds one
 * zone per regular `.json` file of a directory, in listing order.
 */
module PixelsZone {
  import opened Wrappers
  import opened HexCodec
  import opened Images
  import opened PathNames
  import PixelsUtil

  /**
   * The keys of a zone definition, None where the key is missing. Values
   * are taken to have the types the program uses them at.
   */
  datatype Definition = Definition(name: Option<string>, image: Option<string>,
                                   coords: Option<(nat, nat)>, scale: Option<int>)

  datatype ZoneError =
    | MissingKey(key: string, file: string)  // the ValueError raised for a missing key
    | NotJson(file: string)                  // open or json.load failed
    | NoImage(path: string)                  // PIL.Image.open failed
    | ZeroDivision                           // scale_image by 0
    | ResizeFailed                           // PIL refused the new size

  /** The validated keys, in the order the definition is checked. */
  datatype Keys = Keys(name: string, image: string, coords: (nat, nat), scale: int)

  /** The try block: the first missing key of name, image, coords, scale is reported. */
  function CheckKeys(d: Definition, file: string): (r: Result<Keys, ZoneError>)
    ensures r.Ok? <==> d.name.Some? && d.image.Some? && d.coords.Some? && d.scale.Some?
    ensures r.Ok? ==> r.value == Keys(d.name.value, d.image.value, d.coords.value, d.scale.value)
    ensures r == Err(MissingKey("name", file)) <==> d.name.None?
    ensures r == Err(MissingKey("image", file)) <==> d.name.Some? && d.image.None?
    ensures r == Err(MissingKey("coords", file)) <==> d.name.Some? && d.image.Some? && d.coords.None?
    ensures r == Err(MissingKey("scale", file)) <==> d.name.Some? && d.image.Some? && d.coords.Some? && d.scale.None?
  {
    match d
    case Definition(None, _, _, _) => Err(MissingKey("name", file))
    case Definition(Some(n), None, _, _) => Err(MissingKey("image", file))
    case Definition(Some(n), Some(i), None, _) => Err(MissingKey("coords", file))
    case Definition(Some(n), Some(i), Some(c), None) => Err(MissingKey("scale", file))
    case Definition(Some(n), Some(i), Some(c), Some(s)) => Ok(Keys(n, i, c, s))
  }

  /**
   * `image_to_list`: one slice of the pixel data per row. The data is taken
   * to be a sequence that slices like a list.
   */
  method ImageToList(image: Image) returns (rows: seq<seq<Pixel>>)
    ensures rows == Grid(image.data, image.width, image.height)
  {
    var w := image.width;
    rows := [];
    var row := 0;
    while row < image.height
      invariant row <= image.height && |rows| == row
      invariant forall r :: 0 <= r < row ==> rows[r] == PySlice(image.data, r * w, r * w + w)
    {
      rows := rows + [PySlice(image.data, row * w, row * w + w)];
      row := row + 1;
    }
  }

  /** Pixels whose alpha channel is 0. */
  function CountClear(rows: seq<seq<Pixel>>): (n: nat)
    requires forall y, x :: 0 <= y < |rows| && 0 <= x < |rows[y]| ==> |rows[y][x]| == 4
    decreases |rows|
  {
    if rows == [] then 0 else CountClearRow(rows[|rows| - 1]) + CountClear(rows[..|rows| - 1])
  }

  function CountClearRow(row: seq<Pixel>): (n: nat)
    requires forall x :: 0 <= x < |row| ==> |row[x]| == 4
    ensures n <= |row|
    decreases |row|
  {
    if row == [] then 0 else (if row[|row| - 1][3] == 0 then 1 else 0) + CountClearRow(row[..|row| - 1])
  }

  /** Rows of width w hold at most |rows| * w clear pixels. */
  lemma {:induction false} CountClearBound(rows: seq<seq<Pixel>>, w: nat)
    requires forall y, x :: 0 <= y < |rows| && 0 <= x < |rows[y]| ==> |rows[y][x]| == 4
    requires forall y :: 0 <= y < |rows| ==> |rows[y]| == w
    ensures CountClear(rows) <= |rows| * w
    decreases |rows|
  {
    if rows != [] {
      CountClearBound(rows[..|rows| - 1], w);
      assert |rows| * w == (|rows| - 1) * w + w;
    }
  }

  /** The `area_opaque` loop: start from the area, one decrement per clear pixel. */
  method AreaOpaque(rows: seq<seq<Pixel>>, area: int) returns (n: int)
    requires forall y, x :: 0 <= y < |rows| && 0 <= x < |rows[y]| ==> |rows[y][x]| == 4
    ensures n == area - CountClear(rows)
  {
    n := area;
    var y := 0;
    while y < |rows|
      invariant y <= |rows| && n == area - CountClear(rows[..y])
    {
      var row := rows[y];
      var x := 0;
      var before := n;
      while x < |row|
        invariant x <= |row| && n == before - CountClearRow(row[..x])
      {
        if row[x][3] == 0 {
          n := n - 1;
        }
        assert row[..x + 1][..x] == row[..x];
        x := x + 1;
      }
      assert row[..|row|] == row;
      assert rows[..y + 1][..y] == rows[..y];
      y := y + 1;
    }
    assert rows[..|rows|] == rows;
  }

  datatype Zone = Zone(jsonPath: string, name: string, imagePath: string, coords: (nat, nat), scale: int,
                       width: nat, height: nat, area: nat, image2d: seq<seq<Pixel>>, areaOpaque: int)

  /** `scale_image(image, scale)`, shrinking: the floor-divided size, then PIL's resize. */
  function ScaleImage(image: Image, scale: int, resize: Resize): (r: Result<Image, ZoneError>)
    ensures scale == 0 ==> r == Err(ZeroDivision)
  {
    match PixelsUtil.ScaleImageSize(image.width, image.height, scale, true)
    case Err(_) => Err(ZeroDivision)
    case Ok(size) =>
      match resize(image, size.0, size.1)
      case None => Err(ResizeFailed)
      case Some(img) => Ok(img)
  }

  /** The image of the zone: unchanged at scale 1, else shrunk. */
  function ZoneImage(image: Image, scale: int, resize: Resize): Result<Image, ZoneError> {
    if scale != 1 then ScaleImage(image, scale, resize) else Ok(image)
  }

  /**
   * `Zone(json_path)`. `definitions` holds the parsed JSON of each readable
   * definition file and `images` each image file PIL opens, already
   * converted to RGBA.
   */
  function ZoneOf(jsonPath: string, definitions: map<string, Definition>, images: map<string, Image>,
                  resize: Resize): Result<Zone, ZoneError>
    requires Sized(resize, 4) && forall k :: k in images ==> WellFormed(images[k], 4)
  {
    if jsonPath !in definitions then Err(NotJson(jsonPath))
    else match CheckKeys(definitions[jsonPath], jsonPath)
      case Err(e) => Err(e)
      case Ok(k) =>
        if k.image !in images then Err(NoImage(k.image))
        else match ZoneImage(images[k.image], k.scale, resize)
          case Err(e) => Err(e)
          case Ok(img) => Ok(ZoneFrom(jsonPath, k, img))
  }

  function ZoneFrom(jsonPath: string, k: Keys, img: Image): Zone
    requires WellFormed(img, 4)
  {
    var rows := Grid(img.data, img.width, img.height);
    GridPixels(img);
    var area := img.width * img.height;
    Zone(jsonPath, k.name, k.image, k.coords, k.scale, img.width, img.height, area, rows, area - CountClear(rows))
  }

  /** The rows of an RGBA image are `width` pixels of four channels each. */
  lemma GridPixels(img: Image)
    requires WellFormed(img, 4)
    ensures var rows: seq<seq<Pixel>> := Grid(img.data, img.width, img.height);
            (forall y :: 0 <= y < |rows| ==> |rows[y]| == img.width)
            && forall y, x :: 0 <= y < |rows| && 0 <= x < |rows[y]| ==> |rows[y][x]| == 4
  {
    GridCells(img.data, img.width, img.height);
    var rows := Grid(img.data, img.width, img.height);
    forall y, x | 0 <= y < |rows| && 0 <= x < |rows[y]| ensures |rows[y][x]| == 4 {
      assert rows[y][x] == img.data[y * img.width + x];
      RowWithin(img.width, img.height, y);
    }
  }

  /** A zone made from an RGBA image. */
  predicate Rgba(z: Zone) {
    forall y, x :: 0 <= y < |z.image2d| && 0 <= x < |z.image2d[y]| ==> |z.image2d[y][x]| == 4
  }

  /**
   * What a loaded zone holds: the definition's keys, the image's size or
   * its floor-divided shrink, `area = width * height`, `height` rows of
   * `width` RGBA pixels, and `0 <= area_opaque <= area`.
   */
  lemma ZoneFacts(jsonPath: string, definitions: map<string, Definition>, images: map<string, Image>, resize: Resize)
    requires Sized(resize, 4) && forall k :: k in images ==> WellFormed(images[k], 4)
    requires ZoneOf(jsonPath, definitions, images, resize).Ok?
    ensures var z := ZoneOf(jsonPath, definitions, images, resize).value;
            var d := definitions[jsonPath];
            var image := images[d.image.value];
            && z.jsonPath == jsonPath
            && d == Definition(Some(z.name), Some(z.imagePath), Some(z.coords), Some(z.scale))
            && (z.scale == 1 ==> z.width == image.width && z.height == image.height)
            && (z.scale > 1 ==> z.width * z.scale <= image.width < z.width * z.scale + z.scale
                                && z.height * z.scale <= image.height < z.height * z.scale + z.scale)
            && z.area == z.width * z.height
            && |z.image2d| == z.height && (forall y :: 0 <= y < z.height ==> |z.image2d[y]| == z.width)
            && Rgba(z) && 0 <= z.areaOpaque <= z.area
  {
    var k := CheckKeys(definitions[jsonPath], jsonPath).value;
    var img := ZoneImage(images[k.image], k.scale, resize).value;
    assert WellFormed(img, 4);
    GridPixels(img);
    CountClearBound(Grid(img.data, img.width, img.height), img.width);
  }

  /** `Zone.__init__`: check the keys, open and rescale the image, cut it into rows and count. */
  method LoadZone(jsonPath: string, definitions: map<string, Definition>, images: map<string, Image>, resize: Resize)
    returns (r: Result<Zone, ZoneError>)
    requires Sized(resize, 4) && forall k :: k in images ==> WellFormed(images[k], 4)
    ensures r == ZoneOf(jsonPath, definitions, images, resize)
  {
    if jsonPath !in definitions {
      return Err(NotJson(jsonPath));
    }
    var keys := CheckKeys(definitions[jsonPath], jsonPath);
    if keys.Err? {
      return Err(keys.error);
    }
    var k := keys.value;
    if k.image !in images {
      return Err(NoImage(k.image));
    }
    var image := images[k.image];
    var scaled: Result<Image, ZoneError>;
    if k.scale != 1 {
      scaled := ScaleImage(image, k.scale, resize);
      if scaled.Err? {
        return Err(scaled.error);
      }
    } else {
      scaled := Ok(image);
    }
    var img := scaled.value;
    assert WellFormed(img, 4);
    var area := img.width * img.height;
    var rows := ImageToList(img);
    GridPixels(img);
    var counted := AreaOpaque(rows, area);
    var z := Zone(jsonPath, k.name, k.image, k.coords, k.scale, img.width, img.height, area, rows, counted);
    assert z == ZoneFrom(jsonPath, k, img);
    r := Ok(z);
  }

  // ---------------------------------------------------------------------------
  // load_zones

  /** An entry of `directory.iterdir()`: the joined path and whether it is a regular file. */
  datatype PathEntry = PathEntry(path: string, isFile: bool)

  /** Whether `load_zones` makes a zone of this directory entry: `path.suffix` looks at the name only. */
  predicate IsDefinition(e: PathEntry) {
    e.isFile && Suffix(Name(e.path)) == ".json"
  }

  /** A regular file `directory / (stem + ".json")` with a non-empty stem is a definition. */
  lemma JsonFileIsDefinition(directory: string, stem: string)
    requires stem != [] && forall i :: 0 <= i < |stem| ==> stem[i] != '/'
    ensures IsDefinition(PathEntry(directory + "/" + stem + ".json", true))
  {
    var name := stem + "." + "json";
    assert forall i :: 0 <= i < |name| ==> name[i] != '/' by {
      assert forall i :: |stem| <= i < |name| ==> name[i] == ".json"[i - |stem|];
    }
    assert directory + "/" + stem + ".json" == directory + "/" + name;
    NameOfJoin(directory, name);
    StemOfExtension(stem, "json");
  }

  /** A file named only `.json` has no suffix for pathlib and is not loaded, whatever its directory. */
  lemma HiddenJsonSkipped(directory: string)
    ensures !IsDefinition(PathEntry(directory + "/.json", true))
  {
    NameOfJoin(directory, ".json");
    LastDotIs(".json", 0);
    assert directory + "/.json" == directory + "/" + ".json";
  }

  /** One zone per definition file of the listing, in listing order; the first error ends the load. */
  function LoadZonesSpec(listing: seq<PathEntry>, definitions: map<string, Definition>, images: map<string, Image>,
                         resize: Resize): Result<seq<Zone>, ZoneError>
    requires Sized(resize, 4) && forall k :: k in images ==> WellFormed(images[k], 4)
    decreases |listing|
  {
    if listing == [] then Ok([])
    else
      var rest := LoadZonesSpec(listing[1..], definitions, images, resize);
      if !IsDefinition(listing[0]) then rest
      else match ZoneOf(listing[0].path, definitions, images, resize)
        case Err(e) => Err(e)
        case Ok(z) =>
          match rest
          case Err(e) => Err(e)
          case Ok(zs) => Ok([z] + zs)
  }

  /** The paths of the definition files, in listing order. */
  function DefinitionPaths(listing: seq<PathEntry>): (r: seq<string>)
    ensures |r| <= |listing|
    decreases |listing|
  {
    if listing == [] then []
    else (if IsDefinition(listing[0]) then [listing[0].path] else []) + DefinitionPaths(listing[1..])
  }

  function JsonPaths(zones: seq<Zone>): seq<string> {
    seq(|zones|, i requires 0 <= i < |zones| => zones[i].jsonPath)
  }

  lemma JsonPathsCons(z: Zone, rest: seq<Zone>)
    ensures JsonPaths([z] + rest) == [z.jsonPath] + JsonPaths(rest)
  {
  }

  /** A successful load has exactly one zone per definition file, in listing order. */
  lemma {:induction false} LoadZonesOrder(listing: seq<PathEntry>, definitions: map<string, Definition>,
                                          images: map<string, Image>, resize: Resize)
    requires Sized(resize, 4) && forall k :: k in images ==> WellFormed(images[k], 4)
    requires LoadZonesSpec(listing, definitions, images, resize).Ok?
    ensures JsonPaths(LoadZonesSpec(listing, definitions, images, resize).value) == DefinitionPaths(listing)
    decreases |listing|
  {
    if listing != [] {
      LoadZonesOrder(listing[1..], definitions, images, resize);
      var rest := LoadZonesSpec(listing[1..], definitions, images, resize).value;
      var all := LoadZonesSpec(listing, definitions, images, resize).value;
      if IsDefinition(listing[0]) {
        var z := ZoneOf(listing[0].path, definitions, images, resize).value;
        assert all == [z] + rest;
        JsonPathsCons(z, rest);
      } else {
        assert all == [] + rest == rest;
      }
    }
  }

  /** A definition file whose zone cannot be made makes the whole load fail. */
  lemma {:induction false} LoadZonesFails(listing: seq<PathEntry>, definitions: map<string, Definition>,
                                          images: map<string, Image>, resize: Resize, i: nat)
    requires Sized(resize, 4) && forall k :: k in images ==> WellFormed(images[k], 4)
    requires i < |listing| && IsDefinition(listing[i]) && ZoneOf(listing[i].path, definitions, images, resize).Err?
    ensures LoadZonesSpec(listing, definitions, images, resize).Err?
    decreases i
  {
    if i > 0 {
      assert listing[1..][i - 1] == listing[i];
      LoadZonesFails(listing[1..], definitions, images, resize, i - 1);
    }
  }

  function Prepend(zones: seq<Zone>, r: Result<seq<Zone>, ZoneError>): Result<seq<Zone>, ZoneError> {
    match r
    case Err(e) => Err(e)
    case Ok(rest) => Ok(zones + rest)
  }

  /** `load_zones(directory)` over the directory's entries in iteration order. */
  method LoadZones(listing: seq<PathEntry>, definitions: map<string, Definition>, images: map<string, Image>,
                   resize: Resize) returns (r: Result<seq<Zone>, ZoneError>)
    requires Sized(resize, 4) && forall k :: k in images ==> WellFormed(images[k], 4)
    ensures r == LoadZonesSpec(listing, definitions, images, resize)
  {
    var zones: seq<Zone> := [];
    var i := 0;
    assert listing[0..] == listing;
    match LoadZonesSpec(listing, definitions, images, resize) {
      case Ok(all) => assert [] + all == all;
      case Err(_) =>
    }
    while i < |listing|
      invariant i <= |listing|
      invariant LoadZonesSpec(listing, definitions, images, resize)
                == Prepend(zones, LoadZonesSpec(listing[i..], definitions, images, resize))
    {
      var entry := listing[i];
      assert listing[i..][0] == entry && listing[i..][1..] == listing[i + 1..];
      var tail := LoadZonesSpec(listing[i + 1..], definitions, images, resize);
      if IsDefinition(entry) {
        var z := LoadZone(entry.path, definitions, images, resize);
        if z.Err? {
          return Err(z.error);
        }
        match tail {
          case Ok(rest) => assert zones + ([z.value] + rest) == (zones + [z.value]) + rest;
          case Err(_) =>
        }
        zones := zones + [z.value];
      }
      i := i + 1;
    }
    assert listing[i..] == [];
    assert zones + [] == zones;
    r := Ok(zones);
  }
}
