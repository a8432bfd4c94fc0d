/**
 * Images as the program sees them through PIL: a width, a height and the
 * pixel values in row-major order, as iterating over `getdata()` yields
 * them. A pixel is the tuple of its channel values.
 */
module Images {
  import opened Wrappers
  import opened HexCodec

  type Pixel = seq<byte>

  datatype Image = Image(width: nat, height: nat, data: seq<Pixel>)

  /** What PIL guarantees of an image in a mode with `channels` channels. */
  predicate WellFormed(img: Image, channels: nat) {
    |img.data| == img.width * img.height
    && forall i :: 0 <= i < |img.data| ==> |img.data[i]| == channels
  }

  /** Python's `s[i:j]` for 0 <= i <= j: both ends are clamped to the length. */
  function PySlice<T>(s: seq<T>, i: nat, j: nat): (r: seq<T>)
    requires i <= j
    ensures |r| <= j - i
    ensures j <= |s| ==> r == s[i..j]
  {
    var hi := if j <= |s| then j else |s|;
    var lo := if i <= hi then i else hi;
    s[lo..hi]
  }

  /**
   * The rows `data[i*w : i*w + w]` for i in range(h): what `image_to_list`
   * and `img_to_lists` build.
   */
  function Grid<T>(data: seq<T>, w: nat, h: nat): (g: seq<seq<T>>)
    ensures |g| == h
    ensures forall i :: 0 <= i < h ==> g[i] == GridRow(data, w, i)
  {
    seq(h, i requires 0 <= i < h => GridRow(data, w, i))
  }

  /** Row i of the grid: `data[i*w : i*w + w]`. */
  function GridRow<T>(data: seq<T>, w: nat, i: nat): seq<T> {
    PySlice(data, i * w, i * w + w)
  }

  /** With exactly w*h items, the grid is h rows of w cells and cell (x, y) is item y*w + x. */
  lemma GridCells<T>(data: seq<T>, w: nat, h: nat)
    requires |data| == w * h
    ensures forall y :: 0 <= y < h ==> |Grid(data, w, h)[y]| == w
    ensures forall y, x :: 0 <= y < h && 0 <= x < w ==> Grid(data, w, h)[y][x] == data[y * w + x]
  {
    var g := Grid(data, w, h);
    forall y | 0 <= y < h ensures |g[y]| == w && forall x :: 0 <= x < w ==> g[y][x] == data[y * w + x] {
      var lo := y * w;
      RowWithin(w, h, y);
      assert g[y] == data[lo..lo + w];
    }
  }

  lemma RowWithin(w: nat, h: nat, y: nat)
    requires y < h
    ensures y * w + w <= w * h
  {
    calc {
      y * w + w;
      (y + 1) * w;
    <= { MulLe(y + 1, h, w); }
      h * w;
    }
  }

  lemma MulLe(a: nat, b: nat, w: nat)
    requires a <= b
    ensures a * w <= b * w
  {
  }

  /** Python's `a // b`: the quotient rounded towards minus infinity. */
  function FloorDiv(a: int, b: int): (q: int)
    requires b != 0
    ensures b > 0 ==> q * b <= a < q * b + b
    ensures b < 0 ==> q * b >= a > q * b + b
  {
    if b > 0 then a / b else (-a) / (-b)
  }

  /** PIL's `Image.resize` with nearest-neighbour resampling; None where PIL raises. */
  type Resize = (Image, int, int) -> Option<Image>

  /** A resize gives an image of the requested size with the input's channel count. */
  ghost predicate Sized(resize: Resize, channels: nat) {
    forall img: Image, w: int, h: int {:trigger resize(img, w, h)} ::
      WellFormed(img, channels) && resize(img, w, h).Some? ==>
        resize(img, w, h).value.width == w && resize(img, w, h).value.height == h
        && WellFormed(resize(img, w, h).value, channels)
  }
}
