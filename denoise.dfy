/**
 * The two noise removers: noise_manipulation.py works on the list-of-lists
 * canvas of main.py, pixels/noise_manipulation.py on a PIL image. Both
 * sweep the image row by row, look at the eight neighbours of each pixel,
 * and repaint the pixel in place with the most frequent neighbour when that
 * neighbour occurs at least `threshold` times, reporting each repaint with
 * `set_pixel`. They differ at the edges: the list version indexes with
 * Python's negative indices, so row and column -1 wrap to the last ones and
 * only running past the end raises IndexError; the image version raises on
 * every edge pixel.
 */
module Denoise {
  import opened Wrappers
  import opened CanvasModel

  datatype Edge = Wrap | Strict

  /**
   * The neighbour coordinates in the order both versions visit them:
   * row y-1 at x-1, x, x+1; row y at x-1, x+1; row y+1 at x-1, x, x+1.
   */
  function NeighbourCoords(x: int, y: int): (cs: seq<(int, int)>)
    ensures |cs| == 8
    ensures forall k :: 0 <= k < 8 ==> cs[k] != (x, y)
  {
    [(x - 1, y - 1), (x, y - 1), (x + 1, y - 1), (x - 1, y), (x + 1, y), (x - 1, y + 1), (x, y + 1), (x + 1, y + 1)]
  }

  /** Python's `s[i]` on a list of length n: negative indices count from the end. */
  function PyIndex(i: int, n: nat): (r: Option<nat>)
    ensures r.Some? ==> r.value < n
    ensures r.Some? <==> -(n as int) <= i < n
  {
    if 0 <= i < n then Some(i) else if -(n as int) <= i < 0 then Some(i + n) else None
  }

  /** Where a neighbour coordinate is read, or None where reading it raises IndexError. */
  function Resolve(edge: Edge, c: (int, int), w: nat, h: nat): (r: Option<(nat, nat)>)
    ensures r.Some? ==> r.value.0 < w && r.value.1 < h
  {
    match edge
    case Wrap =>
      (match (PyIndex(c.0, w), PyIndex(c.1, h))
       case (Some(rx), Some(ry)) => Some((rx, ry))
       case _ => None)
    case Strict => if 0 <= c.0 < w && 0 <= c.1 < h then Some((c.0, c.1)) else None
  }

  /** Every row has w cells. */
  predicate Rect<C>(g: seq<seq<C>>, w: nat) {
    forall i :: 0 <= i < |g| ==> |g[i]| == w
  }

  /** Whether all eight neighbours of (x, y) can be read. */
  predicate HasNeighbours(edge: Edge, x: int, y: int, w: nat, h: nat) {
    forall k :: 0 <= k < 8 ==> Resolve(edge, NeighbourCoords(x, y)[k], w, h).Some?
  }

  /** Python's `img[c.1][c.0]` (or `getpixel(c)`), or None where it raises IndexError. */
  function Read<C>(edge: Edge, g: seq<seq<C>>, w: nat, c: (int, int)): (r: Option<C>)
    requires Rect(g, w)
    ensures r.Some? <==> Resolve(edge, c, w, |g|).Some?
  {
    match Resolve(edge, c, w, |g|)
    case None => None
    case Some(p) => Some(g[p.1][p.0])
  }

  /** `get_neighbour_pixels`: the eight neighbours, or None for the IndexError. */
  function Neighbours<C>(edge: Edge, g: seq<seq<C>>, w: nat, x: nat, y: nat): (r: Option<seq<C>>)
    requires Rect(g, w)
    ensures r.Some? <==> Interior(edge, x, y, w, |g|)
    ensures r.Some? ==> |r.value| == 8
  {
    if Interior(edge, x, y, w, |g|) then
      NeighboursExist(edge, x, y, w, |g|);
      Some(seq(8, k requires 0 <= k < 8 =>
        var p := Resolve(edge, NeighbourCoords(x, y)[k], w, |g|).value;
        g[p.1][p.0]))
    else None
  }

  /**
   * The pixels with eight readable neighbours: with wrapping, those with a
   * row below and a column to the right; without, those off all four edges.
   */
  predicate Interior(edge: Edge, x: int, y: int, w: nat, h: nat) {
    match edge
    case Wrap => 0 <= x && 0 <= y && x + 1 < w && y + 1 < h
    case Strict => 1 <= x && 1 <= y && x + 1 < w && y + 1 < h
  }

  /** Every neighbour can be read exactly at the interior pixels. */
  lemma NeighboursExist(edge: Edge, x: nat, y: nat, w: nat, h: nat)
    ensures HasNeighbours(edge, x, y, w, h) <==> Interior(edge, x, y, w, h)
  {
    var cs := NeighbourCoords(x, y);
    if !HasNeighbours(edge, x, y, w, h) {
      var k :| 0 <= k < 8 && Resolve(edge, cs[k], w, h).None?;
    }
    if edge == Wrap && !Interior(edge, x, y, w, h) {
      assert Resolve(edge, cs[7], w, h).None?;
    }
    if edge == Strict && !Interior(edge, x, y, w, h) {
      assert Resolve(edge, cs[0], w, h).None? || Resolve(edge, cs[7], w, h).None?;
    }
  }

  /**
   * No neighbour read lands on the pixel itself, not even with wrapping: a
   * wrapped -1 is the last index, which is never x or y at an interior pixel.
   */
  lemma NeverTheCentre(edge: Edge, x: nat, y: nat, w: nat, h: nat, k: nat)
    requires k < 8 && HasNeighbours(edge, x, y, w, h)
    ensures Resolve(edge, NeighbourCoords(x, y)[k], w, h).value != (x, y)
  {
    NeighboursExist(edge, x, y, w, h);
  }

  /** `list.count`: how often c occurs in s. */
  function Count<C(==)>(s: seq<C>, c: C): (n: nat)
    ensures n <= |s|
  {
    if s == [] then 0 else (if s[0] == c then 1 else 0) + Count(s[1..], c)
  }

  /** Two different values together occur at most |s| times. */
  lemma {:induction false} CountTwo<C>(s: seq<C>, c: C, d: C)
    requires c != d
    ensures Count(s, c) + Count(s, d) <= |s|
  {
    if s != [] {
      CountTwo(s[1..], c, d);
    }
  }

  lemma {:induction false} CountAll<C>(s: seq<C>, c: C)
    requires forall i :: 0 <= i < |s| ==> s[i] == c
    ensures Count(s, c) == |s|
  {
    if s != [] {
      CountAll(s[1..], c);
    }
  }

  lemma {:induction false} CountIn<C>(s: seq<C>, c: C)
    requires Count(s, c) > 0
    ensures c in s
  {
    if s[0] != c {
      CountIn(s[1..], c);
    }
  }

  /**
   * The first value of `unique_pixel_neighbours` after the sort: a most
   * frequent neighbour. Among equally frequent ones the source's choice
   * follows set order; here it is the first in neighbour order.
   */
  function MostFrequent<C(==)>(s: seq<C>): C
    requires |s| > 0
  {
    ArgMax(s, 1, s[0])
  }

  /** The scan behind MostFrequent: best is the leader among s[..i]; a later value must beat it strictly. */
  function ArgMax<C(==)>(s: seq<C>, i: nat, best: C): C
    requires i <= |s|
    decreases |s| - i
  {
    if i == |s| then best
    else if Count(s, s[i]) > Count(s, best) then ArgMax(s, i + 1, s[i])
    else ArgMax(s, i + 1, best)
  }

  lemma {:induction false} ArgMaxIsMost<C>(s: seq<C>, i: nat, best: C)
    requires i <= |s| && best in s
    requires forall k :: 0 <= k < i ==> Count(s, s[k]) <= Count(s, best)
    ensures ArgMax(s, i, best) in s
    ensures forall k :: 0 <= k < |s| ==> Count(s, s[k]) <= Count(s, ArgMax(s, i, best))
    decreases |s| - i
  {
    if i < |s| {
      if Count(s, s[i]) > Count(s, best) {
        ArgMaxIsMost(s, i + 1, s[i]);
      } else {
        ArgMaxIsMost(s, i + 1, best);
      }
    }
  }

  /** The chosen neighbour occurs in the list, and no value occurs more often. */
  lemma MostFrequentIsMost<C>(s: seq<C>)
    requires |s| > 0
    ensures MostFrequent(s) in s
    ensures forall k :: 0 <= k < |s| ==> Count(s, s[k]) <= Count(s, MostFrequent(s))
  {
    ArgMaxIsMost(s, 1, s[0]);
  }

  /**
   * With a threshold above half of eight, a value that reaches it is the
   * only one that can, so it is the most frequent neighbour whichever
   * order the set gives.
   */
  lemma UniqueWinner<C>(s: seq<C>, threshold: int, c: C)
    requires |s| == 8 && threshold > 4 && Count(s, c) >= threshold
    ensures MostFrequent(s) == c
    ensures forall d :: Count(s, d) >= threshold ==> d == c
  {
    var m := MostFrequent(s);
    MostFrequentIsMost(s);
    CountIn(s, c);
    if m != c {
      CountTwo(s, m, c);
    }
    forall d | Count(s, d) >= threshold ensures d == c {
      if d != c {
        CountTwo(s, c, d);
      }
    }
  }

  /** The repaint decision for one pixel: the colour it gets, or None when it keeps its own. */
  function Repaint<C(==)>(edge: Edge, g: seq<seq<C>>, w: nat, threshold: int, x: nat, y: nat): (r: Option<C>)
    requires Rect(g, w)
    ensures r.Some? ==> Interior(edge, x, y, w, |g|)
                        && Count(Neighbours(edge, g, w, x, y).value, r.value) >= threshold
  {
    match Neighbours(edge, g, w, x, y)
    case None => None
    case Some(ns) =>
      var m := MostFrequent(ns);
      if Count(ns, m) >= threshold then Some(m) else None
  }

  /** For a threshold above 4: a pixel is repainted with c exactly when c is at least threshold of its neighbours. */
  lemma RepaintExactly<C>(edge: Edge, g: seq<seq<C>>, w: nat, threshold: int, x: nat, y: nat, c: C)
    requires Rect(g, w) && threshold > 4
    ensures Repaint(edge, g, w, threshold, x, y) == Some(c) <==>
            Interior(edge, x, y, w, |g|) && Count(Neighbours(edge, g, w, x, y).value, c) >= threshold
  {
    if Interior(edge, x, y, w, |g|) && Count(Neighbours(edge, g, w, x, y).value, c) >= threshold {
      UniqueWinner(Neighbours(edge, g, w, x, y).value, threshold, c);
    }
  }

  /** The image being swept and the `set_pixel` calls made so far. */
  datatype Sweep<C> = Sweep(grid: seq<seq<C>>, writes: seq<Event<C>>)

  /** The work on pixel (x, y): repaint it in place and report it, or leave it. */
  function Step<C(==)>(edge: Edge, s: Sweep<C>, w: nat, threshold: int, x: nat, y: nat): (r: Sweep<C>)
    requires Rect(s.grid, w) && x < w && y < |s.grid|
    ensures Rect(r.grid, w) && |r.grid| == |s.grid|
  {
    match Repaint(edge, s.grid, w, threshold, x, y)
    case None => s
    case Some(c) => Sweep(Put(s.grid, x, y, c), s.writes + [SetPixel(x, y, c)])
  }

  /** Row y from column x on. */
  function SweepRow<C(==)>(edge: Edge, s: Sweep<C>, w: nat, threshold: int, x: nat, y: nat): (r: Sweep<C>)
    requires Rect(s.grid, w) && x <= w && y < |s.grid|
    ensures Rect(r.grid, w) && |r.grid| == |s.grid|
    decreases w - x
  {
    if x == w then s else SweepRow(edge, Step(edge, s, w, threshold, x, y), w, threshold, x + 1, y)
  }

  /** Rows y on, in row-major order; each pixel sees the repaints before it. */
  function SweepRows<C(==)>(edge: Edge, s: Sweep<C>, w: nat, threshold: int, y: nat): (r: Sweep<C>)
    requires Rect(s.grid, w) && y <= |s.grid|
    ensures Rect(r.grid, w) && |r.grid| == |s.grid|
    decreases |s.grid| - y
  {
    if y == |s.grid| then s else SweepRows(edge, SweepRow(edge, s, w, threshold, 0, y), w, threshold, y + 1)
  }

  // ---------------------------------------------------------------------------
  // What a sweep leaves alone

  /**
   * From s to r, the writes only grow, a pixel without eight neighbours
   * keeps its colour, and every added write reports a pixel with eight.
   */
  predicate Keeps<C(==)>(edge: Edge, s: Sweep<C>, r: Sweep<C>, w: nat) {
    && s.writes <= r.writes
    && (forall y, x ::
          0 <= y < |s.grid| && y < |r.grid| && 0 <= x < |s.grid[y]| && x < |r.grid[y]| && !Interior(edge, x, y, w, |s.grid|)
          ==> r.grid[y][x] == s.grid[y][x])
    && (forall i :: |s.writes| <= i < |r.writes| ==>
          r.writes[i].SetPixel? && Interior(edge, r.writes[i].x, r.writes[i].y, w, |s.grid|))
  }

  lemma KeepsTrans<C>(edge: Edge, a: Sweep<C>, b: Sweep<C>, c: Sweep<C>, w: nat)
    requires |a.grid| == |b.grid| == |c.grid| && SameShape(a.grid, b.grid) && SameShape(b.grid, c.grid)
    requires Keeps(edge, a, b, w) && Keeps(edge, b, c, w)
    ensures Keeps(edge, a, c, w)
  {
  }

  lemma StepKeeps<C>(edge: Edge, s: Sweep<C>, w: nat, threshold: int, x: nat, y: nat)
    requires Rect(s.grid, w) && x < w && y < |s.grid|
    ensures Keeps(edge, s, Step(edge, s, w, threshold, x, y), w)
  {
  }

  lemma {:induction false} SweepRowKeeps<C>(edge: Edge, s: Sweep<C>, w: nat, threshold: int, x: nat, y: nat)
    requires Rect(s.grid, w) && x <= w && y < |s.grid|
    ensures Keeps(edge, s, SweepRow(edge, s, w, threshold, x, y), w)
    decreases w - x
  {
    if x < w {
      var s1 := Step(edge, s, w, threshold, x, y);
      StepKeeps(edge, s, w, threshold, x, y);
      SweepRowKeeps(edge, s1, w, threshold, x + 1, y);
      KeepsTrans(edge, s, s1, SweepRow(edge, s1, w, threshold, x + 1, y), w);
    }
  }

  /**
   * A whole sweep repaints and reports only pixels with eight neighbours:
   * with wrapping the last row and column stay as they were, without it
   * every edge pixel does.
   */
  lemma {:induction false} SweepKeeps<C>(edge: Edge, s: Sweep<C>, w: nat, threshold: int, y: nat)
    requires Rect(s.grid, w) && y <= |s.grid|
    ensures Keeps(edge, s, SweepRows(edge, s, w, threshold, y), w)
    decreases |s.grid| - y
  {
    if y < |s.grid| {
      var s1 := SweepRow(edge, s, w, threshold, 0, y);
      var r := SweepRows(edge, s1, w, threshold, y + 1);
      assert SweepRows(edge, s, w, threshold, y) == r;
      SweepRowKeeps(edge, s, w, threshold, 0, y);
      SweepKeeps(edge, s1, w, threshold, y + 1);
      KeepsTrans(edge, s, s1, r, w);
    }
  }

  // ---------------------------------------------------------------------------
  // Reports of pixels that keep their colour

  /** Every pixel of g has colour c. */
  predicate Uniform<C(==)>(g: seq<seq<C>>, w: nat, c: C) {
    Rect(g, w) && forall i, j :: 0 <= i < |g| && 0 <= j < w ==> g[i][j] == c
  }

  /** In an image of one colour, the eight neighbours are that colour. */
  lemma UniformNeighbours<C>(edge: Edge, g: seq<seq<C>>, w: nat, x: nat, y: nat, c: C)
    requires Uniform(g, w, c) && Interior(edge, x, y, w, |g|)
    ensures Neighbours(edge, g, w, x, y) == Some([c, c, c, c, c, c, c, c])
  {
    var ns := Neighbours(edge, g, w, x, y).value;
    forall k | 0 <= k < 8 ensures ns[k] == c {
      var p := Resolve(edge, NeighbourCoords(x, y)[k], w, |g|).value;
      assert ns[k] == g[p.1][p.0];
    }
    assert ns == [c, c, c, c, c, c, c, c];
  }

  /**
   * A pixel with eight neighbours in an image of one colour is repainted
   * with the colour it already has, and the repaint is reported.
   */
  lemma UniformStep<C>(edge: Edge, s: Sweep<C>, w: nat, threshold: int, x: nat, y: nat, c: C)
    requires Uniform(s.grid, w, c) && x < w && y < |s.grid| && threshold <= 8
    ensures Step(edge, s, w, threshold, x, y)
            == if Interior(edge, x, y, w, |s.grid|) then Sweep(s.grid, s.writes + [SetPixel(x, y, c)]) else s
  {
    NeighboursExist(edge, x, y, w, |s.grid|);
    if Interior(edge, x, y, w, |s.grid|) {
      UniformNeighbours(edge, s.grid, w, x, y, c);
      var ns := [c, c, c, c, c, c, c, c];
      CountAll(ns, c);
      UniqueWinner(ns, 8, c);
      PutSame(s.grid, x, y);
    }
  }

  // ---------------------------------------------------------------------------
  // The two implementations, in place on the image

  /** Where the k-th neighbour of (x, y) sits in the two nested loops of `get_neighbour_pixels`. */
  lemma CoordsAt(x: nat, y: nat, i: nat, j: nat, ny: int, xs: seq<int>)
    requires i < 3 && ny == [y - 1, y, y + 1][i]
    requires xs == if ny == y then [x - 1, x + 1] else [x - 1, x, x + 1]
    requires j < |xs|
    ensures [0, 3, 5][i] + j < 8
    ensures NeighbourCoords(x, y)[[0, 3, 5][i] + j] == (xs[j], ny)
  {
  }

  /** Eight successful reads in neighbour order are the neighbours. */
  lemma AllRead<C>(edge: Edge, g: seq<seq<C>>, w: nat, x: nat, y: nat, ns: seq<C>)
    requires Rect(g, w) && |ns| == 8
    requires forall k :: 0 <= k < 8 ==> Read(edge, g, w, NeighbourCoords(x, y)[k]) == Some(ns[k])
    ensures Neighbours(edge, g, w, x, y) == Some(ns)
  {
    NeighboursExist(edge, x, y, w, |g|);
    var r := Neighbours(edge, g, w, x, y).value;
    assert forall k :: 0 <= k < 8 ==> r[k] == ns[k];
    assert r == ns;
  }

  /** One failing read means there are no neighbours. */
  lemma ReadFails<C>(edge: Edge, g: seq<seq<C>>, w: nat, x: nat, y: nat, k: nat)
    requires Rect(g, w) && k < 8 && Read(edge, g, w, NeighbourCoords(x, y)[k]).None?
    ensures Neighbours(edge, g, w, x, y).None?
  {
    NeighboursExist(edge, x, y, w, |g|);
  }

  /**
   * `get_neighbour_pixels` of noise_manipulation.py on the list-of-lists
   * canvas, whose indexing wraps negative indices.
   */
  method GetNeighbourPixels<C>(x: nat, y: nat, img: array2<C>) returns (r: Option<seq<C>>)
    ensures r == Neighbours(Wrap, Cells(img), img.Length1, x, y)
  {
    ghost var g, cs := Cells(img), NeighbourCoords(x, y);
    var neighbours: seq<C> := [];
    var ys := [y - 1, y, y + 1];
    for i := 0 to 3
      invariant |neighbours| == [0, 3, 5, 8][i]
      invariant forall k :: 0 <= k < |neighbours| ==> Read(Wrap, g, img.Length1, cs[k]) == Some(neighbours[k])
    {
      var ny := ys[i];
      var xs := if ny == y then [x - 1, x + 1] else [x - 1, x, x + 1];
      for j := 0 to |xs|
        invariant |neighbours| == [0, 3, 5][i] + j
        invariant forall k :: 0 <= k < |neighbours| ==> Read(Wrap, g, img.Length1, cs[k]) == Some(neighbours[k])
      {
        var nx := xs[j];
        CoordsAt(x, y, i, j, ny, xs);
        var ry := PyIndex(ny, img.Length0);
        var rx := PyIndex(nx, img.Length1);
        if ry.None? || rx.None? {
          ReadFails(Wrap, g, img.Length1, x, y, |neighbours|);
          return None;
        }
        neighbours := neighbours + [img[ry.value, rx.value]];
      }
    }
    AllRead(Wrap, g, img.Length1, x, y, neighbours);
    r := Some(neighbours);
  }

  /**
   * `get_neighbour_pixels` of pixels/noise_manipulation.py: a negative
   * coordinate raises explicitly, one past the image raises in `getpixel`.
   */
  method GetNeighbourPixelsStrict<C>(x: nat, y: nat, image: array2<C>) returns (r: Option<seq<C>>)
    ensures r == Neighbours(Strict, Cells(image), image.Length1, x, y)
  {
    ghost var g, cs := Cells(image), NeighbourCoords(x, y);
    var neighbours: seq<C> := [];
    var ys := [y - 1, y, y + 1];
    for i := 0 to 3
      invariant |neighbours| == [0, 3, 5, 8][i]
      invariant forall k :: 0 <= k < |neighbours| ==> Read(Strict, g, image.Length1, cs[k]) == Some(neighbours[k])
    {
      var ny := ys[i];
      var xs := if ny == y then [x - 1, x + 1] else [x - 1, x, x + 1];
      for j := 0 to |xs|
        invariant |neighbours| == [0, 3, 5][i] + j
        invariant forall k :: 0 <= k < |neighbours| ==> Read(Strict, g, image.Length1, cs[k]) == Some(neighbours[k])
      {
        var nx := xs[j];
        CoordsAt(x, y, i, j, ny, xs);
        if nx < 0 || ny < 0 || nx >= image.Length1 || ny >= image.Length0 {
          ReadFails(Strict, g, image.Length1, x, y, |neighbours|);
          return None;
        }
        neighbours := neighbours + [image[ny, nx]];
      }
    }
    AllRead(Strict, g, image.Length1, x, y, neighbours);
    r := Some(neighbours);
  }

  /**
   * The body of the double loop for pixel (x, y): skip it on IndexError,
   * otherwise repaint it with the most frequent neighbour when that reaches
   * the threshold, and report the repaint.
   */
  method DenoisePixel<C(==)>(edge: Edge, img: array2<C>, writes: seq<Event<C>>, threshold: int, x: nat, y: nat)
    returns (writes': seq<Event<C>>)
    requires x < img.Length1 && y < img.Length0
    modifies img
    ensures Sweep(Cells(img), writes') == Step(edge, Sweep(old(Cells(img)), writes), img.Length1, threshold, x, y)
  {
    ghost var g := Cells(img);
    var ns: Option<seq<C>>;
    if edge == Wrap {
      ns := GetNeighbourPixels(x, y, img);
    } else {
      ns := GetNeighbourPixelsStrict(x, y, img);
    }
    writes' := writes;
    if ns.None? {
      return;
    }
    var m := MostFrequent(ns.value);
    if Count(ns.value, m) >= threshold {
      img[y, x] := m;
      writes' := writes + [SetPixel(x, y, m)];
      CellsAre(img, Put(g, x, y, m));
    }
  }

  /** One row of the sweep. */
  method DenoiseRow<C(==)>(edge: Edge, img: array2<C>, writes: seq<Event<C>>, threshold: int, y: nat)
    returns (writes': seq<Event<C>>)
    requires y < img.Length0
    modifies img
    ensures Sweep(Cells(img), writes') == SweepRow(edge, Sweep(old(Cells(img)), writes), img.Length1, threshold, 0, y)
  {
    ghost var final := SweepRow(edge, Sweep(Cells(img), writes), img.Length1, threshold, 0, y);
    writes' := writes;
    for x := 0 to img.Length1
      invariant SweepRow(edge, Sweep(Cells(img), writes'), img.Length1, threshold, x, y) == final
    {
      writes' := DenoisePixel(edge, img, writes', threshold, x, y);
    }
  }

  /**
   * `remove_noise` of noise_manipulation.py: the sweep with wrapping, whose
   * repaints are only ever at pixels with a row below and a column to the
   * right; the last row and column are left as they were.
   */
  method RemoveNoise<C(==)>(img: array2<C>, threshold: int) returns (writes: seq<Event<C>>)
    modifies img
    ensures Sweep(Cells(img), writes) == SweepRows(Wrap, Sweep(old(Cells(img)), []), img.Length1, threshold, 0)
    ensures forall i :: 0 <= i < |writes| ==>
              writes[i].SetPixel? && Interior(Wrap, writes[i].x, writes[i].y, img.Length1, img.Length0)
    ensures forall y, x :: 0 <= y < img.Length0 && 0 <= x < img.Length1 && !Interior(Wrap, x, y, img.Length1, img.Length0)
              ==> img[y, x] == old(img[y, x])
  {
    ghost var start := Sweep(Cells(img), []);
    ghost var final := SweepRows(Wrap, start, img.Length1, threshold, 0);
    writes := [];
    for y := 0 to img.Length0
      invariant SweepRows(Wrap, Sweep(Cells(img), writes), img.Length1, threshold, y) == final
    {
      writes := DenoiseRow(Wrap, img, writes, threshold, y);
    }
    SweepKeeps(Wrap, start, img.Length1, threshold, 0);
  }

  /**
   * `remove_noise` of pixels/noise_manipulation.py: the same sweep over
   * `range(image.height)` and `range(image.width)`, without wrapping, so
   * every edge pixel is left as it was. `writes` lists the `api.set_pixel`
   * calls the loop makes; `set_pixel` is a coroutine function called
   * without `await`, so none of these calls sends a request.
   */
  method RemoveNoiseImage<C(==)>(image: array2<C>, threshold: int) returns (writes: seq<Event<C>>)
    modifies image
    ensures Sweep(Cells(image), writes) == SweepRows(Strict, Sweep(old(Cells(image)), []), image.Length1, threshold, 0)
    ensures forall i :: 0 <= i < |writes| ==>
              writes[i].SetPixel? && Interior(Strict, writes[i].x, writes[i].y, image.Length1, image.Length0)
    ensures forall y, x :: 0 <= y < image.Length0 && 0 <= x < image.Length1 && !Interior(Strict, x, y, image.Length1, image.Length0)
              ==> image[y, x] == old(image[y, x])
  {
    ghost var start := Sweep(Cells(image), []);
    ghost var final := SweepRows(Strict, start, image.Length1, threshold, 0);
    writes := [];
    for y := 0 to image.Length0
      invariant SweepRows(Strict, Sweep(Cells(image), writes), image.Length1, threshold, y) == final
    {
      writes := DenoiseRow(Strict, image, writes, threshold, y);
    }
    SweepKeeps(Strict, start, image.Length1, threshold, 0);
  }
}
