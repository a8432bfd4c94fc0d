/**
 * `run_for_zone` and one pass of `run_protections` in pixels/__init__.py.
 * The canvas is fetched once per zone and decoded with `bytes_to_image`
 * into an RGB image, which serves as the cache; the zone's template is then
 * walked with the Async cadence: a transparent cell is skipped before
 * anything else, and after a row's first mismatch every later cell is
 * re-read with `get_pixel`. Every operation takes a Build: the program as
 * written, or the corrected one.
 */
module PixelsReconciler {
  import opened Wrappers
  import opened Padding
  import opened HexCodec
  import opened Decimal
  import opened Images
  import opened CanvasModel
  import opened Reconcile
  import opened PixelsUtil
  import opened PixelsZone

  // ---------------------------------------------------------------------------
  // Templates

  /**
   * The template as the source builds it: every cell of `image_2d` is an
   * RGBA tuple, so no cell is ever None.
   */
  function AsWrittenTemplate(rows: seq<seq<Pixel>>): (t: Template<Pixel>)
    ensures |t| == |rows| && forall y :: 0 <= y < |t| ==> |t[y]| == |rows[y]|
    ensures forall y, x :: 0 <= y < |t| && 0 <= x < |t[y]| ==> t[y][x] == Some(rows[y][x])
  {
    seq(|rows|, y requires 0 <= y < |rows| => seq(|rows[y]|, x requires 0 <= x < |rows[y]| => Some(rows[y][x])))
  }

  /**
   * The template the comparisons need: a pixel with alpha 0 is transparent,
   * any other is its RGB part, the shape of a canvas pixel.
   */
  function CorrectedTemplate(rows: seq<seq<Pixel>>): (t: Template<Pixel>)
    requires forall y, x :: 0 <= y < |rows| && 0 <= x < |rows[y]| ==> |rows[y][x]| == 4
    ensures |t| == |rows| && forall y :: 0 <= y < |t| ==> |t[y]| == |rows[y]|
    ensures forall y, x :: 0 <= y < |t| && 0 <= x < |t[y]| ==>
              (t[y][x].None? <==> rows[y][x][3] == 0) && (t[y][x].Some? ==> t[y][x].value == rows[y][x][..3])
  {
    seq(|rows|, y requires 0 <= y < |rows| =>
      seq(|rows[y]|, x requires 0 <= x < |rows[y]| => if rows[y][x][3] == 0 then None else Some(rows[y][x][..3])))
  }

  /**
   * Which program a pass runs. AsWritten is the code of pixels/__init__.py:
   * RGBA template cells, and a refresh that raises after its `get_pixel`.
   * Corrected treats alpha 0 as transparent, compares RGB with RGB and
   * stores the refreshed colour.
   */
  datatype Build = AsWritten | Corrected

  /** The reconciliation loop a build runs. */
  function Flow(b: Build): Version {
    if b == AsWritten then Async else AsyncCorrected
  }

  /** The zone's template as a build uses it, at the zone's coordinates. */
  function ZoneTemplate(b: Build, z: Zone): Template<Pixel>
    requires Rgba(z)
  {
    if b == AsWritten then AsWrittenTemplate(z.image2d) else CorrectedTemplate(z.image2d)
  }

  // ---------------------------------------------------------------------------
  // One zone

  /** The canvas `bytes_to_image` decodes: `height` rows of `width` RGB pixels. */
  function CanvasGrid(bytes: seq<byte>, width: nat, height: nat): seq<seq<Pixel>>
    requires 3 * (width * height) <= |bytes|
  {
    Grid(Chunks3(bytes, width * height), width, height)
  }

  lemma CanvasGridCells(bytes: seq<byte>, width: nat, height: nat)
    requires 3 * (width * height) <= |bytes|
    ensures var g := CanvasGrid(bytes, width, height);
            |g| == height && (forall y :: 0 <= y < height ==> |g[y]| == width)
            && forall y, x :: 0 <= y < height && 0 <= x < width ==> |g[y][x]| == 3
  {
    var data := Chunks3(bytes, width * height);
    GridCells(data, width, height);
    var g := CanvasGrid(bytes, width, height);
    forall y | 0 <= y < height ensures forall x :: 0 <= x < width ==> |g[y][x]| == 3 {
      RowWithin(width, height, y);
    }
  }

  /**
   * The calls of `run_for_zone` after the earlier calls t0, and whether it
   * raised: ValueError when the canvas bytes are too few for the canvas size,
   * IndexError when a cell lies off the canvas, and, as written, the
   * TypeError of the refresh.
   */
  function ZonePass(b: Build, t: Template<Pixel>, locX: nat, locY: nat, bytes: seq<byte>, width: nat, height: nat,
                    oracle: Oracle<Pixel>, t0: seq<Event<Pixel>>): (seq<Event<Pixel>>, bool)
  {
    var t1 := t0 + [GetPixels];
    match BytesToImage(bytes, width, height)
    case Err(_) => (t1, true)
    case Ok(_) =>
      var st := Rows(Flow(b), oracle, State(CanvasGrid(bytes, width, height), t1, false), t, locX, locY, 0);
      (st.trace, st.aborted)
  }

  /** `run_for_zone(z, canvas_size, headers)` for a zone with template t at (locX, locY). */
  method RunForZone(b: Build, t: Template<Pixel>, locX: nat, locY: nat, bytes: seq<byte>, width: nat, height: nat,
                    oracle: Oracle<Pixel>, t0: seq<Event<Pixel>>)
    returns (trace: seq<Event<Pixel>>, aborted: bool)
    ensures (trace, aborted) == ZonePass(b, t, locX, locY, bytes, width, height, oracle, t0)
  {
    trace := t0 + [GetPixels];
    var decoded := BytesToImage(bytes, width, height);
    if decoded.Err? {
      return trace, true;
    }
    var g := Grid(decoded.value.data, width, height);
    GridCells(decoded.value.data, width, height);
    var canvas := new Pixel[height, width]((i, j) requires 0 <= i < height && 0 <= j < width => g[i][j]);
    CellsAre(canvas, g);
    ghost var final := Rows(Flow(b), oracle, State(Cells(canvas), trace, false), t, locX, locY, 0);
    aborted := false;
    var y := 0;
    while y < |t|
      invariant y <= |t|
      invariant Rows(Flow(b), oracle, State(Cells(canvas), trace, false), t, locX, locY, y) == final
    {
      var trace', stop := RunRow(b, canvas, oracle, trace, t[y], locX, locY + y);
      if stop {
        trace, aborted := trace', true;
        return;
      }
      trace := trace';
      y := y + 1;
    }
  }

  /** One row of the template, its first cell at (locX, py); the flag starts cleared. */
  method RunRow(b: Build, canvas: array2<Pixel>, oracle: Oracle<Pixel>, trace: seq<Event<Pixel>>,
                row: seq<Option<Pixel>>, locX: nat, py: nat)
    returns (trace': seq<Event<Pixel>>, stop: bool)
    modifies canvas
    ensures Row(Flow(b), oracle, State(old(Cells(canvas)), trace, false), false, row, locX, py, 0)
            == State(Cells(canvas), trace', stop)
  {
    ghost var final := Row(Flow(b), oracle, State(Cells(canvas), trace, false), false, row, locX, py, 0);
    trace', stop := trace, false;
    var hit := false;
    var x := 0;
    while x < |row|
      invariant x <= |row|
      invariant Row(Flow(b), oracle, State(Cells(canvas), trace', false), hit, row, locX, py, x) == final
    {
      ghost var st := State(Cells(canvas), trace', false);
      RowStep(Flow(b), oracle, st, hit, row, locX, py, x);
      var t, h, s := VisitCell(b, canvas, oracle, trace', hit, row[x], locX + x, py, x);
      trace', hit := t, h;
      if s {
        stop := true;
        return;
      }
      x := x + 1;
    }
  }

  /**
   * The body of the inner loop: skip a transparent cell; the first
   * `getpixel` only logs an IndexError; refresh after a mismatch (every
   * column, `x % 1 == 0`), where as written `putpixel` is handed the list
   * of the answer's hex characters and raises TypeError; the second
   * `getpixel` raises off the canvas; write on a difference.
   */
  method VisitCell(b: Build, canvas: array2<Pixel>, oracle: Oracle<Pixel>, trace: seq<Event<Pixel>>, hit: bool,
                   colour: Option<Pixel>, px: nat, py: nat, x: nat)
    returns (trace': seq<Event<Pixel>>, hit': bool, stop: bool)
    modifies canvas
    ensures Cell(Flow(b), oracle, State(old(Cells(canvas)), trace, false), hit, colour, px, py, x)
            == (State(Cells(canvas), trace', stop), hit')
  {
    ghost var g := Cells(canvas);
    trace', hit', stop := trace, hit, false;
    if colour.None? {
      return;
    }
    if hit && x % 1 == 0 {
      var answer := oracle(|trace|, px, py);
      trace' := trace + [GetPixel(px, py)];
      if b == AsWritten || py >= canvas.Length0 || px >= canvas.Length1 {
        stop := true;
        return;
      }
      canvas[py, px] := answer;
      CellsAre(canvas, Put(g, px, py, answer));
    }
    if py >= canvas.Length0 || px >= canvas.Length1 {
      stop := true;
    } else if canvas[py, px] == colour.value {
    } else {
      hit' := true;
      trace' := trace' + [SetPixel(px, py, colour.value)];
    }
  }

  /**
   * The condition under which a zone's loop raises nothing on canvas g:
   * every opaque cell lies on g, and, as written, no row has an opaque
   * cell after its first mismatch.
   */
  predicate Completes(b: Build, t: Template<Pixel>, locX: nat, locY: nat, g: seq<seq<Pixel>>) {
    if b == AsWritten then Survives(t, locX, locY, g, 0) else OpaqueFits(t, locX, locY, g, 0)
  }

  /**
   * A zone raises exactly when the canvas bytes are too few or the zone's
   * loop does not complete on the decoded canvas; the calls after t0 are
   * one `get_pixels` followed by reads and writes of the zone's opaque cells.
   */
  lemma ZonePassFacts(b: Build, t: Template<Pixel>, locX: nat, locY: nat, bytes: seq<byte>, width: nat, height: nat,
                      oracle: Oracle<Pixel>, t0: seq<Event<Pixel>>)
    ensures var p := ZonePass(b, t, locX, locY, bytes, width, height, oracle, t0);
            && Extends(Flow(b), t, locX, locY, t0 + [GetPixels], p.0)
            && (p.1 <==> |bytes| < 3 * (width * height) || !Completes(b, t, locX, locY, CanvasGrid(bytes, width, height)))
  {
    var t1 := t0 + [GetPixels];
    if |bytes| >= 3 * (width * height) {
      var st := State(CanvasGrid(bytes, width, height), t1, false);
      PassFacts(Flow(b), oracle, st, t, locX, locY, 0);
      if b == AsWritten {
        AsWrittenRows(oracle, st, t, locX, locY, 0);
      }
    } else {
      assert t1[..|t1|] == t1;
    }
  }

  // ---------------------------------------------------------------------------
  // One pass of run_protections

  /**
   * One pass of the `while True` loop: the zones in list order, each with
   * the canvas `fetch` returns after the calls made so far; an exception
   * ends the pass. Returns the calls, the number of zones started and
   * whether the pass was cut short.
   */
  function ProtectionsPass(b: Build, zones: seq<Zone>, fetch: nat -> seq<byte>, width: nat, height: nat,
                           oracle: Oracle<Pixel>, t: seq<Event<Pixel>>): (seq<Event<Pixel>>, nat, bool)
    requires forall i :: 0 <= i < |zones| ==> Rgba(zones[i])
    decreases |zones|
  {
    if zones == [] then (t, 0, false)
    else
      var z := zones[0];
      var p := ZonePass(b, ZoneTemplate(b, z), z.coords.0, z.coords.1, fetch(|t|), width, height, oracle, t);
      if p.1 then (p.0, 1, true)
      else
        var rest := ProtectionsPass(b, zones[1..], fetch, width, height, oracle, p.0);
        (rest.0, rest.1 + 1, rest.2)
  }

  /** `run_protections`, one pass: a loop over the zones inside the try block. */
  method RunProtectionsPass(b: Build, zones: seq<Zone>, fetch: nat -> seq<byte>, width: nat, height: nat,
                            oracle: Oracle<Pixel>, t0: seq<Event<Pixel>>)
    returns (trace: seq<Event<Pixel>>, started: nat, stopped: bool)
    requires forall i :: 0 <= i < |zones| ==> Rgba(zones[i])
    ensures (trace, started, stopped) == ProtectionsPass(b, zones, fetch, width, height, oracle, t0)
  {
    trace, started, stopped := t0, 0, false;
    var i := 0;
    while i < |zones|
      invariant i <= |zones| && started == i
      invariant var rest := ProtectionsPass(b, zones[i..], fetch, width, height, oracle, trace);
                ProtectionsPass(b, zones, fetch, width, height, oracle, t0) == (rest.0, rest.1 + i, rest.2)
    {
      var z := zones[i];
      assert zones[i..][0] == z && zones[i..][1..] == zones[i + 1..];
      var t', aborted := RunForZone(b, ZoneTemplate(b, z), z.coords.0, z.coords.1, fetch(|trace|), width, height, oracle, trace);
      if aborted {
        return t', i + 1, true;
      }
      trace := t';
      i := i + 1;
      started := i;
    }
    assert zones[i..] == [];
  }

  /** The number of `get_pixels` calls in a trace. */
  function CountFetches(t: seq<Event<Pixel>>): nat
    decreases |t|
  {
    if t == [] then 0 else (if t[|t| - 1].GetPixels? then 1 else 0) + CountFetches(t[..|t| - 1])
  }

  lemma {:induction false} CountFetchesExtends(v: Version, t: Template<Pixel>, locX: nat, locY: nat, a: seq<Event<Pixel>>, b: seq<Event<Pixel>>)
    requires Extends(v, t, locX, locY, a, b)
    ensures CountFetches(b) == CountFetches(a)
    decreases |b|
  {
    if |b| > |a| {
      var b' := b[..|b| - 1];
      assert b'[..|a|] == a;
      assert !b[|b| - 1].GetPixels? by {
        assert Allowed(v, t, locX, locY, b[|b| - 1]);
      }
      CountFetchesExtends(v, t, locX, locY, a, b');
    } else {
      assert b == a by {
        assert b[..|a|] == b;
      }
    }
  }

  /**
   * A pass, as written or corrected, fetches the canvas once per zone it
   * starts; it starts every zone unless one raises, and then the zones
   * after that one are not started.
   */
  lemma {:induction false} PassFetches(b: Build, zones: seq<Zone>, fetch: nat -> seq<byte>, width: nat, height: nat,
                                       oracle: Oracle<Pixel>, t: seq<Event<Pixel>>)
    requires forall i :: 0 <= i < |zones| ==> Rgba(zones[i])
    ensures var p := ProtectionsPass(b, zones, fetch, width, height, oracle, t);
            && CountFetches(p.0) == CountFetches(t) + p.1
            && p.1 <= |zones| && (!p.2 ==> p.1 == |zones|) && (p.2 ==> 1 <= p.1)
    decreases |zones|
  {
    if zones != [] {
      var z := zones[0];
      var tz := ZoneTemplate(b, z);
      var p := ZonePass(b, tz, z.coords.0, z.coords.1, fetch(|t|), width, height, oracle, t);
      ZonePassFacts(b, tz, z.coords.0, z.coords.1, fetch(|t|), width, height, oracle, t);
      CountFetchesExtends(Flow(b), tz, z.coords.0, z.coords.1, t + [GetPixels], p.0);
      assert (t + [GetPixels])[..|t|] == t;
      if !p.1 {
        PassFetches(b, zones[1..], fetch, width, height, oracle, p.0);
      }
    }
  }

  /**
   * When every fetch returns a whole canvas on which every zone's loop
   * completes, the pass completes: no zone raises, whatever get_pixel
   * says. For the corrected build that asks only that every zone's opaque
   * cells lie on the canvas.
   */
  lemma {:induction false} PassCompletes(b: Build, zones: seq<Zone>, fetch: nat -> seq<byte>, width: nat, height: nat,
                                         oracle: Oracle<Pixel>, t: seq<Event<Pixel>>)
    requires forall i :: 0 <= i < |zones| ==> Rgba(zones[i])
    requires forall k: nat :: 3 * (width * height) <= |fetch(k)|
    requires forall i, k: nat :: 0 <= i < |zones| ==>
               Completes(b, ZoneTemplate(b, zones[i]), zones[i].coords.0, zones[i].coords.1, CanvasGrid(fetch(k), width, height))
    ensures !ProtectionsPass(b, zones, fetch, width, height, oracle, t).2
    decreases |zones|
  {
    if zones != [] {
      var z := zones[0];
      ZonePassFacts(b, ZoneTemplate(b, z), z.coords.0, z.coords.1, fetch(|t|), width, height, oracle, t);
      var p := ZonePass(b, ZoneTemplate(b, z), z.coords.0, z.coords.1, fetch(|t|), width, height, oracle, t);
      forall i, k: nat | 0 <= i < |zones[1..]|
        ensures Completes(b, ZoneTemplate(b, zones[1..][i]), zones[1..][i].coords.0, zones[1..][i].coords.1, CanvasGrid(fetch(k), width, height))
      {
        assert zones[1..][i] == zones[i + 1];
      }
      PassCompletes(b, zones[1..], fetch, width, height, oracle, p.0);
    }
  }

  // ---------------------------------------------------------------------------
  // The program as written

  /** Against a canvas of three-channel pixels, every four-channel cell of the zone needs a write. */
  lemma EveryCellNeeded(z: Zone, r: seq<seq<Pixel>>)
    requires Rgba(z) && Fits(AsWrittenTemplate(z.image2d), z.coords.0, z.coords.1, r)
    requires forall y :: 0 <= y < |r| ==> forall x :: 0 <= x < |r[y]| ==> |r[y][x]| == 3
    ensures forall y, x :: 0 <= y < |z.image2d| && 0 <= x < |z.image2d[y]| ==>
              SetPixel(z.coords.0 + x, z.coords.1 + y, z.image2d[y][x])
                in Mismatches(AsWrittenTemplate(z.image2d), z.coords.0, z.coords.1, r, 0)
  {
    var t := AsWrittenTemplate(z.image2d);
    var (locX, locY) := z.coords;
    forall y, x | 0 <= y < |z.image2d| && 0 <= x < |z.image2d[y]|
      ensures SetPixel(locX + x, locY + y, z.image2d[y][x]) in Mismatches(t, locX, locY, r, 0)
    {
      assert RowFits(t[y], locX, locY + y, r);
      assert |r[locY + y][locX + x]| == 3;
      assert Mismatch(t[y][x], r, locX + x, locY + y);
      MismatchesMembers(t, locX, locY, r, 0, SetPixel(locX + x, locY + y, z.image2d[y][x]));
    }
  }

  /**
   * As written, the first row of a zone, when it lies on the decoded
   * canvas, starts with a mismatch: its first cell is RGBA, the canvas RGB.
   */
  lemma AsWrittenFirstRow(z: Zone, bytes: seq<byte>, width: nat, height: nat, oracle: Oracle<Pixel>, t1: seq<Event<Pixel>>)
    requires Rgba(z) && 3 * (width * height) <= |bytes|
    requires |z.image2d| >= 1 && |z.image2d[0]| >= 1
    requires z.coords.1 < height && z.coords.0 + |z.image2d[0]| <= width
    ensures var t := AsWrittenTemplate(z.image2d);
            var g := CanvasGrid(bytes, width, height);
            var row := Row(Async, oracle, State(g, t1, false), false, t[0], z.coords.0, z.coords.1, 0);
            var n := |z.image2d[0]|;
            row == State(g, t1 + [SetPixel(z.coords.0, z.coords.1, z.image2d[0][0])]
                                + (if n >= 2 then [GetPixel(z.coords.0 + 1, z.coords.1)] else []), n >= 2)
  {
    var t := AsWrittenTemplate(z.image2d);
    var g := CanvasGrid(bytes, width, height);
    var (locX, locY) := z.coords;
    var row := t[0];
    CanvasGridCells(bytes, width, height);
    assert OpaqueRowFits(row, locX, locY, g, 0);
    assert |g[locY][locX]| == 3 && |z.image2d[0][0]| == 4;
    assert Mismatch(row[0], g, locX, locY);
    assert FirstMismatch(row, locX, locY, g, 0) == 0;
    if |row| >= 2 {
      assert row[1].Some?;
      assert NextOpaque(row, 1) == 1;
    }
    AsWrittenRow(oracle, State(g, t1, false), row, locX, locY, 0);
  }

  /**
   * As written, a zone of one pixel lying on the canvas is written on every
   * pass, whatever the canvas shows there, even its own colour and even
   * when the pixel is transparent.
   */
  lemma AsWrittenRewritesPixel(z: Zone, bytes: seq<byte>, width: nat, height: nat, oracle: Oracle<Pixel>, t0: seq<Event<Pixel>>)
    requires Rgba(z) && 3 * (width * height) <= |bytes|
    requires |z.image2d| == 1 && |z.image2d[0]| == 1
    requires z.coords.1 < height && z.coords.0 < width
    ensures ZonePass(AsWritten, ZoneTemplate(AsWritten, z), z.coords.0, z.coords.1, bytes, width, height, oracle, t0)
            == (t0 + [GetPixels, SetPixel(z.coords.0, z.coords.1, z.image2d[0][0])], false)
  {
    var t := AsWrittenTemplate(z.image2d);
    var g := CanvasGrid(bytes, width, height);
    var t1 := t0 + [GetPixels];
    var (locX, locY) := z.coords;
    var e := SetPixel(locX, locY, z.image2d[0][0]);
    AsWrittenFirstRow(z, bytes, width, height, oracle, t1);
    var st := Row(Async, oracle, State(g, t1, false), false, t[0], locX, locY, 0);
    assert st == State(g, t1 + [e] + [], false);
    assert Rows(Async, oracle, State(g, t1, false), t, locX, locY, 0) == Rows(Async, oracle, st, t, locX, locY, 1) == st;
    assert t1 + [e] + [] == t0 + [GetPixels, e];
  }

  /**
   * As written, a zone whose first row has two cells or more and lies on the
   * canvas raises on every pass: it fetches the canvas, writes its top-left
   * pixel, reads the pixel beside it, and the refresh raises.
   */
  lemma AsWrittenStops(z: Zone, bytes: seq<byte>, width: nat, height: nat, oracle: Oracle<Pixel>, t0: seq<Event<Pixel>>)
    requires Rgba(z) && 3 * (width * height) <= |bytes|
    requires |z.image2d| >= 1 && |z.image2d[0]| >= 2
    requires z.coords.1 < height && z.coords.0 + |z.image2d[0]| <= width
    ensures ZonePass(AsWritten, ZoneTemplate(AsWritten, z), z.coords.0, z.coords.1, bytes, width, height, oracle, t0)
            == (t0 + [GetPixels, SetPixel(z.coords.0, z.coords.1, z.image2d[0][0]), GetPixel(z.coords.0 + 1, z.coords.1)], true)
  {
    var t := AsWrittenTemplate(z.image2d);
    var g := CanvasGrid(bytes, width, height);
    var t1 := t0 + [GetPixels];
    var (locX, locY) := z.coords;
    AsWrittenFirstRow(z, bytes, width, height, oracle, t1);
    var st := Row(Async, oracle, State(g, t1, false), false, t[0], locX, locY, 0);
    assert Rows(Async, oracle, State(g, t1, false), t, locX, locY, 0) == Rows(Async, oracle, st, t, locX, locY, 1);
    assert t1 + [SetPixel(locX, locY, z.image2d[0][0])] + [GetPixel(locX + 1, locY)]
           == t0 + [GetPixels, SetPixel(locX, locY, z.image2d[0][0]), GetPixel(locX + 1, locY)];
  }

  /**
   * As written, `run_protections` never gets past a first zone whose first
   * row has two cells: every pass starts that zone only and raises in it,
   * so the later zones are never reached and the first one gets no write
   * but its top-left pixel.
   */
  lemma AsWrittenNeverAdvances(zones: seq<Zone>, fetch: nat -> seq<byte>, width: nat, height: nat,
                               oracle: Oracle<Pixel>, t: seq<Event<Pixel>>)
    requires forall i :: 0 <= i < |zones| ==> Rgba(zones[i])
    requires |zones| >= 1 && |zones[0].image2d| >= 1 && |zones[0].image2d[0]| >= 2
    requires zones[0].coords.1 < height && zones[0].coords.0 + |zones[0].image2d[0]| <= width
    ensures var p := ProtectionsPass(AsWritten, zones, fetch, width, height, oracle, t);
            var z := zones[0];
            && p.1 == 1 && p.2
            && (3 * (width * height) <= |fetch(|t|)| ==>
                  p.0 == t + [GetPixels, SetPixel(z.coords.0, z.coords.1, z.image2d[0][0]), GetPixel(z.coords.0 + 1, z.coords.1)])
  {
    var z := zones[0];
    if 3 * (width * height) <= |fetch(|t|)| {
      AsWrittenStops(z, fetch(|t|), width, height, oracle, t);
    }
  }

  // ---------------------------------------------------------------------------
  // The corrected program

  /**
   * With the corrected build the zone settles: once the writes of a pass
   * on a canvas nobody else paints have landed, the next pass only fetches.
   */
  lemma CorrectedSettles(z: Zone, bytes: seq<byte>, bytes2: seq<byte>, width: nat, height: nat,
                         oracle: Oracle<Pixel>, oracle2: Oracle<Pixel>, t0: seq<Event<Pixel>>, t1: seq<Event<Pixel>>)
    requires Rgba(z) && 3 * (width * height) <= |bytes| && 3 * (width * height) <= |bytes2|
    requires Fits(ZoneTemplate(Corrected, z), z.coords.0, z.coords.1, CanvasGrid(bytes, width, height))
    requires Static(oracle, CanvasGrid(bytes, width, height))
    requires var p := ZonePass(Corrected, ZoneTemplate(Corrected, z), z.coords.0, z.coords.1, bytes, width, height, oracle, t0);
             |t0| + 1 <= |p.0| && CanvasGrid(bytes2, width, height) == Apply(CanvasGrid(bytes, width, height), p.0[|t0| + 1..])
    requires Static(oracle2, CanvasGrid(bytes2, width, height))
    ensures ZonePass(Corrected, ZoneTemplate(Corrected, z), z.coords.0, z.coords.1, bytes2, width, height, oracle2, t1) == (t1 + [GetPixels], false)
  {
    var t := ZoneTemplate(Corrected, z);
    var (locX, locY) := z.coords;
    var p := ZonePass(Corrected, t, locX, locY, bytes, width, height, oracle, t0);
    assert p.0[|t0 + [GetPixels]|..] == p.0[|t0| + 1..];
    Converges(AsyncCorrected, oracle, oracle2, CanvasGrid(bytes, width, height), t, locX, locY, t0 + [GetPixels], t1 + [GetPixels]);
  }

  /** With the corrected build a pass never reads or writes a pixel whose alpha is 0. */
  lemma CorrectedSkipsClear(z: Zone, bytes: seq<byte>, width: nat, height: nat, oracle: Oracle<Pixel>, t0: seq<Event<Pixel>>)
    requires Rgba(z)
    ensures var p := ZonePass(Corrected, ZoneTemplate(Corrected, z), z.coords.0, z.coords.1, bytes, width, height, oracle, t0);
            forall i :: |t0| + 1 <= i < |p.0| ==>
              var e := p.0[i];
              !e.GetPixels? && z.coords.1 <= e.y < z.coords.1 + |z.image2d| && z.coords.0 <= e.x < z.coords.0 + |z.image2d[e.y - z.coords.1]|
              && z.image2d[e.y - z.coords.1][e.x - z.coords.0][3] != 0
  {
    ZonePassFacts(Corrected, ZoneTemplate(Corrected, z), z.coords.0, z.coords.1, bytes, width, height, oracle, t0);
  }

  // ---------------------------------------------------------------------------
  // The log label

  /** `'({x}, {y})'.format(x=x, y=y)`. */
  function CoordsStr(x: int, y: int): string {
    "(" + IntToString(x) + ", " + IntToString(y) + ")"
  }

  /**
   * The label of pixel (px, py): its coordinates, padded to the length of
   * the label of the canvas size, written with x = height and y = width.
   */
  function PixelLabel(px: nat, py: nat, width: nat, height: nat): (r: string)
    ensures var own := CoordsStr(px, py);
            |own| <= |r| && r[..|own|] == own
            && |r| == (if |own| < |CoordsStr(height, width)| then |CoordsStr(height, width)| else |own|)
  {
    LJust(CoordsStr(px, py), |CoordsStr(height, width)|, ' ')
  }
}
