/**
 * One reconciliation of a zone against a canvas snapshot, shared by the two
 * generations of the program: `run_for_img` in main.py (Legacy) and
 * `run_for_zone` in pixels/__init__.py (Async, and AsyncCorrected, the same
 * loop with a refresh that stores what `get_pixel` answers).
 *
 * The template is scanned row by row. Each row starts with the flag "hit an
 * incorrect pixel" cleared; after the first mismatch in a row, cells whose
 * column index is a multiple of the cadence (2 for Legacy, 1 for Async) are
 * re-read with `get_pixel` and the cached snapshot cell is overwritten before
 * the comparison. A differing cell is written with `set_pixel`; the write does
 * not touch the cache. Legacy refreshes before it looks at transparency;
 * Async skips a transparent cell before anything else. An index outside the
 * cached canvas raises IndexError, which ends the zone (aborted). As
 * written, the Async refresh hands `putpixel` a list of the characters of
 * a hex string, which raises as well: every Async refresh ends the zone
 * right after its `get_pixel`.
 */
module Reconcile {
  import opened Wrappers
  import opened CanvasModel

  datatype Version = Legacy | Async | AsyncCorrected

  /** The refreshed answer lands in the cache; as written, Async raises instead. */
  predicate Stores(v: Version) {
    v != Async
  }

  /** Refresh every `Cadence` columns once the row has had a mismatch. */
  function Cadence(v: Version): (k: nat)
    ensures k >= 1
  {
    if v == Legacy then 2 else 1
  }

  /** A template: rows of cells, None for a transparent cell. */
  type Template<C> = seq<seq<Option<C>>>

  /** The answer of `get_pixel(x, y)` when it is the call made after `time` earlier calls. */
  type Oracle<C> = (nat, nat, nat) -> C

  datatype State<C> = State(cache: seq<seq<C>>, trace: seq<Event<C>>, aborted: bool)

  /** `get_pixel` and the assignment of its answer to the cached cell. */
  function Refresh<C>(v: Version, oracle: Oracle<C>, st: State<C>, px: nat, py: nat): State<C>
  {
    var t := st.trace + [GetPixel(px, py)];
    if v == Async then st.(trace := t, aborted := true)
    else if InRange(st.cache, px, py) then st.(cache := Put(st.cache, px, py, oracle(|st.trace|, px, py)), trace := t)
    else st.(trace := t, aborted := true)
  }

  /** One template cell at canvas position (px, py), column index x; returns the new state and flag. */
  function Cell<C(==)>(v: Version, oracle: Oracle<C>, st: State<C>, hit: bool, colour: Option<C>,
                       px: nat, py: nat, x: nat): (State<C>, bool)
  {
    if v != Legacy && colour.None? then (st, hit)
    else
      var st1 := if hit && x % Cadence(v) == 0 then Refresh(v, oracle, st, px, py) else st;
      if st1.aborted || colour.None? then (st1, hit)
      else if !InRange(st1.cache, px, py) then (st1.(aborted := true), hit)
      else if st1.cache[py][px] == colour.value then (st1, hit)
      else (st1.(trace := st1.trace + [SetPixel(px, py, colour.value)]), true)
  }

  /** The cells of one template row from column x on, the row's top-left at (locX, py). */
  function Row<C(==)>(v: Version, oracle: Oracle<C>, st: State<C>, hit: bool, row: seq<Option<C>>,
                      locX: nat, py: nat, x: nat): State<C>
    requires x <= |row|
    decreases |row| - x
  {
    if st.aborted || x == |row| then st
    else
      var (st', hit') := Cell(v, oracle, st, hit, row[x], locX + x, py, x);
      Row(v, oracle, st', hit', row, locX, py, x + 1)
  }

  /** The rows of the template from row y on; every row starts with the flag cleared. */
  function Rows<C(==)>(v: Version, oracle: Oracle<C>, st: State<C>, img: Template<C>,
                       locX: nat, locY: nat, y: nat): State<C>
    requires y <= |img|
    decreases |img| - y
  {
    if st.aborted || y == |img| then st
    else Rows(v, oracle, Row(v, oracle, st, false, img[y], locX, locY + y, 0), img, locX, locY, y + 1)
  }

  // ---------------------------------------------------------------------------
  // Reference definitions

  /** Template cell `colour` is opaque and the canvas differs from it at (px, py). */
  predicate Mismatch<C(==)>(colour: Option<C>, r: seq<seq<C>>, px: nat, py: nat) {
    colour.Some? && InRange(r, px, py) && r[py][px] != colour.value
  }

  /** Every cell of the template lies on the canvas r. */
  predicate Fits<C>(img: Template<C>, locX: nat, locY: nat, r: seq<seq<C>>) {
    forall y :: 0 <= y < |img| ==> RowFits(img[y], locX, locY + y, r)
  }

  /** The remote canvas r does not change: every `get_pixel` answers with r. */
  ghost predicate Static<C>(oracle: Oracle<C>, r: seq<seq<C>>) {
    forall k: nat, x: nat, y: nat :: InRange(r, x, y) ==> oracle(k, x, y) == r[y][x]
  }

  /** The writes a row needs on canvas r, from column x on, left to right. */
  function RowMismatches<C(==)>(row: seq<Option<C>>, locX: nat, py: nat, r: seq<seq<C>>, x: nat): seq<Event<C>>
    requires x <= |row|
    decreases |row| - x
  {
    if x == |row| then []
    else (if Mismatch(row[x], r, locX + x, py) then [SetPixel(locX + x, py, row[x].value)] else [])
         + RowMismatches(row, locX, py, r, x + 1)
  }

  /** The writes the template needs on canvas r, in row-major order. */
  function Mismatches<C(==)>(img: Template<C>, locX: nat, locY: nat, r: seq<seq<C>>, y: nat): seq<Event<C>>
    requires y <= |img|
    decreases |img| - y
  {
    if y == |img| then []
    else RowMismatches(img[y], locX, locY + y, r, 0) + Mismatches(img, locX, locY, r, y + 1)
  }

  /** The first column at or after x whose cell mismatches, or the row length. */
  function FirstMismatch<C(==)>(row: seq<Option<C>>, locX: nat, py: nat, r: seq<seq<C>>, x: nat): (f: nat)
    requires x <= |row|
    ensures x <= f <= |row|
    ensures forall x' :: x <= x' < f ==> !Mismatch(row[x'], r, locX + x', py)
    ensures f < |row| ==> Mismatch(row[f], r, locX + f, py)
    decreases |row| - x
  {
    if x == |row| then |row|
    else if Mismatch(row[x], r, locX + x, py) then x
    else FirstMismatch(row, locX, py, r, x + 1)
  }

  /**
   * The calls one cell causes on a canvas that does not change, written
   * without the flag: a refresh happens exactly when the row's first
   * mismatch lies strictly to the left (column f), the column fits the
   * cadence and, for Async, the cell is opaque; a write exactly on mismatch.
   */
  function CellEvents<C(==)>(v: Version, colour: Option<C>, r: seq<seq<C>>, px: nat, py: nat, x: nat, f: nat): seq<Event<C>>
  {
    (if f < x && x % Cadence(v) == 0 && (v == Legacy || colour.Some?) then [GetPixel(px, py)] else [])
    + (if Mismatch(colour, r, px, py) then [SetPixel(px, py, colour.value)] else [])
  }

  function StaticRowEvents<C(==)>(v: Version, row: seq<Option<C>>, locX: nat, py: nat, r: seq<seq<C>>, f: nat, x: nat): seq<Event<C>>
    requires x <= |row|
    decreases |row| - x
  {
    if x == |row| then []
    else CellEvents(v, row[x], r, locX + x, py, x, f) + StaticRowEvents(v, row, locX, py, r, f, x + 1)
  }

  function StaticEvents<C(==)>(v: Version, img: Template<C>, locX: nat, locY: nat, r: seq<seq<C>>, y: nat): seq<Event<C>>
    requires y <= |img|
    decreases |img| - y
  {
    if y == |img| then []
    else StaticRowEvents(v, img[y], locX, locY + y, r, FirstMismatch(img[y], locX, locY + y, r, 0), 0)
         + StaticEvents(v, img, locX, locY, r, y + 1)
  }

  // ---------------------------------------------------------------------------
  // A canvas nobody else paints

  predicate RowFits<C>(row: seq<Option<C>>, locX: nat, py: nat, r: seq<seq<C>>) {
    py < |r| && locX + |row| <= |r[py]|
  }

  lemma RowStep<C>(v: Version, oracle: Oracle<C>, st: State<C>, hit: bool, row: seq<Option<C>>, locX: nat, py: nat, x: nat)
    requires x < |row| && !st.aborted
    ensures var c := Cell(v, oracle, st, hit, row[x], locX + x, py, x);
            Row(v, oracle, st, hit, row, locX, py, x) == Row(v, oracle, c.0, c.1, row, locX, py, x + 1)
  {
  }

  /** On a canvas that does not change, one cell causes exactly its CellEvents and leaves the cache alone. */
  lemma StaticCell<C>(v: Version, oracle: Oracle<C>, st: State<C>, hit: bool, colour: Option<C>,
                          r: seq<seq<C>>, px: nat, py: nat, x: nat, f: nat)
    requires Stores(v) && Static(oracle, r) && st.cache == r && !st.aborted && InRange(r, px, py)
    requires hit == (f < x)
    requires f == x ==> Mismatch(colour, r, px, py)
    requires f > x ==> !Mismatch(colour, r, px, py)
    ensures Cell(v, oracle, st, hit, colour, px, py, x).0 == State(r, st.trace + CellEvents(v, colour, r, px, py, x, f), false)
    ensures Cell(v, oracle, st, hit, colour, px, py, x).1 == (f < x + 1)
  {
    if v != Legacy && colour.None? {
    } else {
      var st1 := if hit && x % Cadence(v) == 0 then Refresh(v, oracle, st, px, py) else st;
      if hit && x % Cadence(v) == 0 {
        assert oracle(|st.trace|, px, py) == r[py][px];
        PutSame(r, px, py);
        assert st1 == State(r, st.trace + [GetPixel(px, py)], false);
      }
    }
  }

  lemma {:induction false} StaticRow<C>(v: Version, oracle: Oracle<C>, st: State<C>, hit: bool,
                                            row: seq<Option<C>>, locX: nat, py: nat, r: seq<seq<C>>, x: nat)
    requires Stores(v) && Static(oracle, r) && st.cache == r && !st.aborted
    requires x <= |row| && RowFits(row, locX, py, r)
    requires hit == (FirstMismatch(row, locX, py, r, 0) < x)
    ensures Row(v, oracle, st, hit, row, locX, py, x)
            == State(r, st.trace + StaticRowEvents(v, row, locX, py, r, FirstMismatch(row, locX, py, r, 0), x), false)
    decreases |row| - x
  {
    var f := FirstMismatch(row, locX, py, r, 0);
    if x == |row| {
      assert st.trace + [] == st.trace;
    } else {
      var c := Cell(v, oracle, st, hit, row[x], locX + x, py, x);
      StaticRowHead(v, oracle, st, hit, row, locX, py, r, x);
      StaticRow(v, oracle, c.0, c.1, row, locX, py, r, x + 1);
      StaticRowStep(v, oracle, st, hit, row, locX, py, r, x);
    }
  }

  /** One step of StaticRow: the cell's events, then the rest of the row's. */
  lemma StaticRowStep<C>(v: Version, oracle: Oracle<C>, st: State<C>, hit: bool,
                         row: seq<Option<C>>, locX: nat, py: nat, r: seq<seq<C>>, x: nat)
    requires x < |row| && !st.aborted
    requires var f := FirstMismatch(row, locX, py, r, 0);
             var c := Cell(v, oracle, st, hit, row[x], locX + x, py, x);
             c.0 == State(r, st.trace + CellEvents(v, row[x], r, locX + x, py, x, f), false) &&
             Row(v, oracle, c.0, c.1, row, locX, py, x + 1) == State(r, c.0.trace + StaticRowEvents(v, row, locX, py, r, f, x + 1), false)
    ensures Row(v, oracle, st, hit, row, locX, py, x)
            == State(r, st.trace + StaticRowEvents(v, row, locX, py, r, FirstMismatch(row, locX, py, r, 0), x), false)
  {
    var f := FirstMismatch(row, locX, py, r, 0);
    var ce := CellEvents(v, row[x], r, locX + x, py, x, f);
    var rest := StaticRowEvents(v, row, locX, py, r, f, x + 1);
    RowStep(v, oracle, st, hit, row, locX, py, x);
    assert StaticRowEvents(v, row, locX, py, r, f, x) == ce + rest;
    assert st.trace + ce + rest == st.trace + (ce + rest);
  }

  lemma StaticRowHead<C>(v: Version, oracle: Oracle<C>, st: State<C>, hit: bool,
                         row: seq<Option<C>>, locX: nat, py: nat, r: seq<seq<C>>, x: nat)
    requires Stores(v) && Static(oracle, r) && st.cache == r && !st.aborted
    requires x < |row| && RowFits(row, locX, py, r)
    requires hit == (FirstMismatch(row, locX, py, r, 0) < x)
    ensures var f := FirstMismatch(row, locX, py, r, 0);
            var c := Cell(v, oracle, st, hit, row[x], locX + x, py, x);
            c.0 == State(r, st.trace + CellEvents(v, row[x], r, locX + x, py, x, f), false) && c.1 == (f < x + 1)
  {
    var f := FirstMismatch(row, locX, py, r, 0);
    var px := locX + x;
    assert InRange(r, px, py);
    assert f == x ==> Mismatch(row[x], r, px, py);
    assert f > x ==> !Mismatch(row[x], r, px, py);
    StaticCell(v, oracle, st, hit, row[x], r, px, py, x, f);
  }

  lemma {:induction false} StaticRows<C>(v: Version, oracle: Oracle<C>, st: State<C>, img: Template<C>,
                                         locX: nat, locY: nat, r: seq<seq<C>>, y: nat)
    requires Stores(v) && Static(oracle, r) && st.cache == r && !st.aborted
    requires y <= |img| && Fits(img, locX, locY, r)
    ensures Rows(v, oracle, st, img, locX, locY, y) == State(r, st.trace + StaticEvents(v, img, locX, locY, r, y), false)
    decreases |img| - y
  {
    if y == |img| {
      assert st.trace + [] == st.trace;
    } else {
      StaticRow(v, oracle, st, false, img[y], locX, locY + y, r, 0);
      var st' := Row(v, oracle, st, false, img[y], locX, locY + y, 0);
      StaticRows(v, oracle, st', img, locX, locY, r, y + 1);
      var a := StaticRowEvents(v, img[y], locX, locY + y, r, FirstMismatch(img[y], locX, locY + y, r, 0), 0);
      var b := StaticEvents(v, img, locX, locY, r, y + 1);
      assert st.trace + a + b == st.trace + (a + b);
    }
  }

  lemma CellEventsWrites<C>(v: Version, colour: Option<C>, r: seq<seq<C>>, px: nat, py: nat, x: nat, f: nat)
    ensures Writes(CellEvents(v, colour, r, px, py, x, f))
            == if Mismatch(colour, r, px, py) then [SetPixel(px, py, colour.value)] else []
  {
    var rd: seq<Event<C>> := if f < x && x % Cadence(v) == 0 && (v == Legacy || colour.Some?) then [GetPixel(px, py)] else [];
    var wr: seq<Event<C>> := if Mismatch(colour, r, px, py) then [SetPixel(px, py, colour.value)] else [];
    WritesAppend(rd, wr);
    assert Writes(rd) == [];
    assert Writes(wr) == wr;
  }

  lemma {:induction false} StaticRowWrites<C>(v: Version, row: seq<Option<C>>, locX: nat, py: nat, r: seq<seq<C>>, f: nat, x: nat)
    requires x <= |row|
    ensures Writes(StaticRowEvents(v, row, locX, py, r, f, x)) == RowMismatches(row, locX, py, r, x)
    decreases |row| - x
  {
    if x < |row| {
      var px := locX + x;
      var ce := CellEvents(v, row[x], r, px, py, x, f);
      var rest := StaticRowEvents(v, row, locX, py, r, f, x + 1);
      var head: seq<Event<C>> := if Mismatch(row[x], r, px, py) then [SetPixel(px, py, row[x].value)] else [];
      assert StaticRowEvents(v, row, locX, py, r, f, x) == ce + rest;
      assert RowMismatches(row, locX, py, r, x) == head + RowMismatches(row, locX, py, r, x + 1);
      CellEventsWrites(v, row[x], r, px, py, x, f);
      WritesAppend(ce, rest);
      StaticRowWrites(v, row, locX, py, r, f, x + 1);
    }
  }

  lemma {:induction false} StaticWrites<C>(v: Version, img: Template<C>, locX: nat, locY: nat, r: seq<seq<C>>, y: nat)
    requires y <= |img|
    ensures Writes(StaticEvents(v, img, locX, locY, r, y)) == Mismatches(img, locX, locY, r, y)
    decreases |img| - y
  {
    if y < |img| {
      var f := FirstMismatch(img[y], locX, locY + y, r, 0);
      var a := StaticRowEvents(v, img[y], locX, locY + y, r, f, 0);
      var b := StaticEvents(v, img, locX, locY, r, y + 1);
      assert StaticEvents(v, img, locX, locY, r, y) == a + b;
      StaticRowWrites(v, img[y], locX, locY + y, r, f, 0);
      WritesAppend(a, b);
      StaticWrites(v, img, locX, locY, r, y + 1);
      assert Mismatches(img, locX, locY, r, y) == RowMismatches(img[y], locX, locY + y, r, 0) + Mismatches(img, locX, locY, r, y + 1);
    }
  }

  /** A row's needed writes are exactly the mismatching opaque cells, each with its template colour. */
  lemma {:induction false} RowMismatchesMembers<C>(row: seq<Option<C>>, locX: nat, py: nat, r: seq<seq<C>>, x0: nat, e: Event<C>)
    requires x0 <= |row|
    ensures e in RowMismatches(row, locX, py, r, x0) <==>
            exists x :: x0 <= x < |row| && Mismatch(row[x], r, locX + x, py) && e == SetPixel(locX + x, py, row[x].value)
    decreases |row| - x0
  {
    if x0 < |row| {
      var head: seq<Event<C>> := if Mismatch(row[x0], r, locX + x0, py) then [SetPixel(locX + x0, py, row[x0].value)] else [];
      var tail := RowMismatches(row, locX, py, r, x0 + 1);
      assert RowMismatches(row, locX, py, r, x0) == head + tail;
      RowMismatchesMembers(row, locX, py, r, x0 + 1, e);
      if e in head {
        assert Mismatch(row[x0], r, locX + x0, py) && e == SetPixel(locX + x0, py, row[x0].value);
      }
      if e in tail {
        var x :| x0 + 1 <= x < |row| && Mismatch(row[x], r, locX + x, py) && e == SetPixel(locX + x, py, row[x].value);
        assert x0 <= x;
      }
      if exists x :: x0 <= x < |row| && Mismatch(row[x], r, locX + x, py) && e == SetPixel(locX + x, py, row[x].value) {
        var x :| x0 <= x < |row| && Mismatch(row[x], r, locX + x, py) && e == SetPixel(locX + x, py, row[x].value);
        if x == x0 {
          assert e in head;
        } else {
          assert e in tail;
        }
      }
    }
  }

  /**
   * The writes the template needs are exactly the opaque cells whose canvas
   * colour differs, at (locX + x, locY + y), each with the template colour.
   */
  lemma {:induction false} MismatchesMembers<C>(img: Template<C>, locX: nat, locY: nat, r: seq<seq<C>>, y0: nat, e: Event<C>)
    requires y0 <= |img|
    ensures e in Mismatches(img, locX, locY, r, y0) <==>
            exists y, x :: y0 <= y < |img| && 0 <= x < |img[y]| && Mismatch(img[y][x], r, locX + x, locY + y)
                           && e == SetPixel(locX + x, locY + y, img[y][x].value)
    decreases |img| - y0
  {
    if y0 < |img| {
      RowMismatchesMembers(img[y0], locX, locY + y0, r, 0, e);
      MismatchesMembers(img, locX, locY, r, y0 + 1, e);
      if e in Mismatches(img, locX, locY, r, y0 + 1) {
        var y, x :| y0 + 1 <= y < |img| && 0 <= x < |img[y]| && Mismatch(img[y][x], r, locX + x, locY + y)
                    && e == SetPixel(locX + x, locY + y, img[y][x].value);
        assert y0 <= y;
      }
      if e in RowMismatches(img[y0], locX, locY + y0, r, 0) {
        var x :| 0 <= x < |img[y0]| && Mismatch(img[y0][x], r, locX + x, locY + y0) && e == SetPixel(locX + x, locY + y0, img[y0][x].value);
        assert Mismatch(img[y0][x], r, locX + x, locY + y0);
      }
      if exists y, x :: y0 <= y < |img| && 0 <= x < |img[y]| && Mismatch(img[y][x], r, locX + x, locY + y)
                        && e == SetPixel(locX + x, locY + y, img[y][x].value) {
        var y, x :| y0 <= y < |img| && 0 <= x < |img[y]| && Mismatch(img[y][x], r, locX + x, locY + y)
                    && e == SetPixel(locX + x, locY + y, img[y][x].value);
        if y == y0 {
          assert e in RowMismatches(img[y0], locX, locY + y0, r, 0);
        } else {
          assert e in Mismatches(img, locX, locY, r, y0 + 1);
        }
      }
    }
  }

  // ---------------------------------------------------------------------------
  // Convergence

  lemma {:induction false} ApplyIgnoresReads<C>(g: seq<seq<C>>, t: seq<Event<C>>)
    ensures Apply(g, t) == Apply(g, Writes(t))
    decreases |t|
  {
    if t != [] {
      var e := t[0];
      var g' := if e.SetPixel? && InRange(g, e.x, e.y) then Put(g, e.x, e.y, e.colour) else g;
      ApplyIgnoresReads(g', t[1..]);
      if e.SetPixel? {
        assert Writes(t) == [e] + Writes(t[1..]);
        assert Writes(t)[1..] == Writes(t[1..]);
      } else {
        assert Writes(t) == Writes(t[1..]);
      }
    }
  }

  lemma FitsSameShape<C>(img: Template<C>, locX: nat, locY: nat, r: seq<seq<C>>, r': seq<seq<C>>)
    requires Fits(img, locX, locY, r) && SameShape(r, r')
    ensures Fits(img, locX, locY, r')
  {
    forall y | 0 <= y < |img| ensures RowFits(img[y], locX, locY + y, r') {
      assert RowFits(img[y], locX, locY + y, r);
    }
  }

  /** After the needed writes land, an opaque cell of the zone holds its template colour. */
  lemma RepairedCell<C>(img: Template<C>, locX: nat, locY: nat, r: seq<seq<C>>, y: nat, x: nat)
    requires Fits(img, locX, locY, r)
    requires y < |img| && x < |img[y]| && img[y][x].Some?
    ensures InRange(Apply(r, Mismatches(img, locX, locY, r, 0)), locX + x, locY + y)
    ensures Apply(r, Mismatches(img, locX, locY, r, 0))[locY + y][locX + x] == img[y][x].value
  {
    var m := Mismatches(img, locX, locY, r, 0);
    var px, py, c := locX + x, locY + y, img[y][x].value;
    assert RowFits(img[y], locX, py, r);
    assert InRange(r, px, py);
    forall i | 0 <= i < |m| && WritesTo(m[i], px, py) ensures m[i].colour == c {
      MismatchesMembers(img, locX, locY, r, 0, m[i]);
      assert m[i] in m;
    }
    if r[py][px] != c {
      MismatchesMembers(img, locX, locY, r, 0, SetPixel(px, py, c));
      assert Mismatch(img[y][x], r, px, py);
      assert SetPixel(px, py, c) in m;
    }
    ApplyCell(r, m, px, py, c);
  }

  /** Once the needed writes have landed, the template needs no more writes. */
  lemma RepairedNeedsNothing<C>(img: Template<C>, locX: nat, locY: nat, r: seq<seq<C>>)
    requires Fits(img, locX, locY, r)
    ensures Mismatches(img, locX, locY, Apply(r, Mismatches(img, locX, locY, r, 0)), 0) == []
  {
    var r2 := Apply(r, Mismatches(img, locX, locY, r, 0));
    var m2 := Mismatches(img, locX, locY, r2, 0);
    if m2 != [] {
      var e := m2[0];
      MismatchesMembers(img, locX, locY, r2, 0, e);
      var y, x :| 0 <= y < |img| && 0 <= x < |img[y]| && Mismatch(img[y][x], r2, locX + x, locY + y)
                  && e == SetPixel(locX + x, locY + y, img[y][x].value);
      RepairedCell(img, locX, locY, r, y, x);
      assert false;
    }
  }

  lemma {:induction false} NoRowMismatchNoEvents<C>(v: Version, row: seq<Option<C>>, locX: nat, py: nat, r: seq<seq<C>>, x: nat)
    requires x <= |row| && RowMismatches(row, locX, py, r, x) == []
    ensures StaticRowEvents(v, row, locX, py, r, |row|, x) == []
    decreases |row| - x
  {
    if x < |row| {
      NoRowMismatchNoEvents(v, row, locX, py, r, x + 1);
    }
  }

  lemma NoRowMismatchFirst<C>(row: seq<Option<C>>, locX: nat, py: nat, r: seq<seq<C>>)
    requires RowMismatches(row, locX, py, r, 0) == []
    ensures FirstMismatch(row, locX, py, r, 0) == |row|
  {
    var f := FirstMismatch(row, locX, py, r, 0);
    if f < |row| {
      RowMismatchesMembers(row, locX, py, r, 0, SetPixel(locX + f, py, row[f].value));
      assert false;
    }
  }

  /** With nothing to repair, a pass on a canvas that does not change makes no call at all. */
  lemma {:induction false} NoMismatchNoEvents<C>(v: Version, img: Template<C>, locX: nat, locY: nat, r: seq<seq<C>>, y: nat)
    requires y <= |img| && Mismatches(img, locX, locY, r, y) == []
    ensures StaticEvents(v, img, locX, locY, r, y) == []
    decreases |img| - y
  {
    if y < |img| {
      NoRowMismatchFirst(img[y], locX, locY + y, r);
      NoRowMismatchNoEvents(v, img[y], locX, locY + y, r, 0);
      NoMismatchNoEvents(v, img, locX, locY, r, y + 1);
    }
  }

  /**
   * Convergence. On a canvas r that nobody else paints, a pass completes,
   * leaves its cache equal to r and writes exactly the needed cells; once
   * those writes have landed, a second pass on the result makes no call.
   */
  lemma Converges<C>(v: Version, oracle1: Oracle<C>, oracle2: Oracle<C>, r: seq<seq<C>>, img: Template<C>,
                     locX: nat, locY: nat, t0: seq<Event<C>>, t1: seq<Event<C>>)
    requires Stores(v) && Fits(img, locX, locY, r) && Static(oracle1, r)
    ensures var p1 := Rows(v, oracle1, State(r, t0, false), img, locX, locY, 0);
            && !p1.aborted && p1.cache == r && |t0| <= |p1.trace| && p1.trace[..|t0|] == t0
            && Writes(p1.trace[|t0|..]) == Mismatches(img, locX, locY, r, 0)
    ensures var p1 := Rows(v, oracle1, State(r, t0, false), img, locX, locY, 0);
            var r2 := Apply(r, p1.trace[|t0|..]);
            Static(oracle2, r2) ==> Rows(v, oracle2, State(r2, t1, false), img, locX, locY, 0) == State(r2, t1, false)
  {
    var ev := StaticEvents(v, img, locX, locY, r, 0);
    StaticRows(v, oracle1, State(r, t0, false), img, locX, locY, r, 0);
    var p1 := Rows(v, oracle1, State(r, t0, false), img, locX, locY, 0);
    assert p1.trace[|t0|..] == ev;
    StaticWrites(v, img, locX, locY, r, 0);
    ApplyIgnoresReads(r, ev);
    var r2 := Apply(r, ev);
    RepairedNeedsNothing(img, locX, locY, r);
    NoMismatchNoEvents(v, img, locX, locY, r2, 0);
    FitsSameShape(img, locX, locY, r, r2);
    if Static(oracle2, r2) {
      StaticRows(v, oracle2, State(r2, t1, false), img, locX, locY, r2, 0);
      assert t1 + [] == t1;
    }
  }

  // ---------------------------------------------------------------------------
  // What a pass may do, whatever the remote canvas answers

  /**
   * A call a pass over the template may make: a read or a write of a cell of
   * the zone; a write always carries the template's colour for that cell;
   * the Async loop never touches a transparent cell.
   */
  predicate Allowed<C(==)>(v: Version, img: Template<C>, locX: nat, locY: nat, e: Event<C>) {
    !e.GetPixels? && locY <= e.y < locY + |img| && locX <= e.x < locX + |img[e.y - locY]|
    && (e.SetPixel? ==> img[e.y - locY][e.x - locX] == Some(e.colour))
    && (v != Legacy ==> img[e.y - locY][e.x - locX].Some?)
  }

  /** t' is t followed by allowed calls only. */
  predicate Extends<C(==)>(v: Version, img: Template<C>, locX: nat, locY: nat, t: seq<Event<C>>, t': seq<Event<C>>) {
    |t| <= |t'| && t'[..|t|] == t && forall i :: |t| <= i < |t'| ==> Allowed(v, img, locX, locY, t'[i])
  }

  lemma ExtendsTrans<C>(v: Version, img: Template<C>, locX: nat, locY: nat, t1: seq<Event<C>>, t2: seq<Event<C>>, t3: seq<Event<C>>)
    requires Extends(v, img, locX, locY, t1, t2) && Extends(v, img, locX, locY, t2, t3)
    ensures Extends(v, img, locX, locY, t1, t3)
  {
    assert t3[..|t1|] == t3[..|t2|][..|t1|];
  }

  /** Every opaque cell of the row from column x on lies on grid g. */
  predicate OpaqueRowFits<C>(row: seq<Option<C>>, locX: nat, py: nat, g: seq<seq<C>>, x: nat) {
    forall x' :: x <= x' < |row| && row[x'].Some? ==> InRange(g, locX + x', py)
  }

  /** Every opaque cell of the template from row y on lies on grid g. */
  predicate OpaqueFits<C>(img: Template<C>, locX: nat, locY: nat, g: seq<seq<C>>, y: nat) {
    forall y' :: y <= y' < |img| ==> OpaqueRowFits(img[y'], locX, locY + y', g, 0)
  }

  /**
   * One cell keeps the shape of the cache, only makes allowed calls, and
   * raises exactly when it indexes a position off the cached canvas (an
   * opaque cell, or for Legacy a refreshed transparent one) or, as
   * written, when the Async loop refreshes.
   */
  lemma CellFacts<C>(v: Version, oracle: Oracle<C>, st: State<C>, hit: bool, img: Template<C>,
                     locX: nat, locY: nat, y: nat, x: nat)
    requires y < |img| && x < |img[y]| && !st.aborted
    ensures var c := Cell(v, oracle, st, hit, img[y][x], locX + x, locY + y, x);
            var refresh := hit && x % Cadence(v) == 0 && (v == Legacy || img[y][x].Some?);
            SameShape(st.cache, c.0.cache) && Extends(v, img, locX, locY, st.trace, c.0.trace)
            && (c.0.aborted <==> (refresh && v == Async)
                                  || ((img[y][x].Some? || refresh) && !InRange(st.cache, locX + x, locY + y)))
  {
    CellExtends(v, oracle, st, hit, img, locX, locY, y, x);
    CellAborts(v, oracle, st, hit, img[y][x], locX + x, locY + y, x);
  }

  lemma CellExtends<C>(v: Version, oracle: Oracle<C>, st: State<C>, hit: bool, img: Template<C>,
                       locX: nat, locY: nat, y: nat, x: nat)
    requires y < |img| && x < |img[y]| && !st.aborted
    ensures var c := Cell(v, oracle, st, hit, img[y][x], locX + x, locY + y, x);
            SameShape(st.cache, c.0.cache) && Extends(v, img, locX, locY, st.trace, c.0.trace)
  {
    var px, py := locX + x, locY + y;
    var c := Cell(v, oracle, st, hit, img[y][x], px, py, x);
    if !(v != Legacy && img[y][x].None?) {
      var st1 := if hit && x % Cadence(v) == 0 then Refresh(v, oracle, st, px, py) else st;
      assert SameShape(st.cache, st1.cache);
      assert Extends(v, img, locX, locY, st.trace, st1.trace) by {
        if hit && x % Cadence(v) == 0 {
          assert Allowed(v, img, locX, locY, GetPixel(px, py));
        }
      }
      if !st1.aborted && img[y][x].Some? && InRange(st1.cache, px, py) && st1.cache[py][px] != img[y][x].value {
        var e := SetPixel(px, py, img[y][x].value);
        assert c.0.trace == st1.trace + [e];
        assert Allowed(v, img, locX, locY, e);
        assert Extends(v, img, locX, locY, st1.trace, c.0.trace);
        ExtendsTrans(v, img, locX, locY, st.trace, st1.trace, c.0.trace);
      }
    }
  }

  lemma CellAborts<C>(v: Version, oracle: Oracle<C>, st: State<C>, hit: bool, colour: Option<C>,
                      px: nat, py: nat, x: nat)
    requires !st.aborted
    ensures var c := Cell(v, oracle, st, hit, colour, px, py, x);
            var refresh := hit && x % Cadence(v) == 0 && (v == Legacy || colour.Some?);
            c.0.aborted <==> (refresh && v == Async) || ((colour.Some? || refresh) && !InRange(st.cache, px, py))
  {
    if !(v != Legacy && colour.None?) && hit && x % Cadence(v) == 0 && v != Async && InRange(st.cache, px, py) {
      var st1 := Refresh(v, oracle, st, px, py);
      assert SameShape(st.cache, st1.cache);
      assert InRange(st1.cache, px, py);
    }
  }

  lemma {:induction false} RowFacts<C>(v: Version, oracle: Oracle<C>, st: State<C>, hit: bool, img: Template<C>,
                                       locX: nat, locY: nat, y: nat, x: nat)
    requires y < |img| && x <= |img[y]| && !st.aborted
    ensures var st' := Row(v, oracle, st, hit, img[y], locX, locY + y, x);
            && SameShape(st.cache, st'.cache) && Extends(v, img, locX, locY, st.trace, st'.trace)
            && (Stores(v) && RowFits(img[y], locX, locY + y, st.cache) ==> !st'.aborted)
            && (!st'.aborted ==> OpaqueRowFits(img[y], locX, locY + y, st.cache, x))
            && (v == AsyncCorrected && OpaqueRowFits(img[y], locX, locY + y, st.cache, x) ==> !st'.aborted)
    decreases |img[y]| - x
  {
    if x < |img[y]| {
      var c := Cell(v, oracle, st, hit, img[y][x], locX + x, locY + y, x);
      CellFacts(v, oracle, st, hit, img, locX, locY, y, x);
      RowStep(v, oracle, st, hit, img[y], locX, locY + y, x);
      var st' := Row(v, oracle, st, hit, img[y], locX, locY + y, x);
      if c.0.aborted {
        assert st' == c.0;
        assert Extends(v, img, locX, locY, st.trace, st'.trace);
      } else {
        RowFacts(v, oracle, c.0, c.1, img, locX, locY, y, x + 1);
        ExtendsTrans(v, img, locX, locY, st.trace, c.0.trace, st'.trace);
        assert forall px, py :: InRange(st.cache, px, py) <==> InRange(c.0.cache, px, py);
      }
    } else {
      assert st.trace[..|st.trace|] == st.trace;
    }
  }

  /**
   * A pass, whatever get_pixel answers: the cache keeps its shape, the trace
   * only grows, by reads and writes of the zone's cells (the Async loop:
   * opaque cells only), and every write carries the template colour. When
   * the refresh stores its answer, a template that lies on the cached canvas
   * never aborts; a pass that does not abort has found every opaque cell on
   * the canvas; for AsyncCorrected the converse holds as well. The
   * as-written Async pass is characterised by AsWrittenRows.
   */
  lemma {:induction false} PassFacts<C>(v: Version, oracle: Oracle<C>, st: State<C>, img: Template<C>,
                                        locX: nat, locY: nat, y: nat)
    requires y <= |img| && !st.aborted
    ensures var st' := Rows(v, oracle, st, img, locX, locY, y);
            && SameShape(st.cache, st'.cache) && Extends(v, img, locX, locY, st.trace, st'.trace)
            && (Stores(v) && Fits(img, locX, locY, st.cache) ==> !st'.aborted)
            && (!st'.aborted ==> OpaqueFits(img, locX, locY, st.cache, y))
            && (v == AsyncCorrected && OpaqueFits(img, locX, locY, st.cache, y) ==> !st'.aborted)
    decreases |img| - y
  {
    var st' := Rows(v, oracle, st, img, locX, locY, y);
    if y < |img| {
      var sr := Row(v, oracle, st, false, img[y], locX, locY + y, 0);
      RowFacts(v, oracle, st, false, img, locX, locY, y, 0);
      assert st' == Rows(v, oracle, sr, img, locX, locY, y + 1);
      if sr.aborted {
        assert st' == sr;
      } else {
        PassFacts(v, oracle, sr, img, locX, locY, y + 1);
        ExtendsTrans(v, img, locX, locY, st.trace, sr.trace, st'.trace);
        assert forall px, py :: InRange(st.cache, px, py) <==> InRange(sr.cache, px, py);
        if Fits(img, locX, locY, st.cache) {
          FitsSameShape(img, locX, locY, st.cache, sr.cache);
        }
        if !st'.aborted {
          forall y' | y <= y' < |img| ensures OpaqueRowFits(img[y'], locX, locY + y', st.cache, 0) {
            if y' > y {
              assert OpaqueRowFits(img[y'], locX, locY + y', sr.cache, 0);
            }
          }
        }
        if v == AsyncCorrected && OpaqueFits(img, locX, locY, st.cache, y) {
          assert OpaqueFits(img, locX, locY, sr.cache, y + 1) by {
            forall y' | y + 1 <= y' < |img| ensures OpaqueRowFits(img[y'], locX, locY + y', sr.cache, 0) {
              assert OpaqueRowFits(img[y'], locX, locY + y', st.cache, 0);
            }
          }
        }
      }
    } else {
      assert st.trace[..|st.trace|] == st.trace;
    }
  }

  // ---------------------------------------------------------------------------
  // The Async loop as written

  /** The first column at or after x whose cell is opaque, or the row length. */
  function NextOpaque<C>(row: seq<Option<C>>, x: nat): (g: nat)
    requires x <= |row|
    ensures x <= g <= |row|
    ensures forall x' :: x <= x' < g ==> row[x'].None?
    ensures g < |row| ==> row[g].Some?
    decreases |row| - x
  {
    if x == |row| || row[x].Some? then x else NextOpaque(row, x + 1)
  }

  /** On grid g, no opaque cell of the row follows its first mismatch. */
  predicate NothingAfterMismatch<C(==)>(row: seq<Option<C>>, locX: nat, py: nat, g: seq<seq<C>>) {
    var f := FirstMismatch(row, locX, py, g, 0);
    f == |row| || NextOpaque(row, f + 1) == |row|
  }

  /**
   * Every row of the template from row y on has its opaque cells on grid g
   * and no opaque cell after its first mismatch.
   */
  predicate Survives<C(==)>(img: Template<C>, locX: nat, locY: nat, g: seq<seq<C>>, y: nat) {
    forall y' :: y <= y' < |img| ==>
      OpaqueRowFits(img[y'], locX, locY + y', g, 0) && NothingAfterMismatch(img[y'], locX, locY + y', g)
  }

  /**
   * Once a row has had its mismatch, the as-written Async loop passes over
   * transparent cells to the next opaque one, calls `get_pixel` for it and
   * raises; a row with no such cell ends unchanged.
   */
  lemma {:induction false} AsWrittenAfterHit<C>(oracle: Oracle<C>, st: State<C>, row: seq<Option<C>>, locX: nat, py: nat, x: nat)
    requires x <= |row| && !st.aborted
    ensures var g := NextOpaque(row, x);
            Row(Async, oracle, st, true, row, locX, py, x)
            == if g < |row| then State(st.cache, st.trace + [GetPixel(locX + g, py)], true) else st
    decreases |row| - x
  {
    if x < |row| {
      RowStep(Async, oracle, st, true, row, locX, py, x);
      if row[x].None? {
        AsWrittenAfterHit(oracle, st, row, locX, py, x + 1);
      } else {
        var c := Cell(Async, oracle, st, true, row[x], locX + x, py, x);
        assert x % Cadence(Async) == 0;
        assert c.0 == State(st.cache, st.trace + [GetPixel(locX + x, py)], true);
      }
    }
  }

  /**
   * One row of the as-written Async loop, from column x with the flag
   * cleared. The cache is never changed. The row completes exactly when its
   * opaque cells from x on lie on the cache and no opaque cell follows its
   * first mismatch. On a row that lies on the cache, the calls are the write
   * of the first mismatch, then the `get_pixel` of the next opaque cell,
   * after which the row has raised.
   */
  lemma {:induction false} AsWrittenRow<C>(oracle: Oracle<C>, st: State<C>, row: seq<Option<C>>, locX: nat, py: nat, x: nat)
    requires x <= |row| && !st.aborted
    ensures var st' := Row(Async, oracle, st, false, row, locX, py, x);
            var f := FirstMismatch(row, locX, py, st.cache, x);
            var g := if f < |row| then NextOpaque(row, f + 1) else |row|;
            && st'.cache == st.cache
            && (!st'.aborted <==> OpaqueRowFits(row, locX, py, st.cache, x) && g == |row|)
            && (OpaqueRowFits(row, locX, py, st.cache, x) ==>
                  st'.trace == st.trace + (if f < |row| then [SetPixel(locX + f, py, row[f].value)] else [])
                                        + (if g < |row| then [GetPixel(locX + g, py)] else []))
    decreases |row| - x, 1
  {
    if x < |row| {
      var px := locX + x;
      var c := Cell(Async, oracle, st, false, row[x], px, py, x);
      RowStep(Async, oracle, st, false, row, locX, py, x);
      if row[x].Some? && !InRange(st.cache, px, py) {
        assert c.0 == st.(aborted := true);
        assert !OpaqueRowFits(row, locX, py, st.cache, x);
      } else if Mismatch(row[x], st.cache, px, py) {
        AsWrittenMismatch(oracle, st, row, locX, py, x);
      } else {
        AsWrittenSkip(oracle, st, row, locX, py, x);
      }
    } else {
      assert st.trace + [] + [] == st.trace;
    }
  }

  /** AsWrittenRow at a cell that is transparent or already shows its colour: the row goes on unchanged. */
  lemma {:induction false} AsWrittenSkip<C>(oracle: Oracle<C>, st: State<C>, row: seq<Option<C>>, locX: nat, py: nat, x: nat)
    requires x < |row| && !st.aborted && !Mismatch(row[x], st.cache, locX + x, py)
    requires row[x].Some? ==> InRange(st.cache, locX + x, py)
    ensures var st' := Row(Async, oracle, st, false, row, locX, py, x);
            var f := FirstMismatch(row, locX, py, st.cache, x);
            var g := if f < |row| then NextOpaque(row, f + 1) else |row|;
            && st'.cache == st.cache
            && (!st'.aborted <==> OpaqueRowFits(row, locX, py, st.cache, x) && g == |row|)
            && (OpaqueRowFits(row, locX, py, st.cache, x) ==>
                  st'.trace == st.trace + (if f < |row| then [SetPixel(locX + f, py, row[f].value)] else [])
                                        + (if g < |row| then [GetPixel(locX + g, py)] else []))
    decreases |row| - x, 0
  {
    var c := Cell(Async, oracle, st, false, row[x], locX + x, py, x);
    assert c == (st, false);
    RowStep(Async, oracle, st, false, row, locX, py, x);
    AsWrittenRow(oracle, st, row, locX, py, x + 1);
    assert FirstMismatch(row, locX, py, st.cache, x) == FirstMismatch(row, locX, py, st.cache, x + 1);
    assert OpaqueRowFits(row, locX, py, st.cache, x) <==> OpaqueRowFits(row, locX, py, st.cache, x + 1);
  }

  /** AsWrittenRow at the row's first mismatch: the write, then AsWrittenAfterHit. */
  lemma AsWrittenMismatch<C>(oracle: Oracle<C>, st: State<C>, row: seq<Option<C>>, locX: nat, py: nat, x: nat)
    requires x < |row| && !st.aborted && Mismatch(row[x], st.cache, locX + x, py)
    ensures var st' := Row(Async, oracle, st, false, row, locX, py, x);
            var g := NextOpaque(row, x + 1);
            && st'.cache == st.cache
            && (!st'.aborted <==> OpaqueRowFits(row, locX, py, st.cache, x) && g == |row|)
            && (OpaqueRowFits(row, locX, py, st.cache, x) ==>
                  st'.trace == st.trace + [SetPixel(locX + x, py, row[x].value)] + (if g < |row| then [GetPixel(locX + g, py)] else []))
  {
    var e := SetPixel(locX + x, py, row[x].value);
    var c := Cell(Async, oracle, st, false, row[x], locX + x, py, x);
    assert c == (State(st.cache, st.trace + [e], false), true);
    RowStep(Async, oracle, st, false, row, locX, py, x);
    AsWrittenAfterHit(oracle, c.0, row, locX, py, x + 1);
    var g := NextOpaque(row, x + 1);
    if g == |row| {
      assert OpaqueRowFits(row, locX, py, st.cache, x);
      assert st.trace + [e] + [] == st.trace + [e];
    }
  }

  /**
   * A pass of the as-written Async loop never changes the cache and
   * completes exactly when every row survives: the first row with an opaque
   * cell after its first mismatch, or with an opaque cell off the cache,
   * ends the pass.
   */
  lemma {:induction false} AsWrittenRows<C>(oracle: Oracle<C>, st: State<C>, img: Template<C>, locX: nat, locY: nat, y: nat)
    requires y <= |img| && !st.aborted
    ensures var st' := Rows(Async, oracle, st, img, locX, locY, y);
            st'.cache == st.cache && (!st'.aborted <==> Survives(img, locX, locY, st.cache, y))
    decreases |img| - y
  {
    if y < |img| {
      var sr := Row(Async, oracle, st, false, img[y], locX, locY + y, 0);
      AsWrittenRow(oracle, st, img[y], locX, locY + y, 0);
      if !sr.aborted {
        AsWrittenRows(oracle, sr, img, locX, locY, y + 1);
      }
    }
  }

  /**
   * A row [a, a, transparent] on a canvas row of another colour. Legacy
   * re-reads the transparent third cell (its column is even and the row has
   * had a mismatch) but never writes it; the corrected Async loop re-reads
   * the second cell (cadence 1) and skips the transparent one entirely; as
   * written, the Async loop raises right after that re-read.
   */
  lemma CadenceExample()
    ensures var img: Template<int> := [[Some(1), Some(1), None]];
            var st := State([[0, 0, 0]], [], false);
            var oracle: Oracle<int> := (k: nat, x: nat, y: nat) => 0;
            && Rows(Legacy, oracle, st, img, 0, 0, 0).trace == [SetPixel(0, 0, 1), SetPixel(1, 0, 1), GetPixel(2, 0)]
            && Rows(AsyncCorrected, oracle, st, img, 0, 0, 0).trace == [SetPixel(0, 0, 1), GetPixel(1, 0), SetPixel(1, 0, 1)]
            && Rows(Async, oracle, st, img, 0, 0, 0) == State([[0, 0, 0]], [SetPixel(0, 0, 1), GetPixel(1, 0)], true)
  {
    var img: Template<int> := [[Some(1), Some(1), None]];
    var st := State([[0, 0, 0]], [], false);
    var oracle: Oracle<int> := (k: nat, x: nat, y: nat) => 0;
    var row := img[0];
    var l0 := Cell(Legacy, oracle, st, false, row[0], 0, 0, 0);
    assert InRange(st.cache, 0, 0) && InRange(st.cache, 1, 0) && st.cache[0][0] == 0 && st.cache[0][1] == 0;
    assert [] + [SetPixel(0, 0, 1)] == [SetPixel(0, 0, 1)];
    assert l0 == (State([[0, 0, 0]], [SetPixel(0, 0, 1)], false), true);
    var l1 := Cell(Legacy, oracle, l0.0, l0.1, row[1], 1, 0, 1);
    assert [SetPixel(0, 0, 1)] + [SetPixel(1, 0, 1)] == [SetPixel(0, 0, 1), SetPixel(1, 0, 1)];
    assert l1 == (State([[0, 0, 0]], [SetPixel(0, 0, 1), SetPixel(1, 0, 1)], false), true);
    var l2 := Cell(Legacy, oracle, l1.0, l1.1, row[2], 2, 0, 2);
    assert l2.0.trace == [SetPixel(0, 0, 1), SetPixel(1, 0, 1), GetPixel(2, 0)] && !l2.0.aborted;
    assert Row(Legacy, oracle, l2.0, l2.1, row, 0, 0, 3) == l2.0;
    assert Rows(Legacy, oracle, st, img, 0, 0, 0) == Rows(Legacy, oracle, l2.0, img, 0, 0, 1);
    var a0 := Cell(AsyncCorrected, oracle, st, false, row[0], 0, 0, 0);
    assert a0 == l0;
    var a1 := Cell(AsyncCorrected, oracle, a0.0, a0.1, row[1], 1, 0, 1);
    PutSame(st.cache, 1, 0);
    assert [SetPixel(0, 0, 1)] + [GetPixel(1, 0)] == [SetPixel(0, 0, 1), GetPixel(1, 0)];
    assert [SetPixel(0, 0, 1), GetPixel(1, 0)] + [SetPixel(1, 0, 1)] == [SetPixel(0, 0, 1), GetPixel(1, 0), SetPixel(1, 0, 1)];
    assert a1 == (State([[0, 0, 0]], [SetPixel(0, 0, 1), GetPixel(1, 0), SetPixel(1, 0, 1)], false), true);
    var a2 := Cell(AsyncCorrected, oracle, a1.0, a1.1, row[2], 2, 0, 2);
    assert a2 == a1;
    assert Row(AsyncCorrected, oracle, a2.0, a2.1, row, 0, 0, 3) == a2.0;
    assert Rows(AsyncCorrected, oracle, st, img, 0, 0, 0) == Rows(AsyncCorrected, oracle, a2.0, img, 0, 0, 1);
    var w0 := Cell(Async, oracle, st, false, row[0], 0, 0, 0);
    assert w0 == l0;
    var w1 := Cell(Async, oracle, w0.0, w0.1, row[1], 1, 0, 1);
    assert w1.0 == State([[0, 0, 0]], [SetPixel(0, 0, 1), GetPixel(1, 0)], true);
    assert Rows(Async, oracle, st, img, 0, 0, 0) == w1.0;
  }
}
