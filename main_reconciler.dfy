/**
 * `run_for_img` of main.py: fetch the canvas once, decode it into a grid of
 * colour strings, then walk the zone's template with the Legacy cadence,
 * re-reading the cached cell before it looks at transparency.
 */
module MainReconciler {
  import opened Wrappers
  import opened HexCodec
  import opened CanvasModel
  import opened Reconcile
  import opened MainApi

  /**
   * One pass over the template at (locX, locY). The trace holds the calls
   * made, after the earlier calls t0; `aborted` is an IndexError raised by
   * a cell off the cached canvas, which ends the pass.
   */
  method RunForImg(img: Template<string>, locX: nat, locY: nat, bytes: seq<byte>, width: nat, height: nat,
                   oracle: Oracle<string>, t0: seq<Event<string>>)
    returns (trace: seq<Event<string>>, aborted: bool)
    ensures var st := Rows(Legacy, oracle, State(Snapshot(bytes, width, height), t0 + [GetPixels], false), img, locX, locY, 0);
            trace == st.trace && aborted == st.aborted
  {
    trace := t0 + [GetPixels];
    var rows := DecodeCanvas(bytes, width, height);
    var canvas := new string[height + 1, width + 1]((i, j) requires 0 <= i <= height && 0 <= j <= width => rows[i][j]);
    CellsAre(canvas, rows);
    ghost var final := Rows(Legacy, oracle, State(rows, trace, false), img, locX, locY, 0);
    aborted := false;
    var y := 0;
    while y < |img|
      invariant y <= |img|
      invariant Rows(Legacy, oracle, State(Cells(canvas), trace, false), img, locX, locY, y) == final
    {
      var trace', stop := RunRow(canvas, oracle, trace, img[y], locX, locY + y);
      if stop {
        trace, aborted := trace', true;
        return;
      }
      trace := trace';
      y := y + 1;
    }
  }

  /** One row of the template, its first cell at (locX, py); the flag starts cleared. */
  method RunRow(canvas: array2<string>, oracle: Oracle<string>, trace: seq<Event<string>>,
                row: seq<Option<string>>, locX: nat, py: nat)
    returns (trace': seq<Event<string>>, stop: bool)
    modifies canvas
    ensures Row(Legacy, oracle, State(old(Cells(canvas)), trace, false), false, row, locX, py, 0)
            == State(Cells(canvas), trace', stop)
  {
    ghost var final := Row(Legacy, oracle, State(Cells(canvas), trace, false), false, row, locX, py, 0);
    trace', stop := trace, false;
    var hit := false;
    var x := 0;
    while x < |row|
      invariant x <= |row|
      invariant Row(Legacy, oracle, State(Cells(canvas), trace', false), hit, row, locX, py, x) == final
    {
      ghost var st := State(Cells(canvas), trace', false);
      RowStep(Legacy, oracle, st, hit, row, locX, py, x);
      var t, h, s := VisitCell(canvas, oracle, trace', hit, row[x], locX + x, py, x);
      trace', hit := t, h;
      if s {
        stop := true;
        return;
      }
      x := x + 1;
    }
  }

  /**
   * The body of the inner loop for the cell at canvas position (px, py),
   * column index x: the refresh on even columns after a mismatch, then the
   * transparency check, the comparison and the write.
   */
  method VisitCell(canvas: array2<string>, oracle: Oracle<string>, trace: seq<Event<string>>, hit: bool,
                   colour: Option<string>, px: nat, py: nat, x: nat)
    returns (trace': seq<Event<string>>, hit': bool, stop: bool)
    modifies canvas
    ensures Cell(Legacy, oracle, State(old(Cells(canvas)), trace, false), hit, colour, px, py, x)
            == (State(Cells(canvas), trace', stop), hit')
  {
    ghost var g := Cells(canvas);
    trace', hit', stop := trace, hit, false;
    if hit && x % 2 == 0 {
      var answer := oracle(|trace|, px, py);
      trace' := trace + [GetPixel(px, py)];
      if py >= canvas.Length0 || px >= canvas.Length1 {
        stop := true;
        return;
      }
      canvas[py, px] := answer;
      CellsAre(canvas, Put(g, px, py, answer));
    }
    if colour.None? {
    } else if py >= canvas.Length0 || px >= canvas.Length1 {
      stop := true;
    } else if canvas[py, px] == colour.value {
    } else {
      hit' := true;
      trace' := trace' + [SetPixel(px, py, colour.value)];
    }
  }
}
