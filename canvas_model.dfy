/**
 * The canvas as the reconcilers see it: a cached grid of cells indexed
 * [y][x], and the network calls they make, recorded as a trace of events.
 */
module CanvasModel {

  /** One call to the canvas API: `get_pixels`, `get_pixel(x, y)` or `set_pixel(x, y, colour)`. */
  datatype Event<C> = GetPixels | GetPixel(x: nat, y: nat) | SetPixel(x: nat, y: nat, colour: C)

  predicate InRange<C>(g: seq<seq<C>>, x: nat, y: nat) {
    y < |g| && x < |g[y]|
  }

  /** Two grids with the same number of rows and the same row lengths. */
  predicate SameShape<C>(a: seq<seq<C>>, b: seq<seq<C>>) {
    |a| == |b| && forall i :: 0 <= i < |a| ==> |a[i]| == |b[i]|
  }

  /** The grid after cell (x, y) is overwritten with v. */
  function Put<C>(g: seq<seq<C>>, x: nat, y: nat, v: C): (r: seq<seq<C>>)
    requires InRange(g, x, y)
    ensures SameShape(g, r)
    ensures r[y][x] == v
    ensures forall i, j :: 0 <= i < |g| && 0 <= j < |g[i]| && (i != y || j != x) ==> r[i][j] == g[i][j]
  {
    g[y := g[y][x := v]]
  }

  lemma PutSame<C>(g: seq<seq<C>>, x: nat, y: nat)
    requires InRange(g, x, y)
    ensures Put(g, x, y, g[y][x]) == g
  {
    assert g[y][x := g[y][x]] == g[y];
  }

  /** The contents of a two-dimensional array, row by row. */
  ghost function Cells<C>(a: array2<C>): (g: seq<seq<C>>)
    reads a
    ensures |g| == a.Length0
    ensures forall i :: 0 <= i < |g| ==> |g[i]| == a.Length1
    ensures forall i, j :: 0 <= i < a.Length0 && 0 <= j < a.Length1 ==> g[i][j] == a[i, j]
  {
    seq(a.Length0, i reads a requires 0 <= i < a.Length0 =>
      seq(a.Length1, j reads a requires 0 <= j < a.Length1 => a[i, j]))
  }

  /** An array holds grid g when it has g's shape and g's cells. */
  lemma CellsAre<C>(a: array2<C>, g: seq<seq<C>>)
    requires |g| == a.Length0 && forall i :: 0 <= i < |g| ==> |g[i]| == a.Length1
    requires forall i, j :: 0 <= i < a.Length0 && 0 <= j < a.Length1 ==> g[i][j] == a[i, j]
    ensures Cells(a) == g
  {
    var c := Cells(a);
    forall i | 0 <= i < |g| ensures c[i] == g[i] {
    }
  }

  predicate WritesTo<C>(e: Event<C>, x: nat, y: nat) {
    e.SetPixel? && e.x == x && e.y == y
  }

  /** The SetPixel events of a trace, in order. */
  function Writes<C>(t: seq<Event<C>>): (w: seq<Event<C>>)
    ensures |w| <= |t|
    ensures forall i :: 0 <= i < |w| ==> w[i].SetPixel?
  {
    if t == [] then []
    else (if t[0].SetPixel? then [t[0]] else []) + Writes(t[1..])
  }

  lemma {:induction false} WritesAppend<C>(a: seq<Event<C>>, b: seq<Event<C>>)
    ensures Writes(a + b) == Writes(a) + Writes(b)
    decreases |a|
  {
    if a == [] {
      assert a + b == b;
    } else {
      assert (a + b)[1..] == a[1..] + b;
      WritesAppend(a[1..], b);
    }
  }

  /** The remote canvas after the writes of a trace land, in order; other events change nothing. */
  function Apply<C>(g: seq<seq<C>>, t: seq<Event<C>>): (r: seq<seq<C>>)
    ensures SameShape(g, r)
    decreases |t|
  {
    if t == [] then g
    else
      var e := t[0];
      var g' := if e.SetPixel? && InRange(g, e.x, e.y) then Put(g, e.x, e.y, e.colour) else g;
      Apply(g', t[1..])
  }

  /**
   * A cell ends with colour c when every write to it carries c and it
   * either already held c or is written at least once.
   */
  lemma {:induction false} ApplyCell<C>(g: seq<seq<C>>, t: seq<Event<C>>, x: nat, y: nat, c: C)
    requires InRange(g, x, y)
    requires forall i :: 0 <= i < |t| && WritesTo(t[i], x, y) ==> t[i].colour == c
    requires g[y][x] == c || exists i :: 0 <= i < |t| && t[i] == SetPixel(x, y, c)
    ensures Apply(g, t)[y][x] == c
    decreases |t|
  {
    if t != [] {
      var e := t[0];
      var g' := if e.SetPixel? && InRange(g, e.x, e.y) then Put(g, e.x, e.y, e.colour) else g;
      assert Apply(g, t) == Apply(g', t[1..]);
      forall i | 0 <= i < |t[1..]| && WritesTo(t[1..][i], x, y)
        ensures t[1..][i].colour == c
      {
        assert t[i + 1] == t[1..][i];
      }
      if WritesTo(e, x, y) {
        assert g'[y][x] == c;
      } else {
        assert g'[y][x] == g[y][x];
        if g[y][x] != c {
          var i :| 0 <= i < |t| && t[i] == SetPixel(x, y, c);
          assert i != 0;
          assert t[1..][i - 1] == SetPixel(x, y, c);
        }
      }
      ApplyCell(g', t[1..], x, y, c);
    }
  }
}
