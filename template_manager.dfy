/**
 * template_manager.py: an animated template is a directory of frames plus a
 * canvas.json; the frame on show follows the time since the canvas opened,
 * and templates are kept in a registry keyed by their absolute path.
 * The clock and the directory listing are inputs here.
 */
module TemplateManager {
  import opened Wrappers

  datatype Error = ValueError | ZeroDivisionError

  // ---------------------------------------------------------------------------
  // Frame arithmetic

  /** `int(r)`: truncation toward zero. */
  function Trunc(r: real): (n: int)
    ensures r >= 0.0 ==> n == r.Floor
    ensures r < 0.0 ==> n == -((-r).Floor)
  {
    if r >= 0.0 then r.Floor else -((-r).Floor)
  }

  /** Python's float `%`: the remainder takes the sign of the divisor. */
  function PyMod(q: real, n: int): real
    requires n != 0
  {
    q - (n as real) * (q / n as real).Floor as real
  }

  /**
   * `get_current_frame_index` without its state: index 0 when frames do not
   * advance, else `int((elapsed / single_duration) % length)`, which divides
   * by zero when there are no frames.
   */
  function FrameIndex(singleDuration: real, length: int, elapsed: real): (r: Result<int, Error>)
    ensures r.Err? <==> singleDuration > 0.0 && length == 0
    ensures singleDuration <= 0.0 ==> r == Ok(0)
  {
    if singleDuration <= 0.0 then Ok(0)
    else if length == 0 then Err(ZeroDivisionError)
    else Ok(Trunc(PyMod(elapsed / singleDuration, length)))
  }

  lemma FloorBounds(r: real)
    ensures r.Floor as real <= r < r.Floor as real + 1.0
  {
  }

  /** The remainder of a positive divisor lies in [0, n). */
  lemma PyModRange(q: real, n: int)
    requires n > 0
    ensures 0.0 <= PyMod(q, n) < n as real
  {
    var d := n as real;
    var x := q / d;
    var f := x.Floor as real;
    assert x * d == q;
    FloorBounds(x);
    MulLe(f, x, d);
    MulLt(x, f + 1.0, d);
    assert (f + 1.0) * d == f * d + d;
    assert q < f * d + d;
    assert PyMod(q, n) == q - f * d;
    assert PyMod(q, n) < d;
  }

  lemma MulLe(a: real, b: real, d: real)
    requires a <= b && d > 0.0
    ensures a * d <= b * d
  {
  }

  lemma MulLt(a: real, b: real, d: real)
    requires a < b && d > 0.0
    ensures a * d < b * d
  {
  }

  lemma FloorShift(k: int, r: real)
    ensures (k as real + r).Floor == k + r.Floor
  {
    FloorBounds(r);
    FloorBounds(k as real + r);
  }

  /** Flooring the remainder gives the floored quotient modulo n. */
  lemma FloorOfPyMod(q: real, n: int)
    requires n > 0
    ensures PyMod(q, n).Floor == q.Floor % n
  {
    var m := (q / n as real).Floor;
    var rem := PyMod(q, n);
    PyModRange(q, n);
    assert (n * m) as real == (n as real) * (m as real);
    assert q == (n * m) as real + rem;
    FloorShift(n * m, rem);
    FloorBounds(rem);
    ModOfMultiple(n, m, rem.Floor);
  }

  lemma ModOfMultiple(n: int, m: int, r: int)
    requires 0 <= r < n
    ensures (n * m + r) % n == r
  {
    var t := n * m + r;
    var k := t / n - m;
    assert t == n * (t / n) + t % n;
    assert n * k == r - t % n;
    if k >= 1 {
      MulAtLeast(n, k);
    } else if k <= -1 {
      MulAtLeast(n, -k);
    }
  }

  lemma MulAtLeast(n: int, k: int)
    requires n > 0 && k >= 1
    ensures n * k >= n
  {
  }

  /**
   * With frames to show, the index is the number of whole frame durations
   * elapsed, taken modulo the frame count: always a valid frame.
   */
  lemma FrameIndexIsFloorMod(singleDuration: real, length: int, elapsed: real)
    requires singleDuration > 0.0 && length > 0
    ensures FrameIndex(singleDuration, length, elapsed) == Ok((elapsed / singleDuration).Floor % length)
    ensures 0 <= FrameIndex(singleDuration, length, elapsed).value < length
  {
    var q := elapsed / singleDuration;
    PyModRange(q, length);
    FloorOfPyMod(q, length);
  }

  /** Throughout the k-th frame duration after the canvas opened, frame k mod length is shown. */
  lemma FrameDuringPeriod(singleDuration: real, length: int, elapsed: real, k: int)
    requires singleDuration > 0.0 && length > 0
    requires k as real * singleDuration <= elapsed < (k + 1) as real * singleDuration
    ensures FrameIndex(singleDuration, length, elapsed) == Ok(k % length)
  {
    var q := elapsed / singleDuration;
    assert q * singleDuration == elapsed;
    assert k as real <= q by {
      if q < k as real {
        MulLt(q, k as real, singleDuration);
      }
    }
    assert q < (k + 1) as real by {
      if q >= (k + 1) as real {
        MulLe((k + 1) as real, q, singleDuration);
      }
    }
    var frac := q - k as real;
    FloorBounds(frac);
    assert frac.Floor == 0;
    FloorShift(k, frac);
    assert k as real + frac == q;
    FrameIndexIsFloorMod(singleDuration, length, elapsed);
  }

  /**
   * One call of `get_current_frame_index` from the stored frame: the index,
   * whether it differs from the stored frame, and the frame stored after.
   * On an error the stored frame is kept.
   */
  function Tick(current: Option<int>, singleDuration: real, length: int, elapsed: real): (r: Result<(int, bool, Option<int>), Error>)
    ensures r.Ok? <==> FrameIndex(singleDuration, length, elapsed).Ok?
    ensures r.Ok? ==> r.value.0 == FrameIndex(singleDuration, length, elapsed).value
                      && r.value.2 == Some(r.value.0)
                      && (r.value.1 <==> current != Some(r.value.0))
  {
    match FrameIndex(singleDuration, length, elapsed)
    case Err(e) => Err(e)
    case Ok(i) => Ok((i, current != Some(i), Some(i)))
  }

  /** Right after construction nothing is stored, so the first successful call reports a change. */
  lemma FirstTickChanges(singleDuration: real, length: int, elapsed: real)
    requires Tick(None, singleDuration, length, elapsed).Ok?
    ensures Tick(None, singleDuration, length, elapsed).value.1
  {
  }

  /** Asking again at the same time gives the same frame and reports no change. */
  lemma SecondTickSame(current: Option<int>, singleDuration: real, length: int, elapsed: real)
    requires Tick(current, singleDuration, length, elapsed).Ok?
    ensures var (i, _, stored) := Tick(current, singleDuration, length, elapsed).value;
            Tick(stored, singleDuration, length, elapsed) == Ok((i, false, stored))
  {
  }

  /** Frames that do not advance stay at 0 and report a change only when 0 was not stored. */
  lemma StillTemplate(current: Option<int>, singleDuration: real, elapsed: real, length: int)
    requires singleDuration <= 0.0
    ensures Tick(current, singleDuration, length, elapsed) == Ok((0, current != Some(0), Some(0)))
  {
  }

  // ---------------------------------------------------------------------------
  // Templates

  /** What the file system holds for a template directory: canvas.json's fields and the entry count. */
  datatype Directory = Directory(path: string, hasCanvasJson: bool, minutesPerFrame: real,
                                 left: int, top: int, entries: nat)

  class Template {
    var directory: string
    var singleDuration: real
    var left: int
    var top: int
    var currentFrame: Option<int>
    var length: int

    /** `Template.__init__` once canvas.json was found and read. */
    constructor (dir: Directory)
      ensures directory == dir.path && singleDuration == dir.minutesPerFrame * 60.0
      ensures left == dir.left && top == dir.top
      ensures currentFrame == None && length == dir.entries - 1
    {
      directory := dir.path;
      singleDuration := dir.minutesPerFrame * 60.0;
      left := dir.left;
      top := dir.top;
      currentFrame := None;
      length := dir.entries - 1;
    }

    /** `get_current_frame_index`, at `elapsed` seconds after the canvas opened. */
    method GetCurrentFrameIndex(elapsed: real) returns (r: Result<(int, bool), Error>)
      modifies this
      ensures var t := Tick(old(currentFrame), singleDuration, length, elapsed);
              (t.Err? ==> r == Err(t.error) && currentFrame == old(currentFrame))
              && (t.Ok? ==> r == Ok((t.value.0, t.value.1)) && currentFrame == t.value.2)
      ensures directory == old(directory) && singleDuration == old(singleDuration)
      ensures left == old(left) && top == old(top) && length == old(length)
    {
      if singleDuration <= 0.0 {
        var changed := currentFrame != Some(0);
        currentFrame := Some(0);
        return Ok((0, changed));
      }
      if length == 0 {
        return Err(ZeroDivisionError);
      }
      var index := Trunc(PyMod(elapsed / singleDuration, length));
      var changed := currentFrame != Some(index);
      currentFrame := Some(index);
      r := Ok((index, changed));
    }
  }

  /** `Template(directory)`: a ValueError when the directory has no canvas.json. */
  method OpenTemplate(dir: Directory) returns (r: Result<Template, Error>)
    ensures r.Err? <==> !dir.hasCanvasJson
    ensures r.Err? ==> r.error == ValueError
    ensures r.Ok? ==> fresh(r.value) && r.value.directory == dir.path && r.value.currentFrame == None
                      && r.value.length == dir.entries - 1
                      && r.value.singleDuration == dir.minutesPerFrame * 60.0
                      && r.value.left == dir.left && r.value.top == dir.top
  {
    if !dir.hasCanvasJson {
      return Err(ValueError);
    }
    var t := new Template(dir);
    r := Ok(t);
  }

  // ---------------------------------------------------------------------------
  // The registry

  /** `dict.setdefault`: the stored value for k, storing v first when there is none. */
  function SetDefault<K, V>(m: map<K, V>, k: K, v: V): (r: (map<K, V>, V))
    ensures k in r.0 && r.1 == r.0[k]
    ensures k in m ==> r.0 == m
    ensures k !in m ==> r.1 == v
  {
    if k in m then (m, m[k]) else (m[k := v], v)
  }

  /**
   * The first value stored under a key wins: a later setdefault returns it
   * and changes nothing, and other keys are untouched.
   */
  lemma FirstStoredWins<K, V>(m: map<K, V>, k: K, v1: V, v2: V)
    ensures var (m1, a) := SetDefault(m, k, v1);
            SetDefault(m1, k, v2) == (m1, a)
            && (forall j :: j in m && j != k ==> j in m1 && m1[j] == m[j])
            && m1.Keys == m.Keys + {k}
  {
  }

  /** The module-level `templates` dict. */
  class Registry {
    var templates: map<string, Template>

    constructor ()
      ensures templates == map[]
    {
      templates := map[];
    }

    /**
     * `get_template_for`, given the resolved path's directory: a new
     * Template is built first (so a missing canvas.json raises even when the
     * path is cached), and then the cached one, if any, is returned.
     */
    method GetTemplateFor(dir: Directory) returns (r: Result<Template, Error>)
      modifies this
      ensures !dir.hasCanvasJson ==> r == Err(ValueError) && templates == old(templates)
      ensures dir.hasCanvasJson && dir.path in old(templates) ==>
                r == Ok(old(templates)[dir.path]) && templates == old(templates)
      ensures dir.hasCanvasJson && dir.path !in old(templates) ==>
                r.Ok? && fresh(r.value) && templates == old(templates)[dir.path := r.value]
                && r.value.currentFrame == None && r.value.length == dir.entries - 1
    {
      var made := OpenTemplate(dir);
      if made.Err? {
        return Err(made.error);
      }
      var (m, t) := SetDefault(templates, dir.path, made.value);
      templates := m;
      r := Ok(t);
    }

    /** `reset_templates_cache`. */
    method Reset()
      modifies this
      ensures templates == map[]
    {
      templates := map[];
    }
  }
}
