/**
 * The parts of main.py's endpoint wrappers that are not network traffic:
 * the rate-limit decision taken on every response's headers, and the loop
 * in `get_pixels` that turns the flat 3-bytes-per-pixel body into a grid of
 * colour strings.
 */
module MainApi {
  import opened Wrappers
  import opened HexCodec
  import opened Decimal
  import opened Images

  datatype RateError = KeyError(key: string) | ValueError

  /** Whether `ratelimit` goes on at once or sleeps, and for how many seconds. */
  datatype Wait = NoWait | Sleep(seconds: nat)

  /** `int(headers[key])`, with the KeyError and ValueError Python raises. */
  function HeaderInt(headers: map<string, string>, key: string): (r: Result<int, RateError>)
    ensures r.Ok? <==> key in headers && ParseInt(headers[key]).Some?
    ensures r.Ok? ==> r.value == ParseInt(headers[key]).value
    ensures r == Err(KeyError(key)) <==> key !in headers
  {
    if key !in headers then Err(KeyError(key))
    else match ParseInt(headers[key])
      case Some(n) => Ok(n)
      case None => Err(ValueError)
  }

  /** `time.sleep(n)`, which refuses a negative length with ValueError. */
  function SleepFor(n: int): (r: Result<Wait, RateError>)
    ensures r.Ok? <==> n >= 0
    ensures r.Ok? ==> r == Ok(Sleep(n))
  {
    if n >= 0 then Ok(Sleep(n)) else Err(ValueError)
  }

  /**
   * `ratelimit(headers)`. Header names are case-insensitive in the source;
   * here the map's keys are the lower-case names.
   */
  function Ratelimit(headers: map<string, string>): (r: Result<Wait, RateError>)
    // With a remaining count: no sleep exactly when the count parses and is not 0.
    ensures "requests-remaining" in headers ==>
              (r == Ok(NoWait) <==> ParseInt(headers["requests-remaining"]).Some? && ParseInt(headers["requests-remaining"]).value != 0)
    // A sleep is for the reset time after the last request, or else for the cooldown.
    ensures r.Ok? && r.value.Sleep? && "requests-remaining" in headers ==>
              ParseInt(headers["requests-remaining"]) == Some(0) && "requests-reset" in headers && ParseInt(headers["requests-reset"]) == Some(r.value.seconds as int)
    ensures "requests-remaining" !in headers ==> r != Ok(NoWait)
    ensures "requests-remaining" !in headers && r.Ok? ==> "cooldown-reset" in headers && ParseInt(headers["cooldown-reset"]) == Some(r.value.seconds as int)
    ensures "requests-remaining" !in headers ==> (r == Err(KeyError("cooldown-reset")) <==> "cooldown-reset" !in headers)
    // No request left: a missing reset header is a KeyError, a parsed one is slept for, anything else is a ValueError.
    ensures "requests-remaining" in headers && ParseInt(headers["requests-remaining"]) == Some(0) ==>
              (r == Err(KeyError("requests-reset")) <==> "requests-reset" !in headers)
    ensures "requests-remaining" in headers && ParseInt(headers["requests-remaining"]) == Some(0)
            && "requests-reset" in headers && ParseInt(headers["requests-reset"]).Some? && ParseInt(headers["requests-reset"]).value >= 0 ==>
              r == Ok(Sleep(ParseInt(headers["requests-reset"]).value))
    ensures "requests-remaining" in headers && ParseInt(headers["requests-remaining"]) == Some(0)
            && "requests-reset" in headers && (ParseInt(headers["requests-reset"]).None? || ParseInt(headers["requests-reset"]).value < 0) ==>
              r == Err(ValueError)
    // An unreadable remaining count is a ValueError.
    ensures "requests-remaining" in headers && ParseInt(headers["requests-remaining"]).None? ==> r == Err(ValueError)
    // On cooldown: a parsed cooldown-reset is slept for, anything else is a ValueError.
    ensures "requests-remaining" !in headers && "cooldown-reset" in headers
            && ParseInt(headers["cooldown-reset"]).Some? && ParseInt(headers["cooldown-reset"]).value >= 0 ==>
              r == Ok(Sleep(ParseInt(headers["cooldown-reset"]).value))
    ensures "requests-remaining" !in headers && "cooldown-reset" in headers
            && (ParseInt(headers["cooldown-reset"]).None? || ParseInt(headers["cooldown-reset"]).value < 0) ==>
              r == Err(ValueError)
  {
    if "requests-remaining" in headers then
      match HeaderInt(headers, "requests-remaining")
      case Err(e) => Err(e)
      case Ok(remaining) =>
        if remaining == 0 then
          match HeaderInt(headers, "requests-reset")
          case Err(e) => Err(e)
          case Ok(reset) => SleepFor(reset)
        else Ok(NoWait)
    else
      match HeaderInt(headers, "cooldown-reset")
      case Err(e) => Err(e)
      case Ok(cooldown) => SleepFor(cooldown)
  }

  /** `(y * width * 3) + (x * 3)`: where the bytes of cell (x, y) start. */
  function CellIndex(width: nat, x: nat, y: nat): nat {
    y * width * 3 + x * 3
  }

  /** The colour string of cell (x, y) as the decode loop computes it. */
  function CanvasCell(bytes: seq<byte>, width: nat, x: nat, y: nat): string {
    var index := CellIndex(width, x, y);
    ThreeBytesToRgbHexString(PySlice(bytes, index, index + 3))
  }

  /** The grid `get_pixels` returns: (height + 1) rows of (width + 1) decoded cells. */
  function Snapshot(bytes: seq<byte>, width: nat, height: nat): seq<seq<string>> {
    seq(height + 1, y requires 0 <= y <= height =>
      seq(width + 1, x requires 0 <= x <= width => CanvasCell(bytes, width, x, y)))
  }

  /**
   * The decode loop of `get_pixels`. It runs over `range(height + 1)` and
   * `range(width + 1)`, one row and one column more than the canvas has.
   */
  method DecodeCanvas(bytes: seq<byte>, width: nat, height: nat) returns (canvas: seq<seq<string>>)
    ensures |canvas| == height + 1
    ensures forall y :: 0 <= y <= height ==> |canvas[y]| == width + 1
    ensures forall y, x :: 0 <= y <= height && 0 <= x <= width ==> canvas[y][x] == CanvasCell(bytes, width, x, y)
    ensures canvas == Snapshot(bytes, width, height)
  {
    canvas := [];
    var y := 0;
    while y < height + 1
      invariant y <= height + 1 && |canvas| == y
      invariant forall j :: 0 <= j < y ==> |canvas[j]| == width + 1
      invariant forall j, x :: 0 <= j < y && 0 <= x <= width ==> canvas[j][x] == CanvasCell(bytes, width, x, j)
    {
      var row := DecodeRow(bytes, width, y);
      canvas := canvas + [row];
      y := y + 1;
    }
    var s := Snapshot(bytes, width, height);
    forall j | 0 <= j <= height ensures canvas[j] == s[j] {
    }
  }

  /** The inner loop of the decode: row y, columns 0 to width. */
  method DecodeRow(bytes: seq<byte>, width: nat, y: nat) returns (row: seq<string>)
    ensures |row| == width + 1
    ensures forall x :: 0 <= x <= width ==> row[x] == CanvasCell(bytes, width, x, y)
  {
    row := [];
    var x := 0;
    while x < width + 1
      invariant x <= width + 1 && |row| == x
      invariant forall i :: 0 <= i < x ==> row[i] == CanvasCell(bytes, width, i, y)
    {
      var index := CellIndex(width, x, y);
      var pixel := PySlice(bytes, index, index + 3);
      var cell := ThreeBytesToRgbHexString(pixel);
      assert cell == CanvasCell(bytes, width, x, y);
      row := row + [cell];
      x := x + 1;
    }
  }

  /** On the canvas proper, a cell is the six-digit colour of its own three bytes. */
  lemma CanvasCellInside(bytes: seq<byte>, width: nat, height: nat, x: nat, y: nat)
    requires |bytes| == 3 * (width * height) && x < width && y < height
    ensures var i := 3 * (y * width + x);
            i + 3 <= |bytes| && CanvasCell(bytes, width, x, y) == ThreeBytesToRgbHexString(bytes[i..i + 3])
            && |CanvasCell(bytes, width, x, y)| == 6
  {
    var i := 3 * (y * width + x);
    var yw := y * width;
    assert CellIndex(width, x, y) == i;
    RowWithin(width, height, y);
    assert yw + x + 1 <= width * height;
  }

  /** The extra column repeats the first pixel of the next row. */
  lemma ExtraColumn(bytes: seq<byte>, width: nat, y: nat)
    ensures CanvasCell(bytes, width, width, y) == CanvasCell(bytes, width, 0, y + 1)
  {
    assert CellIndex(width, width, y) == CellIndex(width, 0, y + 1) by {
      assert (y + 1) * width == y * width + width;
    }
  }

  /** When the body holds exactly the canvas, every cell of the extra row is empty. */
  lemma ExtraRow(bytes: seq<byte>, width: nat, height: nat, x: nat)
    requires |bytes| == 3 * (width * height)
    ensures CanvasCell(bytes, width, x, height) == ""
  {
    assert CellIndex(width, x, height) >= |bytes|;
  }
}
