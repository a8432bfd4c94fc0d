/**
 * Python's `ljust` and `rjust`, which `str` and `bytes` share: a sequence
 * padded with a fill item up to a width, never truncated.
 */
module Padding {
  /** `s.ljust(width, fill)`: fill appended up to width, or s as it is. */
  function LJust<T>(s: seq<T>, width: nat, fill: T): (r: seq<T>)
    ensures |r| == if |s| < width then width else |s|
    ensures r[..|s|] == s
    ensures forall i :: |s| <= i < |r| ==> r[i] == fill
  {
    if |s| < width then s + seq(width - |s|, _ => fill) else s
  }

  /** `s.rjust(width, fill)`: fill put in front up to width, or s as it is. */
  function RJust<T>(s: seq<T>, width: nat, fill: T): (r: seq<T>)
    ensures |r| == if |s| < width then width else |s|
  {
    if |s| < width then seq(width - |s|, _ => fill) + s else s
  }

  /** `rjust` keeps s as a suffix and puts only fill items before it. */
  lemma RJustShape<T>(s: seq<T>, width: nat, fill: T)
    ensures var r := RJust(s, width, fill);
            r[|r| - |s|..] == s && forall i :: 0 <= i < |r| - |s| ==> r[i] == fill
  {
  }
}
