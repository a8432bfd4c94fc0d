/**
 * The two parts of a file name that pathlib's `PurePath.stem` and
 * `PurePath.suffix` give: the split is at the last '.', unless that dot is
 * the first or the last character.
 */
module PathNames {
  import opened Wrappers

  /** Position of the last '.' in name, if any. */
  function LastDot(name: string): (r: Option<nat>)
    ensures r.Some? ==> r.value < |name| && name[r.value] == '.'
    ensures r.Some? ==> forall i :: r.value < i < |name| ==> name[i] != '.'
    ensures r.None? ==> forall i :: 0 <= i < |name| ==> name[i] != '.'
    decreases |name|
  {
    if name == [] then None
    else if name[|name| - 1] == '.' then Some(|name| - 1)
    else LastDot(name[..|name| - 1])
  }

  /** Position where the suffix starts, or |name| when there is no suffix. */
  function SplitPoint(name: string): (i: nat)
    ensures i <= |name|
  {
    match LastDot(name)
    case Some(i) => if 0 < i < |name| - 1 then i else |name|
    case None => |name|
  }

  function Suffix(name: string): (s: string)
    ensures s == [] || s[0] == '.'
  {
    name[SplitPoint(name)..]
  }

  function Stem(name: string): (s: string)
    ensures |s| <= |name|
  {
    name[..SplitPoint(name)]
  }

  /**
   * `PurePath.name` of a path without a trailing '/': the text after the
   * last '/', or the whole path when it has none.
   */
  function Name(path: string): (n: string)
    ensures |n| <= |path|
    decreases |path|
  {
    if path == [] || path[|path| - 1] == '/' then []
    else Name(path[..|path| - 1]) + [path[|path| - 1]]
  }

  /** The name ends the path, holds no '/', and follows a '/' unless it is the whole path. */
  lemma {:induction false} NameShape(path: string)
    ensures var n := Name(path);
            && n == path[|path| - |n|..]
            && (forall i :: 0 <= i < |n| ==> n[i] != '/')
            && (|n| < |path| ==> path[|path| - |n| - 1] == '/')
    decreases |path|
  {
    if path != [] && path[|path| - 1] != '/' {
      var init := path[..|path| - 1];
      NameShape(init);
      var m := Name(init);
      var k := |init| - |m|;
      assert Name(path) == m + [path[|path| - 1]];
      assert path[k..] == init[k..] + [path[|path| - 1]];
      assert |m| < |init| ==> path[k - 1] == init[k - 1];
    }
  }

  /** The name of `directory / name` is the name it was joined with. */
  lemma {:induction false} NameOfJoin(directory: string, name: string)
    requires forall i :: 0 <= i < |name| ==> name[i] != '/'
    ensures Name(directory + "/" + name) == name
    decreases |name|
  {
    var path := directory + "/" + name;
    if name != [] {
      var init := name[..|name| - 1];
      assert path[..|path| - 1] == directory + "/" + init;
      NameOfJoin(directory, init);
      assert init + [name[|name| - 1]] == name;
    } else {
      assert path[|path| - 1] == '/';
    }
  }

  /** The stem followed by the suffix is the whole name. */
  lemma StemSuffix(name: string)
    ensures Stem(name) + Suffix(name) == name
  {
    assert name[..SplitPoint(name)] + name[SplitPoint(name)..] == name;
  }

  /** Adding an extension without dots to a non-empty stem is undone by Stem and Suffix. */
  lemma {:induction false} StemOfExtension(stem: string, ext: string)
    requires stem != [] && ext != [] && forall i :: 0 <= i < |ext| ==> ext[i] != '.'
    ensures Stem(stem + "." + ext) == stem && Suffix(stem + "." + ext) == "." + ext
  {
    var name := stem + "." + ext;
    assert name[|stem|] == '.';
    assert forall i :: |stem| < i < |name| ==> name[i] == ext[i - |stem| - 1];
    LastDotIs(name, |stem|);
    assert name[..|stem|] == stem;
    assert name[|stem|..] == "." + ext;
  }

  lemma {:induction false} LastDotIs(name: string, k: nat)
    requires k < |name| && name[k] == '.' && forall i :: k < i < |name| ==> name[i] != '.'
    ensures LastDot(name) == Some(k)
    decreases |name|
  {
    if k < |name| - 1 {
      LastDotIs(name[..|name| - 1], k);
    }
  }
}
