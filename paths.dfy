/**
 * Paths: the small part of Node's `path` module the font catalog relies on.
 * A path is a plain string; `Join` stands for `path.join` of two segments and
 * `Extname` for `path.extname`.
 */
module Paths {

  datatype Option<+T> = None | Some(value: T)

  type Path = string

  /** `path.join(dir, name)`: an empty segment contributes nothing. */
  function Join(dir: Path, name: string): (p: Path)
    ensures name == "" ==> p == dir
    ensures dir == "" ==> p == name
    ensures dir != "" && name != "" ==> p == dir + "/" + name
  {
    if name == "" then dir else if dir == "" then name else dir + "/" + name
  }

  /** Joining a fixed directory with two different names gives two different paths. */
  lemma JoinInjective(dir: Path, a: string, b: string)
    requires Join(dir, a) == Join(dir, b)
    ensures a == b
  {
    if a != "" && b != "" && dir != "" {
      assert a == Join(dir, a)[|dir| + 1..];
      assert b == Join(dir, b)[|dir| + 1..];
    }
  }

  /** Index where the last path segment (the base name) starts. */
  function BaseStart(p: Path): (k: nat)
    ensures k <= |p|
    ensures '/' !in p[k..]
    ensures k == 0 || p[k - 1] == '/'
  {
    if p == "" then 0
    else if p[|p| - 1] == '/' then |p|
    else
      var k := BaseStart(p[..|p| - 1]);
      assert p[k..] == p[..|p| - 1][k..] + [p[|p| - 1]];
      k
  }

  /** Index of the last '.' in s, if any. */
  function LastDot(s: string): (r: Option<nat>)
    ensures r.Some? ==> r.value < |s| && s[r.value] == '.' && '.' !in s[r.value + 1..]
    ensures r.None? ==> '.' !in s
  {
    if s == "" then None
    else if s[|s| - 1] == '.' then Some(|s| - 1)
    else
      var r := LastDot(s[..|s| - 1]);
      if r.Some? then
        assert s[r.value + 1..] == s[..|s| - 1][r.value + 1..] + [s[|s| - 1]];
        r
      else
        assert s == s[..|s| - 1] + [s[|s| - 1]];
        r
  }

  /** The path without its trailing separators. */
  function TrimSlashes(p: Path): (q: Path)
    ensures q <= p
    ensures q == "" || q[|q| - 1] != '/'
    ensures forall k :: |q| <= k < |p| ==> p[k] == '/'
  {
    if p != "" && p[|p| - 1] == '/' then TrimSlashes(p[..|p| - 1]) else p
  }

  /** The extension of a base name: from its last '.' on, unless that '.' leads it or the name is "..". */
  function BaseExtname(base: string): (e: string)
    requires '/' !in base
    ensures e == "" || (e[0] == '.' && '/' !in e && '.' !in e[1..])
    ensures e != "" ==> (|e| < |base| && base[|base| - |e|..] == e && base != "..")
  {
    match LastDot(base)
    case None => ""
    case Some(i) => if i == 0 || base == ".." then "" else base[i..]
  }

  /** The last segment of the path once trailing separators are ignored. */
  function BaseName(p: Path): (r: string)
    ensures '/' !in r && |r| <= |p|
  {
    var q := TrimSlashes(p);
    q[BaseStart(q)..]
  }

  /**
   * `path.extname(p)`: the extension of the base name, trailing separators
   * ignored; "" when the base name has no '.', when its only '.' leads it
   * (a hidden file such as ".ttf"), and for "..".
   */
  function Extname(p: Path): (e: string)
    ensures e == "" || (e[0] == '.' && '/' !in e && '.' !in e[1..])
    ensures var base := BaseName(p);
      e != "" ==> (|e| < |base| && base[|base| - |e|..] == e && base != "..")
  {
    BaseExtname(BaseName(p))
  }

  /** A trailing separator does not change the extension. */
  lemma ExtnameTrailingSlash(p: Path)
    ensures Extname(p + "/") == Extname(p)
  {
    assert (p + "/")[..|p|] == p;
    assert TrimSlashes(p + "/") == TrimSlashes(p);
  }

  /** A path ending in the parent-directory name ".." has no extension, whatever the directory. */
  lemma ExtnameParent(dir: Path)
    ensures Extname(dir + "/..") == ""
  {
    var p := dir + "/..";
    assert p[..|p| - 1] == dir + "/.";
    assert (dir + "/.")[..|dir| + 1] == dir + "/";
    assert TrimSlashes(p) == p;
    assert BaseStart(dir + "/") == |dir| + 1;
    assert BaseStart(p) == |dir| + 1;
    assert p[|dir| + 1..] == "..";
  }
}
