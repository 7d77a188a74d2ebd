/**
 * The parts of `pathlib.PurePosixPath` the archive and upload code uses:
 * `name` (the final component), `suffix` and `stem`.
 */
module Paths {
  import opened Wrappers
  import opened Strings

  /**
   * The final component of a POSIX path: the last piece between slashes that is
   * neither empty nor `.` (PurePosixPath drops both when it normalises), or the
   * empty string when there is none (`""`, `"/"`, `"."`).
   */
  function Name(path: string): (r: string)
    ensures '/' !in r
    ensures r != "."
  {
    LastComponent(Split(path, '/'))
  }

  function LastComponent(parts: seq<string>): (r: string)
    requires forall k :: 0 <= k < |parts| ==> '/' !in parts[k]
    ensures '/' !in r && r != "."
    ensures r == [] || r in parts
  {
    if parts == [] then []
    else
      var last := parts[|parts| - 1];
      if last == [] || last == "." then LastComponent(parts[..|parts| - 1]) else last
  }

  /** A path without slashes that is not `.` is its own name. */
  lemma NameOfPlainName(name: string)
    requires '/' !in name && name != "."
    ensures Name(name) == name
  {
    SplitJoin([name], '/');
  }

  /** The index of the last `.` in `s`, as `str.rfind('.')` finds it. */
  function LastDot(s: string): (r: Option<nat>)
    ensures r.None? <==> '.' !in s
    ensures r.Some? ==> r.value < |s| && s[r.value] == '.' && '.' !in s[r.value + 1..]
  {
    if s == [] then None
    else if s[|s| - 1] == '.' then Some(|s| - 1)
    else
      var r := LastDot(s[..|s| - 1]);
      assert s == s[..|s| - 1] + [s[|s| - 1]];
      r
  }

  /** The position where the suffix starts, when the name has one. */
  function SuffixStart(name: string): Option<nat> {
    match LastDot(name)
    case Some(i) => if 0 < i < |name| - 1 then Some(i) else None
    case None => None
  }

  /** `PurePosixPath(path).suffix`. */
  function Suffix(path: string): string {
    var name := Name(path);
    match SuffixStart(name)
    case Some(i) => name[i..]
    case None => []
  }

  /** `PurePosixPath(path).stem`. */
  function Stem(path: string): string {
    var name := Name(path);
    match SuffixStart(name)
    case Some(i) => name[..i]
    case None => name
  }

  /**
   * A suffix is empty or a dot followed by at least one character and no further
   * dot, and the stem and the suffix together spell the name.
   */
  lemma SuffixShape(path: string)
    ensures Stem(path) + Suffix(path) == Name(path)
    ensures Suffix(path) == [] || (|Suffix(path)| >= 2 && Suffix(path)[0] == '.' && '.' !in Suffix(path)[1..])
    ensures Stem(path) != [] || Name(path) == []
  {
    var name := Name(path);
    match SuffixStart(name)
    case Some(i) =>
      assert name[..i] + name[i..] == name;
      assert name[i..][1..] == name[i + 1..];
    case None =>
  }

  /** A name that starts with its only dot (`.exe`) has no suffix. */
  lemma HiddenNameHasNoSuffix(name: string)
    requires '/' !in name && name != "." && |name| > 0 && name[0] == '.' && '.' !in name[1..]
    ensures Suffix(name) == []
  {
    NameOfPlainName(name);
  }
}
