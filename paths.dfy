/**
 * Path strings as the program's host (Windows, `ntpath`) treats them. Only what the
 * watcher and the loader use is modelled: string prefixes, `os.path.join` of two
 * components, `os.path.basename` and `os.path.splitdrive` for drive-letter paths.
 */
module Paths {

  type Path = string

  /** `os.sep` on the host. */
  const Sep: char := '\\'

  /** `str.startswith`. */
  predicate StartsWith(s: string, prefix: string) {
    |prefix| <= |s| && s[..|prefix|] == prefix
  }

  /** `str.removeprefix`. */
  function RemovePrefix(s: string, prefix: string): (r: string)
    ensures StartsWith(s, prefix) ==> prefix + r == s
    ensures !StartsWith(s, prefix) ==> r == s
  {
    if StartsWith(s, prefix) then s[|prefix|..] else s
  }

  /** The drive part of `os.path.splitdrive` for a drive-letter path ("C:"), else "". */
  function Drive(p: Path): (d: Path)
    ensures d != [] <==> |p| >= 2 && p[1] == ':'
    ensures d != [] ==> d == p[..2]
    ensures d == [] || (|d| == 2 && d[1] == ':' && StartsWith(p, d))
  {
    if |p| >= 2 && p[1] == ':' then p[..2] else []
  }

  /** A component that `os.path.join` appends rather than restarts from: no drive, no root. */
  predicate IsRelative(p: Path) {
    Drive(p) == [] && (p == [] || p[0] != Sep)
  }

  /** A directory path with a non-empty path part after its drive and no trailing separator. */
  predicate IsDirPath(p: Path) {
    |p| > |Drive(p)| && p[|p| - 1] != Sep
  }

  /** Whether the part of a path after its drive starts at the root. */
  predicate IsRooted(p: Path) {
    |p| > |Drive(p)| && p[|Drive(p)|] == Sep
  }

  /** Appends a relative part, inserting a separator unless `a` is empty after its drive or already ends with one. */
  function AppendRelative(a: Path, rest: string): Path {
    if |a| == |Drive(a)| || a[|a| - 1] == Sep then a + rest else a + [Sep] + rest
  }

  /**
   * `os.path.join(a, b)` for drive-letter paths. A second component with its own root and a
   * drive, or with a drive other than the first one's, replaces the first component. A rooted
   * one without a drive keeps only the first component's drive. Anything else is relative to
   * the first component (after dropping a repeated drive) and is appended to it.
   */
  function Join(a: Path, b: Path): (r: Path)
    ensures IsDirPath(a) && IsRelative(b) ==> r == a + [Sep] + b
    ensures Drive(b) != [] && (IsRooted(b) || Drive(b) != Drive(a)) ==> r == b
    ensures Drive(b) == [] && IsRooted(b) ==> r == Drive(a) + b
    ensures Drive(b) != [] && Drive(b) == Drive(a) && !IsRooted(b) && IsDirPath(a) ==> r == a + [Sep] + b[2..]
  {
    if Drive(b) != [] && (IsRooted(b) || Drive(b) != Drive(a)) then b
    else if Drive(b) != [] then AppendRelative(a, b[2..])
    else if IsRooted(b) then Drive(a) + b
    else AppendRelative(a, b)
  }

  /** A drive-relative component on the first component's drive is appended to it. */
  lemma JoinSameDriveRelative()
    ensures Join("C:\\x", "C:foo") == "C:\\x\\foo"
  {
    assert Drive("C:foo") == "C:" == Drive("C:\\x");
    assert !IsRooted("C:foo");
  }

  /** Joining onto a path with a drive gives the second part's drive if it has one, else the first's. */
  lemma JoinDrive(a: Path, b: Path)
    requires Drive(a) != []
    ensures Drive(Join(a, b)) == if Drive(b) != [] then Drive(b) else Drive(a)
  {
  }

  /** The text after the last separator. */
  function LastComponent(s: string): (r: string)
    ensures Sep !in r && |r| <= |s|
  {
    if s == [] || s[|s| - 1] == Sep then [] else LastComponent(s[..|s| - 1]) + [s[|s| - 1]]
  }

  /** The last component is the longest suffix without a separator. */
  lemma {:induction false} LastComponentSuffix(s: string)
    ensures var r := LastComponent(s);
      r == s[|s| - |r|..] && (|r| == |s| || s[|s| - |r| - 1] == Sep)
    decreases |s|
  {
    if s != [] && s[|s| - 1] != Sep {
      var init := s[..|s| - 1];
      LastComponentSuffix(init);
      assert s == init + [s[|s| - 1]];
    }
  }

  /** `os.path.basename`: the last component of the part after the drive. */
  function BaseName(p: Path): (r: Path)
    ensures Sep !in r && |r| <= |p| - |Drive(p)|
  {
    LastComponent(p[|Drive(p)|..])
  }

  /**
   * The base name is the suffix of the path after its last separator, or after its drive
   * when there is no separator.
   */
  lemma BaseNameSuffix(p: Path)
    ensures var r := BaseName(p);
      r == p[|p| - |r|..] && (|r| == |p| - |Drive(p)| || p[|p| - |r| - 1] == Sep)
  {
    var tail := p[|Drive(p)|..];
    LastComponentSuffix(tail);
    var r := LastComponent(tail);
    assert tail[|tail| - |r|..] == p[|p| - |r|..];
  }

  lemma {:induction false} LastComponentOfChild(dir: string, name: string)
    requires Sep !in name
    ensures LastComponent(dir + [Sep] + name) == name
    decreases |name|
  {
    if name == [] {
      assert dir + [Sep] + name == dir + [Sep];
    } else {
      var n := |name|;
      assert (dir + [Sep] + name)[..|dir + [Sep] + name| - 1] == dir + [Sep] + name[..n - 1];
      LastComponentOfChild(dir, name[..n - 1]);
      assert name == name[..n - 1] + [name[n - 1]];
    }
  }

  /** The base name of `dir\name` is `name`, whatever the directory. */
  lemma BaseNameOfChild(dir: Path, name: string)
    requires dir != [] && Sep !in name
    ensures BaseName(dir + [Sep] + name) == name
  {
    var p := dir + [Sep] + name;
    var d := Drive(p);
    assert d == [] || d == dir[..2];
    assert p[|d|..] == dir[|d|..] + [Sep] + name;
    LastComponentOfChild(dir[|d|..], name);
  }
}
