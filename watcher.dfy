/**
 * One directory watcher: how it maps a path under its source root to the replica, which
 * events it ignores, and the ignore patterns it is given for an include rule.
 */
module Watching {
  import opened Paths
  import opened Rules

  /**
   * `Watcher`: replicates `sourcePath` into `baseTargetPath\sourceFolderName`. It is built
   * and then at once configured (`__init__` followed by `configureObserver`), which is the
   * only place the ignore patterns are set, so they are fixed here. The watchdog observer is
   * represented by whether it runs.
   */
  class Watcher {
    const sourcePath: Path
    const baseTargetPath: Path
    const sourceFolderName: string
    const ignorePaths: seq<string>
    var running: bool

    constructor(src: Path, baseTargetPath: Path, sourceFolderName: string, ignorePatterns: seq<string>)
      ensures sourcePath == src && this.baseTargetPath == baseTargetPath && this.sourceFolderName == sourceFolderName
      ensures ignorePaths == ignorePatterns && !running
    {
      sourcePath := src;
      this.baseTargetPath := baseTargetPath;
      this.sourceFolderName := sourceFolderName;
      ignorePaths := ignorePatterns;
      running := false;
    }

    /** `run`: schedules and starts the observer. */
    method Run()
      modifies this`running
      ensures running
    {
      running := true;
    }

    /** `stop`: stops the observer and waits for it. */
    method Stop()
      modifies this`running
      ensures !running
    {
      running := false;
    }

    /** `shouldIgnore`: the event path starts with the source root joined with some ignore pattern. */
    predicate ShouldIgnore(path: Path)
      ensures ShouldIgnore(path) <==> exists k :: 0 <= k < |ignorePaths| && StartsWith(path, Join(sourcePath, ignorePaths[k]))
    {
      MatchesIgnore(sourcePath, ignorePaths, path)
    }

    /** The `targetPath` property: where the source root is replicated, the folder name under the base target. */
    function TargetPath(): (r: Path)
      ensures IsDirPath(baseTargetPath) && IsRelative(sourceFolderName) ==> r == baseTargetPath + [Sep] + sourceFolderName
    {
      Join(baseTargetPath, sourceFolderName)
    }

    /** `destinationPath`: the replica of a path under the source root, the same relative path under the target. */
    function DestinationPath(fromPath: Path): (r: Path)
      ensures IsDirPath(TargetPath()) && StartsWith(fromPath, sourcePath + [Sep]) && IsRelative(fromPath[|sourcePath| + 1..]) ==>
        r == TargetPath() + [Sep] + fromPath[|sourcePath| + 1..]
    {
      var rel := TailSubpath(sourcePath, fromPath);
      assert StartsWith(fromPath, sourcePath + [Sep]) ==> rel == fromPath[|sourcePath| + 1..];
      Join(TargetPath(), rel)
    }
  }

  /** `fromPath.removeprefix(sourcePath).removeprefix(os.sep)`. */
  function TailSubpath(sourcePath: Path, fromPath: Path): (r: Path)
    ensures StartsWith(fromPath, sourcePath + [Sep]) ==> sourcePath + [Sep] + r == fromPath
  {
    RemovePrefix(RemovePrefix(fromPath, sourcePath), [Sep])
  }

  /** The loop of `shouldIgnore`, which returns at the first matching pattern. */
  function MatchesIgnore(root: Path, patterns: seq<string>, path: Path): (r: bool)
    ensures r <==> exists k :: 0 <= k < |patterns| && StartsWith(path, Join(root, patterns[k]))
  {
    if patterns == [] then false
    else
      var n := |patterns| - 1;
      assert forall k :: 0 <= k < n ==> patterns[..n][k] == patterns[k];
      MatchesIgnore(root, patterns[..n], path) || StartsWith(path, Join(root, patterns[n]))
  }

  /** `nameIsDifferent`: the two paths end in different names, so they are different paths. */
  predicate NameIsDifferent(srcPath: Path, destPath: Path)
    ensures NameIsDifferent(srcPath, destPath) ==> srcPath != destPath
  {
    BaseName(srcPath) != BaseName(destPath)
  }

  /** Appending a separated component keeps a directory's drive. */
  lemma DriveOfChild(dir: Path, rest: string)
    requires IsDirPath(dir)
    ensures Drive(dir + [Sep] + rest) == Drive(dir)
  {
    var p := dir + [Sep] + rest;
    if |dir| >= 2 {
      assert p[..2] == dir[..2];
    } else {
      assert Drive(dir) == [];
      assert p[1] == Sep;
    }
  }

  /**
   * A watcher built from a directory and a plain folder name replicates into
   * `baseTargetPath\sourceFolderName`, which is again a directory path.
   */
  lemma TargetPathOfFolder(w: Watcher)
    requires IsDirPath(w.baseTargetPath) && IsRelative(w.sourceFolderName)
    requires w.sourceFolderName != [] && w.sourceFolderName[|w.sourceFolderName| - 1] != Sep
    ensures w.TargetPath() == w.baseTargetPath + [Sep] + w.sourceFolderName
    ensures IsDirPath(w.TargetPath())
  {
    DriveOfChild(w.baseTargetPath, w.sourceFolderName);
  }

  /** A path `sourcePath\rel` is replicated to `targetPath\rel`. */
  lemma DestinationOfChild(w: Watcher, rel: Path)
    requires IsDirPath(w.TargetPath()) && IsRelative(rel)
    ensures w.DestinationPath(w.sourcePath + [Sep] + rel) == w.TargetPath() + [Sep] + rel
  {
    var p := w.sourcePath + [Sep] + rel;
    assert StartsWith(p, w.sourcePath);
    assert RemovePrefix(p, w.sourcePath) == [Sep] + rel;
    assert StartsWith([Sep] + rel, [Sep]);
    assert TailSubpath(w.sourcePath, p) == rel;
  }

  /** Distinct paths under the source root have distinct replicas. */
  lemma DestinationInjective(w: Watcher, rel1: Path, rel2: Path)
    requires IsDirPath(w.TargetPath()) && IsRelative(rel1) && IsRelative(rel2)
    requires w.DestinationPath(w.sourcePath + [Sep] + rel1) == w.DestinationPath(w.sourcePath + [Sep] + rel2)
    ensures rel1 == rel2
  {
    DestinationOfChild(w, rel1);
    DestinationOfChild(w, rel2);
    var t := w.TargetPath() + [Sep];
    assert t + rel1 == w.TargetPath() + [Sep] + rel1;
    assert t + rel2 == w.TargetPath() + [Sep] + rel2;
    assert rel1 == (t + rel1)[|t|..];
    assert rel2 == (t + rel2)[|t|..];
  }

  /** The source root itself is mapped to the replica root followed by a separator (`join(t, "")`). */
  lemma DestinationOfRoot(w: Watcher)
    requires IsDirPath(w.TargetPath())
    ensures w.DestinationPath(w.sourcePath) == w.TargetPath() + [Sep]
  {
    assert StartsWith(w.sourcePath, w.sourcePath);
    assert RemovePrefix(w.sourcePath, w.sourcePath) == [];
    assert TailSubpath(w.sourcePath, w.sourcePath) == [];
  }

  /** A move that keeps the name, into another directory, is not reflected. */
  lemma SameNameMoveIsNotRenamed(dir1: Path, dir2: Path, name: string)
    requires dir1 != [] && dir2 != [] && Sep !in name
    ensures !NameIsDifferent(dir1 + [Sep] + name, dir2 + [Sep] + name)
  {
    BaseNameOfChild(dir1, name);
    BaseNameOfChild(dir2, name);
  }

  /** A rename inside one directory is reflected exactly when the name changes. */
  lemma RenameIsDetected(dir: Path, name1: string, name2: string)
    requires dir != [] && Sep !in name1 && Sep !in name2
    ensures NameIsDifferent(dir + [Sep] + name1, dir + [Sep] + name2) <==> name1 != name2
  {
    BaseNameOfChild(dir, name1);
    BaseNameOfChild(dir, name2);
  }

  // ----- ignore patterns -----

  /** The patterns one exclude contributes: itself minus `includeSrc\` for every include path it starts with. */
  function PatternsOf(exclude: Path, includePaths: seq<Path>): (r: seq<string>)
    ensures |r| <= |includePaths|
  {
    if includePaths == [] then []
    else
      var n := |includePaths| - 1;
      var src := includePaths[n];
      PatternsOf(exclude, includePaths[..n]) + (if StartsWith(exclude, src) then [RemovePrefix(exclude, src + [Sep])] else [])
  }

  /** The comprehension of `arrangeIgnorePatterns`, exclude-major. */
  function IgnorePatterns(excludes: seq<Path>, includePaths: seq<Path>): (r: seq<string>)
    ensures includePaths == [] ==> r == []
  {
    if excludes == [] then [] else PatternsOf(excludes[0], includePaths) + IgnorePatterns(excludes[1..], includePaths)
  }

  /**
   * `arrangeIgnorePatterns`: nothing to ignore for a rule without excludes or without include
   * paths; `IgnorePatternsMembership` says which patterns there are otherwise.
   */
  function ArrangeIgnorePatterns(rule: Include): (r: seq<string>)
    reads rule
    ensures rule.excludes == [] || rule.includePaths == [] ==> r == []
  {
    IgnorePatterns(rule.excludes, rule.includePaths)
  }

  /** A pattern comes from a pair of an exclude and an include path it starts with. */
  predicate PatternFrom(q: string, exclude: Path, src: Path) {
    StartsWith(exclude, src) && q == RemovePrefix(exclude, src + [Sep])
  }

  lemma {:induction false} PatternsOfMembership(exclude: Path, includePaths: seq<Path>, q: string)
    ensures q in PatternsOf(exclude, includePaths) <==>
      exists j :: 0 <= j < |includePaths| && PatternFrom(q, exclude, includePaths[j])
    decreases |includePaths|
  {
    if includePaths != [] {
      var n := |includePaths| - 1;
      PatternsOfMembership(exclude, includePaths[..n], q);
      assert forall j :: 0 <= j < n ==> includePaths[..n][j] == includePaths[j];
    }
  }

  /** The patterns of a list of excludes are those of each exclude, one exclude after the other. */
  lemma {:induction false} IgnorePatternsConcat(a: seq<Path>, b: seq<Path>, includePaths: seq<Path>)
    ensures IgnorePatterns(a + b, includePaths) == IgnorePatterns(a, includePaths) + IgnorePatterns(b, includePaths)
    decreases |a|
  {
    if a == [] {
      assert a + b == b;
    } else {
      IgnorePatternsConcat(a[1..], b, includePaths);
      assert (a + b)[1..] == a[1..] + b;
    }
  }

  /**
   * `arrangeIgnorePatterns` is exclude-major: the patterns of the `i`-th exclude sit between
   * those of the excludes before it and those of the excludes after it.
   */
  lemma IgnorePatternsAt(excludes: seq<Path>, includePaths: seq<Path>, i: nat)
    requires i < |excludes|
    ensures IgnorePatterns(excludes, includePaths) ==
      IgnorePatterns(excludes[..i], includePaths) + PatternsOf(excludes[i], includePaths) + IgnorePatterns(excludes[i + 1..], includePaths)
  {
    var e := excludes[i];
    assert excludes == excludes[..i] + ([e] + excludes[i + 1..]);
    IgnorePatternsConcat(excludes[..i], [e] + excludes[i + 1..], includePaths);
    assert ([e] + excludes[i + 1..])[1..] == excludes[i + 1..];
  }

  lemma {:induction false} IgnorePatternsMembership(excludes: seq<Path>, includePaths: seq<Path>, q: string)
    ensures q in IgnorePatterns(excludes, includePaths) <==>
      exists i, j :: 0 <= i < |excludes| && 0 <= j < |includePaths| && PatternFrom(q, excludes[i], includePaths[j])
    decreases |excludes|
  {
    if excludes != [] {
      var tail := excludes[1..];
      IgnorePatternsMembership(tail, includePaths, q);
      PatternsOfMembership(excludes[0], includePaths, q);
      assert forall i :: 0 <= i < |tail| ==> tail[i] == excludes[i + 1];
    }
  }

  /**
   * An exclude `src\rel` under an include path `src` makes the watcher of `src` ignore
   * every event at or below the excluded path.
   */
  lemma ExcludedSubtreeIgnored(w: Watcher, excludes: seq<Path>, includePaths: seq<Path>, i: nat, j: nat, rel: Path, p: Path)
    requires w.ignorePaths == IgnorePatterns(excludes, includePaths)
    requires i < |excludes| && j < |includePaths| && w.sourcePath == includePaths[j]
    requires IsDirPath(w.sourcePath) && IsRelative(rel) && excludes[i] == w.sourcePath + [Sep] + rel
    requires StartsWith(p, excludes[i])
    ensures w.ShouldIgnore(p)
  {
    var src, e := w.sourcePath, excludes[i];
    assert StartsWith(e, src + [Sep]) by {
      assert e[..|src + [Sep]|] == src + [Sep];
    }
    assert StartsWith(e, src);
    assert RemovePrefix(e, src + [Sep]) == rel;
    assert PatternFrom(rel, e, includePaths[j]);
    IgnorePatternsMembership(excludes, includePaths, rel);
    var k :| 0 <= k < |w.ignorePaths| && w.ignorePaths[k] == rel;
    assert Join(src, rel) == e;
  }

  /**
   * The patterns are computed per rule, not per include path: an exclude under one include
   * path also hides the same relative path under every other include path of the rule.
   */
  lemma SiblingExcludeAlsoIgnored(w: Watcher, excludes: seq<Path>, includePaths: seq<Path>, i: nat, j: nat, rel: Path, p: Path)
    requires w.ignorePaths == IgnorePatterns(excludes, includePaths)
    requires i < |excludes| && j < |includePaths| && IsDirPath(includePaths[j]) && IsRelative(rel)
    requires excludes[i] == includePaths[j] + [Sep] + rel
    requires IsDirPath(w.sourcePath) && StartsWith(p, w.sourcePath + [Sep] + rel)
    ensures w.ShouldIgnore(p)
  {
    var src, e := includePaths[j], excludes[i];
    assert StartsWith(e, src + [Sep]) by {
      assert e[..|src + [Sep]|] == src + [Sep];
    }
    assert StartsWith(e, src);
    assert RemovePrefix(e, src + [Sep]) == rel;
    assert PatternFrom(rel, e, src);
    IgnorePatternsMembership(excludes, includePaths, rel);
    var k :| 0 <= k < |w.ignorePaths| && w.ignorePaths[k] == rel;
    assert Join(w.sourcePath, rel) == w.sourcePath + [Sep] + rel;
  }
}
