/**
 * How a watcher reflects filesystem events into its replica, and the per-file copy of the
 * initial backup. The filesystem is a map from path to what is there, together with the
 * paths another process holds open; an access to one of those is refused with
 * `PermissionError`, which the handlers answer by queueing a retry.
 */
module Mirror {
  import opened Wrappers
  import opened Paths
  import opened Watching
  import Retry

  /** What exists at a path. */
  datatype Node = File(data: string) | Folder

  /** The host filesystem, and the paths that are currently locked by other processes. */
  datatype World = World(fs: map<Path, Node>, locked: set<Path>)

  /** `PermissionError`, and every other `OSError`. */
  datatype FsError = PermissionDenied | OsError

  /** `os.path.isfile`. */
  predicate IsFile(w: World, p: Path) {
    p in w.fs && w.fs[p].File?
  }

  /** `p` is `root` or lies below it. */
  predicate InTree(p: Path, root: Path) {
    p == root || StartsWith(p, root + [Sep])
  }

  /** Some path at or below `root` is locked. */
  predicate TreeLocked(w: World, root: Path) {
    exists q :: q in w.locked && InTree(q, root)
  }

  // ----- filesystem primitives -----

  /**
   * `filecmp.cmp(a, b)` for an existing file `a`: false when `b` is not a regular file,
   * otherwise a comparison of the contents, which reads both files.
   */
  function SameFile(w: World, a: Path, b: Path): (r: Result<bool, FsError>)
    requires IsFile(w, a) && b in w.fs
    ensures r == Success(true) <==> IsFile(w, b) && a !in w.locked && b !in w.locked && w.fs[a] == w.fs[b]
    ensures r.Failure? <==> IsFile(w, b) && (a in w.locked || b in w.locked)
    ensures r.Failure? ==> r.error == PermissionDenied
  {
    if !IsFile(w, b) then Success(false)
    else if a in w.locked || b in w.locked then Failure(PermissionDenied)
    else Success(w.fs[a] == w.fs[b])
  }

  /** Where `shutil.copy2(src, dst)` writes: into a folder `dst` under the source's name. */
  function CopyTarget(w: World, src: Path, dst: Path): Path {
    if dst in w.fs && w.fs[dst].Folder? then Join(dst, BaseName(src)) else dst
  }

  /** `CopyMethod`: `shutil.copy2` of a file (the parent folders it creates are not modelled). */
  function CopyFile(w: World, src: Path, dst: Path): (r: Result<World, FsError>)
    ensures var t := CopyTarget(w, src, dst);
      r.Success? <==> IsFile(w, src) && !(t in w.fs && w.fs[t].Folder?) && src !in w.locked && t !in w.locked
    ensures r.Success? ==> var t := CopyTarget(w, src, dst);
      r.value.locked == w.locked && t in r.value.fs && r.value.fs[t] == w.fs[src] &&
      forall p :: p != t ==> (p in r.value.fs <==> p in w.fs) && (p in w.fs ==> r.value.fs[p] == w.fs[p])
  {
    var t := CopyTarget(w, src, dst);
    if !IsFile(w, src) || (t in w.fs && w.fs[t].Folder?) then Failure(OsError)
    else if src in w.locked || t in w.locked then Failure(PermissionDenied)
    else Success(w.(fs := w.fs[t := w.fs[src]]))
  }

  /** `os.remove`: only a file can be removed. */
  function RemoveFile(w: World, p: Path): (r: Result<World, FsError>)
    ensures r.Success? <==> IsFile(w, p) && p !in w.locked
    ensures r.Success? ==> r.value.locked == w.locked
    ensures r.Success? ==>
      forall q :: (q in r.value.fs <==> q in w.fs && q != p) && (q in r.value.fs ==> r.value.fs[q] == w.fs[q])
  {
    if !IsFile(w, p) then Failure(OsError)
    else if p in w.locked then Failure(PermissionDenied)
    else Success(w.(fs := w.fs - {p}))
  }

  /** `shutil.rmtree`: a folder and everything below it, refused as a whole when anything in it is locked. */
  function RemoveTree(w: World, root: Path): (r: Result<World, FsError>)
    ensures r.Success? <==> root in w.fs && w.fs[root].Folder? && !TreeLocked(w, root)
    ensures r.Success? ==> r.value.locked == w.locked
    ensures r.Success? ==>
      forall q :: (q in r.value.fs <==> q in w.fs && !InTree(q, root)) && (q in r.value.fs ==> r.value.fs[q] == w.fs[q])
  {
    if root !in w.fs || IsFile(w, root) then Failure(OsError)
    else if TreeLocked(w, root) then Failure(PermissionDenied)
    else Success(w.(fs := map p | p in w.fs && !InTree(p, root) :: w.fs[p]))
  }

  /** The path a member of the tree at `from` gets when the tree is moved to `to`. */
  function Rebase(p: Path, from: Path, to: Path): Path
    requires InTree(p, from)
  {
    to + p[|from|..]
  }

  /** Distinct members of a tree stay distinct when it moves. */
  lemma RebaseInjective(from: Path, to: Path)
    ensures forall p, q :: InTree(p, from) && InTree(q, from) && Rebase(p, from, to) == Rebase(q, from, to) ==> p == q
  {
    forall p, q | InTree(p, from) && InTree(q, from) && Rebase(p, from, to) == Rebase(q, from, to)
      ensures p == q
    {
      assert p[|from|..] == Rebase(p, from, to)[|to|..];
      assert q[|from|..] == Rebase(q, from, to)[|to|..];
      assert p == p[..|from|] + p[|from|..];
      assert q == q[..|from|] + q[|from|..];
    }
  }

  /**
   * `os.rename`: the tree at `from` moves to `to`, which must not exist yet and must not lie inside it.
   * Parent folders are not tracked, so a missing parent folder of `to` is no failure here.
   */
  function Rename(w: World, from: Path, to: Path): (r: Result<World, FsError>)
    ensures r.Success? <==> from in w.fs && to !in w.fs && !InTree(to, from) && !TreeLocked(w, from) && to !in w.locked
    ensures r.Success? ==> r.value.locked == w.locked && to in r.value.fs && r.value.fs[to] == w.fs[from]
  {
    if from !in w.fs || to in w.fs || InTree(to, from) then Failure(OsError)
    else if TreeLocked(w, from) || to in w.locked then Failure(PermissionDenied)
    else
      var kept := map p | p in w.fs && !InTree(p, from) :: w.fs[p];
      RebaseInjective(from, to);
      var moved := map p | p in w.fs && InTree(p, from) :: Rebase(p, from, to) := w.fs[p];
      assert Rebase(from, from, to) == to && to in moved && moved[to] == w.fs[from];
      Success(w.(fs := kept + moved))
  }

  // ----- the watcher's operations -----

  /** `_create`: a created file is copied to its replica; anything else is left to the events that follow. */
  function CreateItem(wt: Watcher, w: World, srcPath: Path): (r: Result<World, FsError>)
    ensures !IsFile(w, srcPath) ==> r == Success(w)
    ensures r.Success? && IsFile(w, srcPath) ==> var t := CopyTarget(w, srcPath, wt.DestinationPath(srcPath));
      t in r.value.fs && r.value.fs[t] == w.fs[srcPath]
    ensures r.Success? ==> r.value.locked == w.locked
  {
    if IsFile(w, srcPath) then CopyFile(w, srcPath, wt.DestinationPath(srcPath)) else Success(w)
  }

  /** `_delete`: a file is removed, anything else is removed as a tree. */
  function DeleteItem(w: World, destination: Path): (r: Result<World, FsError>)
    ensures r.Success? ==> destination in w.fs && destination !in r.value.fs && r.value.locked == w.locked
    ensures r.Success? ==> forall p :: p in r.value.fs ==> p in w.fs && r.value.fs[p] == w.fs[p]
  {
    if IsFile(w, destination) then RemoveFile(w, destination) else RemoveTree(w, destination)
  }

  /** `_replace`: a modified file is copied unless its replica exists and compares equal. */
  function ReplaceItem(wt: Watcher, w: World, srcPath: Path): (r: Result<World, FsError>)
    ensures !IsFile(w, srcPath) ==> r == Success(w)
    ensures r.Success? && IsFile(w, srcPath) ==> var t := CopyTarget(w, srcPath, wt.DestinationPath(srcPath));
      t in r.value.fs && r.value.fs[t] == w.fs[srcPath]
    ensures r.Success? ==> r.value.locked == w.locked
  {
    if !IsFile(w, srcPath) then Success(w)
    else
      var dst := wt.DestinationPath(srcPath);
      if dst !in w.fs then CopyFile(w, srcPath, dst)
      else match SameFile(w, srcPath, dst)
        case Failure(e) => Failure(e)
        case Success(same) => if same then Success(w) else CopyFile(w, srcPath, dst)
  }

  /**
   * `_rename`: an existing destination is deleted first, then the replica is renamed, so the
   * destination ends with the replica's contents. The existence test is on the exact name:
   * a destination that differs from the replica only in letter case is not deleted. That is
   * the intended behaviour; `RenameItemAsWritten` is the code on a case-insensitive filesystem.
   */
  function RenameItem(w: World, targetSourcePath: Path, targetDestPath: Path): (r: Result<World, FsError>)
    ensures r.Success? ==> targetSourcePath in w.fs && targetDestPath in r.value.fs && r.value.fs[targetDestPath] == w.fs[targetSourcePath]
    ensures r.Success? ==> r.value.locked == w.locked
  {
    if targetDestPath in w.fs then
      match DeleteItem(w, targetDestPath)
      case Failure(e) => Failure(e)
      case Success(w1) => Rename(w1, targetSourcePath, targetDestPath)
    else Rename(w, targetSourcePath, targetDestPath)
  }

  /** A path as the Windows filesystem compares names: ASCII letters ignoring case. */
  function FoldCase(p: Path): (r: Path)
    ensures |r| == |p|
  {
    seq(|p|, i requires 0 <= i < |p| => if 'A' <= p[i] <= 'Z' then (p[i] as int + 32) as char else p[i])
  }

  /**
   * `_rename` as written, on a filesystem that compares names ignoring letter case. When the
   * destination differs from the replica only in case, `os.path.exists(targetDestPath)` finds
   * the replica itself, `_delete` removes it, and `os.rename` then raises `FileNotFoundError`.
   * The result is the filesystem left behind and the error raised, if any.
   */
  function RenameItemAsWritten(w: World, targetSourcePath: Path, targetDestPath: Path): (r: (World, Option<FsError>))
    ensures r.1.None? ==> RenameItem(w, targetSourcePath, targetDestPath) == Success(r.0)
  {
    var existing :=
      if targetDestPath in w.fs then Some(targetDestPath)
      else if targetSourcePath in w.fs && FoldCase(targetSourcePath) == FoldCase(targetDestPath) then Some(targetSourcePath)
      else None;
    var w1 :=
      if existing.None? then Success(w)
      else DeleteItem(w, existing.value);
    match w1
    case Failure(e) => (w, Some(e))
    case Success(w1) =>
      match Rename(w1, targetSourcePath, targetDestPath)
      case Failure(e) => (w1, Some(e))
      case Success(w2) => (w2, None)
  }

  /** `AttemptOperation.tryExecute` for the operations the handlers queue: run again on the current filesystem. */
  function Execute(wt: Watcher, w: World, action: Retry.Action): (r: Result<World, FsError>)
    ensures r.Success? ==> r.value.locked == w.locked
    ensures r.Success? && action.Delete? ==> action.destination !in r.value.fs
    ensures r.Success? && action.Rename? ==> action.targetDestPath in r.value.fs
  {
    match action
    case Create(srcPath) => CreateItem(wt, w, srcPath)
    case Delete(destination) => DeleteItem(w, destination)
    case Replace(srcPath) => ReplaceItem(wt, w, srcPath)
    case Rename(targetSourcePath, targetDestPath) => RenameItem(w, targetSourcePath, targetDestPath)
  }

  // ----- the event handlers -----

  /**
   * How a handler ends: with the filesystem it leaves (possibly unchanged), with an
   * operation queued for retry after a `PermissionError`, or with another `OSError` reported.
   */
  datatype Reaction = Applied(world: World) | Queued(action: Retry.Action) | Reported

  function React(r: Result<World, FsError>, retry: Retry.Action): (reaction: Reaction)
    ensures reaction.Queued? <==> r == Failure(PermissionDenied)
    ensures reaction.Applied? <==> r.Success?
    ensures reaction.Applied? ==> r == Success(reaction.world)
  {
    match r
    case Success(w) => Applied(w)
    case Failure(e) => if e == PermissionDenied then Queued(retry) else Reported
  }

  /**
   * `on_created`: an ignored path changes nothing; otherwise `_create` is applied, and it is
   * queued exactly when it raises `PermissionError`.
   */
  function OnCreated(wt: Watcher, w: World, srcPath: Path): (r: Reaction)
    ensures wt.ShouldIgnore(srcPath) ==> r == Applied(w)
    ensures r.Queued? <==> !wt.ShouldIgnore(srcPath) && CreateItem(wt, w, srcPath) == Failure(PermissionDenied)
    ensures r.Applied? && !wt.ShouldIgnore(srcPath) ==> CreateItem(wt, w, srcPath) == Success(r.world)
  {
    if wt.ShouldIgnore(srcPath) then Applied(w)
    else React(CreateItem(wt, w, srcPath), Retry.Create(srcPath))
  }

  /** `on_deleted`: the same, for `_delete` of the replica path. */
  function OnDeleted(wt: Watcher, w: World, srcPath: Path): (r: Reaction)
    ensures wt.ShouldIgnore(srcPath) ==> r == Applied(w)
    ensures r.Queued? <==> !wt.ShouldIgnore(srcPath) && DeleteItem(w, wt.DestinationPath(srcPath)) == Failure(PermissionDenied)
    ensures r.Applied? && !wt.ShouldIgnore(srcPath) ==> DeleteItem(w, wt.DestinationPath(srcPath)) == Success(r.world)
  {
    if wt.ShouldIgnore(srcPath) then Applied(w)
    else
      var destination := wt.DestinationPath(srcPath);
      React(DeleteItem(w, destination), Retry.Delete(destination))
  }

  /** `on_modified`: the same, for `_replace`. */
  function OnModified(wt: Watcher, w: World, srcPath: Path): (r: Reaction)
    ensures wt.ShouldIgnore(srcPath) ==> r == Applied(w)
    ensures r.Queued? <==> !wt.ShouldIgnore(srcPath) && ReplaceItem(wt, w, srcPath) == Failure(PermissionDenied)
    ensures r.Applied? && !wt.ShouldIgnore(srcPath) ==> ReplaceItem(wt, w, srcPath) == Success(r.world)
  {
    if wt.ShouldIgnore(srcPath) then Applied(w)
    else React(ReplaceItem(wt, w, srcPath), Retry.Replace(srcPath))
  }

  /**
   * `on_moved`: reflected only when the replica of the old path exists and the name changed;
   * then `_rename` of the two replica paths is applied, or queued after a `PermissionError`.
   */
  function OnMoved(wt: Watcher, w: World, srcPath: Path, destPath: Path): (r: Reaction)
    ensures wt.ShouldIgnore(srcPath) || wt.DestinationPath(srcPath) !in w.fs || !NameIsDifferent(srcPath, destPath) ==> r == Applied(w)
    ensures r.Queued? <==>
      (!wt.ShouldIgnore(srcPath) && wt.DestinationPath(srcPath) in w.fs && NameIsDifferent(srcPath, destPath) &&
       RenameItem(w, wt.DestinationPath(srcPath), wt.DestinationPath(destPath)) == Failure(PermissionDenied))
  {
    if wt.ShouldIgnore(srcPath) then Applied(w)
    else
      var targetSourcePath := wt.DestinationPath(srcPath);
      var targetDestPath := wt.DestinationPath(destPath);
      if targetSourcePath in w.fs && NameIsDifferent(srcPath, destPath) then
        React(RenameItem(w, targetSourcePath, targetDestPath), Retry.Rename(targetSourcePath, targetDestPath))
      else Applied(w)
  }

  /**
   * `tryCopy2`, the copy function of the initial backup: an existing destination that
   * compares equal is kept, a different one is removed and replaced; every `OSError` is
   * only reported, so the filesystem is then as it was.
   */
  function TryCopy2(w: World, src: Path, dst: Path): (r: World)
    ensures r.locked == w.locked
    ensures r != w ==> IsFile(w, src) && dst in r.fs && r.fs[dst] == w.fs[src]
  {
    var attempt :=
      if dst !in w.fs then CopyFile(w, src, dst)
      else if !IsFile(w, src) then Failure(OsError)
      else match SameFile(w, src, dst)
        case Failure(e) => Failure(e)
        case Success(same) =>
          if same then Success(w)
          else match RemoveFile(w, dst)
            case Failure(e) => Failure(e)
            case Success(w1) => CopyFile(w1, src, dst);
    if attempt.Success? then attempt.value else w
  }

  // ----- properties -----

  /** `tryCopy2` can write `dst`: the source is a readable file and `dst` is not a folder and not locked. */
  predicate CanCopy(w: World, src: Path, dst: Path) {
    IsFile(w, src) && src !in w.locked && dst !in w.locked && !(dst in w.fs && w.fs[dst].Folder?)
  }

  /**
   * `tryCopy2` leaves `dst` holding the source's contents, and changes nothing else, exactly
   * when it can write there; otherwise it changes nothing at all.
   */
  lemma TryCopy2Spec(w: World, src: Path, dst: Path)
    ensures CanCopy(w, src, dst) ==> TryCopy2(w, src, dst) == w.(fs := w.fs[dst := w.fs[src]])
    ensures !CanCopy(w, src, dst) ==> TryCopy2(w, src, dst) == w
  {
    if CanCopy(w, src, dst) && dst in w.fs {
      if w.fs[dst] == w.fs[src] {
        assert w.fs[dst := w.fs[src]] == w.fs;
      } else {
        var w1 := w.(fs := w.fs - {dst});
        assert RemoveFile(w, dst) == Success(w1);
        assert w1.fs[dst := w.fs[src]] == w.fs[dst := w.fs[src]];
      }
    }
  }

  /** Copying again what the initial backup has copied changes nothing. */
  lemma TryCopy2Idempotent(w: World, src: Path, dst: Path)
    ensures TryCopy2(TryCopy2(w, src, dst), src, dst) == TryCopy2(w, src, dst)
  {
    TryCopy2Spec(w, src, dst);
    var w1 := TryCopy2(w, src, dst);
    TryCopy2Spec(w1, src, dst);
    if CanCopy(w, src, dst) {
      assert w1.fs[dst := w1.fs[src]] == w1.fs;
    }
  }

  /**
   * A file created at `sourcePath\rel`, with both it and its replica path unlocked and no
   * folder in the way, is copied to `targetPath\rel`, and nothing else changes.
   */
  lemma CreatedFileMirrored(wt: Watcher, w: World, rel: Path)
    requires IsDirPath(wt.TargetPath()) && IsRelative(rel)
    requires !wt.ShouldIgnore(wt.sourcePath + [Sep] + rel)
    requires CanCopy(w, wt.sourcePath + [Sep] + rel, wt.TargetPath() + [Sep] + rel)
    ensures var src, dst := wt.sourcePath + [Sep] + rel, wt.TargetPath() + [Sep] + rel;
      OnCreated(wt, w, src) == Applied(w.(fs := w.fs[dst := w.fs[src]]))
  {
    DestinationOfChild(wt, rel);
  }

  /**
   * A modified file is replicated: afterwards the copy target holds the source's contents
   * and no other path has changed.
   */
  lemma ReplaceMirrors(wt: Watcher, w: World, srcPath: Path, w1: World)
    requires IsFile(w, srcPath) && ReplaceItem(wt, w, srcPath) == Success(w1)
    ensures var t := CopyTarget(w, srcPath, wt.DestinationPath(srcPath));
      t in w1.fs && w1.fs[t] == w.fs[srcPath] && w1.locked == w.locked &&
      forall p :: p != t ==> (p in w1.fs <==> p in w.fs) && (p in w.fs ==> w1.fs[p] == w.fs[p])
  {
  }

  /** Handling the same modification twice: the second time the replica compares equal and nothing is written. */
  lemma ReplaceIdempotent(wt: Watcher, w: World, srcPath: Path, w1: World)
    requires ReplaceItem(wt, w, srcPath) == Success(w1)
    ensures ReplaceItem(wt, w1, srcPath) == Success(w1)
  {
    if IsFile(w, srcPath) {
      var dst := wt.DestinationPath(srcPath);
      if dst in w.fs && w.fs[dst].Folder? {
        CopyIntoFolderAgain(w, srcPath, dst, w1);
      } else if w1 != w {
        CopiedFileCompares(w, srcPath, dst, w1);
      }
    }
  }

  /** After a copy onto a file path, source and copy compare equal. */
  lemma CopiedFileCompares(w: World, src: Path, dst: Path, w1: World)
    requires CopyFile(w, src, dst) == Success(w1) && !(dst in w.fs && w.fs[dst].Folder?)
    ensures IsFile(w1, src) && IsFile(w1, dst) && SameFile(w1, src, dst) == Success(true)
  {
    assert w1.fs == w.fs[dst := w.fs[src]];
  }

  /** Copying a file into a folder a second time writes the same contents again. */
  lemma CopyIntoFolderAgain(w: World, src: Path, dst: Path, w1: World)
    requires CopyFile(w, src, dst) == Success(w1) && dst in w.fs && w.fs[dst].Folder?
    ensures IsFile(w1, src) && dst in w1.fs && SameFile(w1, src, dst) == Success(false)
    ensures CopyFile(w1, src, dst) == Success(w1)
  {
    var t := Join(dst, BaseName(src));
    assert w1.fs == w.fs[t := w.fs[src]] && t != dst;
    assert CopyTarget(w1, src, dst) == t;
    assert w1.fs[t := w1.fs[src]] == w1.fs;
  }

  /** A real filesystem: nothing lies below a file. */
  predicate NothingBelowFiles(w: World) {
    forall p, q :: p in w.fs && q in w.fs && w.fs[p].File? ==> !StartsWith(q, p + [Sep])
  }

  /**
   * `_delete` succeeds exactly when the destination exists and what it would remove is
   * unlocked; it then removes the destination and everything below it, and nothing else.
   */
  lemma DeleteRemovesTree(w: World, destination: Path)
    requires NothingBelowFiles(w)
    ensures DeleteItem(w, destination).Success? <==>
      destination in w.fs && (if IsFile(w, destination) then destination !in w.locked else !TreeLocked(w, destination))
    ensures DeleteItem(w, destination).Success? ==>
      var w1 := DeleteItem(w, destination).value;
      w1.locked == w.locked &&
      (forall p :: p in w1.fs <==> p in w.fs && !InTree(p, destination)) &&
      (forall p :: p in w1.fs ==> w1.fs[p] == w.fs[p])
  {
  }

  /** Two trees that share a path are nested one in the other. */
  lemma TreesNested(p: Path, a: Path, b: Path)
    requires InTree(p, a) && InTree(p, b)
    ensures InTree(a, b) || InTree(b, a)
  {
    if |a| <= |b| {
      assert b[..|a|] == p[..|a|] == a;
      if |a| < |b| {
        assert p[|a|] == Sep;
        assert b[..|a| + 1] == p[..|a| + 1] == a + [Sep];
      }
    } else {
      assert a[..|b|] == p[..|b|] == b;
      assert p[|b|] == Sep;
      assert a[..|b| + 1] == p[..|b| + 1] == b + [Sep];
    }
  }

  /** A moved member of the tree lands in the destination tree. */
  lemma RebaseInTree(p: Path, from: Path, to: Path)
    requires InTree(p, from)
    ensures InTree(Rebase(p, from, to), to)
  {
    if p != from {
      assert p[|from|] == p[..|from| + 1][|from|] == Sep;
      assert Rebase(p, from, to)[..|to| + 1] == to + [p[|from|]];
    } else {
      assert Rebase(p, from, to) == to;
    }
  }

  /** The trees at two paths neither of which lies in the other's tree share no path. */
  lemma TreesDisjoint(from: Path, to: Path)
    requires !InTree(to, from) && !InTree(from, to)
    ensures forall p :: InTree(p, from) ==> !InTree(p, to)
  {
    forall p | InTree(p, from) && InTree(p, to)
      ensures false
    {
      TreesNested(p, from, to);
    }
  }

  /** `os.rename` of a tree, on its own. */
  lemma RenamedTree(w: World, from: Path, to: Path, w1: World)
    requires Rename(w, from, to) == Success(w1)
    ensures w1.locked == w.locked
    ensures forall p :: p in w.fs && InTree(p, from) ==> Rebase(p, from, to) in w1.fs && w1.fs[Rebase(p, from, to)] == w.fs[p]
    ensures forall p :: p in w.fs && !InTree(p, from) && !InTree(p, to) ==> p in w1.fs && w1.fs[p] == w.fs[p]
    ensures forall q :: q in w1.fs && !InTree(q, to) ==> q in w.fs && !InTree(q, from) && w1.fs[q] == w.fs[q]
  {
    RebaseInjective(from, to);
    forall q | q in w1.fs && !InTree(q, to)
      ensures q in w.fs && !InTree(q, from) && w1.fs[q] == w.fs[q]
    {
      if exists p :: p in w.fs && InTree(p, from) && q == Rebase(p, from, to) {
        var p :| p in w.fs && InTree(p, from) && q == Rebase(p, from, to);
        RebaseInTree(p, from, to);
      }
    }
  }

  /**
   * `_rename` moves the replica tree: every member of the old tree is found at its rebased
   * path with the same contents, the old path is gone, and every path outside both trees is
   * as it was.
   */
  lemma RenameMovesTree(w: World, from: Path, to: Path, w1: World)
    requires RenameItem(w, from, to) == Success(w1) && !InTree(from, to)
    ensures forall p :: p in w.fs && InTree(p, from) ==> Rebase(p, from, to) in w1.fs && w1.fs[Rebase(p, from, to)] == w.fs[p]
    ensures from !in w1.fs && w1.locked == w.locked
    ensures forall p :: p in w.fs && !InTree(p, from) && !InTree(p, to) ==> p in w1.fs && w1.fs[p] == w.fs[p]
    ensures forall q :: q in w1.fs && !InTree(q, to) ==> q in w.fs && !InTree(q, from) && w1.fs[q] == w.fs[q]
  {
    var w0 := if to in w.fs then DeleteItem(w, to).value else w;
    assert Rename(w0, from, to) == Success(w1);
    TreesDisjoint(from, to);
    assert forall p :: p in w0.fs ==> p in w.fs && w0.fs[p] == w.fs[p];
    assert forall p :: p in w.fs && !InTree(p, to) ==> p in w0.fs;
    RenamedTree(w0, from, to, w1);
  }

  /** A rename inside one folder is reflected by renaming the replica, when the replica exists. */
  lemma RenameInFolderMirrored(wt: Watcher, w: World, dir: Path, name1: string, name2: string)
    requires dir != [] && Sep !in name1 && Sep !in name2 && name1 != name2
    requires !wt.ShouldIgnore(dir + [Sep] + name1)
    requires wt.DestinationPath(dir + [Sep] + name1) in w.fs
    ensures var from, to := wt.DestinationPath(dir + [Sep] + name1), wt.DestinationPath(dir + [Sep] + name2);
      OnMoved(wt, w, dir + [Sep] + name1, dir + [Sep] + name2) == React(RenameItem(w, from, to), Retry.Rename(from, to))
  {
    RenameIsDetected(dir, name1, name2);
  }

  /** A move into another folder that keeps the name leaves the replica as it was. */
  lemma MoveKeepingNameNotMirrored(wt: Watcher, w: World, dir1: Path, dir2: Path, name: string)
    requires dir1 != [] && dir2 != [] && Sep !in name
    ensures OnMoved(wt, w, dir1 + [Sep] + name, dir2 + [Sep] + name) == Applied(w)
  {
    SameNameMoveIsNotRenamed(dir1, dir2, name);
  }

  /** Two distinct paths of the same length lie outside each other's trees. */
  lemma SameLengthTreesApart(a: Path, b: Path)
    requires a != b && |a| == |b|
    ensures !InTree(a, b) && !InTree(b, a)
  {
  }

  /**
   * As written, a rename that changes only letter case loses the replica: `_delete` removes
   * it under its old name, and `os.rename` then fails, so it exists under neither name.
   */
  lemma CaseOnlyRenameLosesReplica(w: World, from: Path, to: Path)
    requires from != to && FoldCase(from) == FoldCase(to)
    requires IsFile(w, from) && from !in w.locked && to !in w.fs
    ensures RenameItemAsWritten(w, from, to) == (w.(fs := w.fs - {from}), Some(OsError))
    ensures from !in RenameItemAsWritten(w, from, to).0.fs && to !in RenameItemAsWritten(w, from, to).0.fs
  {
    assert DeleteItem(w, from) == Success(w.(fs := w.fs - {from}));
  }

  /** The intended `_rename` moves the replica to the new spelling with its contents. */
  lemma CaseOnlyRenameMirrored(w: World, from: Path, to: Path)
    requires from != to && FoldCase(from) == FoldCase(to)
    requires IsFile(w, from) && !TreeLocked(w, from) && to !in w.fs && to !in w.locked
    ensures RenameItem(w, from, to).Success?
    ensures var w1 := RenameItem(w, from, to).value;
      to in w1.fs && w1.fs[to] == w.fs[from] && from !in w1.fs
  {
    SameLengthTreesApart(from, to);
    RenameMovesTree(w, from, to, RenameItem(w, from, to).value);
  }

  /** The rename `D:\b\a.txt` to `D:\b\A.txt` of a replica file, as written and as intended. */
  lemma CaseOnlyRenameExample()
    ensures var w := World(map["D:\\b\\a.txt" := File("x")], {});
      RenameItemAsWritten(w, "D:\\b\\a.txt", "D:\\b\\A.txt") == (World(map[], {}), Some(OsError)) &&
      RenameItem(w, "D:\\b\\a.txt", "D:\\b\\A.txt").Success? &&
      RenameItem(w, "D:\\b\\a.txt", "D:\\b\\A.txt").value.fs == map["D:\\b\\A.txt" := File("x")]
  {
    var w := World(map["D:\\b\\a.txt" := File("x")], {});
    var from, to: Path := "D:\\b\\a.txt", "D:\\b\\A.txt";
    assert from[5] != to[5];
    assert FoldCase(from) == FoldCase(to) by {
      assert forall i :: 0 <= i < |from| ==> FoldCase(from)[i] == FoldCase(to)[i];
    }
    CaseOnlyRenameLosesReplica(w, from, to);
    assert w.fs - {from} == map[];
    CaseOnlyRenameMirrored(w, from, to);
    var w1 := RenameItem(w, from, to).value;
    RenameMovesTree(w, from, to, w1);
    assert w1.fs == map[to := File("x")];
  }

  /**
   * A handler queues only after a `PermissionError`, and what it queues is its own
   * operation, which fails the same way when run again at once; `on_created` ...
   */
  lemma CreatedQueuesItsOperation(wt: Watcher, w: World, srcPath: Path)
    requires OnCreated(wt, w, srcPath).Queued?
    ensures OnCreated(wt, w, srcPath).action == Retry.Create(srcPath)
    ensures Execute(wt, w, Retry.Create(srcPath)) == Failure(PermissionDenied)
  {
  }

  /** ... `on_deleted` ... */
  lemma DeletedQueuesItsOperation(wt: Watcher, w: World, srcPath: Path)
    requires OnDeleted(wt, w, srcPath).Queued?
    ensures OnDeleted(wt, w, srcPath).action == Retry.Delete(wt.DestinationPath(srcPath))
    ensures Execute(wt, w, Retry.Delete(wt.DestinationPath(srcPath))) == Failure(PermissionDenied)
  {
  }

  /** ... `on_modified` ... */
  lemma ModifiedQueuesItsOperation(wt: Watcher, w: World, srcPath: Path)
    requires OnModified(wt, w, srcPath).Queued?
    ensures OnModified(wt, w, srcPath).action == Retry.Replace(srcPath)
    ensures Execute(wt, w, Retry.Replace(srcPath)) == Failure(PermissionDenied)
  {
  }

  /** ... and `on_moved`. */
  lemma MovedQueuesItsOperation(wt: Watcher, w: World, srcPath: Path, destPath: Path)
    requires OnMoved(wt, w, srcPath, destPath).Queued?
    ensures OnMoved(wt, w, srcPath, destPath).action == Retry.Rename(wt.DestinationPath(srcPath), wt.DestinationPath(destPath))
    ensures Execute(wt, w, Retry.Rename(wt.DestinationPath(srcPath), wt.DestinationPath(destPath))) == Failure(PermissionDenied)
  {
  }

  /**
   * Every event at or below an excluded path of a rule leaves the replica of that rule's
   * include path untouched.
   */
  lemma ExcludedEventsChangeNothing(wt: Watcher, w: World, excludes: seq<Path>, includePaths: seq<Path>, i: nat, j: nat, rel: Path, p: Path, destPath: Path)
    requires wt.ignorePaths == IgnorePatterns(excludes, includePaths)
    requires i < |excludes| && j < |includePaths| && wt.sourcePath == includePaths[j]
    requires IsDirPath(wt.sourcePath) && IsRelative(rel) && excludes[i] == wt.sourcePath + [Sep] + rel
    requires StartsWith(p, excludes[i])
    ensures OnCreated(wt, w, p) == Applied(w) && OnDeleted(wt, w, p) == Applied(w)
    ensures OnModified(wt, w, p) == Applied(w) && OnMoved(wt, w, p, destPath) == Applied(w)
  {
    ExcludedSubtreeIgnored(wt, excludes, includePaths, i, j, rel, p);
  }

  /**
   * A queued deletion whose replica has meanwhile disappeared never succeeds again
   * (`rmtree` raises), so it stays queued through every tick.
   */
  lemma StaleDeleteStaysQueued(wt: Watcher, queue: seq<Retry.AttemptOperation>, ticks: seq<Retry.AttemptOperation -> bool>,
                               worlds: seq<World>, op: Retry.AttemptOperation, destination: Path)
    requires op in queue && op.action == Retry.Delete(destination) && |worlds| == |ticks|
    requires forall t :: 0 <= t < |ticks| ==> destination !in worlds[t].fs
    requires forall t :: 0 <= t < |ticks| ==> ticks[t](op) == Execute(wt, worlds[t], op.action).Success?
    ensures op in Retry.AfterTicks(queue, ticks)
  {
    Retry.RetriedUntilSuccess(queue, ticks, op);
  }
}
