// What a mirror run promises, stated over filesystem values: which
// destination entries a step may touch, when a destination directory mirrors
// a source directory, and that destination copies of excluded source entries
// are left alone.
module MirrorSpec {
  import opened Exclusion
  import opened Paths
  import opened FileSystems

  type Files = map<Path, FileRec>
  type Dirs = set<Path>

  predicate FileExcluded(f: Path, excludePaths: seq<string>) {
    ShouldFileBeExcluded(Render(f), excludePaths)
  }

  predicate DirExcluded(d: Path, excludePaths: seq<string>) {
    ShouldDirectoryBeExcluded(Render(d), excludePaths)
  }

  // The source directories strictly below `d`: the measure of the recursion.
  ghost function Below(src: Tree, d: Path): set<Path> {
    set q | q in src.dirs && IsPrefix(d, q) && q != d
  }

  // The directories of a volume at or below `d`.
  ghost function Subtree(dirs: Dirs, d: Path): set<Path> {
    set q | q in dirs && IsPrefix(d, q)
  }

  lemma BelowShrinks(src: Tree, d: Path, s: Path)
    requires s in src.dirs && IsChildOf(s, d)
    ensures Below(src, s) < Below(src, d)
  {
    assert IsPrefix(d, s);
    forall q | q in Below(src, s)
      ensures q in Below(src, d)
    {
      PrefixTransitive(d, s, q);
    }
    assert s in Below(src, d);
  }

  // `p` lies at or below `Child(root, n)` for one of the `names`.
  ghost predicate InBranches(root: Path, names: set<string>, p: Path) {
    |root| < |p| && IsPrefix(root, p) && p[|root|] in names
  }

  lemma ChildPrefix(root: Path, n: string, p: Path)
    ensures IsPrefix(Child(root, n), p) <==> |root| < |p| && IsPrefix(root, p) && p[|root|] == n
  {
    if |root| < |p| && IsPrefix(root, p) && p[|root|] == n {
      assert p[..|root| + 1] == p[..|root|] + [p[|root|]];
    }
  }

  ghost predicate SameFile(f0: Files, f1: Files, p: Path) {
    (p in f0 <==> p in f1) && (p in f0 ==> f0[p] == f1[p])
  }

  ghost predicate SameEntry(f0: Files, d0: Dirs, f1: Files, d1: Dirs, p: Path) {
    SameFile(f0, f1, p) && (p in d0 <==> p in d1)
  }

  // Nothing at or below `root` differs.
  ghost predicate SameUnder(f0: Files, d0: Dirs, f1: Files, d1: Dirs, root: Path) {
    forall p :: IsPrefix(root, p) ==> SameEntry(f0, d0, f1, d1, p)
  }

  // Nothing strictly below `root` differs.
  ghost predicate SameBelow(f0: Files, d0: Dirs, f1: Files, d1: Dirs, root: Path) {
    forall p :: IsPrefix(root, p) && p != root ==> SameEntry(f0, d0, f1, d1, p)
  }

  // A step that changes only what lies at or below `root`, apart from
  // creating the missing directories on the way to `root`.
  ghost predicate ConfinedTo(f0: Files, d0: Dirs, f1: Files, d1: Dirs, root: Path) {
    && (forall p :: !IsPrefix(root, p) ==> SameFile(f0, f1, p))
    && (forall p :: p in d0 && !IsPrefix(root, p) ==> p in d1)
    && (forall p :: p in d1 && p !in d0 ==> IsPrefix(root, p) || IsPrefix(p, root))
  }

  lemma ConfinedTransitive(f0: Files, d0: Dirs, f1: Files, d1: Dirs, f2: Files, d2: Dirs, root: Path)
    requires ConfinedTo(f0, d0, f1, d1, root) && ConfinedTo(f1, d1, f2, d2, root)
    ensures ConfinedTo(f0, d0, f2, d2, root)
  {
  }

  // Below a directory that already exists, a confined step changes nothing
  // outside `root`'s subtree.
  lemma ConfinedUnderExistingParent(f0: Files, d0: Dirs, f1: Files, d1: Dirs, root: Path)
    requires WellFormed(f0, d0) && root != [] && Parent(root) in d0
    requires ConfinedTo(f0, d0, f1, d1, root)
    ensures forall p :: !IsPrefix(root, p) ==> SameEntry(f0, d0, f1, d1, p)
  {
    forall p | !IsPrefix(root, p)
      ensures SameEntry(f0, d0, f1, d1, p)
    {
      if p in d1 && p !in d0 {
        assert IsPrefix(p, root);
        assert p != root;
        assert IsPrefix(p, Parent(root)) by {
          assert Parent(root)[..|p|] == root[..|p|];
        }
        if p != Parent(root) {
          AncestorIsDirectory(f0, d0, Parent(root), p);
        }
        assert false;
      }
    }
  }

  // ---------------------------------------------------------------------
  // The mirror relation.

  // After a real run, `destDir` mirrors `srcDir`: the directory exists; every
  // non-excluded source file has a copy at least as new; every destination
  // file and directory has a same-named source file or directory; and every
  // non-excluded source subdirectory is mirrored in turn.
  ghost predicate Mirrored(src: Tree, files: Files, dirs: Dirs, srcDir: Path, destDir: Path, excludePaths: seq<string>)
    decreases Below(src, srcDir)
  {
    && destDir in dirs
    && (forall f :: f in src.files && IsChildOf(f, srcDir) && !FileExcluded(f, excludePaths) ==>
          Child(destDir, Last(f)) in files && files[Child(destDir, Last(f))].mtime >= src.files[f].mtime)
    && (forall p :: p in files && IsChildOf(p, destDir) ==> Child(srcDir, Last(p)) in src.files)
    && (forall p :: p in dirs && IsChildOf(p, destDir) ==> Child(srcDir, Last(p)) in src.dirs)
    && (forall s :: s in src.dirs && IsChildOf(s, srcDir) && !DirExcluded(s, excludePaths) ==>
          (BelowShrinks(src, srcDir, s);
           Mirrored(src, files, dirs, s, Child(destDir, Last(s)), excludePaths)))
  }

  // Between the volumes (f0, d0) and (f1, d1), the destination copies of the
  // excluded source entries below `srcDir` are untouched: the copy of an
  // excluded file is neither written nor removed, and the destination subtree
  // of an excluded directory (when no file stands in its place) is kept whole.
  ghost predicate ExclusionsKept(src: Tree, f0: Files, d0: Dirs, f1: Files, d1: Dirs,
                                 srcDir: Path, destDir: Path, excludePaths: seq<string>)
    decreases Below(src, srcDir)
  {
    && (forall f :: f in src.files && IsChildOf(f, srcDir) && FileExcluded(f, excludePaths) ==>
          SameFile(f0, f1, Child(destDir, Last(f))))
    && (forall s :: s in src.dirs && IsChildOf(s, srcDir) && DirExcluded(s, excludePaths) && Child(destDir, Last(s)) !in f0 ==>
          SameUnder(f0, d0, f1, d1, Child(destDir, Last(s))))
    && (forall s :: s in src.dirs && IsChildOf(s, srcDir) && !DirExcluded(s, excludePaths) ==>
          (BelowShrinks(src, srcDir, s);
           ExclusionsKept(src, f0, d0, f1, d1, s, Child(destDir, Last(s)), excludePaths)))
  }

  lemma SameBelowChild(f0: Files, d0: Dirs, f1: Files, d1: Dirs, root: Path, c: Path)
    requires SameBelow(f0, d0, f1, d1, root) && IsChildOf(c, root)
    ensures SameUnder(f0, d0, f1, d1, c) && SameBelow(f0, d0, f1, d1, c)
  {
    assert IsPrefix(root, c);
    forall p | IsPrefix(c, p)
      ensures SameEntry(f0, d0, f1, d1, p)
    {
      PrefixTransitive(root, c, p);
    }
  }

  // The mirror relation depends only on what lies at or below `destDir`.
  lemma {:induction false} MirroredFrame(src: Tree, f1: Files, d1: Dirs, f2: Files, d2: Dirs,
                                         srcDir: Path, destDir: Path, excludePaths: seq<string>)
    requires Mirrored(src, f1, d1, srcDir, destDir, excludePaths)
    requires SameBelow(f1, d1, f2, d2, destDir) && destDir in d2
    ensures Mirrored(src, f2, d2, srcDir, destDir, excludePaths)
    decreases Below(src, srcDir)
  {
    forall f | f in src.files && IsChildOf(f, srcDir) && !FileExcluded(f, excludePaths)
      ensures Child(destDir, Last(f)) in f2 && f2[Child(destDir, Last(f))].mtime >= src.files[f].mtime
    {
      var c := Child(destDir, Last(f));
      assert IsPrefix(destDir, c) && c != destDir;
      assert SameEntry(f1, d1, f2, d2, c);
    }
    forall p | p in f2 && IsChildOf(p, destDir)
      ensures Child(srcDir, Last(p)) in src.files
    {
      assert IsPrefix(destDir, p) && p != destDir;
      assert SameEntry(f1, d1, f2, d2, p);
    }
    forall p | p in d2 && IsChildOf(p, destDir)
      ensures Child(srcDir, Last(p)) in src.dirs
    {
      assert IsPrefix(destDir, p) && p != destDir;
      assert SameEntry(f1, d1, f2, d2, p);
    }
    forall s | s in src.dirs && IsChildOf(s, srcDir) && !DirExcluded(s, excludePaths)
      ensures Mirrored(src, f2, d2, s, Child(destDir, Last(s)), excludePaths)
    {
      BelowShrinks(src, srcDir, s);
      var c := Child(destDir, Last(s));
      SameBelowChild(f1, d1, f2, d2, destDir, c);
      assert IsPrefix(c, c);
      MirroredFrame(src, f1, d1, f2, d2, s, c, excludePaths);
    }
  }

  // The exclusion guarantee depends only on what lies strictly below `destDir`
  // in the earlier and in the later volume.
  lemma {:induction false} ExclusionsKeptFrame(src: Tree, f0: Files, d0: Dirs, f1: Files, d1: Dirs,
                                               g0: Files, e0: Dirs, g1: Files, e1: Dirs,
                                               srcDir: Path, destDir: Path, excludePaths: seq<string>)
    requires ExclusionsKept(src, f0, d0, f1, d1, srcDir, destDir, excludePaths)
    requires SameBelow(f0, d0, g0, e0, destDir) && SameBelow(f1, d1, g1, e1, destDir)
    ensures ExclusionsKept(src, g0, e0, g1, e1, srcDir, destDir, excludePaths)
    decreases Below(src, srcDir)
  {
    forall f | f in src.files && IsChildOf(f, srcDir) && FileExcluded(f, excludePaths)
      ensures SameFile(g0, g1, Child(destDir, Last(f)))
    {
      var c := Child(destDir, Last(f));
      assert IsPrefix(destDir, c) && c != destDir;
      assert SameEntry(f0, d0, g0, e0, c) && SameEntry(f1, d1, g1, e1, c);
    }
    forall s | s in src.dirs && IsChildOf(s, srcDir) && !DirExcluded(s, excludePaths)
      ensures ExclusionsKept(src, g0, e0, g1, e1, s, Child(destDir, Last(s)), excludePaths)
    {
      BelowShrinks(src, srcDir, s);
      SameBelowChild(f0, d0, g0, e0, destDir, Child(destDir, Last(s)));
      SameBelowChild(f1, d1, g1, e1, destDir, Child(destDir, Last(s)));
      ExclusionsKeptFrame(src, f0, d0, f1, d1, g0, e0, g1, e1, s, Child(destDir, Last(s)), excludePaths);
    }
    forall s | s in src.dirs && IsChildOf(s, srcDir) && DirExcluded(s, excludePaths) && Child(destDir, Last(s)) !in g0
      ensures SameUnder(g0, e0, g1, e1, Child(destDir, Last(s)))
    {
      var c := Child(destDir, Last(s));
      SameBelowChild(f0, d0, g0, e0, destDir, c);
      SameBelowChild(f1, d1, g1, e1, destDir, c);
      assert IsPrefix(c, c);
      assert SameEntry(f0, d0, g0, e0, c);
      assert SameUnder(f0, d0, f1, d1, c);
      forall p | IsPrefix(c, p)
        ensures SameEntry(g0, e0, g1, e1, p)
      {
        assert SameEntry(f0, d0, g0, e0, p) && SameEntry(f1, d1, g1, e1, p);
      }
    }
  }

  // ---------------------------------------------------------------------
  // What the mirror relation means at any depth.

  // The directories strictly between `srcDir` and `p` are not excluded, so
  // the recursion reaches the directory holding `p`.
  ghost predicate Reachable(srcDir: Path, p: Path, excludePaths: seq<string>) {
    && |srcDir| < |p| && IsPrefix(srcDir, p)
    && forall k :: |srcDir| < k < |p| ==> !DirExcluded(p[..k], excludePaths)
  }

  // Moving one name of `p` from the remainder onto the directory.
  lemma ChildThenRest(dir: Path, p: Path, i: int)
    requires 0 <= i < |p|
    ensures Child(dir, p[i]) + p[i + 1..] == dir + p[i..]
  {
    assert p[i..] == [p[i]] + p[i + 1..];
  }

  lemma ChildThenSlice(dir: Path, p: Path, i: int, k: int)
    requires 0 <= i < k <= |p|
    ensures Child(dir, p[i]) + p[i + 1..k] == dir + p[i..k]
  {
    assert p[i..k] == [p[i]] + p[i + 1..k];
  }

  lemma ReachableStep(srcDir: Path, f: Path, excludePaths: seq<string>)
    requires Reachable(srcDir, f, excludePaths) && |f| > |srcDir| + 1
    ensures IsChildOf(f[..|srcDir| + 1], srcDir) && Last(f[..|srcDir| + 1]) == f[|srcDir|]
    ensures !DirExcluded(f[..|srcDir| + 1], excludePaths)
    ensures Reachable(f[..|srcDir| + 1], f, excludePaths)
  {
    var s := f[..|srcDir| + 1];
    assert s[..|srcDir|] == srcDir;
    forall k | |s| < k < |f|
      ensures !DirExcluded(f[..k], excludePaths)
    {
    }
  }

  lemma MirroredDirHasSource(src: Tree, files: Files, dirs: Dirs, srcDir: Path, destDir: Path, excludePaths: seq<string>, d: Path)
    requires Mirrored(src, files, dirs, srcDir, destDir, excludePaths)
    requires d in dirs && |d| == |destDir| + 1 && IsPrefix(destDir, d)
    ensures Child(srcDir, d[|destDir|]) in src.dirs && Child(destDir, d[|destDir|]) == d
  {
    ChildShape(d, destDir);
  }

  lemma MirroredChild(src: Tree, files: Files, dirs: Dirs, srcDir: Path, destDir: Path, excludePaths: seq<string>, s: Path)
    requires Mirrored(src, files, dirs, srcDir, destDir, excludePaths)
    requires s in src.dirs && IsChildOf(s, srcDir) && !DirExcluded(s, excludePaths)
    ensures Mirrored(src, files, dirs, s, Child(destDir, Last(s)), excludePaths)
  {
  }

  // Every non-excluded source file that the recursion reaches has a copy,
  // at least as new, at the same place relative to the destination.
  lemma {:induction false} MirroredCopiesReachableFiles(src: Tree, files: Files, dirs: Dirs, srcDir: Path, destDir: Path,
                                                        excludePaths: seq<string>, f: Path)
    requires WellFormed(src.files, src.dirs)
    requires Mirrored(src, files, dirs, srcDir, destDir, excludePaths)
    requires f in src.files && Reachable(srcDir, f, excludePaths) && !FileExcluded(f, excludePaths)
    ensures destDir + f[|srcDir|..] in files
    ensures files[destDir + f[|srcDir|..]].mtime >= src.files[f].mtime
    decreases |f| - |srcDir|
  {
    if |f| == |srcDir| + 1 {
      assert IsChildOf(f, srcDir);
      assert Child(destDir, Last(f)) == destDir + f[|srcDir|..];
    } else {
      var s := f[..|srcDir| + 1];
      ReachableStep(srcDir, f, excludePaths);
      AncestorIsDirectory(src.files, src.dirs, f, s);
      MirroredChild(src, files, dirs, srcDir, destDir, excludePaths, s);
      var d := Child(destDir, Last(s));
      MirroredCopiesReachableFiles(src, files, dirs, s, d, excludePaths, f);
      ChildThenRest(destDir, f, |srcDir|);
    }
  }

  // Conversely, every destination file reached through destination
  // directories whose source counterparts are not excluded has a source
  // original at the same relative place: nothing stray survives a mirror.
  lemma {:induction false} MirroredHasNoStrayFiles(src: Tree, files: Files, dirs: Dirs, srcDir: Path, destDir: Path,
                                                   excludePaths: seq<string>, q: Path)
    requires WellFormed(files, dirs)
    requires Mirrored(src, files, dirs, srcDir, destDir, excludePaths)
    requires q in files && |destDir| < |q| && IsPrefix(destDir, q)
    requires forall k :: |destDir| < k < |q| ==> !DirExcluded(srcDir + q[|destDir|..k], excludePaths)
    ensures srcDir + q[|destDir|..] in src.files
    decreases |q| - |destDir|
  {
    if |q| == |destDir| + 1 {
      assert IsChildOf(q, destDir);
      assert Child(srcDir, Last(q)) == srcDir + q[|destDir|..];
    } else {
      var d := q[..|destDir| + 1];
      AncestorIsDirectory(files, dirs, q, d);
      var s := Child(srcDir, q[|destDir|]);
      MirroredDirHasSource(src, files, dirs, srcDir, destDir, excludePaths, d);
      assert s == srcDir + q[|destDir|..|destDir| + 1];
      MirroredChild(src, files, dirs, srcDir, destDir, excludePaths, s);
      forall k | |d| < k < |q|
        ensures !DirExcluded(s + q[|d|..k], excludePaths)
      {
        ChildThenSlice(srcDir, q, |destDir|, k);
      }
      MirroredHasNoStrayFiles(src, files, dirs, s, d, excludePaths, q);
      ChildThenRest(srcDir, q, |destDir|);
    }
  }

  // ---------------------------------------------------------------------
  // What each step of one directory level may change.

  lemma PrefixOfChild(root: Path, d: Path, n: string)
    requires IsPrefix(root, d)
    ensures IsPrefix(root, Child(d, n))
  {
    assert Child(d, n)[..|root|] == d[..|root|];
  }

  lemma ChildShape(p: Path, destDir: Path)
    requires IsChildOf(p, destDir)
    ensures |p| == |destDir| + 1 && IsPrefix(destDir, p) && p[..|destDir| + 1] == p
    ensures Last(p) == p[|destDir|] && p == Child(destDir, Last(p))
  {
  }

  // The copy of a non-excluded source file of `srcDir`: the only destination
  // entries BackupNewerFiles writes.
  ghost predicate SyncTarget(src: Tree, srcDir: Path, destDir: Path, excludePaths: seq<string>, p: Path) {
    IsChildOf(p, destDir) && Child(srcDir, Last(p)) in src.files && !FileExcluded(Child(srcDir, Last(p)), excludePaths)
  }

  // After the copy step, `p` holds either the source file or an older-dated
  // copy that was already at least as new.
  ghost predicate Synced(f0: Files, f1: Files, source: FileRec, p: Path) {
    p in f1 && (f1[p] == source || (p in f0 && f1[p] == f0[p] && source.mtime <= f0[p].mtime))
  }

  ghost predicate SyncFrame(src: Tree, srcDir: Path, destDir: Path, excludePaths: seq<string>, f0: Files, f1: Files) {
    forall p :: !SyncTarget(src, srcDir, destDir, excludePaths, p) ==> SameFile(f0, f1, p)
  }

  ghost predicate FilesSynced(src: Tree, srcDir: Path, destDir: Path, excludePaths: seq<string>, f0: Files, f1: Files) {
    forall f :: f in src.files && IsChildOf(f, srcDir) && !FileExcluded(f, excludePaths) ==>
      Synced(f0, f1, src.files[f], Child(destDir, Last(f)))
  }

  // A destination file of `destDir` whose source counterpart is no longer a file.
  ghost predicate StaleFile(src: Tree, srcDir: Path, destDir: Path, files: Files, p: Path) {
    p in files && IsChildOf(p, destDir) && Child(srcDir, Last(p)) !in src.files
  }

  // A destination subdirectory of `destDir` whose source counterpart is no longer a directory.
  ghost predicate StaleDir(src: Tree, srcDir: Path, destDir: Path, dirs: Dirs, p: Path) {
    p in dirs && IsChildOf(p, destDir) && Child(srcDir, Last(p)) !in src.dirs
  }

  ghost predicate UnderStaleDir(src: Tree, srcDir: Path, destDir: Path, dirs: Dirs, p: Path) {
    |destDir| < |p| && IsPrefix(destDir, p) && StaleDir(src, srcDir, destDir, dirs, p[..|destDir| + 1])
  }

  // The entries the pruning step removes.
  ghost predicate Pruned(src: Tree, srcDir: Path, destDir: Path, files: Files, dirs: Dirs, p: Path) {
    StaleFile(src, srcDir, destDir, files, p) || UnderStaleDir(src, srcDir, destDir, dirs, p)
  }

  // Pruning only removes entries, and only pruned ones.
  ghost predicate PruneFrame(src: Tree, srcDir: Path, destDir: Path, f0: Files, d0: Dirs, f1: Files, d1: Dirs) {
    && (forall p :: p in f1 ==> p in f0 && f1[p] == f0[p])
    && (forall p :: p in d1 ==> p in d0)
    && (forall p :: !Pruned(src, srcDir, destDir, f0, d0, p) ==> SameEntry(f0, d0, f1, d1, p))
  }

  // Every pruned entry is gone.
  ghost predicate PruneDone(src: Tree, srcDir: Path, destDir: Path, f0: Files, d0: Dirs, f1: Files, d1: Dirs) {
    forall p :: Pruned(src, srcDir, destDir, f0, d0, p) ==> p !in f1 && p !in d1
  }

  // `p` lies in the destination subtree of a non-excluded source subdirectory.
  ghost predicate InMirroredBranch(src: Tree, srcDir: Path, destDir: Path, excludePaths: seq<string>, p: Path) {
    && |destDir| < |p| && IsPrefix(destDir, p)
    && Child(srcDir, p[|destDir|]) in src.dirs && !DirExcluded(Child(srcDir, p[|destDir|]), excludePaths)
  }

  ghost predicate BranchFrame(src: Tree, srcDir: Path, destDir: Path, excludePaths: seq<string>,
                              f0: Files, d0: Dirs, f1: Files, d1: Dirs) {
    forall p :: !InMirroredBranch(src, srcDir, destDir, excludePaths, p) ==> SameEntry(f0, d0, f1, d1, p)
  }

  ghost predicate SubdirsMirrored(src: Tree, srcDir: Path, destDir: Path, excludePaths: seq<string>, files: Files, dirs: Dirs) {
    forall s :: s in src.dirs && IsChildOf(s, srcDir) && !DirExcluded(s, excludePaths) ==>
      Mirrored(src, files, dirs, s, Child(destDir, Last(s)), excludePaths)
  }

  ghost predicate SubdirsKept(src: Tree, srcDir: Path, destDir: Path, excludePaths: seq<string>,
                              f0: Files, d0: Dirs, f1: Files, d1: Dirs) {
    forall s :: s in src.dirs && IsChildOf(s, srcDir) && !DirExcluded(s, excludePaths) ==>
      ExclusionsKept(src, f0, d0, f1, d1, s, Child(destDir, Last(s)), excludePaths)
  }

  lemma SyncConfined(src: Tree, srcDir: Path, destDir: Path, excludePaths: seq<string>, f0: Files, f1: Files, d: Dirs)
    requires SyncFrame(src, srcDir, destDir, excludePaths, f0, f1)
    ensures ConfinedTo(f0, d, f1, d, destDir)
  {
    forall p | !IsPrefix(destDir, p)
      ensures SameFile(f0, f1, p)
    {
      if IsChildOf(p, destDir) {
        ChildShape(p, destDir);
      }
    }
  }

  lemma PruneConfined(src: Tree, srcDir: Path, destDir: Path, f0: Files, d0: Dirs, f1: Files, d1: Dirs)
    requires PruneFrame(src, srcDir, destDir, f0, d0, f1, d1)
    ensures ConfinedTo(f0, d0, f1, d1, destDir)
  {
    forall p | !IsPrefix(destDir, p)
      ensures SameEntry(f0, d0, f1, d1, p)
    {
      if IsChildOf(p, destDir) {
        ChildShape(p, destDir);
      }
    }
  }

  lemma BranchConfined(src: Tree, srcDir: Path, destDir: Path, excludePaths: seq<string>,
                       f0: Files, d0: Dirs, f1: Files, d1: Dirs)
    requires BranchFrame(src, srcDir, destDir, excludePaths, f0, d0, f1, d1)
    ensures ConfinedTo(f0, d0, f1, d1, destDir)
  {
    forall p | !IsPrefix(destDir, p)
      ensures SameEntry(f0, d0, f1, d1, p)
    {
      assert !InMirroredBranch(src, srcDir, destDir, excludePaths, p);
    }
  }

  // A mirrored branch of `destDir` that is a direct entry is a directory.
  lemma MirroredBranchIsDirectory(src: Tree, srcDir: Path, destDir: Path, excludePaths: seq<string>,
                                  files: Files, dirs: Dirs, p: Path)
    ensures SubdirsMirrored(src, srcDir, destDir, excludePaths, files, dirs)
            && IsChildOf(p, destDir) && InMirroredBranch(src, srcDir, destDir, excludePaths, p)
            ==> p in dirs
  {
    if SubdirsMirrored(src, srcDir, destDir, excludePaths, files, dirs)
       && IsChildOf(p, destDir) && InMirroredBranch(src, srcDir, destDir, excludePaths, p)
    {
      ChildShape(p, destDir);
      var s := Child(srcDir, p[|destDir|]);
      assert Mirrored(src, files, dirs, s, Child(destDir, Last(s)), excludePaths);
    }
  }

  // After a level, every non-excluded source file has its copy.
  lemma LevelCopiesFiles(src: Tree, srcDir: Path, destDir: Path, excludePaths: seq<string>,
                      f1: Files, d1: Dirs, f2: Files, f3: Files, d3: Dirs, f4: Files, d4: Dirs)
    requires WellFormed(src.files, src.dirs) && WellFormed(f2, d1) && WellFormed(f4, d4)
    requires destDir in d1
    requires FilesSynced(src, srcDir, destDir, excludePaths, f1, f2)
    requires PruneFrame(src, srcDir, destDir, f2, d1, f3, d3) && PruneDone(src, srcDir, destDir, f2, d1, f3, d3)
    requires BranchFrame(src, srcDir, destDir, excludePaths, f3, d3, f4, d4)
    ensures forall f :: f in src.files && IsChildOf(f, srcDir) && !FileExcluded(f, excludePaths) ==>
              Child(destDir, Last(f)) in f4 && f4[Child(destDir, Last(f))].mtime >= src.files[f].mtime
  {
    forall f | f in src.files && IsChildOf(f, srcDir) && !FileExcluded(f, excludePaths)
      ensures Child(destDir, Last(f)) in f4 && f4[Child(destDir, Last(f))].mtime >= src.files[f].mtime
    {
      var c := Child(destDir, Last(f));
      ChildShape(c, destDir);
      ChildOfParent(f);
      assert Synced(f1, f2, src.files[f], c);
      assert !Pruned(src, srcDir, destDir, f2, d1, c);
      assert !InMirroredBranch(src, srcDir, destDir, excludePaths, c);
    }
  }

  // After a level, every destination file has a same-named source file.
  lemma LevelLeavesNoStrayFile(src: Tree, srcDir: Path, destDir: Path, excludePaths: seq<string>,
                      f1: Files, d1: Dirs, f2: Files, f3: Files, d3: Dirs, f4: Files, d4: Dirs)
    requires WellFormed(src.files, src.dirs) && WellFormed(f2, d1) && WellFormed(f4, d4)
    requires destDir in d1
    requires FilesSynced(src, srcDir, destDir, excludePaths, f1, f2)
    requires PruneFrame(src, srcDir, destDir, f2, d1, f3, d3) && PruneDone(src, srcDir, destDir, f2, d1, f3, d3)
    requires BranchFrame(src, srcDir, destDir, excludePaths, f3, d3, f4, d4)
    requires SubdirsMirrored(src, srcDir, destDir, excludePaths, f4, d4)
    ensures forall p :: p in f4 && IsChildOf(p, destDir) ==> Child(srcDir, Last(p)) in src.files
  {
    forall p | p in f4 && IsChildOf(p, destDir)
      ensures Child(srcDir, Last(p)) in src.files
    {
      ChildShape(p, destDir);
      MirroredBranchIsDirectory(src, srcDir, destDir, excludePaths, f4, d4, p);
      if InMirroredBranch(src, srcDir, destDir, excludePaths, p) {
        assert false;
      }
      assert SameEntry(f3, d3, f4, d4, p);
      assert !StaleFile(src, srcDir, destDir, f2, p);
    }
  }

  // After a level, every destination subdirectory has a same-named source
  // directory.
  lemma LevelLeavesNoStrayDir(src: Tree, srcDir: Path, destDir: Path, excludePaths: seq<string>,
                      f1: Files, d1: Dirs, f2: Files, f3: Files, d3: Dirs, f4: Files, d4: Dirs)
    requires WellFormed(src.files, src.dirs) && WellFormed(f2, d1) && WellFormed(f4, d4)
    requires destDir in d1
    requires FilesSynced(src, srcDir, destDir, excludePaths, f1, f2)
    requires PruneFrame(src, srcDir, destDir, f2, d1, f3, d3) && PruneDone(src, srcDir, destDir, f2, d1, f3, d3)
    requires BranchFrame(src, srcDir, destDir, excludePaths, f3, d3, f4, d4)
    ensures forall p :: p in d4 && IsChildOf(p, destDir) ==> Child(srcDir, Last(p)) in src.dirs
  {
    forall p | p in d4 && IsChildOf(p, destDir)
      ensures Child(srcDir, Last(p)) in src.dirs
    {
      ChildShape(p, destDir);
      if !InMirroredBranch(src, srcDir, destDir, excludePaths, p) {
        assert SameEntry(f3, d3, f4, d4, p);
        assert !UnderStaleDir(src, srcDir, destDir, d1, p);
      }
    }
  }

  // One level of BackupDirectoryRecursively establishes the mirror relation:
  // after the directory exists (d1), the newer files are copied (f1 to f2),
  // stale entries are pruned (to f3, d3) and the subdirectories are mirrored
  // (to f4, d4).
  lemma LevelMirrored(src: Tree, srcDir: Path, destDir: Path, excludePaths: seq<string>,
                      f1: Files, d1: Dirs, f2: Files, f3: Files, d3: Dirs, f4: Files, d4: Dirs)
    requires WellFormed(src.files, src.dirs) && WellFormed(f2, d1) && WellFormed(f4, d4)
    requires destDir in d1
    requires FilesSynced(src, srcDir, destDir, excludePaths, f1, f2)
    requires PruneFrame(src, srcDir, destDir, f2, d1, f3, d3) && PruneDone(src, srcDir, destDir, f2, d1, f3, d3)
    requires BranchFrame(src, srcDir, destDir, excludePaths, f3, d3, f4, d4)
    requires SubdirsMirrored(src, srcDir, destDir, excludePaths, f4, d4)
    ensures Mirrored(src, f4, d4, srcDir, destDir, excludePaths)
  {
    assert !Pruned(src, srcDir, destDir, f2, d1, destDir);
    assert !InMirroredBranch(src, srcDir, destDir, excludePaths, destDir);
    LevelCopiesFiles(src, srcDir, destDir, excludePaths, f1, d1, f2, f3, d3, f4, d4);
    LevelLeavesNoStrayFile(src, srcDir, destDir, excludePaths, f1, d1, f2, f3, d3, f4, d4);
    LevelLeavesNoStrayDir(src, srcDir, destDir, excludePaths, f1, d1, f2, f3, d3, f4, d4);
  }

  // Steps one to three of a level (directory creation, copying, pruning)
  // spare what lies under the destination of a source subdirectory, except a
  // file standing where that directory belongs.
  lemma FirstStepsSpare(src: Tree, srcDir: Path, destDir: Path, excludePaths: seq<string>,
                        f0: Files, d0: Dirs, d1: Dirs, f2: Files, f3: Files, d3: Dirs, n: string, p: Path)
    requires WellFormed(src.files, src.dirs)
    requires d0 <= d1 && forall q :: q in d1 && q !in d0 ==> IsPrefix(q, destDir)
    requires SyncFrame(src, srcDir, destDir, excludePaths, f0, f2)
    requires PruneFrame(src, srcDir, destDir, f2, d1, f3, d3)
    requires Child(srcDir, n) in src.dirs
    requires IsPrefix(Child(destDir, n), p)
    requires p == Child(destDir, n) ==> p !in f0
    ensures SameEntry(f0, d0, f3, d3, p)
  {
    ChildPrefix(destDir, n, p);
    assert p[..|destDir| + 1] == Child(destDir, n);
    if p in d1 && p !in d0 {
      assert false;
    }
    if IsChildOf(p, destDir) {
      ChildShape(p, destDir);
      assert p == Child(destDir, n);
    }
    assert !SyncTarget(src, srcDir, destDir, excludePaths, p);
    assert !Pruned(src, srcDir, destDir, f2, d1, p);
  }

  // The copy of an excluded file survives a level untouched.
  lemma LevelKeepsExcludedFiles(src: Tree, srcDir: Path, destDir: Path, excludePaths: seq<string>,
                  f0: Files, d0: Dirs, d1: Dirs, f2: Files, f3: Files, d3: Dirs, f4: Files, d4: Dirs)
    requires WellFormed(src.files, src.dirs) && WellFormed(f2, d1)
    requires d0 <= d1 && forall q :: q in d1 && q !in d0 ==> IsPrefix(q, destDir)
    requires SyncFrame(src, srcDir, destDir, excludePaths, f0, f2)
    requires PruneFrame(src, srcDir, destDir, f2, d1, f3, d3)
    requires BranchFrame(src, srcDir, destDir, excludePaths, f3, d3, f4, d4)
    ensures forall f :: f in src.files && IsChildOf(f, srcDir) && FileExcluded(f, excludePaths) ==>
              SameFile(f0, f4, Child(destDir, Last(f)))
  {
    forall f | f in src.files && IsChildOf(f, srcDir) && FileExcluded(f, excludePaths)
      ensures SameFile(f0, f4, Child(destDir, Last(f)))
    {
      var c := Child(destDir, Last(f));
      ChildShape(c, destDir);
      ChildOfParent(f);
      assert !SyncTarget(src, srcDir, destDir, excludePaths, c);
      if c in f2 {
        assert !Pruned(src, srcDir, destDir, f2, d1, c);
      }
      assert !InMirroredBranch(src, srcDir, destDir, excludePaths, c);
    }
  }

  // The destination subtree of an excluded directory survives a level whole.
  lemma LevelKeepsExcludedDirs(src: Tree, srcDir: Path, destDir: Path, excludePaths: seq<string>,
                  f0: Files, d0: Dirs, d1: Dirs, f2: Files, f3: Files, d3: Dirs, f4: Files, d4: Dirs)
    requires WellFormed(src.files, src.dirs) && WellFormed(f2, d1)
    requires d0 <= d1 && forall q :: q in d1 && q !in d0 ==> IsPrefix(q, destDir)
    requires SyncFrame(src, srcDir, destDir, excludePaths, f0, f2)
    requires PruneFrame(src, srcDir, destDir, f2, d1, f3, d3)
    requires BranchFrame(src, srcDir, destDir, excludePaths, f3, d3, f4, d4)
    ensures forall s :: s in src.dirs && IsChildOf(s, srcDir) && DirExcluded(s, excludePaths) && Child(destDir, Last(s)) !in f0 ==>
              SameUnder(f0, d0, f4, d4, Child(destDir, Last(s)))
  {
    forall s | s in src.dirs && IsChildOf(s, srcDir) && DirExcluded(s, excludePaths) && Child(destDir, Last(s)) !in f0
      ensures SameUnder(f0, d0, f4, d4, Child(destDir, Last(s)))
    {
      var c := Child(destDir, Last(s));
      ChildOfParent(s);
      forall p | IsPrefix(c, p)
        ensures SameEntry(f0, d0, f4, d4, p)
      {
        FirstStepsSpare(src, srcDir, destDir, excludePaths, f0, d0, d1, f2, f3, d3, Last(s), p);
        ChildPrefix(destDir, Last(s), p);
        assert !InMirroredBranch(src, srcDir, destDir, excludePaths, p);
      }
    }
  }

  // The guarantee of a mirrored subdirectory, stated against the volume the
  // subdirectory loop started from, holds against the volume the level
  // started from.
  lemma LevelKeepsSubdirs(src: Tree, srcDir: Path, destDir: Path, excludePaths: seq<string>,
                  f0: Files, d0: Dirs, d1: Dirs, f2: Files, f3: Files, d3: Dirs, f4: Files, d4: Dirs)
    requires WellFormed(src.files, src.dirs) && WellFormed(f2, d1)
    requires d0 <= d1 && forall q :: q in d1 && q !in d0 ==> IsPrefix(q, destDir)
    requires SyncFrame(src, srcDir, destDir, excludePaths, f0, f2)
    requires PruneFrame(src, srcDir, destDir, f2, d1, f3, d3)
    requires BranchFrame(src, srcDir, destDir, excludePaths, f3, d3, f4, d4)
    requires SubdirsKept(src, srcDir, destDir, excludePaths, f3, d3, f4, d4)
    ensures forall s :: s in src.dirs && IsChildOf(s, srcDir) && !DirExcluded(s, excludePaths) ==>
              ExclusionsKept(src, f0, d0, f4, d4, s, Child(destDir, Last(s)), excludePaths)
  {
    forall s | s in src.dirs && IsChildOf(s, srcDir) && !DirExcluded(s, excludePaths)
      ensures ExclusionsKept(src, f0, d0, f4, d4, s, Child(destDir, Last(s)), excludePaths)
    {
      var c := Child(destDir, Last(s));
      ChildOfParent(s);
      forall p | IsPrefix(c, p) && p != c
        ensures SameEntry(f3, d3, f0, d0, p)
      {
        FirstStepsSpare(src, srcDir, destDir, excludePaths, f0, d0, d1, f2, f3, d3, Last(s), p);
      }
      ExclusionsKeptFrame(src, f3, d3, f4, d4, f0, d0, f4, d4, s, c, excludePaths);
    }
  }

  // One level of BackupDirectoryRecursively keeps the exclusion guarantee
  // between the volume it started from (f0, d0) and the one it leaves (f4, d4).
  lemma LevelKept(src: Tree, srcDir: Path, destDir: Path, excludePaths: seq<string>,
                  f0: Files, d0: Dirs, d1: Dirs, f2: Files, f3: Files, d3: Dirs, f4: Files, d4: Dirs)
    requires WellFormed(src.files, src.dirs) && WellFormed(f2, d1)
    requires d0 <= d1 && forall q :: q in d1 && q !in d0 ==> IsPrefix(q, destDir)
    requires SyncFrame(src, srcDir, destDir, excludePaths, f0, f2)
    requires PruneFrame(src, srcDir, destDir, f2, d1, f3, d3)
    requires BranchFrame(src, srcDir, destDir, excludePaths, f3, d3, f4, d4)
    requires SubdirsKept(src, srcDir, destDir, excludePaths, f3, d3, f4, d4)
    ensures ExclusionsKept(src, f0, d0, f4, d4, srcDir, destDir, excludePaths)
  {
    LevelKeepsExcludedFiles(src, srcDir, destDir, excludePaths, f0, d0, d1, f2, f3, d3, f4, d4);
    LevelKeepsExcludedDirs(src, srcDir, destDir, excludePaths, f0, d0, d1, f2, f3, d3, f4, d4);
    LevelKeepsSubdirs(src, srcDir, destDir, excludePaths, f0, d0, d1, f2, f3, d3, f4, d4);
  }

  // ---------------------------------------------------------------------
  // How a mirror run can fail.

  // `p` is a destination directory standing where the copy of a
  // non-excluded source file reached from `srcDir` belongs, so copying that
  // file onto it fails.
  ghost predicate CopyBlockedAt(src: Tree, srcDir: Path, destDir: Path, excludePaths: seq<string>, dirs: Dirs, p: Path) {
    && |destDir| < |p| && IsPrefix(destDir, p) && p in dirs
    && srcDir + p[|destDir|..] in src.files
    && Reachable(srcDir, srcDir + p[|destDir|..], excludePaths)
    && !FileExcluded(srcDir + p[|destDir|..], excludePaths)
  }

  // The failures a mirror of `srcDir` into `destDir` can meet, judged on the
  // volume it starts from: a file in the way of the destination directory,
  // or a directory in the way of a copy.
  ghost predicate MirrorFailure(src: Tree, srcDir: Path, destDir: Path, excludePaths: seq<string>,
                                files: Files, dirs: Dirs, e: FsError) {
    || (e == NotADirectory(destDir) && destDir !in dirs && BlockedByFile(files, destDir))
    || (e.IsADirectory? && CopyBlockedAt(src, srcDir, destDir, excludePaths, dirs, e.path))
  }

  // A directory where the copy of a file directly in `srcDir` belongs.
  lemma ChildCopyBlocked(src: Tree, srcDir: Path, destDir: Path, excludePaths: seq<string>, dirs: Dirs, f: Path)
    requires f in src.files && IsChildOf(f, srcDir) && !FileExcluded(f, excludePaths)
    requires Child(destDir, Last(f)) in dirs
    ensures CopyBlockedAt(src, srcDir, destDir, excludePaths, dirs, Child(destDir, Last(f)))
  {
    var p := Child(destDir, Last(f));
    ChildShape(p, destDir);
    ChildShape(f, srcDir);
    assert p[|destDir|..] == [Last(f)];
  }

  // A blocked copy in the branch of a non-excluded subdirectory is a blocked
  // copy of the parent level.
  lemma CopyBlockedInBranch(src: Tree, srcDir: Path, destDir: Path, excludePaths: seq<string>,
                            s: Path, dirs: Dirs, p: Path)
    requires IsChildOf(s, srcDir) && !DirExcluded(s, excludePaths)
    requires CopyBlockedAt(src, s, Child(destDir, Last(s)), excludePaths, dirs, p)
    ensures CopyBlockedAt(src, srcDir, destDir, excludePaths, dirs, p)
  {
    var c := Child(destDir, Last(s));
    ChildShape(s, srcDir);
    ChildShape(c, destDir);
    PrefixTransitive(destDir, c, p);
    assert p[|destDir|] == c[|destDir|] by {
      assert p[..|c|] == c;
    }
    ChildThenRest(srcDir, p, |destDir|);
    var f := srcDir + p[|destDir|..];
    assert f == s + p[|c|..];
    assert f[..|srcDir|] == srcDir;
    forall k | |srcDir| < k < |f|
      ensures !DirExcluded(f[..k], excludePaths)
    {
      if k == |s| {
        assert f[..k] == s;
      }
    }
  }

  // A file standing where the destination of a source subdirectory belongs
  // is stale, so pruning removes it.
  lemma PrunedBranchesFree(src: Tree, srcDir: Path, destDir: Path, f2: Files, d1: Dirs, f3: Files, d3: Dirs)
    requires WellFormed(src.files, src.dirs)
    requires PruneFrame(src, srcDir, destDir, f2, d1, f3, d3) && PruneDone(src, srcDir, destDir, f2, d1, f3, d3)
    ensures forall s :: s in src.dirs && IsChildOf(s, srcDir) ==> Child(destDir, Last(s)) !in f3
  {
    forall s | s in src.dirs && IsChildOf(s, srcDir)
      ensures Child(destDir, Last(s)) !in f3
    {
      var c := Child(destDir, Last(s));
      ChildShape(s, srcDir);
      ChildShape(c, destDir);
      assert Child(srcDir, Last(c)) == s && s !in src.files;
      assert c in f2 ==> Pruned(src, srcDir, destDir, f2, d1, c);
    }
  }

  // Once the copies of a level are synced, no directory stands where one of
  // them belongs.
  lemma SyncedLeavesNoBlockedChild(src: Tree, srcDir: Path, destDir: Path, excludePaths: seq<string>,
                                   f0: Files, f1: Files, dirs: Dirs)
    requires WellFormed(f1, dirs)
    requires FilesSynced(src, srcDir, destDir, excludePaths, f0, f1)
    ensures forall p :: IsChildOf(p, destDir) ==> !CopyBlockedAt(src, srcDir, destDir, excludePaths, dirs, p)
  {
    forall p | IsChildOf(p, destDir)
      ensures !CopyBlockedAt(src, srcDir, destDir, excludePaths, dirs, p)
    {
      ChildShape(p, destDir);
      var f := srcDir + p[|destDir|..];
      assert p[|destDir|..] == [Last(p)];
      assert f == Child(srcDir, Last(p));
      assert IsChildOf(f, srcDir) && Child(destDir, Last(f)) == p;
      assert CopyBlockedAt(src, srcDir, destDir, excludePaths, dirs, p) ==> p in f1;
    }
  }
}
