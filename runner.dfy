// The backup run: every backup location of a profile is mirrored into its
// destination directory. New and newer source files are copied, destination
// entries that no longer exist at the source are removed, excluded entries are
// skipped, and a dry run only reports what it would do.
module Runner {
  import opened Wrappers
  import opened Exclusion
  import opened Paths
  import opened FileSystems
  import opened Failures
  import opened MirrorSpec

  // A source path (file or directory), the directory it is mirrored into,
  // and the exclude patterns that apply below it.
  datatype BackupLocation = BackupLocation(path: Path, destination: Path, excludePaths: seq<string>)

  datatype BackupProfile = BackupProfile(name: string, backupLocations: seq<BackupLocation>, dryRun: bool)

  // The closing message of a run that did not fail.
  datatype RunOutcome = DryRunFinished | NothingUpdated | SomethingUpdated

  // Keys of the localized messages a failed run carries.
  const StopBecauseOfError: string := "StopBecauseOfError"
  const ErrorMessageTitle: string := "ErrorMessage"

  // The copy step shared by both kinds of backup location: a destination
  // file that does not exist is added, one that is older than the source is
  // overwritten (its read-only attribute cleared first), and one that is at
  // least as new is left alone. `shown` is the path the report line carries.
  method UpdateIfNewer(fs: FileSystem, source: FileRec, destOfFile: Path, shown: string, dryRun: bool)
    returns (changed: bool, err: Option<FsError>)
    requires fs.Valid() && destOfFile != []
    requires !dryRun ==> Parent(destOfFile) in fs.dirs
    modifies fs
    ensures fs.Valid()
    ensures fs.dirs == old(fs.dirs) && fs.created == old(fs.created)
    ensures changed <==> destOfFile !in old(fs.files) || source.mtime > old(fs.files)[destOfFile].mtime
    ensures fs.reports == old(fs.reports) + (if !changed then []
                                             else if destOfFile !in old(fs.files) then [Added(shown)]
                                             else [Updated(shown)])
    ensures err.Some? <==> !dryRun && changed && destOfFile in old(fs.dirs)
    ensures err.Some? ==> err.value == IsADirectory(destOfFile)
    ensures dryRun || !changed || err.Some? ==> fs.files == old(fs.files)
    ensures !dryRun && changed && err.None? ==> fs.files == old(fs.files)[destOfFile := source]
  {
    err := None;
    if destOfFile !in fs.files {
      fs.Write(Added(shown));
      if !dryRun {
        err := fs.CopyFile(source, destOfFile);
      }
      changed := true;
      return;
    }
    if source.mtime > fs.files[destOfFile].mtime {
      fs.Write(Updated(shown));
      if destOfFile in fs.files && !dryRun {
        if fs.files[destOfFile].readOnly {
          fs.SetWritable(destOfFile);
        }
      }
      if !dryRun {
        err := fs.CopyFile(source, destOfFile);
      }
      changed := true;
      return;
    }
    changed := false;
  }

  // One source file of a mirrored directory: its copy goes into `destDir`
  // under the same name, and the report shows the path below the location.
  method BackupFileIfNewer(fs: FileSystem, src: Tree, location: BackupLocation, srcFile: Path, destDir: Path, dryRun: bool)
    returns (changed: bool, err: Option<FsError>)
    requires fs.Valid() && srcFile in src.files && srcFile != [] && IsPrefix(location.path, srcFile)
    requires !dryRun ==> destDir in fs.dirs
    modifies fs
    ensures fs.Valid()
    ensures fs.dirs == old(fs.dirs) && fs.created == old(fs.created)
    ensures changed <==> Child(destDir, Last(srcFile)) !in old(fs.files)
                         || src.files[srcFile].mtime > old(fs.files)[Child(destDir, Last(srcFile))].mtime
    ensures fs.reports == old(fs.reports) + (if !changed then []
                                             else if Child(destDir, Last(srcFile)) !in old(fs.files)
                                             then [Added(Relative(location.path, srcFile))]
                                             else [Updated(Relative(location.path, srcFile))])
    ensures err.Some? <==> !dryRun && changed && Child(destDir, Last(srcFile)) in old(fs.dirs)
    ensures dryRun || err.Some? ==> fs.files == old(fs.files)
    ensures forall p :: p != Child(destDir, Last(srcFile)) ==> SameFile(old(fs.files), fs.files, p)
    ensures !dryRun && err.None? ==> Synced(old(fs.files), fs.files, src.files[srcFile], Child(destDir, Last(srcFile)))
    ensures err.Some? ==> err.value == IsADirectory(Child(destDir, Last(srcFile)))
  {
    var shown := Relative(location.path, srcFile);
    var destOfFile := Child(destDir, Last(srcFile));
    changed, err := UpdateIfNewer(fs, src.files[srcFile], destOfFile, shown, dryRun);
  }

  // The first half of DeleteDirectoryRecursively on a real run: every file
  // directly in `destDir` is made writable and deleted.
  method DeleteFilesIn(fs: FileSystem, destDir: Path)
    requires fs.Valid()
    modifies fs
    ensures fs.Valid()
    ensures fs.dirs == old(fs.dirs) && fs.reports == old(fs.reports) && fs.created == old(fs.created)
    ensures forall p :: p in fs.files <==> p in old(fs.files) && !IsChildOf(p, destDir)
    ensures forall p :: p in fs.files ==> fs.files[p] == old(fs.files)[p]
  {
    var pending := set p | p in fs.files && IsChildOf(p, destDir);
    ghost var all := pending;
    while pending != {}
      invariant pending <= all
      invariant fs.Valid() && fs.dirs == old(fs.dirs)
      invariant fs.reports == old(fs.reports) && fs.created == old(fs.created)
      invariant forall p :: p in pending ==> p in fs.files
      invariant forall p :: p in fs.files <==> p in old(fs.files) && !(p in all && p !in pending)
      invariant forall p :: p in fs.files ==> fs.files[p] == old(fs.files)[p]
      decreases pending
    {
      var file :| file in pending;
      fs.SetWritable(file);
      var e := fs.DeleteFile(file);
      pending := pending - {file};
    }
  }

  // Once the files of `destDir` are gone and the subtree of every
  // subdirectory is gone, nothing is left in `destDir`.
  lemma NothingLeftIn(files0: Files, dirs0: Dirs, files1: Files, files: Files, dirs: Dirs,
                      destDir: Path, names: set<string>)
    requires WellFormed(files0, dirs0)
    requires forall p :: p in files1 <==> p in files0 && !IsChildOf(p, destDir)
    requires forall q :: q in dirs0 && IsChildOf(q, destDir) ==> Last(q) in names
    requires forall p :: p in files <==> p in files1 && !InBranches(destDir, names, p)
    requires forall p :: p in dirs <==> p in dirs0 && !InBranches(destDir, names, p)
    ensures forall p :: IsPrefix(destDir, p) && p != destDir ==> p !in files && p !in dirs
  {
    forall p | IsPrefix(destDir, p) && p != destDir
      ensures p !in files && p !in dirs
    {
      var c := p[..|destDir| + 1];
      assert IsChildOf(c, destDir);
      if p in files0 || p in dirs0 {
        if c != p {
          AncestorIsDirectory(files0, dirs0, p, c);
          assert c in dirs0;
          assert p[|destDir|] == Last(c);
        } else if p in dirs0 {
          assert p[|destDir|] == Last(c);
        }
      }
    }
  }

  lemma SubtreeShrinks(dirs: Dirs, dirs0: Dirs, destDir: Path, subDir: Path)
    requires dirs <= dirs0 && destDir in dirs0 && IsChildOf(subDir, destDir)
    ensures Subtree(dirs, subDir) < Subtree(dirs0, destDir)
  {
    ChildShape(subDir, destDir);
    forall q | q in Subtree(dirs, subDir)
      ensures q in Subtree(dirs0, destDir)
    {
      PrefixTransitive(destDir, subDir, q);
    }
    assert destDir in Subtree(dirs0, destDir);
  }

  // Removing the subtree of one more subdirectory extends the removed branches by its name.
  lemma BranchRemoved(files1: Files, dirs0: Dirs, filesB: Files, dirsB: Dirs, files: Files, dirs: Dirs,
                      destDir: Path, names: set<string>, subDir: Path)
    requires IsChildOf(subDir, destDir)
    requires forall p :: p in filesB <==> p in files1 && !InBranches(destDir, names, p)
    requires forall p :: p in dirsB <==> p in dirs0 && !InBranches(destDir, names, p)
    requires forall p :: p in files <==> p in filesB && !IsPrefix(subDir, p)
    requires forall p :: p in dirs <==> p in dirsB && !IsPrefix(subDir, p)
    ensures forall p :: p in files <==> p in files1 && !InBranches(destDir, names + {Last(subDir)}, p)
    ensures forall p :: p in dirs <==> p in dirs0 && !InBranches(destDir, names + {Last(subDir)}, p)
  {
    ChildShape(subDir, destDir);
    forall p
      ensures IsPrefix(subDir, p) <==> |destDir| < |p| && IsPrefix(destDir, p) && p[|destDir|] == Last(subDir)
    {
      ChildPrefix(destDir, Last(subDir), p);
    }
  }

  // The invariant of the subdirectory loop of DeleteDirectoryRecursively:
  // the subtrees of the subdirectories named in `names` are gone (on a real
  // run), and nothing else has changed since the files of `destDir` went.
  ghost predicate ClearedSoFar(destDir: Path, all: set<Path>, subDirs: set<Path>, names: set<string>,
                               files0: Files, dirs0: Dirs, files1: Files, files: Files, dirs: Dirs, dryRun: bool)
  {
    && subDirs <= all
    && (forall q :: q in all ==> IsChildOf(q, destDir))
    && dirs <= dirs0 && destDir in dirs
    && (dryRun ==> files == files0 && dirs == dirs0)
    && (forall p :: p in files ==> p in files0 && files[p] == files0[p])
    && (forall q :: q in subDirs ==> q in dirs && Last(q) !in names)
    && (forall q :: q in all && q !in subDirs ==> Last(q) in names)
    && (!dryRun ==> forall p :: p in files <==> p in files1 && !InBranches(destDir, names, p))
    && (!dryRun ==> forall p :: p in dirs <==> p in dirs0 && !InBranches(destDir, names, p))
  }

  lemma ClearStart(destDir: Path, all: set<Path>, files0: Files, dirs0: Dirs, files1: Files, dirs1: Dirs, dryRun: bool)
    requires destDir in dirs0 && dirs1 == dirs0
    requires all == set q | q in dirs1 && IsChildOf(q, destDir)
    requires dryRun ==> files1 == files0
    requires forall p :: p in files1 ==> p in files0 && files1[p] == files0[p]
    ensures ClearedSoFar(destDir, all, all, {}, files0, dirs0, files1, files1, dirs1, dryRun)
  {
  }

  lemma ClearStep(destDir: Path, all: set<Path>, subDirs: set<Path>, names: set<string>,
                  files0: Files, dirs0: Dirs, files1: Files, filesB: Files, dirsB: Dirs, files: Files, dirs: Dirs,
                  subDir: Path, dryRun: bool)
    requires ClearedSoFar(destDir, all, subDirs, names, files0, dirs0, files1, filesB, dirsB, dryRun)
    requires subDir in subDirs
    requires dryRun ==> files == filesB && dirs == dirsB
    requires !dryRun ==> forall p :: p in files <==> p in filesB && !IsPrefix(subDir, p)
    requires !dryRun ==> forall p :: p in dirs <==> p in dirsB && !IsPrefix(subDir, p)
    requires forall p :: p in files ==> p in filesB && files[p] == filesB[p]
    ensures ClearedSoFar(destDir, all, subDirs - {subDir}, names + {Last(subDir)}, files0, dirs0, files1, files, dirs, dryRun)
  {
    if !dryRun {
      BranchRemoved(files1, dirs0, filesB, dirsB, files, dirs, destDir, names, subDir);
      ChildShape(subDir, destDir);
      assert !IsPrefix(subDir, destDir);
    }
    forall q | q in subDirs - {subDir}
      ensures q in dirs && Last(q) != Last(subDir)
    {
      ChildShape(q, destDir);
      ChildShape(subDir, destDir);
      ChildPrefix(destDir, Last(subDir), q);
    }
  }

  // Once every subdirectory is handled on a real run, only `destDir` itself
  // is left of its subtree.
  lemma ClearDone(destDir: Path, all: set<Path>, names: set<string>,
                  files0: Files, dirs0: Dirs, files1: Files, files: Files, dirs: Dirs)
    requires WellFormed(files0, dirs0)
    requires ClearedSoFar(destDir, all, {}, names, files0, dirs0, files1, files, dirs, false)
    requires all == set q | q in dirs0 && IsChildOf(q, destDir)
    requires forall p :: p in files1 <==> p in files0 && !IsChildOf(p, destDir)
    ensures forall p :: IsPrefix(destDir, p) && p != destDir ==> p !in files && p !in dirs
    ensures forall p :: p in files <==> p in files0 && !IsPrefix(destDir, p)
    ensures forall p :: p in dirs <==> p in dirs0 && (p == destDir || !IsPrefix(destDir, p))
  {
    NothingLeftIn(files0, dirs0, files1, files, dirs, destDir, names);
    forall p | !IsPrefix(destDir, p)
      ensures !InBranches(destDir, names, p) && !IsChildOf(p, destDir)
    {
      if IsChildOf(p, destDir) {
        ChildShape(p, destDir);
      }
    }
  }

  // DeleteDirectoryRecursively: clears and removes a destination directory
  // and everything below it; a dry run walks the tree and changes nothing.
  method DeleteDirectoryRecursively(fs: FileSystem, destDir: Path, dryRun: bool)
    requires fs.Valid() && destDir in fs.dirs && destDir != []
    modifies fs
    decreases Subtree(fs.dirs, destDir)
    ensures fs.Valid()
    ensures fs.reports == old(fs.reports) && fs.created == old(fs.created)
    ensures dryRun ==> fs.files == old(fs.files) && fs.dirs == old(fs.dirs)
    ensures !dryRun ==> forall p :: p in fs.files <==> p in old(fs.files) && !IsPrefix(destDir, p)
    ensures !dryRun ==> forall p :: p in fs.dirs <==> p in old(fs.dirs) && !IsPrefix(destDir, p)
    ensures forall p :: p in fs.files ==> p in old(fs.files) && fs.files[p] == old(fs.files)[p]
  {
    ghost var files0, dirs0 := fs.files, fs.dirs;
    if !dryRun {
      DeleteFilesIn(fs, destDir);
    }
    ghost var files1 := fs.files;
    var subDirs := set q | q in fs.dirs && IsChildOf(q, destDir);
    ghost var all := subDirs;
    ghost var names: set<string> := {};
    ClearStart(destDir, all, files0, dirs0, files1, fs.dirs, dryRun);
    while subDirs != {}
      invariant fs.Valid()
      invariant fs.reports == old(fs.reports) && fs.created == old(fs.created)
      invariant ClearedSoFar(destDir, all, subDirs, names, files0, dirs0, files1, fs.files, fs.dirs, dryRun)
      decreases subDirs
    {
      var subDir :| subDir in subDirs;
      SubtreeShrinks(fs.dirs, dirs0, destDir, subDir);
      ghost var filesB, dirsB := fs.files, fs.dirs;
      DeleteDirectoryRecursively(fs, subDir, dryRun);
      ClearStep(destDir, all, subDirs, names, files0, dirs0, files1, filesB, dirsB, fs.files, fs.dirs, subDir, dryRun);
      names := names + {Last(subDir)};
      subDirs := subDirs - {subDir};
    }
    if !dryRun {
      ClearDone(destDir, all, names, files0, dirs0, files1, fs.files, fs.dirs);
      var e := fs.DeleteEmptyDirectory(destDir);
    }
  }

  // The invariant of the copy loop: copies of the source files already
  // handled (those not `pending`) are synced, and nothing else was written.
  ghost predicate CopiedSoFar(src: Tree, srcDir: Path, destDir: Path, excludePaths: seq<string>,
                              pending: set<Path>, files0: Files, files: Files, dryRun: bool)
  {
    && (forall p :: !(SyncTarget(src, srcDir, destDir, excludePaths, p) && Child(srcDir, Last(p)) !in pending) ==>
          SameFile(files0, files, p))
    && (!dryRun ==> forall f :: f in src.files && IsChildOf(f, srcDir) && f !in pending && !FileExcluded(f, excludePaths) ==>
          Synced(files0, files, src.files[f], Child(destDir, Last(f))))
  }

  lemma CopyStep(src: Tree, srcDir: Path, destDir: Path, excludePaths: seq<string>,
                 pending: set<Path>, files0: Files, before: Files, after: Files, srcFile: Path, dryRun: bool)
    requires CopiedSoFar(src, srcDir, destDir, excludePaths, pending, files0, before, dryRun)
    requires srcFile in pending && srcFile in src.files && IsChildOf(srcFile, srcDir)
    requires !FileExcluded(srcFile, excludePaths) ==>
               (forall p :: p != Child(destDir, Last(srcFile)) ==> SameFile(before, after, p))
               && (!dryRun ==> Synced(before, after, src.files[srcFile], Child(destDir, Last(srcFile))))
    requires FileExcluded(srcFile, excludePaths) || dryRun ==> after == before
    ensures CopiedSoFar(src, srcDir, destDir, excludePaths, pending - {srcFile}, files0, after, dryRun)
  {
    var t := Child(destDir, Last(srcFile));
    ChildShape(srcFile, srcDir);
    ChildShape(t, destDir);
    if !FileExcluded(srcFile, excludePaths) {
      forall p | !(SyncTarget(src, srcDir, destDir, excludePaths, p) && Child(srcDir, Last(p)) !in pending - {srcFile})
        ensures SameFile(files0, after, p)
      {
        if p != t {
          assert SameFile(before, after, p);
        }
      }
      if !dryRun {
        forall f | f in src.files && IsChildOf(f, srcDir) && f !in pending - {srcFile} && !FileExcluded(f, excludePaths)
          ensures Synced(files0, after, src.files[f], Child(destDir, Last(f)))
        {
          ChildShape(f, srcDir);
          if f != srcFile {
            assert SameFile(before, after, Child(destDir, Last(f)));
          } else {
            assert SameFile(files0, before, t);
          }
        }
      }
    } else {
      forall p | !(SyncTarget(src, srcDir, destDir, excludePaths, p) && Child(srcDir, Last(p)) !in pending - {srcFile})
        ensures SameFile(files0, after, p)
      {
        if IsChildOf(p, destDir) {
          ChildShape(p, destDir);
        }
      }
    }
  }

  // A non-excluded source file of `srcDir` whose copy in `destDir` is
  // missing or older than the source: a file the copy loop adds or updates.
  ghost predicate NeedsCopy(src: Tree, srcDir: Path, destDir: Path, excludePaths: seq<string>, files: Files, f: Path) {
    && f in src.files && IsChildOf(f, srcDir) && !FileExcluded(f, excludePaths)
    && (Child(destDir, Last(f)) !in files || src.files[f].mtime > files[Child(destDir, Last(f))].mtime)
  }

  ghost predicate HasCopy(src: Tree, srcDir: Path, destDir: Path, excludePaths: seq<string>, files: Files) {
    exists f :: NeedsCopy(src, srcDir, destDir, excludePaths, files, f)
  }

  // The report line for copying `f`: Added when its copy is missing,
  // Updated otherwise, with the path shown below the location.
  ghost function CopyReport(location: Path, srcDir: Path, destDir: Path, files: Files, f: Path): Report
    requires f != [] && IsPrefix(location, srcDir)
  {
    PrefixOfChild(location, srcDir, Last(f));
    var shown := Relative(location, Child(srcDir, Last(f)));
    if Child(destDir, Last(f)) !in files then Added(shown) else Updated(shown)
  }

  // The lines the copy loop writes for one directory, judged on the volume
  // it starts from; a dry run writes the same lines as a real one.
  ghost function CopyReports(src: Tree, location: Path, srcDir: Path, destDir: Path, excludePaths: seq<string>,
                             files: Files): set<Report>
    requires IsPrefix(location, srcDir)
  {
    set f | f in src.files && NeedsCopy(src, srcDir, destDir, excludePaths, files, f)
      :: CopyReport(location, srcDir, destDir, files, f)
  }

  lemma CopyReportsNonEmpty(src: Tree, location: Path, srcDir: Path, destDir: Path, excludePaths: seq<string>, files: Files)
    requires IsPrefix(location, srcDir)
    ensures CopyReports(src, location, srcDir, destDir, excludePaths, files) != {}
            <==> HasCopy(src, srcDir, destDir, excludePaths, files)
  {
    if HasCopy(src, srcDir, destDir, excludePaths, files) {
      var f :| NeedsCopy(src, srcDir, destDir, excludePaths, files, f);
      assert CopyReport(location, srcDir, destDir, files, f) in CopyReports(src, location, srcDir, destDir, excludePaths, files);
    }
  }

  // The lines written for the files already handled (those not `pending`).
  ghost function HandledReports(src: Tree, location: Path, srcDir: Path, destDir: Path, excludePaths: seq<string>,
                                pending: set<Path>, files0: Files): set<Report>
    requires IsPrefix(location, srcDir)
  {
    set f | f in src.files && f !in pending && NeedsCopy(src, srcDir, destDir, excludePaths, files0, f)
      :: CopyReport(location, srcDir, destDir, files0, f)
  }

  lemma HandledReportsStep(src: Tree, location: Path, srcDir: Path, destDir: Path, excludePaths: seq<string>,
                           pending: set<Path>, files0: Files, x: Path)
    requires IsPrefix(location, srcDir) && x in pending && x in src.files
    ensures HandledReports(src, location, srcDir, destDir, excludePaths, pending - {x}, files0)
            == HandledReports(src, location, srcDir, destDir, excludePaths, pending, files0)
               + (if NeedsCopy(src, srcDir, destDir, excludePaths, files0, x)
                  then {CopyReport(location, srcDir, destDir, files0, x)} else {})
  {
  }

  // The report part of the copy loop's invariant.
  ghost predicate ReportedSoFar(src: Tree, location: Path, srcDir: Path, destDir: Path, excludePaths: seq<string>,
                                pending: set<Path>, files0: Files, reports0: seq<Report>, reports: seq<Report>)
    requires IsPrefix(location, srcDir)
  {
    && |reports0| <= |reports|
    && NewReports(reports0, reports) == HandledReports(src, location, srcDir, destDir, excludePaths, pending, files0)
  }

  lemma ReportedStart(src: Tree, location: Path, srcDir: Path, destDir: Path, excludePaths: seq<string>,
                      pending: set<Path>, files0: Files, reports0: seq<Report>)
    requires IsPrefix(location, srcDir)
    requires pending == set f | f in src.files && IsChildOf(f, srcDir)
    ensures ReportedSoFar(src, location, srcDir, destDir, excludePaths, pending, files0, reports0, reports0)
  {
    assert reports0[|reports0|..] == [];
  }

  lemma ReportedDone(src: Tree, location: Path, srcDir: Path, destDir: Path, excludePaths: seq<string>,
                     files0: Files, reports0: seq<Report>, reports: seq<Report>)
    requires IsPrefix(location, srcDir)
    requires ReportedSoFar(src, location, srcDir, destDir, excludePaths, {}, files0, reports0, reports)
    ensures NewReports(reports0, reports) == CopyReports(src, location, srcDir, destDir, excludePaths, files0)
  {
  }

  // The line one pass of the copy loop writes for `srcFile` is its copy
  // report, and it writes one exactly when the file needs a copy.
  lemma CopyReportMatches(src: Tree, location: Path, srcDir: Path, destDir: Path, excludePaths: seq<string>,
                          files0: Files, before: Files, srcFile: Path)
    requires IsPrefix(location, srcDir) && srcFile in src.files && IsChildOf(srcFile, srcDir)
    requires SameFile(files0, before, Child(destDir, Last(srcFile)))
    ensures var t := Child(destDir, Last(srcFile));
            && (NeedsCopy(src, srcDir, destDir, excludePaths, files0, srcFile)
                <==> !FileExcluded(srcFile, excludePaths) && (t !in before || src.files[srcFile].mtime > before[t].mtime))
            && CopyReport(location, srcDir, destDir, files0, srcFile)
               == (if t !in before then Added(Relative(location, srcFile)) else Updated(Relative(location, srcFile)))
  {
    ChildShape(srcFile, srcDir);
  }

  // One pass of the copy loop keeps the report invariant.
  lemma CopyReportStep(src: Tree, location: Path, srcDir: Path, destDir: Path, excludePaths: seq<string>,
                       pending: set<Path>, files0: Files, before: Files, reports0: seq<Report>,
                       reportsB: seq<Report>, reports: seq<Report>, srcFile: Path, saved: bool)
    requires IsPrefix(location, srcDir)
    requires ReportedSoFar(src, location, srcDir, destDir, excludePaths, pending, files0, reports0, reportsB)
    requires srcFile in pending && srcFile in src.files && IsChildOf(srcFile, srcDir)
    requires SameFile(files0, before, Child(destDir, Last(srcFile)))
    requires FileExcluded(srcFile, excludePaths) ==> reports == reportsB && !saved
    requires !FileExcluded(srcFile, excludePaths) ==>
               var t := Child(destDir, Last(srcFile));
               && (saved <==> t !in before || src.files[srcFile].mtime > before[t].mtime)
               && reports == reportsB + (if !saved then []
                                         else if t !in before then [Added(Relative(location, srcFile))]
                                         else [Updated(Relative(location, srcFile))])
    ensures ReportedSoFar(src, location, srcDir, destDir, excludePaths, pending - {srcFile}, files0, reports0, reports)
  {
    CopyReportMatches(src, location, srcDir, destDir, excludePaths, files0, before, srcFile);
    HandledReportsStep(src, location, srcDir, destDir, excludePaths, pending, files0, srcFile);
    assert NeedsCopy(src, srcDir, destDir, excludePaths, files0, srcFile) <==> saved;
    if saved {
      var r := CopyReport(location, srcDir, destDir, files0, srcFile);
      assert reports == reportsB + [r];
      NewReportsAppend(reports0, reportsB, r);
    } else {
      assert reports == reportsB;
    }
  }

  // The copy loop of BackupDirectoryRecursively: every non-excluded file
  // directly in `srcDir` goes through BackupFileIfNewer; the first failure
  // stops the loop.
  method BackupNewerFiles(fs: FileSystem, src: Tree, location: BackupLocation, srcDir: Path, destDir: Path,
                          excludePaths: seq<string>, dryRun: bool)
    returns (changed: bool, err: Option<FsError>)
    requires fs.Valid() && IsPrefix(location.path, srcDir)
    requires !dryRun ==> destDir in fs.dirs
    modifies fs
    ensures fs.Valid()
    ensures fs.dirs == old(fs.dirs) && fs.created == old(fs.created)
    ensures old(fs.reports) <= fs.reports
    ensures changed <==> |fs.reports| > |old(fs.reports)|
    ensures dryRun ==> fs.files == old(fs.files) && err.None?
    ensures SyncFrame(src, srcDir, destDir, excludePaths, old(fs.files), fs.files)
    ensures !dryRun && err.None? ==> FilesSynced(src, srcDir, destDir, excludePaths, old(fs.files), fs.files)
    ensures err.None? ==> NewReports(old(fs.reports), fs.reports)
                          == CopyReports(src, location.path, srcDir, destDir, excludePaths, old(fs.files))
    ensures err.None? ==> (changed <==> HasCopy(src, srcDir, destDir, excludePaths, old(fs.files)))
    ensures err.Some? ==> !dryRun && err.value.IsADirectory? && IsChildOf(err.value.path, destDir)
                          && CopyBlockedAt(src, srcDir, destDir, excludePaths, old(fs.dirs), err.value.path)
    ensures forall p :: !dryRun && IsChildOf(p, destDir) && CopyBlockedAt(src, srcDir, destDir, excludePaths, old(fs.dirs), p)
                        ==> err.Some?
  {
    changed, err := false, None;
    var pending := set f | f in src.files && IsChildOf(f, srcDir);
    ReportedStart(src, location.path, srcDir, destDir, excludePaths, pending, fs.files, fs.reports);
    while pending != {}
      invariant forall f :: f in pending ==> f in src.files && IsChildOf(f, srcDir)
      invariant fs.Valid()
      invariant fs.dirs == old(fs.dirs) && fs.created == old(fs.created)
      invariant old(fs.reports) <= fs.reports
      invariant changed <==> |fs.reports| > |old(fs.reports)|
      invariant dryRun ==> fs.files == old(fs.files)
      invariant err.None?
      invariant CopiedSoFar(src, srcDir, destDir, excludePaths, pending, old(fs.files), fs.files, dryRun)
      invariant ReportedSoFar(src, location.path, srcDir, destDir, excludePaths, pending, old(fs.files), old(fs.reports), fs.reports)
      decreases pending
    {
      var srcFile :| srcFile in pending;
      ghost var before, reportsB := fs.files, fs.reports;
      var saved := false;
      ChildShape(srcFile, srcDir);
      PrefixTransitive(location.path, srcDir, srcFile);
      if !ShouldFileBeExcluded(Render(srcFile), excludePaths) {
        saved, err := BackupFileIfNewer(fs, src, location, srcFile, destDir, dryRun);
        changed := changed || saved;
        if err.Some? {
          ChildCopyBlocked(src, srcDir, destDir, excludePaths, fs.dirs, srcFile);
          return;
        }
      }
      assert SameFile(old(fs.files), before, Child(destDir, Last(srcFile))) by {
        ChildShape(Child(destDir, Last(srcFile)), destDir);
      }
      CopyReportStep(src, location.path, srcDir, destDir, excludePaths, pending, old(fs.files), before,
                     old(fs.reports), reportsB, fs.reports, srcFile, saved);
      CopyStep(src, srcDir, destDir, excludePaths, pending, old(fs.files), before, fs.files, srcFile, dryRun);
      pending := pending - {srcFile};
    }
    ReportedDone(src, location.path, srcDir, destDir, excludePaths, old(fs.files), old(fs.reports), fs.reports);
    NewReportsNonEmpty(old(fs.reports), fs.reports);
    CopyReportsNonEmpty(src, location.path, srcDir, destDir, excludePaths, old(fs.files));
    if !dryRun {
      SyncedLeavesNoBlockedChild(src, srcDir, destDir, excludePaths, old(fs.files), fs.files, fs.dirs);
    }
  }

  // The report line for a stale destination entry `p`: the source path it
  // stands for, shown below the location.
  ghost function RemovalReport(location: Path, srcDir: Path, p: Path): Report
    requires p != [] && IsPrefix(location, srcDir)
  {
    PrefixOfChild(location, srcDir, Last(p));
    Removed(Relative(location, Child(srcDir, Last(p))))
  }

  ghost function StaleFileReports(src: Tree, location: Path, srcDir: Path, destDir: Path, files: Files): set<Report>
    requires IsPrefix(location, srcDir)
  {
    set p | p in files && StaleFile(src, srcDir, destDir, files, p) :: RemovalReport(location, srcDir, p)
  }

  ghost function StaleDirReports(src: Tree, location: Path, srcDir: Path, destDir: Path, dirs: Dirs): set<Report>
    requires IsPrefix(location, srcDir)
  {
    set p | p in dirs && StaleDir(src, srcDir, destDir, dirs, p) :: RemovalReport(location, srcDir, p)
  }

  // The lines written since `reports0`, as a set.
  ghost function NewReports(reports0: seq<Report>, reports: seq<Report>): set<Report>
    requires |reports0| <= |reports|
  {
    set r | r in reports[|reports0|..]
  }

  lemma NewReportsAppend(reports0: seq<Report>, reports: seq<Report>, r: Report)
    requires |reports0| <= |reports|
    ensures NewReports(reports0, reports + [r]) == NewReports(reports0, reports) + {r}
  {
    assert (reports + [r])[|reports0|..] == reports[|reports0|..] + [r];
  }

  // The invariant of the stale-file loop: the stale files already handled
  // (those not `pending`) are reported and, on a real run, deleted.
  ghost predicate StaleFilesSoFar(src: Tree, location: Path, srcDir: Path, destDir: Path, pending: set<Path>,
                                  files0: Files, reports0: seq<Report>, files: Files, reports: seq<Report>, dryRun: bool)
    requires IsPrefix(location, srcDir)
  {
    && |reports0| <= |reports|
    && NewReports(reports0, reports)
       == (set p | p in files0 && p !in pending && StaleFile(src, srcDir, destDir, files0, p) :: RemovalReport(location, srcDir, p))
    && (dryRun ==> files == files0)
    && (forall p :: p in pending ==> p in files)
    && (!dryRun ==> forall p :: p in files <==> p in files0 && !(p !in pending && StaleFile(src, srcDir, destDir, files0, p)))
    && (forall p :: p in files ==> p in files0 && files[p] == files0[p])
  }

  lemma StaleFileStep(src: Tree, location: Path, srcDir: Path, destDir: Path, pending: set<Path>,
                      files0: Files, reports0: seq<Report>, before: Files, reportsB: seq<Report>,
                      after: Files, reports: seq<Report>, destFile: Path, dryRun: bool)
    requires IsPrefix(location, srcDir)
    requires StaleFilesSoFar(src, location, srcDir, destDir, pending, files0, reports0, before, reportsB, dryRun)
    requires destFile in pending && destFile in files0 && IsChildOf(destFile, destDir)
    requires StaleFile(src, srcDir, destDir, files0, destFile) ==>
               reports == reportsB + [RemovalReport(location, srcDir, destFile)]
               && (dryRun ==> after == before)
               && (!dryRun ==> after == before - {destFile})
    requires !StaleFile(src, srcDir, destDir, files0, destFile) ==> reports == reportsB && after == before
    ensures StaleFilesSoFar(src, location, srcDir, destDir, pending - {destFile}, files0, reports0, after, reports, dryRun)
  {
    var r := RemovalReport(location, srcDir, destFile);
    if StaleFile(src, srcDir, destDir, files0, destFile) {
      NewReportsAppend(reports0, reportsB, r);
    }
    var now := set p | p in files0 && p !in pending - {destFile} && StaleFile(src, srcDir, destDir, files0, p) :: RemovalReport(location, srcDir, p);
    var was := set p | p in files0 && p !in pending && StaleFile(src, srcDir, destDir, files0, p) :: RemovalReport(location, srcDir, p);
    assert now == was + (if StaleFile(src, srcDir, destDir, files0, destFile) then {r} else {});
  }

  lemma StaleFilesStart(src: Tree, location: Path, srcDir: Path, destDir: Path, pending: set<Path>,
                         files0: Files, reports0: seq<Report>, dryRun: bool)
    requires IsPrefix(location, srcDir)
    requires pending == set p | p in files0 && IsChildOf(p, destDir)
    ensures StaleFilesSoFar(src, location, srcDir, destDir, pending, files0, reports0, files0, reports0, dryRun)
  {
    assert reports0[|reports0|..] == [];
    assert forall p :: StaleFile(src, srcDir, destDir, files0, p) ==> p in pending;
  }

  lemma StaleFilesDone(src: Tree, location: Path, srcDir: Path, destDir: Path,
                       files0: Files, reports0: seq<Report>, files: Files, reports: seq<Report>, dryRun: bool)
    requires IsPrefix(location, srcDir)
    requires StaleFilesSoFar(src, location, srcDir, destDir, {}, files0, reports0, files, reports, dryRun)
    ensures NewReports(reports0, reports) == StaleFileReports(src, location, srcDir, destDir, files0)
    ensures !dryRun ==> forall p :: p in files <==> p in files0 && !StaleFile(src, srcDir, destDir, files0, p)
  {
  }

  // One iteration of the stale-file loop: `destFile` is reported and, on a
  // real run, made writable and deleted, when the source has no file of its name.
  method RemoveFileIfStale(fs: FileSystem, src: Tree, location: BackupLocation, srcDir: Path, destDir: Path,
                           destFile: Path, dryRun: bool)
    returns (removed: bool)
    requires fs.Valid() && IsPrefix(location.path, srcDir)
    requires destFile in fs.files && IsChildOf(destFile, destDir)
    modifies fs
    ensures fs.Valid()
    ensures fs.dirs == old(fs.dirs) && fs.created == old(fs.created)
    ensures removed <==> StaleFile(src, srcDir, destDir, old(fs.files), destFile)
    ensures removed ==> fs.reports == old(fs.reports) + [RemovalReport(location.path, srcDir, destFile)]
    ensures !removed ==> fs.reports == old(fs.reports) && fs.files == old(fs.files)
    ensures removed && dryRun ==> fs.files == old(fs.files)
    ensures removed && !dryRun ==> fs.files == old(fs.files) - {destFile}
  {
    var shouldBeSrcFile := Child(srcDir, Last(destFile));
    PrefixOfChild(location.path, srcDir, Last(destFile));
    var shown := Relative(location.path, shouldBeSrcFile);
    removed := false;
    if shouldBeSrcFile !in src.files {
      fs.Write(Removed(shown));
      if fs.files[destFile].readOnly && !dryRun {
        fs.SetWritable(destFile);
      }
      if !dryRun {
        var e := fs.DeleteFile(destFile);
        assert fs.files == old(fs.files) - {destFile};
      }
      removed := true;
    }
  }

  // The file loop of DeleteFilesAndSubdirsNotContainedAnymore: each file of
  // `destDir` without a source file of the same name is reported, made
  // writable and deleted.
  method DeleteStaleFiles(fs: FileSystem, src: Tree, location: BackupLocation, srcDir: Path, destDir: Path, dryRun: bool)
    returns (deleted: bool)
    requires fs.Valid() && IsPrefix(location.path, srcDir)
    modifies fs
    ensures fs.Valid()
    ensures fs.dirs == old(fs.dirs) && fs.created == old(fs.created)
    ensures old(fs.reports) <= fs.reports
    ensures deleted <==> |fs.reports| > |old(fs.reports)|
    ensures NewReports(old(fs.reports), fs.reports) == StaleFileReports(src, location.path, srcDir, destDir, old(fs.files))
    ensures dryRun ==> fs.files == old(fs.files)
    ensures !dryRun ==> forall p :: p in fs.files <==> p in old(fs.files) && !StaleFile(src, srcDir, destDir, old(fs.files), p)
    ensures forall p :: p in fs.files ==> p in old(fs.files) && fs.files[p] == old(fs.files)[p]
  {
    deleted := false;
    var pending := set p | p in fs.files && IsChildOf(p, destDir);
    StaleFilesStart(src, location.path, srcDir, destDir, pending, fs.files, fs.reports, dryRun);
    while pending != {}
      invariant forall p :: p in pending ==> p in old(fs.files) && IsChildOf(p, destDir)
      invariant fs.Valid()
      invariant fs.dirs == old(fs.dirs) && fs.created == old(fs.created)
      invariant old(fs.reports) <= fs.reports
      invariant deleted <==> |fs.reports| > |old(fs.reports)|
      invariant StaleFilesSoFar(src, location.path, srcDir, destDir, pending, old(fs.files), old(fs.reports), fs.files, fs.reports, dryRun)
      decreases pending
    {
      var destFile :| destFile in pending;
      ghost var before, reportsB := fs.files, fs.reports;
      var removed := RemoveFileIfStale(fs, src, location, srcDir, destDir, destFile, dryRun);
      deleted := deleted || removed;
      StaleFileStep(src, location.path, srcDir, destDir, pending, old(fs.files), old(fs.reports), before, reportsB,
                    fs.files, fs.reports, destFile, dryRun);
      pending := pending - {destFile};
    }
    StaleFilesDone(src, location.path, srcDir, destDir, old(fs.files), old(fs.reports), fs.files, fs.reports, dryRun);
  }

  // `p` lies under a stale subdirectory of `destDir` that the loop has handled.
  ghost predicate UnderHandledStaleDir(src: Tree, srcDir: Path, destDir: Path, dirs0: Dirs, pending: set<Path>, p: Path) {
    UnderStaleDir(src, srcDir, destDir, dirs0, p) && p[..|destDir| + 1] !in pending
  }

  // The invariant of the stale-directory loop: the stale subdirectories
  // already handled are reported and, on a real run, removed with their subtrees.
  ghost predicate StaleDirsSoFar(src: Tree, location: Path, srcDir: Path, destDir: Path, pending: set<Path>,
                                 files0: Files, dirs0: Dirs, reports0: seq<Report>,
                                 files: Files, dirs: Dirs, reports: seq<Report>, dryRun: bool)
    requires IsPrefix(location, srcDir)
  {
    && |reports0| <= |reports|
    && NewReports(reports0, reports)
       == (set q | q in dirs0 && q !in pending && StaleDir(src, srcDir, destDir, dirs0, q) :: RemovalReport(location, srcDir, q))
    && (dryRun ==> files == files0 && dirs == dirs0)
    && (forall q :: q in pending ==> q in dirs)
    && (!dryRun ==> forall p :: p in files <==> p in files0 && !UnderHandledStaleDir(src, srcDir, destDir, dirs0, pending, p))
    && (!dryRun ==> forall p :: p in dirs <==> p in dirs0 && !UnderHandledStaleDir(src, srcDir, destDir, dirs0, pending, p))
    && (forall p :: p in files ==> p in files0 && files[p] == files0[p])
  }

  lemma StaleDirsStart(src: Tree, location: Path, srcDir: Path, destDir: Path, pending: set<Path>,
                       files0: Files, dirs0: Dirs, reports0: seq<Report>, dryRun: bool)
    requires IsPrefix(location, srcDir)
    requires pending == set q | q in dirs0 && IsChildOf(q, destDir)
    ensures StaleDirsSoFar(src, location, srcDir, destDir, pending, files0, dirs0, reports0, files0, dirs0, reports0, dryRun)
  {
    assert reports0[|reports0|..] == [];
    assert forall q :: StaleDir(src, srcDir, destDir, dirs0, q) ==> q in pending;
    forall p | UnderStaleDir(src, srcDir, destDir, dirs0, p)
      ensures p[..|destDir| + 1] in pending
    {
    }
  }

  lemma StaleDirReportsStep(src: Tree, location: Path, srcDir: Path, destDir: Path, pending: set<Path>,
                            dirs0: Dirs, reports0: seq<Report>, reportsB: seq<Report>, reports: seq<Report>, q: Path)
    requires IsPrefix(location, srcDir) && |reports0| <= |reportsB|
    requires NewReports(reports0, reportsB)
             == (set q' | q' in dirs0 && q' !in pending && StaleDir(src, srcDir, destDir, dirs0, q') :: RemovalReport(location, srcDir, q'))
    requires q in pending && q != []
    requires StaleDir(src, srcDir, destDir, dirs0, q) ==> reports == reportsB + [RemovalReport(location, srcDir, q)]
    requires !StaleDir(src, srcDir, destDir, dirs0, q) ==> reports == reportsB
    ensures |reports0| <= |reports|
    ensures NewReports(reports0, reports)
            == (set q' | q' in dirs0 && q' !in pending - {q} && StaleDir(src, srcDir, destDir, dirs0, q') :: RemovalReport(location, srcDir, q'))
  {
    var r := RemovalReport(location, srcDir, q);
    if StaleDir(src, srcDir, destDir, dirs0, q) {
      NewReportsAppend(reports0, reportsB, r);
    }
    var now := set q' | q' in dirs0 && q' !in pending - {q} && StaleDir(src, srcDir, destDir, dirs0, q') :: RemovalReport(location, srcDir, q');
    var was := set q' | q' in dirs0 && q' !in pending && StaleDir(src, srcDir, destDir, dirs0, q') :: RemovalReport(location, srcDir, q');
    assert now == was + (if StaleDir(src, srcDir, destDir, dirs0, q) then {r} else {});
  }

  lemma StaleDirStep(src: Tree, location: Path, srcDir: Path, destDir: Path, pending: set<Path>,
                     files0: Files, dirs0: Dirs, reports0: seq<Report>,
                     filesB: Files, dirsB: Dirs, reportsB: seq<Report>,
                     files: Files, dirs: Dirs, reports: seq<Report>, q: Path, dryRun: bool)
    requires IsPrefix(location, srcDir)
    requires StaleDirsSoFar(src, location, srcDir, destDir, pending, files0, dirs0, reports0, filesB, dirsB, reportsB, dryRun)
    requires q in pending && q in dirs0 && IsChildOf(q, destDir)
    requires forall q' :: q' in pending ==> IsChildOf(q', destDir)
    requires StaleDir(src, srcDir, destDir, dirs0, q) ==> reports == reportsB + [RemovalReport(location, srcDir, q)]
    requires !StaleDir(src, srcDir, destDir, dirs0, q) || dryRun ==> files == filesB && dirs == dirsB
    requires !StaleDir(src, srcDir, destDir, dirs0, q) ==> reports == reportsB
    requires StaleDir(src, srcDir, destDir, dirs0, q) && !dryRun ==>
               (forall p :: p in files <==> p in filesB && !IsPrefix(q, p))
               && (forall p :: p in dirs <==> p in dirsB && !IsPrefix(q, p))
    requires forall p :: p in files ==> p in filesB && files[p] == filesB[p]
    ensures StaleDirsSoFar(src, location, srcDir, destDir, pending - {q}, files0, dirs0, reports0, files, dirs, reports, dryRun)
  {
    StaleDirReportsStep(src, location, srcDir, destDir, pending, dirs0, reports0, reportsB, reports, q);
    ChildShape(q, destDir);
    if StaleDir(src, srcDir, destDir, dirs0, q) && !dryRun {
      forall p
        ensures (p in files <==> p in files0 && !UnderHandledStaleDir(src, srcDir, destDir, dirs0, pending - {q}, p))
        ensures (p in dirs <==> p in dirs0 && !UnderHandledStaleDir(src, srcDir, destDir, dirs0, pending - {q}, p))
      {
        ChildPrefix(destDir, Last(q), p);
        if |destDir| < |p| && IsPrefix(destDir, p) {
          assert p[..|destDir| + 1] == p[..|destDir|] + [p[|destDir|]];
        }
      }
    }
    forall q' | q' in pending - {q}
      ensures q' in dirs
    {
      ChildShape(q', destDir);
      ChildPrefix(destDir, Last(q), q');
    }
  }

  // One iteration of the stale-directory loop: `destSubDir` is reported and
  // removed recursively when the source has no directory of its name.
  method RemoveDirIfStale(fs: FileSystem, src: Tree, location: BackupLocation, srcDir: Path, destDir: Path,
                          destSubDir: Path, dryRun: bool)
    returns (removed: bool)
    requires fs.Valid() && IsPrefix(location.path, srcDir)
    requires destSubDir in fs.dirs && IsChildOf(destSubDir, destDir)
    modifies fs
    ensures fs.Valid()
    ensures fs.created == old(fs.created)
    ensures removed <==> StaleDir(src, srcDir, destDir, old(fs.dirs), destSubDir)
    ensures removed ==> fs.reports == old(fs.reports) + [RemovalReport(location.path, srcDir, destSubDir)]
    ensures !removed ==> fs.reports == old(fs.reports)
    ensures !removed || dryRun ==> fs.files == old(fs.files) && fs.dirs == old(fs.dirs)
    ensures removed && !dryRun ==> forall p :: p in fs.files <==> p in old(fs.files) && !IsPrefix(destSubDir, p)
    ensures removed && !dryRun ==> forall p :: p in fs.dirs <==> p in old(fs.dirs) && !IsPrefix(destSubDir, p)
    ensures forall p :: p in fs.files ==> p in old(fs.files) && fs.files[p] == old(fs.files)[p]
  {
    var shouldBeSrcDir := Child(srcDir, Last(destSubDir));
    PrefixOfChild(location.path, srcDir, Last(destSubDir));
    var shown := Relative(location.path, shouldBeSrcDir);
    removed := false;
    if shouldBeSrcDir !in src.dirs {
      fs.Write(Removed(shown));
      DeleteDirectoryRecursively(fs, destSubDir, dryRun);
      removed := true;
    }
  }

  // The directory loop of DeleteFilesAndSubdirsNotContainedAnymore: each
  // subdirectory of `destDir` without a source directory of the same name is
  // reported and deleted recursively.
  method DeleteStaleDirectories(fs: FileSystem, src: Tree, location: BackupLocation, srcDir: Path, destDir: Path, dryRun: bool)
    returns (deleted: bool)
    requires fs.Valid() && IsPrefix(location.path, srcDir)
    modifies fs
    ensures fs.Valid()
    ensures fs.created == old(fs.created)
    ensures old(fs.reports) <= fs.reports
    ensures deleted <==> |fs.reports| > |old(fs.reports)|
    ensures NewReports(old(fs.reports), fs.reports) == StaleDirReports(src, location.path, srcDir, destDir, old(fs.dirs))
    ensures dryRun ==> fs.files == old(fs.files) && fs.dirs == old(fs.dirs)
    ensures !dryRun ==> forall p :: p in fs.files <==> p in old(fs.files) && !UnderStaleDir(src, srcDir, destDir, old(fs.dirs), p)
    ensures !dryRun ==> forall p :: p in fs.dirs <==> p in old(fs.dirs) && !UnderStaleDir(src, srcDir, destDir, old(fs.dirs), p)
    ensures forall p :: p in fs.files ==> p in old(fs.files) && fs.files[p] == old(fs.files)[p]
  {
    deleted := false;
    var pending := set q | q in fs.dirs && IsChildOf(q, destDir);
    StaleDirsStart(src, location.path, srcDir, destDir, pending, fs.files, fs.dirs, fs.reports, dryRun);
    while pending != {}
      invariant forall q :: q in pending ==> q in old(fs.dirs) && IsChildOf(q, destDir)
      invariant fs.Valid()
      invariant fs.created == old(fs.created)
      invariant old(fs.reports) <= fs.reports
      invariant deleted <==> |fs.reports| > |old(fs.reports)|
      invariant StaleDirsSoFar(src, location.path, srcDir, destDir, pending, old(fs.files), old(fs.dirs), old(fs.reports),
                               fs.files, fs.dirs, fs.reports, dryRun)
      decreases pending
    {
      var destSubDir :| destSubDir in pending;
      ghost var filesB, dirsB, reportsB := fs.files, fs.dirs, fs.reports;
      var removed := RemoveDirIfStale(fs, src, location, srcDir, destDir, destSubDir, dryRun);
      deleted := deleted || removed;
      StaleDirStep(src, location.path, srcDir, destDir, pending, old(fs.files), old(fs.dirs), old(fs.reports),
                   filesB, dirsB, reportsB, fs.files, fs.dirs, fs.reports, destSubDir, dryRun);
      pending := pending - {destSubDir};
    }
  }

  // The report log and the list of created directories only ever grow, and
  // a change flag raised by either of two steps is raised by both together.
  lemma LogsGrow(r0: seq<Report>, rB: seq<Report>, r1: seq<Report>, c0: seq<Path>, cB: seq<Path>, c1: seq<Path>,
                 before: bool, step: bool)
    requires r0 <= rB <= r1 && c0 <= cB <= c1
    requires before <==> |rB| > |r0| || |cB| > |c0|
    requires step <==> |r1| > |rB| || |c1| > |cB|
    ensures r0 <= r1 && c0 <= c1
    ensures before || step <==> |r1| > |r0| || |c1| > |c0|
  {
  }

  lemma NewReportsSplit(reports0: seq<Report>, reports1: seq<Report>, reports2: seq<Report>)
    requires reports0 <= reports1 <= reports2
    ensures NewReports(reports0, reports2) == NewReports(reports0, reports1) + NewReports(reports1, reports2)
  {
    assert reports2[|reports0|..] == reports1[|reports0|..] + reports2[|reports1|..];
  }

  lemma NewReportsNonEmpty(reports0: seq<Report>, reports: seq<Report>)
    requires |reports0| <= |reports|
    ensures NewReports(reports0, reports) != {} <==> |reports| > |reports0|
  {
    if |reports| > |reports0| {
      assert reports[|reports0|] in NewReports(reports0, reports);
    }
  }

  // Some entry of `destDir` is stale.
  ghost predicate HasStale(src: Tree, srcDir: Path, destDir: Path, files: Files, dirs: Dirs) {
    exists p :: StaleFile(src, srcDir, destDir, files, p) || StaleDir(src, srcDir, destDir, dirs, p)
  }

  lemma StaleReportsNonEmpty(src: Tree, location: Path, srcDir: Path, destDir: Path, files: Files, dirs: Dirs)
    requires IsPrefix(location, srcDir)
    ensures StaleFileReports(src, location, srcDir, destDir, files) + StaleDirReports(src, location, srcDir, destDir, dirs) != {}
            <==> HasStale(src, srcDir, destDir, files, dirs)
  {
    if HasStale(src, srcDir, destDir, files, dirs) {
      var p :| StaleFile(src, srcDir, destDir, files, p) || StaleDir(src, srcDir, destDir, dirs, p);
      assert RemovalReport(location, srcDir, p) in StaleFileReports(src, location, srcDir, destDir, files)
                                                  + StaleDirReports(src, location, srcDir, destDir, dirs);
    }
  }

  // DeleteFilesAndSubdirsNotContainedAnymore: removes from `destDir` every
  // file and subdirectory that the source directory no longer has as a file,
  // respectively as a directory, reporting each one. A dry run whose
  // destination directory does not exist yet does nothing.
  method DeleteFilesAndSubdirsNotContainedAnymore(fs: FileSystem, src: Tree, location: BackupLocation,
                                                  srcDir: Path, destDir: Path, dryRun: bool)
    returns (deleted: bool)
    requires fs.Valid() && IsPrefix(location.path, srcDir)
    modifies fs
    ensures fs.Valid()
    ensures fs.created == old(fs.created)
    ensures old(fs.reports) <= fs.reports
    ensures deleted <==> |fs.reports| > |old(fs.reports)|
    ensures deleted <==> HasStale(src, srcDir, destDir, old(fs.files), old(fs.dirs))
    ensures NewReports(old(fs.reports), fs.reports)
            == StaleFileReports(src, location.path, srcDir, destDir, old(fs.files))
               + StaleDirReports(src, location.path, srcDir, destDir, old(fs.dirs))
    ensures dryRun ==> fs.files == old(fs.files) && fs.dirs == old(fs.dirs)
    ensures PruneFrame(src, srcDir, destDir, old(fs.files), old(fs.dirs), fs.files, fs.dirs)
    ensures !dryRun ==> PruneDone(src, srcDir, destDir, old(fs.files), old(fs.dirs), fs.files, fs.dirs)
  {
    StaleReportsNonEmpty(src, location.path, srcDir, destDir, fs.files, fs.dirs);
    if dryRun && destDir !in fs.dirs {
      assert forall p :: !StaleFile(src, srcDir, destDir, fs.files, p) && !StaleDir(src, srcDir, destDir, fs.dirs, p);
      assert fs.reports[|fs.reports|..] == [];
      return false;
    }
    var filesDeleted := DeleteStaleFiles(fs, src, location, srcDir, destDir, dryRun);
    ghost var reports1 := fs.reports;
    var dirsDeleted := DeleteStaleDirectories(fs, src, location, srcDir, destDir, dryRun);
    deleted := filesDeleted || dirsDeleted;
    NewReportsSplit(old(fs.reports), reports1, fs.reports);
    NewReportsNonEmpty(old(fs.reports), fs.reports);
  }

  // The invariant of the subdirectory loop: the subdirectories whose names
  // are in `names` have been mirrored, with their exclusions kept, and
  // nothing outside their destination branches has changed.
  ghost predicate SubdirsSoFar(src: Tree, srcDir: Path, destDir: Path, excludePaths: seq<string>, names: set<string>,
                               f0: Files, d0: Dirs, files: Files, dirs: Dirs, dryRun: bool)
  {
    && (forall n :: n in names ==> Child(srcDir, n) in src.dirs && !DirExcluded(Child(srcDir, n), excludePaths))
    && (forall p :: !InBranches(destDir, names, p) ==> SameEntry(f0, d0, files, dirs, p))
    && (!dryRun ==> forall n :: n in names ==> Mirrored(src, files, dirs, Child(srcDir, n), Child(destDir, n), excludePaths))
    && (forall n :: n in names ==> ExclusionsKept(src, f0, d0, files, dirs, Child(srcDir, n), Child(destDir, n), excludePaths))
  }

  // Mirroring one more subdirectory changes nothing outside its own branch.
  lemma SubdirFrameStep(src: Tree, srcDir: Path, destDir: Path, excludePaths: seq<string>, names: set<string>,
                        f0: Files, d0: Dirs, fB: Files, dB: Dirs, files: Files, dirs: Dirs, n: string, dryRun: bool)
    requires WellFormed(fB, dB) && (!dryRun ==> destDir in dB)
    requires forall p :: !InBranches(destDir, names, p) ==> SameEntry(f0, d0, fB, dB, p)
    requires dryRun ==> files == fB && dirs == dB
    requires ConfinedTo(fB, dB, files, dirs, Child(destDir, n))
    ensures forall p :: !IsPrefix(Child(destDir, n), p) ==> SameEntry(fB, dB, files, dirs, p)
    ensures forall p :: !InBranches(destDir, names + {n}, p) ==> SameEntry(f0, d0, files, dirs, p)
  {
    if !dryRun {
      ConfinedUnderExistingParent(fB, dB, files, dirs, Child(destDir, n));
    }
    forall p | !InBranches(destDir, names + {n}, p)
      ensures SameEntry(f0, d0, files, dirs, p)
    {
      ChildPrefix(destDir, n, p);
      assert !InBranches(destDir, names, p);
      assert SameEntry(f0, d0, fB, dB, p);
      assert !IsPrefix(Child(destDir, n), p);
      assert SameEntry(fB, dB, files, dirs, p);
    }
  }

  // A branch other than the one just mirrored is untouched.
  lemma OtherBranchUnchanged(destDir: Path, n: string, n': string, fB: Files, dB: Dirs, files: Files, dirs: Dirs)
    requires forall p :: !IsPrefix(Child(destDir, n), p) ==> SameEntry(fB, dB, files, dirs, p)
    requires n' != n
    ensures SameUnder(fB, dB, files, dirs, Child(destDir, n')) && SameBelow(fB, dB, files, dirs, Child(destDir, n'))
  {
    forall p | IsPrefix(Child(destDir, n'), p)
      ensures SameEntry(fB, dB, files, dirs, p)
    {
      ChildPrefix(destDir, n', p);
      ChildPrefix(destDir, n, p);
    }
  }

  // The branch about to be mirrored has not been touched by the earlier ones.
  lemma FreshBranchUnchanged(destDir: Path, names: set<string>, n: string, f0: Files, d0: Dirs, fB: Files, dB: Dirs)
    requires forall p :: !InBranches(destDir, names, p) ==> SameEntry(f0, d0, fB, dB, p)
    requires n !in names
    ensures SameBelow(fB, dB, f0, d0, Child(destDir, n))
  {
    forall p | IsPrefix(Child(destDir, n), p) && p != Child(destDir, n)
      ensures SameEntry(fB, dB, f0, d0, p)
    {
      ChildPrefix(destDir, n, p);
      assert !InBranches(destDir, names, p);
    }
  }

  // The branches mirrored earlier keep their guarantees.
  lemma EarlierBranchesKept(src: Tree, srcDir: Path, destDir: Path, excludePaths: seq<string>, names: set<string>,
                            f0: Files, d0: Dirs, fB: Files, dB: Dirs, files: Files, dirs: Dirs, n: string, dryRun: bool)
    requires SubdirsSoFar(src, srcDir, destDir, excludePaths, names, f0, d0, fB, dB, dryRun)
    requires n !in names
    requires forall p :: !IsPrefix(Child(destDir, n), p) ==> SameEntry(fB, dB, files, dirs, p)
    ensures !dryRun ==> forall n' :: n' in names ==> Mirrored(src, files, dirs, Child(srcDir, n'), Child(destDir, n'), excludePaths)
    ensures forall n' :: n' in names ==> ExclusionsKept(src, f0, d0, files, dirs, Child(srcDir, n'), Child(destDir, n'), excludePaths)
  {
    forall n' | n' in names
      ensures !dryRun ==> Mirrored(src, files, dirs, Child(srcDir, n'), Child(destDir, n'), excludePaths)
      ensures ExclusionsKept(src, f0, d0, files, dirs, Child(srcDir, n'), Child(destDir, n'), excludePaths)
    {
      var c := Child(destDir, n');
      OtherBranchUnchanged(destDir, n, n', fB, dB, files, dirs);
      assert IsPrefix(c, c);
      if !dryRun {
        MirroredFrame(src, fB, dB, files, dirs, Child(srcDir, n'), c, excludePaths);
      }
      ExclusionsKeptFrame(src, f0, d0, fB, dB, f0, d0, files, dirs, Child(srcDir, n'), c, excludePaths);
    }
  }

  lemma AddMirroredBranch(src: Tree, srcDir: Path, destDir: Path, excludePaths: seq<string>, names: set<string>,
                          files: Files, dirs: Dirs, s: Path)
    requires forall n' :: n' in names ==> Mirrored(src, files, dirs, Child(srcDir, n'), Child(destDir, n'), excludePaths)
    requires IsChildOf(s, srcDir) && Mirrored(src, files, dirs, s, Child(destDir, Last(s)), excludePaths)
    ensures forall n' :: n' in names + {Last(s)} ==> Mirrored(src, files, dirs, Child(srcDir, n'), Child(destDir, n'), excludePaths)
  {
    ChildOfParent(s);
  }

  lemma AddKeptBranch(src: Tree, srcDir: Path, destDir: Path, excludePaths: seq<string>, names: set<string>,
                      f0: Files, d0: Dirs, files: Files, dirs: Dirs, s: Path)
    requires forall n' :: n' in names ==> ExclusionsKept(src, f0, d0, files, dirs, Child(srcDir, n'), Child(destDir, n'), excludePaths)
    requires IsChildOf(s, srcDir) && ExclusionsKept(src, f0, d0, files, dirs, s, Child(destDir, Last(s)), excludePaths)
    ensures forall n' :: n' in names + {Last(s)} ==> ExclusionsKept(src, f0, d0, files, dirs, Child(srcDir, n'), Child(destDir, n'), excludePaths)
  {
    ChildOfParent(s);
  }

  // The subdirectory just mirrored keeps the exclusion guarantee relative to
  // the state before the loop.
  lemma NewBranchKept(src: Tree, srcDir: Path, destDir: Path, excludePaths: seq<string>, names: set<string>,
                      f0: Files, d0: Dirs, fB: Files, dB: Dirs, files: Files, dirs: Dirs, s: Path)
    requires forall p :: !InBranches(destDir, names, p) ==> SameEntry(f0, d0, fB, dB, p)
    requires forall n' :: n' in names ==> ExclusionsKept(src, f0, d0, files, dirs, Child(srcDir, n'), Child(destDir, n'), excludePaths)
    requires IsChildOf(s, srcDir) && Last(s) !in names
    requires ExclusionsKept(src, fB, dB, files, dirs, s, Child(destDir, Last(s)), excludePaths)
    ensures forall n' :: n' in names + {Last(s)} ==> ExclusionsKept(src, f0, d0, files, dirs, Child(srcDir, n'), Child(destDir, n'), excludePaths)
  {
    var t := Child(destDir, Last(s));
    FreshBranchUnchanged(destDir, names, Last(s), f0, d0, fB, dB);
    ExclusionsKeptFrame(src, fB, dB, files, dirs, f0, d0, files, dirs, s, t, excludePaths);
    AddKeptBranch(src, srcDir, destDir, excludePaths, names, f0, d0, files, dirs, s);
  }

  lemma SubdirStep(src: Tree, srcDir: Path, destDir: Path, excludePaths: seq<string>, names: set<string>,
                   f0: Files, d0: Dirs, fB: Files, dB: Dirs, files: Files, dirs: Dirs, s: Path, dryRun: bool)
    requires SubdirsSoFar(src, srcDir, destDir, excludePaths, names, f0, d0, fB, dB, dryRun)
    requires s in src.dirs && IsChildOf(s, srcDir) && !DirExcluded(s, excludePaths) && Last(s) !in names
    requires WellFormed(fB, dB) && (!dryRun ==> destDir in dB)
    requires dryRun ==> files == fB && dirs == dB
    requires ConfinedTo(fB, dB, files, dirs, Child(destDir, Last(s)))
    requires !dryRun ==> Mirrored(src, files, dirs, s, Child(destDir, Last(s)), excludePaths)
    requires ExclusionsKept(src, fB, dB, files, dirs, s, Child(destDir, Last(s)), excludePaths)
    ensures SubdirsSoFar(src, srcDir, destDir, excludePaths, names + {Last(s)}, f0, d0, files, dirs, dryRun)
  {
    ChildOfParent(s);
    SubdirFrameStep(src, srcDir, destDir, excludePaths, names, f0, d0, fB, dB, files, dirs, Last(s), dryRun);
    EarlierBranchesKept(src, srcDir, destDir, excludePaths, names, f0, d0, fB, dB, files, dirs, Last(s), dryRun);
    if !dryRun {
      AddMirroredBranch(src, srcDir, destDir, excludePaths, names, files, dirs, s);
    }
    NewBranchKept(src, srcDir, destDir, excludePaths, names, f0, d0, fB, dB, files, dirs, s);
  }

  // Whatever lies outside the branches mirrored so far is outside every
  // branch the loop may touch.
  lemma SubdirsFrame(src: Tree, srcDir: Path, destDir: Path, excludePaths: seq<string>, names: set<string>,
                     f0: Files, d0: Dirs, files: Files, dirs: Dirs)
    requires forall n :: n in names ==> Child(srcDir, n) in src.dirs && !DirExcluded(Child(srcDir, n), excludePaths)
    requires forall p :: !InBranches(destDir, names, p) ==> SameEntry(f0, d0, files, dirs, p)
    ensures BranchFrame(src, srcDir, destDir, excludePaths, f0, d0, files, dirs)
  {
  }

  // After the loop has handled every subdirectory, the invariant gives the
  // postconditions of BackupSubdirectories.
  lemma SubdirsDone(src: Tree, srcDir: Path, destDir: Path, excludePaths: seq<string>, names: set<string>,
                    f0: Files, d0: Dirs, files: Files, dirs: Dirs, dryRun: bool)
    requires SubdirsSoFar(src, srcDir, destDir, excludePaths, names, f0, d0, files, dirs, dryRun)
    requires forall s :: s in src.dirs && IsChildOf(s, srcDir) && !DirExcluded(s, excludePaths) ==> Last(s) in names
    ensures BranchFrame(src, srcDir, destDir, excludePaths, f0, d0, files, dirs)
    ensures !dryRun ==> SubdirsMirrored(src, srcDir, destDir, excludePaths, files, dirs)
    ensures SubdirsKept(src, srcDir, destDir, excludePaths, f0, d0, files, dirs)
  {
    SubdirsFrame(src, srcDir, destDir, excludePaths, names, f0, d0, files, dirs);
    forall s | s in src.dirs && IsChildOf(s, srcDir)
      ensures s == Child(srcDir, Last(s))
    {
      ChildOfParent(s);
    }
  }

  // The bookkeeping of the subdirectory loop: the subdirectories still
  // pending are unmirrored, and every non-excluded one handled is mirrored.
  ghost predicate PendingSplit(src: Tree, srcDir: Path, excludePaths: seq<string>, pending: set<Path>, names: set<string>) {
    && (forall s :: s in pending ==> s in src.dirs && IsChildOf(s, srcDir) && Last(s) !in names)
    && (forall s :: s in src.dirs && IsChildOf(s, srcDir) && !DirExcluded(s, excludePaths) && s !in pending ==> Last(s) in names)
  }

  // Distinct entries of one directory have distinct names, so mirroring one
  // of the pending subdirectories leaves the others unmirrored.
  lemma PendingTake(src: Tree, srcDir: Path, excludePaths: seq<string>, pending: set<Path>, names: set<string>, subDir: Path)
    requires PendingSplit(src, srcDir, excludePaths, pending, names) && subDir in pending
    ensures subDir in src.dirs && IsChildOf(subDir, srcDir) && Last(subDir) !in names
    ensures PendingSplit(src, srcDir, excludePaths, pending - {subDir}, names + {Last(subDir)})
  {
    forall s | s in pending && s != subDir
      ensures Last(s) != Last(subDir)
    {
      ChildShape(s, srcDir);
      ChildShape(subDir, srcDir);
    }
  }

  lemma PendingSkip(src: Tree, srcDir: Path, excludePaths: seq<string>, pending: set<Path>, names: set<string>, subDir: Path)
    requires PendingSplit(src, srcDir, excludePaths, pending, names) && subDir in pending
    requires DirExcluded(subDir, excludePaths)
    ensures PendingSplit(src, srcDir, excludePaths, pending - {subDir}, names)
  {
  }

  lemma PendingEmpty(src: Tree, srcDir: Path, excludePaths: seq<string>, names: set<string>)
    requires PendingSplit(src, srcDir, excludePaths, {}, names)
    ensures forall s :: s in src.dirs && IsChildOf(s, srcDir) && !DirExcluded(s, excludePaths) ==> Last(s) in names
  {
  }

  // Creating the destination and copying the newer files leave the stale
  // entries of a level as they were.
  lemma StaleSurviveLevelStart(src: Tree, location: Path, srcDir: Path, destDir: Path, excludePaths: seq<string>,
                               f0: Files, d0: Dirs, f1: Files, d1: Dirs)
    requires IsPrefix(location, srcDir) && SyncFrame(src, srcDir, destDir, excludePaths, f0, f1)
    requires d0 <= d1 && forall q :: q in d1 && q !in d0 ==> IsPrefix(q, destDir)
    ensures StaleFileReports(src, location, srcDir, destDir, f1) + StaleDirReports(src, location, srcDir, destDir, d1)
            == StaleFileReports(src, location, srcDir, destDir, f0) + StaleDirReports(src, location, srcDir, destDir, d0)
    ensures HasStale(src, srcDir, destDir, f0, d0) <==> HasStale(src, srcDir, destDir, f1, d1)
  {
    StaleFilesSurviveSync(src, location, srcDir, destDir, excludePaths, f0, f1);
    StaleDirsSurviveMkdir(src, location, srcDir, destDir, d0, d1);
  }

  // A child of an existing directory that is not itself a file can be
  // created: no path on the way to it is a file.
  lemma ChildNotBlocked(files: Files, dirs: Dirs, d: Path, c: Path)
    requires WellFormed(files, dirs) && d in dirs && IsChildOf(c, d) && c !in files
    ensures !BlockedByFile(files, c)
  {
    ChildShape(c, d);
    forall i | 0 <= i <= |c|
      ensures c[..i] !in files
    {
      if i < |d| {
        assert c[..i] == d[..i];
        AncestorIsDirectory(files, dirs, d, c[..i]);
      } else if i == |d| {
        assert c[..i] == d;
      }
    }
  }

  // Directories that only lie on the way to `destDir` cannot be where a
  // copy below it is blocked.
  lemma CopyBlockedShrink(src: Tree, srcDir: Path, destDir: Path, excludePaths: seq<string>, d0: Dirs, d1: Dirs, p: Path)
    requires forall q :: q in d1 && q !in d0 ==> IsPrefix(q, destDir)
    requires CopyBlockedAt(src, srcDir, destDir, excludePaths, d1, p)
    ensures CopyBlockedAt(src, srcDir, destDir, excludePaths, d0, p)
  {
    assert IsPrefix(p, destDir) ==> |p| <= |destDir|;
  }

  // A failure while mirroring the subdirectory `subDir` is a copy blocked
  // below `destDir`, at a directory that was there before the loop began.
  lemma SubdirFailureLifts(src: Tree, srcDir: Path, destDir: Path, excludePaths: seq<string>, names: set<string>,
                           f0: Files, d0: Dirs, fB: Files, dB: Dirs, subDir: Path, e: FsError)
    requires IsChildOf(subDir, srcDir) && !DirExcluded(subDir, excludePaths) && Last(subDir) !in names
    requires forall p :: !InBranches(destDir, names, p) ==> SameEntry(f0, d0, fB, dB, p)
    requires !BlockedByFile(fB, Child(destDir, Last(subDir)))
    requires MirrorFailure(src, subDir, Child(destDir, Last(subDir)), excludePaths, fB, dB, e)
    ensures e.IsADirectory? && CopyBlockedAt(src, srcDir, destDir, excludePaths, d0, e.path)
  {
    var c := Child(destDir, Last(subDir));
    assert e.IsADirectory?;
    CopyBlockedInBranch(src, srcDir, destDir, excludePaths, subDir, dB, e.path);
    ChildPrefix(destDir, Last(subDir), e.path);
    assert !InBranches(destDir, names, e.path);
  }

  // The stale files of a level are the same before and after its copy step:
  // the copy only writes targets whose source is a file.
  lemma StaleFilesSurviveSync(src: Tree, location: Path, srcDir: Path, destDir: Path, excludePaths: seq<string>,
                              f0: Files, f1: Files)
    requires IsPrefix(location, srcDir) && SyncFrame(src, srcDir, destDir, excludePaths, f0, f1)
    ensures StaleFileReports(src, location, srcDir, destDir, f1) == StaleFileReports(src, location, srcDir, destDir, f0)
    ensures forall p :: StaleFile(src, srcDir, destDir, f1, p) <==> StaleFile(src, srcDir, destDir, f0, p)
  {
    forall p
      ensures StaleFile(src, srcDir, destDir, f1, p) <==> StaleFile(src, srcDir, destDir, f0, p)
    {
      if IsChildOf(p, destDir) {
        assert Child(srcDir, Last(p)) !in src.files ==> !SyncTarget(src, srcDir, destDir, excludePaths, p);
      }
    }
  }

  // Creating `destDir` and its ancestors adds no stale subdirectory of it.
  lemma StaleDirsSurviveMkdir(src: Tree, location: Path, srcDir: Path, destDir: Path, d0: Dirs, d1: Dirs)
    requires IsPrefix(location, srcDir)
    requires d0 <= d1 && forall q :: q in d1 && q !in d0 ==> IsPrefix(q, destDir)
    ensures StaleDirReports(src, location, srcDir, destDir, d1) == StaleDirReports(src, location, srcDir, destDir, d0)
    ensures forall p :: StaleDir(src, srcDir, destDir, d1, p) <==> StaleDir(src, srcDir, destDir, d0, p)
  {
    forall p | StaleDir(src, srcDir, destDir, d1, p)
      ensures p in d0
    {
      ChildShape(p, destDir);
      assert IsPrefix(p, destDir) ==> |p| <= |destDir|;
    }
  }

  // ---------------------------------------------------------------------
  // What a whole mirror writes, judged on the volume it starts from.

  // The names of the non-excluded subdirectories of `srcDir`: the branches
  // the recursion descends into.
  ghost function SubdirNames(src: Tree, srcDir: Path, excludePaths: seq<string>): set<string> {
    set s | s in src.dirs && IsChildOf(s, srcDir) && !DirExcluded(s, excludePaths) :: Last(s)
  }

  lemma SubdirsShrink(src: Tree, srcDir: Path)
    ensures forall n :: Child(srcDir, n) in src.dirs ==> Below(src, Child(srcDir, n)) < Below(src, srcDir)
  {
    forall n | Child(srcDir, n) in src.dirs
      ensures Below(src, Child(srcDir, n)) < Below(src, srcDir)
    {
      BelowShrinks(src, srcDir, Child(srcDir, n));
    }
  }

  // Every line a mirror of `srcDir` into `destDir` writes: the copies and
  // removals of its own level, then those of every non-excluded
  // subdirectory in turn. Each branch is judged on the starting volume,
  // since the branches of one level are disjoint. Every directory the
  // recursion visits lies at or below the location; no other has lines.
  ghost function TreeReports(src: Tree, location: Path, srcDir: Path, destDir: Path, excludePaths: seq<string>,
                             files: Files, dirs: Dirs): set<Report>
    decreases Below(src, srcDir), 1
  {
    if !IsPrefix(location, srcDir) then {}
    else
      CopyReports(src, location, srcDir, destDir, excludePaths, files)
      + StaleFileReports(src, location, srcDir, destDir, files)
      + StaleDirReports(src, location, srcDir, destDir, dirs)
      + BranchReports(src, location, srcDir, destDir, excludePaths, files, dirs, SubdirNames(src, srcDir, excludePaths))
  }

  // The lines of the branches named in `names`.
  ghost function BranchReports(src: Tree, location: Path, srcDir: Path, destDir: Path, excludePaths: seq<string>,
                               files: Files, dirs: Dirs, names: set<string>): set<Report>
    decreases Below(src, srcDir), 0
  {
    SubdirsShrink(src, srcDir);
    set n, r | n in names && Child(srcDir, n) in src.dirs
                 && r in TreeReports(src, location, Child(srcDir, n), Child(destDir, n), excludePaths, files, dirs) :: r
  }

  // Some destination directory of the mirror is missing, so a real run
  // creates it.
  ghost predicate TreeMissing(src: Tree, srcDir: Path, destDir: Path, excludePaths: seq<string>, dirs: Dirs)
    decreases Below(src, srcDir), 1
  {
    destDir !in dirs || BranchMissing(src, srcDir, destDir, excludePaths, dirs, SubdirNames(src, srcDir, excludePaths))
  }

  ghost predicate BranchMissing(src: Tree, srcDir: Path, destDir: Path, excludePaths: seq<string>, dirs: Dirs,
                                names: set<string>)
    decreases Below(src, srcDir), 0
  {
    SubdirsShrink(src, srcDir);
    exists n :: n in names && Child(srcDir, n) in src.dirs
                && TreeMissing(src, Child(srcDir, n), Child(destDir, n), excludePaths, dirs)
  }

  // A mirror has something to do: a line to write or, on a real run, a
  // directory to create.
  ghost predicate TreeHasWork(src: Tree, location: Path, srcDir: Path, destDir: Path, excludePaths: seq<string>,
                              files: Files, dirs: Dirs, dryRun: bool) {
    TreeReports(src, location, srcDir, destDir, excludePaths, files, dirs) != {}
    || (!dryRun && TreeMissing(src, srcDir, destDir, excludePaths, dirs))
  }

  lemma BranchesNone(src: Tree, location: Path, srcDir: Path, destDir: Path, excludePaths: seq<string>,
                     files: Files, dirs: Dirs)
    ensures BranchReports(src, location, srcDir, destDir, excludePaths, files, dirs, {}) == {}
    ensures !BranchMissing(src, srcDir, destDir, excludePaths, dirs, {})
  {
  }

  // Adding one branch adds its lines and its missing directories.
  lemma BranchesAdd(src: Tree, location: Path, srcDir: Path, destDir: Path, excludePaths: seq<string>,
                    files: Files, dirs: Dirs, names: set<string>, n: string)
    requires Child(srcDir, n) in src.dirs
    ensures BranchReports(src, location, srcDir, destDir, excludePaths, files, dirs, names + {n})
            == BranchReports(src, location, srcDir, destDir, excludePaths, files, dirs, names)
               + TreeReports(src, location, Child(srcDir, n), Child(destDir, n), excludePaths, files, dirs)
    ensures BranchMissing(src, srcDir, destDir, excludePaths, dirs, names + {n})
            <==> BranchMissing(src, srcDir, destDir, excludePaths, dirs, names)
                 || TreeMissing(src, Child(srcDir, n), Child(destDir, n), excludePaths, dirs)
  {
  }

  // Branches that look the same on two volumes write the same lines and
  // miss the same directories.
  lemma BranchesAgree(src: Tree, location: Path, srcDir: Path, destDir: Path, excludePaths: seq<string>,
                      f0: Files, d0: Dirs, f1: Files, d1: Dirs, names: set<string>)
    requires forall n :: n in names && Child(srcDir, n) in src.dirs ==>
               && TreeReports(src, location, Child(srcDir, n), Child(destDir, n), excludePaths, f1, d1)
                  == TreeReports(src, location, Child(srcDir, n), Child(destDir, n), excludePaths, f0, d0)
               && (TreeMissing(src, Child(srcDir, n), Child(destDir, n), excludePaths, d1)
                   <==> TreeMissing(src, Child(srcDir, n), Child(destDir, n), excludePaths, d0))
    ensures BranchReports(src, location, srcDir, destDir, excludePaths, f1, d1, names)
            == BranchReports(src, location, srcDir, destDir, excludePaths, f0, d0, names)
    ensures BranchMissing(src, srcDir, destDir, excludePaths, d1, names)
            <==> BranchMissing(src, srcDir, destDir, excludePaths, d0, names)
  {
  }

  // What a mirror writes and creates depends only on what lies strictly
  // below its destination (and, for creation, on the destination itself).
  lemma {:induction false} TreeFrame(src: Tree, location: Path, srcDir: Path, destDir: Path, excludePaths: seq<string>,
                                     f0: Files, d0: Dirs, f1: Files, d1: Dirs)
    requires SameBelow(f0, d0, f1, d1, destDir)
    ensures TreeReports(src, location, srcDir, destDir, excludePaths, f1, d1)
            == TreeReports(src, location, srcDir, destDir, excludePaths, f0, d0)
    ensures BranchMissing(src, srcDir, destDir, excludePaths, d1, SubdirNames(src, srcDir, excludePaths))
            <==> BranchMissing(src, srcDir, destDir, excludePaths, d0, SubdirNames(src, srcDir, excludePaths))
    decreases Below(src, srcDir)
  {
    if IsPrefix(location, srcDir) {
      LevelReportsUnder(src, location, srcDir, destDir, excludePaths, f0, d0, f1, d1);
    }
    var names := SubdirNames(src, srcDir, excludePaths);
    forall n | n in names && Child(srcDir, n) in src.dirs
      ensures TreeReports(src, location, Child(srcDir, n), Child(destDir, n), excludePaths, f1, d1)
              == TreeReports(src, location, Child(srcDir, n), Child(destDir, n), excludePaths, f0, d0)
      ensures TreeMissing(src, Child(srcDir, n), Child(destDir, n), excludePaths, d1)
              <==> TreeMissing(src, Child(srcDir, n), Child(destDir, n), excludePaths, d0)
    {
      var c := Child(destDir, n);
      BelowShrinks(src, srcDir, Child(srcDir, n));
      SameBelowChild(f0, d0, f1, d1, destDir, c);
      assert IsPrefix(c, c);
      TreeFrame(src, location, Child(srcDir, n), c, excludePaths, f0, d0, f1, d1);
    }
    BranchesAgree(src, location, srcDir, destDir, excludePaths, f0, d0, f1, d1, names);
  }

  // A mirrored destination gives the mirror nothing to write or create:
  // running it again straight away is quiet.
  lemma {:induction false} MirroredIsQuiet(src: Tree, location: Path, srcDir: Path, destDir: Path,
                                           excludePaths: seq<string>, files: Files, dirs: Dirs)
    requires Mirrored(src, files, dirs, srcDir, destDir, excludePaths)
    ensures TreeReports(src, location, srcDir, destDir, excludePaths, files, dirs) == {}
    ensures !TreeMissing(src, srcDir, destDir, excludePaths, dirs)
    decreases Below(src, srcDir)
  {
    if IsPrefix(location, srcDir) {
      assert !HasCopy(src, srcDir, destDir, excludePaths, files);
      CopyReportsNonEmpty(src, location, srcDir, destDir, excludePaths, files);
      assert !HasStale(src, srcDir, destDir, files, dirs);
      StaleReportsNonEmpty(src, location, srcDir, destDir, files, dirs);
    }
    var names := SubdirNames(src, srcDir, excludePaths);
    forall n | n in names && Child(srcDir, n) in src.dirs
      ensures TreeReports(src, location, Child(srcDir, n), Child(destDir, n), excludePaths, files, dirs) == {}
      ensures !TreeMissing(src, Child(srcDir, n), Child(destDir, n), excludePaths, dirs)
    {
      var s :| s in src.dirs && IsChildOf(s, srcDir) && !DirExcluded(s, excludePaths) && Last(s) == n;
      ChildOfParent(s);
      BelowShrinks(src, srcDir, s);
      MirroredIsQuiet(src, location, s, Child(destDir, n), excludePaths, files, dirs);
    }
  }

  // A blocked copy deeper than the entries of `destDir` lies in the branch
  // of a non-excluded source subdirectory, and is blocked for the mirror of
  // that subdirectory too.
  lemma CopyBlockedBranchOf(src: Tree, srcDir: Path, destDir: Path, excludePaths: seq<string>, dirs: Dirs, p: Path)
    requires WellFormed(src.files, src.dirs)
    ensures CopyBlockedAt(src, srcDir, destDir, excludePaths, dirs, p) && |p| > |destDir| + 1 ==>
              && p[|destDir|] in SubdirNames(src, srcDir, excludePaths) && Child(srcDir, p[|destDir|]) in src.dirs
              && IsPrefix(Child(destDir, p[|destDir|]), p) && p != Child(destDir, p[|destDir|])
              && CopyBlockedAt(src, Child(srcDir, p[|destDir|]), Child(destDir, p[|destDir|]), excludePaths, dirs, p)
  {
    if CopyBlockedAt(src, srcDir, destDir, excludePaths, dirs, p) && |p| > |destDir| + 1 {
      var n := p[|destDir|];
      var f := srcDir + p[|destDir|..];
      ReachableStep(srcDir, f, excludePaths);
      var s := f[..|srcDir| + 1];
      ChildOfParent(s);
      assert s == Child(srcDir, n);
      AncestorIsDirectory(src.files, src.dirs, f, s);
      assert Last(s) in SubdirNames(src, srcDir, excludePaths);
      ChildPrefix(destDir, n, p);
      ChildThenRest(srcDir, p, |destDir|);
    }
  }

  // Within the branch of `subDir`, a copy blocked for the parent level is
  // blocked for the mirror of `subDir`, on any volume that agrees strictly
  // below the branch's destination.
  lemma SubdirBlockedLifts(src: Tree, srcDir: Path, destDir: Path, excludePaths: seq<string>,
                           f0: Files, d0: Dirs, fB: Files, dB: Dirs, subDir: Path, p: Path)
    requires WellFormed(src.files, src.dirs) && IsChildOf(subDir, srcDir)
    requires SameBelow(fB, dB, f0, d0, Child(destDir, Last(subDir)))
    requires IsPrefix(Child(destDir, Last(subDir)), p) && p != Child(destDir, Last(subDir))
    ensures CopyBlockedAt(src, srcDir, destDir, excludePaths, d0, p)
            ==> CopyBlockedAt(src, subDir, Child(destDir, Last(subDir)), excludePaths, dB, p)
  {
    ChildPrefix(destDir, Last(subDir), p);
    CopyBlockedBranchOf(src, srcDir, destDir, excludePaths, d0, p);
    ChildOfParent(subDir);
  }

  // A blocked copy lies at an entry of the destination directory, where the
  // copy loop meets it, or deeper, where a subdirectory's mirror does.
  lemma CopyBlockedGrows(src: Tree, srcDir: Path, destDir: Path, excludePaths: seq<string>, d0: Dirs, d1: Dirs)
    requires d0 <= d1
    ensures forall p :: CopyBlockedAt(src, srcDir, destDir, excludePaths, d0, p) ==>
                          CopyBlockedAt(src, srcDir, destDir, excludePaths, d1, p)
  {
  }
  lemma CopyBlockedSplit(src: Tree, srcDir: Path, destDir: Path, excludePaths: seq<string>, d0: Dirs, d1: Dirs)
    requires d0 <= d1
    ensures forall p :: CopyBlockedAt(src, srcDir, destDir, excludePaths, d0, p) ==>
              || (IsChildOf(p, destDir) && CopyBlockedAt(src, srcDir, destDir, excludePaths, d1, p))
              || |p| > |destDir| + 1
  {
    forall p | CopyBlockedAt(src, srcDir, destDir, excludePaths, d0, p) && |p| == |destDir| + 1
      ensures IsChildOf(p, destDir)
    {
      assert Parent(p) == p[..|destDir|];
    }
  }

  // Creating the destination, copying and pruning spare the branch of a
  // source subdirectory: nothing strictly below its destination changes,
  // nor whether that destination is a directory.
  lemma BranchSpared(src: Tree, srcDir: Path, destDir: Path, excludePaths: seq<string>,
                     f0: Files, d0: Dirs, d1: Dirs, f2: Files, f3: Files, d3: Dirs, n: string)
    requires WellFormed(src.files, src.dirs) && WellFormed(f0, d0)
    requires d0 <= d1 && forall q :: q in d1 && q !in d0 ==> IsPrefix(q, destDir)
    requires SyncFrame(src, srcDir, destDir, excludePaths, f0, f2)
    requires PruneFrame(src, srcDir, destDir, f2, d1, f3, d3)
    requires Child(srcDir, n) in src.dirs
    ensures SameBelow(f0, d0, f3, d3, Child(destDir, n))
    ensures Child(destDir, n) in d0 <==> Child(destDir, n) in d3
  {
    var c := Child(destDir, n);
    forall p | IsPrefix(c, p) && p != c
      ensures SameEntry(f0, d0, f3, d3, p)
    {
      FirstStepsSpare(src, srcDir, destDir, excludePaths, f0, d0, d1, f2, f3, d3, n, p);
    }
    if c in f0 {
      assert IsPrefix(c, destDir) ==> |c| <= |destDir|;
    } else {
      assert IsPrefix(c, c);
      FirstStepsSpare(src, srcDir, destDir, excludePaths, f0, d0, d1, f2, f3, d3, n, c);
    }
  }

  // So the branches write and create on the pruned volume what they would
  // have on the volume the level started from, and a copy blocked deep in
  // them stays blocked.
  lemma LevelSparesBranches(src: Tree, location: Path, srcDir: Path, destDir: Path, excludePaths: seq<string>,
                            f0: Files, d0: Dirs, d1: Dirs, f2: Files, f3: Files, d3: Dirs)
    requires WellFormed(src.files, src.dirs) && WellFormed(f0, d0)
    requires d0 <= d1 && forall q :: q in d1 && q !in d0 ==> IsPrefix(q, destDir)
    requires SyncFrame(src, srcDir, destDir, excludePaths, f0, f2)
    requires PruneFrame(src, srcDir, destDir, f2, d1, f3, d3)
    ensures BranchReports(src, location, srcDir, destDir, excludePaths, f3, d3, SubdirNames(src, srcDir, excludePaths))
            == BranchReports(src, location, srcDir, destDir, excludePaths, f0, d0, SubdirNames(src, srcDir, excludePaths))
    ensures BranchMissing(src, srcDir, destDir, excludePaths, d3, SubdirNames(src, srcDir, excludePaths))
            <==> BranchMissing(src, srcDir, destDir, excludePaths, d0, SubdirNames(src, srcDir, excludePaths))
    ensures forall p :: |p| > |destDir| + 1 && CopyBlockedAt(src, srcDir, destDir, excludePaths, d0, p)
                        ==> CopyBlockedAt(src, srcDir, destDir, excludePaths, d3, p)
  {
    var names := SubdirNames(src, srcDir, excludePaths);
    forall n | n in names && Child(srcDir, n) in src.dirs
      ensures TreeReports(src, location, Child(srcDir, n), Child(destDir, n), excludePaths, f3, d3)
              == TreeReports(src, location, Child(srcDir, n), Child(destDir, n), excludePaths, f0, d0)
      ensures TreeMissing(src, Child(srcDir, n), Child(destDir, n), excludePaths, d3)
              <==> TreeMissing(src, Child(srcDir, n), Child(destDir, n), excludePaths, d0)
    {
      BranchSpared(src, srcDir, destDir, excludePaths, f0, d0, d1, f2, f3, d3, n);
      TreeFrame(src, location, Child(srcDir, n), Child(destDir, n), excludePaths, f0, d0, f3, d3);
    }
    BranchesAgree(src, location, srcDir, destDir, excludePaths, f0, d0, f3, d3, names);
    forall p | |p| > |destDir| + 1 && CopyBlockedAt(src, srcDir, destDir, excludePaths, d0, p)
      ensures p in d3
    {
      CopyBlockedBranchOf(src, srcDir, destDir, excludePaths, d0, p);
      FirstStepsSpare(src, srcDir, destDir, excludePaths, f0, d0, d1, f2, f3, d3, p[|destDir|], p);
    }
  }

  // The report part of the subdirectory loop's invariant: the branches named
  // in `names` have written their lines and created their missing
  // directories, judged on the volume the loop started from, and none of
  // them holds a blocked copy.
  ghost predicate BranchesSoFar(src: Tree, location: Path, srcDir: Path, destDir: Path, excludePaths: seq<string>,
                                names: set<string>, f0: Files, d0: Dirs, r0: seq<Report>, c0: seq<Path>,
                                reports: seq<Report>, created: seq<Path>, dryRun: bool)
  {
    && r0 <= reports && c0 <= created
    && NewReports(r0, reports) == BranchReports(src, location, srcDir, destDir, excludePaths, f0, d0, names)
    && (|created| > |c0| <==> !dryRun && BranchMissing(src, srcDir, destDir, excludePaths, d0, names))
    && (!dryRun ==> forall p :: InBranches(destDir, names, p) && |p| > |destDir| + 1
                               ==> !CopyBlockedAt(src, srcDir, destDir, excludePaths, d0, p))
  }

  lemma BranchesStart(src: Tree, location: Path, srcDir: Path, destDir: Path, excludePaths: seq<string>,
                      f0: Files, d0: Dirs, r0: seq<Report>, c0: seq<Path>, dryRun: bool)
    ensures BranchesSoFar(src, location, srcDir, destDir, excludePaths, {}, f0, d0, r0, c0, r0, c0, dryRun)
  {
    BranchesNone(src, location, srcDir, destDir, excludePaths, f0, d0);
    assert r0[|r0|..] == [];
  }

  lemma BranchesStep(src: Tree, location: Path, srcDir: Path, destDir: Path, excludePaths: seq<string>,
                     names: set<string>, f0: Files, d0: Dirs, r0: seq<Report>, c0: seq<Path>,
                     rB: seq<Report>, cB: seq<Path>, r1: seq<Report>, c1: seq<Path>, n: string, dryRun: bool)
    requires BranchesSoFar(src, location, srcDir, destDir, excludePaths, names, f0, d0, r0, c0, rB, cB, dryRun)
    requires Child(srcDir, n) in src.dirs && rB <= r1 && cB <= c1
    requires NewReports(rB, r1) == TreeReports(src, location, Child(srcDir, n), Child(destDir, n), excludePaths, f0, d0)
    requires |c1| > |cB| <==> !dryRun && TreeMissing(src, Child(srcDir, n), Child(destDir, n), excludePaths, d0)
    requires !dryRun ==> forall p :: IsPrefix(Child(destDir, n), p) && p != Child(destDir, n)
                                     ==> !CopyBlockedAt(src, srcDir, destDir, excludePaths, d0, p)
    ensures BranchesSoFar(src, location, srcDir, destDir, excludePaths, names + {n}, f0, d0, r0, c0, r1, c1, dryRun)
  {
    NewReportsSplit(r0, rB, r1);
    BranchesAdd(src, location, srcDir, destDir, excludePaths, f0, d0, names, n);
    forall p | InBranches(destDir, names + {n}, p) && |p| > |destDir| + 1
      ensures InBranches(destDir, names, p) || (IsPrefix(Child(destDir, n), p) && p != Child(destDir, n))
    {
      ChildPrefix(destDir, n, p);
    }
  }

  // Once every non-excluded subdirectory is handled, the branches are all
  // of them, and every blocked copy deeper than the entries of `destDir`
  // lies in one of them.
  lemma BranchesDone(src: Tree, location: Path, srcDir: Path, destDir: Path, excludePaths: seq<string>,
                     names: set<string>, f0: Files, d0: Dirs, r0: seq<Report>, c0: seq<Path>,
                     reports: seq<Report>, created: seq<Path>, dryRun: bool)
    requires WellFormed(src.files, src.dirs)
    requires BranchesSoFar(src, location, srcDir, destDir, excludePaths, names, f0, d0, r0, c0, reports, created, dryRun)
    requires forall n :: n in names ==> Child(srcDir, n) in src.dirs && !DirExcluded(Child(srcDir, n), excludePaths)
    requires forall s :: s in src.dirs && IsChildOf(s, srcDir) && !DirExcluded(s, excludePaths) ==> Last(s) in names
    ensures names == SubdirNames(src, srcDir, excludePaths)
    ensures !dryRun ==> forall p :: |p| > |destDir| + 1 ==> !CopyBlockedAt(src, srcDir, destDir, excludePaths, d0, p)
  {
    forall n | n in names
      ensures n in SubdirNames(src, srcDir, excludePaths)
    {
      assert Last(Child(srcDir, n)) == n;
    }
    forall p | |p| > |destDir| + 1
      ensures CopyBlockedAt(src, srcDir, destDir, excludePaths, d0, p) ==> InBranches(destDir, names, p)
    {
      CopyBlockedBranchOf(src, srcDir, destDir, excludePaths, d0, p);
    }
  }

  // No file stands where a subdirectory of `srcDir` is to be mirrored.
  ghost predicate BranchesFree(src: Tree, srcDir: Path, destDir: Path, files: Files) {
    forall s :: s in src.dirs && IsChildOf(s, srcDir) ==> Child(destDir, Last(s)) !in files
  }

  // A branch not yet mirrored holds no file the loop has put there.
  lemma PendingBranchFree(destDir: Path, names: set<string>, n: string, f0: Files, d0: Dirs, files: Files, dirs: Dirs)
    requires forall p :: !InBranches(destDir, names, p) ==> SameEntry(f0, d0, files, dirs, p)
    requires n !in names
    ensures Child(destDir, n) in files ==> Child(destDir, n) in f0
  {
    assert !InBranches(destDir, names, Child(destDir, n));
  }

  // One pass of the subdirectory loop, for a subdirectory that is not
  // excluded: mirror it into the destination subdirectory of the same name.
  method BackupSubdirectory(fs: FileSystem, src: Tree, location: BackupLocation, srcDir: Path, destDir: Path,
                            excludePaths: seq<string>, dryRun: bool, subDir: Path,
                            ghost names: set<string>, ghost f0: Files, ghost d0: Dirs)
    returns (changed: bool, err: Option<FsError>)
    requires fs.Valid() && WellFormed(src.files, src.dirs) && IsPrefix(location.path, srcDir)
    requires !dryRun ==> destDir in fs.dirs
    requires subDir in src.dirs && IsChildOf(subDir, srcDir) && !DirExcluded(subDir, excludePaths) && Last(subDir) !in names
    requires SubdirsSoFar(src, srcDir, destDir, excludePaths, names, f0, d0, fs.files, fs.dirs, dryRun)
    requires !dryRun ==> BranchesFree(src, srcDir, destDir, f0)
    modifies fs
    decreases Below(src, srcDir), 0
    ensures fs.Valid()
    ensures old(fs.reports) <= fs.reports && old(fs.created) <= fs.created
    ensures changed <==> |fs.reports| > |old(fs.reports)| || |fs.created| > |old(fs.created)|
    ensures dryRun ==> err.None? && fs.files == old(fs.files) && fs.dirs == old(fs.dirs) && fs.created == old(fs.created)
    ensures err.None? ==> SubdirsSoFar(src, srcDir, destDir, excludePaths, names + {Last(subDir)}, f0, d0, fs.files, fs.dirs, dryRun)
    ensures err.None? && !dryRun ==> destDir in fs.dirs
    ensures err.Some? ==> BranchFrame(src, srcDir, destDir, excludePaths, f0, d0, fs.files, fs.dirs)
    ensures err.Some? ==> !dryRun && err.value.IsADirectory?
                          && CopyBlockedAt(src, srcDir, destDir, excludePaths, d0, err.value.path)
    ensures err.None? ==> NewReports(old(fs.reports), fs.reports)
                          == TreeReports(src, location.path, subDir, Child(destDir, Last(subDir)), excludePaths, f0, d0)
    ensures err.None? ==> (|fs.created| > |old(fs.created)|
                           <==> !dryRun && TreeMissing(src, subDir, Child(destDir, Last(subDir)), excludePaths, d0))
    ensures err.None? && !dryRun ==>
              forall p :: IsPrefix(Child(destDir, Last(subDir)), p) && p != Child(destDir, Last(subDir))
                          ==> !CopyBlockedAt(src, srcDir, destDir, excludePaths, d0, p)
  {
    var destOfSubDir := Child(destDir, Last(subDir));
    BelowShrinks(src, srcDir, subDir);
    ChildShape(subDir, srcDir);
    PrefixTransitive(location.path, srcDir, subDir);
    if !dryRun {
      PendingBranchFree(destDir, names, Last(subDir), f0, d0, fs.files, fs.dirs);
      ChildNotBlocked(fs.files, fs.dirs, destDir, destOfSubDir);
    }
    changed, err := BackupDirectoryRecursively(fs, src, location, subDir, destOfSubDir, excludePaths, dryRun);
    SubdirFrameStep(src, srcDir, destDir, excludePaths, names, f0, d0, old(fs.files), old(fs.dirs),
                    fs.files, fs.dirs, Last(subDir), dryRun);
    if err.Some? {
      SubdirsFrame(src, srcDir, destDir, excludePaths, names + {Last(subDir)}, f0, d0, fs.files, fs.dirs);
      SubdirFailureLifts(src, srcDir, destDir, excludePaths, names, f0, d0, old(fs.files), old(fs.dirs), subDir, err.value);
      return;
    }
    SubdirStep(src, srcDir, destDir, excludePaths, names, f0, d0, old(fs.files), old(fs.dirs),
               fs.files, fs.dirs, subDir, dryRun);
    if !dryRun {
      ChildPrefix(destDir, Last(subDir), destDir);
    }
    SubdirTally(src, location.path, srcDir, destDir, excludePaths, names, f0, d0, old(fs.files), old(fs.dirs), subDir,
                old(fs.reports), fs.reports, old(fs.created), fs.created, dryRun);
  }

  // The mirror of `subDir` started on a volume whose branch still looked as
  // it did when the loop began, so what it wrote and created is what it
  // would have on that volume, and a copy blocked in its branch there would
  // have stopped it.
  lemma SubdirTally(src: Tree, location: Path, srcDir: Path, destDir: Path, excludePaths: seq<string>,
                    names: set<string>, f0: Files, d0: Dirs, fB: Files, dB: Dirs, subDir: Path,
                    rB: seq<Report>, r1: seq<Report>, cB: seq<Path>, c1: seq<Path>, dryRun: bool)
    requires WellFormed(src.files, src.dirs) && IsChildOf(subDir, srcDir) && Last(subDir) !in names
    requires forall p :: !InBranches(destDir, names, p) ==> SameEntry(f0, d0, fB, dB, p)
    requires |rB| <= |r1|
    requires NewReports(rB, r1) == TreeReports(src, location, subDir, Child(destDir, Last(subDir)), excludePaths, fB, dB)
    requires |c1| > |cB| <==> !dryRun && TreeMissing(src, subDir, Child(destDir, Last(subDir)), excludePaths, dB)
    requires !dryRun ==> forall p :: !CopyBlockedAt(src, subDir, Child(destDir, Last(subDir)), excludePaths, dB, p)
    ensures NewReports(rB, r1) == TreeReports(src, location, subDir, Child(destDir, Last(subDir)), excludePaths, f0, d0)
    ensures |c1| > |cB| <==> !dryRun && TreeMissing(src, subDir, Child(destDir, Last(subDir)), excludePaths, d0)
    ensures !dryRun ==> forall p :: IsPrefix(Child(destDir, Last(subDir)), p) && p != Child(destDir, Last(subDir))
                                    ==> !CopyBlockedAt(src, srcDir, destDir, excludePaths, d0, p)
  {
    var c := Child(destDir, Last(subDir));
    FreshBranchUnchanged(destDir, names, Last(subDir), f0, d0, fB, dB);
    assert !InBranches(destDir, names, c);
    TreeFrame(src, location, subDir, c, excludePaths, fB, dB, f0, d0);
    forall p | IsPrefix(c, p) && p != c
      ensures CopyBlockedAt(src, srcDir, destDir, excludePaths, d0, p)
              ==> CopyBlockedAt(src, subDir, c, excludePaths, dB, p)
    {
      SubdirBlockedLifts(src, srcDir, destDir, excludePaths, f0, d0, fB, dB, subDir, p);
    }
  }

  // The subdirectory loop of BackupDirectoryRecursively: every non-excluded
  // source subdirectory is mirrored into the destination subdirectory of the
  // same name; the first failure stops the loop.
  method BackupSubdirectories(fs: FileSystem, src: Tree, location: BackupLocation, srcDir: Path, destDir: Path,
                              excludePaths: seq<string>, dryRun: bool)
    returns (changed: bool, err: Option<FsError>)
    requires fs.Valid() && WellFormed(src.files, src.dirs) && IsPrefix(location.path, srcDir)
    requires !dryRun ==> destDir in fs.dirs
    requires !dryRun ==> BranchesFree(src, srcDir, destDir, fs.files)
    modifies fs
    decreases Below(src, srcDir), 1
    ensures fs.Valid()
    ensures old(fs.reports) <= fs.reports && old(fs.created) <= fs.created
    ensures changed <==> |fs.reports| > |old(fs.reports)| || |fs.created| > |old(fs.created)|
    ensures dryRun ==> err.None? && fs.files == old(fs.files) && fs.dirs == old(fs.dirs) && fs.created == old(fs.created)
    ensures BranchFrame(src, srcDir, destDir, excludePaths, old(fs.files), old(fs.dirs), fs.files, fs.dirs)
    ensures !dryRun && err.None? ==> SubdirsMirrored(src, srcDir, destDir, excludePaths, fs.files, fs.dirs)
    ensures err.None? ==> SubdirsKept(src, srcDir, destDir, excludePaths, old(fs.files), old(fs.dirs), fs.files, fs.dirs)
    ensures err.Some? ==> !dryRun && err.value.IsADirectory?
                          && CopyBlockedAt(src, srcDir, destDir, excludePaths, old(fs.dirs), err.value.path)
    ensures err.None? ==> NewReports(old(fs.reports), fs.reports)
                          == BranchReports(src, location.path, srcDir, destDir, excludePaths, old(fs.files), old(fs.dirs),
                                           SubdirNames(src, srcDir, excludePaths))
    ensures err.None? ==> (|fs.created| > |old(fs.created)|
                           <==> !dryRun && BranchMissing(src, srcDir, destDir, excludePaths, old(fs.dirs),
                                                         SubdirNames(src, srcDir, excludePaths)))
    ensures forall p :: !dryRun && |p| > |destDir| + 1 && CopyBlockedAt(src, srcDir, destDir, excludePaths, old(fs.dirs), p)
                        ==> err.Some?
  {
    changed, err := false, None;
    var pending := set s | s in src.dirs && IsChildOf(s, srcDir);
    ghost var names: set<string> := {};
    BranchesStart(src, location.path, srcDir, destDir, excludePaths, fs.files, fs.dirs, fs.reports, fs.created, dryRun);
    while pending != {}
      invariant PendingSplit(src, srcDir, excludePaths, pending, names)
      invariant fs.Valid()
      invariant old(fs.reports) <= fs.reports && old(fs.created) <= fs.created
      invariant changed <==> |fs.reports| > |old(fs.reports)| || |fs.created| > |old(fs.created)|
      invariant dryRun ==> fs.files == old(fs.files) && fs.dirs == old(fs.dirs) && fs.created == old(fs.created)
      invariant !dryRun ==> destDir in fs.dirs
      invariant err.None?
      invariant SubdirsSoFar(src, srcDir, destDir, excludePaths, names, old(fs.files), old(fs.dirs), fs.files, fs.dirs, dryRun)
      invariant BranchesSoFar(src, location.path, srcDir, destDir, excludePaths, names, old(fs.files), old(fs.dirs),
                              old(fs.reports), old(fs.created), fs.reports, fs.created, dryRun)
      decreases pending
    {
      var subDir :| subDir in pending;
      if !ShouldDirectoryBeExcluded(Render(subDir), excludePaths) {
        PendingTake(src, srcDir, excludePaths, pending, names, subDir);
        ghost var rB, cB := fs.reports, fs.created;
        var sub;
        sub, err := BackupSubdirectory(fs, src, location, srcDir, destDir, excludePaths, dryRun, subDir,
                                       names, old(fs.files), old(fs.dirs));
        LogsGrow(old(fs.reports), rB, fs.reports, old(fs.created), cB, fs.created, changed, sub);
        changed := changed || sub;
        if err.Some? {
          return;
        }
        ChildOfParent(subDir);
        BranchesStep(src, location.path, srcDir, destDir, excludePaths, names, old(fs.files), old(fs.dirs),
                     old(fs.reports), old(fs.created), rB, cB, fs.reports, fs.created, Last(subDir), dryRun);
        names := names + {Last(subDir)};
      } else {
        PendingSkip(src, srcDir, excludePaths, pending, names, subDir);
      }
      pending := pending - {subDir};
    }
    PendingEmpty(src, srcDir, excludePaths, names);
    SubdirsDone(src, srcDir, destDir, excludePaths, names, old(fs.files), old(fs.dirs), fs.files, fs.dirs, dryRun);
    BranchesDone(src, location.path, srcDir, destDir, excludePaths, names, old(fs.files), old(fs.dirs),
                 old(fs.reports), old(fs.created), fs.reports, fs.created, dryRun);
  }

  // BackupDirectoryRecursively: mirrors `srcDir` into `destDir`. The
  // destination directory is created when missing (on a real run, and this
  // counts as a change), newer files are copied, and the rest of the level
  // is left to PruneThenMirrorSubdirectories. The result says whether
  // anything was reported or created.
  method BackupDirectoryRecursively(fs: FileSystem, src: Tree, location: BackupLocation, srcDir: Path, destDir: Path,
                                    excludePaths: seq<string>, dryRun: bool)
    returns (changed: bool, err: Option<FsError>)
    requires fs.Valid() && WellFormed(src.files, src.dirs) && IsPrefix(location.path, srcDir)
    modifies fs
    decreases Below(src, srcDir), 3
    ensures fs.Valid()
    ensures old(fs.reports) <= fs.reports && old(fs.created) <= fs.created
    ensures changed <==> |fs.reports| > |old(fs.reports)| || |fs.created| > |old(fs.created)|
    ensures dryRun ==> err.None? && fs.files == old(fs.files) && fs.dirs == old(fs.dirs) && fs.created == old(fs.created)
    ensures ConfinedTo(old(fs.files), old(fs.dirs), fs.files, fs.dirs, destDir)
    ensures !dryRun && err.None? ==> Mirrored(src, fs.files, fs.dirs, srcDir, destDir, excludePaths)
    ensures err.None? ==> ExclusionsKept(src, old(fs.files), old(fs.dirs), fs.files, fs.dirs, srcDir, destDir, excludePaths)
    ensures err.Some? ==> !dryRun && MirrorFailure(src, srcDir, destDir, excludePaths, old(fs.files), old(fs.dirs), err.value)
    ensures !dryRun && destDir !in old(fs.dirs) && BlockedByFile(old(fs.files), destDir) ==> err.Some?
    ensures forall p :: !dryRun && CopyBlockedAt(src, srcDir, destDir, excludePaths, old(fs.dirs), p) ==> err.Some?
    ensures err.None? ==> NewReports(old(fs.reports), fs.reports)
                          == TreeReports(src, location.path, srcDir, destDir, excludePaths, old(fs.files), old(fs.dirs))
    ensures err.None? ==> (|fs.created| > |old(fs.created)|
                           <==> !dryRun && TreeMissing(src, srcDir, destDir, excludePaths, old(fs.dirs)))
    ensures err.None? ==> (changed <==> TreeHasWork(src, location.path, srcDir, destDir, excludePaths,
                                                    old(fs.files), old(fs.dirs), dryRun))
  {
    changed, err := false, None;
    ghost var f0, d0 := fs.files, fs.dirs;
    if destDir !in fs.dirs && !dryRun {
      err := fs.CreateDirectory(destDir);
      if err.Some? {
        return;
      }
      changed := true;
      assert destDir[..|destDir|] == destDir;
    }
    ghost var d1 := fs.dirs;
    assert ConfinedTo(f0, d0, f0, d1, destDir);
    CopyBlockedGrows(src, srcDir, destDir, excludePaths, d0, d1);

    var saved;
    saved, err := BackupNewerFiles(fs, src, location, srcDir, destDir, excludePaths, dryRun);
    changed := changed || saved;
    assert ConfinedTo(f0, d0, fs.files, d1, destDir) by {
      SyncConfined(src, srcDir, destDir, excludePaths, f0, fs.files, d1);
      ConfinedTransitive(f0, d0, f0, d1, fs.files, d1, destDir);
    }
    if err.Some? {
      CopyBlockedShrink(src, srcDir, destDir, excludePaths, d0, d1, err.value.path);
      return;
    }

    var updated;
    updated, err := PruneThenMirrorSubdirectories(fs, src, location, srcDir, destDir, excludePaths, dryRun, f0, d0,
                                                  old(fs.reports), old(fs.created));
    changed := changed || updated;
  }

  // The lines and directories of a level add up to those of the whole
  // mirror: the copies, then the removals and the branches, and the
  // destination directory itself, then those of the branches.
  lemma LevelTally(src: Tree, location: Path, srcDir: Path, destDir: Path, excludePaths: seq<string>,
                   f0: Files, d0: Dirs, r0: seq<Report>, r2: seq<Report>, r4: seq<Report>,
                   c0: seq<Path>, c1: seq<Path>, c4: seq<Path>, dryRun: bool)
    requires IsPrefix(location, srcDir)
    requires r0 <= r2 <= r4 && c0 <= c1 <= c4
    requires NewReports(r0, r2) == CopyReports(src, location, srcDir, destDir, excludePaths, f0)
    requires NewReports(r2, r4) == StaleFileReports(src, location, srcDir, destDir, f0)
                                  + StaleDirReports(src, location, srcDir, destDir, d0)
                                  + BranchReports(src, location, srcDir, destDir, excludePaths, f0, d0,
                                                  SubdirNames(src, srcDir, excludePaths))
    requires |c1| > |c0| <==> !dryRun && destDir !in d0
    requires |c4| > |c1| <==> !dryRun && BranchMissing(src, srcDir, destDir, excludePaths, d0, SubdirNames(src, srcDir, excludePaths))
    ensures NewReports(r0, r4) == TreeReports(src, location, srcDir, destDir, excludePaths, f0, d0)
    ensures |c4| > |c0| <==> !dryRun && TreeMissing(src, srcDir, destDir, excludePaths, d0)
    ensures |r4| > |r0| || |c4| > |c0| <==> TreeHasWork(src, location, srcDir, destDir, excludePaths, f0, d0, dryRun)
  {
    NewReportsSplit(r0, r2, r4);
    NewReportsNonEmpty(r0, r4);
  }

  // The rest of a level of BackupDirectoryRecursively, once the newer files
  // are copied: stale entries are pruned and the non-excluded subdirectories
  // mirrored in turn. (f0, d0) is the volume before the level began.
  method PruneThenMirrorSubdirectories(fs: FileSystem, src: Tree, location: BackupLocation, srcDir: Path, destDir: Path,
                                       excludePaths: seq<string>, dryRun: bool, ghost f0: Files, ghost d0: Dirs,
                                       ghost r0: seq<Report>, ghost c0: seq<Path>)
    returns (changed: bool, err: Option<FsError>)
    requires fs.Valid() && WellFormed(src.files, src.dirs) && IsPrefix(location.path, srcDir)
    requires !dryRun ==> destDir in fs.dirs
    requires d0 <= fs.dirs && forall q :: q in fs.dirs && q !in d0 ==> IsPrefix(q, destDir)
    requires SyncFrame(src, srcDir, destDir, excludePaths, f0, fs.files)
    requires !dryRun ==> FilesSynced(src, srcDir, destDir, excludePaths, f0, fs.files)
    requires ConfinedTo(f0, d0, fs.files, fs.dirs, destDir)
    requires WellFormed(f0, d0)
    requires r0 <= fs.reports && c0 <= fs.created
    requires NewReports(r0, fs.reports) == CopyReports(src, location.path, srcDir, destDir, excludePaths, f0)
    requires |fs.created| > |c0| <==> !dryRun && destDir !in d0
    requires !dryRun ==> forall p :: IsChildOf(p, destDir) ==> !CopyBlockedAt(src, srcDir, destDir, excludePaths, d0, p)
    modifies fs
    decreases Below(src, srcDir), 2
    ensures fs.Valid()
    ensures old(fs.reports) <= fs.reports && old(fs.created) <= fs.created
    ensures changed <==> |fs.reports| > |old(fs.reports)| || |fs.created| > |old(fs.created)|
    ensures dryRun ==> err.None? && fs.files == old(fs.files) && fs.dirs == old(fs.dirs) && fs.created == old(fs.created)
    ensures ConfinedTo(f0, d0, fs.files, fs.dirs, destDir)
    ensures !dryRun && err.None? ==> Mirrored(src, fs.files, fs.dirs, srcDir, destDir, excludePaths)
    ensures err.None? ==> ExclusionsKept(src, f0, d0, fs.files, fs.dirs, srcDir, destDir, excludePaths)
    ensures err.Some? ==> !dryRun && err.value.IsADirectory?
                          && CopyBlockedAt(src, srcDir, destDir, excludePaths, d0, err.value.path)
    ensures StaleFileReports(src, location.path, srcDir, destDir, f0) + StaleDirReports(src, location.path, srcDir, destDir, d0)
            <= NewReports(old(fs.reports), fs.reports)
    ensures HasStale(src, srcDir, destDir, f0, d0) ==> changed
    ensures err.None? ==> NewReports(old(fs.reports), fs.reports)
                          == StaleFileReports(src, location.path, srcDir, destDir, f0)
                             + StaleDirReports(src, location.path, srcDir, destDir, d0)
                             + BranchReports(src, location.path, srcDir, destDir, excludePaths, f0, d0,
                                             SubdirNames(src, srcDir, excludePaths))
    ensures err.None? ==> (|fs.created| > |old(fs.created)|
                           <==> !dryRun && BranchMissing(src, srcDir, destDir, excludePaths, d0, SubdirNames(src, srcDir, excludePaths)))
    ensures forall p :: !dryRun && CopyBlockedAt(src, srcDir, destDir, excludePaths, d0, p) ==> err.Some?
    ensures err.None? ==> NewReports(r0, fs.reports) == TreeReports(src, location.path, srcDir, destDir, excludePaths, f0, d0)
    ensures err.None? ==> (|fs.created| > |c0| <==> !dryRun && TreeMissing(src, srcDir, destDir, excludePaths, d0))
    ensures err.None? ==> (|fs.reports| > |r0| || |fs.created| > |c0|
                           <==> TreeHasWork(src, location.path, srcDir, destDir, excludePaths, f0, d0, dryRun))
  {
    ghost var f2, d1 := fs.files, fs.dirs;
    CopyBlockedSplit(src, srcDir, destDir, excludePaths, d0, d0);
    StaleSurviveLevelStart(src, location.path, srcDir, destDir, excludePaths, f0, d0, f2, d1);
    var deleted := DeleteFilesAndSubdirsNotContainedAnymore(fs, src, location, srcDir, destDir, dryRun);
    changed := deleted;
    ghost var f3, d3, r3 := fs.files, fs.dirs, fs.reports;
    if !dryRun {
      PrunedBranchesFree(src, srcDir, destDir, f2, d1, f3, d3);
      assert BranchesFree(src, srcDir, destDir, f3);
    }
    assert ConfinedTo(f0, d0, f3, d3, destDir) by {
      PruneConfined(src, srcDir, destDir, f2, d1, f3, d3);
      ConfinedTransitive(f0, d0, f2, d1, f3, d3, destDir);
    }
    assert !Pruned(src, srcDir, destDir, f2, d1, destDir);

    LevelSparesBranches(src, location.path, srcDir, destDir, excludePaths, f0, d0, d1, f2, f3, d3);
    var sub;
    sub, err := BackupSubdirectories(fs, src, location, srcDir, destDir, excludePaths, dryRun);
    changed := changed || sub;
    assert ConfinedTo(f0, d0, fs.files, fs.dirs, destDir) by {
      BranchConfined(src, srcDir, destDir, excludePaths, f3, d3, fs.files, fs.dirs);
      ConfinedTransitive(f0, d0, f3, d3, fs.files, fs.dirs, destDir);
    }
    NewReportsSplit(old(fs.reports), r3, fs.reports);
    if err.Some? {
      assert err.value.path in d1;
      CopyBlockedShrink(src, srcDir, destDir, excludePaths, d0, d1, err.value.path);
      return;
    }
    assert !dryRun ==> Mirrored(src, fs.files, fs.dirs, srcDir, destDir, excludePaths) by {
      if !dryRun {
        LevelMirrored(src, srcDir, destDir, excludePaths, f0, d1, f2, f3, d3, fs.files, fs.dirs);
      }
    }
    assert ExclusionsKept(src, f0, d0, fs.files, fs.dirs, srcDir, destDir, excludePaths) by {
      LevelKept(src, srcDir, destDir, excludePaths, f0, d0, d1, f2, f3, d3, fs.files, fs.dirs);
    }
    LevelTally(src, location.path, srcDir, destDir, excludePaths, f0, d0, r0, old(fs.reports), fs.reports,
               c0, old(fs.created), fs.created, dryRun);
  }

  // The ways copying a single-file location can fail: the destination
  // directory cannot be created because a file is in the way, or a directory
  // already has the name the copy needs.
  ghost predicate FileLocationFailure(files: Files, dirs: Dirs, location: BackupLocation, e: FsError)
    requires location.path != []
  {
    || (e == NotADirectory(location.destination) && location.destination !in dirs
        && BlockedByFile(files, location.destination))
    || (e == IsADirectory(Child(location.destination, Last(location.path)))
        && Child(location.destination, Last(location.path)) in dirs)
  }

  // A backup location that is a single file: its copy goes into the
  // destination directory (created first when missing, which does not count
  // as a change), and the report shows the file's full path.
  method BackupFileBackupLocation(fs: FileSystem, src: Tree, location: BackupLocation, dryRun: bool)
    returns (changed: bool, err: Option<FsError>)
    requires fs.Valid() && WellFormed(src.files, src.dirs) && location.path in src.files
    modifies fs
    ensures fs.Valid()
    ensures old(fs.reports) <= fs.reports && old(fs.created) <= fs.created
    ensures changed <==> |fs.reports| > |old(fs.reports)|
    ensures dryRun ==> err.None? && fs.files == old(fs.files) && fs.dirs == old(fs.dirs) && fs.created == old(fs.created)
    ensures old(fs.dirs) <= fs.dirs
    ensures forall p :: p != Child(location.destination, Last(location.path)) ==> SameFile(old(fs.files), fs.files, p)
    ensures err.None? ==>
      var destOfFile := Child(location.destination, Last(location.path));
      && (changed <==> destOfFile !in old(fs.files) || src.files[location.path].mtime > old(fs.files)[destOfFile].mtime)
      && fs.reports == old(fs.reports) + (if !changed then []
                                          else if destOfFile !in old(fs.files) then [Added(Render(location.path))]
                                          else [Updated(Render(location.path))])
      && (!dryRun ==> destOfFile in fs.files && fs.files[destOfFile].mtime >= src.files[location.path].mtime)
    ensures forall q :: q in fs.dirs && q !in old(fs.dirs) ==> IsPrefix(q, location.destination)
    ensures ConfinedTo(old(fs.files), old(fs.dirs), fs.files, fs.dirs, Child(location.destination, Last(location.path)))
    ensures err.Some? ==> !dryRun && FileLocationFailure(old(fs.files), old(fs.dirs), location, err.value)
    ensures !dryRun && location.destination !in old(fs.dirs) && BlockedByFile(old(fs.files), location.destination)
            ==> err == Some(NotADirectory(location.destination))
    ensures !dryRun && Child(location.destination, Last(location.path)) in old(fs.dirs) ==> err.Some?
  {
    var destDir := location.destination;
    if destDir !in fs.dirs && !dryRun {
      err := fs.CreateDirectory(location.destination);
      if err.Some? {
        changed := false;
        return;
      }
      assert destDir[..|destDir|] == destDir;
    }
    var destOfFile := Child(destDir, Last(location.path));
    changed, err := UpdateIfNewer(fs, src.files[location.path], destOfFile, Render(location.path), dryRun);
    forall q | q in fs.dirs && q !in old(fs.dirs)
      ensures IsPrefix(q, destOfFile)
    {
      PrefixOfChild(q, destDir, Last(location.path));
    }
  }

  // Where a backup location writes: the copy of a file location, the
  // destination directory of any other location.
  ghost function LocationRoot(src: Tree, location: BackupLocation): Path {
    if location.path in src.files && location.path != [] then Child(location.destination, Last(location.path))
    else location.destination
  }

  // No location of the profile writes at or below the root of another.
  ghost predicate Disjoint(src: Tree, locations: seq<BackupLocation>) {
    forall i, j :: 0 <= i < |locations| && 0 <= j < |locations| && i != j ==>
      !IsPrefix(LocationRoot(src, locations[i]), LocationRoot(src, locations[j]))
  }

  // What a real run that did not fail guarantees for one location: the
  // file's copy is at least as new as the file, or the directory is mirrored.
  ghost predicate LocationDone(src: Tree, files: Files, dirs: Dirs, location: BackupLocation) {
    if location.path in src.files && location.path != [] then
      var t := Child(location.destination, Last(location.path));
      t in files && files[t].mtime >= src.files[location.path].mtime
    else if location.path in src.dirs then
      Mirrored(src, files, dirs, location.path, location.destination, location.excludePaths)
    else true
  }

  // The lines a location writes, judged on the volume it starts from: the
  // file's own line, or every line of the mirror of a directory location.
  ghost function LocationReports(src: Tree, files: Files, dirs: Dirs, location: BackupLocation): set<Report> {
    if location.path in src.files && location.path != [] then
      var t := Child(location.destination, Last(location.path));
      if t !in files then {Added(Render(location.path))}
      else if src.files[location.path].mtime > files[t].mtime then {Updated(Render(location.path))}
      else {}
    else if location.path in src.dirs then
      TreeReports(src, location.path, location.path, location.destination, location.excludePaths, files, dirs)
    else {}
  }

  // A location has something to do: a line to write or, for a directory
  // location on a real run, a destination directory to create.
  ghost predicate LocationHasWork(src: Tree, files: Files, dirs: Dirs, location: BackupLocation, dryRun: bool) {
    || LocationReports(src, files, dirs, location) != {}
    || (&& !dryRun && !(location.path in src.files && location.path != []) && location.path in src.dirs
        && TreeMissing(src, location.path, location.destination, location.excludePaths, dirs))
  }

  // The ways a location can fail, judged on the volume it starts from.
  ghost predicate LocationFailure(src: Tree, files: Files, dirs: Dirs, location: BackupLocation, e: FsError) {
    if location.path in src.files && location.path != [] then FileLocationFailure(files, dirs, location, e)
    else location.path in src.dirs
         && MirrorFailure(src, location.path, location.destination, location.excludePaths, files, dirs, e)
  }

  // Nothing at or below `root` differs, no file appears on the way to it,
  // and no directory on the way to it disappears.
  ghost predicate KeptAround(f0: Files, d0: Dirs, f1: Files, d1: Dirs, root: Path) {
    && SameUnder(f0, d0, f1, d1, root)
    && forall k :: 0 <= k < |root| ==> SameFile(f0, f1, root[..k]) && (root[..k] in d0 ==> root[..k] in d1)
  }

  lemma PrefixesComparable(a: Path, b: Path, p: Path)
    requires IsPrefix(a, p) && IsPrefix(b, p)
    ensures IsPrefix(a, b) || IsPrefix(b, a)
  {
    if |a| <= |b| {
      assert b[..|a|] == p[..|b|][..|a|];
    } else {
      assert a[..|b|] == p[..|a|][..|b|];
    }
  }

  // A step confined to one root leaves an unrelated root kept.
  lemma ConfinedKeepsOther(f0: Files, d0: Dirs, f1: Files, d1: Dirs, r: Path, q: Path)
    requires ConfinedTo(f0, d0, f1, d1, r)
    requires !IsPrefix(r, q) && !IsPrefix(q, r)
    ensures KeptAround(f0, d0, f1, d1, q)
  {
    forall p | IsPrefix(q, p)
      ensures SameEntry(f0, d0, f1, d1, p)
    {
      if IsPrefix(r, p) {
        PrefixesComparable(r, q, p);
      }
      if IsPrefix(p, r) {
        PrefixTransitive(q, p, r);
      }
    }
    forall k | 0 <= k < |q|
      ensures SameFile(f0, f1, q[..k]) && (q[..k] in d0 ==> q[..k] in d1)
    {
      assert IsPrefix(q[..k], q);
      if IsPrefix(r, q[..k]) {
        PrefixTransitive(r, q[..k], q);
      }
    }
  }

  lemma KeptAroundTransitive(f0: Files, d0: Dirs, f1: Files, d1: Dirs, f2: Files, d2: Dirs, root: Path)
    requires KeptAround(f0, d0, f1, d1, root) && KeptAround(f1, d1, f2, d2, root)
    ensures KeptAround(f0, d0, f2, d2, root)
  {
  }

  // The lines of one level of a mirror depend only on what lies strictly
  // below its destination.
  lemma LevelReportsUnder(src: Tree, location: Path, srcDir: Path, destDir: Path, excludePaths: seq<string>,
                          f0: Files, d0: Dirs, f1: Files, d1: Dirs)
    requires IsPrefix(location, srcDir) && SameBelow(f0, d0, f1, d1, destDir)
    ensures CopyReports(src, location, srcDir, destDir, excludePaths, f1) == CopyReports(src, location, srcDir, destDir, excludePaths, f0)
    ensures StaleFileReports(src, location, srcDir, destDir, f1) == StaleFileReports(src, location, srcDir, destDir, f0)
    ensures StaleDirReports(src, location, srcDir, destDir, d1) == StaleDirReports(src, location, srcDir, destDir, d0)
  {
    forall f | f in src.files && IsChildOf(f, srcDir)
      ensures NeedsCopy(src, srcDir, destDir, excludePaths, f0, f) == NeedsCopy(src, srcDir, destDir, excludePaths, f1, f)
      ensures CopyReport(location, srcDir, destDir, f0, f) == CopyReport(location, srcDir, destDir, f1, f)
    {
      PrefixOfChild(destDir, destDir, Last(f));
    }
    forall p | IsChildOf(p, destDir)
      ensures SameEntry(f0, d0, f1, d1, p)
    {
      ChildShape(p, destDir);
    }
  }

  // The guarantees about one location carry over to a volume kept around
  // its root.
  lemma LocationReportsKept(src: Tree, f0: Files, d0: Dirs, f1: Files, d1: Dirs, location: BackupLocation, dryRun: bool)
    requires KeptAround(f0, d0, f1, d1, LocationRoot(src, location))
    ensures LocationReports(src, f1, d1, location) == LocationReports(src, f0, d0, location)
    ensures LocationHasWork(src, f1, d1, location, dryRun) <==> LocationHasWork(src, f0, d0, location, dryRun)
  {
    assert IsPrefix(LocationRoot(src, location), LocationRoot(src, location));
    if !(location.path in src.files && location.path != []) && location.path in src.dirs {
      TreeFrame(src, location.path, location.path, location.destination, location.excludePaths, f0, d0, f1, d1);
    }
  }

  lemma LocationDoneKept(src: Tree, f0: Files, d0: Dirs, f1: Files, d1: Dirs, location: BackupLocation)
    requires KeptAround(f0, d0, f1, d1, LocationRoot(src, location))
    requires LocationDone(src, f0, d0, location)
    ensures LocationDone(src, f1, d1, location)
  {
    var root := LocationRoot(src, location);
    assert IsPrefix(root, root);
    if !(location.path in src.files && location.path != []) && location.path in src.dirs {
      MirroredFrame(src, f0, d0, f1, d1, location.path, location.destination, location.excludePaths);
    }
  }

  lemma LocationFailureKept(src: Tree, f0: Files, d0: Dirs, f1: Files, d1: Dirs, location: BackupLocation, e: FsError)
    requires KeptAround(f0, d0, f1, d1, LocationRoot(src, location))
    requires LocationFailure(src, f1, d1, location, e)
    ensures LocationFailure(src, f0, d0, location, e)
  {
    var root := LocationRoot(src, location);
    assert IsPrefix(root, root);
    var d := location.destination;
    if location.path in src.files && location.path != [] {
      assert d == root[..|root| - 1];
      forall i | 0 <= i <= |d|
        ensures d[..i] in f1 ==> d[..i] in f0
      {
        assert d[..i] == root[..i];
      }
    } else {
      forall i | 0 <= i <= |d|
        ensures d[..i] in f1 ==> d[..i] in f0
      {
        if i == |d| {
          assert d[..i] == d;
        }
      }
    }
  }

  // Conversely, a failure the starting volume holds around a location's
  // root is still there when the location's turn comes.
  lemma LocationFailureStays(src: Tree, f0: Files, d0: Dirs, f1: Files, d1: Dirs, location: BackupLocation, e: FsError)
    requires KeptAround(f0, d0, f1, d1, LocationRoot(src, location)) && WellFormed(f1, d1)
    ensures LocationFailure(src, f0, d0, location, e) ==> LocationFailure(src, f1, d1, location, e)
  {
    var root := LocationRoot(src, location);
    assert IsPrefix(root, root);
    var d := location.destination;
    if location.path in src.files && location.path != [] {
      assert d == root[..|root| - 1];
      forall i | 0 <= i <= |d|
        ensures d[..i] in f0 ==> d[..i] in f1
      {
        assert d[..i] == root[..i];
      }
      if BlockedByFile(f0, d) {
        var i :| 0 <= i <= |d| && d[..i] in f0;
        if i == |d| {
          assert d[..i] == d;
        } else if d in d1 {
          AncestorIsDirectory(f1, d1, d, d[..i]);
        }
      }
    } else {
      forall i | 0 <= i <= |d|
        ensures d[..i] in f0 ==> d[..i] in f1
      {
        if i == |d| {
          assert d[..i] == d;
        }
      }
    }
  }

  // A location that is done has nothing left to do: backing it up again
  // straight away writes none of its lines and creates no directory.
  lemma LocationDoneIsQuiet(src: Tree, files: Files, dirs: Dirs, location: BackupLocation, dryRun: bool)
    requires LocationDone(src, files, dirs, location)
    ensures LocationReports(src, files, dirs, location) == {}
    ensures !LocationHasWork(src, files, dirs, location, dryRun)
  {
    if !(location.path in src.files && location.path != []) && location.path in src.dirs {
      MirroredIsQuiet(src, location.path, location.path, location.destination, location.excludePaths, files, dirs);
    }
  }

  // The invariant of the location loop of DoBackup, once `i` locations are
  // done: on a dry run, or when the roots are disjoint, the locations still
  // to come see the volume as it was around their roots, and (on a real
  // run) the locations done so far are done; on any real run the latest
  // location is done.
  ghost predicate RunSoFar(src: Tree, locations: seq<BackupLocation>, i: int, dryRun: bool,
                           f0: Files, d0: Dirs, files: Files, dirs: Dirs)
  {
    && 0 <= i <= |locations|
    && (dryRun || Disjoint(src, locations) ==>
          forall j :: i <= j < |locations| ==> KeptAround(f0, d0, files, dirs, LocationRoot(src, locations[j])))
    && (!dryRun && Disjoint(src, locations) ==>
          forall j :: 0 <= j < i ==> LocationDone(src, files, dirs, locations[j]))
    && (!dryRun && i > 0 ==> LocationDone(src, files, dirs, locations[i - 1]))
  }

  lemma RunStart(src: Tree, locations: seq<BackupLocation>, dryRun: bool, f0: Files, d0: Dirs)
    ensures RunSoFar(src, locations, 0, dryRun, f0, d0, f0, d0)
  {
  }

  // Later locations stay kept around their roots.
  lemma RunStepAhead(src: Tree, locations: seq<BackupLocation>, i: int,
                     f0: Files, d0: Dirs, fB: Files, dB: Dirs, f1: Files, d1: Dirs)
    requires 0 <= i < |locations| && Disjoint(src, locations)
    requires forall j :: i <= j < |locations| ==> KeptAround(f0, d0, fB, dB, LocationRoot(src, locations[j]))
    requires ConfinedTo(fB, dB, f1, d1, LocationRoot(src, locations[i]))
    ensures forall j :: i + 1 <= j < |locations| ==> KeptAround(f0, d0, f1, d1, LocationRoot(src, locations[j]))
  {
    forall j | i + 1 <= j < |locations|
      ensures KeptAround(f0, d0, f1, d1, LocationRoot(src, locations[j]))
    {
      var rj := LocationRoot(src, locations[j]);
      ConfinedKeepsOther(fB, dB, f1, d1, LocationRoot(src, locations[i]), rj);
      KeptAroundTransitive(f0, d0, fB, dB, f1, d1, rj);
    }
  }

  // Earlier locations stay done.
  lemma RunStepBehind(src: Tree, locations: seq<BackupLocation>, i: int, fB: Files, dB: Dirs, f1: Files, d1: Dirs)
    requires 0 <= i < |locations| && Disjoint(src, locations)
    requires forall j :: 0 <= j < i ==> LocationDone(src, fB, dB, locations[j])
    requires ConfinedTo(fB, dB, f1, d1, LocationRoot(src, locations[i]))
    ensures forall j :: 0 <= j < i ==> LocationDone(src, f1, d1, locations[j])
  {
    forall j | 0 <= j < i
      ensures LocationDone(src, f1, d1, locations[j])
    {
      ConfinedKeepsOther(fB, dB, f1, d1, LocationRoot(src, locations[i]), LocationRoot(src, locations[j]));
      LocationDoneKept(src, fB, dB, f1, d1, locations[j]);
    }
  }

  // One location of the loop keeps the invariant.
  lemma RunStep(src: Tree, locations: seq<BackupLocation>, i: int, dryRun: bool,
                f0: Files, d0: Dirs, fB: Files, dB: Dirs, f1: Files, d1: Dirs)
    requires RunSoFar(src, locations, i, dryRun, f0, d0, fB, dB)
    requires i < |locations|
    requires dryRun ==> f1 == fB && d1 == dB
    requires ConfinedTo(fB, dB, f1, d1, LocationRoot(src, locations[i]))
    requires !dryRun ==> LocationDone(src, f1, d1, locations[i])
    ensures RunSoFar(src, locations, i + 1, dryRun, f0, d0, f1, d1)
  {
    if !dryRun && Disjoint(src, locations) {
      RunStepAhead(src, locations, i, f0, d0, fB, dB, f1, d1);
      RunStepBehind(src, locations, i, fB, dB, f1, d1);
    }
  }

  // The lines of the first `i` locations, each judged on the volume the run
  // starts from.
  ghost function RunReports(src: Tree, files: Files, dirs: Dirs, locations: seq<BackupLocation>, i: int): set<Report>
    requires 0 <= i <= |locations|
  {
    set j, r | 0 <= j < i && r in LocationReports(src, files, dirs, locations[j]) :: r
  }

  // The tally part of the loop's invariant, on a dry run or when the roots
  // are disjoint: the first `i` locations have written their lines, and (on
  // a real run) the flag says whether any of them had something to do and
  // none of them could fail.
  ghost predicate RunTally(src: Tree, locations: seq<BackupLocation>, i: int, dryRun: bool,
                           f0: Files, d0: Dirs, r0: seq<Report>, reports: seq<Report>, updated: bool)
    requires 0 <= i <= |locations|
  {
    && r0 <= reports
    && (dryRun || Disjoint(src, locations) ==> NewReports(r0, reports) == RunReports(src, f0, d0, locations, i))
    && (!dryRun && Disjoint(src, locations) ==>
          && (updated <==> exists j :: 0 <= j < i && LocationHasWork(src, f0, d0, locations[j], false))
          && forall j, e :: 0 <= j < i ==> !LocationFailure(src, f0, d0, locations[j], e))
  }

  // One location backed up without failure moves both loop invariants on.
  lemma RunAdvance(src: Tree, locations: seq<BackupLocation>, i: int, dryRun: bool, f0: Files, d0: Dirs, r0: seq<Report>,
                   fB: Files, dB: Dirs, rB: seq<Report>, f1: Files, d1: Dirs, r1: seq<Report>, updated: bool, u: bool)
    requires 0 <= i < |locations| && WellFormed(fB, dB)
    requires RunSoFar(src, locations, i, dryRun, f0, d0, fB, dB)
    requires RunTally(src, locations, i, dryRun, f0, d0, r0, rB, updated)
    requires rB <= r1
    requires dryRun ==> f1 == fB && d1 == dB
    requires ConfinedTo(fB, dB, f1, d1, LocationRoot(src, locations[i]))
    requires NewReports(rB, r1) == LocationReports(src, fB, dB, locations[i])
    requires u <==> LocationHasWork(src, fB, dB, locations[i], dryRun)
    requires !dryRun ==> LocationDone(src, f1, d1, locations[i])
    requires !dryRun ==> forall e :: !LocationFailure(src, fB, dB, locations[i], e)
    ensures RunSoFar(src, locations, i + 1, dryRun, f0, d0, f1, d1)
    ensures RunTally(src, locations, i + 1, dryRun, f0, d0, r0, r1, updated || u)
  {
    RunTallyStep(src, locations, i, dryRun, f0, d0, r0, fB, dB, rB, r1, updated, u);
    RunStep(src, locations, i, dryRun, f0, d0, fB, dB, f1, d1);
  }

  // Once every location has been backed up, the tally covers all of them.
  lemma RunDone(src: Tree, locations: seq<BackupLocation>, dryRun: bool, f0: Files, d0: Dirs, r0: seq<Report>,
                files: Files, dirs: Dirs, reports: seq<Report>, updated: bool)
    requires RunSoFar(src, locations, |locations|, dryRun, f0, d0, files, dirs)
    requires RunTally(src, locations, |locations|, dryRun, f0, d0, r0, reports, updated)
    ensures dryRun || Disjoint(src, locations) ==>
              NewReports(r0, reports) == RunReports(src, f0, d0, locations, |locations|)
    ensures !dryRun && Disjoint(src, locations) ==>
              (updated <==> exists i :: 0 <= i < |locations| && LocationHasWork(src, f0, d0, locations[i], false))
    ensures !dryRun && Disjoint(src, locations) ==>
              forall i :: 0 <= i < |locations| ==> LocationDone(src, files, dirs, locations[i])
    ensures !dryRun && Disjoint(src, locations) ==>
              forall i, e :: 0 <= i < |locations| ==> !LocationFailure(src, f0, d0, locations[i], e)
    ensures !dryRun && |locations| > 0 ==> LocationDone(src, files, dirs, locations[|locations| - 1])
  {
  }

  lemma RunTallyStart(src: Tree, locations: seq<BackupLocation>, dryRun: bool, f0: Files, d0: Dirs, r0: seq<Report>)
    ensures RunTally(src, locations, 0, dryRun, f0, d0, r0, r0, false)
  {
    assert r0[|r0|..] == [];
  }

  // A location that wrote its lines, kept its flag and did not fail, seen
  // from a volume kept around its root, extends the tally.
  lemma RunTallyStep(src: Tree, locations: seq<BackupLocation>, i: int, dryRun: bool,
                     f0: Files, d0: Dirs, r0: seq<Report>, fB: Files, dB: Dirs, rB: seq<Report>, r1: seq<Report>,
                     updated: bool, u: bool)
    requires 0 <= i < |locations|
    requires RunTally(src, locations, i, dryRun, f0, d0, r0, rB, updated)
    requires rB <= r1 && WellFormed(fB, dB)
    requires RunSoFar(src, locations, i, dryRun, f0, d0, fB, dB)
    requires NewReports(rB, r1) == LocationReports(src, fB, dB, locations[i])
    requires u <==> LocationHasWork(src, fB, dB, locations[i], dryRun)
    requires !dryRun ==> forall e :: !LocationFailure(src, fB, dB, locations[i], e)
    ensures RunTally(src, locations, i + 1, dryRun, f0, d0, r0, r1, updated || u)
  {
    NewReportsSplit(r0, rB, r1);
    if dryRun || Disjoint(src, locations) {
      LocationReportsKept(src, f0, d0, fB, dB, locations[i], dryRun);
      assert RunReports(src, f0, d0, locations, i + 1)
             == RunReports(src, f0, d0, locations, i) + LocationReports(src, f0, d0, locations[i]);
    }
    if !dryRun && Disjoint(src, locations) {
      forall e
        ensures !LocationFailure(src, f0, d0, locations[i], e)
      {
        LocationFailureStays(src, f0, d0, fB, dB, locations[i], e);
      }
    }
  }

  // Which closing message a run that did not fail ends with.
  function Outcome(dryRun: bool, atLeastOneNewer: bool): (outcome: RunOutcome)
    ensures outcome == DryRunFinished <==> dryRun
    ensures outcome == SomethingUpdated <==> !dryRun && atLeastOneNewer
  {
    if dryRun then DryRunFinished
    else if !atLeastOneNewer then NothingUpdated
    else SomethingUpdated
  }

  // One backup location: a file location is copied, a directory location
  // mirrored, and a path that is neither is skipped. The result says whether
  // a line was written or, for a directory location, a directory created.
  method BackupOneLocation(fs: FileSystem, src: Tree, location: BackupLocation, dryRun: bool)
    returns (updated: bool, err: Option<FsError>)
    requires fs.Valid() && WellFormed(src.files, src.dirs)
    modifies fs
    ensures fs.Valid()
    ensures old(fs.reports) <= fs.reports && old(fs.created) <= fs.created
    ensures updated <==> |fs.reports| > |old(fs.reports)| || (location.path !in src.files && |fs.created| > |old(fs.created)|)
    ensures dryRun ==> err.None? && fs.files == old(fs.files) && fs.dirs == old(fs.dirs) && fs.created == old(fs.created)
    ensures ConfinedTo(old(fs.files), old(fs.dirs), fs.files, fs.dirs, LocationRoot(src, location))
    ensures err.None? ==> NewReports(old(fs.reports), fs.reports) == LocationReports(src, old(fs.files), old(fs.dirs), location)
    ensures err.None? ==> (updated <==> LocationHasWork(src, old(fs.files), old(fs.dirs), location, dryRun))
    ensures !dryRun && err.None? ==> LocationDone(src, fs.files, fs.dirs, location)
    ensures err.Some? ==> !dryRun && LocationFailure(src, old(fs.files), old(fs.dirs), location, err.value)
    ensures forall e :: !dryRun && LocationFailure(src, old(fs.files), old(fs.dirs), location, e) ==> err.Some?
  {
    updated, err := false, None;
    assert old(fs.reports)[|old(fs.reports)|..] == [];
    if location.path in src.files {
      updated, err := BackupFileBackupLocation(fs, src, location, dryRun);
      if |fs.reports| > |old(fs.reports)| {
        NewReportsAppend(old(fs.reports), old(fs.reports), fs.reports[|fs.reports| - 1]);
      }
    } else if location.path in src.dirs {
      assert IsPrefix(location.path, location.path);
      updated, err := BackupDirectoryRecursively(fs, src, location, location.path, location.destination,
                                                 location.excludePaths, dryRun);
    } else {
      assert IsPrefix(location.destination, location.destination);
    }
  }

  // Every backup location of the profile in turn: a file location is copied,
  // a directory location mirrored, and a path that is neither is skipped. The
  // first failure ends the run; otherwise the outcome says whether any
  // location had something to do.
  method DoBackup(fs: FileSystem, src: Tree, profile: BackupProfile) returns (r: Result<RunOutcome, FsError>)
    requires fs.Valid() && WellFormed(src.files, src.dirs)
    modifies fs
    ensures fs.Valid()
    ensures old(fs.reports) <= fs.reports && old(fs.created) <= fs.created
    ensures profile.dryRun ==> r.Success? && fs.files == old(fs.files) && fs.dirs == old(fs.dirs) && fs.created == old(fs.created)
    ensures r.Success? ==> (r.value == DryRunFinished <==> profile.dryRun)
    ensures r.Success? && !profile.dryRun && |fs.reports| > |old(fs.reports)| ==> r.value == SomethingUpdated
    ensures r.Success? && r.value == SomethingUpdated ==> |fs.reports| > |old(fs.reports)| || |fs.created| > |old(fs.created)|
    ensures r.Success? && (profile.dryRun || Disjoint(src, profile.backupLocations)) ==>
              NewReports(old(fs.reports), fs.reports)
              == RunReports(src, old(fs.files), old(fs.dirs), profile.backupLocations, |profile.backupLocations|)
    ensures r.Success? && !profile.dryRun && Disjoint(src, profile.backupLocations) ==>
              (r.value == SomethingUpdated
               <==> exists i :: 0 <= i < |profile.backupLocations|
                                && LocationHasWork(src, old(fs.files), old(fs.dirs), profile.backupLocations[i], false))
    ensures r.Success? && !profile.dryRun && Disjoint(src, profile.backupLocations) ==>
              forall i :: 0 <= i < |profile.backupLocations| ==> LocationDone(src, fs.files, fs.dirs, profile.backupLocations[i])
    ensures r.Success? && !profile.dryRun && |profile.backupLocations| > 0 ==>
              LocationDone(src, fs.files, fs.dirs, profile.backupLocations[|profile.backupLocations| - 1])
    ensures r.Failure? && Disjoint(src, profile.backupLocations) ==>
              exists i :: 0 <= i < |profile.backupLocations|
                          && LocationFailure(src, old(fs.files), old(fs.dirs), profile.backupLocations[i], r.error)
    ensures !profile.dryRun && Disjoint(src, profile.backupLocations) ==>
              forall i, e :: (0 <= i < |profile.backupLocations|
                              && LocationFailure(src, old(fs.files), old(fs.dirs), profile.backupLocations[i], e)) ==> r.Failure?
  {
    var atLeastOneNewer := false;
    var i := 0;
    RunStart(src, profile.backupLocations, profile.dryRun, fs.files, fs.dirs);
    RunTallyStart(src, profile.backupLocations, profile.dryRun, fs.files, fs.dirs, fs.reports);
    while i < |profile.backupLocations|
      invariant 0 <= i <= |profile.backupLocations|
      invariant fs.Valid()
      invariant old(fs.reports) <= fs.reports && old(fs.created) <= fs.created
      invariant profile.dryRun ==> fs.files == old(fs.files) && fs.dirs == old(fs.dirs) && fs.created == old(fs.created)
      invariant |fs.reports| > |old(fs.reports)| ==> atLeastOneNewer
      invariant atLeastOneNewer ==> |fs.reports| > |old(fs.reports)| || |fs.created| > |old(fs.created)|
      invariant RunSoFar(src, profile.backupLocations, i, profile.dryRun, old(fs.files), old(fs.dirs), fs.files, fs.dirs)
      invariant RunTally(src, profile.backupLocations, i, profile.dryRun, old(fs.files), old(fs.dirs), old(fs.reports),
                         fs.reports, atLeastOneNewer)
    {
      var location := profile.backupLocations[i];
      ghost var fB, dB, rB := fs.files, fs.dirs, fs.reports;
      var updated, err := BackupOneLocation(fs, src, location, profile.dryRun);
      if err.Some? {
        if Disjoint(src, profile.backupLocations) {
          LocationFailureKept(src, old(fs.files), old(fs.dirs), fB, dB, location, err.value);
          assert LocationFailure(src, old(fs.files), old(fs.dirs), profile.backupLocations[i], err.value);
        }
        return Failure(err.value);
      }
      RunAdvance(src, profile.backupLocations, i, profile.dryRun, old(fs.files), old(fs.dirs), old(fs.reports),
                 fB, dB, rB, fs.files, fs.dirs, fs.reports, atLeastOneNewer, updated);
      if !atLeastOneNewer && updated {
        atLeastOneNewer := true;
      }
      i := i + 1;
    }
    RunDone(src, profile.backupLocations, profile.dryRun, old(fs.files), old(fs.dirs), old(fs.reports),
            fs.files, fs.dirs, fs.reports, atLeastOneNewer);
    return Success(Outcome(profile.dryRun, atLeastOneNewer));
  }

  // The exception a failed run ends with: the run stopped because of an
  // error, and the one detail line is the failure's message.
  function StoppedBy(e: FsError): (x: BackupException)
    ensures x.errorMessages == [StopBecauseOfError, ErrorMessageTitle]
    ensures x.errorDetails == Some([ErrorMessage(e)])
  {
    FromMessageListAndDetail([StopBecauseOfError, ErrorMessageTitle], Some(ErrorMessage(e)))
  }

  // The entry point of a run: any failure of the filesystem becomes a
  // BackupException that says the backup stopped, with the failure's message
  // as its detail.
  method RunBackup(fs: FileSystem, src: Tree, profile: BackupProfile) returns (r: Result<RunOutcome, BackupException>)
    requires fs.Valid() && WellFormed(src.files, src.dirs)
    modifies fs
    ensures fs.Valid()
    ensures old(fs.reports) <= fs.reports
    ensures profile.dryRun ==> r == Success(DryRunFinished)
    ensures profile.dryRun ==> fs.files == old(fs.files) && fs.dirs == old(fs.dirs)
    ensures r.Success? ==> (r.value == DryRunFinished <==> profile.dryRun)
    ensures r.Success? && !profile.dryRun && |fs.reports| > |old(fs.reports)| ==> r.value == SomethingUpdated
    ensures r.Success? && r.value == SomethingUpdated ==> |fs.reports| > |old(fs.reports)| || |fs.created| > |old(fs.created)|
    ensures r.Failure? ==> !profile.dryRun
    ensures r.Failure? ==> r.error.errorMessages == [StopBecauseOfError, ErrorMessageTitle]
    ensures r.Failure? ==> r.error.errorDetails.Some? && |r.error.errorDetails.value| == 1
    ensures r.Failure? ==> exists e :: r.error == StoppedBy(e)
    ensures r.Failure? && Disjoint(src, profile.backupLocations) ==>
              exists i, e :: 0 <= i < |profile.backupLocations|
                             && LocationFailure(src, old(fs.files), old(fs.dirs), profile.backupLocations[i], e)
                             && r.error == StoppedBy(e)
    ensures !profile.dryRun && Disjoint(src, profile.backupLocations) ==>
              forall i, e :: (0 <= i < |profile.backupLocations|
                              && LocationFailure(src, old(fs.files), old(fs.dirs), profile.backupLocations[i], e)) ==> r.Failure?
    ensures r.Success? && (profile.dryRun || Disjoint(src, profile.backupLocations)) ==>
              NewReports(old(fs.reports), fs.reports)
              == RunReports(src, old(fs.files), old(fs.dirs), profile.backupLocations, |profile.backupLocations|)
    ensures r.Success? && !profile.dryRun && Disjoint(src, profile.backupLocations) ==>
              (r.value == SomethingUpdated
               <==> exists i :: 0 <= i < |profile.backupLocations|
                                && LocationHasWork(src, old(fs.files), old(fs.dirs), profile.backupLocations[i], false))
    ensures r.Success? && !profile.dryRun && Disjoint(src, profile.backupLocations) ==>
              forall i :: 0 <= i < |profile.backupLocations| ==> LocationDone(src, fs.files, fs.dirs, profile.backupLocations[i])
    ensures r.Success? && !profile.dryRun && |profile.backupLocations| > 0 ==>
              LocationDone(src, fs.files, fs.dirs, profile.backupLocations[|profile.backupLocations| - 1])
  {
    var done := DoBackup(fs, src, profile);
    match done
    case Failure(e) =>
      r := Failure(StoppedBy(e));
    case Success(outcome) =>
      r := Success(outcome);
  }
}
