// An in-memory filesystem: the source tree a backup reads (an immutable
// snapshot) and the destination volume it writes (an object whose primitive
// operations are the .NET calls the backup makes), plus the console on which
// the backup reports what it adds, updates and removes.
module FileSystems {
  import opened Wrappers
  import opened Paths

  // A regular file: its bytes, its last-write time and its read-only attribute.
  datatype FileRec = FileRec(content: seq<bv8>, mtime: int, readOnly: bool)

  // The source tree as the backup sees it; the backup never writes it.
  datatype Tree = Tree(files: map<Path, FileRec>, dirs: set<Path>)

  // One line of backup output; the path is shown relative to the backup location.
  datatype Report = Added(path: string) | Updated(path: string) | Removed(path: string)

  // Why a filesystem call threw.
  datatype FsError =
    | NotADirectory(path: Path)     // CreateDirectory where a file is in the way
    | IsADirectory(path: Path)      // File.Copy onto an existing directory
    | AccessDenied(path: Path)      // File.Copy or File.Delete on a read-only file
    | DirectoryNotEmpty(path: Path) // DirectoryInfo.Delete on a directory with entries

  // The exception's message, naming the failing path.
  function ErrorMessage(e: FsError): (message: string)
    ensures |message| > |Render(e.path)|
    ensures message[|message| - |Render(e.path)|..] == Render(e.path)
  {
    var reason := match e
      case NotADirectory(_) => "A file exists where a directory is to be created: "
      case IsADirectory(_) => "The target is a directory: "
      case AccessDenied(_) => "Access to the path is denied: "
      case DirectoryNotEmpty(_) => "The directory is not empty: ";
    reason + Render(e.path)
  }

  // The files and directories of a volume form a tree: the root is a
  // directory, every other entry sits in a directory, and no path is both a
  // file and a directory.
  ghost predicate WellFormed(files: map<Path, FileRec>, dirs: set<Path>) {
    && [] in dirs
    && (forall p :: p in files ==> p !in dirs && p != [] && Parent(p) in dirs)
    && (forall d :: d in dirs && d != [] ==> Parent(d) in dirs)
  }

  // Every proper ancestor of an entry of a well-formed tree is a directory.
  lemma {:induction false} AncestorIsDirectory(files: map<Path, FileRec>, dirs: set<Path>, p: Path, q: Path)
    requires WellFormed(files, dirs)
    requires p in files || p in dirs
    requires IsPrefix(q, p) && q != p
    ensures q in dirs
    decreases |p|
  {
    var up := Parent(p);
    assert up in dirs;
    assert |q| < |p|;
    if |q| < |up| {
      assert up[..|q|] == p[..|q|];
      AncestorIsDirectory(files, dirs, up, q);
    } else {
      assert q == p[..|q|] == up;
    }
  }

  // All paths from the root down to `d`: what CreateDirectory(d) makes.
  function Prefixes(d: Path): (ps: set<Path>)
    ensures forall i :: 0 <= i <= |d| ==> d[..i] in ps
    ensures forall p :: p in ps ==> IsPrefix(p, d)
  {
    set i | 0 <= i <= |d| :: d[..i]
  }

  // Some path on the way to `d`, or `d` itself, is a file.
  predicate BlockedByFile(files: map<Path, FileRec>, d: Path) {
    exists i :: 0 <= i <= |d| && d[..i] in files
  }

  // The destination volume, together with the console that reports on it.
  class FileSystem {
    var files: map<Path, FileRec>
    var dirs: set<Path>
    // Lines written to the console by the backup.
    var reports: seq<Report>
    // The directories the backup asked CreateDirectory to make, in order.
    ghost var created: seq<Path>

    ghost predicate Valid()
      reads this
    {
      WellFormed(files, dirs)
    }

    constructor (files0: map<Path, FileRec>, dirs0: set<Path>)
      requires WellFormed(files0, dirs0)
      ensures Valid()
      ensures files == files0 && dirs == dirs0 && reports == [] && created == []
    {
      files, dirs, reports, created := files0, dirs0, [], [];
    }

    // ConsoleWriter.WriteBackupAddition / WriteBackupUpdate / WriteBackupRemove.
    method Write(r: Report)
      modifies this
      ensures reports == old(reports) + [r]
      ensures files == old(files) && dirs == old(dirs) && created == old(created)
    {
      reports := reports + [r];
    }

    // Directory.CreateDirectory: makes `d` and every missing ancestor, and
    // throws when a file stands on the way.
    method CreateDirectory(d: Path) returns (err: Option<FsError>)
      requires Valid()
      modifies this
      ensures Valid()
      ensures files == old(files) && reports == old(reports)
      ensures err.Some? <==> BlockedByFile(old(files), d)
      ensures err.Some? ==> err.value == NotADirectory(d)
      ensures err.Some? ==> dirs == old(dirs) && created == old(created)
      ensures err.None? ==> dirs == old(dirs) + Prefixes(d) && created == old(created) + [d]
    {
      if exists i | 0 <= i <= |d| :: d[..i] in files {
        return Some(NotADirectory(d));
      }
      var ps := Prefixes(d);
      forall q | q in ps && q != []
        ensures Parent(q) in ps
      {
        assert Parent(q) == d[..|q| - 1];
      }
      assert d[..0] == [];
      dirs := dirs + ps;
      created := created + [d];
      err := None;
    }

    // File.Copy(source, dest, overwrite: true): the destination takes the
    // source file's bytes, last-write time and attributes. Throws on a
    // directory and on a read-only destination file.
    method CopyFile(source: FileRec, dest: Path) returns (err: Option<FsError>)
      requires Valid() && dest != [] && Parent(dest) in dirs
      modifies this
      ensures Valid()
      ensures dirs == old(dirs) && reports == old(reports) && created == old(created)
      ensures err == (if dest in old(dirs) then Some(IsADirectory(dest))
                      else if dest in old(files) && old(files)[dest].readOnly then Some(AccessDenied(dest))
                      else None)
      ensures err.Some? ==> files == old(files)
      ensures err.None? ==> files == old(files)[dest := source]
    {
      if dest in dirs {
        return Some(IsADirectory(dest));
      }
      if dest in files && files[dest].readOnly {
        return Some(AccessDenied(dest));
      }
      files := files[dest := source];
      err := None;
    }

    // FileInfo.IsReadOnly = false.
    method SetWritable(p: Path)
      requires Valid() && p in files
      modifies this
      ensures Valid()
      ensures files == old(files)[p := old(files)[p].(readOnly := false)]
      ensures dirs == old(dirs) && reports == old(reports) && created == old(created)
    {
      files := files[p := files[p].(readOnly := false)];
    }

    // File.Delete: throws on a read-only file.
    method DeleteFile(p: Path) returns (err: Option<FsError>)
      requires Valid() && p in files
      modifies this
      ensures Valid()
      ensures dirs == old(dirs) && reports == old(reports) && created == old(created)
      ensures err.Some? <==> old(files)[p].readOnly
      ensures err.Some? ==> files == old(files)
      ensures err.None? ==> files == old(files) - {p}
    {
      if files[p].readOnly {
        return Some(AccessDenied(p));
      }
      files := files - {p};
      err := None;
    }

    // DirectoryInfo.Delete(): removes an empty directory, throws otherwise.
    method DeleteEmptyDirectory(d: Path) returns (err: Option<FsError>)
      requires Valid() && d in dirs && d != []
      modifies this
      ensures Valid()
      ensures files == old(files) && reports == old(reports) && created == old(created)
      ensures err.Some? <==> (exists p :: p in old(files) && IsChildOf(p, d)) || (exists q :: q in old(dirs) && IsChildOf(q, d))
      ensures err.Some? ==> dirs == old(dirs)
      ensures err.None? ==> dirs == old(dirs) - {d}
    {
      if (exists p | p in files :: IsChildOf(p, d)) || (exists q | q in dirs :: IsChildOf(q, d)) {
        return Some(DirectoryNotEmpty(d));
      }
      dirs := dirs - {d};
      err := None;
    }
  }
}
