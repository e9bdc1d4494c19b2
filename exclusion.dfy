// The exclusion matcher of a backup location: pure string tests of a file or
// directory path against the location's list of exclude patterns.
// Three kinds of pattern are recognised:
//  - any pattern, compared verbatim with the full path (files and directories);
//  - "*.<ext>", a suffix test for files: the path must end with ".<ext>";
//  - "*/<name>/*", a suffix test for directories: the path
//    must end with "/<name>". The separator is a literal '/'.
// No other form has a meaning: "foo*" or "*/dir/*" applied to a file excludes
// it only when the file's path equals the pattern verbatim.
module Exclusion {

  predicate StartsWith(s: string, prefix: string) {
    |prefix| <= |s| && s[..|prefix|] == prefix
  }

  predicate EndsWith(s: string, suffix: string) {
    |suffix| <= |s| && s[|s| - |suffix|..] == suffix
  }

  // A pattern that names a file extension ("*.txt").
  predicate IsExtensionPattern(pattern: string) {
    StartsWith(pattern, "*.")
  }

  // A pattern that names a directory at any depth ("*/node_modules/*").
  predicate IsDirectoryWildcard(pattern: string) {
    StartsWith(pattern, "*/") && EndsWith(pattern, "/*")
  }

  // The text a directory wildcard compares with the end of a directory path:
  // the pattern's characters from index 1 on, `Length - 3` of them. Every
  // directory wildcard has at least three characters, so the range is in bounds;
  // the text keeps the leading '/' and drops the trailing "/*".
  function WildcardDirectory(pattern: string): (suffix: string)
    requires IsDirectoryWildcard(pattern)
    ensures |pattern| >= 3 && |suffix| == |pattern| - 3
    ensures pattern == "*" + suffix + "/*"
  {
    assert pattern[0] == '*' && pattern[1] == '/';
    assert pattern == [pattern[0]] + pattern[1..|pattern| - 2] + pattern[|pattern| - 2..];
    pattern[1..|pattern| - 2]
  }

  // One "*.<ext>" pattern matching one file path.
  predicate ExtensionMatches(pattern: string, filePath: string) {
    IsExtensionPattern(pattern) && EndsWith(filePath, pattern[1..])
  }

  // One "*/<name>/*" pattern matching one directory path.
  predicate WildcardMatches(pattern: string, dirPath: string) {
    IsDirectoryWildcard(pattern) && EndsWith(dirPath, WildcardDirectory(pattern))
  }

  // The rule of a single pattern for a file: verbatim, or extension suffix.
  predicate ExcludesFile(pattern: string, filePath: string) {
    filePath == pattern || ExtensionMatches(pattern, filePath)
  }

  // The rule of a single pattern for a directory: verbatim, or directory wildcard.
  predicate ExcludesDirectory(pattern: string, dirPath: string) {
    dirPath == pattern || WildcardMatches(pattern, dirPath)
  }

  // The search over the patterns for an extension pattern the file path ends with.
  function ContainsExcludedFileExtension(filePath: string, excludePaths: seq<string>): (r: bool)
    ensures r <==> exists i :: 0 <= i < |excludePaths| && ExtensionMatches(excludePaths[i], filePath)
  {
    if excludePaths == [] then false
    else if ExtensionMatches(excludePaths[0], filePath) then true
    else
      var rest := ContainsExcludedFileExtension(filePath, excludePaths[1..]);
      assert forall i :: 1 <= i < |excludePaths| ==> excludePaths[i] == excludePaths[1..][i - 1];
      rest
  }

  // The search over the patterns for a directory wildcard the directory path ends with.
  function ContainsExcludedDirectoryWildcard(dirPath: string, excludePaths: seq<string>): (r: bool)
    ensures r <==> exists i :: 0 <= i < |excludePaths| && WildcardMatches(excludePaths[i], dirPath)
  {
    if excludePaths == [] then false
    else if WildcardMatches(excludePaths[0], dirPath) then true
    else
      var rest := ContainsExcludedDirectoryWildcard(dirPath, excludePaths[1..]);
      assert forall i :: 1 <= i < |excludePaths| ==> excludePaths[i] == excludePaths[1..][i - 1];
      rest
  }

  // A file is excluded exactly when some pattern excludes it.
  function ShouldFileBeExcluded(filePath: string, excludePaths: seq<string>): (r: bool)
    ensures r <==> exists i :: 0 <= i < |excludePaths| && ExcludesFile(excludePaths[i], filePath)
  {
    if filePath in excludePaths then true
    else ContainsExcludedFileExtension(filePath, excludePaths)
  }

  // A directory is excluded exactly when some pattern excludes it.
  function ShouldDirectoryBeExcluded(dirPath: string, excludePaths: seq<string>): (r: bool)
    ensures r <==> exists i :: 0 <= i < |excludePaths| && ExcludesDirectory(excludePaths[i], dirPath)
  {
    if dirPath in excludePaths then true
    else ContainsExcludedDirectoryWildcard(dirPath, excludePaths)
  }

  // A "*.<ext>" pattern excludes exactly the files whose path ends with the pattern minus its '*'.
  lemma ExtensionPatternRule(pattern: string, filePath: string)
    requires IsExtensionPattern(pattern)
    ensures ShouldFileBeExcluded(filePath, [pattern]) <==> filePath == pattern || EndsWith(filePath, pattern[1..])
  {
    assert ExcludesFile([pattern][0], filePath) <==> filePath == pattern || EndsWith(filePath, pattern[1..]);
  }

  // Only verbatim entries and "*." patterns exclude files: "*/dir/*" or "foo*" never do on their own.
  lemma FileExcludedOnlyVerbatimOrByExtension(filePath: string, excludePaths: seq<string>)
    requires forall i :: 0 <= i < |excludePaths| ==> !IsExtensionPattern(excludePaths[i])
    ensures ShouldFileBeExcluded(filePath, excludePaths) <==> filePath in excludePaths
  {
    if ShouldFileBeExcluded(filePath, excludePaths) {
      var i :| 0 <= i < |excludePaths| && ExcludesFile(excludePaths[i], filePath);
      assert excludePaths[i] == filePath;
    }
  }

  // Directory wildcards never exclude a file unless it equals the pattern verbatim.
  lemma DirectoryWildcardsSpareFiles(filePath: string, excludePaths: seq<string>)
    requires forall i :: 0 <= i < |excludePaths| ==> IsDirectoryWildcard(excludePaths[i])
    ensures ShouldFileBeExcluded(filePath, excludePaths) <==> filePath in excludePaths
  {
    forall i | 0 <= i < |excludePaths|
      ensures !IsExtensionPattern(excludePaths[i])
    {
      assert excludePaths[i][1] == '/';
    }
    FileExcludedOnlyVerbatimOrByExtension(filePath, excludePaths);
  }

  // Extension patterns never exclude a directory unless it equals the pattern verbatim.
  lemma ExtensionPatternsSpareDirectories(dirPath: string, excludePaths: seq<string>)
    requires forall i :: 0 <= i < |excludePaths| ==> IsExtensionPattern(excludePaths[i])
    ensures ShouldDirectoryBeExcluded(dirPath, excludePaths) <==> dirPath in excludePaths
  {
    if ShouldDirectoryBeExcluded(dirPath, excludePaths) {
      var i :| 0 <= i < |excludePaths| && ExcludesDirectory(excludePaths[i], dirPath);
      assert excludePaths[i][1] == '.';
      assert !IsDirectoryWildcard(excludePaths[i]);
    }
  }

  // A wildcard "*/<name>/*" excludes exactly the directories whose path ends with "/<name>" (or equals the pattern).
  lemma DirectoryWildcardRule(name: string, dirPath: string)
    ensures ShouldDirectoryBeExcluded(dirPath, ["*/" + name + "/*"])
        <==> dirPath == "*/" + name + "/*" || EndsWith(dirPath, "/" + name)
  {
    var pattern := "*/" + name + "/*";
    assert StartsWith(pattern, "*/") by { assert pattern[..2] == "*/"; }
    assert EndsWith(pattern, "/*") by { assert pattern[|pattern| - 2..] == "/*"; }
    assert WildcardDirectory(pattern) == "/" + name by {
      assert pattern == "*" + ("/" + name) + "/*";
    }
    assert ExcludesDirectory([pattern][0], dirPath) <==> dirPath == pattern || EndsWith(dirPath, "/" + name);
  }

  // Degenerate wildcard: "*/*" extracts the empty text and so excludes every directory.
  lemma CatchAllWildcard(dirPath: string, excludePaths: seq<string>)
    requires "*/*" in excludePaths
    ensures ShouldDirectoryBeExcluded(dirPath, excludePaths)
  {
    var i :| 0 <= i < |excludePaths| && excludePaths[i] == "*/*";
    assert WildcardDirectory(excludePaths[i]) == "";
    assert ExcludesDirectory(excludePaths[i], dirPath);
  }

  // The verdicts depend only on which patterns are present, not on their order or repetition.
  lemma ExclusionIgnoresOrder(path: string, a: seq<string>, b: seq<string>)
    requires forall p :: p in a <==> p in b
    ensures ShouldFileBeExcluded(path, a) == ShouldFileBeExcluded(path, b)
    ensures ShouldDirectoryBeExcluded(path, a) == ShouldDirectoryBeExcluded(path, b)
  {
    forall x, y | (x == a && y == b) || (x == b && y == a)
      ensures ShouldFileBeExcluded(path, x) ==> ShouldFileBeExcluded(path, y)
      ensures ShouldDirectoryBeExcluded(path, x) ==> ShouldDirectoryBeExcluded(path, y)
    {
      if ShouldFileBeExcluded(path, x) {
        var i :| 0 <= i < |x| && ExcludesFile(x[i], path);
        assert x[i] in y;
        var j :| 0 <= j < |y| && y[j] == x[i];
        assert ExcludesFile(y[j], path);
      }
      if ShouldDirectoryBeExcluded(path, x) {
        var i :| 0 <= i < |x| && ExcludesDirectory(x[i], path);
        assert x[i] in y;
        var j :| 0 <= j < |y| && y[j] == x[i];
        assert ExcludesDirectory(y[j], path);
      }
    }
  }

  // Adding patterns, before or after the existing ones, never turns an exclusion into an inclusion.
  lemma ExclusionMonotone(path: string, a: seq<string>, more: seq<string>)
    ensures ShouldFileBeExcluded(path, a) ==> ShouldFileBeExcluded(path, a + more) && ShouldFileBeExcluded(path, more + a)
    ensures ShouldDirectoryBeExcluded(path, a) ==> ShouldDirectoryBeExcluded(path, a + more) && ShouldDirectoryBeExcluded(path, more + a)
  {
    if ShouldFileBeExcluded(path, a) {
      var i :| 0 <= i < |a| && ExcludesFile(a[i], path);
      assert (a + more)[i] == a[i];
      assert (more + a)[|more| + i] == a[i];
    }
    if ShouldDirectoryBeExcluded(path, a) {
      var i :| 0 <= i < |a| && ExcludesDirectory(a[i], path);
      assert (a + more)[i] == a[i];
      assert (more + a)[|more| + i] == a[i];
    }
  }
}
