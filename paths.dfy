// Filesystem paths as sequences of names, their rendering as '/'-separated
// strings, and the shortening of a path relative to a backup location.
module Paths {
  import opened Exclusion

  // A path is the list of its names from the root: ["home", "a.txt"] is "/home/a.txt".
  type Path = seq<string>

  function Parent(p: Path): Path
    requires p != []
  {
    p[..|p| - 1]
  }

  // `Path.GetFileName`: the last name of a path.
  function Last(p: Path): string
    requires p != []
  {
    p[|p| - 1]
  }

  // `Path.Combine(dir, name)`.
  function Child(dir: Path, name: string): (p: Path)
    ensures p != [] && Parent(p) == dir && Last(p) == name
  {
    dir + [name]
  }

  // `p` is a direct entry of `dir`.
  predicate IsChildOf(p: Path, dir: Path) {
    p != [] && Parent(p) == dir
  }

  // `p` is `root` itself or lies somewhere below it.
  predicate IsPrefix(root: Path, p: Path) {
    |root| <= |p| && p[..|root|] == root
  }

  // No name contains the separator.
  predicate WellNamed(p: Path) {
    forall i :: 0 <= i < |p| ==> '/' !in p[i]
  }

  // The string form of a path: "/" before every name.
  function Render(p: Path): string {
    if p == [] then "" else Render(Parent(p)) + "/" + Last(p)
  }

  lemma ChildOfParent(p: Path)
    requires p != []
    ensures p == Child(Parent(p), Last(p))
  {
  }

  lemma {:induction false} PrefixTransitive(a: Path, b: Path, c: Path)
    requires IsPrefix(a, b) && IsPrefix(b, c)
    ensures IsPrefix(a, c)
  {
    assert c[..|a|] == c[..|b|][..|a|];
  }

  // Rendering distributes over concatenation.
  lemma {:induction false} RenderAppend(a: Path, b: Path)
    ensures Render(a + b) == Render(a) + Render(b)
    decreases |b|
  {
    if b == [] {
      assert a + b == a;
    } else {
      assert Parent(a + b) == a + Parent(b);
      assert Last(a + b) == Last(b);
      RenderAppend(a, Parent(b));
    }
  }

  lemma {:induction false} RenderStartsWithSeparator(p: Path)
    requires p != []
    ensures |Render(p)| > 0 && Render(p)[0] == '/'
    decreases |p|
  {
    if Parent(p) != [] {
      RenderStartsWithSeparator(Parent(p));
    }
  }

  // The path as reported to the user: the rendered path with the first
  // |rendered location path| characters removed, which is the rendering of
  // the names below the location.
  function Relative(location: Path, p: Path): (shown: string)
    requires IsPrefix(location, p)
    ensures shown == Render(p[|location|..])
  {
    assert p == location + p[|location|..];
    RenderAppend(location, p[|location|..]);
    Render(p)[|Render(location)|..]
  }

  lemma SuffixAt(r: string, s: string, k: int)
    ensures EndsWith(r, s) && 0 <= k < |s| ==> r[|r| - |s| + k] == s[k]
  {
  }

  lemma JoinedAt(front: string, l: string, j: int)
    ensures (front + "/" + l)[|front|] == '/'
    ensures 0 <= j < |l| ==> (front + "/" + l)[|front| + 1 + j] == l[j]
  {
  }

  lemma NoSeparatorAt(x: string, j: int)
    ensures '/' !in x && 0 <= j < |x| ==> x[j] != '/'
  {
  }

  // A wildcard "*/<name>/*" excludes every directory called <name>, at any depth.
  lemma WildcardExcludesNamedDirectoryAtAnyDepth(d: Path, name: string)
    requires d != [] && Last(d) == name
    ensures ShouldDirectoryBeExcluded(Render(d), ["*/" + name + "/*"])
  {
    var r := Render(d);
    assert r == Render(Parent(d)) + ("/" + name);
    assert r[|r| - |"/" + name|..] == "/" + name;
    DirectoryWildcardRule(name, r);
  }

  // Conversely, when no name contains '/', such a wildcard excludes only the
  // directories called <name>.
  lemma WildcardExcludesOnlyThatName(d: Path, name: string)
    requires WellNamed(d) && '/' !in name
    requires ShouldDirectoryBeExcluded(Render(d), ["*/" + name + "/*"])
    ensures d != [] && Last(d) == name
  {
    var r := Render(d);
    var s := "/" + name;
    DirectoryWildcardRule(name, r);
    if d == [] {
      assert false;
    }
    RenderStartsWithSeparator(d);
    if r == "*/" + name + "/*" {
      assert false;
    }
    var l := Last(d);
    assert '/' !in l by { assert l == d[|d| - 1]; }
    assert r == Render(Parent(d)) + "/" + l;
    var front := Render(Parent(d));
    assert EndsWith(r, s);
    SuffixAt(r, s, 0);
    SuffixAt(r, s, |s| - |l| - 1);
    JoinedAt(front, l, |l| - |s|);
    NoSeparatorAt(l, |l| - |s|);
    NoSeparatorAt(name, |name| - |l| - 1);
    if |l| > |name| {
      assert false;
    } else if |l| < |name| {
      assert false;
    } else {
      assert r[|r| - |s|..] == "/" + l;
      assert l == ("/" + l)[1..] && name == s[1..];
    }
  }
}
