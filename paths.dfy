/** File paths as the program builds and inspects them: joining a directory
    with a file name, taking a name's extension, and deriving the temporary
    path a worker pads an image into. */
module Paths {

  type Path = string

  /** The path separator of the (Unix) hosts the tool runs on. */
  const Separator: char := '/'

  /** A directory joined with a file name. The real join also cleans the
      result (removing `.`, `..` and doubled separators); this one only
      inserts the separator. */
  function Join(dir: Path, name: string): (p: Path)
    ensures |p| == |dir| + 1 + |name|
    ensures p[..|dir|] == dir && p[|dir|] == Separator && p[|dir| + 1..] == name
  {
    dir + [Separator] + name
  }

  /** Joining one directory with two different names gives two different paths. */
  lemma JoinInjective(dir: Path, a: string, b: string)
    requires Join(dir, a) == Join(dir, b)
    ensures a == b
  {
    assert a == Join(dir, a)[|dir| + 1..];
    assert b == Join(dir, b)[|dir| + 1..];
  }

  /** The same fact, read forwards: different names give different paths. */
  lemma JoinInjectiveContra(dir: Path, a: string, b: string)
    requires a != b
    ensures Join(dir, a) != Join(dir, b)
  {
    if Join(dir, a) == Join(dir, b) {
      JoinInjective(dir, a, b);
    }
  }

  /** The extension of `path`: the suffix that starts at the last `.` of its
      final element, or "" when that element has no `.`. */
  function Ext(path: string): (e: string)
    ensures e == "" || (e[0] == '.' && |e| <= |path| && path[|path| - |e|..] == e)
    ensures forall k :: 0 < k < |e| ==> e[k] != '.' && e[k] != Separator
    ensures e == "" ==> forall k :: 0 <= k < |path| && InFinalElement(path, k) ==> path[k] != '.'
  {
    ExtBefore(path, |path|)
  }

  /** Position `k` of `path` lies in its final element: no separator from there on. */
  predicate InFinalElement(path: string, k: nat)
  {
    forall m :: k <= m < |path| ==> path[m] != Separator
  }

  /** Scans `path[..i]` from its end for a `.`, stopping at a separator;
      `path[i..]` has already been scanned. */
  function ExtBefore(path: string, i: nat): (e: string)
    requires i <= |path|
    requires forall k :: i <= k < |path| ==> path[k] != '.' && path[k] != Separator
    ensures e == "" || (e[0] == '.' && |e| <= |path| && path[|path| - |e|..] == e)
    ensures forall k :: 0 < k < |e| ==> e[k] != '.' && e[k] != Separator
    ensures e == "" ==> forall k :: 0 <= k < |path| && InFinalElement(path, k) ==> path[k] != '.'
    decreases i
  {
    if i == 0 || path[i - 1] == Separator then ""
    else if path[i - 1] == '.' then path[i - 1..]
    else ExtBefore(path, i - 1)
  }

  predicate EndsWith(s: string, suffix: string)
  {
    |suffix| <= |s| && s[|s| - |suffix|..] == suffix
  }

  /** A name has extension ".png" exactly when it ends in ".png". */
  lemma PngExtension(name: string)
    ensures Ext(name) == ".png" <==> EndsWith(name, ".png")
  {
    var n := |name|;
    if EndsWith(name, ".png") {
      var tail := name[n - 4..];
      assert tail == ".png";
      assert name[n - 1] == tail[3] == 'g';
      assert name[n - 2] == tail[2] == 'n';
      assert name[n - 3] == tail[1] == 'p';
      assert name[n - 4] == tail[0] == '.';
      calc {
        Ext(name);
        ExtBefore(name, n - 1);
        ExtBefore(name, n - 2);
        ExtBefore(name, n - 3);
        name[n - 4..];
      }
    }
  }

  /** The temporary file a worker pads an image into: its output path followed by "tmp". */
  function TempPath(outFile: Path): (p: Path)
    ensures |p| == |outFile| + 3 && p[..|outFile|] == outFile && p[|outFile|..] == "tmp"
  {
    outFile + "tmp"
  }

  /** Distinct output paths give distinct temporary paths, and a temporary
      path is never its own job's output path. */
  lemma TempPathInjective(a: Path, b: Path)
    ensures TempPath(a) == TempPath(b) <==> a == b
    ensures TempPath(a) != a
  {
    if TempPath(a) == TempPath(b) {
      assert a == TempPath(a)[..|a|];
      assert b == TempPath(b)[..|b|];
    }
  }
}
