/** `path.join` and `path.dirname` for `/`-separated paths. */
module Paths {
  import opened Wrappers

  /** `path.join(dir, name)` */
  function JoinPath(dir: string, name: string): string {
    dir + "/" + name
  }

  /** `lastIndexOf`: the position of the last `c` in `s`, if any. */
  function LastIndexOf(s: string, c: char): (r: Option<nat>)
    ensures r.Some? ==> r.value < |s| && s[r.value] == c && forall j :: r.value < j < |s| ==> s[j] != c
    ensures r.None? ==> forall j :: 0 <= j < |s| ==> s[j] != c
    decreases |s|
  {
    if s == [] then None
    else if s[|s| - 1] == c then Some(|s| - 1)
    else LastIndexOf(s[..|s| - 1], c)
  }

  /** `path.dirname(path)`: everything before the last separator, or "." when there is none. */
  function DirName(path: string): (r: string)
    ensures '/' !in path ==> r == "."
    ensures '/' in path ==> |r| < |path| && r == path[..|r|] && path[|r|] == '/' && '/' !in path[|r| + 1..]
  {
    match LastIndexOf(path, '/')
    case None => "."
    case Some(k) => path[..k]
  }

  /** The directory of a joined path is the directory it was joined to. */
  lemma DirNameOfJoin(dir: string, name: string)
    requires '/' !in name
    ensures DirName(JoinPath(dir, name)) == dir
  {
    var p := JoinPath(dir, name);
    assert p[|dir|] == '/';
    var k := LastIndexOf(p, '/');
    assert k.Some?;
    assert k.value == |dir|;
    assert p[..|dir|] == dir;
  }
}
