/** The two `os.path` helpers the robot uses on POSIX paths: `basename` and `join`. */
module Paths {

  /** `p.rfind('/')` */
  function LastSlash(p: string): (r: int)
    ensures -1 <= r < |p|
    ensures r >= 0 ==> p[r] == '/'
    ensures forall k | r < k < |p| :: p[k] != '/'
    decreases |p|
  {
    if p == [] then -1
    else if p[|p| - 1] == '/' then |p| - 1
    else LastSlash(p[..|p| - 1])
  }

  /** `os.path.basename(p)`: the longest suffix of `p` without a slash. */
  function BaseName(p: string): (name: string)
    ensures '/' !in name
    ensures |name| <= |p| && name == p[|p| - |name|..]
    ensures |name| < |p| ==> p[|p| - |name| - 1] == '/'
  {
    p[LastSlash(p) + 1..]
  }

  /** `os.path.join(dir, name)` */
  function PathJoin(dir: string, name: string): string {
    if name != [] && name[0] == '/' then name
    else if dir == [] || dir[|dir| - 1] == '/' then dir + name
    else dir + "/" + name
  }

  /** The base name of a file joined onto a directory is the file's own name. */
  lemma BaseNameOfJoin(dir: string, name: string)
    requires '/' !in name
    ensures BaseName(PathJoin(dir, name)) == name
  {
    var q := if dir == [] || dir[|dir| - 1] == '/' then dir else dir + "/";
    assert PathJoin(dir, name) == q + name;
    LastSlashAppend(q, name);
  }

  lemma {:induction false} LastSlashAppend(q: string, name: string)
    requires '/' !in name
    ensures LastSlash(q + name) == LastSlash(q)
    decreases |name|
  {
    if name != [] {
      assert (q + name)[..|q + name| - 1] == q + name[..|name| - 1];
      LastSlashAppend(q, name[..|name| - 1]);
    } else {
      assert q + name == q;
    }
  }
}
