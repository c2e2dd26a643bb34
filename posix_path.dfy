/**
 * Models of the two `os.path` functions `upload_file` uses, as Python's
 * `posixpath` module defines them for '/'-separated paths.
 */
module PosixPath {
  import opened Wrappers
  import PyStr

  predicate IsAbsolute(p: string)
  {
    |p| > 0 && p[0] == '/'
  }

  predicate StartsWith(p: string, prefix: string)
  {
    |prefix| <= |p| && p[..|prefix|] == prefix
  }

  predicate EndsWith(p: string, suffix: string)
  {
    |suffix| <= |p| && p[|p| - |suffix|..] == suffix
  }

  /**
   * `os.path.join(a, b)`: an absolute `b` replaces `a`; otherwise `b` is
   * appended to `a`, with a '/' in between unless `a` is empty or already
   * ends in one.
   */
  function Join(a: string, b: string): (p: string)
    ensures EndsWith(p, b)
    ensures IsAbsolute(b) ==> p == b
    ensures !IsAbsolute(b) ==> StartsWith(p, a)
    ensures !IsAbsolute(b) ==> |a| + |b| <= |p| <= |a| + 1 + |b|
    ensures a == [] ==> p == b
    ensures !IsAbsolute(b) && |a| > 0 && a[|a| - 1] == '/' ==> |p| == |a| + |b|
    ensures |p| > |b| ==> p[|p| - |b| - 1] == '/'
  {
    if IsAbsolute(b) then b
    else if a == [] || a[|a| - 1] == '/' then a + b
    else a + "/" + b
  }

  /** Under a directory that ends in '/', joining a relative name is plain concatenation. */
  lemma JoinUnderDirectory(dir: string, name: string)
    requires |dir| > 0 && dir[|dir| - 1] == '/' && !IsAbsolute(name)
    ensures Join(dir, name) == dir + name
  {
  }

  /** `os.path.basename(p)`: everything after the last '/', or all of `p` when it has none. */
  function Basename(p: string): (name: string)
    ensures '/' !in name
    ensures EndsWith(p, name)
    ensures |p| > |name| ==> p[|p| - |name| - 1] == '/'
  {
    match PyStr.LastIndexOf(p, '/')
    case None => p
    case Some(i) => p[i + 1..]
  }

  /**
   * A path has only one '/'-free final component: a '/'-free suffix that is
   * either the whole path or preceded by a '/'.
   */
  lemma FinalComponentUnique(p: string, x: string, y: string)
    requires '/' !in x && EndsWith(p, x) && (|p| > |x| ==> p[|p| - |x| - 1] == '/')
    requires '/' !in y && EndsWith(p, y) && (|p| > |y| ==> p[|p| - |y| - 1] == '/')
    ensures x == y
  {
  }

  /** Joining a '/'-free name under any directory and taking the basename gives the name back. */
  lemma BasenameOfJoin(dir: string, name: string)
    requires '/' !in name
    ensures Basename(Join(dir, name)) == name
  {
    var p := Join(dir, name);
    FinalComponentUnique(p, Basename(p), name);
  }
}
