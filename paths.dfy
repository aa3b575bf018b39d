/**
  The slash-separated path operations goFix uses to name a patched copy:
  path.Dir, path.Base and path.Join, on paths that are already clean, and the
  sibling "tmp.<base>" that Join(Dir(p), "tmp." + Base(p)) gives
  (src/gorun/gorun.go:71-73).
 */
module Paths {
  import opened Wrappers

  /** The prefix that marks a patched copy. */
  const TempPrefix: string := "tmp."

  /** The index of the last occurrence of c in s, if any. */
  function LastIndexOf(s: string, c: char): (r: Option<nat>)
    ensures r.None? ==> c !in s
    ensures r.Some? ==> r.value < |s| && s[r.value] == c && c !in s[r.value + 1..]
  {
    if |s| == 0 then None
    else if s[|s| - 1] == c then Some(|s| - 1)
    else
      var r := LastIndexOf(s[..|s| - 1], c);
      assert r.Some? ==> s[r.value + 1..] == s[..|s| - 1][r.value + 1..] + [s[|s| - 1]];
      r
  }

  /** path.Dir: everything before the last slash; "." without one, "/" for a root entry. */
  function Dir(p: string): string
  {
    match LastIndexOf(p, '/')
    case None => "."
    case Some(i) => if i == 0 then "/" else p[..i]
  }

  /** path.Base: everything after the last slash. */
  function Base(p: string): string
  {
    match LastIndexOf(p, '/')
    case None => p
    case Some(i) => p[i + 1..]
  }

  /** path.Join of a clean directory and a slash-free name other than "", "." and "..", such as one starting with "tmp.". */
  function Join(dir: string, name: string): string
  {
    if dir == "." then name
    else if dir == "/" then "/" + name
    else dir + "/" + name
  }

  /** The patched copy of p: Join(Dir(p), "tmp." + Base(p)). */
  function TempPath(p: string): string
  {
    Join(Dir(p), TempPrefix + Base(p))
  }

  /** The element of p that starts at i is "." or "..". */
  predicate DotElement(p: string, i: int)
  {
    && 0 <= i < |p| && (i == 0 || p[i - 1] == '/') && p[i] == '.'
    && (i + 1 == |p| || p[i + 1] == '/' || (p[i + 1] == '.' && (i + 2 == |p| || p[i + 2] == '/')))
  }

  /**
    Paths that path.Clean leaves as they are, and on which Dir and Base above
    agree with Go's: non-empty, with no trailing slash, no empty element ("//")
    and no "." or ".." element. path.Clean also leaves "/", "." and the leading
    ".." elements of a relative path alone; those are not clean here.
   */
  predicate Clean(p: string)
  {
    && |p| > 0 && p[|p| - 1] != '/'
    && (forall i :: 0 <= i < |p| - 1 ==> !(p[i] == '/' && p[i + 1] == '/'))
    && (forall i :: 0 <= i < |p| ==> !DotElement(p, i))
  }

  lemma {:induction false} LastIndexOfConcat(a: string, c: char, b: string)
    requires c !in b
    ensures LastIndexOf(a + [c] + b, c) == Some(|a|)
    decreases |b|
  {
    var s := a + [c] + b;
    if |b| > 0 {
      assert s[..|s| - 1] == a + [c] + b[..|b| - 1];
      LastIndexOfConcat(a, c, b[..|b| - 1]);
    }
  }

  /** A clean path is its directory joined with its base. */
  lemma JoinDirBase(p: string)
    requires Clean(p)
    ensures Join(Dir(p), Base(p)) == p
  {
    match LastIndexOf(p, '/')
    case None =>
    case Some(i) =>
      if i == 0 {
        assert p == "/" + p[1..];
      } else {
        assert !DotElement(p, 0);
        assert p[..i] != "." && p[..i] != "/";
        assert p == p[..i] + "/" + p[i + 1..];
      }
  }

  /** The base is the slash-free end of the path, and the whole path when it has no slash. */
  lemma BaseParts(p: string)
    ensures var b := Base(p);
      && '/' !in b && |b| <= |p| && b == p[|p| - |b|..]
      && (b == p <==> '/' !in p)
  {
    match LastIndexOf(p, '/')
    case None =>
    case Some(i) =>
      assert p[i] in p && p[i] !in p[i + 1..];
  }

  /** Joining a slash-free name onto a directory: Dir and Base take the two apart again. */
  lemma JoinParts(d: string, name: string)
    requires d != "" && '/' !in name
    ensures Dir(Join(d, name)) == d && Base(Join(d, name)) == name
  {
    if d == "." {
      assert Join(d, name) == name;
      assert LastIndexOf(name, '/').None?;
    } else if d == "/" {
      assert Join(d, name) == "" + "/" + name;
      SlashParts("", name);
    } else {
      assert Join(d, name) == d + "/" + name;
      SlashParts(d, name);
    }
  }

  /** d + "/" + name, for a slash-free name, has its last slash right after d. */
  lemma SlashParts(d: string, name: string)
    requires '/' !in name
    ensures var p := d + "/" + name;
      Dir(p) == (if |d| == 0 then "/" else d) && Base(p) == name
  {
    LastIndexOfConcat(d, '/', name);
    assert d + "/" + name == d + ['/'] + name;
  }

  /** The patched copy sits in the same directory, its base the original's with the prefix. */
  lemma TempPathParts(p: string)
    ensures Dir(TempPath(p)) == Dir(p)
    ensures Base(TempPath(p)) == TempPrefix + Base(p)
  {
    assert Dir(p) != "" by {
      match LastIndexOf(p, '/')
      case None =>
      case Some(i) =>
    }
    BaseParts(p);
    JoinParts(Dir(p), TempPrefix + Base(p));
  }

  /** A patched copy never has the name of its original. */
  lemma TempPathDiffers(p: string)
    ensures TempPath(p) != p
  {
    TempPathParts(p);
  }

  /** Distinct clean paths have distinct patched copies. */
  lemma TempPathInjective(p: string, q: string)
    requires Clean(p) && Clean(q)
    ensures TempPath(p) == TempPath(q) <==> p == q
  {
    if TempPath(p) == TempPath(q) {
      TempPathParts(p);
      TempPathParts(q);
      assert Base(p) == (TempPrefix + Base(p))[|TempPrefix|..];
      assert Base(q) == (TempPrefix + Base(q))[|TempPrefix|..];
      JoinDirBase(p);
      JoinDirBase(q);
    }
  }
}
