/** Path comparison, `is_parent_path` of util.c. */
module Paths {
  import opened Posix

  predicate IsParentPath(parent: string, child: string) {
    parent <= child && (|parent| == |child| || child[|parent|] == '/')
  }

  function Child(path: string, name: string): (r: string)
    ensures NulFree(path) && FileName(name) ==> NulFree(r)
    ensures IsParentPath(path, r)
  {
    path + "/" + name
  }

  /** `path` is `parent`, a slash and one file name. */
  predicate IsChildOf(parent: string, path: string) {
    && |parent| < |path| && IsParentPath(parent, path)
    && EntryName(path[|parent| + 1..])
  }

  function TrimSlash(path: string): string {
    if path != "" && path[|path| - 1] == '/' then path[..|path| - 1] else path
  }

  /** `path` is the mount or below it. Unlike `is_parent_path`, this has everything lie under the mount "/". */
  predicate LiesUnder(mount: string, path: string) {
    IsParentPath(TrimSlash(mount), path)
  }

  /** A mount as the mount table lists it: "/", or a path without trailing slash. */
  predicate MountPath(mount: string) {
    mount == "/" || mount == TrimSlash(mount) != ""
  }

  lemma ParentPathTransitive(a: string, b: string, c: string)
    requires IsParentPath(a, b) && IsParentPath(b, c)
    ensures IsParentPath(a, c)
  {
  }

  /** Two ancestors of one path are comparable. */
  lemma AncestorsComparable(a: string, b: string, c: string)
    requires IsParentPath(a, c) && IsParentPath(b, c)
    ensures IsParentPath(a, b) || IsParentPath(b, a)
  {
    if |a| <= |b| {
      assert a == c[..|a|] && b == c[..|b|];
      assert a == b[..|a|];
      if |a| < |b| { assert b[|a|] == c[|a|]; }
    } else {
      assert a == c[..|a|] && b == c[..|b|];
      assert b == a[..|b|];
      assert a[|b|] == c[|b|];
    }
  }

  /** Different children of one directory have nothing below both. */
  lemma SiblingsDisjoint(path: string, x: string, y: string, c: string)
    requires FileName(x) && FileName(y)
    requires IsParentPath(Child(path, x), c) && IsParentPath(Child(path, y), c)
    ensures x == y
  {
    var a, b := Child(path, x), Child(path, y);
    assert a == c[..|a|] && b == c[..|b|];
    assert x == a[|path| + 1..] && y == b[|path| + 1..];
  }

  lemma ChildIsChildOf(path: string, name: string)
    requires EntryName(name)
    ensures IsChildOf(path, Child(path, name))
  {
    assert Child(path, name)[|path| + 1..] == name;
  }
}
