/** java.io.File as the generator uses it: a path is its text, the file
    system is a map from path to content (a path that is a key exists). */
module Paths {
  import opened Wrappers

  type Path = string

  /** The files that exist and their text. */
  type FileSystem = map<Path, string>

  /** File(parent, child): the child name resolved against an optional
      parent directory. */
  function Child(dir: Option<Path>, name: string): (p: Path)
    ensures dir.None? ==> p == name
    ensures dir.Some? ==> p == dir.value + "/" + name
  {
    match dir
    case None => name
    case Some(d) => d + "/" + name
  }

  /** For a plain name (no separator) File(parent, child) is the inverse of
      File.name and File.parent: the result's name is the child and its
      parent is the directory that was given, none without one. */
  lemma ChildInverse(dir: Option<Path>, name: string)
    requires '/' !in name
    ensures FileName(Child(dir, name)) == name
    ensures ParentDir(Child(dir, name)) == dir
  {
    if dir.Some? {
      var p := dir.value + "/" + name;
      assert p[|dir.value|] == '/';
      assert p[..|dir.value|] == dir.value && p[|dir.value| + 1..] == name;
    }
  }

  /** Index of the last c in s, or -1. */
  function LastIndexOfChar(s: string, c: char): (i: int)
    ensures -1 <= i < |s|
    ensures i >= 0 ==> s[i] == c
    ensures forall j :: i < j < |s| ==> s[j] != c
  {
    if s == [] then -1
    else if s[|s| - 1] == c then |s| - 1
    else LastIndexOfChar(s[..|s| - 1], c)
  }

  /** File.name: the text after the last separator. */
  function FileName(p: Path): (n: string)
    ensures '/' !in n
  {
    var i := LastIndexOfChar(p, '/');
    var n := p[i + 1..];
    forall j | 0 <= j < |n| ensures n[j] != '/' {
      assert n[j] == p[i + 1 + j];
    }
    n
  }

  /** File.nameWithoutExtension: the name up to its last '.'. */
  function NameWithoutExtension(p: Path): (b: string)
    ensures '/' !in b
  {
    var n := FileName(p);
    var i := LastIndexOfChar(n, '.');
    if i < 0 then n else n[..i]
  }

  /** The base name is a prefix of the name: the whole name when it holds
      no '.', and otherwise the part before a '.' after which no '.'
      follows. */
  lemma NameWithoutExtensionPrefix(p: Path)
    ensures var n, b := FileName(p), NameWithoutExtension(p);
      && b <= n
      && (b == n <==> '.' !in n)
      && (b != n ==> n[|b|] == '.' && '.' !in n[|b| + 1..])
  {
    var n := FileName(p);
    var i := LastIndexOfChar(n, '.');
    if i >= 0 {
      assert n[i] in n;
    }
  }

  /** File.parent: the text before the last separator, none without one.
      With a parent, the path is the parent, the separator and the name. */
  function ParentDir(p: Path): (r: Option<Path>)
    ensures r.None? <==> '/' !in p
    ensures r.None? ==> FileName(p) == p
    ensures r.Some? ==> p == r.value + "/" + FileName(p)
  {
    var i := LastIndexOfChar(p, '/');
    if i < 0 then None
    else
      assert p == p[..i] + "/" + p[i + 1..];
      Some(p[..i])
  }
}
