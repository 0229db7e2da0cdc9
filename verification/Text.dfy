/** Strings as the C code sees them: prefixes, suffixes, ASCII case folding, path components. */
module Text {

  datatype Option<+T> = None | Some(value: T)

  predicate HasPrefix(s: string, p: string) {
    |p| <= |s| && s[..|p|] == p
  }

  predicate HasSuffix(s: string, p: string) {
    |p| <= |s| && s == s[..|s| - |p|] + p
  }

  lemma PrefixAndSuffix(s: string, p: string)
    ensures HasPrefix(s, p) <==> exists rest :: s == p + rest
    ensures HasSuffix(s, p) <==> exists front :: s == front + p
  {
    if HasPrefix(s, p) {
      assert s == p + s[|p|..];
    }
    if front :| s == front + p {
      assert s[..|s| - |p|] == front;
    }
  }

  /** The folding LIKE applies: ASCII letters only. */
  function FoldChar(c: char): char {
    if 'A' <= c <= 'Z' then (c as int - 'A' as int + 'a' as int) as char else c
  }

  /** Folded alike are exactly a character and itself, and the two cases of an ASCII letter. */
  lemma FoldsAsciiCase(c: char, d: char)
    ensures FoldChar(c) == FoldChar(d) <==>
            || c == d
            || ('A' <= c <= 'Z' && d as int == c as int + 32)
            || ('A' <= d <= 'Z' && c as int == d as int + 32)
  {
    if c != d && FoldChar(c) == FoldChar(d) {
      assert FoldChar(c) as int == FoldChar(d) as int;
    }
  }

  predicate SameFolded(a: string, b: string) {
    |a| == |b| && forall i :: 0 <= i < |a| ==> FoldChar(a[i]) == FoldChar(b[i])
  }

  predicate EndsWithFolded(s: string, p: string) {
    |p| <= |s| && SameFolded(s[|s| - |p|..], p)
  }

  predicate StartsWithFolded(s: string, p: string) {
    |p| <= |s| && SameFolded(s[..|p|], p)
  }

  predicate Contains(s: string, c: char) {
    exists i :: 0 <= i < |s| && s[i] == c
  }

  /** The last position at or below `from` where `needle` occurs in `s` (g_strrstr scans the same way). */
  function LastOccurrence(s: string, needle: string, from: int): (p: int)
    requires from < |s| + 1
    ensures -1 <= p
    ensures p >= 0 ==> p <= from && HasPrefix(s[p..], needle)
    ensures forall q :: p < q <= from && 0 <= q ==> !HasPrefix(s[q..], needle)
    decreases from + 1
  {
    if from < 0 then -1
    else if HasPrefix(s[from..], needle) then from
    else LastOccurrence(s, needle, from - 1)
  }

  function TrimSlashes(s: string): (r: string)
    ensures r <= s
    ensures r == "" || r[|r| - 1] != '/'
    ensures forall i :: |r| <= i < |s| ==> s[i] == '/'
  {
    if s != "" && s[|s| - 1] == '/' then TrimSlashes(s[..|s| - 1]) else s
  }

  /** Where the last path component of `s[..e]` starts: behind its last slash. */
  function ComponentStart(s: string, e: nat): (p: nat)
    requires e <= |s|
    ensures p <= e && (p > 0 ==> s[p - 1] == '/')
    ensures forall i :: p <= i < e ==> s[i] != '/'
  {
    if e == 0 || s[e - 1] == '/' then e else ComponentStart(s, e - 1)
  }

  function LastComponent(s: string): string {
    var p := ComponentStart(s, |s|);
    if p == 0 then s else s[p..]
  }

  /** g_path_get_basename. */
  function Basename(path: string): string {
    if path == "" then "."
    else if TrimSlashes(path) == "" then "/"
    else LastComponent(TrimSlashes(path))
  }

  /** g_build_filename with two elements, the second one a directory entry name. */
  function BuildFilename(dir: string, name: string): string {
    if TrimSlashes(dir) == "" then dir + name else TrimSlashes(dir) + "/" + name
  }

  /** A name readdir can return: not empty and without a slash. */
  predicate IsEntryName(name: string) {
    name != "" && !Contains(name, '/')
  }

  lemma {:induction false} TrimmedBy(base: string, slashes: string)
    requires base != "" ==> base[|base| - 1] != '/'
    requires forall i :: 0 <= i < |slashes| ==> slashes[i] == '/'
    ensures TrimSlashes(base + slashes) == base
    decreases |slashes|
  {
    if slashes == "" {
      assert base + slashes == base;
    } else {
      TrimmedBy(base, slashes[..|slashes| - 1]);
      assert (base + slashes)[..|base + slashes| - 1] == base + slashes[..|slashes| - 1];
    }
  }

  /** Joining puts exactly one slash between a directory and a name, however many the directory ends in;
      a directory of slashes only keeps them. */
  lemma JoinedByOneSlash(base: string, slashes: string, name: string)
    requires base != "" ==> base[|base| - 1] != '/'
    requires forall i :: 0 <= i < |slashes| ==> slashes[i] == '/'
    ensures BuildFilename(base + slashes, name) == if base == "" then slashes + name else base + "/" + name
  {
    TrimmedBy(base, slashes);
    assert base == "" ==> base + slashes == slashes;
  }

  /** The basename of a path is its last component, slashes at the end not counted. */
  lemma BasenameIsLastComponent(front: string, name: string, slashes: string)
    requires front == "" || front[|front| - 1] == '/'
    requires name != "" && !Contains(name, '/') && forall i :: 0 <= i < |slashes| ==> slashes[i] == '/'
    ensures Basename(front + name + slashes) == name
    ensures slashes != "" ==> Basename(slashes) == "/"
    ensures Basename("") == "."
  {
    TrimmedBy("", slashes);
    assert "" + slashes == slashes;
    var base := front + name;
    assert base[|base| - 1] == name[|name| - 1] != '/';
    TrimmedBy(base, slashes);
    LastComponentOf(front, name);
  }

  lemma NoSlashPrefix(s: string, k: nat)
    requires !Contains(s, '/') && k <= |s|
    ensures !Contains(s[..k], '/')
  {
    assert forall i :: 0 <= i < k ==> s[..k][i] == s[i];
  }

  lemma LastComponentOf(a: string, name: string)
    requires !Contains(name, '/')
    requires a == "" || a[|a| - 1] == '/'
    ensures LastComponent(a + name) == name
  {
    var s := a + name;
    assert forall i :: |a| <= i < |s| ==> s[i] == name[i - |a|] != '/';
    assert a != "" ==> s[|a| - 1] == '/';
    assert ComponentStart(s, |s|) == |a|;
    if a == "" {
      assert s == name;
    } else {
      assert s[|a|..] == name;
    }
  }

  /** Joining and taking the basename gives the entry name back, whatever the directory. */
  lemma BasenameOfBuildFilename(dir: string, name: string)
    requires IsEntryName(name)
    ensures Basename(BuildFilename(dir, name)) == name
  {
    var path := BuildFilename(dir, name);
    assert path[|path| - 1] == name[|name| - 1] != '/';
    assert TrimSlashes(path) == path;
    if TrimSlashes(dir) == "" {
      LastComponentOf(dir, name);
    } else {
      LastComponentOf(TrimSlashes(dir) + "/", name);
      assert path == (TrimSlashes(dir) + "/") + name;
    }
  }

  lemma BuildFilenameInjective(dir: string, a: string, b: string)
    requires BuildFilename(dir, a) == BuildFilename(dir, b)
    ensures a == b
  {
    var head := if TrimSlashes(dir) == "" then dir else TrimSlashes(dir) + "/";
    assert BuildFilename(dir, a) == head + a && BuildFilename(dir, b) == head + b;
    assert (head + a)[|head|..] == a && (head + b)[|head|..] == b;
  }

  ghost function Any<T>(s: set<T>): (x: T)
    requires s != {}
    ensures x in s
  {
    var x :| x in s; x
  }

  /** A nonempty set has a member to pick. */
  lemma HasMember(s: set<int>)
    requires s != {}
    ensures exists x :: x in s
  {
    var x := Any(s);
    assert x in s;
  }
}
