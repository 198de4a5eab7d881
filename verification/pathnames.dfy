/**
  Windows path-name rules the add-on leans on (`os.path` is `ntpath` there):
  splitting off an extension, the base name and directory of a selected item,
  and joining a directory with a file name. Both `\` and `/` separate.
 */
module PathNames {
  import opened Common

  predicate IsSep(c: char) {
    c == '\\' || c == '/'
  }

  /** Position of the last separator, or -1 when there is none. */
  function LastSepIndex(p: string): (r: int)
    ensures -1 <= r < |p|
    ensures r >= 0 ==> IsSep(p[r])
    ensures forall k :: r < k < |p| ==> !IsSep(p[k])
  {
    if p == "" then -1
    else if IsSep(p[|p| - 1]) then |p| - 1
    else LastSepIndex(p[..|p| - 1])
  }

  /** Position of the last occurrence of `c`, or -1 when there is none. */
  function LastIndexOf(p: string, c: char): (r: int)
    ensures -1 <= r < |p|
    ensures r >= 0 ==> p[r] == c
    ensures forall k :: r < k < |p| ==> p[k] != c
  {
    if p == "" then -1
    else if p[|p| - 1] == c then |p| - 1
    else LastIndexOf(p[..|p| - 1], c)
  }

  /** The last path component of `p` holds a character other than a dot
      somewhere before position `upTo`. */
  predicate NameCharBefore(p: string, upTo: int)
    requires upTo <= |p|
  {
    exists k :: LastSepIndex(p) < k < upTo && p[k] != '.'
  }

  /** A well-formed extension: a dot followed by neither dots nor separators. */
  predicate IsExtension(e: string) {
    |e| >= 1 && e[0] == '.' && forall k :: 1 <= k < |e| ==> e[k] != '.' && !IsSep(e[k])
  }

  /** `os.path.splitext`: the extension starts at the last dot of the last
      component, unless every character before that dot in the component is
      itself a dot (so ".profile" has no extension). */
  function Splitext(p: string): (r: (string, string))
    ensures r.0 + r.1 == p
    ensures r.1 == "" || IsExtension(r.1)
    ensures r.1 != "" ==> NameCharBefore(r.0, |r.0|)
  {
    var sepIndex := LastSepIndex(p);
    var dotIndex := LastIndexOf(p, '.');
    if dotIndex > sepIndex && NameCharBefore(p, dotIndex) then
      SplitextStemFacts(p, dotIndex);
      (p[..dotIndex], p[dotIndex..])
    else
      (p, "")
  }

  lemma SplitextStemFacts(p: string, dotIndex: int)
    requires LastSepIndex(p) < dotIndex < |p|
    requires dotIndex == LastIndexOf(p, '.')
    requires NameCharBefore(p, dotIndex)
    ensures IsExtension(p[dotIndex..])
    ensures NameCharBefore(p[..dotIndex], dotIndex)
  {
    var stem := p[..dotIndex];
    LastSepIndexPrefix(p, dotIndex);
    var k :| LastSepIndex(p) < k < dotIndex && p[k] != '.';
    assert stem[k] == p[k];
  }

  /** Cutting a path before a point that lies after its last separator keeps
      the last separator where it was. */
  lemma LastSepIndexPrefix(p: string, n: int)
    requires LastSepIndex(p) < n <= |p|
    ensures LastSepIndex(p[..n]) == LastSepIndex(p)
  {
    var q := p[..n];
    var i, j := LastSepIndex(q), LastSepIndex(p);
    if j >= 0 {
      assert q[j] == p[j];
    }
    if i >= 0 {
      assert q[i] == p[i];
    }
  }

  /** Appending text without separators keeps the last separator. */
  lemma LastSepIndexAppend(a: string, b: string)
    requires forall k :: 0 <= k < |b| ==> !IsSep(b[k])
    ensures LastSepIndex(a + b) == LastSepIndex(a)
  {
    forall k | |a| <= k < |a + b|
      ensures !IsSep((a + b)[k])
    {
      assert (a + b)[k] == b[k - |a|];
    }
    LastSepIndexPrefix(a + b, |a|);
    assert (a + b)[..|a|] == a;
  }

  /** Splitting a name built from a stem and a well-formed extension gives the
      two parts back. */
  lemma SplitextOfJoin(stem: string, ext: string)
    requires IsExtension(ext)
    requires NameCharBefore(stem, |stem|)
    ensures Splitext(stem + ext) == (stem, ext)
  {
    var p := stem + ext;
    LastSepIndexAppend(stem, ext);
    var dotIndex := LastIndexOf(p, '.');
    assert p[|stem|] == '.';
    forall k | |stem| < k < |p|
      ensures p[k] != '.'
    {
      assert p[k] == ext[k - |stem|];
    }
    var k :| LastSepIndex(stem) < k < |stem| && stem[k] != '.';
    assert p[k] == stem[k];
    assert p[..dotIndex] == stem;
  }

  /** `os.path.basename`: everything after the last separator. */
  function BaseName(p: string): (r: string)
    ensures forall k :: 0 <= k < |r| ==> !IsSep(r[k])
    ensures EndsWith(p, r)
  {
    var i := LastSepIndex(p);
    p[i + 1..]
  }

  /** `os.path.dirname` for paths below a folder: everything before the last
      separator ("" when the path has none). Windows' own `dirname` keeps the
      backslash of a drive root (`C:\` for `C:\a.txt`); this one gives `C:`. */
  function DirName(p: string): (r: string)
    ensures |r| < |p| || p == ""
  {
    var i := LastSepIndex(p);
    if i < 0 then "" else p[..i]
  }

  /** `os.path.join(dir, name)` for a `name` with no drive and no leading
      separator: a backslash is inserted unless `dir` is empty or already ends
      in a separator. Windows' own `join` restarts at a rooted or drive name
      (`\x`, `D:x`); this one always appends. */
  function Join(dir: string, name: string): (r: string)
    ensures StartsWith(r, dir) && EndsWith(r, name)
    ensures dir == "" ==> r == name
  {
    if dir == "" then name
    else if IsSep(dir[|dir| - 1]) then dir + name
    else dir + "\\" + name
  }

  /** A name joined below a directory that does not end in a separator
      splits back into that directory and that name. */
  lemma SplitJoined(dir: string, name: string)
    requires dir != "" && !IsSep(dir[|dir| - 1])
    requires forall k :: 0 <= k < |name| ==> !IsSep(name[k])
    ensures Join(dir, name) == dir + "\\" + name
    ensures BaseName(dir + "\\" + name) == name
    ensures DirName(dir + "\\" + name) == dir
  {
    var p := dir + "\\" + name;
    LastSepIndexAppend(dir + "\\", name);
    assert LastSepIndex(dir + "\\") == |dir|;
    assert p[|dir| + 1..] == name;
    assert p[..|dir|] == dir;
  }

  /** Joining a path's directory and base name rebuilds it when the last
      separator is a single backslash with a non-empty directory before it. */
  lemma JoinDirBase(p: string)
    requires LastSepIndex(p) >= 1
    requires p[LastSepIndex(p)] == '\\'
    requires !IsSep(p[LastSepIndex(p) - 1])
    ensures Join(DirName(p), BaseName(p)) == p
  {
    var i := LastSepIndex(p);
    SplitAround(p, i);
    assert DirName(p) == p[..i];
    assert BaseName(p) == p[i + 1..];
  }

  lemma SplitAround(p: string, i: nat)
    requires i < |p|
    ensures p == p[..i] + [p[i]] + p[i + 1..]
  {
  }

  /** With one directory, different names give different joined paths. */
  lemma JoinInjective(dir: string, a: string, b: string)
    requires Join(dir, a) == Join(dir, b)
    ensures a == b
  {
    var r := Join(dir, a);
    var n := |r| - |a|;
    assert a == r[n..];
    assert b == r[n..];
  }
}
