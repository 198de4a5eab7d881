/**
  Turning a text file into a folder tree: the sanitiser that makes a folder
  name out of one line (`_make_valid_folder_name`), the check that the
  selected file is a `.txt` or `.rtf` file, the extraction of folder names
  from the file's lines, and the search for a base folder that does not
  exist yet. Reading the file and creating the folders are left to the
  caller; the paths that already exist are a finite set.
 */
module TxtToFolder {
  import opened Common
  import opened PathNames
  import CreateFile

  // ---------------------------------------------------------------------
  // The folder-name sanitiser

  /** The characters Windows refuses in a folder name, removed first. */
  predicate InvalidChar(c: char) {
    c == '<' || c == '>' || c == ':' || c == '"' || c == '/' || c == '\\'
    || c == '|' || c == '?' || c == '*'
  }

  /** The characters stripped from both ends of the name. */
  predicate DotOrSpace(c: char) {
    c == '.' || c == ' '
  }

  predicate NoInvalid(s: string) {
    forall k :: 0 <= k < |s| ==> !InvalidChar(s[k])
  }

  /** No two consecutive spaces: the exit condition of the collapsing loop. */
  predicate SingleSpaced(s: string) {
    forall i, j :: 0 <= i < |s| && 0 <= j < |s| && j == i + 1 ==> !(s[i] == ' ' && s[j] == ' ')
  }

  /** What cleaning guarantees of a name it does not reject: something is
      left, no invalid character, no double space, no dot or space in front. */
  predicate CleanShape(s: string) {
    s != "" && NoInvalid(s) && SingleSpaced(s) && !DotOrSpace(s[0])
  }

  /** Every character of the name is removed by the cleaning steps. */
  predicate AllDiscarded(name: string) {
    forall k :: 0 <= k < |name| ==> InvalidChar(name[k]) || DotOrSpace(name[k])
  }

  /** Every invalid character removed, the others kept in order. */
  function RemoveInvalid(s: string): (r: string)
    ensures |r| <= |s|
    ensures NoInvalid(r)
    ensures NoInvalid(s) ==> r == s
  {
    if s == "" then ""
    else
      var rest := RemoveInvalid(s[1..]);
      if InvalidChar(s[0]) then rest else [s[0]] + rest
  }

  /** Removing from a name in two parts removes from each part, so together
      with `RemoveInvalidOne` the result is exactly the valid characters of
      the name, in their order. */
  lemma {:induction false} RemoveInvalidAppend(a: string, b: string)
    ensures RemoveInvalid(a + b) == RemoveInvalid(a) + RemoveInvalid(b)
  {
    if a == "" {
      assert a + b == b;
    } else {
      assert (a + b)[0] == a[0];
      assert (a + b)[1..] == a[1..] + b;
      RemoveInvalidAppend(a[1..], b);
    }
  }

  /** One character is dropped when it is invalid and kept otherwise. */
  lemma RemoveInvalidOne(c: char)
    ensures RemoveInvalid([c]) == if InvalidChar(c) then "" else [c]
  {
    assert [c][1..] == "";
  }

  /** One pass of replacing each double space by a single one, scanning from
      the left without overlaps, as a string replacement does. */
  function HalveSpaces(s: string): (r: string)
    ensures |r| <= |s|
    ensures !SingleSpaced(s) ==> |r| < |s|
    ensures |s| > 0 ==> |r| > 0
    ensures |s| > 0 && s[0] != ' ' ==> r[0] == s[0]
    ensures |s| > 0 && s[0] == ' ' ==> r[0] == ' '
    ensures |s| > 0 && s[|s| - 1] != ' ' ==> r[|r| - 1] == s[|s| - 1]
    ensures NoInvalid(s) ==> NoInvalid(r)
  {
    if |s| >= 2 && s[0] == ' ' && s[1] == ' ' then [' '] + HalveSpaces(s[2..])
    else if s == "" then ""
    else
      var rest := HalveSpaces(s[1..]);
      assert !SingleSpaced(s) ==> !SingleSpaced(s[1..]) by {
        if !SingleSpaced(s) {
          var i, j :| 0 <= i < |s| && 0 <= j < |s| && j == i + 1 && s[i] == ' ' && s[j] == ' ';
          assert s[1..][i - 1] == s[i] && s[1..][j - 1] == s[j];
        }
      }
      [s[0]] + rest
  }

  /** Halving passes until no double space is left. */
  function CollapseSpaces(s: string): (r: string)
    ensures SingleSpaced(r)
    ensures |r| <= |s|
    ensures |s| > 0 ==> |r| > 0
    ensures |s| > 0 && s[0] != ' ' ==> r[0] == s[0]
    ensures |s| > 0 && s[|s| - 1] != ' ' ==> r[|r| - 1] == s[|s| - 1]
    ensures SingleSpaced(s) ==> r == s
    ensures NoInvalid(s) ==> NoInvalid(r)
    decreases |s|
  {
    if SingleSpaced(s) then s else CollapseSpaces(HalveSpaces(s))
  }

  /** The reference meaning of collapsing: a space is dropped exactly when
      the next character is a space too, so each run of spaces becomes one
      space and every other character stays. */
  function Squeeze(s: string): string {
    if s == "" then ""
    else if |s| >= 2 && s[0] == ' ' && s[1] == ' ' then Squeeze(s[1..])
    else [s[0]] + Squeeze(s[1..])
  }

  /** The halving passes compute the reference collapse. */
  lemma {:induction false} CollapseIsSqueeze(s: string)
    ensures CollapseSpaces(s) == Squeeze(s)
    decreases |s|
  {
    if SingleSpaced(s) {
      SqueezeSingle(s);
    } else {
      CollapseIsSqueeze(HalveSpaces(s));
      SqueezeHalve(s);
    }
  }

  /** Without a double space there is nothing to squeeze. */
  lemma {:induction false} SqueezeSingle(s: string)
    requires SingleSpaced(s)
    ensures Squeeze(s) == s
  {
    if s != "" {
      var t := s[1..];
      if |s| >= 2 {
        assert !(s[0] == ' ' && s[1] == ' ');
      }
      assert SingleSpaced(t) by {
        forall i, j | 0 <= i < |t| && 0 <= j < |t| && j == i + 1
          ensures !(t[i] == ' ' && t[j] == ' ')
        {
          assert t[i] == s[i + 1] && t[j] == s[j + 1];
        }
      }
      SqueezeSingle(t);
    }
  }

  /** One halving pass does not change the squeezed form. */
  lemma {:induction false} SqueezeHalve(s: string)
    ensures Squeeze(HalveSpaces(s)) == Squeeze(s)
  {
    if |s| >= 2 && s[0] == ' ' && s[1] == ' ' {
      var t := s[2..];
      SqueezeHalve(t);
      assert s[1..] == [' '] + t;
      SqueezeSpaceFront(HalveSpaces(t));
      SqueezeSpaceFront(t);
    } else if s != "" {
      var t := s[1..];
      SqueezeHalve(t);
      assert HalveSpaces(s) == [s[0]] + HalveSpaces(t);
      SqueezeFront(s[0], HalveSpaces(t));
    }
  }

  /** A space in front of `x` disappears into a run when `x` starts with one. */
  lemma SqueezeSpaceFront(x: string)
    ensures Squeeze([' '] + x) == if x != "" && x[0] == ' ' then Squeeze(x) else [' '] + Squeeze(x)
  {
    assert ([' '] + x)[1..] == x;
  }

  /** Any character in front of `x` stays unless it is a space starting a run. */
  lemma SqueezeFront(c: char, x: string)
    ensures Squeeze([c] + x) == if c == ' ' && x != "" && x[0] == ' ' then Squeeze(x) else [c] + Squeeze(x)
  {
    assert ([c] + x)[1..] == x;
  }

  /** The cleaning steps: invalid characters removed, dots and spaces stripped
      from both ends, space runs collapsed. Nothing is left exactly when every
      character was discarded. */
  function Cleaned(name: string): (r: string)
    ensures r == "" <==> AllDiscarded(name)
    ensures r != "" ==> CleanShape(r) && !DotOrSpace(r[|r| - 1])
  {
    var removed := RemoveInvalid(name);
    AllDotOrSpaceIff(name, removed);
    var stripped := StripChars(removed, DotOrSpace);
    StripCharsKeeps(removed, DotOrSpace, c => !InvalidChar(c));
    if stripped == "" then ""
    else
      CollapseKeepsShape(stripped);
      CollapseSpaces(stripped)
  }

  /** The cleaned name in terms of the characterised steps: the valid
      characters of the name, with dots and spaces cut from both ends, and
      space runs squeezed. */
  lemma CleanedSteps(name: string)
    ensures Cleaned(name) == Squeeze(StripChars(RemoveInvalid(name), DotOrSpace))
  {
    var stripped := StripChars(RemoveInvalid(name), DotOrSpace);
    CollapseIsSqueeze(stripped);
  }

  /** Collapsing the spaces of a stripped, invalid-free name keeps both ends. */
  lemma CollapseKeepsShape(t: string)
    requires t != "" && NoInvalid(t) && !DotOrSpace(t[0]) && !DotOrSpace(t[|t| - 1])
    ensures var r := CollapseSpaces(t); CleanShape(r) && !DotOrSpace(r[|r| - 1])
  {
  }

  /** The invalid-free form holds only dots and spaces exactly when the name
      holds only discarded characters. */
  lemma {:induction false} AllDotOrSpaceIff(name: string, removed: string)
    requires removed == RemoveInvalid(name)
    ensures AllDotOrSpace(removed) <==> AllDiscarded(name)
  {
    if name != "" {
      var c, tail := name[0], name[1..];
      var rest := RemoveInvalid(tail);
      AllDotOrSpaceIff(tail, rest);
      assert name == [c] + tail;
      assert AllDiscarded(name) <==> (InvalidChar(c) || DotOrSpace(c)) && AllDiscarded(tail) by {
        assert forall k :: 1 <= k < |name| ==> name[k] == tail[k - 1];
      }
      if InvalidChar(c) {
        assert removed == rest;
      } else {
        assert removed == [c] + rest;
        assert AllDotOrSpace(removed) <==> DotOrSpace(c) && AllDotOrSpace(rest) by {
          assert removed[0] == c;
          assert forall k :: 1 <= k < |removed| ==> removed[k] == rest[k - 1];
          assert forall k :: 0 <= k < |rest| ==> rest[k] == removed[k + 1];
        }
      }
    }
  }

  predicate AllDotOrSpace(s: string) {
    forall k :: 0 <= k < |s| ==> DotOrSpace(s[k])
  }

  /** A name that is already clean is left as it is by the cleaning steps. */
  lemma CleanedOfClean(s: string)
    requires CleanShape(s) && !DotOrSpace(s[|s| - 1])
    ensures Cleaned(s) == s
  {
    assert RemoveInvalid(s) == s;
    assert StripChars(s, DotOrSpace) == s;
  }

  /** The Windows device names a folder may not be called, compared in upper
      case. */
  const ReservedNames: seq<string> :=
    ["CON", "PRN", "AUX", "NUL", "COM1", "COM2", "COM3", "COM4",
     "COM5", "COM6", "COM7", "COM8", "COM9", "LPT1", "LPT2",
     "LPT3", "LPT4", "LPT5", "LPT6", "LPT7", "LPT8", "LPT9"]

  const ReservedSuffix: string := "_folder"

  const MaxNameLength: nat := 255

  /** No reserved name is longer than four characters. */
  lemma ReservedShort(s: string)
    requires s in ReservedNames
    ensures |s| <= 4
  {
  }

  /** A name longer than four characters is not reserved in any case. */
  lemma NotReservedWhenLong(s: string)
    requires |s| > 4
    ensures Upper(s) !in ReservedNames
  {
    if Upper(s) in ReservedNames {
      ReservedShort(Upper(s));
    }
  }

  /** A reserved device name gets "_folder" appended; the result is never
      reserved, and any other name passes unchanged. */
  function Suffixed(c: string): (r: string)
    requires CleanShape(c) && !DotOrSpace(c[|c| - 1])
    ensures CleanShape(r) && !DotOrSpace(r[|r| - 1])
    ensures Upper(r) !in ReservedNames
    ensures Upper(c) !in ReservedNames ==> r == c
    ensures Upper(c) in ReservedNames ==> r == c + ReservedSuffix
    ensures |c| <= MaxNameLength ==> |r| <= MaxNameLength
  {
    if Upper(c) in ReservedNames then
      ReservedShort(Upper(c));
      SuffixKeepsShape(c);
      NotReservedWhenLong(c + ReservedSuffix);
      c + ReservedSuffix
    else c
  }

  /** Appending the suffix to a clean name keeps it clean. */
  lemma SuffixKeepsShape(c: string)
    requires CleanShape(c) && !DotOrSpace(c[|c| - 1])
    ensures CleanShape(c + ReservedSuffix)
    ensures (c + ReservedSuffix)[|c| + |ReservedSuffix| - 1] == 'r'
  {
    var v := c + ReservedSuffix;
    forall k | 0 <= k < |v|
      ensures !InvalidChar(v[k])
    {
      if k < |c| {
        assert v[k] == c[k];
      }
    }
    assert v[0] == c[0];
  }

  /** A non-empty prefix of a clean name is clean. */
  lemma PrefixKeepsShape(s: string, n: nat)
    requires CleanShape(s) && 0 < n <= |s|
    ensures CleanShape(s[..n])
  {
    var p := s[..n];
    assert forall k :: 0 <= k < |p| ==> p[k] == s[k];
  }

  /** The cut to 255 characters, as written. */
  function Truncated(s: string): (r: string)
    requires CleanShape(s)
    ensures CleanShape(r) && |r| <= MaxNameLength
    ensures |r| < MaxNameLength || |s| <= MaxNameLength ==> r == s
    ensures r == s[..|r|]
  {
    if |s| > MaxNameLength then
      PrefixKeepsShape(s, MaxNameLength);
      s[..MaxNameLength]
    else s
  }

  /** `_make_valid_folder_name`: clean, give up on an empty result, suffix a
      reserved name, then cut to 255 characters. The cut comes after the
      stripping step, so a cut name can end in a dot or space. */
  function MakeValidFolderName(name: string): (r: Option<string>)
    ensures r.None? <==> AllDiscarded(name)
    ensures r.Some? ==>
      var v := r.value;
      && CleanShape(v)
      && |v| <= MaxNameLength
      && Upper(v) !in ReservedNames
      && (|v| < MaxNameLength ==> !DotOrSpace(v[|v| - 1]))
    ensures r.Some? ==>
      var c := Cleaned(name);
      var full := if Upper(c) in ReservedNames then c + ReservedSuffix else c;
      r.value == if |full| > MaxNameLength then full[..MaxNameLength] else full
  {
    var c := Cleaned(name);
    if c == "" then None
    else
      var v := Truncated(Suffixed(c));
      assert Upper(v) !in ReservedNames by {
        if |v| == MaxNameLength {
          NotReservedWhenLong(v);
        }
      }
      Some(v)
  }

  /** A name the sanitiser accepts unchanged. */
  predicate ValidFolderName(s: string) {
    && CleanShape(s)
    && !DotOrSpace(s[|s| - 1])
    && |s| <= MaxNameLength
    && Upper(s) !in ReservedNames
  }

  /** A name that is already valid comes back unchanged. */
  lemma ValidNameUnchanged(s: string)
    requires ValidFolderName(s)
    ensures MakeValidFolderName(s) == Some(s)
  {
    CleanedOfClean(s);
  }

  /** Sanitising a sanitised name again changes nothing, unless the cut left
      a dot or space at its end. */
  lemma MakeValidIdempotent(name: string)
    ensures var r := MakeValidFolderName(name);
            r.Some? && !DotOrSpace(r.value[|r.value| - 1]) ==> MakeValidFolderName(r.value) == r
  {
    var r := MakeValidFolderName(name);
    if r.Some? && !DotOrSpace(r.value[|r.value| - 1]) {
      ValidNameUnchanged(r.value);
    }
  }

  /** A clean 256-character line whose 255th character is a space: the cut
      leaves a name ending in that space, and sanitising the result again
      drops it. */
  lemma TruncationKeepsTrailingSpace(s: string)
    requires |s| == MaxNameLength + 1 && CleanShape(s)
    requires s[MaxNameLength - 1] == ' ' && !DotOrSpace(s[MaxNameLength - 2]) && !DotOrSpace(s[MaxNameLength])
    ensures MakeValidFolderName(s) == Some(s[..MaxNameLength])
    ensures s[..MaxNameLength][MaxNameLength - 1] == ' '
    ensures MakeValidFolderName(s[..MaxNameLength]) == Some(s[..MaxNameLength - 1])
  {
    assert s[|s| - 1] == s[MaxNameLength];
    AsWrittenOfLong(s);
    CutEndsInSpace(s);
    AsWrittenOfTrailingSpace(s[..MaxNameLength]);
  }

  /** The first 255 characters of such a line: still clean, ending in the
      space with a kept character before it. */
  lemma CutEndsInSpace(s: string)
    requires |s| == MaxNameLength + 1 && CleanShape(s)
    requires s[MaxNameLength - 1] == ' ' && !DotOrSpace(s[MaxNameLength - 2])
    ensures var cut := s[..MaxNameLength];
            |cut| == MaxNameLength && CleanShape(cut)
            && cut[|cut| - 1] == ' ' && !DotOrSpace(cut[|cut| - 2])
            && cut[..|cut| - 1] == s[..MaxNameLength - 1]
  {
    PrefixKeepsShape(s, MaxNameLength);
  }

  /** A clean name longer than 255 characters is only cut. */
  lemma AsWrittenOfLong(s: string)
    requires CleanShape(s) && !DotOrSpace(s[|s| - 1]) && |s| > MaxNameLength
    ensures MakeValidFolderName(s) == Some(s[..MaxNameLength])
  {
    CleanedOfClean(s);
    NotReservedWhenLong(s);
  }

  /** A clean name whose only flaw is one trailing space loses that space. */
  lemma AsWrittenOfTrailingSpace(cut: string)
    requires |cut| > 5 && CleanShape(cut) && cut[|cut| - 1] == ' ' && !DotOrSpace(cut[|cut| - 2])
    requires |cut| <= MaxNameLength
    ensures MakeValidFolderName(cut) == Some(cut[..|cut| - 1])
  {
    var shorter := cut[..|cut| - 1];
    PrefixKeepsShape(cut, |cut| - 1);
    CleanedDropsTrailingSpace(cut);
    NotReservedWhenLong(shorter);
  }

  /** The cleaning steps remove the one trailing space of a clean name. */
  lemma CleanedDropsTrailingSpace(cut: string)
    requires |cut| > 1 && CleanShape(cut) && cut[|cut| - 1] == ' ' && !DotOrSpace(cut[|cut| - 2])
    ensures Cleaned(cut) == cut[..|cut| - 1]
  {
    var shorter := cut[..|cut| - 1];
    PrefixKeepsShape(cut, |cut| - 1);
    assert RemoveInvalid(cut) == cut;
    assert StripChars(cut, DotOrSpace) == StripChars(shorter, DotOrSpace);
    assert StripChars(shorter, DotOrSpace) == shorter;
  }

  // ---------------------------------------------------------------------
  // The selected file and its lines

  /** Only `.txt` and `.rtf` files, in any letter case, are converted. */
  function IsSupportedFile(path: string): (b: bool)
    ensures b <==> |path| >= 4 && path[|path| - 4] == '.' && (Lower(path[|path| - 3..]) == "txt" || Lower(path[|path| - 3..]) == "rtf")
  {
    LowerEndsWithExt(path, "txt");
    LowerEndsWithExt(path, "rtf");
    assert ['.'] + "txt" == ".txt" && ['.'] + "rtf" == ".rtf";
    EndsWith(Lower(path), ".txt") || EndsWith(Lower(path), ".rtf")
  }

  /** The check ignores letter case. */
  lemma SupportedIgnoresCase(path: string)
    ensures IsSupportedFile(Upper(path)) == IsSupportedFile(path)
  {
    LowerOfUpper(path);
  }

  /** A supported path ends in a dot and three letters. */
  lemma SupportedHasExtension(path: string)
    requires IsSupportedFile(path)
    ensures |path| >= 4 && path[|path| - 4] == '.'
  {
    assert Lower(path)[|path| - 4] == LowerChar(path[|path| - 4]);
  }

  /** The folder names of a file: every line stripped, blank lines dropped,
      order kept. */
  function FolderNames(lines: seq<string>): (r: seq<string>)
    ensures |r| <= |lines|
    ensures forall k :: 0 <= k < |r| ==> r[k] != "" && Trimmed(r[k])
    ensures r == [] <==> forall k :: 0 <= k < |lines| ==> Blank(lines[k])
  {
    if lines == [] then []
    else
      var rest := FolderNames(lines[1..]);
      StripEmptyIffBlank(lines[0]);
      assert forall k :: 1 <= k < |lines| ==> lines[k] == lines[1..][k - 1];
      if Blank(lines[0]) then rest else [Strip(lines[0])] + rest
  }

  /** Reading the lines in two parts gives the names of the first part
      followed by those of the second. */
  lemma {:induction false} FolderNamesAppend(a: seq<string>, b: seq<string>)
    ensures FolderNames(a + b) == FolderNames(a) + FolderNames(b)
  {
    if a == [] {
      assert a + b == b;
    } else {
      assert (a + b)[0] == a[0];
      assert (a + b)[1..] == a[1..] + b;
      FolderNamesAppend(a[1..], b);
    }
  }

  /** One line gives its stripped text, or nothing when it is blank. */
  lemma FolderNamesOne(line: string)
    ensures FolderNames([line]) == if Blank(line) then [] else [Strip(line)]
  {
    assert [line][1..] == [];
  }

  /** The values `f` gives for the elements of `xs`, in order, with every
      `None` left out. */
  function KeepSome<A, B>(xs: seq<A>, f: A -> Option<B>): (r: seq<B>)
    ensures |r| <= |xs|
  {
    if xs == [] then []
    else
      var rest := KeepSome(xs[1..], f);
      match f(xs[0])
      case None => rest
      case Some(v) => [v] + rest
  }

  /** Keeping the values of two runs keeps those of the first run, then
      those of the second. */
  lemma {:induction false} KeepSomeAppend<A, B>(xs: seq<A>, ys: seq<A>, f: A -> Option<B>)
    ensures KeepSome(xs + ys, f) == KeepSome(xs, f) + KeepSome(ys, f)
  {
    if xs == [] {
      assert xs + ys == ys;
    } else {
      assert (xs + ys)[0] == xs[0];
      assert (xs + ys)[1..] == xs[1..] + ys;
      KeepSomeAppend(xs[1..], ys, f);
    }
  }

  /** Each kept value comes from some element. */
  lemma {:induction false} KeepSomeOrigin<A, B>(xs: seq<A>, f: A -> Option<B>, k: nat)
    requires k < |KeepSome(xs, f)|
    ensures exists j :: 0 <= j < |xs| && f(xs[j]) == Some(KeepSome(xs, f)[k])
  {
    var r, rest := KeepSome(xs, f), KeepSome(xs[1..], f);
    if f(xs[0]).Some? && k == 0 {
      assert f(xs[0]) == Some(r[0]);
    } else {
      var k' := if f(xs[0]).Some? then k - 1 else k;
      assert r[k] == rest[k'];
      KeepSomeOrigin(xs[1..], f, k');
      var j :| 0 <= j < |xs[1..]| && f(xs[1..][j]) == Some(rest[k']);
      assert xs[1..][j] == xs[j + 1];
    }
  }

  /** Nothing is left out exactly when `f` gives a value for every element. */
  lemma {:induction false} KeepSomeAll<A, B>(xs: seq<A>, f: A -> Option<B>)
    ensures |KeepSome(xs, f)| == |xs| <==> forall k :: 0 <= k < |xs| ==> f(xs[k]).Some?
  {
    if xs != [] {
      KeepSomeAll(xs[1..], f);
      assert forall k :: 1 <= k < |xs| ==> xs[k] == xs[1..][k - 1];
    }
  }

  /** The sanitised names of the folder names, those the sanitiser rejects
      left out: the subfolders to create, in order. */
  function SubfolderNames(names: seq<string>): (r: seq<string>)
    ensures |r| <= |names|
    ensures |r| == |names| <==> forall k :: 0 <= k < |names| ==> !AllDiscarded(names[k])
  {
    KeepSomeAll(names, MakeValidFolderName);
    KeepSome(names, MakeValidFolderName)
  }

  /** The subfolders of two runs of folder names are those of the first run
      followed by those of the second; with `SubfolderNamesOne` this fixes the
      list completely. */
  lemma SubfolderNamesAppend(a: seq<string>, b: seq<string>)
    ensures SubfolderNames(a + b) == SubfolderNames(a) + SubfolderNames(b)
  {
    KeepSomeAppend(a, b, MakeValidFolderName);
  }

  /** One folder name gives its sanitised form, or nothing when the sanitiser
      rejects it. */
  lemma SubfolderNamesOne(name: string)
    ensures SubfolderNames([name]) == if AllDiscarded(name) then [] else [MakeValidFolderName(name).value]
  {
    assert [name][1..] == [];
  }

  /** `v` is what the sanitiser makes of one of `names`. */
  ghost predicate SanitisedFrom(names: seq<string>, v: string) {
    exists j :: 0 <= j < |names| && MakeValidFolderName(names[j]) == Some(v)
  }

  /** Every subfolder name is the sanitised form of one of the folder names,
      and so has the sanitiser's shape. */
  lemma SubfolderNameOrigin(names: seq<string>)
    ensures forall k :: 0 <= k < |SubfolderNames(names)| ==>
              SanitisedFrom(names, SubfolderNames(names)[k])
              && CleanShape(SubfolderNames(names)[k]) && |SubfolderNames(names)[k]| <= MaxNameLength
              && Upper(SubfolderNames(names)[k]) !in ReservedNames
  {
    forall k | 0 <= k < |SubfolderNames(names)|
      ensures SanitisedFrom(names, SubfolderNames(names)[k])
              && CleanShape(SubfolderNames(names)[k]) && |SubfolderNames(names)[k]| <= MaxNameLength
              && Upper(SubfolderNames(names)[k]) !in ReservedNames
    {
      KeepSomeOrigin(names, MakeValidFolderName, k);
      var j :| 0 <= j < |names| && MakeValidFolderName(names[j]) == Some(SubfolderNames(names)[k]);
    }
  }

  /** No folder name is lost exactly when the sanitiser keeps something of
      every one of them. */
  lemma SubfolderNamesComplete(names: seq<string>)
    ensures |SubfolderNames(names)| == |names| <==> forall k :: 0 <= k < |names| ==> !AllDiscarded(names[k])
  {
    KeepSomeAll(names, MakeValidFolderName);
  }

  // ---------------------------------------------------------------------
  // The base folder

  /** The name of the file without its directory and extension. */
  function Stem(filePath: string): string {
    Splitext(BaseName(filePath)).0
  }

  /** The k-th base-folder candidate next to the file: the stem itself, then
      `stem_1`, `stem_2`, … */
  function BaseCandidate(filePath: string, k: nat): string {
    CreateFile.Candidate(DirName(filePath), Stem(filePath), "", k)
  }

  /** The base folder chosen, its counter, and the notice given when the
      stem's own folder already exists (the two folder names). */
  datatype BaseFolderChoice = BaseFolderChoice(folder: string, index: nat, notice: Option<(string, string)>)

  /** The loop that tries `stem`, `stem_1`, `stem_2`, … until a path does not
      exist (as a folder or as a file). The existing paths are finite, so it
      ends. */
  method ChooseBaseFolder(filePath: string, existing: set<string>) returns (c: BaseFolderChoice)
    ensures c.folder == BaseCandidate(filePath, c.index)
    ensures c.folder !in existing
    ensures forall j :: 0 <= j < c.index ==> BaseCandidate(filePath, j) in existing
    ensures c.notice.Some? <==> c.folder != BaseCandidate(filePath, 0)
    ensures c.notice.Some? <==> BaseCandidate(filePath, 0) in existing
    ensures c.notice.Some? ==> c.notice.value == (BaseName(BaseCandidate(filePath, 0)), BaseName(c.folder))
  {
    BaseCandidatesDistinct(filePath);
    var cand := (k: nat) => BaseCandidate(filePath, k);
    var index := FirstFree(cand, existing);
    forall j | 0 <= j < index
      ensures BaseCandidate(filePath, j) in existing
    {
      assert cand(j) in existing;
    }
    var folder := BaseCandidate(filePath, index);
    var original := BaseCandidate(filePath, 0);
    if index > 0 {
      CreateFile.CandidatesDistinct(DirName(filePath), Stem(filePath), "", 0, index);
    }
    c := BaseFolderChoice(folder, index, if folder != original then Some((BaseName(original), BaseName(folder))) else None);
  }

  lemma BaseCandidatesDistinct(filePath: string)
    ensures forall i: nat, j: nat :: i < j ==> BaseCandidate(filePath, i) != BaseCandidate(filePath, j)
  {
    forall i: nat, j: nat | i < j
      ensures BaseCandidate(filePath, i) != BaseCandidate(filePath, j)
    {
      CreateFile.CandidatesDistinct(DirName(filePath), Stem(filePath), "", i, j);
    }
  }

  /** The `os.path.exists` loop over any sequence of distinct candidates: the
      index of the first one not in `existing`. There are finitely many
      existing paths and no candidate repeats, so the loop ends. */
  method FirstFree(cand: nat -> string, existing: set<string>) returns (index: nat)
    requires Distinct(cand)
    ensures cand(index) !in existing
    ensures forall j :: 0 <= j < index ==> cand(j) in existing
  {
    index := 0;
    while cand(index) in existing
      invariant forall j :: 0 <= j < index ==> cand(j) in existing
      invariant Tried(cand, index) <= existing
      decreases |existing - Tried(cand, index)|
    {
      TriedShrinks(cand, existing, index);
      index := index + 1;
    }
  }

  /** No two candidates coincide. */
  ghost predicate Distinct(cand: nat -> string) {
    forall i: nat, j: nat :: i < j ==> cand(i) != cand(j)
  }

  /** The candidates the loop has looked at after `n` rounds. */
  ghost function Tried(cand: nat -> string, n: nat): set<string> {
    if n == 0 then {} else Tried(cand, n - 1) + {cand(n - 1)}
  }

  /** The next candidate is not among those already tried. */
  lemma {:induction false} NotTriedYet(cand: nat -> string, n: nat, m: nat)
    requires Distinct(cand)
    requires n <= m
    ensures cand(m) !in Tried(cand, n)
  {
    if n > 0 {
      NotTriedYet(cand, n - 1, m);
    }
  }

  /** Looking at an existing candidate leaves fewer existing folders to try. */
  lemma TriedShrinks(cand: nat -> string, existing: set<string>, n: nat)
    requires Distinct(cand)
    requires cand(n) in existing
    ensures |existing - Tried(cand, n + 1)| < |existing - Tried(cand, n)|
  {
    NotTriedYet(cand, n, n);
    assert existing - Tried(cand, n) == (existing - Tried(cand, n + 1)) + {cand(n)};
  }
}
