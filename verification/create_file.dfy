/**
  The "create file" dialog and the creation of the files it asks for: how
  many name/extension rows are shown, how the rows are read into names and
  extensions, how a free name is searched for next to existing files, which
  template a new file starts from, and what is said at the end. The file
  system is a set of existing paths plus a predicate telling whether a file
  can be written at a path.
 */
module CreateFile {
  import opened Common
  import opened PathNames

  /** The spin control's bounds. */
  const MinFiles: int := 1
  const MaxFiles: int := 10

  // ---------------------------------------------------------------------
  // Rows of the dialog

  /** The dialog's rows after a count change: the clamped count, how many
      rows exist, and which of them are shown. */
  datatype Fields = Fields(count: int, rows: nat, shown: seq<bool>)

  function Clamp(count: int): (c: int)
    ensures MinFiles <= c <= MaxFiles
    ensures MinFiles <= count <= MaxFiles ==> c == count
    ensures count < MinFiles ==> c == MinFiles
    ensures count > MaxFiles ==> c == MaxFiles
  {
    if count < MinFiles then MinFiles else if count > MaxFiles then MaxFiles else count
  }

  /** `_update_file_fields(count)` with `rows` rows already created (one is
      created with the dialog). Rows are only ever added, up to the clamped
      count; a row is shown exactly when its index is below that count. */
  function UpdateFileFields(count: int, rows: nat): (r: Fields)
    ensures r.count == Clamp(count)
    ensures r.rows >= r.count && r.rows >= rows
    ensures r.rows == rows || r.rows == r.count
    ensures |r.shown| == r.rows
    ensures forall i :: 0 <= i < r.rows ==> (r.shown[i] <==> i < r.count)
  {
    var c := Clamp(count);
    var total := if c > rows then c else rows;
    Fields(c, total, seq(total, i => i < c))
  }

  /** Setting the same count twice changes nothing the second time. */
  lemma UpdateFileFieldsIdempotent(count: int, rows: nat)
    ensures var r := UpdateFileFields(count, rows);
            UpdateFileFields(count, r.rows) == r
  {
  }

  /** The number of rows shown is the clamped count, whatever the history of
      count changes. */
  lemma {:induction false} ShownRowsAfterChanges(counts: seq<int>, rows: nat)
    requires |counts| > 0 && rows >= 1
    ensures var r := UpdateAll(counts, rows);
            r.count == Clamp(counts[|counts| - 1]) && r.rows >= r.count
            && |r.shown| == r.rows
            && forall i :: 0 <= i < r.rows ==> (r.shown[i] <==> i < Clamp(counts[|counts| - 1]))
    decreases |counts|
  {
    if |counts| > 1 {
      ShownRowsAfterChanges(counts[..|counts| - 1], rows);
    }
  }

  /** A sequence of count changes applied to the dialog. */
  function UpdateAll(counts: seq<int>, rows: nat): (r: Fields)
    requires |counts| > 0
    decreases |counts|
  {
    if |counts| == 1 then UpdateFileFields(counts[0], rows)
    else UpdateFileFields(counts[|counts| - 1], UpdateAll(counts[..|counts| - 1], rows).rows)
  }

  // ---------------------------------------------------------------------
  // Reading the rows

  /** One row's two text fields. */
  datatype RowInput = RowInput(name: string, ext: string)

  /** One file to create: its base name and its extension (with the dot). */
  datatype FileEntry = FileEntry(name: string, ext: string)

  /** The name given to an unnamed row `i` (counting from 0). */
  function DefaultName(i: nat): (r: string)
    ensures StartsWith(r, "new_file")
    ensures i == 0 <==> r == "new_file"
    ensures i > 0 ==> r == "new_file_" + NatToString(i + 1)
  {
    if i == 0 then "new_file" else "new_file_" + NatToString(i + 1)
  }

  /** Different rows get different default names. */
  lemma DefaultNamesDistinct(i: nat, j: nat)
    requires i != j
    ensures DefaultName(i) != DefaultName(j)
  {
    if i != 0 && j != 0 && DefaultName(i) == DefaultName(j) {
      var a, b := NatToString(i + 1), NatToString(j + 1);
      assert a == DefaultName(i)[9..];
      assert b == DefaultName(j)[9..];
      NatToStringInjective(i + 1, j + 1);
    }
  }

  /** The extension as stored: ".txt" for an empty field, otherwise one
      leading dot removed (if present) and a dot put in front. */
  function NormalizeExt(field: string): (r: string)
    ensures |r| >= 1 && r[0] == '.'
    ensures field == "" ==> r == ".txt"
    ensures field != "" && field[0] == '.' ==> r == field
    ensures field != "" && field[0] != '.' ==> r == "." + field
  {
    if field == "" then ".txt"
    else
      var bare := if field[0] == '.' then field[1..] else field;
      "." + bare
  }

  /** Typing the dot or leaving it out comes to the same extension, and a
      stored extension stays as it is if typed again. */
  lemma NormalizeExtDotOptional(field: string)
    requires field != ""
    ensures NormalizeExt("." + field) == NormalizeExt(field) || field[0] == '.'
    ensures NormalizeExt(NormalizeExt(field)) == NormalizeExt(field)
  {
  }

  /** The entry made from row `i`. */
  function EntryFor(i: nat, row: RowInput): (e: FileEntry)
    ensures e.name != "" && Trimmed(e.name)
    ensures Strip(row.name) != "" ==> e.name == Strip(row.name)
    ensures Strip(row.name) == "" ==> e.name == DefaultName(i)
    ensures e.ext == NormalizeExt(Strip(row.ext))
  {
    DefaultNameTrimmed(i);
    var name := Strip(row.name);
    FileEntry(if name == "" then DefaultName(i) else name, NormalizeExt(Strip(row.ext)))
  }

  lemma DefaultNameTrimmed(i: nat)
    ensures Trimmed(DefaultName(i))
  {
    var d := DefaultName(i);
    assert d[0] == 'n';
    if i != 0 {
      var digits := NatToString(i + 1);
      assert d[|d| - 1] == digits[|digits| - 1];
    }
  }

  /** What pressing OK does. */
  datatype OkResult =
    | CountTooSmall
    | CountTooLarge
    /** The entries to create, and whether "some files will use default
        names" is said. */
    | Collected(entries: seq<FileEntry>, defaulted: bool)

  /** `CreateFileDialog.OnOk`: the count must lie in [1, 10]; one entry is
      read per row up to the count, skipping nothing but rows that do not
      exist. */
  method CreateOk(count: int, rows: seq<RowInput>) returns (r: OkResult)
    ensures r == CountTooSmall <==> count < MinFiles
    ensures r == CountTooLarge <==> count > MaxFiles
    ensures r.Collected? ==>
      |r.entries| == (if count < |rows| then count else |rows|)
      && (forall i :: 0 <= i < |r.entries| ==> r.entries[i] == EntryFor(i, rows[i]))
      && (r.defaulted <==> exists i :: 0 <= i < |r.entries| && Blank(rows[i].name))
  {
    if count < MinFiles {
      return CountTooSmall;
    }
    if count > MaxFiles {
      return CountTooLarge;
    }
    var entries, defaulted := CollectRows(count, rows);
    MapRowsIndex(rows, |entries|, EntryFor);
    AnyUnnamedWitness(rows, |entries|);
    r := Collected(entries, defaulted);
  }

  /** The loop of `OnOk`: rows past the last one shown are skipped. */
  method CollectRows(count: nat, rows: seq<RowInput>) returns (entries: seq<FileEntry>, defaulted: bool)
    ensures |entries| == (if count < |rows| then count else |rows|)
    ensures entries == MapRows(rows, |entries|, EntryFor)
    ensures defaulted == AnyUnnamed(rows, |entries|)
  {
    entries, defaulted := [], false;
    var i := 0;
    while i < count
      invariant i <= count
      invariant |entries| == (if i < |rows| then i else |rows|)
      invariant entries == MapRows(rows, |entries|, EntryFor)
      invariant defaulted == AnyUnnamed(rows, |entries|)
    {
      if i < |rows| {
        var e, unnamed := CollectRow(i, rows[i]);
        assert AnyUnnamed(rows, i + 1) == (AnyUnnamed(rows, i) || Blank(rows[i].name));
        assert MapRows(rows, i + 1, EntryFor) == MapRows(rows, i, EntryFor) + [e];
        if unnamed {
          defaulted := true;
        }
        entries := entries + [e];
      }
      i := i + 1;
    }
  }

  /** One row of the OK handler's loop: its entry, and whether its stripped
      name came out empty (so the default name was used). */
  method CollectRow(i: nat, row: RowInput) returns (e: FileEntry, unnamed: bool)
    ensures e == EntryFor(i, row)
    ensures unnamed <==> Blank(row.name)
  {
    var name := Strip(row.name);
    StripEmptyIffBlank(row.name);
    unnamed := name == "";
    e := EntryFor(i, row);
  }

  /** `f` applied to each of the first `n` rows together with its index, in
      order. Generic in `f`, so that its lemma never looks inside the
      function applied. */
  function MapRows<A, B>(rows: seq<A>, n: nat, f: (nat, A) -> B): seq<B>
    requires n <= |rows|
  {
    if n == 0 then [] else MapRows(rows, n - 1, f) + [f(n - 1, rows[n - 1])]
  }

  /** One of the first `n` rows has an empty (stripped) name. */
  function AnyUnnamed(rows: seq<RowInput>, n: nat): bool
    requires n <= |rows|
  {
    n > 0 && (AnyUnnamed(rows, n - 1) || Blank(rows[n - 1].name))
  }

  lemma {:induction false} MapRowsIndex<A, B>(rows: seq<A>, n: nat, f: (nat, A) -> B)
    requires n <= |rows|
    ensures |MapRows(rows, n, f)| == n
    ensures forall k :: 0 <= k < n ==> MapRows(rows, n, f)[k] == f(k, rows[k])
  {
    if n > 0 {
      MapRowsIndex(rows, n - 1, f);
    }
  }

  lemma {:induction false} AnyUnnamedWitness(rows: seq<RowInput>, n: nat)
    requires n <= |rows|
    ensures AnyUnnamed(rows, n) <==> exists k :: 0 <= k < n && Blank(rows[k].name)
  {
    if n > 0 {
      AnyUnnamedWitness(rows, n - 1);
      if Blank(rows[n - 1].name) {
        assert 0 <= n - 1 < n && Blank(rows[n - 1].name);
      }
    }
  }

  // ---------------------------------------------------------------------
  // Finding a free name

  /** The highest suffix tried. */
  const MaxCounter: nat := 100

  /** The `k`-th name tried for `name` + `ext` in `dir`: the plain name, then
      `name_k`. */
  function Candidate(dir: string, name: string, ext: string, k: nat): (r: string)
    ensures StartsWith(r, dir) && EndsWith(r, ext)
    ensures k == 0 ==> EndsWith(r, name + ext)
    ensures k > 0 ==> EndsWith(r, "_" + NatToString(k) + ext)
  {
    EndsWithSuffix(name, ext);
    EndsWithSuffix(name + "_" + NatToString(k), ext);
    EndsWithSuffix(name, "_" + NatToString(k) + ext);
    assert name + ("_" + NatToString(k) + ext) == name + "_" + NatToString(k) + ext;
    EndsWithTrans(Join(dir, name + ext), name + ext, ext);
    EndsWithTrans(Join(dir, name + "_" + NatToString(k) + ext), name + "_" + NatToString(k) + ext, ext);
    EndsWithTrans(Join(dir, name + "_" + NatToString(k) + ext), name + "_" + NatToString(k) + ext, "_" + NatToString(k) + ext);
    if k == 0 then Join(dir, name + ext) else Join(dir, name + "_" + NatToString(k) + ext)
  }

  /** The candidates are pairwise different, so the search looks at 101
      distinct paths. */
  lemma CandidatesDistinct(dir: string, name: string, ext: string, j: nat, k: nat)
    requires j != k
    ensures Candidate(dir, name, ext, j) != Candidate(dir, name, ext, k)
  {
    if Candidate(dir, name, ext, j) == Candidate(dir, name, ext, k) {
      var a := if j == 0 then name + ext else name + "_" + NatToString(j) + ext;
      var b := if k == 0 then name + ext else name + "_" + NatToString(k) + ext;
      JoinInjective(dir, a, b);
      if j != 0 && k != 0 {
        var sj, sk := NatToString(j), NatToString(k);
        assert |sj| == |sk|;
        assert sj == a[|name| + 1..|name| + 1 + |sj|];
        assert sk == b[|name| + 1..|name| + 1 + |sk|];
        NatToStringInjective(j, k);
      }
    }
  }

  /** The search in `_create_files`: the plain name if it is free, else the
      first free `name_k` for k = 1 .. 99. When all of those exist the search
      gives up (and says so) with `name_100`, whether or not it exists.

      `key` is the file system's identity of a path: Windows' `os.path.exists`
      ignores letter case and a trailing dot, so `A.txt` exists once `a.txt`
      does. `existing` holds the keys of the paths that exist. */
  method ChooseFilePath(dir: string, name: string, ext: string, existing: set<string>, key: string -> string)
    returns (path: string, index: nat, gaveUp: bool)
    ensures index <= MaxCounter && path == Candidate(dir, name, ext, index)
    ensures gaveUp <==> index == MaxCounter
    ensures forall j :: 0 <= j < index ==> key(Candidate(dir, name, ext, j)) in existing
    ensures !gaveUp ==> key(path) !in existing
  {
    path := Candidate(dir, name, ext, 0);
    index := 0;
    while key(path) in existing && index < MaxCounter
      invariant index <= MaxCounter && path == Candidate(dir, name, ext, index)
      invariant forall j :: 0 <= j < index ==> key(Candidate(dir, name, ext, j)) in existing
    {
      index := index + 1;
      path := Candidate(dir, name, ext, index);
    }
    gaveUp := index == MaxCounter;
  }

  // ---------------------------------------------------------------------
  // Templates and creation

  /** The extensions with a template. */
  const TemplateKeys: set<string> := {
    "py", "js", "html", "css", "xml", "json", "md", "ini", "conf", "cfg",
    "java", "cpp", "c", "h", "php", "rb", "pl", "sh", "bat", "ps1", "rtf"
  }

  /** The extension without its leading dot, if it has one. */
  function DropDot(ext: string): (r: string)
    ensures StartsWith(ext, ".") ==> "." + r == ext
    ensures !StartsWith(ext, ".") ==> r == ext
  {
    if StartsWith(ext, ".") then ext[1..] else ext
  }

  /** The extension without its dot, in lower case. */
  function CleanExt(ext: string): string {
    Lower(DropDot(ext))
  }

  /** The template a new file starts from (`None` = an empty file). */
  function TemplateFor(ext: string): (r: Option<string>)
    ensures r.Some? <==> CleanExt(ext) in TemplateKeys
    ensures r.Some? ==> r.value == CleanExt(ext)
  {
    var key := CleanExt(ext);
    if key in TemplateKeys then Some(key) else None
  }

  /** Every entry has a template key exactly when its extension names one, in
      any letter case: ".PY" and ".py" both start from the Python template. */
  lemma TemplateIgnoresCase(ext: string)
    ensures TemplateFor(Upper(ext)) == TemplateFor(ext)
  {
    var u := Upper(ext);
    if ext != "" {
      assert u[..1] == [UpperChar(ext[0])];
      assert ext[..1] == [ext[0]];
    }
    if StartsWith(ext, ".") {
      assert DropDot(u) == Upper(DropDot(ext));
    } else {
      assert DropDot(u) == u;
    }
    LowerOfUpper(DropDot(ext));
  }

  /** What happened to one entry. */
  datatype FileOutcome = FileOutcome(path: string, index: nat, gaveUp: bool, written: bool)

  function CountWritten(outs: seq<FileOutcome>): (n: nat)
    ensures n <= |outs|
  {
    if outs == [] then 0
    else CountWritten(outs[..|outs| - 1]) + (if outs[|outs| - 1].written then 1 else 0)
  }

  /** The closing message. */
  datatype CreateMessage = NoFilesCreated | OneFileCreated | FilesCreated(count: nat)

  function ResultMessage(created: nat): (m: CreateMessage)
    ensures m == NoFilesCreated <==> created == 0
    ensures m == OneFileCreated <==> created == 1
    ensures m.FilesCreated? ==> m.count == created && created >= 2
  {
    if created == 0 then NoFilesCreated
    else if created == 1 then OneFileCreated
    else FilesCreated(created)
  }

  /** One entry of `_create_files`: a free path is searched for among the
      paths present (by their keys), and the file is written if the file
      system lets it be. What is written (the text of `TemplateFor` of the
      extension) is not part of the outcome. */
  method CreateOne(dir: string, e: FileEntry, present: set<string>, key: string -> string, canWrite: string -> bool)
    returns (out: FileOutcome)
    ensures Searched(dir, e, out, present, key)
    ensures out.written <==> canWrite(out.path)
  {
    var path, index, gaveUp := ChooseFilePath(dir, e.name, e.ext, present, key);
    out := FileOutcome(path, index, gaveUp, canWrite(path));
  }

  /** `out` records the search for `e` among the path keys `present`: its
      path is candidate number `index`, every earlier candidate was taken,
      and the path is free unless the search gave up at the last counter. */
  predicate Searched(dir: string, e: FileEntry, out: FileOutcome, present: set<string>, key: string -> string) {
    && out.index <= MaxCounter
    && out.path == Candidate(dir, e.name, e.ext, out.index)
    && (out.gaveUp <==> out.index == MaxCounter)
    && (forall j :: 0 <= j < out.index ==> key(Candidate(dir, e.name, e.ext, j)) in present)
    && (!out.gaveUp ==> key(out.path) !in present)
  }

  /** The keys of the paths of the files written. */
  function WrittenKeys(outs: seq<FileOutcome>, key: string -> string): (r: set<string>)
    ensures forall k :: 0 <= k < |outs| && outs[k].written ==> key(outs[k].path) in r
  {
    if outs == [] then {}
    else
      var last := outs[|outs| - 1];
      var front := outs[..|outs| - 1];
      var r := WrittenKeys(front, key) + (if last.written then {key(last.path)} else {});
      assert forall k :: 0 <= k < |front| ==> front[k] == outs[k];
      r
  }

  /** `outs` is what `_create_files` produces for the first `|outs|` entries
      when `existing` holds at the start: each outcome is the search for its
      entry among the paths existing before it, including those written for
      earlier entries, and is written exactly when the file system lets it
      be. */
  predicate Created(dir: string, entries: seq<FileEntry>, outs: seq<FileOutcome>, existing: set<string>, key: string -> string, canWrite: string -> bool)
    requires |outs| <= |entries|
  {
    outs == [] ||
      var n := |outs| - 1;
      && Created(dir, entries, outs[..n], existing, key, canWrite)
      && Searched(dir, entries[n], outs[n], existing + WrittenKeys(outs[..n], key), key)
      && (outs[n].written <==> canWrite(outs[n].path))
  }

  /** Entry by entry: each outcome is the search for its entry among the
      paths existing before it and those written for the entries before it. */
  lemma {:induction false} CreatedSearches(dir: string, entries: seq<FileEntry>, outs: seq<FileOutcome>, existing: set<string>, key: string -> string, canWrite: string -> bool)
    requires |outs| <= |entries|
    requires Created(dir, entries, outs, existing, key, canWrite)
    ensures forall i :: 0 <= i < |outs| ==> Searched(dir, entries[i], outs[i], existing + WrittenKeys(outs[..i], key), key)
  {
    if outs != [] {
      var n := |outs| - 1;
      var prev := outs[..n];
      CreatedSearches(dir, entries, prev, existing, key, canWrite);
      forall i | 0 <= i <= n
        ensures Searched(dir, entries[i], outs[i], existing + WrittenKeys(outs[..i], key), key)
      {
        if i < n {
          PrefixAt(outs, n, i);
        }
      }
    }
  }

  /** Indexing and slicing a prefix agree with the whole sequence. */
  lemma PrefixAt(outs: seq<FileOutcome>, n: nat, i: nat)
    requires i < n <= |outs|
    ensures outs[..n][i] == outs[i]
    ensures outs[..n][..i] == outs[..i]
  {
  }

  /** Each outcome is written exactly when the file system lets it be. */
  lemma {:induction false} CreatedWrites(dir: string, entries: seq<FileEntry>, outs: seq<FileOutcome>, existing: set<string>, key: string -> string, canWrite: string -> bool)
    requires |outs| <= |entries|
    requires Created(dir, entries, outs, existing, key, canWrite)
    ensures forall i :: 0 <= i < |outs| ==> (outs[i].written <==> canWrite(outs[i].path))
  {
    if outs != [] {
      var n := |outs| - 1;
      CreatedWrites(dir, entries, outs[..n], existing, key, canWrite);
      assert forall i :: 0 <= i < n ==> outs[i] == outs[..n][i];
    }
  }

  /** Unless the search gave up, no file existing before is touched and no
      file written for an earlier entry is overwritten by a later one, not
      even through a path that differs from it only in what the file system
      ignores. */
  lemma {:induction false} CreatedAvoids(dir: string, entries: seq<FileEntry>, outs: seq<FileOutcome>, existing: set<string>, key: string -> string, canWrite: string -> bool)
    requires |outs| <= |entries|
    requires Created(dir, entries, outs, existing, key, canWrite)
    ensures forall i :: 0 <= i < |outs| && !outs[i].gaveUp ==> key(outs[i].path) !in existing
    ensures forall i, j :: 0 <= i < j < |outs| && outs[i].written && !outs[j].gaveUp ==> key(outs[i].path) != key(outs[j].path)
    ensures forall i, j :: 0 <= i < j < |outs| && outs[i].written && !outs[j].gaveUp ==> outs[i].path != outs[j].path
  {
    if outs != [] {
      var n := |outs| - 1;
      var prev := outs[..n];
      CreatedAvoids(dir, entries, prev, existing, key, canWrite);
      assert forall i :: 0 <= i < n ==> outs[i] == prev[i];
    }
  }

  /** A later entry whose plain name has the same key as a file written for
      an earlier entry (`A.txt` after `a.txt` on Windows) is moved on to a
      numbered name. */
  lemma SameKeyMovesOn(dir: string, entries: seq<FileEntry>, outs: seq<FileOutcome>, existing: set<string>,
                       key: string -> string, canWrite: string -> bool, i: nat, j: nat)
    requires |outs| <= |entries|
    requires Created(dir, entries, outs, existing, key, canWrite)
    requires i < j < |outs| && outs[i].written
    requires key(Candidate(dir, entries[j].name, entries[j].ext, 0)) == key(outs[i].path)
    ensures outs[j].index > 0
  {
    CreatedSearches(dir, entries, outs, existing, key, canWrite);
    PrefixAt(outs, j, i);
    assert key(outs[i].path) in WrittenKeys(outs[..j], key);
  }

  /** `_create_files`: each entry in turn gets a path from the search and is
      written if the file system lets it be (`canWrite`, covering the
      fallback of creating it empty). A written file exists for the entries
      after it. */
  method CreateFiles(dir: string, entries: seq<FileEntry>, existing: set<string>, key: string -> string, canWrite: string -> bool)
    returns (outs: seq<FileOutcome>, message: CreateMessage)
    ensures |outs| == |entries|
    ensures message == ResultMessage(CountWritten(outs))
    ensures Created(dir, entries, outs, existing, key, canWrite)
    ensures forall i :: 0 <= i < |outs| ==> Searched(dir, entries[i], outs[i], existing + WrittenKeys(outs[..i], key), key)
    ensures forall i :: 0 <= i < |outs| ==> (outs[i].written <==> canWrite(outs[i].path))
    ensures forall i :: 0 <= i < |outs| && !outs[i].gaveUp ==> key(outs[i].path) !in existing
    ensures forall i, j :: 0 <= i < j < |outs| && outs[i].written && !outs[j].gaveUp ==> key(outs[i].path) != key(outs[j].path)
  {
    outs := [];
    var present := existing;
    var i := 0;
    while i < |entries|
      invariant 0 <= i <= |entries| && |outs| == i
      invariant present == existing + WrittenKeys(outs, key)
      invariant Created(dir, entries, outs, existing, key, canWrite)
    {
      var out := CreateOne(dir, entries[i], present, key, canWrite);
      var next := outs + [out];
      assert next[..i] == outs;
      outs := next;
      if out.written {
        present := present + {key(out.path)};
      }
      i := i + 1;
    }
    CreatedSearches(dir, entries, outs, existing, key, canWrite);
    CreatedWrites(dir, entries, outs, existing, key, canWrite);
    CreatedAvoids(dir, entries, outs, existing, key, canWrite);
    message := ResultMessage(CountWritten(outs));
  }
}
