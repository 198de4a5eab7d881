/**
  The name and size rules of the add-on's file operations: the rename dialog
  and the decision taken on its answer, the checks made before the dialog is
  shown, the size read-out with its unit, and which selected items the size
  computation counts.
 */
module FileOperations {
  import opened Common
  import opened PathNames
  import opened ExplorerLocator

  // ---------------------------------------------------------------------
  // Rename dialog

  /** The dialog's two text fields. */
  datatype DialogFields = DialogFields(name: string, ext: string)

  /** `RenameDialog.InitUI`: the name field gets the `splitext` stem, the
      extension field the extension without its leading dot. */
  function RenameDialogFields(fileName: string): (r: DialogFields)
    ensures forall k :: 0 <= k < |r.ext| ==> r.ext[k] != '.'
    ensures Splitext(fileName).1 == "" ==> r == DialogFields(fileName, "")
    ensures Splitext(fileName).1 != "" ==> fileName == r.name + "." + r.ext
  {
    var (stem, ext) := Splitext(fileName);
    var shown := if ext != "" && ext[0] == '.' then ext[1..] else ext;
    DialogFields(stem, shown)
  }

  /** What pressing OK does: with an empty (stripped) name the dialog says so
      and stays open; otherwise it closes with the new name. */
  datatype OkOutcome = StaysOpen | Accepted(newName: string)

  /** `RenameDialog.OnOk`. */
  function RenameOk(fields: DialogFields): (r: OkOutcome)
    ensures r.StaysOpen? <==> forall k :: 0 <= k < |fields.name| ==> IsSpace(fields.name[k])
    ensures r.Accepted? ==> r.newName != "" && StartsWith(r.newName, Strip(fields.name))
    ensures r.Accepted? && Strip(fields.ext) == "" ==> r.newName == Strip(fields.name)
    ensures r.Accepted? && Strip(fields.ext) != "" ==> r.newName == Strip(fields.name) + "." + Strip(fields.ext)
  {
    var name := Strip(fields.name);
    var ext := Strip(fields.ext);
    if name == "" then StaysOpen
    else Accepted(name + (if ext != "" then "." + ext else ""))
  }

  /** Accepting the dialog untouched gives the original name back when the
      stem is non-empty, both fields are free of surrounding whitespace and
      the extension is not a bare dot. */
  lemma RenameUnchangedRoundTrip(fileName: string)
    requires RenameDialogFields(fileName).name != ""
    requires Trimmed(RenameDialogFields(fileName).name) && Trimmed(RenameDialogFields(fileName).ext)
    requires Splitext(fileName).1 != "."
    ensures RenameOk(RenameDialogFields(fileName)) == Accepted(fileName)
  {
    var f := RenameDialogFields(fileName);
    var ext := Splitext(fileName).1;
    StripIdentity(f.name);
    StripIdentity(f.ext);
    var tail := if Strip(f.ext) != "" then "." + Strip(f.ext) else "";
    assert RenameOk(f) == Accepted(f.name + tail);
    if ext == "" {
      assert f.ext == "" && f.name == fileName;
      assert tail == "";
      assert f.name + tail == fileName;
    } else {
      assert |ext| >= 2;
      assert f.ext != "";
      assert tail == "." + f.ext;
      assert f.name + tail == fileName;
    }
  }

  /** A name ending in a bare dot loses it: "a." comes back as "a". */
  lemma BareDotIsDropped()
    ensures RenameOk(RenameDialogFields("a.")) == Accepted("a")
  {
    assert LastSepIndex("a.") == -1 by {
      assert LastSepIndex("a") == -1;
    }
    assert LastIndexOf("a.", '.') == 1;
    assert NameCharBefore("a.", 1) by {
      assert "a."[0] != '.';
    }
    assert "a."[..1] == "a" && "a."[1..] == ".";
    assert Splitext("a.") == ("a", ".");
    StripIdentity("a");
  }

  /** What `_showRenameDialog` does with the dialog's answer. */
  datatype RenameOutcome =
    | Cancelled
    | NameNotChanged
    | NameTaken
    | Renamed(newPath: string)

  /** The decision after the dialog closes (`None` = cancelled or closed). The
      new path is the old directory joined with the new name; the rename is
      attempted only when that path differs from the old one and does not
      exist. */
  function RenameDecision(answer: Option<string>, dirName: string, filePath: string,
                          pathExists: string -> bool): (r: RenameOutcome)
    ensures r.Renamed? <==> answer.Some? && answer.value != ""
                            && Join(dirName, answer.value) != filePath && !pathExists(Join(dirName, answer.value))
    ensures r.Renamed? ==> r.newPath == Join(dirName, answer.value) && EndsWith(r.newPath, answer.value)
    ensures r.Cancelled? <==> answer.None? || answer.value == ""
    ensures r.NameNotChanged? ==> Join(dirName, answer.value) == filePath
    ensures r.NameTaken? ==> pathExists(Join(dirName, answer.value))
  {
    if answer.None? || answer.value == "" then Cancelled
    else
      var newPath := Join(dirName, answer.value);
      if newPath == filePath then NameNotChanged
      else if pathExists(newPath) then NameTaken
      else Renamed(newPath)
  }

  /** The checks `renameFile` makes before showing the dialog. */
  datatype RenameStart =
    | NoItemsSelected
    | SelectOnlyOne
    | NotAFile
    | ShowDialog(fileName: string, dirName: string, filePath: string)

  /** `renameFile`: outside File Explorer nothing happens (`None`); otherwise
      the selection must hold exactly one item, and that item must be a file. */
  function RenameGuards(focus: Option<AppObject>, sel: Selection, isFile: string -> bool): (r: Option<RenameStart>)
    ensures r.None? <==> !InExplorer(focus)
    ensures r == Some(NoItemsSelected) <==> InExplorer(focus) && !HasItems(sel)
    ensures r == Some(SelectOnlyOne) <==> InExplorer(focus) && HasItems(sel) && |sel.items| > 1
    ensures r == Some(NotAFile) <==> InExplorer(focus) && HasItems(sel) && |sel.items| == 1 && !isFile(sel.items[0].path)
    ensures r.Some? && r.value.ShowDialog? ==>
      HasItems(sel) && |sel.items| == 1 && isFile(sel.items[0].path) && r.value.filePath == sel.items[0].path
      && r.value.fileName == BaseName(r.value.filePath) && r.value.dirName == DirName(r.value.filePath)
  {
    if !InExplorer(focus) then None
    else if !HasItems(sel) then Some(NoItemsSelected)
    else if |sel.items| > 1 then Some(SelectOnlyOne)
    else
      var filePath := sel.items[0].path;
      if !isFile(filePath) then Some(NotAFile)
      else Some(ShowDialog(BaseName(filePath), DirName(filePath), filePath))
  }

  /** Renaming a file `dir\name` to its own name, with the dialog left as it
      was filled in, reports that the name did not change. */
  lemma RenameUntouchedNotChanged(dir: string, name: string, pathExists: string -> bool)
    requires dir != "" && !IsSep(dir[|dir| - 1])
    requires forall k :: 0 <= k < |name| ==> !IsSep(name[k])
    requires RenameDialogFields(name).name != ""
    requires Trimmed(RenameDialogFields(name).name) && Trimmed(RenameDialogFields(name).ext)
    requires Splitext(name).1 != "."
    ensures var filePath := dir + "\\" + name;
            var answer := RenameOk(RenameDialogFields(BaseName(filePath)));
            answer.Accepted?
            && RenameDecision(Some(answer.newName), DirName(filePath), filePath, pathExists) == NameNotChanged
  {
    var filePath := dir + "\\" + name;
    SplitJoined(dir, name);
    RenameUnchangedRoundTrip(name);
    SamePathNotChanged(dir, name, filePath, pathExists);
  }

  lemma SamePathNotChanged(dirName: string, name: string, filePath: string, pathExists: string -> bool)
    requires name != "" && Join(dirName, name) == filePath
    ensures RenameDecision(Some(name), dirName, filePath, pathExists) == NameNotChanged
  {
  }

  // ---------------------------------------------------------------------
  // Size read-out

  function Pow1024(i: nat): (r: nat)
    ensures r >= 1
  {
    if i == 0 then 1 else 1024 * Pow1024(i - 1)
  }

  lemma {:induction false} Pow1024Monotone(i: nat, j: nat)
    requires i <= j
    ensures Pow1024(i) <= Pow1024(j)
    decreases j
  {
    if i < j {
      Pow1024Monotone(i, j - 1);
    }
  }

  /** The number of times `_RecalcSize` divides by 1024: 0 below 1024, else
      one more than for the value divided by 1024. */
  function UnitIndexOf(n: nat): (i: nat)
    decreases n
  {
    if n < 1024 then 0 else 1 + UnitIndexOf(n / 1024)
  }

  /** The unit index is the largest `i` with `1024^i <= n` (0 for sizes below
      1024, zero included). */
  lemma {:induction false} UnitIndexBounds(n: nat)
    ensures n < Pow1024(UnitIndexOf(n) + 1)
    ensures UnitIndexOf(n) > 0 ==> Pow1024(UnitIndexOf(n)) <= n
    decreases n
  {
    if n >= 1024 {
      var m := n / 1024;
      UnitIndexBounds(m);
      var i := UnitIndexOf(m);
      assert n < 1024 * (m + 1);
      assert m < Pow1024(i + 1);
      assert m + 1 <= Pow1024(i + 1);
      assert 1024 * (m + 1) <= 1024 * Pow1024(i + 1);
      if i > 0 {
        assert Pow1024(i) <= m;
        assert 1024 * Pow1024(i) <= 1024 * m;
      }
    }
  }

  /** Any `i` with `1024^i <= n < 1024^(i+1)` is the unit index. */
  lemma UnitIndexUnique(n: nat, i: nat)
    requires i == 0 || Pow1024(i) <= n
    requires n < Pow1024(i + 1)
    ensures UnitIndexOf(n) == i
  {
    UnitIndexBounds(n);
    var u := UnitIndexOf(n);
    if u < i {
      Pow1024Monotone(u + 1, i);
    } else if u > i {
      Pow1024Monotone(i + 1, u);
    }
  }

  /** A power of 1024 that fits in `n` is at most the unit index. */
  lemma IndexAtMostUnit(n: nat, j: nat)
    requires Pow1024(j) <= n
    ensures j <= UnitIndexOf(n)
  {
    UnitIndexBounds(n);
  }

  /** `_RecalcSize(n)`: divide by 1024 while the value is at least 1024. The
      amount is the size in the chosen unit; its two-decimal formatting is not
      modelled. */
  method RecalcSize(n: nat) returns (amount: real, i: nat)
    ensures i == UnitIndexOf(n)
    ensures amount * (Pow1024(i) as real) == n as real
    ensures amount < 1024.0
    ensures i > 0 ==> amount >= 1.0
  {
    amount := n as real;
    i := 0;
    while amount >= 1024.0
      invariant amount * (Pow1024(i) as real) == n as real
      invariant i == 0 || Pow1024(i) <= n
      invariant i > 0 ==> amount >= 1.0
      invariant i <= UnitIndexOf(n)
      decreases UnitIndexOf(n) - i
    {
      RecalcStep(amount, i, n);
      amount := amount / 1024.0;
      i := i + 1;
    }
    RecalcExit(amount, i, n);
  }

  /** One pass of the `_RecalcSize` loop keeps the amount equal to `n` in the
      next unit, and that unit is still within the unit index. */
  lemma RecalcStep(amount: real, i: nat, n: nat)
    requires amount * (Pow1024(i) as real) == n as real && amount >= 1024.0
    ensures (amount / 1024.0) * (Pow1024(i + 1) as real) == n as real
    ensures Pow1024(i + 1) <= n && i + 1 <= UnitIndexOf(n)
    ensures amount / 1024.0 >= 1.0
  {
    var p := Pow1024(i);
    var d := amount - 1024.0;
    assert d * (p as real) >= 0.0;
    assert amount * (p as real) == 1024.0 * (p as real) + d * (p as real);
    assert Pow1024(i + 1) == 1024 * p;
    assert (amount / 1024.0) * ((1024 * p) as real) == (amount / 1024.0) * 1024.0 * (p as real);
    IndexAtMostUnit(n, i + 1);
  }

  /** When the loop stops, the number of passes is the unit index. */
  lemma RecalcExit(amount: real, i: nat, n: nat)
    requires amount * (Pow1024(i) as real) == n as real && amount < 1024.0
    requires i == 0 || Pow1024(i) <= n
    ensures i == UnitIndexOf(n)
  {
    ScaledBelow(amount, Pow1024(i), n);
    UnitIndexUnique(n, i);
  }

  lemma ScaledBelow(amount: real, p: nat, n: nat)
    requires amount * (p as real) == n as real && amount < 1024.0 && p >= 1
    ensures n < 1024 * p
  {
    ScaleBelow(amount, 1024.0, p as real);
    assert ((1024 * p) as real) == 1024.0 * (p as real);
  }

  lemma ScaleBelow(a: real, b: real, c: real)
    requires a < b && c > 0.0
    ensures a * c < b * c
  {
  }

  /** `[" bytes", " KB", " MB", " GB", " TB"]`. */
  const Units: seq<string> := [" bytes", " KB", " MB", " GB", " TB"]

  /** The unit table has an entry exactly for totals below 1024^5. */
  lemma UnitInRange(n: nat)
    ensures UnitIndexOf(n) < |Units| <==> n < Pow1024(5)
  {
    UnitIndexBounds(n);
    var i := UnitIndexOf(n);
    if i < 5 {
      Pow1024Monotone(i + 1, 5);
    } else {
      Pow1024Monotone(5, i);
    }
  }

  /** What `_display_size_result` says. */
  datatype SizeMessage =
    | NoAccessToSizeData
    | SizeReport(itemCount: Option<nat>, amount: real, unit: string)
    /** The unit index is past the end of the table: indexing it raises and
        nothing is said. */
    | UnitOutOfRange

  /** `_display_size_result`. */
  function DisplaySizeResult(total: nat, isDrive: bool, itemCount: nat): (r: SizeMessage)
    ensures r.NoAccessToSizeData? <==> total == 0 && !isDrive
    ensures r.UnitOutOfRange? <==> !(total == 0 && !isDrive) && total >= Pow1024(5)
    ensures r.SizeReport? ==>
      var i := UnitIndexOf(total);
      i < |Units| && r.unit == Units[i] && r.amount * (Pow1024(i) as real) == total as real
      && (r.itemCount.Some? <==> itemCount > 1)
      && (r.itemCount.Some? ==> r.itemCount.value == itemCount)
  {
    if total == 0 && !isDrive then NoAccessToSizeData
    else
      var i := UnitIndexOf(total);
      UnitInRange(total);
      if i >= |Units| then UnitOutOfRange
      else SizeReport(if itemCount > 1 then Some(itemCount) else None,
                      total as real / Pow1024(i) as real, Units[i])
  }

  // ---------------------------------------------------------------------
  // Size of the selection

  /** `_calculate_folder_size_fast`: the Windows API figure when it produced
      one, otherwise the PowerShell figure (`None` = that method failed). */
  function FolderSizeFast(windowsApi: Option<nat>, powerShell: Option<nat>): (r: Option<nat>)
    ensures r.None? <==> windowsApi.None? && powerShell.None?
    ensures windowsApi.Some? ==> r == windowsApi
    ensures windowsApi.None? ==> r == powerShell
  {
    if windowsApi.Some? then windowsApi else powerShell
  }

  /** What the file-system object reports for a selected path, tried in this
      order: file, drive, folder. A `None` size is a query that raised. For a
      folder, `estimate` is the `os.walk` estimate (`None` when it raised). */
  datatype PathKind =
    | FileAt(fileSize: Option<nat>)
    | DriveAt(usedSize: Option<nat>)
    | FolderAt(windowsApi: Option<nat>, powerShell: Option<nat>, estimate: Option<nat>)
    | NothingAt

  /** The file-system queries `saySize` makes for a path: whether
      `_check_access_permission` succeeds, and what the path is. */
  datatype Probe = Probe(accessible: string -> bool, kind: string -> PathKind)

  /** What one counted item adds to the total. A folder whose fast size is
      missing or zero falls back on the estimate; an estimate that raised
      counts 1024 bytes. */
  function Contribution(k: PathKind): (r: nat)
    ensures k.FolderAt? && FolderSizeFast(k.windowsApi, k.powerShell).Some?
            && FolderSizeFast(k.windowsApi, k.powerShell).value > 0
            ==> r == FolderSizeFast(k.windowsApi, k.powerShell).value
    ensures k.FolderAt? && k.estimate.None?
            && (FolderSizeFast(k.windowsApi, k.powerShell).None? || FolderSizeFast(k.windowsApi, k.powerShell) == Some(0))
            ==> r == 1024
    ensures k.NothingAt? || k == FileAt(None) || k == DriveAt(None) ==> r == 0
    ensures k.FileAt? && k.fileSize.Some? ==> r == k.fileSize.value
    ensures k.DriveAt? && k.usedSize.Some? ==> r == k.usedSize.value
    ensures k.FolderAt? && k.estimate.Some?
            && (FolderSizeFast(k.windowsApi, k.powerShell).None? || FolderSizeFast(k.windowsApi, k.powerShell) == Some(0))
            ==> r == k.estimate.value
  {
    match k
    case FileAt(s) => if s.Some? then s.value else 0
    case DriveAt(s) => if s.Some? then s.value else 0
    case FolderAt(api, ps, est) =>
      var fast := FolderSizeFast(api, ps);
      if fast.Some? && fast.value > 0 then fast.value
      else if est.Some? then est.value else 1024
    case NothingAt => 0
  }

  /** The names of the items that fail the access check, in order. */
  function InaccessibleNames(items: seq<Item>, probe: Probe): (r: seq<string>)
    ensures |r| <= |items|
    ensures |r| == |items| <==> forall k :: 0 <= k < |items| ==> !probe.accessible(items[k].path)
    ensures forall k :: 0 <= k < |items| && !probe.accessible(items[k].path) ==> items[k].name in r
    ensures forall n :: n in r ==> exists k :: 0 <= k < |items| && items[k].name == n && !probe.accessible(items[k].path)
  {
    if items == [] then []
    else
      var rest := InaccessibleNames(items[1..], probe);
      assert forall k :: 1 <= k < |items| ==> items[k] == items[1..][k - 1];
      if probe.accessible(items[0].path) then rest else [items[0].name] + rest
  }

  /** The items the size worker counts: those whose NAME is not among the
      inaccessible names. */
  function Counted(items: seq<Item>, skipped: seq<string>): (r: seq<Item>)
    ensures |r| <= |items|
    ensures forall x :: x in r <==> x in items && x.name !in skipped
  {
    if items == [] then []
    else
      var last := items[|items| - 1];
      var front := Counted(items[..|items| - 1], skipped);
      assert forall x :: x in items <==> x in items[..|items| - 1] || x == last;
      if last.name in skipped then front else front + [last]
  }

  /** Filtering distributes over concatenation, so the counted items are the
      non-skipped items in their original order, each as often as it was
      selected. */
  lemma {:induction false} CountedAppend(a: seq<Item>, b: seq<Item>, skipped: seq<string>)
    ensures Counted(a + b, skipped) == Counted(a, skipped) + Counted(b, skipped)
    decreases |b|
  {
    if b == [] {
      assert a + b == a;
    } else {
      var b' := b[..|b| - 1];
      var last := b[|b| - 1];
      assert (a + b)[..|a + b| - 1] == a + b';
      assert (a + b)[|a + b| - 1] == last;
      CountedAppend(a, b', skipped);
    }
  }

  /** One item is counted exactly when its name is not skipped. */
  lemma CountedOne(x: Item, skipped: seq<string>)
    ensures Counted([x], skipped) == if x.name in skipped then [] else [x]
  {
    assert [x][..0] == [];
  }

  function SumContributions(items: seq<Item>, probe: Probe): nat {
    if items == [] then 0
    else SumContributions(items[..|items| - 1], probe) + Contribution(probe.kind(items[|items| - 1].path))
  }

  predicate AnyDrive(items: seq<Item>, probe: Probe) {
    exists k :: 0 <= k < |items| && probe.kind(items[k].path).DriveAt?
  }

  /** The worker thread's loop (without cancellation): the total, whether a
      drive was met and how many items were counted. */
  method SizeTotals(items: seq<Item>, skipped: seq<string>, probe: Probe)
    returns (total: nat, isDrive: bool, count: nat)
    ensures count == |Counted(items, skipped)|
    ensures total == SumContributions(Counted(items, skipped), probe)
    ensures isDrive <==> AnyDrive(Counted(items, skipped), probe)
  {
    total, isDrive, count := 0, false, 0;
    var i := 0;
    while i < |items|
      invariant 0 <= i <= |items|
      invariant Totals(items[..i], skipped, probe, total, isDrive, count)
    {
      var item := items[i];
      TotalsStep(items[..i], item, skipped, probe, total, isDrive, count);
      assert items[..i + 1] == items[..i] + [item];
      if item.name !in skipped {
        var kind := probe.kind(item.path);
        count := count + 1;
        total := total + Contribution(kind);
        isDrive := isDrive || kind.DriveAt?;
      }
      i := i + 1;
    }
    assert items[..|items|] == items;
  }

  /** The loop's running values agree with the items counted so far. */
  predicate Totals(scanned: seq<Item>, skipped: seq<string>, probe: Probe, total: nat, isDrive: bool, count: nat) {
    var kept := Counted(scanned, skipped);
    && count == |kept|
    && total == SumContributions(kept, probe)
    && (isDrive <==> AnyDrive(kept, probe))
  }

  /** One more scanned item: a skipped one changes nothing, a counted one is
      added to every running value. */
  lemma TotalsStep(scanned: seq<Item>, item: Item, skipped: seq<string>, probe: Probe,
                   total: nat, isDrive: bool, count: nat)
    requires Totals(scanned, skipped, probe, total, isDrive, count)
    ensures item.name in skipped ==> Totals(scanned + [item], skipped, probe, total, isDrive, count)
    ensures item.name !in skipped ==>
      Totals(scanned + [item], skipped, probe, total + Contribution(probe.kind(item.path)),
             isDrive || probe.kind(item.path).DriveAt?, count + 1)
  {
    var kept := Counted(scanned, skipped);
    CountedStep(scanned + [item], |scanned|, skipped);
    assert (scanned + [item])[..|scanned|] == scanned;
    assert (scanned + [item])[..|scanned| + 1] == scanned + [item];
    SumAppend(kept, item, probe);
    AnyDriveAppend(kept, item, probe);
  }

  /** Extending the scanned prefix by one item extends the counted items by
      that item exactly when its name is not skipped. */
  lemma CountedStep(items: seq<Item>, i: nat, skipped: seq<string>)
    requires i < |items|
    ensures Counted(items[..i + 1], skipped)
         == Counted(items[..i], skipped) + (if items[i].name in skipped then [] else [items[i]])
  {
    assert items[..i + 1][..i] == items[..i];
  }

  lemma SumAppend(s: seq<Item>, x: Item, probe: Probe)
    ensures SumContributions(s + [x], probe) == SumContributions(s, probe) + Contribution(probe.kind(x.path))
  {
    assert (s + [x])[..|s|] == s;
  }

  lemma AnyDriveAppend(s: seq<Item>, x: Item, probe: Probe)
    ensures AnyDrive(s + [x], probe) <==> AnyDrive(s, probe) || probe.kind(x.path).DriveAt?
  {
    if AnyDrive(s + [x], probe) {
      var k :| 0 <= k < |s + [x]| && probe.kind((s + [x])[k].path).DriveAt?;
      if k < |s| {
        assert (s + [x])[k] == s[k];
      }
    }
    if AnyDrive(s, probe) {
      var k :| 0 <= k < |s| && probe.kind(s[k].path).DriveAt?;
      assert (s + [x])[k] == s[k];
    }
    if probe.kind(x.path).DriveAt? {
      assert (s + [x])[|s|] == x;
    }
  }

  /** What `saySize` ends with. */
  datatype SaySizeOutcome =
    | NotInExplorer
    | NoItemsToMeasure
    /** Every selected item failed the access check; no worker is started. */
    | NoAccessToAny
    | Measured(message: SizeMessage, counted: nat)

  /** `saySize`, with the worker run to completion. */
  method SaySize(focus: Option<AppObject>, sel: Selection, probe: Probe) returns (r: SaySizeOutcome)
    ensures r == NotInExplorer <==> !InExplorer(focus)
    ensures r == NoItemsToMeasure <==> InExplorer(focus) && !HasItems(sel)
    ensures r == NoAccessToAny <==>
      InExplorer(focus) && HasItems(sel) && forall k :: 0 <= k < |sel.items| ==> !probe.accessible(sel.items[k].path)
    ensures r.Measured? ==>
      var counted := Counted(sel.items, InaccessibleNames(sel.items, probe));
      r.counted == |counted|
      && r.message == DisplaySizeResult(SumContributions(counted, probe), AnyDrive(counted, probe), |counted|)
  {
    if !InExplorer(focus) {
      return NotInExplorer;
    }
    if !HasItems(sel) {
      return NoItemsToMeasure;
    }
    var skipped := InaccessibleNames(sel.items, probe);
    if |skipped| == |sel.items| {
      return NoAccessToAny;
    }
    var total, isDrive, count := SizeTotals(sel.items, skipped, probe);
    r := Measured(DisplaySizeResult(total, isDrive, count), count);
  }

  /** Every counted item passed the access check by name only: an accessible
      item is skipped whenever an inaccessible item shares its name. */
  lemma SkippedByName(items: seq<Item>, probe: Probe, i: nat, j: nat)
    requires i < |items| && j < |items|
    requires items[i].name == items[j].name
    requires !probe.accessible(items[i].path)
    ensures items[j] !in Counted(items, InaccessibleNames(items, probe))
  {
  }

  /** Items never skipped: with every item accessible, all are counted. */
  lemma AllAccessibleAllCounted(items: seq<Item>, probe: Probe)
    requires forall k :: 0 <= k < |items| ==> probe.accessible(items[k].path)
    ensures Counted(items, InaccessibleNames(items, probe)) == items
  {
    NoneInaccessible(items, probe);
    CountedNothingSkipped(items);
  }

  lemma {:induction false} NoneInaccessible(items: seq<Item>, probe: Probe)
    requires forall k :: 0 <= k < |items| ==> probe.accessible(items[k].path)
    ensures InaccessibleNames(items, probe) == []
  {
    if items != [] {
      NoneInaccessible(items[1..], probe);
    }
  }

  lemma {:induction false} CountedNothingSkipped(items: seq<Item>)
    ensures Counted(items, []) == items
  {
    if items != [] {
      CountedNothingSkipped(items[..|items| - 1]);
      assert items[..|items| - 1] + [items[|items| - 1]] == items;
    }
  }
}
