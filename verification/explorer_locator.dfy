/**
  How the add-on finds the File Explorer window the user is working in, its
  current folder and its selection, from what the shell automation object
  reports, and the short-lived window cache in front of those lookups.

  The shell's window collection is a list of `ShellWindow` records, one per
  automation object, in enumeration order. `id` is the object's identity (tabs
  of one window share an `hwnd` but are distinct objects). A `faulty` object
  raises on every property access, which each lookup loop catches and skips.
  An empty string stands for a property that is missing or empty.
 */
module ExplorerLocator {
  import opened Common
  import opened FileUrl

  datatype ItemRead = Readable(name: string, path: string) | Unreadable

  datatype Item = Item(name: string, path: string)

  /** A window's `Document`: the path of its folder (`Folder.Self.Path`) and
      its `SelectedItems()` collection read index by index. */
  datatype Document = Document(folderPath: string, selection: seq<ItemRead>)

  datatype ShellWindow = ShellWindow(
    id: int,
    hwnd: int,
    faulty: bool,
    document: Option<Document>,
    locationUrl: string,
    locationName: string,
    visible: bool,
    name: string)

  /** The file-system queries the lookups make (`os.path.isdir`,
      `os.path.isabs`) and the `os.path.normpath` applied to the path
      returned. */
  datatype PathOracle = PathOracle(isDir: string -> bool, isAbs: string -> bool, normPath: string -> string)

  /** The accepted candidate, normalised as it is returned. */
  function Normalized(p: Option<string>, fs: PathOracle): (r: Option<string>)
    ensures r.Some? <==> p.Some?
    ensures r.Some? ==> r.value == fs.normPath(p.value)
  {
    match p
    case None => None
    case Some(q) => Some(fs.normPath(q))
  }

  /** `_last_window`, `_last_window_hwnd` and `_last_window_time`; the window
      is kept by object identity. */
  datatype Cache = Cache(window: Option<int>, hwnd: Option<int>, time: int)

  const InitialCache: Cache := Cache(None, None, 0)

  /** The window lookup trusts the cache for one second ... */
  const WindowTtlMs: int := 1000

  /** ... and the path lookup's last resort for two. */
  const PathTtlMs: int := 2000

  const FileExplorerName: string := "File Explorer"

  /** The cache holds a window and a non-zero handle younger than `ttl`. */
  predicate CacheFresh(c: Cache, now: int, ttl: int) {
    c.window.Some? && c.hwnd.Some? && c.hwnd.value != 0 && now - c.time < ttl
  }

  function Remember(w: ShellWindow, now: int): Cache {
    Cache(Some(w.id), Some(w.hwnd), now)
  }

  /** The first window satisfying `p`, as the lookup loops find it. */
  function FindFirst(ws: seq<ShellWindow>, p: ShellWindow -> bool): (r: Option<nat>)
    ensures r.Some? ==> r.value < |ws| && p(ws[r.value])
    ensures r.Some? ==> forall j :: 0 <= j < r.value ==> !p(ws[j])
    ensures r.None? ==> forall j :: 0 <= j < |ws| ==> !p(ws[j])
  {
    if ws == [] then None
    else if p(ws[0]) then Some(0)
    else
      match FindFirst(ws[1..], p)
      case None => None
      case Some(i) => Some(i + 1)
  }

  /** The live automation object with identity `id`, if it still exists. */
  function Live(ws: seq<ShellWindow>, id: int): Option<ShellWindow> {
    match FindFirst(ws, (w: ShellWindow) => w.id == id)
    case None => None
    case Some(i) => Some(ws[i])
  }

  // ---------------------------------------------------------------------
  // The three path strategies for one window

  /** `Document.Folder.Self.Path`, accepted when it names a directory. */
  function DocumentPath(w: ShellWindow, fs: PathOracle): Option<string> {
    if w.document.Some? && w.document.value.folderPath != ""
       && fs.isDir(w.document.value.folderPath)
    then Some(w.document.value.folderPath)
    else None
  }

  /** `LocationURL`, when it is a `file:///` URL naming a directory. */
  function UrlPath(w: ShellWindow, fs: PathOracle): Option<string> {
    if w.locationUrl == "" then None
    else
      match FileUrlToPath(w.locationUrl)
      case None => None
      case Some(p) => if fs.isDir(p) then Some(p) else None
  }

  /** `LocationName`, when it is an absolute path naming a directory. */
  function NamePath(w: ShellWindow, fs: PathOracle): Option<string> {
    if w.locationName != "" && fs.isAbs(w.locationName) && fs.isDir(w.locationName)
    then Some(w.locationName)
    else None
  }

  /** The strategies for a foreground-matched window, in order. */
  function PathCandidate(w: ShellWindow, fs: PathOracle): (r: Option<string>)
    ensures r.Some? ==> fs.isDir(r.value)
    ensures DocumentPath(w, fs).Some? ==> r == DocumentPath(w, fs)
    ensures DocumentPath(w, fs).None? && UrlPath(w, fs).Some? ==> r == UrlPath(w, fs)
    ensures DocumentPath(w, fs).None? && UrlPath(w, fs).None? ==> r == NamePath(w, fs)
    ensures r.None? <==> DocumentPath(w, fs).None? && UrlPath(w, fs).None? && NamePath(w, fs).None?
  {
    if DocumentPath(w, fs).Some? then DocumentPath(w, fs)
    else if UrlPath(w, fs).Some? then UrlPath(w, fs)
    else NamePath(w, fs)
  }

  /** A window of handle `h` that yields a path by any strategy. */
  predicate ForegroundHit(w: ShellWindow, h: int, fs: PathOracle) {
    !w.faulty && w.hwnd == h && PathCandidate(w, fs).Some?
  }

  /** A window of handle `h` whose document yields a path. */
  predicate FocusHit(w: ShellWindow, h: int, fs: PathOracle) {
    !w.faulty && w.hwnd == h && DocumentPath(w, fs).Some?
  }

  /** A window of handle `h` that has a document. */
  predicate HasDocumentAt(w: ShellWindow, h: int) {
    !w.faulty && w.hwnd == h && w.document.Some?
  }

  /** A visible window named "File Explorer" that has a document. */
  predicate VisibleExplorer(w: ShellWindow) {
    !w.faulty && w.visible && w.name == FileExplorerName && w.document.Some?
  }

  // ---------------------------------------------------------------------
  // Current folder

  datatype PathLookup = PathLookup(path: Option<string>, cache: Cache)

  /** The first window whose handle is the focus's and whose document yields
      a path; only looked for when the focus is in Explorer. */
  function FocusPathHit(focus: Option<AppObject>, ws: seq<ShellWindow>, fs: PathOracle): (r: Option<nat>)
    ensures r.Some? ==> InExplorer(focus) && r.value < |ws| && FocusHit(ws[r.value], focus.value.windowHandle, fs)
    ensures r.Some? ==> forall j :: 0 <= j < r.value ==> !FocusHit(ws[j], focus.value.windowHandle, fs)
    ensures r.None? && InExplorer(focus) ==> forall w :: w in ws ==> !FocusHit(w, focus.value.windowHandle, fs)
  {
    if InExplorer(focus) then FindFirst(ws, (w: ShellWindow) => FocusHit(w, focus.value.windowHandle, fs))
    else None
  }

  /** The last resort of the path lookup: the document path of the cached
      window, read from the live object, when the cache is under two seconds
      old. */
  function CachedWindowPath(c: Cache, now: int, ws: seq<ShellWindow>, fs: PathOracle): (r: Option<string>)
    ensures r.Some? ==> CacheFresh(c, now, PathTtlMs) && Live(ws, c.window.value).Some?
                        && !Live(ws, c.window.value).value.faulty
                        && r == DocumentPath(Live(ws, c.window.value).value, fs)
    ensures CacheFresh(c, now, PathTtlMs) && Live(ws, c.window.value).Some?
            && !Live(ws, c.window.value).value.faulty
            ==> r == DocumentPath(Live(ws, c.window.value).value, fs)
  {
    if CacheFresh(c, now, PathTtlMs) then
      match Live(ws, c.window.value)
      case Some(w) => if w.faulty then None else DocumentPath(w, fs)
      case None => None
    else None
  }

  /** `_getCurrentPathFromExplorer`. Tries the windows whose handle is the
      foreground's (every strategy), then those whose handle is the focus's
      (document only), then the cached window if younger than two seconds
      (document only, read live). The result is a directory, passed through
      `os.path.normpath`. A live match refreshes the cache; the path itself
      is never cached. */
  function CurrentPath(c: Cache, now: int, fg: Option<AppObject>, focus: Option<AppObject>,
                       ws: seq<ShellWindow>, fs: PathOracle): (r: PathLookup)
    ensures !InExplorer(fg) ==> r == PathLookup(None, c)
    ensures r.path.Some? ==> exists p :: fs.isDir(p) && r.path.value == fs.normPath(p)
    ensures InExplorer(fg) ==>
      var hit := FindFirst(ws, (w: ShellWindow) => ForegroundHit(w, fg.value.windowHandle, fs));
      (hit.Some? ==> r == PathLookup(Normalized(PathCandidate(ws[hit.value], fs), fs), Remember(ws[hit.value], now)))
      && (hit.None? && FocusPathHit(focus, ws, fs).Some? ==>
            var j := FocusPathHit(focus, ws, fs).value;
            r == PathLookup(Normalized(DocumentPath(ws[j], fs), fs), Remember(ws[j], now)))
      && (hit.None? && FocusPathHit(focus, ws, fs).None? ==>
            r == PathLookup(Normalized(CachedWindowPath(c, now, ws, fs), fs), c))
    ensures r.cache != c ==> r.path.Some? && exists i :: 0 <= i < |ws| && r.cache == Remember(ws[i], now)
  {
    if !InExplorer(fg) then PathLookup(None, c)
    else
      var fgHandle := fg.value.windowHandle;
      match FindFirst(ws, (w: ShellWindow) => ForegroundHit(w, fgHandle, fs))
      case Some(i) => PathLookup(Normalized(PathCandidate(ws[i], fs), fs), Remember(ws[i], now))
      case None =>
        match FocusPathHit(focus, ws, fs)
        case Some(j) => PathLookup(Normalized(DocumentPath(ws[j], fs), fs), Remember(ws[j], now))
        case None => PathLookup(Normalized(CachedWindowPath(c, now, ws, fs), fs), c)
  }

  // ---------------------------------------------------------------------
  // Active window

  datatype WindowLookup = WindowLookup(window: Option<int>, cache: Cache)

  /** `_getActiveExplorerWindow`. A cached window younger than one second is
      returned without any query, whatever the foreground is. Otherwise the
      foreground must be Explorer, and the first window with a document is
      taken among: those of the foreground's handle, those of the focus's
      handle, then the visible windows named "File Explorer". */
  function ActiveWindow(c: Cache, now: int, fg: Option<AppObject>, focus: Option<AppObject>,
                        ws: seq<ShellWindow>): (r: WindowLookup)
    ensures CacheFresh(c, now, WindowTtlMs) ==> r == WindowLookup(c.window, c)
    ensures !CacheFresh(c, now, WindowTtlMs) && !InExplorer(fg) ==> r == WindowLookup(None, c)
    ensures r.window.None? ==> r.cache == c
    ensures r.window.Some? && !CacheFresh(c, now, WindowTtlMs) ==>
      exists i :: 0 <= i < |ws| && ws[i].id == r.window.value && !ws[i].faulty
                  && ws[i].document.Some? && r.cache == Remember(ws[i], now)
    ensures !CacheFresh(c, now, WindowTtlMs) && InExplorer(fg) ==>
      var hit := FindFirst(ws, (w: ShellWindow) => HasDocumentAt(w, fg.value.windowHandle));
      hit.Some? ==> r == WindowLookup(Some(ws[hit.value].id), Remember(ws[hit.value], now))
    ensures !CacheFresh(c, now, WindowTtlMs) && InExplorer(fg) && InExplorer(focus) ==>
      var hit := FindFirst(ws, (w: ShellWindow) => HasDocumentAt(w, fg.value.windowHandle));
      var focusHit := FindFirst(ws, (w: ShellWindow) => HasDocumentAt(w, focus.value.windowHandle));
      hit.None? && focusHit.Some? ==> r == WindowLookup(Some(ws[focusHit.value].id), Remember(ws[focusHit.value], now))
    ensures !CacheFresh(c, now, WindowTtlMs) && InExplorer(fg) ==>
      var hit := FindFirst(ws, (w: ShellWindow) => HasDocumentAt(w, fg.value.windowHandle));
      var focusHit := if InExplorer(focus)
                      then FindFirst(ws, (w: ShellWindow) => HasDocumentAt(w, focus.value.windowHandle))
                      else None;
      var visible := FindFirst(ws, VisibleExplorer);
      hit.None? && focusHit.None? ==>
        r == (if visible.Some? then WindowLookup(Some(ws[visible.value].id), Remember(ws[visible.value], now))
              else WindowLookup(None, c))
    ensures !CacheFresh(c, now, WindowTtlMs) && InExplorer(fg) && r.window.None? ==>
      forall w :: w in ws ==> !VisibleExplorer(w)
  {
    if CacheFresh(c, now, WindowTtlMs) then WindowLookup(c.window, c)
    else if !InExplorer(fg) then WindowLookup(None, c)
    else
      var fgHandle := fg.value.windowHandle;
      var found :=
        match FindFirst(ws, (w: ShellWindow) => HasDocumentAt(w, fgHandle))
        case Some(i) => Some(i)
        case None =>
          var focusHit := if InExplorer(focus)
                          then FindFirst(ws, (w: ShellWindow) => HasDocumentAt(w, focus.value.windowHandle))
                          else None;
          if focusHit.Some? then focusHit else FindFirst(ws, VisibleExplorer);
      match found
      case Some(i) => WindowLookup(Some(ws[i].id), Remember(ws[i], now))
      case None => WindowLookup(None, c)
  }

  // ---------------------------------------------------------------------
  // Selection

  /** Reading `SelectedItems().Item(i)` for i = 0, 1, ... : the items read
      before the first failing access. */
  function ReadSelection(sel: seq<ItemRead>): (r: seq<Item>)
    ensures |r| <= |sel|
    ensures forall i :: 0 <= i < |r| ==> sel[i] == Readable(r[i].name, r[i].path)
    ensures |r| < |sel| ==> sel[|r|].Unreadable?
  {
    if sel == [] then []
    else
      match sel[0]
      case Unreadable => []
      case Readable(n, p) => [Item(n, p)] + ReadSelection(sel[1..])
  }

  /** The three shapes of `_getSelectedItems`' result:
      `(None, None)`, `(None, window)` and `(items, window)`. */
  datatype Selection =
    | NoWindow
    | NothingRead(window: int)
    | Items(items: seq<Item>, window: int)

  /** The selection list is present and non-empty, which is what callers
      test before using it. */
  predicate HasItems(sel: Selection) {
    sel.Items? && |sel.items| > 0
  }

  /** `_getSelectedItems`: the active window's document selection. No window,
      a dead or faulty window object, or a window without a document gives
      `NoWindow`; no item read gives `NothingRead` (an empty selection is
      reported as `None`, not as an empty list); a failure part-way keeps the
      items already read. */
  function SelectedItems(c: Cache, now: int, fg: Option<AppObject>, focus: Option<AppObject>,
                         ws: seq<ShellWindow>): (r: (Selection, Cache))
    ensures r.1 == ActiveWindow(c, now, fg, focus, ws).cache
    ensures ActiveWindow(c, now, fg, focus, ws).window.None? ==> r.0 == NoWindow
    ensures !r.0.NoWindow? ==> Some(r.0.window) == ActiveWindow(c, now, fg, focus, ws).window
    ensures r.0.Items? ==> HasItems(r.0)
    ensures var aw := ActiveWindow(c, now, fg, focus, ws).window;
      r.0.NoWindow? <==> aw.None? || Live(ws, aw.value).None? || Live(ws, aw.value).value.faulty
                         || Live(ws, aw.value).value.document.None?
    ensures var aw := ActiveWindow(c, now, fg, focus, ws).window;
      aw.Some? && Live(ws, aw.value).Some? && !Live(ws, aw.value).value.faulty
      && Live(ws, aw.value).value.document.Some? ==>
        var items := ReadSelection(Live(ws, aw.value).value.document.value.selection);
        r.0 == (if items == [] then NothingRead(aw.value) else Items(items, aw.value))
    ensures !r.0.NoWindow? ==>
      var w := Live(ws, r.0.window);
      w.Some? && !w.value.faulty && w.value.document.Some?
      && (if r.0.Items? then r.0.items else []) == ReadSelection(w.value.document.value.selection)
  {
    var lookup := ActiveWindow(c, now, fg, focus, ws);
    match lookup.window
    case None => (NoWindow, lookup.cache)
    case Some(id) =>
      match Live(ws, id)
      case None => (NoWindow, lookup.cache)
      case Some(w) =>
        if w.faulty || w.document.None? then (NoWindow, lookup.cache)
        else
          var items := ReadSelection(w.document.value.selection);
          if items == [] then (NothingRead(id), lookup.cache) else (Items(items, id), lookup.cache)
  }

  // ---------------------------------------------------------------------
  // Cache invalidation

  /** `event_gainFocus`: an Explorer object whose handle differs from the
      cached one clears the cached window (its time stays). */
  function OnGainFocus(c: Cache, obj: Option<AppObject>): (r: Cache)
    ensures InExplorer(obj) && c.hwnd != Some(obj.value.windowHandle) ==> r == Cache(None, None, c.time)
    ensures !(InExplorer(obj) && c.hwnd != Some(obj.value.windowHandle)) ==> r == c
  {
    if InExplorer(obj) && c.hwnd != Some(obj.value.windowHandle) then Cache(None, None, c.time) else c
  }

  /** `event_foreground`: always clears the cached window. */
  function OnForeground(c: Cache): (r: Cache)
    ensures r.window.None? && r.hwnd.None? && r.time == c.time
  {
    Cache(None, None, c.time)
  }

  // ---------------------------------------------------------------------
  // Properties relating the lookups

  /** After a foreground change the next window lookup queries the shell
      again instead of answering from the cache. */
  lemma ForegroundForcesQuery(c: Cache, now: int, fg: Option<AppObject>, focus: Option<AppObject>,
                              ws: seq<ShellWindow>)
    ensures !InExplorer(fg) ==> ActiveWindow(OnForeground(c), now, fg, focus, ws).window.None?
  {
  }

  /** Focus moving within the cached window keeps the cache. */
  lemma FocusInCachedWindowKeepsCache(c: Cache, h: int)
    requires c.hwnd == Some(h)
    ensures OnGainFocus(c, Some(AppObject(ExplorerApp, h))) == c
  {
  }

  /** The cache answers window lookups but not path lookups: within a second
      of a lookup, with a non-Explorer foreground, the selection still comes
      from the cached window while the current folder is unavailable. */
  lemma CacheServesSelectionNotPath(c: Cache, now: int, fg: Option<AppObject>, focus: Option<AppObject>,
                                    ws: seq<ShellWindow>, fs: PathOracle)
    requires CacheFresh(c, now, WindowTtlMs)
    requires !InExplorer(fg)
    ensures CurrentPath(c, now, fg, focus, ws, fs).path.None?
    ensures !SelectedItems(c, now, fg, focus, ws).0.NoWindow? ==> SelectedItems(c, now, fg, focus, ws).0.window == c.window.value
  {
  }

  /** Once the cached window has closed and no live window matches the
      foreground or the focus, no folder is reported, however recent the
      earlier answer: folder paths are never cached. */
  lemma PathNotCached(c: Cache, now: int, fg: AppObject, focus: Option<AppObject>,
                      ws: seq<ShellWindow>, fs: PathOracle)
    requires c.window.Some? && Live(ws, c.window.value).None?
    requires forall w :: w in ws ==> w.hwnd != fg.windowHandle
    requires focus.Some? ==> forall w :: w in ws ==> w.hwnd != focus.value.windowHandle
    ensures CurrentPath(c, now, Some(fg), focus, ws, fs).path.None?
  {
    var hit := FindFirst(ws, (w: ShellWindow) => ForegroundHit(w, fg.windowHandle, fs));
    if hit.Some? {
      assert false;
    }
    var fh := FocusPathHit(focus, ws, fs);
    if fh.Some? {
      assert false;
    }
  }

  /** The first window of `ws` satisfying `p` is at index `i`. */
  ghost predicate FirstAt(ws: seq<ShellWindow>, i: int, p: ShellWindow -> bool) {
    0 <= i < |ws| && p(ws[i]) && forall j :: 0 <= j < i ==> !p(ws[j])
  }

  /** No window of `ws` satisfies `p`. */
  ghost predicate NoneAt(ws: seq<ShellWindow>, p: ShellWindow -> bool) {
    forall j :: 0 <= j < |ws| ==> !p(ws[j])
  }

  /** The window at `i` is the one the uncached lookup should take: the first
      with a document at the foreground's handle; failing any, the first with
      a document at the focus's handle (focus in Explorer); failing any, the
      first visible "File Explorer" window with a document. */
  ghost predicate ChosenWindow(ws: seq<ShellWindow>, i: int, fgHandle: int, focus: Option<AppObject>) {
    var atFg := (w: ShellWindow) => HasDocumentAt(w, fgHandle);
    var atFocus := (w: ShellWindow) => InExplorer(focus) && HasDocumentAt(w, focus.value.windowHandle);
    || FirstAt(ws, i, atFg)
    || (NoneAt(ws, atFg) && FirstAt(ws, i, atFocus))
    || (NoneAt(ws, atFg) && NoneAt(ws, atFocus) && FirstAt(ws, i, VisibleExplorer))
  }

  /** The uncached window lookup, against the precedence stated on its own:
      it finds a window exactly when some window is the chosen one, and then
      returns that window and remembers it. */
  lemma ActiveWindowPrecedence(c: Cache, now: int, fg: AppObject, focus: Option<AppObject>, ws: seq<ShellWindow>)
    requires !CacheFresh(c, now, WindowTtlMs) && fg.appName == ExplorerApp
    ensures ActiveWindow(c, now, Some(fg), focus, ws).window.Some? <==>
              exists i :: ChosenWindow(ws, i, fg.windowHandle, focus)
    ensures forall i :: ChosenWindow(ws, i, fg.windowHandle, focus) ==>
              ActiveWindow(c, now, Some(fg), focus, ws) == WindowLookup(Some(ws[i].id), Remember(ws[i], now))
  {
    var atFg := (w: ShellWindow) => HasDocumentAt(w, fg.windowHandle);
    var atFocus := (w: ShellWindow) => InExplorer(focus) && HasDocumentAt(w, focus.value.windowHandle);
    var r := ActiveWindow(c, now, Some(fg), focus, ws);
    var hit := FindFirst(ws, atFg);
    var focusHit := if InExplorer(focus) then FindFirst(ws, (w: ShellWindow) => HasDocumentAt(w, focus.value.windowHandle)) else None;
    var visible := FindFirst(ws, VisibleExplorer);
    assert focusHit == FindFirst(ws, atFocus) by {
      FindFirstSame(ws, (w: ShellWindow) => InExplorer(focus) && HasDocumentAt(w, focus.value.windowHandle), atFocus);
      if InExplorer(focus) {
        FindFirstSame(ws, (w: ShellWindow) => HasDocumentAt(w, focus.value.windowHandle), atFocus);
      } else {
        FindFirstNone(ws, atFocus);
      }
    }
    var chosen: Option<nat> :=
      if hit.Some? then hit else if focusHit.Some? then focusHit else visible;
    assert r.window.Some? <==> chosen.Some?;
    assert chosen.Some? ==> ChosenWindow(ws, chosen.value, fg.windowHandle, focus);
    assert chosen.Some? ==> r == WindowLookup(Some(ws[chosen.value].id), Remember(ws[chosen.value], now));
    forall i | ChosenWindow(ws, i, fg.windowHandle, focus)
      ensures chosen == Some(i)
    {
      if FirstAt(ws, i, atFg) {
        FirstAtUnique(ws, i, hit, atFg);
      } else if NoneAt(ws, atFg) && FirstAt(ws, i, atFocus) {
        FindFirstNoneIff(ws, atFg);
        FirstAtUnique(ws, i, focusHit, atFocus);
      } else {
        FindFirstNoneIff(ws, atFg);
        FindFirstNoneIff(ws, atFocus);
        FirstAtUnique(ws, i, visible, VisibleExplorer);
      }
    }
  }

  /** Two predicates that agree on every window find the same first one. */
  lemma {:induction false} FindFirstSame(ws: seq<ShellWindow>, p: ShellWindow -> bool, q: ShellWindow -> bool)
    requires forall w :: p(w) == q(w)
    ensures FindFirst(ws, p) == FindFirst(ws, q)
    decreases |ws|
  {
    if ws != [] {
      FindFirstSame(ws[1..], p, q);
    }
  }

  lemma FindFirstNone(ws: seq<ShellWindow>, p: ShellWindow -> bool)
    requires forall w :: !p(w)
    ensures FindFirst(ws, p).None?
  {
  }

  lemma FindFirstNoneIff(ws: seq<ShellWindow>, p: ShellWindow -> bool)
    ensures FindFirst(ws, p).None? <==> NoneAt(ws, p)
  {
  }

  /** The first window satisfying `p` is the one `FindFirst` returns. */
  lemma FirstAtUnique(ws: seq<ShellWindow>, i: int, found: Option<nat>, p: ShellWindow -> bool)
    requires FirstAt(ws, i, p) && found == FindFirst(ws, p)
    ensures found == Some(i)
  {
  }

  /** A window whose selection reads in full yields every selected item, in
      order: the selection is reported item for item, or as nothing read
      when it is empty. */
  lemma SelectionOfReadableWindow(c: Cache, now: int, fg: Option<AppObject>, focus: Option<AppObject>,
                                  ws: seq<ShellWindow>, w: ShellWindow)
    requires ActiveWindow(c, now, fg, focus, ws).window == Some(w.id) && Live(ws, w.id) == Some(w)
    requires !w.faulty && w.document.Some?
    requires forall k :: 0 <= k < |w.document.value.selection| ==> w.document.value.selection[k].Readable?
    ensures var sel := w.document.value.selection;
            var r := SelectedItems(c, now, fg, focus, ws).0;
            (sel == [] ==> r == NothingRead(w.id))
            && (sel != [] ==>
                  r.Items? && r.window == w.id && |r.items| == |sel|
                  && forall k :: 0 <= k < |sel| ==> r.items[k] == Item(sel[k].name, sel[k].path))
  {
  }

  /** A `file:///` location is the second choice: a foreground window without
      a usable document whose URL decodes to a directory yields that
      directory, slashes turned into backslashes, then normalised. */
  lemma UrlFallback(c: Cache, now: int, fg: AppObject, focus: Option<AppObject>,
                    w: ShellWindow, fs: PathOracle, folder: string)
    requires fg.appName == ExplorerApp && w.hwnd == fg.windowHandle && !w.faulty
    requires w.document.None?
    requires forall k :: 0 <= k < |folder| ==> folder[k] != '/'
    requires w.locationUrl == PathToFileUrl(folder) && fs.isDir(folder)
    ensures CurrentPath(c, now, Some(fg), focus, [w], fs) == PathLookup(Some(fs.normPath(folder)), Remember(w, now))
  {
    FileUrlRoundTrip(folder);
    assert UrlPath(w, fs) == Some(folder);
    assert ForegroundHit(w, fg.windowHandle, fs);
  }
}
