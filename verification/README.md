# xPlorer core, modelled in Dafny

xPlorer is a screen-reader add-on for Windows File Explorer. This project
models the sequential rule logic at its core and proves properties of it:

- **The double-tap disambiguator.** Three keys (NVDA+shift+c, v and z) each
  choose between a single-tap and a double-tap command. Each key has its own
  state: a tap count, the time of the last tap, and whether a 300 ms
  single-shot timer is armed. Taps and timer firings are events. Time is in
  integer milliseconds. One generic machine (`TapMachine`) is instantiated
  three times (`Gestures`).
- **The Explorer locator.** It finds the File Explorer window the user is in,
  the folder that window shows, and its selection. The shell's window
  collection is a list of records. A short-lived window cache sits in front
  of the lookups, and focus and foreground events clear it
  (`ExplorerLocator`, `FileUrl`).
- **File-operation rules.** This covers the rename dialog and the decision
  taken on its answer, the size unit index and the spoken size result, and
  which selected items the size computation counts (`FileOperations`).
- **Create-file and text-to-folder normalisation.** This covers the row
  count clamp, default names and extensions, the search for a free file
  name, the template choice, the folder-name sanitiser, folder names taken
  from the lines of a file, and the search for a free base folder
  (`CreateFile`, `TxtToFolder`).

Shared pieces live in `Common` (Option, Python `str.strip`, ASCII case
mapping, decimal rendering) and `PathNames` (the Windows `os.path` functions
used: `splitext`, `basename`, `dirname`, `join`).

External queries are plain inputs:

- The accessibility foreground and focus objects are `Option<AppObject>`.
- The shell windows are a `seq<ShellWindow>`.
- `os.path.isdir`, `os.path.isabs` and `os.path.normpath` are the
  function-typed fields of `PathOracle`.
- Existing paths are a `set<string>`. When files are created, the set holds
  path keys: `key` is a function-typed input giving the identity the file
  system gives a path (Windows ignores letter case and a trailing dot).
- Whether a file can be written is a predicate.
- The file-system object's answers for a path are a `Probe`.
- The clock is an integer parameter.
- A timer is explicit state, and its firing is an event.

## Model

| member | source | states |
|---|---|---|
| TapMachine.Tap | globalPlugins/xPlorer/__init__.py:394-416 | A tap more than 300 ms after the previous one resets the count and stops the timer before counting. The first tap of a sequence arms the timer and dispatches nothing. A tap that brings the count to 2 or more stops the timer and dispatches the double action. A tap never dispatches the single action. |
| TapMachine.Process | globalPlugins/xPlorer/__init__.py:422-439 | Dispatches the single action iff count is 1 and the double action iff count is at least 2. With count 0 it does nothing. It always ends with count 0 and no timer. |
| TapMachine.Fire | globalPlugins/xPlorer/__init__.py:407-409 | A stopped timer never fires. In any reachable state, a firing timer dispatches the single action exactly when it was armed, and never the double action. |
| TapMachine.ActionsBoundedByTaps | globalPlugins/xPlorer/__init__.py:403-439 | Over any run of taps and timer firings, the actions dispatched plus the taps still counted never exceed the taps made. |
| TapMachine.QuickBurst | globalPlugins/xPlorer/__init__.py:403-416 | Taps that are each at most 300 ms apart, starting from idle, dispatch only double actions, one for every two taps, because the count is reset after each double dispatch. An odd tap count leaves one tap counted with its timer armed. |
| TapMachine.SingleTapThenTimer | globalPlugins/xPlorer/__init__.py:407-433 | One tap followed by its timer dispatches exactly the single action and leaves the machine idle. |
| TapMachine.TripleTap | globalPlugins/xPlorer/__init__.py:403-439 | Three quick taps and the timer give a double action, then a single action from the timer that the third tap armed. |
| TapMachine.StaleTimerDropsFirstSingle | globalPlugins/xPlorer/__init__.py:396-409 | If a second tap comes more than 300 ms after the first while the first timer is still armed, that timer is stopped. Only the second tap's single action is dispatched. |
| Gestures.CommandFor | globalPlugins/xPlorer/__init__.py:431-436 | No action runs no command. A single action runs the key's single-tap command and a double action its double-tap command. |
| Gestures.CommandsDistinct | globalPlugins/xPlorer/__init__.py:431-436 | No single-tap command is a double-tap command, and different keys have different commands, so the mapping loses nothing. |
| Gestures.OnGesture | globalPlugins/xPlorer/__init__.py:384-416 | Outside Explorer the key press is replayed and no tap state changes. Inside Explorer only the pressed key's machine changes. The double command runs iff the previous tap of that key was at most 300 ms earlier and still counted; otherwise a press in Explorer runs nothing. A press never runs the single command. |
| Gestures.OnTimer | globalPlugins/xPlorer/__init__.py:422-439 | A key's timer runs that key's single command iff it was armed, and it leaves the other keys alone. |
| Gestures.CancelAllTimers | globalPlugins/xPlorer/__init__.py:97-111 | Every timer is stopped, so no later firing dispatches anything. Counts and tap times are unchanged. |
| Gestures.KeyNameToReplay | globalPlugins/xPlorer/__init__.py:371-382 | A key name is replayed iff the display name contains a colon. The key name is everything after the first colon. |
| Gestures.DoubleTapCopiesAddressBar | globalPlugins/xPlorer/__init__.py:384-439 | Two copy-key presses at most 300 ms apart in Explorer copy the address bar. The first press runs nothing. |
| Gestures.SinglePressThenTimer | globalPlugins/xPlorer/__init__.py:407-433 | One press of any key in Explorer, followed by its timer, runs that key's single command. The other keys are untouched. |
| FileUrl.FileUrlToPath | globalPlugins/xPlorer/__init__.py:160-166 | A URL gives a path iff it starts with `file:///`. The path holds no forward slash, because they become backslashes, and it is no longer than the rest of the URL. |
| FileUrl.PercentDecode | globalPlugins/xPlorer/__init__.py:165 | Decoding never makes the text longer, and text without `%` is unchanged; DecodeEncode shows it undoes percent-encoding. |
| FileUrl.DecodeEncode | globalPlugins/xPlorer/__init__.py:165 | Percent-decoding undoes percent-encoding. |
| FileUrl.FileUrlRoundTrip | globalPlugins/xPlorer/__init__.py:163-166 | A folder path without forward slashes comes back unchanged from its `file:///` URL. |
| ExplorerLocator.PathCandidate | globalPlugins/xPlorer/__init__.py:148-182 | For one window, the document folder wins, then the `file:///` URL, then an absolute LocationName, whose path is taken when the first two fail. Any accepted path is a directory, and there is no path iff all three strategies fail. |
| ExplorerLocator.FocusPathHit | globalPlugins/xPlorer/__init__.py:187-208 | The focus fallback applies only when the focus is in Explorer. It finds a window of the focus's handle whose document yields a directory, and no earlier window qualifies. |
| ExplorerLocator.CachedWindowPath | globalPlugins/xPlorer/__init__.py:210-222 | The cached window is tried only if it is younger than 2 s. Its document path is read from the live object. |
| ExplorerLocator.CurrentPath | globalPlugins/xPlorer/__init__.py:128-227 | Returns None when the foreground is not Explorer. Otherwise the precedence is: a foreground-handle match by any strategy, then a focus-handle match by document, then the cached window. The result is a normalised directory. Only a live match refreshes the cache. |
| ExplorerLocator.ActiveWindow | globalPlugins/xPlorer/__init__.py:229-301 | A cached window with a handle and age under 1 s is returned without any query. Otherwise a non-Explorer foreground gives None. A foreground-handle match with a document wins. Without one, the first window with a document at the focus's handle (focus in Explorer) is taken and remembered. Without that, the first visible "File Explorer" window is taken, or nothing; the cache is never the answer. Only a found window updates the cache. |
| ExplorerLocator.ActiveWindowPrecedence | globalPlugins/xPlorer/__init__.py:234-301 | Against the precedence stated on its own (first foreground-handle window with a document, then first focus-handle window with a document, then first visible "File Explorer" window): with a stale cache and an Explorer foreground, a window is found iff one of these tiers has one, and the window found is the chosen one, remembered in the cache. |
| ExplorerLocator.ReadSelection | globalPlugins/xPlorer/__init__.py:331-341 | The items read are a prefix of the selection. A failing item access ends the reading and keeps the items already read. |
| ExplorerLocator.SelectedItems | globalPlugins/xPlorer/__init__.py:307-346 | Gives (None, None) with no window or no document, and (None, window) when nothing was read: an empty selection is None, not []. A live, readable window with a document gives its read items with its window, or "nothing read" when none was read. |
| ExplorerLocator.SelectionOfReadableWindow | globalPlugins/xPlorer/__init__.py:307-346 | When the window found is live with a document and every selected item can be read, the result is exactly the selection's names and paths, in order, or "nothing read" for an empty selection. |
| ExplorerLocator.OnGainFocus | globalPlugins/xPlorer/__init__.py:613-621 | An Explorer focus clears the cached window iff its handle differs from the cached handle. |
| ExplorerLocator.OnForeground | globalPlugins/xPlorer/__init__.py:626-630 | A foreground event always clears the cached window. |
| ExplorerLocator.ForegroundForcesQuery | globalPlugins/xPlorer/__init__.py:234-241 | After a foreground event, a window lookup with a non-Explorer foreground finds nothing. |
| ExplorerLocator.FocusInCachedWindowKeepsCache | globalPlugins/xPlorer/__init__.py:615-620 | Focus moving within the cached window keeps the cache. |
| ExplorerLocator.CacheServesSelectionNotPath | globalPlugins/xPlorer/__init__.py:131-133 | Within 1 s of a lookup, with a non-Explorer foreground, the selection still comes from the cached window while the path lookup gives None. |
| ExplorerLocator.PathNotCached | globalPlugins/xPlorer/__init__.py:210-227 | Path results are not cached. Once the cached window is gone and no live window matches, no folder is reported. |
| ExplorerLocator.UrlFallback | globalPlugins/xPlorer/__init__.py:160-172 | A foreground window without a document, whose URL is the `file:///` form of a directory, yields that directory. |
| Common.StripChars | globalPlugins/xPlorer/txt2folder.py:232 | Stripping a set of characters leaves a result that neither starts nor ends with one of them. The result is empty iff every character is in the set. |
| Common.StripCharsInfix | globalPlugins/xPlorer/txt2folder.py:232 | The stripped result is an infix `s[i..j]` of the input, and everything cut off before `i` and after `j` is a character to strip. |
| Common.StripIdempotent | globalPlugins/xPlorer/fileOperations.py:53-54 | Stripping whitespace a second time changes nothing. |
| Common.StripEmptyIffBlank | globalPlugins/xPlorer/fileOperations.py:53-56 | A stripped field is empty iff it held only whitespace. |
| PathNames.Splitext | globalPlugins/xPlorer/fileOperations.py:29 | `splitext` splits a name into stem and extension. The extension is empty or a dot followed by no dot or separator. |
| PathNames.SplitextOfJoin | globalPlugins/xPlorer/fileOperations.py:29 | Splitting a stem plus a well-formed extension gives both parts back. |
| PathNames.SplitJoined | globalPlugins/xPlorer/fileOperations.py:446-447 | For a `dir\name` path, `basename` gives the name back and `dirname` gives the directory back. |
| PathNames.JoinDirBase | globalPlugins/xPlorer/fileOperations.py:446-467 | Joining a path's dirname and basename rebuilds the path. |
| PathNames.JoinInjective | globalPlugins/xPlorer/createFile.py:306-315 | In one directory, different names give different joined paths. |
| FileOperations.RenameDialogFields | globalPlugins/xPlorer/fileOperations.py:29-36 | The name field holds the stem. The extension field holds the extension without its dot, so stem, dot and field rebuild the name. |
| FileOperations.RenameOk | globalPlugins/xPlorer/fileOperations.py:52-63 | A name that is blank after stripping keeps the dialog open. Otherwise the new name is the stripped name, plus a dot and the stripped extension when that is non-empty. |
| FileOperations.RenameUnchangedRoundTrip | globalPlugins/xPlorer/fileOperations.py:29-62 | Accepting the pre-filled dialog unchanged gives the original name back. This needs a non-empty stem, no surrounding whitespace in either field, and an extension that is not a bare dot. |
| FileOperations.BareDotIsDropped | globalPlugins/xPlorer/fileOperations.py:34-36 | A name ending in a bare dot loses it: "a." comes back as "a". |
| FileOperations.RenameDecision | globalPlugins/xPlorer/fileOperations.py:466-478 | A rename is attempted iff there is an answer, the new path differs from the old one, and the new path does not exist. Otherwise it reports "not changed" or "already exists". |
| FileOperations.RenameGuards | globalPlugins/xPlorer/fileOperations.py:424-449 | Nothing happens outside Explorer. It rejects an empty selection, more than one item, and an item that is not a file. Otherwise the dialog gets the basename and dirname of the one file. |
| FileOperations.RenameUntouchedNotChanged | globalPlugins/xPlorer/fileOperations.py:446-471 | Accepting the dialog untouched for a `dir\name` file reports that the name did not change. |
| FileOperations.SamePathNotChanged | globalPlugins/xPlorer/fileOperations.py:467-471 | A new name that joins to the old path reports "not changed". |
| FileOperations.UnitIndexBounds | globalPlugins/xPlorer/fileOperations.py:111-122 | The unit index is the largest i with 1024^i <= size. |
| FileOperations.UnitIndexUnique | globalPlugins/xPlorer/fileOperations.py:111-122 | Any i with 1024^i <= size < 1024^(i+1) is the unit index. |
| FileOperations.RecalcSize | globalPlugins/xPlorer/fileOperations.py:111-122 | The loop divides by 1024 exactly unit-index times. The amount times 1024^i is the size, and the amount is below 1024 (and at least 1 once divided). |
| FileOperations.UnitInRange | globalPlugins/xPlorer/fileOperations.py:415 | The five-entry unit table has an entry iff the total is below 1024^5. |
| FileOperations.DisplaySizeResult | globalPlugins/xPlorer/fileOperations.py:407-422 | A total of 0 that is not a drive gives "No access to size data". An index past the table raises. Otherwise the amount is given in the indexed unit, with the item count as a prefix iff it is above 1. |
| FileOperations.FolderSizeFast | globalPlugins/xPlorer/fileOperations.py:248-262 | The Windows API figure wins, then the PowerShell figure, and the result is None iff both failed. |
| FileOperations.Contribution | globalPlugins/xPlorer/fileOperations.py:327-386 | A file adds its size and a drive its used space. A folder with a positive fast size adds that size; otherwise its estimate, or 1024 when the estimate raised. A missing item or a failed file or drive query adds 0. |
| FileOperations.InaccessibleNames | globalPlugins/xPlorer/fileOperations.py:293-296 | Lists the names of the items failing the access check. It has every item iff every item fails. |
| FileOperations.Counted | globalPlugins/xPlorer/fileOperations.py:317-325 | An item is counted iff its name is not among the skipped names. |
| FileOperations.CountedAppend | globalPlugins/xPlorer/fileOperations.py:317-325 | Filtering two runs of items gives the items of the first run followed by those of the second, so order and repeats are kept. |
| FileOperations.CountedOne | globalPlugins/xPlorer/fileOperations.py:317-325 | One item is kept iff its name is not among the skipped names. |
| FileOperations.SizeTotals | globalPlugins/xPlorer/fileOperations.py:310-395 | The worker's count is the number of counted items. Its total is the sum of their contributions, and it flags a drive iff a counted item is a drive. |
| FileOperations.SaySize | globalPlugins/xPlorer/fileOperations.py:281-405 | Says nothing outside Explorer. It says "No items selected" without a selection, and "No access" with no worker when every item is inaccessible. Otherwise it reports the counted items' size and count. |
| FileOperations.SkippedByName | globalPlugins/xPlorer/fileOperations.py:293-323 | An accessible item is still skipped when an inaccessible item has the same name. |
| FileOperations.AllAccessibleAllCounted | globalPlugins/xPlorer/fileOperations.py:293-325 | With every item accessible, every item is counted. |
| CreateFile.Clamp | globalPlugins/xPlorer/createFile.py:111-114 | The count is clamped to [1, 10]. |
| CreateFile.Candidate | globalPlugins/xPlorer/createFile.py:304-313 | A candidate lies in the directory and ends with the extension: the plain name for counter 0, and `_` with the counter in decimal before the extension otherwise. |
| CreateFile.UpdateFileFields | globalPlugins/xPlorer/createFile.py:107-134 | Rows are only added, up to the clamped count. Row i is shown iff i is below the clamped count. |
| CreateFile.UpdateFileFieldsIdempotent | globalPlugins/xPlorer/createFile.py:107-134 | Setting the same count twice changes nothing the second time. |
| CreateFile.ShownRowsAfterChanges | globalPlugins/xPlorer/createFile.py:147-151 | After any series of count changes, the rows shown are exactly those below the last clamped count. |
| CreateFile.DefaultName | globalPlugins/xPlorer/createFile.py:180-185 | Row 0 defaults to "new_file"; row i > 0 defaults to "new_file_" followed by i + 1 in decimal. |
| CreateFile.DefaultNamesDistinct | globalPlugins/xPlorer/createFile.py:180-185 | Different rows get different default names. |
| Common.NatToStringValue | globalPlugins/xPlorer/createFile.py:185 | Reading the decimal rendering of a row number back gives the number, and it has no leading zero. |
| CreateFile.NormalizeExt | globalPlugins/xPlorer/createFile.py:187-194 | The stored extension starts with a dot. An empty field gives ".txt". Otherwise one leading dot is removed and a dot is prefixed. |
| CreateFile.NormalizeExtDotOptional | globalPlugins/xPlorer/createFile.py:188-194 | Typing the dot or leaving it out gives the same extension, and normalising is idempotent. |
| CreateFile.EntryFor | globalPlugins/xPlorer/createFile.py:176-196 | The name is the stripped name, or the row's default when that is empty. The extension is normalised. |
| CreateFile.CreateOk | globalPlugins/xPlorer/createFile.py:155-202 | Refuses a count below 1 or above 10. Otherwise it gives min(count, rows) entries in row order, and the "default names" notice iff some row's name was blank. |
| CreateFile.CollectRows | globalPlugins/xPlorer/createFile.py:166-196 | The OK loop reads one entry per existing row up to the count. It flags a defaulted name iff one of those rows is blank. |
| CreateFile.CollectRow | globalPlugins/xPlorer/createFile.py:176-185 | Gives the row's entry and flags a defaulted name iff the name field is blank. |
| CreateFile.ChooseFilePath | globalPlugins/xPlorer/createFile.py:305-319 | The path is the first of name, name_1 … name_99 whose key is not present, and every earlier candidate's key is present. If all of them are present, name_100 is taken unchecked and the search reports that it gave up. |
| CreateFile.CandidatesDistinct | globalPlugins/xPlorer/createFile.py:311-316 | The candidate paths are pairwise different. |
| CreateFile.TemplateFor | globalPlugins/xPlorer/createFile.py:323-337 | A template is used iff the lower-cased extension without its dot is a template key. Any other extension gives an empty file. |
| CreateFile.TemplateIgnoresCase | globalPlugins/xPlorer/createFile.py:324 | An upper-cased extension picks the same template. |
| CreateFile.ResultMessage | globalPlugins/xPlorer/createFile.py:355-360 | The closing message depends only on the count: none, one, or "{count} files created". |
| CreateFile.CreateOne | globalPlugins/xPlorer/createFile.py:303-352 | Each entry gets the searched path among the path keys present, and is written iff the file system allows it. |
| CreateFile.CreatedSearches | globalPlugins/xPlorer/createFile.py:303-319 | Each entry's path is searched among the keys existing at the start plus the keys of the paths written for earlier entries, so `A.txt` counts as taken once `a.txt` was written when the keys agree. |
| CreateFile.CreatedWrites | globalPlugins/xPlorer/createFile.py:339-352 | Each outcome is written iff the file system allows it. |
| CreateFile.CreatedAvoids | globalPlugins/xPlorer/createFile.py:303-319 | Unless the search gave up, no existing file is touched, and no earlier written file is overwritten, not even through a path with the same key. |
| CreateFile.SameKeyMovesOn | globalPlugins/xPlorer/createFile.py:303-316 | A later entry whose plain name has the same key as a file written for an earlier entry is moved on to a numbered name, as `os.path.exists` finds the earlier file. |
| CreateFile.CreateFiles | globalPlugins/xPlorer/createFile.py:270-360 | Gives one outcome per entry, made as above, with the key of each written path added to the keys present for the later entries, and a message that reflects the number written. |
| TxtToFolder.RemoveInvalid | globalPlugins/xPlorer/txt2folder.py:226-229 | None of `<>:"/\|?*` is left, and a name without them is unchanged. |
| TxtToFolder.RemoveInvalidAppend | globalPlugins/xPlorer/txt2folder.py:226-229 | Removing from two parts of a name removes from each part, in order. |
| TxtToFolder.RemoveInvalidOne | globalPlugins/xPlorer/txt2folder.py:226-229 | One character is dropped iff it is invalid; with RemoveInvalidAppend the result is exactly the valid characters, in order. |
| TxtToFolder.CollapseSpaces | globalPlugins/xPlorer/txt2folder.py:234-236 | No two consecutive spaces are left. Non-space ends are kept, and a name without double spaces is unchanged. |
| TxtToFolder.HalveSpaces | globalPlugins/xPlorer/txt2folder.py:236 | One replacement pass is no longer than its input and strictly shorter while a double space is left. A first character that is a space stays a space, other first and last characters are kept, and no invalid character is added. |
| TxtToFolder.SqueezeHalve | globalPlugins/xPlorer/txt2folder.py:235-236 | One replacement pass leaves the reference collapse unchanged, which is why the repeated passes compute it. |
| TxtToFolder.CollapseIsSqueeze | globalPlugins/xPlorer/txt2folder.py:234-236 | The repeated halving passes equal the reference collapse, which drops a space exactly when the next character is a space, so each run of spaces becomes one space and nothing else changes. |
| TxtToFolder.Cleaned | globalPlugins/xPlorer/txt2folder.py:226-240 | Nothing is left iff every character was invalid, a dot or a space. Otherwise the name has no invalid character, no double space, and no dot or space at either end. |
| TxtToFolder.CleanedSteps | globalPlugins/xPlorer/txt2folder.py:226-236 | The cleaned name is the reference collapse of the valid characters with dots and spaces stripped from both ends. |
| TxtToFolder.Suffixed | globalPlugins/xPlorer/txt2folder.py:242-247 | A reserved device name (any case) is returned with "_folder" appended, and the result is never reserved. Other names pass unchanged. |
| TxtToFolder.Truncated | globalPlugins/xPlorer/txt2folder.py:249-251 | The name is cut to at most 255 characters, as a prefix. |
| TxtToFolder.MakeValidFolderName | globalPlugins/xPlorer/txt2folder.py:221-253 | Returns None iff nothing is left after cleaning. Otherwise the result is the cleaned name, with "_folder" appended when it is reserved, cut to its first 255 characters. A result has no invalid character and no double space, does not start with a dot or space, has at most 255 characters, and is not reserved in upper case. If shorter than 255, it also does not end in a dot or space. |
| TxtToFolder.ValidNameUnchanged | globalPlugins/xPlorer/txt2folder.py:221-253 | A name that is already valid comes back unchanged. |
| TxtToFolder.MakeValidIdempotent | globalPlugins/xPlorer/txt2folder.py:221-253 | Sanitising a result again changes nothing, unless the cut left a dot or space at its end. |
| TxtToFolder.TruncationKeepsTrailingSpace | globalPlugins/xPlorer/txt2folder.py:232-251 | A clean 256-character line whose 255th character is a space is cut to a name ending in that space. Sanitising that name again drops the space. |
| TxtToFolder.IsSupportedFile | globalPlugins/xPlorer/txt2folder.py:53 | A path is accepted iff its fourth character from the end is a dot and its last three characters, lower-cased, are `txt` or `rtf`. |
| TxtToFolder.SupportedIgnoresCase | globalPlugins/xPlorer/txt2folder.py:54 | The .txt/.rtf check ignores letter case. |
| TxtToFolder.SupportedHasExtension | globalPlugins/xPlorer/txt2folder.py:54 | An accepted path ends in a dot and three characters. |
| TxtToFolder.FolderNames | globalPlugins/xPlorer/txt2folder.py:88 | The folder names are non-empty and stripped. There are none iff every line is blank. |
| TxtToFolder.FolderNamesAppend | globalPlugins/xPlorer/txt2folder.py:88 | The names of two runs of lines are those of the first run followed by those of the second, so order is kept. |
| TxtToFolder.FolderNamesOne | globalPlugins/xPlorer/txt2folder.py:88 | One line gives its stripped text, or nothing when it is blank. |
| TxtToFolder.SubfolderNameOrigin | globalPlugins/xPlorer/txt2folder.py:121-125 | Every subfolder name is the sanitised form of some folder name, and has the sanitiser's shape. |
| TxtToFolder.SubfolderNames | globalPlugins/xPlorer/txt2folder.py:121-124 | At most one subfolder per folder name, and one for every name iff the sanitiser rejects none of them. |
| TxtToFolder.SubfolderNamesAppend | globalPlugins/xPlorer/txt2folder.py:121-124 | The subfolders of two runs of folder names are those of the first run followed by those of the second, so order is kept. |
| TxtToFolder.SubfolderNamesOne | globalPlugins/xPlorer/txt2folder.py:121-124 | One folder name gives its sanitised form, or nothing when the sanitiser rejects it. |
| TxtToFolder.SubfolderNamesComplete | globalPlugins/xPlorer/txt2folder.py:121-125 | No folder name is lost iff the sanitiser keeps something of each one. |
| TxtToFolder.FirstFree | globalPlugins/xPlorer/txt2folder.py:99-103 | The existence loop stops at the first candidate that does not exist, and all earlier candidates exist. |
| TxtToFolder.ChooseBaseFolder | globalPlugins/xPlorer/txt2folder.py:94-109 | The base folder is the stem if no path of that name exists (file or folder), else the first free stem_k. The "already exists" notice, naming both folders, is given iff the chosen folder differs from the stem, which is iff the stem exists. |

## Left out

- Speech and clipboard calls, `_executeWithSilence` and the 50 ms deferral before compressing are left out. They only schedule or announce; the model returns the command or message instead.
- The COM and NVDA queries are inputs. A shell window object that raises is modelled as raising on every property, and the lookups skip it; partial failures inside one window are not told apart. The `lastExplorerDocument` tracking in `_getSelectedItems` only logs, so it is left out.
- Threads are left out: the `saySize` worker, the 2 s beep timer and the worker's cancellation flag. `SaySize` runs the worker to completion, and a worker that raises is not modelled.
- `FileOperations.Contribution`: the PowerShell and ctypes folder sizes and the `os.walk` estimate are inputs. The estimate is a natural number, but the code can produce a float there.
- `FileOperations.RecalcSize`: the amount is an exact real, not a float, and its two-decimal formatting is not modelled.
- File writes, renames, `os.makedirs`, robocopy and the encoding fallbacks are left out. A rename or write outcome is an input predicate.
- Template texts are left out; only the key that selects a template is modelled.
- `FileUrl.FileUrlToPath`: `urllib.parse.unquote` decodes UTF-8 byte sequences. The model maps each `%XX` to the code point XX, which agrees with it for ASCII.
- `CreateFile.DefaultName`: the default names are translatable strings (`_("new_file")`, `_("new_file_{index}")`); the model uses the untranslated English text.
- `CreateFile.ChooseFilePath`, `CreateFile.CreateFiles`: the file system's path identity is the input `key`; Windows' rules for it (case folding, trailing dots and spaces) are not spelled out.
- `Common.Lower`, `Common.Upper`: they change case for ASCII letters only. Python's full Unicode case mapping is not modelled.
- `TxtToFolder.MakeValidFolderName`: the non-`str` branch at txt2folder.py:223 is not modelled, because every caller passes a string.
- `PathNames.Join`: a name that starts with a separator or a drive (`\x`, `D:x`) makes Windows' `os.path.join` restart at that name (keeping the directory's drive for `\x`); the model appends it below the directory. The rename dialog does not check the typed name, so for such a name the "not changed" and "already exists" guards of `FileOperations.RenameDecision` see a different path than the add-on does.
- `PathNames.DirName`: for a file in a drive root, Windows' `os.path.dirname` keeps the backslash (`C:\` for `C:\a.txt`); the model gives `C:`. Joining a name to `C:` in the model gives the same path as Windows' `join` gives for `C:\`, so the renamed path agrees.
- The `convert_txt_to_folder` driver is left out, apart from the rules it applies. It is I/O, and it rebinds `_` at txt2folder.py:46, so its message calls cannot work as written.
- `contextMenu.py` is not part of this model; it is menu construction and focus restoration.
- The settings panel, compression, clipboard, selection-inversion and robocopy managers are not part of this model.
