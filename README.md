# StableLauncher catalog, modelled in Dafny

StableLauncher (`usr/share/bin/launcher.py`) is a full-screen application
launcher. It works in four steps:

1. It scans the system and per-user application directories for `*.desktop`
   descriptors.
2. It reads `Name`, `Icon` and `Exec` from each descriptor with a tolerant
   string search, and builds a catalog sorted case-insensitively by name.
3. On every keystroke it filters the catalog by a case-insensitive substring
   query.
4. It lays the matches out on a seven-column grid.

This project models that catalog core and proves properties of it.

Modules:

- `Wrappers` (`wrappers.dfy`): the `Option` type. A file whose text cannot be
  read has no content.
- `PyStr` (`pystr.dfy`): the Python `str` operations the code relies on, over
  ASCII:
  - `find`, which returns -1 when not found;
  - `in` and `endswith`;
  - slicing with negative bounds;
  - `split(c)[0]`, `lower` and `strip`;
  - the `<` order on strings.
- `DesktopEntry` (`desktop.dfy`):
  - `get_desktop_field`, as `GetField`;
  - the per-file decision of `load_applications`: whether a directory entry
    becomes a catalog entry, and which one (`EntryOf`);
  - the command clean-up `exec.split('%')[0].strip()`, as `ExecCommand`.
- `Catalog` (`catalog.dfy`):
  - what the directory scan collects (`Collect`, `ScanDirs`);
  - the sort by lower-cased name, as a stable insertion sort (`SortByName`);
  - the filter comprehension (`Filter`).

  The scan is written once for any per-file decision, `CollectWith` and
  `ScanWith`. It is then used with `EntryOf`, so the shape of the scan is
  proved apart from descriptor parsing.
- `Launcher` (`launcher.dfy`):
  - the grid arithmetic (`CellOf`);
  - the class `StableLauncher`, with the fields `allApps` (`all_apps`) and
    `appWidgets` (`app_widgets`);
  - the methods `LoadApplications`, `ScanFiles` (the inner directory loop),
    `FilterApps` and `AddAppWidget`, which update those fields in loops as the
    source does.

A widget is modelled by the entry it shows and the grid cell it occupies.

Behaviour of the code that the model keeps on purpose:

- **`Key=` is found anywhere.** `get_desktop_field` does `content.find("Name=")`. It finds the first `Name=` anywhere in the text, not at the start of a line. So `GenericName=Web Browser` earlier in a file is read as the name. The extractor was meant as a line-oriented scanner; the model follows the code.
- **`NoDisplay=true` is found anywhere.** The marker excludes the file wherever it occurs, not only as a whole line.
- **A last line without a newline loses a character.** When no newline follows the key, `find` gives -1, and `content[start:-1]` drops the last character of the file. `Name=abc` as the file's last line reads as `ab`. See `GetFieldDropsLast`.
- **The `%` truncation strips both sides.** The code strips leading as well as trailing whitespace.
- **The raw `Exec` decides, not the command.** A file is kept when the raw `Exec` value is non-empty, before field codes are removed. `Exec=%u` therefore gives an entry whose command is empty. See `ExecOfFieldCodeOnly`.

## Model

| member | source | states |
|---|---|---|
| PyStr.Find | usr/share/bin/launcher.py:146-150 | `find` returns the first position at or after `from` where the key occurs, or -1 exactly when there is none |
| PyStr.Contains | usr/share/bin/launcher.py:121 | Python's `sub in s`: `sub` occurs at some position of `s`. It has no contract of its own; ContainsIffFound ties it to `find` |
| PyStr.ContainsIffFound | usr/share/bin/launcher.py:146-147 | `key in s` holds exactly when `s.find(key)` is not -1 |
| PyStr.SliceBound | usr/share/bin/launcher.py:151 | a slice bound in range is kept; a negative bound counts from the end; a bound out of range is clamped to the length |
| PyStr.Slice | usr/share/bin/launcher.py:151 | Python's `s[start:stop]`: both bounds are resolved the way SliceBound states, and the result is the text between them, or "" when they cross. It is never longer than `s` |
| PyStr.EndsWith | usr/share/bin/launcher.py:116 | Python's `s.endswith(suffix)`: the last `len(suffix)` characters of `s` are `suffix` |
| PyStr.BeforeFirst | usr/share/bin/launcher.py:132 | `split('%')[0]` is the longest prefix without `%`. It is followed by `%` when shorter than the input, and it is the whole input when `%` is absent |
| PyStr.LowerChar | usr/share/bin/launcher.py:164 | `lower` on one character: A-Z becomes the letter 32 code points above, in a-z. Every other character is unchanged |
| PyStr.Lower | usr/share/bin/launcher.py:163-164 | `lower` keeps the length. LowerPointwise states the character-by-character mapping |
| PyStr.LowerPointwise | usr/share/bin/launcher.py:164 | `lower` maps every character on its own: A-Z to a-z, others unchanged |
| PyStr.LowerKeepsContains | usr/share/bin/launcher.py:164 | if `a` occurs in `b` then `a.lower()` occurs in `b.lower()` |
| PyStr.LowerIdempotent | usr/share/bin/launcher.py:163-164 | lowering twice equals lowering once |
| PyStr.Strip | usr/share/bin/launcher.py:151 | `strip` leaves no whitespace at either end |
| PyStr.StripIsSlice | usr/share/bin/launcher.py:151 | `strip` keeps one contiguous slice of the input and removes only whitespace on both sides of it |
| PyStr.StripKeepsAbsent | usr/share/bin/launcher.py:151 | `strip` introduces no character that was not in its input |
| PyStr.StripStripped | usr/share/bin/launcher.py:132 | `strip` leaves a string without surrounding whitespace unchanged |
| PyStr.Less | usr/share/bin/launcher.py:137 | Python's `a < b` on strings: ordered by the first differing character, with a proper prefix first. LessTrichotomy and LessTransitive state the order laws |
| PyStr.LessEq | usr/share/bin/launcher.py:137 | `a <= b` is `not b < a`. LessEqTotal and LessEqTransitive make it a total preorder, which the sort needs |
| PyStr.LessTrichotomy | usr/share/bin/launcher.py:137 | any two strings are related by `<`, by `==`, or by `>` |
| PyStr.LessEqTotal | usr/share/bin/launcher.py:137 | string `<=`, which the sort key is compared by, is total |
| PyStr.LessEqTransitive | usr/share/bin/launcher.py:137 | string `<=` is transitive |
| DesktopEntry.FieldSpan | usr/share/bin/launcher.py:146-150 | there is no span exactly when `field=` is absent. The end of the span is the first newline at or after its start, or -1 |
| DesktopEntry.GetField | usr/share/bin/launcher.py:143-153 | a missing key gives "". Every value is stripped and holds no newline |
| DesktopEntry.SliceAvoidsNewline | usr/share/bin/launcher.py:150-151 | `content[start:end]`, with `end` the next newline or -1, holds no newline |
| DesktopEntry.FieldSpanFound | usr/share/bin/launcher.py:146-149 | the value starts right after the first `field=` in the text |
| DesktopEntry.GetFieldToNewline | usr/share/bin/launcher.py:146-151 | with `field=` first at `i` and the next newline at `e`, the value is `content[i+len(field)+1:e]` stripped |
| DesktopEntry.GetFieldOfSpan | usr/share/bin/launcher.py:151 | a span that ends inside the text gives the stripped slice between its bounds |
| DesktopEntry.GetFieldDropsLast | usr/share/bin/launcher.py:150-151 | with no newline after the key, the value is the rest of the text minus its last character, stripped, or "" |
| DesktopEntry.GetFieldOfOpenSpan | usr/share/bin/launcher.py:151 | a span ending at -1 slices up to one before the end |
| DesktopEntry.ExecCommand | usr/share/bin/launcher.py:132 | the command holds no `%` and is stripped. Without a `%` it is the raw value stripped |
| DesktopEntry.ExecBeforeFieldCode | usr/share/bin/launcher.py:132 | the command is the raw value up to its first `%`, stripped (`firefox %u` becomes `firefox`) |
| DesktopEntry.ExecOfFieldCodeOnly | usr/share/bin/launcher.py:128-132 | a raw value starting with `%` gives an empty command |
| DesktopEntry.EntryOf | usr/share/bin/launcher.py:116-133 | the per-file decision of `load_applications`, as written. EntryOfContributes states when it yields an entry and which one |
| DesktopEntry.EntryOfReadable | usr/share/bin/launcher.py:121-133 | for a readable `.desktop` file without the marker, the outcome is decided by `Name` and raw `Exec` alone |
| DesktopEntry.EntryOfContributes | usr/share/bin/launcher.py:116-133 | a file contributes exactly when all hold: its name ends in `.desktop`; it is readable; it has no `NoDisplay=true`; `Name` and raw `Exec` are non-empty. The entry is then (Name, Icon, cleaned Exec) and well formed |
| DesktopEntry.NoDisplayHidden | usr/share/bin/launcher.py:121-122 | `NoDisplay=true` anywhere in the text excludes the file |
| DesktopEntry.UnreadableSkipped | usr/share/bin/launcher.py:117-135 | a file that cannot be opened or decoded contributes nothing |
| Catalog.Contribution | usr/share/bin/launcher.py:128-135 | one file adds either the one entry it yields or nothing |
| Catalog.CollectWith | usr/share/bin/launcher.py:115-135 | the inner loop for any per-file decision: each file's contribution, in listing order. CollectMembers and CollectAppend state its properties |
| Catalog.ScanWith | usr/share/bin/launcher.py:113-135 | the outer loop for any per-file decision. Absent directories are skipped, an unlistable one aborts with the entries so far, and listed ones append their files' entries. ScanEntriesFromFiles, CompleteScanHasAll and CompleteScanListable state its properties |
| Catalog.Collect | usr/share/bin/launcher.py:115-135 | CollectWith with the launcher's own per-file decision, EntryOf |
| Catalog.ScanDirs | usr/share/bin/launcher.py:113-135 | ScanWith with EntryOf: what the directory loops collect, before sorting |
| Catalog.CollectAppend | usr/share/bin/launcher.py:115-135 | the entries of two runs of files are the first run's followed by the second's |
| Catalog.CollectMembers | usr/share/bin/launcher.py:115-135 | an entry is collected from a directory exactly when one of its files contributes it |
| Catalog.CollectAllContribute | usr/share/bin/launcher.py:115-135 | files that all contribute give one entry each |
| Catalog.SkippedFileAddsNothing | usr/share/bin/launcher.py:134-135 | a file that contributes nothing leaves the entries of the files around it unchanged |
| Catalog.CorruptFileSkipped | usr/share/bin/launcher.py:117-135 | N contributing files and one unreadable file give exactly the N entries |
| Catalog.ScanEntriesFromFiles | usr/share/bin/launcher.py:113-135 | every entry a scan collects, complete or aborted, comes from a contributing file of a listed directory |
| Catalog.CompleteScanHasAll | usr/share/bin/launcher.py:113-135 | a complete scan collects every entry that a listed file contributes |
| Catalog.CompleteScanListable | usr/share/bin/launcher.py:113-141 | a scan completes exactly when no directory fails to list |
| Catalog.CollectWellFormed | usr/share/bin/launcher.py:113-133 | every collected entry has a non-empty, stripped, one-line name and a stripped command without `%` |
| Catalog.NoDisplayNeverCollected | usr/share/bin/launcher.py:113-122 | every collected entry comes from a listed, readable `.desktop` file without `NoDisplay=true` |
| Catalog.CompleteScanCollectsAll | usr/share/bin/launcher.py:113-135 | a complete scan misses no contributing file of a listed directory |
| Catalog.Key | usr/share/bin/launcher.py:137 | the sort key `x['name'].lower()` |
| Catalog.Insert | usr/share/bin/launcher.py:137 | insertion adds exactly one element and leaves the others. Its front is the new element or the old front |
| Catalog.InsertSorted | usr/share/bin/launcher.py:137 | inserting into a sorted list keeps it sorted |
| Catalog.SortByName | usr/share/bin/launcher.py:137 | the sort is a permutation of its input, and adjacent lower-cased names are in `<=` order |
| Catalog.InsertWithKey | usr/share/bin/launcher.py:137 | insertion puts the new entry in front of the entries with an equal key and leaves each key's relative order alone |
| Catalog.InsertPastFront | usr/share/bin/launcher.py:137 | moving past the front keeps each key's order (the inductive step of InsertWithKey) |
| Catalog.SortByNameStable | usr/share/bin/launcher.py:137 | the sort is stable: for every key, the entries with that key keep their scan order |
| Catalog.SortedPairwise | usr/share/bin/launcher.py:137 | in the sorted catalog every earlier name is `<=` every later one, not just its neighbour |
| Catalog.Matches | usr/share/bin/launcher.py:164 | the filter condition `text.lower() in app['name'].lower()` |
| Catalog.Filter | usr/share/bin/launcher.py:164 | the comprehension: the matching entries, each as often as in the catalog, in catalog order. FilterSubsequence and FilterCount together fix the result exactly, duplicates included |
| Catalog.FilterCount | usr/share/bin/launcher.py:164 | a matching entry occurs in the result as many times as in the catalog, and a non-matching one not at all |
| Catalog.FilterMembers | usr/share/bin/launcher.py:163-164 | an entry is in the filtered list exactly when it is in the catalog and its lower-cased name contains the lower-cased query |
| Catalog.FilterSubsequence | usr/share/bin/launcher.py:164 | the filtered list keeps catalog order: it is a subsequence of the catalog |
| Catalog.FilterEmptyQuery | usr/share/bin/launcher.py:138 | the empty query, as used after loading, keeps the whole catalog unchanged |
| Catalog.FilterIdempotent | usr/share/bin/launcher.py:163-164 | filtering the filtered list by the same query changes nothing |
| Catalog.FilterNarrows | usr/share/bin/launcher.py:163-164 | when `q1` occurs in `q2`, the result for `q2` is a subsequence of the result for `q1` |
| Catalog.FilterSorted | usr/share/bin/launcher.py:164 | filtering a sorted catalog leaves it sorted |
| Catalog.FirstMatchIsLeast | usr/share/bin/launcher.py:164-167 | on a sorted catalog, the first match has the least lower-cased name among all matches |
| Launcher.CellOf | usr/share/bin/launcher.py:220-221 | `col` is below 7 and `row * 7 + col` is the index |
| Launcher.CellOfZero | usr/share/bin/launcher.py:220-221 | index 0 goes to row 0, column 0 |
| Launcher.CellInjective | usr/share/bin/launcher.py:220-222 | distinct indices get distinct cells |
| Launcher.CellUnique | usr/share/bin/launcher.py:220-221 | the only row and column below 7 that combine to the index are the ones computed |
| Launcher.CellOfNext | usr/share/bin/launcher.py:220-221 | the grid fills row by row: the next index is one column right, or column 0 of the next row |
| Launcher.ShowsDistinctCells | usr/share/bin/launcher.py:166-167 | no two widgets added by one filtering share a cell |
| Launcher.ShowsMatching | usr/share/bin/launcher.py:163-167 | after filtering, an application has a widget exactly when it is in the catalog and matches the query |
| Launcher.ShowsLeastFirst | usr/share/bin/launcher.py:164-167 | on a sorted catalog, the widget in cell (0, 0) shows the match with the least lower-cased name |
| Launcher.ShowsInNameOrder | usr/share/bin/launcher.py:164-167 | on a sorted catalog, widgets in later positions never have smaller lower-cased names |
| Launcher.CompleteLoadShowsEveryApp | usr/share/bin/launcher.py:104-138 | after a complete load, an application has a widget exactly when some listed file contributes it |
| Launcher.ShowsSortedScan | usr/share/bin/launcher.py:113-138 | the same, for any per-file decision |
| Launcher.AbortedStays | usr/share/bin/launcher.py:113-141 | once a directory cannot be listed, the later directories change nothing |
| Launcher.ScanStep | usr/share/bin/launcher.py:113-115 | one more directory: an absent one adds nothing, an unlistable one aborts, a listed one adds its files' entries |
| Launcher.CollectStep | usr/share/bin/launcher.py:115-135 | one more file adds exactly what that file contributes |
| Launcher.StableLauncher.constructor | usr/share/bin/launcher.py:12-16 | a new launcher starts with no applications and no widgets |
| Launcher.StableLauncher.AddAppWidget | usr/share/bin/launcher.py:171-222 | exactly one widget is appended, for the given application, at the cell of `index` |
| Launcher.StableLauncher.FilterApps | usr/share/bin/launcher.py:155-167 | the widgets are replaced by one per matching application, in catalog order; the `i`-th sits in the cell of `i`; the catalog is unchanged |
| Launcher.StableLauncher.ScanFiles | usr/share/bin/launcher.py:115-135 | the catalog grows by exactly the entries the directory's files contribute, in listing order |
| Launcher.StableLauncher.LoadApplications | usr/share/bin/launcher.py:104-141 | an aborted scan leaves the partial, unsorted catalog and the widgets as they were. A complete scan gives the stably sorted catalog of every contributed entry, with a widget for each |

## Left out

- The Qt user interface left out: window flags, styles, labels, icons, `setFocus` and the close button. A widget is reduced to the entry it shows and its grid cell.
- The Enter-key handler and a click on an app widget run the command through `safe_launch`'s `subprocess.Popen`, an external process. Escape, a click outside a widget, `safe_close` and `cleanup_and_close` only close the window. All of this is Qt event handling.
- Real filesystem access:
  - The two fixed directories, and the `~` that `os.path.expanduser` resolves, become the parameter `dirs: seq<Listing>`.
  - `os.path.exists` becomes `Absent`.
  - `os.scandir` raising becomes `Unlistable`. When its iterator raises partway through a directory, the input is `Listed` with the files read so far, followed by `Unlistable`.
  - The listing order of `scandir` is whatever order the input gives.
  - A failure to open or decode a file becomes `content == None`.
  - A file's content is the text as `open(..., 'r')` returns it. Universal-newline mode has already turned `\r\n` and `\r` into `\n`.
- `QTimer.singleShot`, which delays the load by 100 ms, is not modelled. The load is one method call.
- `print` of error messages and the `__main__` block.
- Python's `lower` and `strip` are modelled over ASCII only. Unicode case mapping and non-ASCII whitespace are not modelled.
- Catalog.SortByName: `list.sort` is Python's builtin Timsort. The model is a stable insertion sort. A stable sort by a key has only one possible result, so both sort the same way, but that uniqueness is not proved here.
- Launcher.StableLauncher.FilterApps: `deleteLater` on the old widgets is modelled only as clearing the list. Qt exceptions inside `add_app_widget`, which the source catches and prints, are not modelled: every widget is added.
- Launcher.StableLauncher.LoadApplications: its contract does not cover exceptions on paths other than an unlistable directory. Those are Qt failures in `filter_apps` and `setFocus`, which the model does not have.
