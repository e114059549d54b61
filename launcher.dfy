/**
 * The launcher window's catalog state (`StableLauncher`): the sorted list
 * of applications `all_apps`, the widgets `app_widgets` currently shown for
 * a query, and the seven-column grid they are placed on. Widgets are
 * modelled by the entry they show and the grid cell they occupy.
 */
module Launcher {
  import opened Wrappers
  import opened PyStr
  import opened DesktopEntry
  import opened Catalog

  /** The grid is seven columns wide (`index // 7`, `index % 7`). */
  const Columns := 7

  /** A position in the grid layout. */
  datatype Cell = Cell(row: nat, col: nat)

  /** The cell of the widget at position `index` of the filtered list, filled row by row. */
  function CellOf(index: nat): (c: Cell)
    ensures c.col < Columns
    ensures c.row * Columns + c.col == index
  {
    // Python's `//` and `%` agree with Dafny's on a non-negative index
    Cell(index / Columns, index % Columns)
  }

  /** The first widget goes to the top-left cell. */
  lemma CellOfZero()
    ensures CellOf(0) == Cell(0, 0)
  {
  }

  /** Two positions share a cell only when they are the same position. */
  lemma CellInjective(i: nat, j: nat)
    requires CellOf(i) == CellOf(j)
    ensures i == j
  {
  }

  /** Row-major order: the next position is one column to the right, or the start of the next row. */
  lemma CellOfNext(i: nat)
    ensures CellOf(i + 1) ==
              if CellOf(i).col < Columns - 1 then Cell(CellOf(i).row, CellOf(i).col + 1)
              else Cell(CellOf(i).row + 1, 0)
  {
    var c := CellOf(i);
    if c.col < Columns - 1 {
      CellUnique(i + 1, c.row, c.col + 1);
    } else {
      CellUnique(i + 1, c.row + 1, 0);
    }
  }

  /** A row and a column below seven that combine to `index` are the ones CellOf gives. */
  lemma CellUnique(index: nat, row: nat, col: nat)
    requires col < Columns && row * Columns + col == index
    ensures CellOf(index) == Cell(row, col)
  {
  }

  /** One shown application: the entry whose icon and name it displays and whose command a click runs. */
  datatype Widget = Widget(app: Entry, cell: Cell)

  /** `ws` shows `apps` in order, the `i`-th in the `i`-th cell. */
  predicate Shows(ws: seq<Widget>, apps: seq<Entry>)
  {
    |ws| == |apps| && forall i :: 0 <= i < |ws| ==> ws[i] == Widget(apps[i], CellOf(i))
  }

  /** No two shown widgets occupy the same cell. */
  lemma ShowsDistinctCells(ws: seq<Widget>, apps: seq<Entry>, i: nat, j: nat)
    requires Shows(ws, apps)
    requires i < j < |ws|
    ensures ws[i].cell != ws[j].cell
  {
    if ws[i].cell == ws[j].cell {
      CellInjective(i, j);
    }
  }

  /** After filtering, an application has a widget exactly when it is in the catalog and matches the query. */
  lemma ShowsMatching(ws: seq<Widget>, apps: seq<Entry>, text: string, e: Entry)
    requires Shows(ws, Filter(apps, text))
    ensures (exists i :: 0 <= i < |ws| && ws[i].app == e) <==> e in apps && Matches(e, text)
  {
    var r := Filter(apps, text);
    FilterMembers(apps, text, e);
    if e in r {
      var i :| 0 <= i < |r| && r[i] == e;
      assert ws[i].app == e;
    }
  }

  /**
   * On a sorted catalog, the top-left widget shows the matching application
   * with the least lower-cased name.
   */
  lemma ShowsLeastFirst(ws: seq<Widget>, apps: seq<Entry>, text: string, e: Entry)
    requires Shows(ws, Filter(apps, text))
    requires Sorted(apps) && e in apps && Matches(e, text)
    ensures ws != [] && ws[0].cell == Cell(0, 0)
    ensures LessEq(Key(ws[0].app), Key(e))
  {
    FirstMatchIsLeast(apps, text, e);
    CellOfZero();
  }

  /** On a sorted catalog, the widgets follow lower-cased name order, cell by cell. */
  lemma ShowsInNameOrder(ws: seq<Widget>, apps: seq<Entry>, text: string, i: nat, j: nat)
    requires Shows(ws, Filter(apps, text)) && Sorted(apps)
    requires i <= j < |ws|
    ensures LessEq(Key(ws[i].app), Key(ws[j].app))
  {
    FilterSorted(apps, text);
    SortedPairwise(Filter(apps, text), i, j);
  }

  /**
   * After a complete load, an application has a widget exactly when some
   * file of a listed directory contributes it.
   */
  lemma CompleteLoadShowsEveryApp(dirs: seq<Listing>, ws: seq<Widget>, e: Entry)
    requires ScanDirs(dirs).Complete?
    requires Shows(ws, SortByName(ScanDirs(dirs).entries))
    ensures (exists i :: 0 <= i < |ws| && ws[i].app == e) <==>
              exists f :: ListedIn(dirs, f) && EntryOf(f) == Some(e)
  {
    ShowsSortedScan(EntryOf, dirs, ws, e);
  }

  /** CompleteLoadShowsEveryApp for any per-file decision. */
  lemma ShowsSortedScan(entryOf: DirEntry -> Option<Entry>, dirs: seq<Listing>, ws: seq<Widget>, e: Entry)
    requires ScanWith(entryOf, dirs).Complete?
    requires Shows(ws, SortByName(ScanWith(entryOf, dirs).entries))
    ensures (exists i :: 0 <= i < |ws| && ws[i].app == e) <==>
              exists f :: ListedIn(dirs, f) && entryOf(f) == Some(e)
  {
    var es := ScanWith(entryOf, dirs).entries;
    var sorted := SortByName(es);
    assert e in sorted <==> e in es by {
      assert multiset(sorted) == multiset(es);
      assert e in sorted <==> e in multiset(sorted);
    }
    if exists i :: 0 <= i < |ws| && ws[i].app == e {
      var i :| 0 <= i < |ws| && ws[i].app == e;
      assert sorted[i] == e;
      ScanEntriesFromFiles(entryOf, dirs, e);
    }
    if exists f :: ListedIn(dirs, f) && entryOf(f) == Some(e) {
      var f :| ListedIn(dirs, f) && entryOf(f) == Some(e);
      CompleteScanHasAll(entryOf, dirs, f, e);
      var i :| 0 <= i < |sorted| && sorted[i] == e;
      assert ws[i].app == e;
    }
  }

  /** Once a scan aborts at some directory, the later directories change nothing. */
  lemma {:induction false} AbortedStays(dirs: seq<Listing>, n: nat)
    requires n <= |dirs| && ScanDirs(dirs[..n]).Aborted?
    ensures ScanDirs(dirs) == ScanDirs(dirs[..n])
    decreases |dirs| - n
  {
    if n < |dirs| {
      assert dirs[..n + 1][..n] == dirs[..n];
      AbortedStays(dirs, n + 1);
    } else {
      assert dirs[..n] == dirs;
    }
  }

  /** One more directory of a scan that has not aborted. */
  lemma ScanStep(dirs: seq<Listing>, d: nat)
    requires d < |dirs| && ScanDirs(dirs[..d]).Complete?
    ensures var es := ScanDirs(dirs[..d]).entries;
            ScanDirs(dirs[..d + 1]) ==
              match dirs[d]
              case Absent => Complete(es)
              case Unlistable => Aborted(es)
              case Listed(files) => Complete(es + Collect(files))
  {
    assert dirs[..d + 1][..d] == dirs[..d];
  }

  /** One more file of a directory. */
  lemma CollectStep(files: seq<DirEntry>, j: nat)
    requires j < |files|
    ensures Collect(files[..j + 1]) == Collect(files[..j]) + Contribution(EntryOf, files[j])
  {
    assert files[..j + 1][..j] == files[..j];
  }

  /** What one file contributes, once EntryOf's value for it is known. */
  lemma ContributionIs(f: DirEntry, added: seq<Entry>)
    requires added == match EntryOf(f) case Some(e) => [e] case None => []
    ensures Contribution(EntryOf, f) == added
  {
  }

  lemma AppendAssociates(a: seq<Entry>, b: seq<Entry>, c: seq<Entry>)
    ensures a + (b + c) == (a + b) + c
  {
  }

  class StableLauncher {
    /** Every collected application, sorted by lower-cased name once loading completes. */
    var allApps: seq<Entry>
    /** The widgets on the grid, in the order they were added. */
    var appWidgets: seq<Widget>

    /** A new window has no applications and no widgets; loading runs afterwards. */
    constructor()
      ensures allApps == [] && appWidgets == []
    {
      allApps := [];
      appWidgets := [];
    }

    /** `add_app_widget(app, index)`: one more widget, showing `app`, at the cell of `index`. */
    method AddAppWidget(app: Entry, index: nat)
      modifies this`appWidgets
      ensures appWidgets == old(appWidgets) + [Widget(app, CellOf(index))]
    {
      appWidgets := appWidgets + [Widget(app, CellOf(index))];
    }

    /**
     * `filter_apps(text)`: drops the old widgets, then adds one widget per
     * matching application, in catalog order, at consecutive grid positions.
     */
    method FilterApps(text: string)
      modifies this`appWidgets
      ensures Shows(appWidgets, Filter(allApps, text))
    {
      appWidgets := [];
      var filtered := Filter(allApps, text);
      var i := 0;
      while i < |filtered|
        invariant 0 <= i <= |filtered|
        invariant Shows(appWidgets, filtered[..i])
      {
        AddAppWidget(filtered[i], i);
        i := i + 1;
      }
      assert filtered[..i] == filtered;
    }

    /**
     * The inner loop of `load_applications` over one listed directory: each
     * readable `.desktop` file not marked `NoDisplay=true` whose `Name` and
     * `Exec` are non-empty is appended, in listing order; a file that cannot
     * be read is skipped.
     */
    method ScanFiles(files: seq<DirEntry>)
      modifies this`allApps
      ensures allApps == old(allApps) + Collect(files)
    {
      var j := 0;
      assert files[..0] == [];
      assert Collect(files[..0]) == [];
      assert allApps == old(allApps) + Collect(files[..0]);
      while j < |files|
        invariant 0 <= j <= |files|
        invariant allApps == old(allApps) + Collect(files[..j])
      {
        var entry := files[j];
        ghost var added: seq<Entry> := [];
        ghost var before := allApps;
        if EndsWith(entry.name, Extension) {
          match entry.content {
            case None =>
              UnreadableSkipped(entry.name);
            case Some(content) =>
              if !Contains(content, NoDisplayMarker) {
                EntryOfReadable(entry, content);
                var name := GetField(content, "Name");
                var icon := GetField(content, "Icon");
                var execCmd := GetField(content, "Exec");
                if name != "" && execCmd != "" {
                  allApps := allApps + [Entry(name, icon, ExecCommand(execCmd))];
                  added := [Entry(name, icon, ExecCommand(execCmd))];
                }
              } else {
                NoDisplayHidden(entry.name, content);
              }
          }
        }
        assert allApps == before + added;
        ContributionIs(entry, added);
        CollectStep(files, j);
        AppendAssociates(old(allApps), Collect(files[..j]), added);
        assert allApps == old(allApps) + Collect(files[..j + 1]);
        j := j + 1;
      }
      assert files[..j] == files;
    }

    /**
     * `load_applications` over the candidate directories `dirs`, in order.
     * A directory that cannot be listed aborts the load: the catalog keeps
     * what was collected before it, unsorted, and the grid is left as it
     * was. Otherwise the catalog is every contributed entry, sorted, and the
     * grid shows all of it.
     */
    method LoadApplications(dirs: seq<Listing>)
      modifies this
      ensures ScanDirs(dirs).Aborted? ==>
                allApps == ScanDirs(dirs).entries && appWidgets == old(appWidgets)
      ensures ScanDirs(dirs).Complete? ==>
                allApps == SortByName(ScanDirs(dirs).entries) && Shows(appWidgets, allApps)
    {
      allApps := [];
      var d := 0;
      while d < |dirs|
        invariant 0 <= d <= |dirs|
        invariant ScanDirs(dirs[..d]) == Complete(allApps)
        invariant appWidgets == old(appWidgets)
      {
        ScanStep(dirs, d);
        match dirs[d] {
          case Absent =>
          case Unlistable =>
            AbortedStays(dirs, d + 1);
            return;
          case Listed(files) =>
            ScanFiles(files);
        }
        d := d + 1;
      }
      assert dirs[..d] == dirs;
      allApps := SortByName(allApps);
      FilterApps("");
      FilterEmptyQuery(allApps);
    }
  }
}
