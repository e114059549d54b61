/**
 * The application catalog: what a scan of the descriptor directories
 * collects (`load_applications`), the stable case-insensitive sort by name
 * (`list.sort(key=lambda x: x['name'].lower())`, a builtin, modelled here as
 * a stable insertion sort), and the case-insensitive substring filter of
 * `filter_apps`.
 */
module Catalog {
  import opened Wrappers
  import opened PyStr
  import opened DesktopEntry

  /**
   * One candidate directory as the scan finds it: missing
   * (`os.path.exists` is false), present but not listable (`os.scandir`
   * raises, which aborts the whole load), or listed in scan order. When
   * the `scandir` iterator raises partway through a directory, the input is
   * `Listed` with the files read so far, followed by `Unlistable`.
   */
  datatype Listing = Absent | Unlistable | Listed(files: seq<DirEntry>)

  /**
   * The outcome of the directory loops: every entry collected, or, when a
   * directory could not be listed, the entries collected before it.
   */
  datatype Scan = Complete(entries: seq<Entry>) | Aborted(entries: seq<Entry>)

  /*
   * The scan is stated for any per-file decision `entryOf` and used with
   * DesktopEntry.EntryOf. The lemmas about the shape of the scan hold for
   * every decision, so they are proved without looking into descriptor
   * parsing.
   */

  /** What one file adds to the list. */
  function Contribution(entryOf: DirEntry -> Option<Entry>, f: DirEntry): seq<Entry>
  {
    match entryOf(f)
    case Some(e) => [e]
    case None => []
  }

  /** The entries the inner loop appends for one directory, in scan order. */
  function CollectWith(entryOf: DirEntry -> Option<Entry>, files: seq<DirEntry>): seq<Entry>
  {
    if files == [] then []
    else CollectWith(entryOf, files[..|files| - 1]) + Contribution(entryOf, files[|files| - 1])
  }

  /** The outcome of the outer loop over the directories, in order. */
  function ScanWith(entryOf: DirEntry -> Option<Entry>, dirs: seq<Listing>): Scan
  {
    if dirs == [] then Complete([])
    else match ScanWith(entryOf, dirs[..|dirs| - 1])
      case Aborted(es) => Aborted(es)
      case Complete(es) =>
        match dirs[|dirs| - 1]
        case Absent => Complete(es)
        case Unlistable => Aborted(es)
        case Listed(files) => Complete(es + CollectWith(entryOf, files))
  }

  /** The entries `load_applications` appends for one directory. */
  function Collect(files: seq<DirEntry>): seq<Entry>
  {
    CollectWith(EntryOf, files)
  }

  /** The outcome of `load_applications`' directory loops, before sorting. */
  function ScanDirs(dirs: seq<Listing>): Scan
  {
    ScanWith(EntryOf, dirs)
  }

  /** Collecting is compositional: two runs of files add their entries one after the other. */
  lemma {:induction false} CollectAppend(entryOf: DirEntry -> Option<Entry>, a: seq<DirEntry>, b: seq<DirEntry>)
    ensures CollectWith(entryOf, a + b) == CollectWith(entryOf, a) + CollectWith(entryOf, b)
    decreases |b|
  {
    if b == [] {
      assert a + b == a;
    } else {
      var b' := b[..|b| - 1];
      assert (a + b)[..|a + b| - 1] == a + b';
      CollectAppend(entryOf, a, b');
    }
  }

  /** An entry is collected exactly when some file of the run contributes it. */
  lemma {:induction false} CollectMembers(entryOf: DirEntry -> Option<Entry>, files: seq<DirEntry>, e: Entry)
    ensures e in CollectWith(entryOf, files) <==> exists k :: 0 <= k < |files| && entryOf(files[k]) == Some(e)
  {
    if files != [] {
      var init := files[..|files| - 1];
      CollectMembers(entryOf, init, e);
      if e in CollectWith(entryOf, init) {
        var k :| 0 <= k < |init| && entryOf(init[k]) == Some(e);
        assert files[k] == init[k];
      }
      if exists k :: 0 <= k < |files| && entryOf(files[k]) == Some(e) {
        var k :| 0 <= k < |files| && entryOf(files[k]) == Some(e);
        if k < |init| { assert init[k] == files[k]; }
      }
    }
  }

  /** A run in which every file contributes yields one entry per file. */
  lemma {:induction false} CollectAllContribute(entryOf: DirEntry -> Option<Entry>, files: seq<DirEntry>)
    requires forall k :: 0 <= k < |files| ==> entryOf(files[k]).Some?
    ensures |CollectWith(entryOf, files)| == |files|
  {
    if files != [] {
      var init := files[..|files| - 1];
      assert forall k :: 0 <= k < |init| ==> init[k] == files[k];
      CollectAllContribute(entryOf, init);
    }
  }

  /** `f` is one of the files of a directory that was listed. */
  ghost predicate ListedIn(dirs: seq<Listing>, f: DirEntry)
  {
    exists d :: 0 <= d < |dirs| && dirs[d].Listed? && f in dirs[d].files
  }

  /** Everything a scan collects, complete or not, comes from a listed file that contributes it. */
  lemma {:induction false} ScanEntriesFromFiles(entryOf: DirEntry -> Option<Entry>, dirs: seq<Listing>, e: Entry)
    requires e in ScanWith(entryOf, dirs).entries
    ensures exists f :: ListedIn(dirs, f) && entryOf(f) == Some(e)
  {
    var init := dirs[..|dirs| - 1];
    var last := dirs[|dirs| - 1];
    if e in ScanWith(entryOf, init).entries {
      ScanEntriesFromFiles(entryOf, init, e);
      var f :| ListedIn(init, f) && entryOf(f) == Some(e);
      var d :| 0 <= d < |init| && init[d].Listed? && f in init[d].files;
      assert ListedIn(dirs, f) by { assert dirs[d] == init[d]; }
    } else {
      var files := last.files;
      CollectMembers(entryOf, files, e);
      var k :| 0 <= k < |files| && entryOf(files[k]) == Some(e);
      assert ListedIn(dirs, files[k]) by { assert files[k] in dirs[|dirs| - 1].files; }
    }
  }

  /** A complete scan collects every entry some listed file contributes. */
  lemma {:induction false} CompleteScanHasAll(entryOf: DirEntry -> Option<Entry>, dirs: seq<Listing>, f: DirEntry, e: Entry)
    requires ScanWith(entryOf, dirs).Complete?
    requires ListedIn(dirs, f) && entryOf(f) == Some(e)
    ensures e in ScanWith(entryOf, dirs).entries
  {
    var init := dirs[..|dirs| - 1];
    var d :| 0 <= d < |dirs| && dirs[d].Listed? && f in dirs[d].files;
    assert ScanWith(entryOf, init).Complete?;
    if d < |dirs| - 1 {
      assert init[d] == dirs[d];
      CompleteScanHasAll(entryOf, init, f, e);
    } else {
      var k :| 0 <= k < |dirs[d].files| && dirs[d].files[k] == f;
      CollectMembers(entryOf, dirs[d].files, e);
    }
  }

  /** A scan completes exactly when no directory fails to list. */
  lemma {:induction false} CompleteScanListable(entryOf: DirEntry -> Option<Entry>, dirs: seq<Listing>)
    ensures ScanWith(entryOf, dirs).Complete? <==> forall d :: 0 <= d < |dirs| ==> !dirs[d].Unlistable?
  {
    if dirs != [] {
      var init := dirs[..|dirs| - 1];
      CompleteScanListable(entryOf, init);
      assert forall d :: 0 <= d < |init| ==> init[d] == dirs[d];
    }
  }

  /** Every collected entry has a non-empty stripped one-line name and a command free of `%`. */
  lemma CollectWellFormed(dirs: seq<Listing>)
    ensures forall e :: e in ScanDirs(dirs).entries ==> WellFormed(e)
  {
    forall e | e in ScanDirs(dirs).entries
      ensures WellFormed(e)
    {
      ScanEntriesFromFiles(EntryOf, dirs, e);
      var f :| ListedIn(dirs, f) && EntryOf(f) == Some(e);
      EntryOfContributes(f);
    }
  }

  /**
   * Nothing a scan collects comes from a file marked `NoDisplay=true`: each
   * entry comes from a listed, readable, unmarked `.desktop` file.
   */
  lemma NoDisplayNeverCollected(dirs: seq<Listing>, e: Entry)
    requires e in ScanDirs(dirs).entries
    ensures exists f :: ListedIn(dirs, f) && EntryOf(f) == Some(e)
                     && EndsWith(f.name, Extension) && f.content.Some?
                     && !Contains(f.content.value, NoDisplayMarker)
  {
    ScanEntriesFromFiles(EntryOf, dirs, e);
    var f :| ListedIn(dirs, f) && EntryOf(f) == Some(e);
    EntryOfContributes(f);
  }

  /** A complete scan misses no contributing file of a listed directory. */
  lemma CompleteScanCollectsAll(dirs: seq<Listing>, f: DirEntry)
    requires ScanDirs(dirs).Complete? && ListedIn(dirs, f) && EntryOf(f).Some?
    ensures EntryOf(f).value in ScanDirs(dirs).entries
  {
    CompleteScanHasAll(EntryOf, dirs, f, EntryOf(f).value);
  }

  /** A file that contributes nothing between two runs of files leaves just the two runs' entries. */
  lemma SkippedFileAddsNothing(entryOf: DirEntry -> Option<Entry>, before: seq<DirEntry>, bad: DirEntry, after: seq<DirEntry>)
    requires entryOf(bad) == None
    ensures CollectWith(entryOf, before + [bad] + after) == CollectWith(entryOf, before) + CollectWith(entryOf, after)
  {
    var one := [bad];
    assert one[..0] == [];
    assert CollectWith(entryOf, one) == [];
    CollectAppend(entryOf, before, one);
    CollectAppend(entryOf, before + one, after);
  }

  /**
   * A single unreadable file among files that all contribute is skipped and
   * costs nothing else: N good files and one bad one give N entries.
   */
  lemma CorruptFileSkipped(before: seq<DirEntry>, bad: DirEntry, after: seq<DirEntry>)
    requires forall k :: 0 <= k < |before| ==> EntryOf(before[k]).Some?
    requires forall k :: 0 <= k < |after| ==> EntryOf(after[k]).Some?
    requires bad.content == None
    ensures Collect(before + [bad] + after) == Collect(before) + Collect(after)
    ensures |Collect(before + [bad] + after)| == |before| + |after|
  {
    UnreadableSkipped(bad.name);
    assert bad == DirEntry(bad.name, None);
    SkippedFileAddsNothing(EntryOf, before, bad, after);
    CollectAllContribute(EntryOf, before);
    CollectAllContribute(EntryOf, after);
  }

  // ----- Sorting by lower-cased name -----

  /** The sort key: `x['name'].lower()`. */
  function Key(e: Entry): string
  {
    Lower(e.name)
  }

  /** Adjacent entries are in order of their lower-cased names. */
  predicate Sorted(s: seq<Entry>)
  {
    forall i :: 0 <= i < |s| - 1 ==> LessEq(Key(s[i]), Key(s[i + 1]))
  }

  /** The entries of `s` whose key is `k`, in their order in `s`. */
  function WithKey(s: seq<Entry>, k: string): seq<Entry>
  {
    if s == [] then []
    else (if Key(s[0]) == k then [s[0]] else []) + WithKey(s[1..], k)
  }

  /**
   * Places `x` before the first entry whose key is not below its own, so
   * that `x` stays in front of the entries with an equal key.
   */
  function Insert(x: Entry, t: seq<Entry>): (r: seq<Entry>)
    ensures multiset(r) == multiset(t) + multiset{x}
    ensures |r| == |t| + 1
    ensures r[0] == x || (t != [] && r[0] == t[0])
  {
    if t == [] || LessEq(Key(x), Key(t[0])) then [x] + t
    else
      assert t == [t[0]] + t[1..];
      [t[0]] + Insert(x, t[1..])
  }

  /** Inserting into a sorted list keeps it sorted. */
  lemma {:induction false} InsertSorted(x: Entry, t: seq<Entry>)
    requires Sorted(t)
    ensures Sorted(Insert(x, t))
  {
    if t != [] && !LessEq(Key(x), Key(t[0])) {
      var rest := Insert(x, t[1..]);
      assert Sorted(t[1..]) by {
        assert forall i :: 0 <= i < |t[1..]| ==> t[1..][i] == t[i + 1];
      }
      InsertSorted(x, t[1..]);
      LessEqTotal(Key(x), Key(t[0]));
      var r := [t[0]] + rest;
      assert Insert(x, t) == r;
      assert LessEq(Key(r[0]), Key(r[1]));
      assert forall i :: 0 < i < |r| - 1 ==> r[i] == rest[i - 1] && r[i + 1] == rest[i];
    }
  }

  /** `list.sort(key=...)` on the collected entries: a stable insertion sort. */
  function SortByName(s: seq<Entry>): (r: seq<Entry>)
    ensures multiset(r) == multiset(s)
    ensures Sorted(r)
  {
    if s == [] then []
    else
      assert s == [s[0]] + s[1..];
      var t := SortByName(s[1..]);
      InsertSorted(s[0], t);
      Insert(s[0], t)
  }

  /** WithKey of a list with a known front. */
  lemma WithKeyCons(e: Entry, s: seq<Entry>, k: string)
    ensures WithKey([e] + s, k) == (if Key(e) == k then [e] else []) + WithKey(s, k)
  {
    assert ([e] + s)[1..] == s;
  }

  /** Inserting `x` adds it at the front of its own key's entries and leaves the others' order alone. */
  lemma {:induction false} InsertWithKey(x: Entry, t: seq<Entry>, k: string)
    ensures WithKey(Insert(x, t), k) == (if Key(x) == k then [x] else []) + WithKey(t, k)
  {
    if t == [] || LessEq(Key(x), Key(t[0])) {
      WithKeyCons(x, t, k);
    } else {
      InsertWithKey(x, t[1..], k);
      InsertPastFront(x, t, k);
    }
  }

  /** The step of InsertWithKey where `x` goes past the front of `t`. */
  lemma InsertPastFront(x: Entry, t: seq<Entry>, k: string)
    requires t != [] && !LessEq(Key(x), Key(t[0]))
    requires WithKey(Insert(x, t[1..]), k) == (if Key(x) == k then [x] else []) + WithKey(t[1..], k)
    ensures WithKey(Insert(x, t), k) == (if Key(x) == k then [x] else []) + WithKey(t, k)
  {
    var rest := Insert(x, t[1..]);
    assert Insert(x, t) == [t[0]] + rest;
    assert Key(t[0]) != Key(x) by { LessIrreflexive(Key(x)); }
    var front := if Key(t[0]) == k then [t[0]] else [];
    var mine := if Key(x) == k then [x] else [];
    var w := WithKey(t[1..], k);
    calc {
      WithKey(Insert(x, t), k);
      { WithKeyCons(t[0], rest, k); }
      front + WithKey(rest, k);
      front + (mine + w);
      { SwapPastEmpty(front, mine, w); }
      mine + (front + w);
      { assert t == [t[0]] + t[1..]; WithKeyCons(t[0], t[1..], k); }
      mine + WithKey(t, k);
    }
  }

  /** Of two sequences, one empty, either may go first. */
  lemma SwapPastEmpty(a: seq<Entry>, b: seq<Entry>, w: seq<Entry>)
    requires a == [] || b == []
    ensures a + (b + w) == b + (a + w)
  {
    if a == [] {
      assert a + (b + w) == b + w == b + (a + w);
    } else {
      assert a + (b + w) == a + w == b + (a + w);
    }
  }

  /**
   * The sort is stable: for every key, the entries with that key appear in
   * the result in the order they were collected.
   */
  lemma {:induction false} SortByNameStable(s: seq<Entry>, k: string)
    ensures WithKey(SortByName(s), k) == WithKey(s, k)
  {
    if s != [] {
      SortByNameStable(s[1..], k);
      InsertWithKey(s[0], SortByName(s[1..]), k);
    }
  }

  /** Sorted means every earlier entry's key is at most every later one's, not just a neighbour's. */
  lemma {:induction false} SortedPairwise(s: seq<Entry>, i: nat, j: nat)
    requires Sorted(s) && i <= j < |s|
    ensures LessEq(Key(s[i]), Key(s[j]))
    decreases j - i
  {
    if i == j {
      LessIrreflexive(Key(s[i]));
    } else {
      SortedPairwise(s, i + 1, j);
      LessEqTransitive(Key(s[i]), Key(s[i + 1]), Key(s[j]));
    }
  }

  // ----- Filtering by a query -----

  /** The filter condition: `text.lower() in app['name'].lower()`. */
  predicate Matches(e: Entry, text: string)
  {
    Contains(Key(e), Lower(text))
  }

  /** The comprehension of `filter_apps`: the matching entries, in catalog order. */
  function Filter(apps: seq<Entry>, text: string): seq<Entry>
  {
    if apps == [] then []
    else (if Matches(apps[0], text) then [apps[0]] else []) + Filter(apps[1..], text)
  }

  /** `a` is `b` with some elements left out, the rest in order. */
  predicate Subsequence(a: seq<Entry>, b: seq<Entry>)
    decreases |b|
  {
    a == [] || (b != [] && ((a[0] == b[0] && Subsequence(a[1..], b[1..])) || Subsequence(a, b[1..])))
  }

  /** An entry survives the filter exactly when it is in the catalog and matches. */
  lemma {:induction false} FilterMembers(apps: seq<Entry>, text: string, e: Entry)
    ensures e in Filter(apps, text) <==> e in apps && Matches(e, text)
  {
    if apps != [] {
      FilterMembers(apps[1..], text, e);
      assert apps == [apps[0]] + apps[1..];
    }
  }

  /** The filter keeps catalog order: its result is a subsequence of the catalog. */
  lemma {:induction false} FilterSubsequence(apps: seq<Entry>, text: string)
    ensures Subsequence(Filter(apps, text), apps)
  {
    if apps != [] {
      FilterSubsequence(apps[1..], text);
      var rest := Filter(apps[1..], text);
      if Matches(apps[0], text) {
        assert ([apps[0]] + rest)[1..] == rest;
      } else {
        assert Filter(apps, text) == rest;
      }
    }
  }

  /** Each entry appears in the result as often as in the catalog when it matches, and never otherwise. */
  lemma {:induction false} FilterCount(apps: seq<Entry>, text: string, e: Entry)
    ensures multiset(Filter(apps, text))[e] == if Matches(e, text) then multiset(apps)[e] else 0
  {
    if apps != [] {
      FilterCount(apps[1..], text, e);
      assert apps == [apps[0]] + apps[1..];
    }
  }

  /** The empty query keeps the whole catalog, unchanged. */
  lemma {:induction false} FilterEmptyQuery(apps: seq<Entry>)
    ensures Filter(apps, "") == apps
  {
    if apps != [] {
      ContainsEmpty(Key(apps[0]));
      FilterEmptyQuery(apps[1..]);
      assert apps == [apps[0]] + apps[1..];
    }
  }

  /** Filtering a filtered list by the same query changes nothing. */
  lemma {:induction false} FilterIdempotent(apps: seq<Entry>, text: string)
    ensures Filter(Filter(apps, text), text) == Filter(apps, text)
  {
    if apps != [] {
      var rest := Filter(apps[1..], text);
      FilterIdempotent(apps[1..], text);
      if Matches(apps[0], text) {
        assert ([apps[0]] + rest)[0] == apps[0];
        assert ([apps[0]] + rest)[1..] == rest;
      } else {
        assert Filter(apps, text) == rest;
      }
    }
  }

  /**
   * Typing more narrows the result: when `q1` occurs in `q2`, whatever
   * matches `q2` also matches `q1`, and the result for `q2` is a
   * subsequence of the result for `q1`.
   */
  lemma {:induction false} FilterNarrows(apps: seq<Entry>, q1: string, q2: string)
    requires Contains(q2, q1)
    ensures Subsequence(Filter(apps, q2), Filter(apps, q1))
  {
    if apps != [] {
      var a := apps[0];
      var r1, r2 := Filter(apps[1..], q1), Filter(apps[1..], q2);
      FilterNarrows(apps[1..], q1, q2);
      if Matches(a, q2) {
        LowerKeepsContains(q2, q1);
        ContainsTransitive(Key(a), Lower(q2), Lower(q1));
        assert Filter(apps, q1) == [a] + r1 && Filter(apps, q2) == [a] + r2;
        assert ([a] + r2)[1..] == r2 && ([a] + r1)[1..] == r1;
      } else if Matches(a, q1) {
        assert Filter(apps, q1) == [a] + r1 && Filter(apps, q2) == r2;
        assert ([a] + r1)[1..] == r1;
      } else {
        assert Filter(apps, q1) == r1 && Filter(apps, q2) == r2;
      }
    }
  }

  /** Filtering a sorted catalog leaves it sorted. */
  lemma {:induction false} FilterSorted(apps: seq<Entry>, text: string)
    requires Sorted(apps)
    ensures Sorted(Filter(apps, text))
  {
    if apps != [] {
      var rest := Filter(apps[1..], text);
      assert Sorted(apps[1..]) by {
        assert forall i :: 0 <= i < |apps[1..]| ==> apps[1..][i] == apps[i + 1];
      }
      FilterSorted(apps[1..], text);
      if Matches(apps[0], text) && rest != [] {
        assert rest[0] in Filter(apps[1..], text);
        FilterMembers(apps[1..], text, rest[0]);
        var j :| 0 <= j < |apps[1..]| && apps[1..][j] == rest[0];
        SortedPairwise(apps, 0, j + 1);
        var r := [apps[0]] + rest;
        assert forall i :: 0 < i < |r| - 1 ==> r[i] == rest[i - 1] && r[i + 1] == rest[i];
      }
    }
  }

  /**
   * The first entry of a filtered, sorted catalog (the one placed in the
   * grid's first cell) has the least lower-cased name of all matching entries.
   */
  lemma FirstMatchIsLeast(apps: seq<Entry>, text: string, e: Entry)
    requires Sorted(apps)
    requires e in apps && Matches(e, text)
    ensures Filter(apps, text) != []
    ensures LessEq(Key(Filter(apps, text)[0]), Key(e))
  {
    var r := Filter(apps, text);
    FilterMembers(apps, text, e);
    FilterSorted(apps, text);
    var j :| 0 <= j < |r| && r[j] == e;
    SortedPairwise(r, 0, j);
  }
}
