/**
 * Reading one application descriptor (`*.desktop` file): the tolerant
 * `Key=` field extractor of `StableLauncher.get_desktop_field` and the
 * per-file decision of `load_applications` whether, and as what entry, the
 * file joins the catalog. The extractor does no line or group parsing:
 * `Key=` is found anywhere in the text, so `GenericName=` or `TryExec=`
 * earlier in a file are taken for `Name=` or `Exec=`.
 */
module DesktopEntry {
  import opened Wrappers
  import opened PyStr

  /** One catalog record (the dict built at launcher.py line 129). */
  datatype Entry = Entry(name: string, icon: string, exec: string)

  /**
   * One `os.scandir` result: its file name, and its text when it could be
   * read as UTF-8. The text is what `open(..., 'r')` returns, so its
   * universal-newline mode has already turned `\r\n` and `\r` into `\n`.
   */
  datatype DirEntry = DirEntry(name: string, content: Option<string>)

  const Extension := ".desktop"
  const NoDisplayMarker := "NoDisplay=true"

  /**
   * The positions `get_desktop_field` computes: `start`, just after the first
   * `field=`, and `end`, the first newline at or after `start` (or -1).
   * None when `field=` does not occur.
   */
  datatype Span = Span(start: nat, end: int)

  function FieldSpan(content: string, field: string): (r: Option<Span>)
    ensures r.None? <==> !Contains(content, field + "=")
    ensures r.Some? ==> r.value.start <= |content| && r.value.end == Find(content, "\n", r.value.start)
  {
    var found := Find(content, field + "=", 0);
    ContainsIffFound(content, field + "=");
    if found == -1 then None
    else
      // `start += len(field) + 1` steps over the key
      var start := found + |field| + 1;
      Some(Span(start, Find(content, "\n", start)))
  }

  /**
   * `get_desktop_field(content, field)`: after the first `field=`, up to the
   * next newline, stripped; "" when `field=` does not occur. With no newline
   * after the key, `find` yields -1 and the slice `content[start:-1]` stops
   * one short of the end.
   */
  function GetField(content: string, field: string): (r: string)
    ensures !Contains(content, field + "=") ==> r == ""
    ensures '\n' !in r
    ensures Stripped(r)
  {
    match FieldSpan(content, field)
    case None => ""
    case Some(span) =>
      var piece := Slice(content, span.start, span.end);
      SliceAvoidsNewline(content, span.start, span.end);
      StripKeepsAbsent(piece, '\n');
      Strip(piece)
  }

  /** The slice GetField takes never holds a newline. */
  lemma SliceAvoidsNewline(content: string, start: nat, end: int)
    requires start <= |content|
    requires end == Find(content, "\n", start)
    ensures '\n' !in Slice(content, start, end)
  {
    var piece := Slice(content, start, end);
    var a, b := SliceBound(|content|, start), SliceBound(|content|, end);
    if a < b {
      forall k | 0 <= k < |piece|
        ensures piece[k] != '\n'
      {
        assert piece[k] == content[start + k];
        assert !OccursAt(content, "\n", start + k) by {
          if end != -1 {
            assert start + k < end;
          }
        }
        assert content[start + k..start + k + 1] == [content[start + k]];
      }
    }
  }

  /** `i` is where `key` first occurs in `content` at or after `from`. */
  predicate FirstFrom(content: string, key: string, from: nat, i: nat)
  {
    from <= i && OccursAt(content, key, i)
    && forall j :: from <= j < i ==> !OccursAt(content, key, j)
  }

  /** Where FieldSpan puts `start` once `field=` is first found at `i`. */
  lemma FieldSpanFound(content: string, field: string, i: nat)
    requires FirstFrom(content, field + "=", 0, i)
    ensures var start := i + |field| + 1;
            FieldSpan(content, field) == Some(Span(start, Find(content, "\n", start)))
  {
    FindFirst(content, field + "=", 0, i);
  }

  /**
   * With `field=` first at `i` and a newline first at `e` after it,
   * GetField yields what lies between them, stripped.
   */
  lemma GetFieldToNewline(content: string, field: string, i: nat, e: nat)
    requires FirstFrom(content, field + "=", 0, i)
    requires FirstFrom(content, "\n", i + |field| + 1, e)
    ensures GetField(content, field) == Strip(content[i + |field| + 1..e])
  {
    FieldSpanFound(content, field, i);
    FindFirst(content, "\n", i + |field| + 1, e);
    GetFieldOfSpan(content, field, i + |field| + 1, e);
  }

  /** GetField once the span is known and lies inside the text. */
  lemma GetFieldOfSpan(content: string, field: string, a: nat, e: nat)
    requires FieldSpan(content, field) == Some(Span(a, e))
    requires a <= e <= |content|
    ensures GetField(content, field) == Strip(content[a..e])
  {
    assert Slice(content, a, e) == content[a..e];
  }

  /**
   * With `field=` first at `i` and no newline after it, `find` yields -1 and
   * the slice `content[start:-1]` drops the last character of the file: the
   * value is empty when nothing but that character follows the key.
   */
  lemma GetFieldDropsLast(content: string, field: string, i: nat)
    requires FirstFrom(content, field + "=", 0, i)
    requires '\n' !in content[i + |field| + 1..]
    ensures var start := i + |field| + 1;
            GetField(content, field) ==
              if start < |content| - 1 then Strip(content[start..|content| - 1]) else ""
  {
    var start := i + |field| + 1;
    FieldSpanFound(content, field, i);
    assert Find(content, "\n", start) == -1 by {
      forall e | start <= e
        ensures !OccursAt(content, "\n", e)
      {
        if e < |content| {
          assert content[start..][e - start] == content[e];
          assert content[e..e + 1] == [content[e]];
        }
      }
    }
    GetFieldOfOpenSpan(content, field, start);
  }

  /** GetField once the span is known and no newline ends it: the slice stops one short of the end. */
  lemma GetFieldOfOpenSpan(content: string, field: string, a: nat)
    requires FieldSpan(content, field) == Some(Span(a, -1))
    ensures GetField(content, field) ==
              if a < |content| - 1 then Strip(content[a..|content| - 1]) else ""
  {
    assert SliceBound(|content|, -1) == |content| - 1;
    if a < |content| - 1 {
      assert Slice(content, a, -1) == content[a..|content| - 1];
    } else {
      assert Slice(content, a, -1) == "";
      assert Strip("") == "";
    }
  }

  /** `exec_cmd.split('%')[0].strip()`: what comes before the first field code, stripped. */
  function ExecCommand(raw: string): (r: string)
    ensures '%' !in r
    ensures Stripped(r)
    ensures '%' !in raw ==> r == Strip(raw)
  {
    var head := BeforeFirst(raw, '%');
    StripKeepsAbsent(head, '%');
    Strip(head)
  }

  /** The command is the raw `Exec` value up to its first `%`, stripped. */
  lemma ExecBeforeFieldCode(raw: string, i: nat)
    requires i < |raw| && raw[i] == '%' && '%' !in raw[..i]
    ensures ExecCommand(raw) == Strip(raw[..i])
  {

  }

  /** A raw `Exec` value that starts with a field code gives an empty command; the entry is still listed. */
  lemma ExecOfFieldCodeOnly(raw: string)
    requires raw != [] && raw[0] == '%'
    ensures ExecCommand(raw) == ""
  {
    ExecBeforeFieldCode(raw, 0);
  }

  /**
   * What one directory entry contributes to the catalog (launcher.py lines
   * 116-133): nothing unless its name ends in `.desktop`, its text is
   * readable, it nowhere contains `NoDisplay=true`, and both `Name` and the
   * raw `Exec` are non-empty; otherwise the entry built from its fields.
   */
  function EntryOf(f: DirEntry): Option<Entry>
  {
    if !EndsWith(f.name, Extension) then None
    else match f.content
      case None => None
      case Some(content) =>
        if Contains(content, NoDisplayMarker) then None
        else
          var name := GetField(content, "Name");
          var icon := GetField(content, "Icon");
          var raw := GetField(content, "Exec");
          if name != "" && raw != "" then Some(Entry(name, icon, ExecCommand(raw)))
          else None
  }

  /** What EntryOf yields for a readable, unmarked `.desktop` file: decided by `Name` and raw `Exec`. */
  lemma EntryOfReadable(entry: DirEntry, content: string)
    requires EndsWith(entry.name, Extension) && entry.content == Some(content)
    requires !Contains(content, NoDisplayMarker)
    ensures var name, raw := GetField(content, "Name"), GetField(content, "Exec");
            EntryOf(entry) ==
              if name != "" && raw != "" then Some(Entry(name, GetField(content, "Icon"), ExecCommand(raw)))
              else None
  {
  }

  /** An entry is well formed: a non-empty one-line stripped name, and a command free of field codes. */
  predicate WellFormed(e: Entry)
  {
    e.name != "" && '\n' !in e.name && Stripped(e.name)
    && '%' !in e.exec && Stripped(e.exec)
    && '\n' !in e.icon && Stripped(e.icon)
  }

  /** Exactly when a directory entry contributes, and what it then contributes. */
  lemma EntryOfContributes(f: DirEntry)
    ensures EntryOf(f).Some? <==>
              EndsWith(f.name, Extension) && f.content.Some?
              && !Contains(f.content.value, NoDisplayMarker)
              && GetField(f.content.value, "Name") != ""
              && GetField(f.content.value, "Exec") != ""
    ensures EntryOf(f).Some? ==>
              var c := f.content.value;
              EntryOf(f).value == Entry(GetField(c, "Name"), GetField(c, "Icon"), ExecCommand(GetField(c, "Exec")))
              && WellFormed(EntryOf(f).value)
  {
  }

  /** A file marked `NoDisplay=true` anywhere contributes nothing, whatever else it holds. */
  lemma NoDisplayHidden(name: string, content: string)
    requires Contains(content, NoDisplayMarker)
    ensures EntryOf(DirEntry(name, Some(content))) == None
  {
  }

  /** An unreadable file contributes nothing. */
  lemma UnreadableSkipped(name: string)
    ensures EntryOf(DirEntry(name, None)) == None
  {
  }

}
