/**
 * The state `main` keeps across iterations of its loop, as one object: the
 * entry array, the open directory stream, the selection and flags, and the
 * drawing cursor. Each frame rescans the directory when asked to, lays the
 * entries out, and reacts to one key.
 *
 * The directory stream is the sequence of records `readdir` would return and
 * a read position. The terminal is left out: the window width is a parameter,
 * the drawing is returned as a list of draws, and the key `getch` returns is
 * a parameter. Changing directory is a parameter too: `reopened` is what the
 * stream of the working directory holds after `chdir` and `opendir`.
 */
module Browser {
  import opened Entries
  import opened Arrays
  import opened Scan
  import opened Layout
  import opened Keys

  datatype Option<T> = None | Some(value: T)

  class FileBrowser {
    const entries: EntryArray
    /** The records of the open directory stream, and how many `readdir` has returned. */
    var stream: seq<Dirent>
    var streamPos: nat
    var selection: int
    var showHiddenFiles: bool
    var updateDirectoryEntries: bool
    var keepRunning: bool
    var entryX: int
    var entryY: int

    ghost predicate Valid()
      reads this, entries
    {
      && entries.Valid()
      && streamPos <= |stream| && AllWellFormed(stream)
      && 0 <= selection < entries.buffer.Length
      && Point(entryX, entryY) == ORIGIN
    }

    /** The variables the key switch acts on. */
    ghost function State(): Controls
      reads this
    {
      Controls(selection, showHiddenFiles, updateDirectoryEntries, keepRunning)
    }

    /** The entry list the next refresh scan leaves: a fresh scan of the unread records, or the list as it is. */
    ghost function ScanResult(): seq<DirEntry>
      reads this, entries, entries.buffer
      requires Valid()
    {
      if updateDirectoryEntries then Kept(stream[streamPos..], showHiddenFiles) else entries.Contents()
    }

    /** The stream position the next refresh scan leaves (its first `readdir` runs even without a rescan). */
    ghost function PosAfterScan(): nat
      reads this
    {
      if updateDirectoryEntries || streamPos >= |stream| then |stream| else streamPos + 1
    }

    /** The set-up before the loop: an empty array, a rescan pending, hidden files not shown. */
    constructor (listing: seq<Dirent>)
      requires AllWellFormed(listing)
      ensures Valid() && fresh(entries) && fresh(entries.buffer)
      ensures entries.Contents() == [] && stream == listing && streamPos == 0
      ensures entries.capacity == INITIAL_CAPACITY && entries.position == 0
      ensures forall i :: 0 <= i < entries.buffer.Length ==> entries.buffer[i] == BLANK_ENTRY
      ensures State() == Controls(0, false, true, true)
    {
      entries := new EntryArray();
      stream := listing;
      streamPos := 0;
      entryX, entryY := 2, 2;
      updateDirectoryEntries := true;
      showHiddenFiles := false;
      selection := 0;
      keepRunning := true;
    }

    /** `readdir`: the next record of the stream, or none at its end. */
    method Readdir() returns (ent: Option<Dirent>)
      requires streamPos <= |stream|
      modifies this`streamPos
      ensures old(streamPos) < |stream| ==> ent == Some(stream[old(streamPos)]) && streamPos == old(streamPos) + 1
      ensures old(streamPos) == |stream| ==> ent == None && streamPos == old(streamPos)
    {
      if streamPos < |stream| {
        ent := Some(stream[streamPos]);
        streamPos := streamPos + 1;
      } else {
        ent := None;
      }
    }

    /**
     * The refresh scan: when a rescan is pending, the array is emptied and
     * refilled from the rest of the stream, keeping a hidden name only when
     * hidden files are shown; in any case the flag is cleared afterwards and
     * the array's cursor is reset.
     */
    method Refresh()
      requires Valid()
      modifies this, entries, entries.buffer
      ensures Valid()
      ensures entries.Contents() == old(ScanResult())
      ensures streamPos == old(PosAfterScan())
      ensures !updateDirectoryEntries && entries.position == 0
      ensures stream == old(stream) && selection == old(selection)
      ensures showHiddenFiles == old(showHiddenFiles) && keepRunning == old(keepRunning)
      ensures entries.buffer == old(entries.buffer) || fresh(entries.buffer)
      ensures SlotsKept(old(entries.buffer[..]), entries.buffer[..], entries.count)
      ensures !old(updateDirectoryEntries) ==>
        entries.buffer == old(entries.buffer) && entries.capacity == old(entries.capacity) && entries.buffer[..] == old(entries.buffer[..])
    {
      if updateDirectoryEntries {
        entries.Clear();
      }
      entries.position := 0;
      var ent := Readdir();
      // the loop runs `while (update_directory_entries && ent)`; the flag is fixed inside it
      if updateDirectoryEntries {
        ScanLoop(ent);
      }
      updateDirectoryEntries := false;
    }

    /**
     * The loop of the refresh scan, entered with the record its first
     * `readdir` returned: every record from that one to the end of the stream
     * is admitted or skipped.
     */
    method ScanLoop(first: Option<Dirent>)
      requires Valid()
      requires first.Some? ==> 0 < streamPos && first.value == stream[streamPos - 1]
      requires first.None? ==> streamPos == |stream|
      requires entries.Contents() == []
      modifies this`streamPos, entries, entries.buffer
      ensures Valid() && entries.position == old(entries.position)
      ensures entries.buffer == old(entries.buffer) || fresh(entries.buffer)
      ensures SlotsKept(old(entries.buffer[..]), entries.buffer[..], entries.count)
      ensures var from := if first.Some? then old(streamPos) - 1 else old(streamPos);
        entries.Contents() == Kept(stream[from..], showHiddenFiles)
      ensures streamPos == |stream|
    {
      var ent := first;
      ghost var start := if first.Some? then streamPos - 1 else streamPos;
      ghost var done := start;
      ghost var slots0 := entries.buffer[..];
      while ent.Some?
        invariant entries.Valid() && entries.position == old(entries.position)
        invariant entries.buffer == old(entries.buffer) || fresh(entries.buffer)
        invariant SlotsKept(slots0, entries.buffer[..], entries.count)
        invariant start <= done <= streamPos <= |stream|
        invariant ent.Some? ==> done + 1 == streamPos && ent.value == stream[done]
        invariant ent.None? ==> done == streamPos == |stream|
        invariant entries.Contents() == Kept(stream[start..done], showHiddenFiles)
        decreases |stream| - done
      {
        ent := ScanStep(ent.value, start, done, slots0);
        done := done + 1;
      }
      assert stream[start..done] == stream[start..];
    }

    /**
     * One turn of the scan loop: admit or skip the record at `done`, then
     * `readdir` the next one. `slots0` is the buffer as the loop found it.
     */
    method ScanStep(d: Dirent, ghost start: nat, ghost done: nat, ghost slots0: seq<DirEntry>) returns (ent: Option<Dirent>)
      requires entries.Valid() && AllWellFormed(stream)
      requires SlotsKept(slots0, entries.buffer[..], entries.count)
      requires start <= done < |stream| && done + 1 == streamPos && d == stream[done]
      requires entries.Contents() == Kept(stream[start..done], showHiddenFiles)
      modifies this`streamPos, entries, entries.buffer
      ensures entries.Valid() && entries.position == old(entries.position)
      ensures entries.buffer == old(entries.buffer) || fresh(entries.buffer)
      ensures SlotsKept(slots0, entries.buffer[..], entries.count)
      ensures ent.Some? ==> done + 2 == streamPos <= |stream| && ent.value == stream[done + 1]
      ensures ent.None? ==> done + 1 == streamPos == |stream|
      ensures entries.Contents() == Kept(stream[start..done + 1], showHiddenFiles)
    {
      KeptExtend(stream, start, done, showHiddenFiles);
      ghost var slots, held := entries.buffer[..], entries.count;
      Admit(d);
      SlotsKeptChain(slots0, slots, entries.buffer[..], held, entries.count);
      ent := Readdir();
    }

    /** The body of the scan loop: append the record's entry unless it is hidden and hidden files are not shown. */
    method Admit(d: Dirent)
      requires entries.Valid() && WellFormed(d)
      modifies entries, entries.buffer
      ensures entries.Valid() && entries.position == old(entries.position)
      ensures entries.Contents() == old(entries.Contents()) + (if Keeps(d, showHiddenFiles) then [MakeEntry(d)] else [])
      ensures entries.buffer == old(entries.buffer) || fresh(entries.buffer)
      ensures SlotsKept(old(entries.buffer[..]), entries.buffer[..], entries.count)
    {
      var addEntry := true;
      if d.dName[0] == '.' {
        addEntry := showHiddenFiles;
      }
      if addEntry {
        // name_length = strlen(d_name), the name copied and terminated, the kind from d_type
        entries.Add(MakeEntry(d));
      }
    }

    /**
     * The display pass: every entry from the array's cursor on is drawn where
     * the layout puts it, the marker under the one whose index equals
     * `selection`; the cursor is back at (2, 2) afterwards.
     */
    method Render(width: int) returns (draws: seq<Draw>)
      requires Valid()
      modifies this`entryX, this`entryY, entries`position
      ensures Valid()
      ensures draws == Frame(old(entries.Remaining()), width, selection)
      ensures entries.position == if old(entries.position) <= entries.count then entries.count else old(entries.position)
      ensures entries.Contents() == old(entries.Contents())
    {
      ghost var visit := entries.Remaining();
      ghost var start := entries.position;
      var i := 0;
      draws := [];
      while entries.position < entries.count
        invariant entries.Valid() && 0 <= i <= |visit|
        invariant entries.position == start + i
        invariant i < |visit| <==> entries.position < entries.count
        invariant draws == Frame(visit[..i], width, selection)
        invariant Point(entryX, entryY) == CursorAfter(visit[..i], width)
        decreases entries.count - entries.position
      {
        var it := entries.buffer[entries.position];
        assert it == visit[i];
        FrameExtend(visit, width, selection, i);
        var ds := DrawEntry(it, i, width);
        draws := draws + ds;
        i := i + 1;
        entries.position := entries.position + 1;
      }
      assert visit[..i] == visit;
      entryY := 2;
      entryX := 2;
    }

    /**
     * The body of the display pass for the `i`-th entry: wrap if it would
     * overflow, draw its name, draw the marker under it if it is selected,
     * and move the cursor past it and one space.
     */
    method DrawEntry(it: DirEntry, i: int, width: int) returns (ds: seq<Draw>)
      modifies this`entryX, this`entryY
      ensures var p := Place(old(Point(entryX, entryY)), it.nameLength, width);
        && ds == EntryDraws(p, it, selection == i)
        && Point(entryX, entryY) == Advance(p, it.nameLength)
    {
      if entryX + it.nameLength > width {
        entryY := entryY + 2;
        entryX := 1;
      }
      ds := [Name(Point(entryX, entryY), it.name, it.kind == Directory)];
      if selection == i {
        ds := ds + [Caret(Point(entryX, entryY + 1))];
      }
      entryX := entryX + it.nameLength;
      entryX := entryX + 1; // the space between entries
    }

    /**
     * The key switch. `b`, and `e` on a directory, change directory: the
     * stream becomes the listing of the new working directory and a rescan
     * is requested with the selection reset; `s` flips the hidden-files flag,
     * rewinds the stream and requests a rescan, leaving the selection alone.
     */
    method HandleKey(key: int, reopened: seq<Dirent>)
      requires Valid() && AllWellFormed(reopened)
      modifies this
      ensures Valid()
      ensures var r := Dispatch(old(State()), key, old(entries.Contents()), old(entries.buffer[selection]));
        && State() == r.next
        && (r.effect.ChangeDirectory? ==> stream == reopened && streamPos == 0)
        && (r.effect == RewindDirectory ==> stream == old(stream) && streamPos == 0)
        && (r.effect == NoEffect ==> stream == old(stream) && streamPos == old(streamPos))
    {
      if key == KEY_QUIT {
        keepRunning := false;
      } else if key == KEY_PARENT {
        // chdir(".."), closedir, getcwd, opendir
        stream, streamPos := reopened, 0;
        updateDirectoryEntries := true;
        selection := 0;
      } else if key == KEY_ENTER {
        // the slot at `selection`, whether or not it lies before `count`
        var entry := entries.buffer[selection];
        if entry.kind == Directory {
          // chdir(entry->name), closedir, getcwd, opendir
          stream, streamPos := reopened, 0;
          updateDirectoryEntries := true;
          selection := 0;
        }
      } else if key == KEY_TOGGLE_HIDDEN {
        showHiddenFiles := !showHiddenFiles;
        streamPos := 0;
        updateDirectoryEntries := true;
      } else if key == KEY_LEFT {
        if selection > 0 {
          selection := selection - 1;
        }
      } else if key == KEY_RIGHT {
        if selection < entries.count - 1 {
          selection := selection + 1;
        }
      }
    }

    /** One iteration of the main loop: refresh scan, display pass, one key. */
    method RunFrame(width: int, key: int, reopened: seq<Dirent>) returns (draws: seq<Draw>)
      requires Valid() && keepRunning && AllWellFormed(reopened)
      modifies this, entries, entries.buffer
      ensures Valid()
      ensures entries.buffer == old(entries.buffer) || fresh(entries.buffer)
      ensures entries.Contents() == old(ScanResult()) && SlotsKept(old(entries.buffer[..]), entries.buffer[..], entries.count)
      ensures draws == Frame(old(ScanResult()), width, old(selection))
      ensures var r := Dispatch(old(State()).(updateDirectoryEntries := false), key, old(ScanResult()), entries.buffer[old(selection)]);
        && State() == r.next
        && (r.effect.ChangeDirectory? ==> stream == reopened && streamPos == 0)
        && (r.effect == RewindDirectory ==> stream == old(stream) && streamPos == 0)
        && (r.effect == NoEffect ==> stream == old(stream) && streamPos == old(PosAfterScan()))
    {
      Refresh();
      assert entries.Remaining() == entries.Contents();
      draws := Render(width);
      HandleKey(key, reopened);
    }
  }

  /**
   * `s` does not touch the selection, so a selection that indexed the list
   * before can point past its end after the rescan: here the last of two
   * entries is selected and hiding ".a" leaves a single entry.
   */
  lemma ToggleHiddenCanBreakSelectionBound()
    ensures AllWellFormed(SampleListing())
    ensures var rs := SampleListing();
      var before := Kept(rs, true);
      var c := Controls(1, true, false, true);
      var r := Dispatch(c, KEY_TOGGLE_HIDDEN, before, before[1]);
      && SelectionOk(c.selection, |before|)
      && r.effect == RewindDirectory && r.next.updateDirectoryEntries
      && !SelectionOk(r.next.selection, |Kept(rs, r.next.showHiddenFiles)|)
  {
    SampleScans();
  }

  /** A directory holding a hidden regular file ".a" and a subdirectory "b", in that order. */
  function SampleListing(): seq<Dirent>
  {
    [Dirent(['.', 'a', '\0'], DtReg), Dirent(['b', '\0'], DtDir)]
  }

  /** The two scans of the sample directory. */
  lemma SampleScans()
    ensures AllWellFormed(SampleListing())
    ensures Kept(SampleListing(), true) == [DirEntry(File, ['.', 'a'], 2), DirEntry(Directory, ['b'], 1)]
    ensures Kept(SampleListing(), false) == [DirEntry(Directory, ['b'], 1)]
  {
    var rs := SampleListing();
    var a, b := DirEntry(File, ['.', 'a'], 2), DirEntry(Directory, ['b'], 1);
    assert rs[0].dName[1..] == ['a', '\0'] && rs[0].dName[1..][1..] == ['\0'] && rs[1].dName[1..] == ['\0'];
    assert Strlen(rs[0].dName) == 2 && Strlen(rs[1].dName) == 1;
    assert rs[0].dName[..2] == a.name && rs[1].dName[..1] == b.name;
    assert MakeEntry(rs[0]) == a && MakeEntry(rs[1]) == b;
    assert IsHidden(rs[0]) && !IsHidden(rs[1]);
    assert rs[..1] == [rs[0]] && [rs[0]][..0] == [];
    assert Kept([rs[0]], true) == [a] && Kept([rs[0]], false) == [];
  }

  /** The browser over the sample directory, with `c` as its variables and `contents` listed. */
  ghost predicate SampleAt(fb: FileBrowser, c: Controls, contents: seq<DirEntry>, pos: nat)
    reads fb, fb.entries, fb.entries.buffer
  {
    fb.Valid() && fb.stream == SampleListing() && fb.streamPos == pos && fb.State() == c && fb.entries.Contents() == contents
  }

  /** First frame: the scan lists "b" only, and `s` shows hidden files. */
  method SampleShowHidden(fb: FileBrowser)
    requires SampleAt(fb, Controls(0, false, true, true), [], 0)
    modifies fb, fb.entries, fb.entries.buffer
    ensures SampleAt(fb, Controls(0, true, true, true), [DirEntry(Directory, ['b'], 1)], 0)
    ensures fb.entries.buffer == old(fb.entries.buffer) || fresh(fb.entries.buffer)
  {
    SampleScans();
    assert fb.stream[0..] == fb.stream;
    var draws := fb.RunFrame(80, KEY_TOGGLE_HIDDEN, fb.stream);
  }

  /** Second frame: the scan lists ".a" and "b", and `l` selects "b". */
  method SampleSelectSecond(fb: FileBrowser)
    requires SampleAt(fb, Controls(0, true, true, true), [DirEntry(Directory, ['b'], 1)], 0)
    modifies fb, fb.entries, fb.entries.buffer
    ensures SampleAt(fb, Controls(1, true, false, true), [DirEntry(File, ['.', 'a'], 2), DirEntry(Directory, ['b'], 1)], 2)
    ensures fb.entries.buffer == old(fb.entries.buffer) || fresh(fb.entries.buffer)
  {
    SampleScans();
    assert fb.stream[0..] == fb.stream;
    var draws := fb.RunFrame(80, KEY_RIGHT, fb.stream);
  }

  /** Third frame: no rescan, and `s` hides hidden files again, leaving the selection at 1. */
  method SampleHideHidden(fb: FileBrowser)
    requires SampleAt(fb, Controls(1, true, false, true), [DirEntry(File, ['.', 'a'], 2), DirEntry(Directory, ['b'], 1)], 2)
    modifies fb, fb.entries, fb.entries.buffer
    ensures SampleAt(fb, Controls(1, false, true, true), [DirEntry(File, ['.', 'a'], 2), DirEntry(Directory, ['b'], 1)], 0)
    ensures fb.entries.buffer == old(fb.entries.buffer) || fresh(fb.entries.buffer)
  {
    var draws := fb.RunFrame(80, KEY_TOGGLE_HIDDEN, fb.stream);
  }

  /**
   * Fourth frame: the rescan lists "b" alone and draws no marker, since the
   * selection is 1; `e` reads slot 1, which still holds "b", and enters it.
   */
  method SampleEnterLeftover(fb: FileBrowser, reopened: seq<Dirent>) returns (last: seq<Draw>)
    requires SampleAt(fb, Controls(1, false, true, true), [DirEntry(File, ['.', 'a'], 2), DirEntry(Directory, ['b'], 1)], 0)
    requires AllWellFormed(reopened)
    modifies fb, fb.entries, fb.entries.buffer
    ensures fb.Valid() && fb.entries.count == 1 && fb.entries.buffer[1] == DirEntry(Directory, ['b'], 1)
    ensures last == [Name(ORIGIN, ['b'], true)] && CaretCount(last) == 0
    ensures fb.stream == reopened && fb.streamPos == 0
    ensures fb.State() == Controls(0, false, true, true)
  {
    SampleScans();
    var b := DirEntry(Directory, ['b'], 1);
    assert fb.entries.buffer[1] == b;
    assert fb.stream[0..] == fb.stream;
    last := fb.RunFrame(80, KEY_ENTER, reopened);
    assert fb.entries.Contents() == [b];
    CaretMarksSelection([b], 80, 1);
  }

  /**
   * Four frames over the sample directory. `s` shows hidden files, `l`
   * selects "b", and `s` hides them again, so the last rescan lists "b" alone
   * and leaves the selection at 1. No marker is drawn, yet `e` reads slot 1,
   * which still holds "b" from the longer list, and enters that directory.
   */
  method EnterAfterHidingReadsLeftoverSlot(reopened: seq<Dirent>) returns (fb: FileBrowser, last: seq<Draw>)
    requires AllWellFormed(reopened)
    ensures fb.Valid() && fb.entries.count == 1 && fb.entries.buffer[1] == DirEntry(Directory, ['b'], 1)
    ensures last == [Name(ORIGIN, ['b'], true)] && CaretCount(last) == 0
    ensures fb.stream == reopened && fb.streamPos == 0
    ensures fb.State() == Controls(0, false, true, true)
  {
    SampleScans();
    fb := new FileBrowser(SampleListing());
    SampleShowHidden(fb);
    SampleSelectSecond(fb);
    SampleHideHidden(fb);
    last := SampleEnterLeftover(fb, reopened);
  }
}
