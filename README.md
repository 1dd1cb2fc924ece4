# A terminal file browser, modelled in Dafny

The program is a single-file ncurses file browser, `main.c`. It lists the
working directory's entries in a bordered window. Entry names run left to
right and wrap two rows down when a name would overflow the window. The
selected entry has a `^` under it. Six keys act:

- `q` quits.
- `b` goes to the parent directory.
- `e` enters the selected directory.
- `s` toggles whether hidden (dot) files are shown.
- `h` moves the selection left.
- `l` moves the selection right.

The model covers four parts of the program:

- **The growable entry array** (`Array`, `array_new`, `array_add`). This is
  the class `Arrays.EntryArray`. Its buffer doubles when it is about to fill,
  so it always keeps one slot spare.
- **The refresh scan.** Each iteration of the main loop rebuilds the entry
  list from the open directory stream when a rescan is pending. A name
  starting with `.` is kept only when hidden files are shown. The model is
  the method `Browser.FileBrowser.Refresh` with its loop, specified by the
  function `Scan.Kept`.
- **The display pass.** This is the method `Browser.FileBrowser.Render`,
  specified by `Layout.Frame` and `Layout.Placements`. The properties of the
  layout are lemmas about those two functions.
- **The key switch.** This is the method `Browser.FileBrowser.HandleKey`,
  specified by the pure function `Keys.Dispatch`.

`Browser.FileBrowser.RunFrame` runs one iteration of the main loop: refresh,
display, then one key.

Modules, one per file:

- `Entries` (`entries.dfy`): the `Dir_Entry` record, the directory records
  `readdir` returns, `strlen`, and the `d_type` switch.
- `Arrays` (`entry_array.dfy`): the entry array and its capacity arithmetic.
- `Scan` (`scan.dfy`): what the refresh scan produces, and lemmas about it.
- `Layout` (`layout.dfy`): where each name and the marker are drawn, and
  lemmas about it.
- `Keys` (`keys.dfy`): the key switch as a function, and lemmas about it.
- `Browser` (`browser.dfy`): `main`'s local state as one object, and the
  loops that act on it.

Two behaviours of the source are kept as they are written:

- `s` rescans but does not reset `selection`. A selection that was in range
  can then point past the end of the shorter list.
  `Browser.ToggleHiddenCanBreakSelectionBound` exhibits this.
  `Keys.SelectionOkUnlessToggled` proves that every other key keeps the
  selection in range.
- `e` reads `entries.buffer[selection]` without comparing `selection` to
  `count`. Resetting the count to 0 keeps the buffer, so past the end of the
  list the slot still holds an entry of an earlier, longer list. `e` acts on
  that entry. The model keeps the whole buffer: `Arrays.EntryArray.Add` and
  `Arrays.SlotsKept` say what every slot holds. `Keys.Dispatch` takes the
  slot that `e` reads. The read itself is always inside the buffer:
  `selection < capacity` is part of `Browser.FileBrowser.Valid`.
  `Browser.EnterAfterHidingReadsLeftoverSlot` runs four frames over a
  directory with ".a" and a subdirectory "b". After `s`, `l` and `s`, the
  list shows "b" alone and no marker is drawn, yet `e` enters "b".

## Model

| member | source | states |
|---|---|---|
| `Entries.Strlen` | main.c:145 | the result is the index of the first NUL of the name buffer: it is within the buffer, that character is NUL, and no earlier one is |
| `Entries.Classify` | main.c:149-158 | `DT_REG` gives a file entry and `DT_DIR` a directory entry, each in both directions |
| `Entries.MakeEntry` | main.c:144-158 | the entry's name is the record's name up to its terminating NUL, with no NUL inside, shorter than the 256-byte buffer; `name_length` is its length; the kind follows `d_type` and is never "none" |
| `Entries.IsHidden` | main.c:137 | defines a hidden record: the first byte of `d_name` is `.` |
| `Entries.HiddenIffDotName` | main.c:137-140 | a record is hidden exactly when the entry built from it has a name starting with `.` |
| `Arrays.EntryArray.constructor` | main.c:40-53 | a new array is empty, with capacity 16 and position 0, and every slot is blank |
| `Arrays.EntryArray.Add` | main.c:55-75 | the item is appended after the entries held so far, which are kept; the count goes up by one; the capacity doubles exactly when `count + 1 >= capacity`; the position is unchanged; one slot stays spare; every other slot keeps what it held, including those past the count, and the slots a doubling adds are blank |
| `Arrays.EntryArray.Grow` | main.c:57-71 | the doubling branch: a buffer of twice the capacity holding the entries so far, blank from the count on; this is taken only when the count is one below the capacity, so no written slot is lost |
| `Arrays.EntryArray.Clear` | main.c:124-127 | setting the count to 0 empties the array and keeps its buffer, every slot included |
| `Arrays.SlotsKeptChain` | main.c:55-75 | what the slots past the count hold, compared with an earlier buffer, stays true across successive runs of appends |
| `Arrays.IsCapacity` | main.c:45-71 | defines the capacities an array can have: 16, or an even number above 16 whose half is one |
| `Arrays.GrownCapacity` | main.c:57-71 | the capacity after an add is either the old one or double it, doubled exactly when `count + 1 >= capacity`, and always more than the new count |
| `Arrays.CapacityAfter` | main.c:40-75 | after `n` adds the capacity exceeds `n` and is reachable from 16 by doubling |
| `Arrays.CapacityIsPowerOfTwoMultiple` | main.c:45-71 | every reachable capacity is 16 times a power of two |
| `Arrays.PowerOfTwoMultipleIsCapacity` | main.c:45-71 | every 16 times a power of two is a reachable capacity |
| `Arrays.CapacityAtMostDouble` | main.c:57-71 | after `n` adds the capacity is at most the larger of 16 and `2 * n` |
| `Browser.FileBrowser.constructor` | main.c:95-106 | the loop starts with the array `array_new` makes (empty, capacity 16, position 0, every slot blank), the stream at its start, selection 0, a rescan pending, hidden files not shown, and the loop running |
| `Browser.FileBrowser.Readdir` | main.c:132-134 | returns the next record of the stream and advances past it, or returns none at the end and stays there |
| `Browser.FileBrowser.Refresh` | main.c:124-164 | afterwards the array holds the scan of the unread records when a rescan was pending; otherwise the buffer, its capacity and every slot are unchanged; the slots past the new count keep what they held, or are blank where the buffer grew; the stream is read to its end on a rescan and one record further otherwise; the flag is cleared and the cursor reset |
| `Browser.FileBrowser.ScanLoop` | main.c:132-162 | the entries appended are the scan of every record from the first one read to the end of the stream |
| `Browser.FileBrowser.ScanStep` | main.c:132-162 | one turn of the loop appends the scan of one more record and reads the next one |
| `Browser.FileBrowser.Admit` | main.c:136-161 | the record's entry is appended exactly when the record is not hidden or hidden files are shown |
| `Scan.Keeps` | main.c:136-140 | defines `add_entry`: a record is kept unless it is hidden, and a hidden one only when hidden files are shown |
| `Scan.Kept` | main.c:132-162 | defines the entry list a scan of the records builds: one record at a time, the record's entry appended when it is kept; it is never longer than the records |
| `Scan.KeptIsOrderedSelection` | main.c:132-162 | the scan keeps exactly the admitted records, in enumeration order: the k-th entry is built from the k-th admitted record, and every admitted record appears |
| `Scan.KeptAllWhenShown` | main.c:136-161 | with hidden files shown, every record is listed at its own position |
| `Scan.KeptHidesDotNames` | main.c:136-140 | with hidden files not shown, no listed name starts with `.` |
| `Scan.HiddenListedIffShown` | main.c:136-142 | a hidden record is listed if and only if hidden files are shown |
| `Scan.VisibleAlwaysListed` | main.c:136-142 | a record that is not hidden is listed whatever the flag |
| `Browser.FileBrowser.Render` | main.c:167-199 | the draws are the layout of the entries from the array's cursor on, with the marker for `selection`; the cursor is at the end afterwards and the drawing position back at (2, 2) |
| `Browser.FileBrowser.DrawEntry` | main.c:170-195 | one entry: it moves two rows down to column 1 if it would overflow, its name is drawn there and underlined for a directory, the marker is drawn one row below when selected, and the position advances by `name_length + 1` |
| `Layout.Place` | main.c:172-176 | defines the wrap rule: an entry that would run past `width` from the cursor goes to column 1, two rows down; otherwise it goes at the cursor |
| `Layout.Advance` | main.c:192-193 | defines the move past an entry: the column advances by `name_length` plus one space |
| `Layout.CursorAfter` | main.c:167-196 | defines where `entry_x`, `entry_y` are after laying out a list: (2, 2) for none, then each entry placed and advanced past in turn |
| `Layout.Placements` | main.c:167-196 | defines where each entry of a list is drawn, one position per entry |
| `Layout.Frame` | main.c:167-196 | defines the draws of a pass: for each entry in turn its name at its placement, underlined for a directory, then the marker one row below when its index is the selection |
| `Layout.FrameLength` | main.c:178-190 | a pass makes one draw per entry, plus one marker exactly when the selection indexes an entry |
| `Layout.FrameExtend` | main.c:167-196 | laying out one more entry appends its draws to those of the entries before it and advances the position past it |
| `Layout.PlacementRule` | main.c:170-193 | entry by entry: the first starts from (2, 2), each later one from the previous position plus `name_length + 1`, moving to column 1 two rows down when it would overflow |
| `Layout.PlacementsPrefix` | main.c:167-196 | the layout of a prefix of the list is the prefix of the layout |
| `Layout.RowsEvenAndNonDecreasing` | main.c:172-176 | every entry is drawn on an even row at least 2 and a column at least 1, and rows never go back up |
| `Layout.OverflowOnlyFromFirstColumn` | main.c:172-176 | an entry extends past the width only when it already starts at column 1 |
| `Layout.CaretMarksSelection` | main.c:187-190 | the marker is drawn exactly once, one row under the selected entry, when the selection indexes an entry, and not at all otherwise |
| `Layout.NamesDrawnInOrder` | main.c:178-185 | every entry's name is drawn once, in list order, at its placement, underlined exactly for a directory |
| `Keys.Dispatch` | main.c:205-262 | only `q` stops the loop, and it does nothing else; only `s` flips the hidden-files flag and rewinds the stream; `b` goes to `..`, and `e` enters the entry in the buffer slot at `selection` exactly when that entry is a directory, listed or not; both reset the selection; a rescan is requested exactly when the directory changes or is rewound; `h` and `l` move the selection one step, clamped to the list; no other key changes anything |
| `Keys.SelectionStaysInBounds` | main.c:245-261 | a selection that indexes the list still indexes it after any key |
| `Keys.LeftClampsAtZero` | main.c:245-252 | `h` pressed `n` times moves the selection back `n`, but not below 0 |
| `Keys.RightClampsAtLast` | main.c:254-261 | `l` pressed `n` times moves the selection forward `n`, but not past the last entry; a selection at or past the last entry stays put |
| `Keys.LeftRightRoundTrip` | main.c:245-261 | `h` then `l` restores the selection away from the first entry, and `l` then `h` away from the last |
| `Keys.ToggleTwiceRestoresFlag` | main.c:237-243 | two `s` presses restore the hidden-files flag and the selection, leaving a rescan requested |
| `Keys.SelectionOkUnlessToggled` | main.c:207-261 | every key except `s` keeps the selection an index of the list, or 0, across a frame, including after a directory change and its rescan |
| `Browser.ToggleHiddenCanBreakSelectionBound` | main.c:237-243 | with ".a" and "b" listed and "b" selected, `s` hides ".a" and leaves the selection past the end of the one-entry list |
| `Browser.FileBrowser.HandleKey` | main.c:204-262 | the flags and selection change as `Keys.Dispatch` says, with `e` reading the buffer slot at `selection`; a directory change replaces the stream with the new directory's listing at its start; `s` rewinds the stream; other keys leave the stream alone |
| `Browser.FileBrowser.RunFrame` | main.c:107-263 | one iteration: the array holds the refresh scan's result, the slots past it keep their old contents, the draws are its layout with the current selection, and the key then acts on the refreshed list and the buffer slot at the selection; the buffer is the old one or a new one, so frames can follow one another |
| `Browser.SampleScans` | main.c:132-162 | the two scans of a directory holding ".a" and a subdirectory "b": both entries with hidden files shown, "b" alone otherwise |
| `Browser.EnterAfterHidingReadsLeftoverSlot` | main.c:222-243 | after `s`, `l` and `s` over that directory, the last frame lists "b" alone and draws no marker, yet `e` reads "b" from slot 1 and changes into it |

## Left out

- Terminal I/O through ncurses is not modelled: `initscr`, windows, `box`,
  `wclear`, `refresh`, `wattron`, `mvwprintw` and `getch`. The window width is a
  parameter, the display pass returns the list of draws it would make, and the
  key is a parameter.
- The window height and `wresize` are left out. The height does not affect
  the layout.
- The working directory is not modelled: `getcwd`, `chdir`, `opendir`,
  `closedir` and `rewinddir`. The directory stream is a sequence of records
  plus a read position. A directory change takes the new directory's listing
  as a parameter, `reopened`. The path `cwd_buffer` drawn in the title is not
  modelled, and neither is whether `chdir` succeeds.
- The stack buffer and the heap buffer are one backing array here. The
  stack-to-heap switch and the `malloc`/`realloc` failure paths are not
  modelled. Neither is the old buffer left behind by `realloc`.
- `d_type` values other than `DT_REG` and `DT_DIR` are excluded by the record
  type. The source leaves the entry's kind uninitialised for them.
- `Entries.MakeEntry`: a record name is at most 256 bytes including its NUL,
  as `struct dirent` guarantees. The model does not capture what `memcpy`
  would do with a longer one.
- The entry name is passed to `mvwprintw` as a format string. The model
  treats it as literal text.
- Names are bytes: each `char` of a record's `d_name` stands for one byte,
  so `name_length` and the layout's column steps count bytes, as `strlen`
  does, not characters or screen columns of a UTF-8 name.
- C `int` arithmetic is unbounded here. Overflow of `count`, `capacity`,
  `entry_x`, `entry_y` and `selection` is not modelled.
- The `while (keep_running)` loop is modelled one iteration at a time by
  `Browser.FileBrowser.RunFrame`. The final `closedir` and `endwin` are left
  out.
- The directory is taken not to change while it is open. `rewinddir` after
  `s` replays the same records, whereas POSIX re-reads the directory as it
  is then.
- `Arrays.CapacityAfter`: this describes adds counted from `array_new`. A
  count reset keeps the capacity, so afterwards the capacity is that of the
  longest list held so far, not `CapacityAfter` of the current count.
- A slot that no scan has written is blank in the model: kind
  DIR_ENTRY_NONE and an empty name. `e` on such a slot does nothing. In the
  source, only `array_new`'s initializer zeroes its inline buffer, and slots
  added by `malloc`/`realloc` are uninitialised. Of those slots, `e` can only
  reach slot 0 while nothing has been listed yet.
- `array_new` returns its array by value with `buffer` pointing at the
  callee's own `stack_buffer`, so the caller's copy points at storage that
  is no longer live. The model has the buffer belong to the array.
- The commented-out right window is not part of the program's behaviour.
