/**
 * The key `switch` at the bottom of the main loop, on the four variables it
 * acts on. Changing directory and rewinding the directory stream are returned
 * as an `Effect` for the caller to carry out.
 */
module Keys {
  import opened Entries

  const KEY_QUIT: int := 'q' as int
  const KEY_PARENT: int := 'b' as int
  const KEY_ENTER: int := 'e' as int
  const KEY_TOGGLE_HIDDEN: int := 's' as int
  const KEY_LEFT: int := 'h' as int
  const KEY_RIGHT: int := 'l' as int

  datatype Controls = Controls(
    selection: int,
    showHiddenFiles: bool,
    updateDirectoryEntries: bool,
    keepRunning: bool)

  /** `chdir` to `path` and reopen the new working directory, or `rewinddir` the current one. */
  datatype Effect = NoEffect | ChangeDirectory(path: string) | RewindDirectory

  datatype Response = Response(next: Controls, effect: Effect)

  /**
   * One key press over the listed `entries`. `e` reads the buffer slot at
   * `selection` without comparing it to the count: `slot` is what that slot
   * holds, which is a listed entry or, past the end of the list, one an
   * earlier, longer list left there.
   */
  function Dispatch(c: Controls, key: int, entries: seq<DirEntry>, slot: DirEntry): (r: Response)
    // only `q` stops the loop, and it does nothing else
    ensures r.next.keepRunning == (c.keepRunning && key != KEY_QUIT)
    ensures key == KEY_QUIT ==> r == Response(c.(keepRunning := false), NoEffect)
    // only `s` flips the hidden-files flag
    ensures r.next.showHiddenFiles == (c.showHiddenFiles != (key == KEY_TOGGLE_HIDDEN))
    // a rescan is requested exactly when the directory changes or is rewound
    ensures r.next.updateDirectoryEntries == (c.updateDirectoryEntries || r.effect != NoEffect)
    ensures r.effect.ChangeDirectory? <==>
      key == KEY_PARENT || (key == KEY_ENTER && slot.kind == Directory)
    ensures key == KEY_PARENT ==> r.effect == ChangeDirectory("..")
    ensures key == KEY_ENTER && r.effect.ChangeDirectory? ==> r.effect.path == slot.name
    ensures r.effect == RewindDirectory <==> key == KEY_TOGGLE_HIDDEN
    // navigation resets the selection; only `h` and `l` move it otherwise
    ensures r.effect.ChangeDirectory? ==> r.next.selection == 0
    ensures !r.effect.ChangeDirectory? && key != KEY_LEFT && key != KEY_RIGHT ==> r.next.selection == c.selection
    ensures key == KEY_LEFT ==> r.next.selection == (if c.selection > 0 then c.selection - 1 else c.selection)
    ensures key == KEY_RIGHT ==> r.next.selection == (if c.selection < |entries| - 1 then c.selection + 1 else c.selection)
    ensures c.selection >= 0 ==> r.next.selection >= 0
  {
    if key == KEY_QUIT then
      Response(c.(keepRunning := false), NoEffect)
    else if key == KEY_PARENT then
      Response(c.(updateDirectoryEntries := true, selection := 0), ChangeDirectory(".."))
    else if key == KEY_ENTER then
      if slot.kind == Directory then
        Response(c.(updateDirectoryEntries := true, selection := 0), ChangeDirectory(slot.name))
      else
        Response(c, NoEffect)
    else if key == KEY_TOGGLE_HIDDEN then
      Response(c.(showHiddenFiles := !c.showHiddenFiles, updateDirectoryEntries := true), RewindDirectory)
    else if key == KEY_LEFT then
      Response(c.(selection := if c.selection > 0 then c.selection - 1 else c.selection), NoEffect)
    else if key == KEY_RIGHT then
      Response(c.(selection := if c.selection < |entries| - 1 then c.selection + 1 else c.selection), NoEffect)
    else
      Response(c, NoEffect)
  }

  /** No key moves a selection that indexes `entries` out of `entries`. */
  lemma SelectionStaysInBounds(c: Controls, key: int, entries: seq<DirEntry>, slot: DirEntry)
    requires 0 <= c.selection < |entries|
    ensures 0 <= Dispatch(c, key, entries, slot).next.selection < |entries|
  {
  }

  /** `key` pressed `n` times over the same entry list (`h` and `l` do not read the slot). */
  function Repeat(c: Controls, key: int, n: nat, entries: seq<DirEntry>): Controls
    requires key == KEY_LEFT || key == KEY_RIGHT
    decreases n
  {
    if n == 0 then c else Repeat(Dispatch(c, key, entries, BLANK_ENTRY).next, key, n - 1, entries)
  }

  /** `h` clamps at 0: pressed `n` times it moves the selection `n` back, but not below 0. */
  lemma {:induction false} LeftClampsAtZero(c: Controls, n: nat, entries: seq<DirEntry>)
    requires c.selection >= 0
    decreases n
    ensures Repeat(c, KEY_LEFT, n, entries) == c.(selection := if c.selection >= n then c.selection - n else 0)
  {
    if n > 0 {
      LeftClampsAtZero(Dispatch(c, KEY_LEFT, entries, BLANK_ENTRY).next, n - 1, entries);
    }
  }

  /**
   * `l` clamps at the last entry: pressed `n` times it moves the selection `n`
   * forward, but not past `count - 1`; a selection already at or past the last
   * entry stays where it is.
   */
  lemma {:induction false} RightClampsAtLast(c: Controls, n: nat, entries: seq<DirEntry>)
    ensures Repeat(c, KEY_RIGHT, n, entries) ==
      if c.selection >= |entries| - 1 then c
      else c.(selection := if c.selection + n <= |entries| - 1 then c.selection + n else |entries| - 1)
    decreases n
  {
    if n > 0 {
      RightClampsAtLast(Dispatch(c, KEY_RIGHT, entries, BLANK_ENTRY).next, n - 1, entries);
    }
  }

  /** `h` then `l` is the identity away from the first entry; `l` then `h` away from the last. */
  lemma LeftRightRoundTrip(c: Controls, entries: seq<DirEntry>, slot: DirEntry, slot': DirEntry)
    requires 0 <= c.selection < |entries|
    ensures c.selection > 0 ==>
      Dispatch(Dispatch(c, KEY_LEFT, entries, slot).next, KEY_RIGHT, entries, slot').next == c
    ensures c.selection < |entries| - 1 ==>
      Dispatch(Dispatch(c, KEY_RIGHT, entries, slot).next, KEY_LEFT, entries, slot').next == c
  {
  }

  /** Two `s` presses restore the hidden-files flag and keep the selection. */
  lemma ToggleTwiceRestoresFlag(c: Controls, entries: seq<DirEntry>, slot: DirEntry, slot': DirEntry)
    ensures var twice := Dispatch(Dispatch(c, KEY_TOGGLE_HIDDEN, entries, slot).next, KEY_TOGGLE_HIDDEN, entries, slot').next;
      twice == c.(updateDirectoryEntries := true)
  {
  }

  /** The selection invariant: non-negative, and an index of the list whenever the list is not empty. */
  predicate SelectionOk(selection: int, count: int)
  {
    0 <= selection && (count > 0 ==> selection < count)
  }

  /**
   * Every key but `s` keeps the selection invariant across a frame: against
   * the same list when no rescan is requested, and against whatever list the
   * rescan after a directory change produces, since navigation resets the
   * selection to 0.
   */
  lemma SelectionOkUnlessToggled(c: Controls, key: int, entries: seq<DirEntry>, slot: DirEntry, rescanned: seq<DirEntry>)
    requires !c.updateDirectoryEntries && key != KEY_TOGGLE_HIDDEN
    requires SelectionOk(c.selection, |entries|)
    ensures var r := Dispatch(c, key, entries, slot);
      SelectionOk(r.next.selection, if r.next.updateDirectoryEntries then |rescanned| else |entries|)
  {
  }
}
