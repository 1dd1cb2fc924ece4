/**
 * The listing's layout: where the display pass of the main loop writes each
 * entry name and the `^` selection marker. A pass starts at column 2, row 2;
 * an entry that would run past `width` goes two rows down, to column 1; after
 * each entry the column advances by its `name_length` plus one space.
 */
module Layout {
  import opened Entries

  datatype Point = Point(x: int, y: int)

  /** One `mvwprintw` of the pass: an entry name (underlined for a directory) or the marker. */
  datatype Draw = Name(at: Point, text: string, underline: bool) | Caret(at: Point)

  /** `entry_x`, `entry_y` before and after every pass. */
  const ORIGIN: Point := Point(2, 2)

  /** Where an entry of length `len` goes from `cursor`: two rows down, column 1, if it would overflow. */
  function Place(cursor: Point, len: nat, width: int): Point
  {
    if cursor.x + len > width then Point(1, cursor.y + 2) else cursor
  }

  /** The cursor after drawing an entry of length `len` at `p`. */
  function Advance(p: Point, len: nat): Point
  {
    Point(p.x + len + 1, p.y)
  }

  /** The cursor after laying out `es`. */
  function CursorAfter(es: seq<DirEntry>, width: int): Point
  {
    if es == [] then ORIGIN
    else
      var last := es[|es| - 1];
      Advance(Place(CursorAfter(es[..|es| - 1], width), last.nameLength, width), last.nameLength)
  }

  /** The position of each entry of `es`. */
  function Placements(es: seq<DirEntry>, width: int): (ps: seq<Point>)
    ensures |ps| == |es|
  {
    if es == [] then []
    else
      var front := es[..|es| - 1];
      Placements(front, width) + [Place(CursorAfter(front, width), es[|es| - 1].nameLength, width)]
  }

  /** What the pass draws for one entry placed at `p`: its name, then the marker if it is the selected one. */
  function EntryDraws(p: Point, e: DirEntry, selected: bool): seq<Draw>
  {
    [Name(p, e.name, e.kind == Directory)] + (if selected then [Caret(Point(p.x, p.y + 1))] else [])
  }

  /** The draws of a pass over `es` with `selection` marked. */
  function Frame(es: seq<DirEntry>, width: int, selection: int): seq<Draw>
  {
    if es == [] then []
    else
      var front := es[..|es| - 1];
      var p := Place(CursorAfter(front, width), es[|es| - 1].nameLength, width);
      Frame(front, width, selection) + EntryDraws(p, es[|es| - 1], selection == |front|)
  }

  /** A pass makes one draw per entry, plus the marker when the selection indexes an entry. */
  lemma {:induction false} FrameLength(es: seq<DirEntry>, width: int, selection: int)
    ensures |Frame(es, width, selection)| == |es| + (if 0 <= selection < |es| then 1 else 0)
  {
    if es != [] {
      FrameLength(es[..|es| - 1], width, selection);
    }
  }

  /** Laying out one more entry: its name, its marker if it is the selected one, and the cursor moved past it. */
  lemma FrameExtend(es: seq<DirEntry>, width: int, selection: int, k: nat)
    requires k < |es|
    ensures var p := Place(CursorAfter(es[..k], width), es[k].nameLength, width);
      && Frame(es[..k + 1], width, selection) == Frame(es[..k], width, selection) + EntryDraws(p, es[k], selection == k)
      && CursorAfter(es[..k + 1], width) == Advance(p, es[k].nameLength)
  {
    assert es[..k + 1][..k] == es[..k];
  }

  /** A layout of a prefix is the prefix of the layout. */
  lemma {:induction false} PlacementsPrefix(es: seq<DirEntry>, width: int, k: nat)
    requires k <= |es|
    ensures Placements(es[..k], width) == Placements(es, width)[..k]
    decreases |es|
  {
    if k < |es| {
      var front := es[..|es| - 1];
      assert es[..k] == front[..k];
      PlacementsPrefix(front, width, k);
    } else {
      assert es[..k] == es;
    }
  }

  /**
   * The placement rule, entry by entry: the first candidate position is (2, 2),
   * each later one is the previous position advanced by `name_length + 1`, and
   * an entry that would overflow `width` from there goes to column 1, two rows down.
   */
  lemma PlacementRule(es: seq<DirEntry>, width: int, i: nat)
    requires i < |es|
    ensures var ps := Placements(es, width);
      var cursor := if i == 0 then ORIGIN else Advance(ps[i - 1], es[i - 1].nameLength);
      ps[i] == Place(cursor, es[i].nameLength, width)
  {
    var ps := Placements(es, width);
    PlacementsPrefix(es, width, i + 1);
    var pre := es[..i + 1];
    assert pre[..i] == es[..i];
    if i > 0 {
      PlacementsPrefix(es, width, i);
      assert es[..i][..i - 1] == es[..i - 1];
    }
  }

  /** Rows of a pass are even, at least 2, and never go back up. */
  lemma {:induction false} RowsEvenAndNonDecreasing(es: seq<DirEntry>, width: int)
    ensures var ps := Placements(es, width);
      && (forall i :: 0 <= i < |ps| ==> ps[i].y >= 2 && ps[i].y % 2 == 0 && ps[i].x >= 1)
      && (forall i, j :: 0 <= i <= j < |ps| ==> ps[i].y <= ps[j].y)
      && (es != [] ==> ps[|ps| - 1].y <= CursorAfter(es, width).y)
    ensures var c := CursorAfter(es, width);
      c.y >= 2 && c.y % 2 == 0 && c.x >= 1
  {
    if es != [] {
      var front := es[..|es| - 1];
      RowsEvenAndNonDecreasing(front, width);
    }
  }

  /** An entry runs past `width` only when it starts at column 1, i.e. it is wider than a whole row. */
  lemma OverflowOnlyFromFirstColumn(es: seq<DirEntry>, width: int, i: nat)
    requires i < |es|
    ensures var p := Placements(es, width)[i];
      p.x + es[i].nameLength > width ==> p.x == 1
  {
    PlacementRule(es, width, i);
  }

  /** How many markers a list of draws holds. */
  function CaretCount(ds: seq<Draw>): nat
  {
    if ds == [] then 0 else CaretCount(ds[..|ds| - 1]) + (if ds[|ds| - 1].Caret? then 1 else 0)
  }

  lemma CaretCountAppend(a: seq<Draw>, b: seq<Draw>)
    ensures CaretCount(a + b) == CaretCount(a) + CaretCount(b)
    decreases |b|
  {
    if b != [] {
      assert (a + b)[..|a + b| - 1] == a + b[..|b| - 1];
      CaretCountAppend(a, b[..|b| - 1]);
    } else {
      assert a + b == a;
    }
  }

  lemma EntryDrawsCarets(p: Point, e: DirEntry, selected: bool)
    ensures CaretCount(EntryDraws(p, e, selected)) == if selected then 1 else 0
    ensures forall d :: d in EntryDraws(p, e, selected) && d.Caret? ==> selected && d.at == Point(p.x, p.y + 1)
  {
    var name := [Name(p, e.name, e.kind == Directory)];
    var mark := if selected then [Caret(Point(p.x, p.y + 1))] else [];
    CaretCountAppend(name, mark);
    assert name[..0] == [];
    if selected {
      assert mark[..0] == [];
    }
  }

  /**
   * The marker is drawn once, one row under the selected entry, when the
   * selection indexes an entry, and not at all otherwise.
   */
  lemma {:induction false} CaretMarksSelection(es: seq<DirEntry>, width: int, selection: int)
    ensures var ds, ps := Frame(es, width, selection), Placements(es, width);
      && CaretCount(ds) == (if 0 <= selection < |es| then 1 else 0)
      && (forall d :: d in ds && d.Caret? ==> 0 <= selection < |es| && d.at == Point(ps[selection].x, ps[selection].y + 1))
      && (0 <= selection < |es| ==> Caret(Point(ps[selection].x, ps[selection].y + 1)) in ds)
  {
    if es != [] {
      var front := es[..|es| - 1];
      CaretMarksSelection(front, width, selection);
      var p := Place(CursorAfter(front, width), es[|es| - 1].nameLength, width);
      var tail := EntryDraws(p, es[|es| - 1], selection == |front|);
      CaretCountAppend(Frame(front, width, selection), tail);
      EntryDrawsCarets(p, es[|es| - 1], selection == |front|);
      assert Placements(es, width) == Placements(front, width) + [p];
      if selection == |front| {
        assert tail[1] == Caret(Point(p.x, p.y + 1));
      }
    }
  }

  /** The entry names of a list of draws, in order. */
  function Names(ds: seq<Draw>): seq<Draw>
  {
    if ds == [] then [] else Names(ds[..|ds| - 1]) + (if ds[|ds| - 1].Name? then [ds[|ds| - 1]] else [])
  }

  lemma NamesAppend(a: seq<Draw>, b: seq<Draw>)
    ensures Names(a + b) == Names(a) + Names(b)
    decreases |b|
  {
    if b != [] {
      assert (a + b)[..|a + b| - 1] == a + b[..|b| - 1];
      NamesAppend(a, b[..|b| - 1]);
    } else {
      assert a + b == a;
    }
  }

  lemma EntryDrawsNames(p: Point, e: DirEntry, selected: bool)
    ensures Names(EntryDraws(p, e, selected)) == [Name(p, e.name, e.kind == Directory)]
  {
    var name := [Name(p, e.name, e.kind == Directory)];
    var mark := if selected then [Caret(Point(p.x, p.y + 1))] else [];
    NamesAppend(name, mark);
    assert name[..0] == [];
    if selected {
      assert mark[..0] == [];
    }
  }

  /** Names matched with the first `|es| - 1` entries stay matched when the last entry's name is appended. */
  lemma NamesMatchSnoc(ns0: seq<Draw>, ps0: seq<Point>, es: seq<DirEntry>, p: Point)
    requires |ns0| + 1 == |es| && |ps0| + 1 == |es|
    requires forall i :: 0 <= i < |ns0| ==> ns0[i] == Name(ps0[i], es[i].name, es[i].kind == Directory)
    ensures var e := es[|es| - 1];
      var ns, ps := ns0 + [Name(p, e.name, e.kind == Directory)], ps0 + [p];
      forall i :: 0 <= i < |es| ==> ns[i] == Name(ps[i], es[i].name, es[i].kind == Directory)
  {
  }

  /** Every entry name is drawn once, in list order, at its placement, underlined exactly for a directory. */
  lemma {:induction false} NamesDrawnInOrder(es: seq<DirEntry>, width: int, selection: int)
    ensures var ns, ps := Names(Frame(es, width, selection)), Placements(es, width);
      && |ns| == |es|
      && forall i :: 0 <= i < |es| ==> ns[i] == Name(ps[i], es[i].name, es[i].kind == Directory)
  {
    if es != [] {
      var front, e := es[..|es| - 1], es[|es| - 1];
      NamesDrawnInOrder(front, width, selection);
      var p := Place(CursorAfter(front, width), e.nameLength, width);
      NamesAppend(Frame(front, width, selection), EntryDraws(p, e, selection == |front|));
      EntryDrawsNames(p, e, selection == |front|);
      NamesMatchSnoc(Names(Frame(front, width, selection)), Placements(front, width), es, p);
    }
  }
}
