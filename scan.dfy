/**
 * What the refresh scan of the main loop builds from a directory listing:
 * the records in enumeration order, a hidden one kept only when hidden files
 * are shown, each turned into its `Dir_Entry`.
 */
module Scan {
  import opened Entries

  predicate AllWellFormed(rs: seq<Dirent>)
  {
    forall i :: 0 <= i < |rs| ==> WellFormed(rs[i])
  }

  /** `add_entry`: true, unless the name is hidden, in which case `show_hidden_files`. */
  predicate Keeps(d: Dirent, showHidden: bool)
    requires WellFormed(d)
  {
    if IsHidden(d) then showHidden else true
  }

  /** The entry list a scan of `rs` appends, one record at a time. */
  function Kept(rs: seq<Dirent>, showHidden: bool): (es: seq<DirEntry>)
    requires AllWellFormed(rs)
    ensures |es| <= |rs|
  {
    if rs == [] then []
    else
      var last := rs[|rs| - 1];
      Kept(rs[..|rs| - 1], showHidden) + (if Keeps(last, showHidden) then [MakeEntry(last)] else [])
  }

  /** Scanning one more record of the stream appends at most its entry. */
  lemma KeptExtend(s: seq<Dirent>, start: nat, pos: nat, showHidden: bool)
    requires start <= pos < |s| && AllWellFormed(s)
    ensures Kept(s[start..pos + 1], showHidden) ==
      Kept(s[start..pos], showHidden) + (if Keeps(s[pos], showHidden) then [MakeEntry(s[pos])] else [])
  {
    assert s[start..pos + 1][..pos - start] == s[start..pos];
  }

  /** The positions in `rs` of the records the scan keeps, in the same recursion as `Kept`. */
  function KeptIndices(rs: seq<Dirent>, showHidden: bool): seq<nat>
    requires AllWellFormed(rs)
  {
    if rs == [] then []
    else
      KeptIndices(rs[..|rs| - 1], showHidden) + (if Keeps(rs[|rs| - 1], showHidden) then [|rs| - 1] else [])
  }

  /**
   * The scan keeps exactly the records `Keeps` admits, in enumeration order:
   * the kept positions increase, the k-th entry is built from the k-th kept
   * record, and every admitted record's position is among them.
   */
  lemma {:induction false} KeptIsOrderedSelection(rs: seq<Dirent>, showHidden: bool)
    requires AllWellFormed(rs)
    ensures var idx, es := KeptIndices(rs, showHidden), Kept(rs, showHidden);
      && |idx| == |es|
      && (forall k :: 0 <= k < |idx| ==> idx[k] < |rs| && Keeps(rs[idx[k]], showHidden) && es[k] == MakeEntry(rs[idx[k]]))
      && (forall k, l :: 0 <= k < l < |idx| ==> idx[k] < idx[l])
      && (forall i :: 0 <= i < |rs| && Keeps(rs[i], showHidden) ==> i in idx)
  {
    if rs != [] {
      var front := rs[..|rs| - 1];
      KeptIsOrderedSelection(front, showHidden);
      var idx0 := KeptIndices(front, showHidden);
      var idx := KeptIndices(rs, showHidden);
      assert forall i :: 0 <= i < |front| ==> front[i] == rs[i];
      assert forall k :: 0 <= k < |idx0| ==> idx[k] == idx0[k];
    }
  }

  /** With hidden files shown, every record is listed, in order. */
  lemma {:induction false} KeptAllWhenShown(rs: seq<Dirent>)
    requires AllWellFormed(rs)
    ensures |Kept(rs, true)| == |rs|
    ensures forall i :: 0 <= i < |rs| ==> Kept(rs, true)[i] == MakeEntry(rs[i])
  {
    if rs != [] {
      var front := rs[..|rs| - 1];
      KeptAllWhenShown(front);
      assert forall i :: 0 <= i < |front| ==> front[i] == rs[i];
    }
  }

  /** With hidden files not shown, no listed name starts with a dot. */
  lemma {:induction false} KeptHidesDotNames(rs: seq<Dirent>)
    requires AllWellFormed(rs)
    ensures forall k :: 0 <= k < |Kept(rs, false)| ==> !DotName(Kept(rs, false)[k])
  {
    if rs != [] {
      KeptHidesDotNames(rs[..|rs| - 1]);
      HiddenIffDotName(rs[|rs| - 1]);
    }
  }

  /** A hidden record is listed if and only if hidden files are shown. */
  lemma HiddenListedIffShown(rs: seq<Dirent>, showHidden: bool, i: nat)
    requires AllWellFormed(rs) && i < |rs| && IsHidden(rs[i])
    ensures MakeEntry(rs[i]) in Kept(rs, showHidden) <==> showHidden
  {
    HiddenIffDotName(rs[i]);
    if showHidden {
      KeptIsOrderedSelection(rs, showHidden);
      var idx := KeptIndices(rs, showHidden);
      var k :| 0 <= k < |idx| && idx[k] == i;
      assert Kept(rs, showHidden)[k] == MakeEntry(rs[i]);
    } else {
      KeptHidesDotNames(rs);
    }
  }

  /** A visible record is listed whatever the flag. */
  lemma VisibleAlwaysListed(rs: seq<Dirent>, showHidden: bool, i: nat)
    requires AllWellFormed(rs) && i < |rs| && !IsHidden(rs[i])
    ensures MakeEntry(rs[i]) in Kept(rs, showHidden)
  {
    KeptIsOrderedSelection(rs, showHidden);
    var idx := KeptIndices(rs, showHidden);
    var k :| 0 <= k < |idx| && idx[k] == i;
    assert Kept(rs, showHidden)[k] == MakeEntry(rs[i]);
  }
}
