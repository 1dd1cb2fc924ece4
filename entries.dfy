/**
 * Directory entries of the file browser: the records `readdir` hands out, the
 * `Dir_Entry` record the browser stores for each of them, and the two pure
 * decisions taken per record (is it hidden, which kind is it).
 */
module Entries {

  /** `Dir_Entry_Kind`. `NoKind` (DIR_ENTRY_NONE) is declared but never assigned. */
  datatype EntryKind = NoKind | File | Directory

  /**
   * The `d_type` of a `struct dirent`, restricted to the two values the
   * browser classifies: DT_REG (a regular file) and DT_DIR (a directory).
   */
  datatype FileType = DtReg | DtDir

  /**
   * One record returned by `readdir`: the `d_name` buffer and the `d_type`.
   * Each `char` stands for one byte of `d_name`, so a name is its byte
   * sequence (a UTF-8 name is several chars per non-ASCII letter) and
   * lengths count bytes, as `strlen` does.
   */
  datatype Dirent = Dirent(dName: seq<char>, dType: FileType)

  /** `Dir_Entry`: its kind, its name (without the terminating NUL) and `name_length`, in bytes. */
  datatype DirEntry = DirEntry(kind: EntryKind, name: string, nameLength: nat)

  /**
   * A slot of the entry array that no scan has written, taken to read as zero
   * (kind DIR_ENTRY_NONE, an empty name), as the initializer of `array_new`
   * leaves its inline buffer.
   */
  const BLANK_ENTRY: DirEntry := DirEntry(NoKind, [], 0)

  /** Size of the `name` buffer of a `Dir_Entry` and of `d_name`. */
  const NAME_CAPACITY: nat := 256

  /** What `readdir` guarantees of a record: `d_name` is NUL-terminated within its 256 bytes. */
  predicate WellFormed(d: Dirent)
  {
    '\0' in d.dName && |d.dName| <= NAME_CAPACITY
  }

  /** `strlen`: the index of the first NUL of a terminated buffer. */
  function Strlen(s: seq<char>): (n: nat)
    requires '\0' in s
    ensures n < |s| && s[n] == '\0'
    ensures forall j :: 0 <= j < n ==> s[j] != '\0'
  {
    if s[0] == '\0' then 0
    else
      assert '\0' in s[1..] by {
        var k :| 0 <= k < |s| && s[k] == '\0';
        assert s[1..][k - 1] == '\0';
      }
      1 + Strlen(s[1..])
  }

  /** The `switch (ent->d_type)` that sets the entry's kind. */
  function Classify(t: FileType): (k: EntryKind)
    ensures k == File <==> t == DtReg
    ensures k == Directory <==> t == DtDir
  {
    match t
    case DtReg => File
    case DtDir => Directory
  }

  /** A name is hidden when its first byte is a dot. */
  predicate IsHidden(d: Dirent)
    requires WellFormed(d)
  {
    d.dName[0] == '.'
  }

  /**
   * The `Dir_Entry` built from one record: `name_length` is `strlen(d_name)`,
   * the name holds the same characters as `d_name` up to its terminator, and
   * the kind is the classification of `d_type`.
   */
  function MakeEntry(d: Dirent): (e: DirEntry)
    requires WellFormed(d)
    ensures e.nameLength == |e.name| < |d.dName| <= NAME_CAPACITY
    ensures e.name == d.dName[..e.nameLength] && d.dName[e.nameLength] == '\0'
    ensures '\0' !in e.name
    ensures e.kind == Classify(d.dType) && e.kind != NoKind
  {
    var n := Strlen(d.dName);
    DirEntry(Classify(d.dType), d.dName[..n], n)
  }

  /** A stored name starts with a dot. */
  predicate DotName(e: DirEntry)
  {
    |e.name| > 0 && e.name[0] == '.'
  }

  /** Testing `d_name[0]` decides the same thing as looking at the stored name. */
  lemma HiddenIffDotName(d: Dirent)
    requires WellFormed(d)
    ensures IsHidden(d) <==> DotName(MakeEntry(d))
  {
  }
}
