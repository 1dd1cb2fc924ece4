/**
 * The growable `Array` of `Dir_Entry` records: explicit `count`, `capacity`
 * and iteration `position`, and a backing buffer that doubles when it is
 * about to fill. The inline stack buffer the source starts from and the heap
 * buffer it moves to later are one backing array here.
 */
module Arrays {
  import opened Entries

  /** The capacity `array_new` starts with (the size of `stack_buffer`). */
  const INITIAL_CAPACITY: int := 16

  function Pow2(n: nat): (p: nat)
    ensures p >= 1
  {
    if n == 0 then 1 else 2 * Pow2(n - 1)
  }

  /** A capacity reachable from the initial one by doubling. */
  predicate IsCapacity(c: int)
    decreases if c < 0 then 0 else c
  {
    c == INITIAL_CAPACITY || (c > INITIAL_CAPACITY && c % 2 == 0 && IsCapacity(c / 2))
  }

  /** Every reachable capacity is 16 * 2^n ... */
  lemma {:induction false} CapacityIsPowerOfTwoMultiple(c: int)
    requires IsCapacity(c)
    ensures exists n: nat :: c == INITIAL_CAPACITY * Pow2(n)
    decreases if c < 0 then 0 else c
  {
    if c != INITIAL_CAPACITY {
      CapacityIsPowerOfTwoMultiple(c / 2);
      var n: nat :| c / 2 == INITIAL_CAPACITY * Pow2(n);
      assert c == INITIAL_CAPACITY * Pow2(n + 1);
    } else {
      assert c == INITIAL_CAPACITY * Pow2(0);
    }
  }

  /** ... and every 16 * 2^n is reachable. */
  lemma {:induction false} PowerOfTwoMultipleIsCapacity(n: nat)
    ensures IsCapacity(INITIAL_CAPACITY * Pow2(n))
  {
    if n > 0 {
      PowerOfTwoMultipleIsCapacity(n - 1);
      assert (INITIAL_CAPACITY * Pow2(n)) / 2 == INITIAL_CAPACITY * Pow2(n - 1);
    }
  }

  /** The capacity `array_add` leaves: doubled exactly when `count + 1 >= capacity`. */
  function GrownCapacity(count: int, capacity: int): (r: int)
    requires 0 <= count < capacity && IsCapacity(capacity)
    ensures count + 1 < r && IsCapacity(r)
    ensures r == capacity || r == 2 * capacity
    ensures r == 2 * capacity <==> count + 1 >= capacity
  {
    if count + 1 >= capacity then 2 * capacity else capacity
  }

  /**
   * The capacity of an array built by `array_new` and then `n` calls of
   * `array_add`, with no `count = 0` in between (a reset keeps the capacity,
   * so afterwards it is that of the longest list held so far).
   */
  function CapacityAfter(n: nat): (c: int)
    ensures n < c && IsCapacity(c)
  {
    if n == 0 then INITIAL_CAPACITY else GrownCapacity(n - 1, CapacityAfter(n - 1))
  }

  /** Doubling never reserves more than twice the entries held (or the initial 16). */
  lemma {:induction false} CapacityAtMostDouble(n: nat)
    ensures CapacityAfter(n) <= if 2 * n < INITIAL_CAPACITY then INITIAL_CAPACITY else 2 * n
  {
    if n > 0 {
      CapacityAtMostDouble(n - 1);
    }
  }

  /**
   * What the slots at and past `count` of a buffer `after` hold, relative to
   * the same array's buffer `before` at an earlier point: what they held then,
   * or blank where the buffer has grown since. A count reset never clears them.
   */
  ghost predicate SlotsKept(before: seq<DirEntry>, after: seq<DirEntry>, count: int)
  {
    |before| <= |after| &&
    forall i :: 0 <= count <= i < |after| ==> after[i] == (if i < |before| then before[i] else BLANK_ENTRY)
  }

  /** Slots kept across two runs of appends are kept across both. */
  lemma SlotsKeptChain(b0: seq<DirEntry>, b1: seq<DirEntry>, b2: seq<DirEntry>, c1: int, c2: int)
    requires SlotsKept(b0, b1, c1) && SlotsKept(b1, b2, c2) && 0 <= c1 <= c2
    ensures SlotsKept(b0, b2, c2)
  {
  }

  class EntryArray {
    var count: int
    var capacity: int
    /** The cursor of `for_each_array`. */
    var position: int
    var buffer: array<DirEntry>

    /** Object invariant: the buffer has `capacity` slots and always one spare. */
    ghost predicate Valid()
      reads this
    {
      0 <= count < capacity && buffer.Length == capacity && IsCapacity(capacity) && 0 <= position
    }

    /** The entries held, in insertion order. */
    ghost function Contents(): seq<DirEntry>
      reads this, buffer
      requires Valid()
    {
      buffer[..count]
    }

    /** The entries a `for_each_array` pass visits: those from `position` to `count`. */
    ghost function Remaining(): seq<DirEntry>
      reads this, buffer
      requires Valid()
    {
      if position <= count then buffer[position..count] else []
    }

    /** `array_new`: empty, capacity 16, position 0. */
    constructor ()
      ensures Valid() && fresh(buffer)
      ensures count == 0 && capacity == INITIAL_CAPACITY && position == 0
      ensures Contents() == []
      ensures forall i :: 0 <= i < buffer.Length ==> buffer[i] == BLANK_ENTRY
    {
      count := 0;
      capacity := INITIAL_CAPACITY;
      position := 0;
      buffer := new DirEntry[INITIAL_CAPACITY](_ => BLANK_ENTRY);
    }

    /**
     * `array_add`: append `item`, doubling the buffer first when `count + 1 >= capacity`.
     * Every other slot keeps what it held, including those past `count` that
     * an earlier, longer list left behind; the slots a doubling adds are blank.
     */
    method Add(item: DirEntry)
      requires Valid()
      modifies this, buffer
      ensures Valid()
      ensures count == old(count) + 1
      ensures Contents() == old(Contents()) + [item]
      ensures capacity == GrownCapacity(old(count), old(capacity))
      ensures buffer[..old(capacity)] == old(buffer[..])[old(count) := item]
      ensures forall i :: old(capacity) <= i < capacity ==> buffer[i] == BLANK_ENTRY
      ensures SlotsKept(old(buffer[..]), buffer[..], count)
      ensures position == old(position)
      ensures buffer == old(buffer) || fresh(buffer)
    {
      ghost var slots := buffer[..];
      if count + 1 >= capacity {
        Grow();
      }
      buffer[count] := item;
      count := count + 1;
      assert buffer[..|slots|] == slots[count - 1 := item] by {
        forall j | 0 <= j < |slots|
          ensures buffer[j] == slots[count - 1 := item][j]
        {
          if j < count - 1 {
            assert buffer[..count - 1][j] == slots[..count - 1][j];
          }
        }
      }
    }

    /**
     * The doubling branch of `array_add`: a buffer of twice the capacity that
     * receives the `count` entries held so far. The full array has exactly one
     * slot past them, the one the pending item goes to, so nothing else is lost.
     */
    method Grow()
      requires Valid() && count + 1 >= capacity
      modifies this
      ensures Valid() && fresh(buffer)
      ensures count == old(count) == old(capacity) - 1 && position == old(position)
      ensures capacity == 2 * old(capacity)
      ensures buffer[..count] == old(buffer[..count])
      ensures forall j :: count <= j < capacity ==> buffer[j] == BLANK_ENTRY
    {
      var grown := new DirEntry[2 * capacity](_ => BLANK_ENTRY);
      var i := 0;
      while i < count
        invariant 0 <= i <= count
        invariant grown[..i] == buffer[..i]
        invariant forall j :: count <= j < grown.Length ==> grown[j] == BLANK_ENTRY
        modifies grown
      {
        grown[i] := buffer[i];
        i := i + 1;
      }
      buffer := grown;
      capacity := 2 * capacity;
    }

    /** `entries.count = 0`: logically empty, the buffer and its capacity are kept. */
    method Clear()
      requires Valid()
      modifies this`count
      ensures Valid()
      ensures count == 0 && Contents() == []
      ensures buffer == old(buffer) && buffer[..] == old(buffer[..])
    {
      count := 0;
    }
  }
}
