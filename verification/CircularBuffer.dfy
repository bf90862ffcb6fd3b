/** The fixed ring of entries (aesd-char-driver/aesd-circular-buffer.c), for any capacity a
    `uint8_t` index can serve. */
module CircularBuffers {
  import opened CTypes
  import opened Lines
  import opened Positions

  datatype Entry = Entry(buffptr: Pointer, size: size_t)

  /** A slot as `memset` leaves it. */
  const ZERO_ENTRY := Entry(Null, 0)

  /** The entry and the byte within it that a search by file position returns. */
  datatype Slot = Slot(index: uint8, offset: size_t)

  function Sizes(es: seq<Entry>): (r: seq<nat>)
    ensures |r| == |es|
  {
    seq(|es|, i requires 0 <= i < |es| => es[i].size)
  }

  /** The sizes that `Size` adds up: an entry without a block does not count. */
  function CountedSizes(es: seq<Entry>): (r: seq<nat>)
    ensures |r| == |es|
  {
    seq(|es|, i requires 0 <= i < |es| => if es[i].buffptr == Null then 0 else es[i].size)
  }

  /** The subtraction of one entry from a position: negative when the position falls inside the
      entry, or when the difference does not fit a `ssize_t`. */
  function SubtractEntryFromFpos(entry: Entry, charOffset: size_t): int {
    if charOffset >= entry.size then ToSsize(charOffset - entry.size) else -1
  }

  /** The difference is reported as non-negative exactly when the position is past the entry by
      less than 2^63. */
  lemma SubtractionSign(entry: Entry, charOffset: size_t)
    ensures SubtractEntryFromFpos(entry, charOffset) >= 0
            <==> entry.size <= charOffset < entry.size + TWO_TO_63
  {
  }

  /** `(in_offs - out_offs) % capacity`, converted to `uint8_t`, counts the slots from `out_offs`
      round to `in_offs` exactly when the difference is not negative. */
  lemma EntryCountExact(inOffs: uint8, outOffs: uint8, capacity: uint8)
    requires inOffs < capacity && outOffs < capacity
    ensures ToUint8(TruncatedRemainder(inOffs - outOffs, capacity)) == (inOffs + capacity - outOffs) % capacity
            <==> outOffs <= inOffs
  {
    WrapOnce(inOffs + capacity - outOffs, capacity);
    WrapOnce(if outOffs <= inOffs then inOffs - outOffs else outOffs - inOffs, capacity);
  }

  /** Counted from slot 0 the remainder is the number of slots itself. */
  lemma EntryCountFromZero(inOffs: uint8, capacity: uint8)
    requires inOffs < capacity
    ensures ToUint8(TruncatedRemainder(inOffs - 0, capacity)) == inOffs
  {
    WrapOnce(inOffs, capacity);
  }

  /** The positions for which the search works: those less than 2^63 past the oldest entry. */
  predicate Searchable(sizes: seq<nat>, charOffset: nat) {
    sizes == [] || charOffset < sizes[0] + TWO_TO_63
  }

  /** How far a search for `charOffset` has got: it stands at entry `k`, with `remaining` counted
      from that entry, and `found` says whether it has stopped there. Only the very first entry can
      be taken for the answer wrongly. */
  ghost predicate Progress(sizes: seq<nat>, charOffset: nat, k: nat, found: bool, remaining: nat) {
    && k <= |sizes|
    && (found ==> k < |sizes|)
    && (!found && k == 0 ==> sizes == [])
    && if Searchable(sizes, charOffset)
       then charOffset == Sum(sizes[..k]) + remaining
            && (if found then remaining < sizes[k] else remaining < TWO_TO_63 || sizes == [])
       else found && k == 0 && remaining == charOffset
  }

  /** The test the search makes at an entry. */
  predicate StopsAt(size: nat, charOffset: nat) {
    !(size <= charOffset < size + TWO_TO_63)
  }

  lemma FirstStep(sizes: seq<nat>, charOffset: nat)
    requires sizes != []
    ensures if StopsAt(sizes[0], charOffset) then Progress(sizes, charOffset, 0, true, charOffset)
            else Progress(sizes, charOffset, 1, false, charOffset - sizes[0])
  {
    SumStep(sizes, 0);
  }

  lemma NextStep(sizes: seq<nat>, charOffset: nat, k: nat, remaining: nat)
    requires Progress(sizes, charOffset, k, false, remaining) && k < |sizes|
    ensures if StopsAt(sizes[k], remaining) then Progress(sizes, charOffset, k, true, remaining)
            else Progress(sizes, charOffset, k + 1, false, remaining - sizes[k])
  {
    SumStep(sizes, k);
  }

  lemma LastStep(sizes: seq<nat>, charOffset: nat, k: nat, found: bool, remaining: nat)
    requires Progress(sizes, charOffset, k, found, remaining) && (found || k == |sizes|)
    ensures !found ==> Searchable(sizes, charOffset) && Locate(sizes, charOffset) == None
    ensures found ==> (Locate(sizes, charOffset) == Some(Position(k, remaining)) <==> Searchable(sizes, charOffset))
  {
    LocateFlatOffsetInverse(sizes);
    assert found && Searchable(sizes, charOffset) ==> ValidPosition(sizes, Position(k, remaining));
    assert sizes[..|sizes|] == sizes;
  }

  /** The slot reached after `k` steps round from slot `start`. */
  function SlotAfter(start: nat, k: nat, capacity: nat): nat
    requires start < capacity && k <= capacity
  {
    if start + k < capacity then start + k else start + k - capacity
  }

  ghost predicate Represents(slots: seq<Entry>, start: nat, contents: seq<Entry>) {
    && start < |slots|
    && |contents| <= |slots|
    && forall k | 0 <= k < |contents| :: contents[k] == slots[SlotAfter(start, k, |slots|)]
  }

  /** Starting one slot later reaches the slot of the next index, and the last slot is then the first. */
  lemma SlotAfterLater(start: nat, k: nat, n: nat)
    requires start < n && k < n
    ensures SlotAfter(SlotAfter(start, 1, n), k, n) == SlotAfter(start, k + 1, n)
    ensures SlotAfter(start, k + 1, n) == start <==> k == n - 1
  {
  }

  /** Overwriting the slot that follows the stored entries appends to them; in a full ring that slot
      is the oldest one, and the entries then start one slot later. */
  lemma PushRepresented(slots: seq<Entry>, start: nat, next: nat, contents: seq<Entry>, e: Entry)
    requires Represents(slots, start, contents)
    requires next == SlotAfter(start, |contents|, |slots|)
    ensures Represents(slots[next := e],
                       if |contents| == |slots| then SlotAfter(start, 1, |slots|) else start,
                       Push(|slots|, contents, e))
  {
    var n, slots', contents' := |slots|, slots[next := e], Push(|slots|, contents, e);
    if |contents| == n {
      var later := SlotAfter(start, 1, n);
      forall k | 0 <= k < n
        ensures contents'[k] == slots'[SlotAfter(later, k, n)]
      {
        SlotAfterLater(start, k, n);
        assert k < n - 1 ==> contents'[k] == contents[k + 1];
      }
    } else {
      forall k | 0 <= k <= |contents|
        ensures contents'[k] == slots'[SlotAfter(start, k, n)]
      {
        assert k < |contents| ==> contents'[k] == contents[k] && SlotAfter(start, k, n) != next;
      }
    }
  }

  /** The pointer an addition hands back: a full ring's oldest one. */
  function GivenUp(capacity: nat, held: seq<Entry>): Pointer {
    if |held| >= capacity > 0 then held[0].buffptr else Null
  }

  class CircularBuffer {
    const entry: array<Entry>
    var inOffs: uint8
    var outOffs: uint8
    var full: bool
    ghost var contents: seq<Entry>  // the stored entries, oldest first

    /** What every run of `Init` and `AddEntry` keeps. */
    ghost predicate Valid()
      reads this, entry
    {
      && 1 <= entry.Length <= 255
      && inOffs < entry.Length
      && outOffs < entry.Length
      && (full ==> inOffs == outOffs)
      && (!full ==> outOffs == 0)
      && (!full ==> forall i | inOffs <= i < entry.Length :: entry[i] == ZERO_ENTRY)
      && |contents| == (if full then entry.Length else inOffs)
      && Represents(entry[..], outOffs, contents)
    }

    constructor (capacity: uint8)
      requires 1 <= capacity
      ensures Valid() && contents == []
      ensures entry.Length == capacity && fresh(entry)
    {
      entry := new Entry[capacity](_ => ZERO_ENTRY);
      inOffs, outOffs, full, contents := 0, 0, false, [];
    }

    /** aesd_circular_buffer_init: clear everything, whatever was there. */
    method Init()
      requires 1 <= entry.Length <= 255
      modifies this, entry
      ensures Valid() && contents == []
    {
      forall i | 0 <= i < entry.Length {
        entry[i] := ZERO_ENTRY;
      }
      inOffs, outOffs, full, contents := 0, 0, false, [];
    }

    function Capacity(): uint8
      requires 1 <= entry.Length <= 255
    {
      entry.Length
    }

    function RelativeEntryOffset(entryOffset: uint8): uint8
      requires outOffs < entry.Length <= 255
      reads this
    {
      var adjusted := entryOffset % Capacity();
      if full && adjusted == inOffs then Capacity()
      else if adjusted >= outOffs then adjusted - outOffs
      else adjusted + Capacity() - outOffs
    }

    function AbsoluteEntryOffset(entryOffset: uint8): uint8
      requires 1 <= entry.Length <= 255
      reads this
    {
      (outOffs + entryOffset) % Capacity()
    }

    function EntryArraySize(): uint8
      requires 1 <= entry.Length <= 255
      reads this
    {
      if full then Capacity() else ToUint8(TruncatedRemainder(inOffs - outOffs, Capacity()))
    }

    function NextEntryOffset(entryOffset: uint8): uint8
      requires 1 <= entry.Length <= 255
    {
      (entryOffset + 1) % Capacity()
    }

    /** In every reachable ring the entry count is the number of stored entries, and the remainder
        it is computed with never sees a negative operand. */
    lemma EntryArraySizeIsCount()
      requires Valid()
      ensures EntryArraySize() == |contents|
      ensures !full ==> outOffs <= inOffs
    {
      if !full {
        EntryCountFromZero(inOffs, entry.Length);
      }
    }

    /** Going from a slot back to its logical index, except that the oldest slot of a full ring comes
        back as the capacity, and so does the slot one lap later. */
    lemma RelativeOfSlot(k: nat)
      requires Valid() && k <= |contents|
      ensures RelativeEntryOffset(SlotAfter(outOffs, k, entry.Length)) == if full && k == 0 then entry.Length else k
    {
      WrapOnce(SlotAfter(outOffs, k, entry.Length), entry.Length);
    }

    /** A logical index and its slot: the slot holds the entry, and stepping on from it reaches the
        slot of the next index, also one lap later. */
    lemma SlotOfIndex(k: nat)
      requires Valid() && k < |contents|
      ensures entry[SlotAfter(outOffs, k, entry.Length)] == contents[k]
      ensures NextEntryOffset(SlotAfter(outOffs, k, entry.Length)) == SlotAfter(outOffs, k + 1, entry.Length)
      ensures RelativeEntryOffset(SlotAfter(outOffs, k + 1, entry.Length)) == k + 1
    {
      WrapOnce(SlotAfter(outOffs, k, entry.Length) + 1, entry.Length);
      RelativeOfSlot(k + 1);
    }

    /** The sizes up to the next index, and the slot of that index. */
    lemma SizeUpTo(k: nat)
      requires Valid() && k < |contents|
      ensures Sum(Sizes(contents)[..k + 1])
              == Sum(Sizes(contents)[..k]) + entry[SlotAfter(outOffs, k, entry.Length)].size
      ensures NextEntryOffset(SlotAfter(outOffs, k, entry.Length)) == SlotAfter(outOffs, k + 1, entry.Length)
      ensures RelativeEntryOffset(SlotAfter(outOffs, k + 1, entry.Length)) == k + 1
    {
      SlotOfIndex(k);
      SumStep(Sizes(contents), k);
    }

    /** The C formula for the slot of a logical index. */
    lemma AbsoluteIsSlot(k: nat)
      requires Valid() && k < entry.Length
      ensures AbsoluteEntryOffset(k) == SlotAfter(outOffs, k, entry.Length)
    {
      WrapOnce(outOffs + k, entry.Length);
    }

    /** The next entry goes to the slot after the stored ones, which is unused unless the ring is full. */
    lemma NextSlot()
      requires Valid()
      ensures inOffs == SlotAfter(outOffs, |contents|, entry.Length)
      ensures |contents| < entry.Length ==> entry[inOffs] == ZERO_ENTRY
    {
    }

    lemma DistinctSlots()
      requires Valid()
      ensures forall j, k | 0 <= j < k < entry.Length ::
                SlotAfter(outOffs, j, entry.Length) != SlotAfter(outOffs, k, entry.Length)
    {
    }

    /** One step of the search: either the position falls in the entry, or the search moves on. */
    method IterateFind(entryOffset: uint8, charOffset: size_t)
      returns (found: bool, nextEntry: uint8, nextOffset: size_t)
      requires 1 <= entry.Length <= 255 && entryOffset < entry.Length
      ensures found <==> StopsAt(entry[entryOffset].size, charOffset)
      ensures found ==> nextEntry == entryOffset && nextOffset == charOffset
      ensures !found ==> nextEntry == NextEntryOffset(entryOffset)
      ensures !found ==> nextOffset == charOffset - entry[entryOffset].size
    {
      found, nextEntry, nextOffset := false, entryOffset, charOffset;
      var subtraction := SubtractEntryFromFpos(entry[entryOffset], charOffset);
      if subtraction < 0 {
        found := true;
      } else {
        nextOffset := subtraction;
        nextEntry := NextEntryOffset(entryOffset);
      }
    }

    /** The slot and byte of a logical position. */
    ghost function SlotOf(p: Option<Position>): Option<Slot>
      requires Valid()
      requires p.Some? ==> ValidPosition(Sizes(contents), p.value)
      reads this, entry
    {
      match p
      case None => None
      case Some(p) => Some(Slot(SlotAfter(outOffs, p.entry, entry.Length), p.offset))
    }

    lemma SearchResult(charOffset: size_t, k: nat, found: bool, remaining: size_t)
      requires Valid()
      requires Progress(Sizes(contents), charOffset, k, found, remaining) && (found || k == |contents|)
      ensures (if found then Some(Slot(SlotAfter(outOffs, k, entry.Length), remaining)) else None)
              == SlotOf(Locate(Sizes(contents), charOffset))
              <==> Searchable(Sizes(contents), charOffset)
    {
      LastStep(Sizes(contents), charOffset, k, found, remaining);
      DistinctSlots();
    }

    /** One round of the search: it stops at entry `k` or moves on to the next. */
    method SearchStep(charOffset: size_t, entryOffset: uint8, remaining: size_t, ghost k: nat)
      returns (found: bool, nextEntry: uint8, nextOffset: size_t)
      requires Valid() && k < |contents| && Progress(Sizes(contents), charOffset, k, false, remaining)
      requires entryOffset == SlotAfter(outOffs, k, entry.Length)
      ensures var next := if found then k else k + 1;
              && Progress(Sizes(contents), charOffset, next, found, nextOffset)
              && nextEntry == SlotAfter(outOffs, next, entry.Length)
              && (!found ==> RelativeEntryOffset(nextEntry) == next)
    {
      SlotOfIndex(k);
      NextStep(Sizes(contents), charOffset, k, remaining);
      found, nextEntry, nextOffset := IterateFind(entryOffset, remaining);
    }

    /** The loop of aesd_circular_buffer_find_entry_offset_for_fpos: search on until an entry holds the
        position or the lap is complete. */
    method SearchOn(charOffset: size_t, found0: bool, entryOffset0: uint8, remaining0: size_t, ghost k0: nat)
      returns (found: bool, entryOffset: uint8, remaining: size_t, ghost k: nat)
      requires Valid() && Progress(Sizes(contents), charOffset, k0, found0, remaining0)
      requires entryOffset0 == SlotAfter(outOffs, k0, entry.Length)
      requires found0 || RelativeEntryOffset(entryOffset0) == k0
      ensures Progress(Sizes(contents), charOffset, k, found, remaining) && (found || k == |contents|)
      ensures entryOffset == SlotAfter(outOffs, k, entry.Length)
    {
      found, entryOffset, remaining, k := found0, entryOffset0, remaining0, k0;
      EntryArraySizeIsCount();
      while !found && RelativeEntryOffset(entryOffset) < EntryArraySize()
        invariant Progress(Sizes(contents), charOffset, k, found, remaining)
        invariant entryOffset == SlotAfter(outOffs, k, entry.Length)
        invariant found || RelativeEntryOffset(entryOffset) == k
        decreases |contents| - k, !found
      {
        found, entryOffset, remaining := SearchStep(charOffset, entryOffset, remaining, k);
        k := if found then k else k + 1;
      }
    }

    /** aesd_circular_buffer_find_entry_offset_for_fpos: the slot and byte that hold the given
        position of the entries laid end to end, and nothing exactly at or past their end. This
        holds for exactly the positions less than 2^63 past the oldest entry. */
    method FindEntryOffsetForFpos(charOffset: size_t) returns (r: Option<Slot>)
      requires Valid()
      ensures r == SlotOf(Locate(Sizes(contents), charOffset)) <==> Searchable(Sizes(contents), charOffset)
    {
      var remaining: size_t := charOffset;
      var entryOffset: uint8 := outOffs;
      var found := false;
      ghost var k := 0;
      EntryArraySizeIsCount();
      if 0 < EntryArraySize() {
        SlotOfIndex(0);
        FirstStep(Sizes(contents), charOffset);
        found, entryOffset, remaining := IterateFind(entryOffset, remaining);
        if !found {
          k := 1;
        }
      } else {
        RelativeOfSlot(0);
      }
      found, entryOffset, remaining, k := SearchOn(charOffset, found, entryOffset, remaining, k);
      SearchResult(charOffset, k, found, remaining);
      r := if found then Some(Slot(entryOffset, remaining)) else None;
    }

    /** The walk of aesd_circular_buffer_find_fpos_for_entry_offset: the sizes of the entries before the
        given one. */
    method SizeBefore(entryOffset: uint8) returns (result: nat)
      requires Valid() && entryOffset < |contents|
      ensures result == Sum(Sizes(contents)[..entryOffset])
    {
      var iter: uint8 := outOffs;
      ghost var k := 0;
      result := 0;
      if 0 < entryOffset {
        SizeUpTo(0);
        result := result + entry[iter].size;
        iter := NextEntryOffset(iter);
        k := 1;
      }
      while RelativeEntryOffset(iter) < entryOffset
        invariant 0 <= k <= entryOffset && (k == 0 ==> entryOffset == 0)
        invariant iter == SlotAfter(outOffs, k, entry.Length)
        invariant k > 0 ==> RelativeEntryOffset(iter) == k
        invariant result == Sum(Sizes(contents)[..k])
        decreases entryOffset - k
      {
        SizeUpTo(k);
        result := result + entry[iter].size;
        iter := NextEntryOffset(iter);
        k := k + 1;
      }
    }

    /** aesd_circular_buffer_find_fpos_for_entry_offset: the position of the given byte of the given
        entry, or -1 when there is no such entry or byte. */
    method FindFposForEntryOffset(entryOffset: uint8, entryOffsetByte: size_t) returns (result: int)
      requires Valid()
      requires Sum(Sizes(contents)) < TWO_TO_63
      ensures result == FlatOffsetOrMinusOne(Sizes(contents), entryOffset, entryOffsetByte)
    {
      result := -1;
      EntryArraySizeIsCount();
      if entryOffset < EntryArraySize() {
        AbsoluteIsSlot(entryOffset);
        SlotOfIndex(entryOffset);
        if entryOffsetByte < entry[AbsoluteEntryOffset(entryOffset)].size {
          result := SizeBefore(entryOffset);
          result := result + entryOffsetByte;
        }
      }
    }

    /** The end of an addition: the slot at `inOffs` holds the newest entry, and the offsets move on. */
    method Advance()
      requires 1 <= entry.Length <= 255 && inOffs < entry.Length && outOffs < entry.Length
      requires if full then inOffs == outOffs else outOffs == 0
      requires !full ==> forall i | inOffs < i < entry.Length :: entry[i] == ZERO_ENTRY
      requires |contents| == if full then entry.Length else inOffs + 1
      requires Represents(entry[..], if full then SlotAfter(outOffs, 1, entry.Length) else outOffs, contents)
      modifies this`inOffs, this`outOffs, this`full
      ensures Valid()
    {
      WrapOnce(inOffs + 1, entry.Length);
      inOffs := NextEntryOffset(inOffs);
      if full {
        outOffs := inOffs;
      } else if inOffs == outOffs {
        full := true;
      }
    }

    /** aesd_circular_buffer_add_entry: append an entry; a full ring gives up its oldest one, whose
        block is handed back to the caller. Exactly one slot changes. */
    method AddEntry(addEntry: Entry) returns (evicted: Pointer)
      requires Valid()
      modifies this, entry
      ensures Valid()
      ensures contents == Push(entry.Length, old(contents), addEntry)
      ensures evicted == GivenUp(entry.Length, old(contents))
      ensures entry[..] == old(entry[..])[old(inOffs) := addEntry]
      ensures evicted == old(entry[inOffs]).buffptr
    {
      evicted := Null;
      if full {
        evicted := entry[inOffs].buffptr;
      }
      PushRepresented(entry[..], outOffs, inOffs, contents, addEntry);
      contents := Push(entry.Length, contents, addEntry);
      entry[inOffs] := addEntry;
      assert entry[..] == old(entry[..])[old(inOffs) := addEntry];
      Advance();
    }

    /** aesd_circular_buffer_size: the slots are added up in slot order, skipping those without a
        block. The result is the length of the stored entries laid end to end exactly when no
        stored entry without a block claims a size. */
    method Size() returns (size: nat)
      requires Valid()
      ensures size == Sum(CountedSizes(contents))
      ensures size == Sum(Sizes(contents))
              <==> forall e | e in contents :: e.buffptr == Null ==> e.size == 0
    {
      size := 0;
      var index := 0;
      ghost var counted := CountedSizes(entry[..]);
      while index < entry.Length
        invariant 0 <= index <= entry.Length
        invariant size == Sum(counted[..index])
      {
        SumStep(counted, index);
        if entry[index].buffptr != Null {
          size := size + entry[index].size;
        }
        index := index + 1;
      }
      assert counted[..entry.Length] == counted;
      SlotOrderSum();
      CountedSumExact(contents);
    }

    /** The slot-order sum is the logical-order sum: a full ring is a rotation of its slots, and the
        unused slots of any other are zero. */
    lemma SlotOrderSum()
      requires Valid()
      ensures Sum(CountedSizes(entry[..])) == Sum(CountedSizes(contents))
    {
      var counted := CountedSizes(entry[..]);
      if full {
        SumRotation(counted, outOffs);
        assert CountedSizes(contents) == counted[outOffs..] + counted[..outOffs];
      } else {
        assert counted == counted[..inOffs] + counted[inOffs..];
        SumAppend(counted[..inOffs], counted[inOffs..]);
        SumOfZeros(counted[inOffs..]);
        assert CountedSizes(contents) == counted[..inOffs];
      }
    }
  }

  lemma {:induction false} SumOfZeros(sizes: seq<nat>)
    requires forall i | 0 <= i < |sizes| :: sizes[i] == 0
    ensures Sum(sizes) == 0
  {
    if sizes != [] {
      SumOfZeros(sizes[1..]);
    }
  }

  /** Skipping entries without a block loses nothing exactly when such entries are empty. */
  lemma {:induction false} CountedSumExact(es: seq<Entry>)
    ensures Sum(CountedSizes(es)) <= Sum(Sizes(es))
    ensures Sum(CountedSizes(es)) == Sum(Sizes(es))
            <==> forall e | e in es :: e.buffptr == Null ==> e.size == 0
  {
    if es != [] {
      var rest := es[1..];
      CountedSumExact(rest);
      assert CountedSizes(es)[1..] == CountedSizes(rest);
      assert Sizes(es)[1..] == Sizes(rest);
      assert es == [es[0]] + rest;
      assert forall e :: e in es <==> e == es[0] || e in rest;
    }
  }

  /** What a run of additions leaves in a ring of the given capacity. */
  function HeldAfter(capacity: nat, held: seq<Entry>, added: seq<Entry>): seq<Entry>
    decreases |added|
  {
    if added == [] then held else HeldAfter(capacity, Push(capacity, held, added[0]), added[1..])
  }

  /** The pointers a run of additions hands back, one per addition. */
  function HandedBack(capacity: nat, held: seq<Entry>, added: seq<Entry>): seq<Pointer>
    decreases |added|
  {
    if added == [] then []
    else
      [GivenUp(capacity, held)] + HandedBack(capacity, Push(capacity, held, added[0]), added[1..])
  }

  function Pointers(es: seq<Entry>): seq<Pointer> {
    if es == [] then [] else [es[0].buffptr] + Pointers(es[1..])
  }

  function NonNull(ps: seq<Pointer>): seq<Pointer> {
    if ps == [] then [] else (if ps[0] == Null then [] else [ps[0]]) + NonNull(ps[1..])
  }

  lemma PushFirst(capacity: nat, held: seq<Entry>, added: seq<Entry>)
    requires 0 < capacity && |held| <= capacity && added != []
    ensures Push(capacity, held, added[0]) + added[1..]
            == if |held| < capacity then held + added else (held + added)[1..]
  {
  }

  /** The oldest of more than `capacity` entries is not among the last `capacity`. */
  lemma LastNOfRest(capacity: nat, es: seq<Entry>)
    ensures |es| > capacity ==> LastN(es[1..], capacity) == LastN(es, capacity)
  {
  }

  lemma {:induction false} HeldOverRuns(capacity: nat, held: seq<Entry>, added: seq<Entry>)
    requires 0 < capacity && |held| <= capacity
    ensures HeldAfter(capacity, held, added) == LastN(held + added, capacity)
    decreases |added|
  {
    if added == [] {
      assert held + added == held;
    } else {
      HeldOverRuns(capacity, Push(capacity, held, added[0]), added[1..]);
      PushFirst(capacity, held, added);
      LastNOfRest(capacity, held + added);
    }
  }

  /** How many entries a run of additions drops. */
  function Dropped(capacity: nat, held: seq<Entry>, added: seq<Entry>): nat {
    if |held| + |added| <= capacity then 0 else |held| + |added| - capacity
  }

  lemma NonNullCons(p: Pointer, ps: seq<Pointer>)
    ensures NonNull([p] + ps) == (if p == Null then [] else [p]) + NonNull(ps)
  {
    assert ([p] + ps)[1..] == ps;
  }

  lemma PointersCons(es: seq<Entry>, n: nat)
    requires 0 < n <= |es|
    ensures NonNull(Pointers(es[..n]))
            == (if es[0].buffptr == Null then [] else [es[0].buffptr]) + NonNull(Pointers(es[1..][..n - 1]))
  {
    assert es[..n][1..] == es[1..][..n - 1];
    NonNullCons(es[0].buffptr, Pointers(es[..n][1..]));
  }

  lemma {:induction false} HandedBackOverRuns(capacity: nat, held: seq<Entry>, added: seq<Entry>)
    requires 0 < capacity && |held| <= capacity
    ensures NonNull(HandedBack(capacity, held, added))
            == NonNull(Pointers((held + added)[..Dropped(capacity, held, added)]))
    decreases |added|
  {
    if added != [] {
      var next := Push(capacity, held, added[0]);
      HandedBackOverRuns(capacity, next, added[1..]);
      PushFirst(capacity, held, added);
      NonNullCons(GivenUp(capacity, held), HandedBack(capacity, next, added[1..]));
      if |held| == capacity {
        PointersCons(held + added, Dropped(capacity, held, added));
      }
    }
  }

  method AddEach(ring: CircularBuffer, added: seq<Entry>) returns (handed: seq<Pointer>)
    requires ring.Valid()
    modifies ring, ring.entry
    ensures ring.Valid() && |handed| == |added|
    ensures ring.contents == HeldAfter(ring.entry.Length, old(ring.contents), added)
    ensures handed == HandedBack(ring.entry.Length, old(ring.contents), added)
    decreases |added|
  {
    handed := [];
    if added != [] {
      var first := ring.AddEntry(added[0]);
      var rest := AddEach(ring, added[1..]);
      handed := [first] + rest;
    }
  }

  /** Any run of additions to a ring: it ends up holding the last of the old and new entries, as many as
      fit, and the pointers handed back are those of the dropped entries, oldest first. */
  method AddAll(ring: CircularBuffer, added: seq<Entry>) returns (handed: seq<Pointer>)
    requires ring.Valid()
    modifies ring, ring.entry
    ensures ring.Valid() && |handed| == |added|
    ensures ring.contents == LastN(old(ring.contents) + added, ring.entry.Length)
    ensures NonNull(handed)
            == NonNull(Pointers((old(ring.contents) + added)
                                  [..Dropped(ring.entry.Length, old(ring.contents), added)]))
  {
    HeldOverRuns(ring.entry.Length, ring.contents, added);
    HandedBackOverRuns(ring.entry.Length, ring.contents, added);
    handed := AddEach(ring, added);
  }
}
