/** The AESD character device (aesd-char-driver/main.c). Each entry point runs under the device mutex,
    so a call is one atomic step. */
module CharDevices {
  import opened CTypes
  import opened Lines
  import opened Positions
  import opened CircularBuffers
  import opened KernelHeap
  import opened Ownership
  import opened DeviceSpec

  /** aesd_find_char: the index of the first occurrence, or -1. */
  method FindChar(buffer: seq<byte>, count: nat, character: byte) returns (result: int)
    requires count <= |buffer|
    ensures result == -1 ==> forall i | 0 <= i < count :: buffer[i] != character
    ensures result != -1 ==> 0 <= result < count && buffer[result] == character
    ensures result != -1 ==> forall i | 0 <= i < result :: buffer[i] != character
  {
    result := -1;
    var i := 0;
    while i < count && buffer[i] != character
      invariant 0 <= i <= count
      invariant forall j | 0 <= j < i :: buffer[j] != character
    {
      i := i + 1;
    }
    if i < count {
      result := i;
    }
  }

  lemma FirstNewlineEndsLine(data: seq<byte>, at: nat)
    requires at < |data| && data[at] == NEWLINE && forall i | 0 <= i < at :: data[i] != NEWLINE
    ensures IsLine(data[..at + 1])
  {
    assert data[..at + 1][..at] == data[..at];
  }

  /** The first newline ends the accepted part of the data. */
  lemma FoundNewlineEndsLine(data: seq<byte>, at: nat)
    requires at < |data| && data[at] == NEWLINE && forall i | 0 <= i < at :: data[i] != NEWLINE
    ensures ThroughNewline(data) == data[..at + 1]
  {
    FirstNewlineEndsLine(data, at);
    ThroughNewlineUnique(data, data[..at + 1]);
  }

  lemma TakeThenTake(s: seq<byte>, m: nat, n: nat)
    requires m <= n
    ensures Take(s, m) == Take(Take(s, n), m)
  {
  }

  lemma OverwrittenBlock(block: seq<byte>, offset: nat, data: seq<byte>)
    requires |block| == offset + |data|
    ensures block[..offset] + data + block[offset + |data|..] == Take(block, offset) + data
  {
  }

  lemma ContentKept(live: Blocks, live': Blocks, was: Entry, q: Pointer)
    requires q.At? && q.address in live' && was.size <= |live'[q.address]|
    requires was.buffptr == Null ==> was.size == 0
    requires was.buffptr.At? ==>
               && was.buffptr.address in live && was.size <= |live[was.buffptr.address]|
               && Take(live[was.buffptr.address], |live'[q.address]|) <= live'[q.address]
    ensures Content(live', Entry(q, was.size)) == Content(live, was)
  {
    if was.buffptr.At? {
      TakeThenTake(live[was.buffptr.address], was.size, |live'[q.address]|);
    }
  }

  lemma PastTheEnd(st: DeviceState, pos: nat, count: nat)
    requires pos >= |Image(st)|
    ensures ReadStep(st, pos, count) == []
  {
  }

  lemma CopiedOut(live: Blocks, e: Entry, from: nat, count: nat)
    requires from < e.size == |Content(live, e)|
    ensures e.buffptr.At? && e.buffptr.address in live && e.size <= |live[e.buffptr.address]|
    ensures var finalCount := Min(count, e.size - from);
            live[e.buffptr.address][from..from + finalCount] == Take(Drop(Content(live, e), from), count)
  {
    var block := live[e.buffptr.address];
    assert Content(live, e) == block[..e.size];
    SliceOfSlice(block, e.size, from, Min(count, e.size - from));
  }

  lemma SliceOfSlice(s: seq<byte>, n: nat, from: nat, count: nat)
    requires from + count <= n <= |s|
    ensures s[..n][from..][..count] == s[from..from + count]
  {
  }

  lemma NullWhenEmptyAfter(slots: seq<Entry>, next: nat, e: Entry)
    requires NullWhenEmpty(slots) && next < |slots| && e.buffptr.At? && e.size > 0
    ensures NullWhenEmpty(slots[next := e] + [ZERO_ENTRY])
  {
  }

  class CharDevice {
    var unterminatedBuffptr: Pointer
    var unterminatedSize: size_t
    const buffer: CircularBuffer
    const heap: Heap
    ghost var stream: seq<byte>  // every byte accepted so far

    /** The ring slots followed by the unterminated buffer. */
    ghost function Holders(): (r: seq<Entry>)
      reads this, buffer.entry
      ensures |r| == buffer.entry.Length + 1
    {
      buffer.entry[..] + [Entry(unterminatedBuffptr, unterminatedSize)]
    }

    ghost function State(): DeviceState
      reads this, buffer, heap
    {
      DeviceState(Contents(heap.live, buffer.contents),
                  Content(heap.live, Entry(unterminatedBuffptr, unterminatedSize)))
    }

    /** Every block has exactly one holder, and holders without bytes have no block. */
    ghost predicate Sound()
      reads this, buffer, buffer.entry, heap
    {
      buffer.Valid() && heap.Valid() && Owns(Holders(), heap.live) && NullWhenEmpty(Holders())
    }

    /** The invariant of the device: its blocks are sound, and its lines and tail are those of the
        bytes accepted so far. */
    ghost predicate Valid()
      reads this, buffer, buffer.entry, heap
    {
      Sound() && State() == StateOf(buffer.entry.Length, stream)
    }

    /** Every block ever obtained is either freed or held by exactly one of the ring slots and the
        unterminated buffer, and never both. */
    lemma BlockConservation(a: nat)
      requires Sound() && a < heap.issued
      ensures a in heap.freed <==> !HasHolder(Holders(), a)
      ensures forall i, j | 0 <= i < |Holders()| && 0 <= j < |Holders()| ::
                Holders()[i].buffptr == At(a) && Holders()[j].buffptr == At(a) ==> i == j
    {
      forall i | 0 <= i < |Holders()| && Holders()[i].buffptr == At(a)
        ensures a in heap.live && a !in heap.freed
      {
      }
    }

    lemma OwnedTail()
      requires Sound()
      ensures unterminatedBuffptr.At? ==>
                unterminatedBuffptr.address in heap.live
                && unterminatedSize <= |heap.live[unterminatedBuffptr.address]|
      ensures unterminatedBuffptr == Null <==> unterminatedSize == 0
      ensures NullWhenEmpty(buffer.entry[..])
    {
      assert Holders()[buffer.entry.Length] == Entry(unterminatedBuffptr, unterminatedSize);
      assert forall i | 0 <= i < buffer.entry.Length :: Holders()[i] == buffer.entry[..][i];
    }

    constructor (capacity: uint8)
      requires 1 <= capacity
      ensures Valid() && stream == [] && State() == DeviceState([], [])
      ensures buffer.entry.Length == capacity
      ensures fresh(buffer) && fresh(buffer.entry) && fresh(heap)
    {
      buffer := new CircularBuffer(capacity);
      heap := new Heap();
      unterminatedBuffptr, unterminatedSize, stream := Null, 0, [];
    }

    /** The lines, and the bytes the tail has in a block that may be larger. */
    ghost predicate Grown(st: DeviceState, count: nat)
      reads this, buffer, buffer.entry, heap
      requires unterminatedSize + count < TWO_TO_63
    {
      var whole := Entry(unterminatedBuffptr, unterminatedSize + count);
      && whole.buffptr.At?
      && Owns(buffer.entry[..] + [whole], heap.live)
      && NullWhenEmpty(buffer.entry[..])
      && whole.buffptr.address in heap.live && |heap.live[whole.buffptr.address]| == whole.size
      && DeviceState(Contents(heap.live, buffer.contents),
                     Content(heap.live, Entry(unterminatedBuffptr, unterminatedSize))) == st
    }

    /** Room that is not used leaves the tail as it was. */
    lemma ShrinkBack(before: DeviceState, count: nat)
      requires unterminatedSize + count < TWO_TO_63 && Grown(before, count)
      ensures Owns(Holders(), heap.live) && State() == before
    {
      OwnsLess(buffer.entry[..], Entry(unterminatedBuffptr, unterminatedSize + count),
               Entry(unterminatedBuffptr, unterminatedSize), heap.live);
    }

    /** Make room for `count` bytes behind the tail. */
    method Grow(count: nat)
      requires Sound() && 0 < count && unterminatedSize + count < TWO_TO_63
      modifies this`unterminatedBuffptr, heap
      ensures heap.Valid() && Grown(old(State()), count)
    {
      ghost var slots, was, live := buffer.entry[..], Entry(unterminatedBuffptr, unterminatedSize), heap.live;
      OwnedTail();
      unterminatedBuffptr := heap.Krealloc(unterminatedBuffptr, unterminatedSize + count);
      ContentKept(live, heap.live, was, unterminatedBuffptr);
      AfterResizeFrom(slots, was, buffer.outOffs, buffer.contents, live, heap.live,
                      Entry(unterminatedBuffptr, unterminatedSize + count));
    }

    /** `data` has been copied behind the tail: the block that holds both is the last holder's. */
    ghost predicate Copied(tail: seq<byte>, data: seq<byte>)
      reads this, buffer, buffer.entry, heap
      requires unterminatedSize + |data| < TWO_TO_63
    {
      var whole := Entry(unterminatedBuffptr, unterminatedSize + |data|);
      && whole.buffptr.At?
      && Owns(buffer.entry[..] + [whole], heap.live)
      && NullWhenEmpty(buffer.entry[..])
      && Content(heap.live, whole) == tail + data
      && |tail| == unterminatedSize
    }

    lemma CompletedContent(data: seq<byte>, tail: seq<byte>, entry: Entry, finalCount: nat)
      requires unterminatedSize + |data| < TWO_TO_63 && Copied(tail, data)
      requires 0 < finalCount <= |data| && entry == Entry(unterminatedBuffptr, unterminatedSize + finalCount)
      ensures Content(heap.live, entry) == tail + data[..finalCount]
    {
      var block := heap.live[entry.buffptr.address];
      assert Owns(buffer.entry[..] + [Entry(unterminatedBuffptr, unterminatedSize + |data|)], heap.live);
      assert (buffer.entry[..] + [Entry(unterminatedBuffptr, unterminatedSize + |data|)])[buffer.entry.Length].buffptr
             == unterminatedBuffptr;
      assert Take(block, unterminatedSize + |data|) == tail + data;
      TakeThenTake(block, unterminatedSize + finalCount, unterminatedSize + |data|);
    }

    /** What completing a line will leave behind: the entry in the slot at `inOffs`, and the block that
        slot held freed. */
    lemma CompletedLine(data: seq<byte>, tail: seq<byte>, entry: Entry, finalCount: nat)
      requires buffer.Valid() && unterminatedSize + |data| < TWO_TO_63 && Copied(tail, data)
      requires 0 < finalCount <= |data| && entry == Entry(unterminatedBuffptr, unterminatedSize + finalCount)
      ensures var evicted := Addresses(buffer.entry[buffer.inOffs].buffptr);
              && evicted <= heap.live.Keys
              && Owns(buffer.entry[..][buffer.inOffs := entry] + [ZERO_ENTRY], heap.live - evicted)
              && NullWhenEmpty(buffer.entry[..][buffer.inOffs := entry] + [ZERO_ENTRY])
              && Contents(heap.live - evicted, Push(buffer.entry.Length, buffer.contents, entry))
                 == Push(buffer.entry.Length, Contents(heap.live, buffer.contents), tail + data[..finalCount])
    {
      var whole := Entry(unterminatedBuffptr, unterminatedSize + |data|);
      buffer.NextSlot();
      AfterMove(buffer.entry[..], whole, buffer.outOffs, buffer.inOffs, buffer.contents, heap.live, entry);
      CompletedContent(data, tail, entry, finalCount);
      NullWhenEmptyAfter(buffer.entry[..], buffer.inOffs, entry);
    }

    /** The entry goes to the ring, and the block of the entry that leaves it is freed. */
    method StoreEntry(entry: Entry)
      requires buffer.Valid() && heap.Valid()
      requires Addresses(buffer.entry[buffer.inOffs].buffptr) <= heap.live.Keys
      modifies buffer, buffer.entry, heap
      ensures buffer.Valid() && heap.Valid()
      ensures buffer.contents == Push(buffer.entry.Length, old(buffer.contents), entry)
      ensures buffer.entry[..] == old(buffer.entry[..][buffer.inOffs := entry])
      ensures heap.live == old(heap.live - Addresses(buffer.entry[buffer.inOffs].buffptr))
    {
      var oldptr := buffer.AddEntry(entry);
      if oldptr.At? {
        heap.Kfree(oldptr.address);
      }
    }

    method CompleteLine(data: seq<byte>, finalCount: nat, ghost tail: seq<byte>)
      requires buffer.Valid() && heap.Valid() && unterminatedSize + |data| < TWO_TO_63
      requires Copied(tail, data) && 0 < finalCount <= |data|
      modifies this, buffer, buffer.entry, heap
      ensures Sound() && stream == old(stream)
      ensures State() == DeviceState(Push(buffer.entry.Length,
                                          Contents(old(heap.live), old(buffer.contents)),
                                          tail + data[..finalCount]), [])
    {
      var entry := Entry(unterminatedBuffptr, unterminatedSize + finalCount);
      CompletedLine(data, tail, entry, finalCount);
      StoreEntry(entry);
      unterminatedBuffptr := Null;
      unterminatedSize := 0;
      assert Holders() == old(buffer.entry[..][buffer.inOffs := entry]) + [ZERO_ENTRY];
    }

    /** The part of aesd_write that follows a successful copy of `data` behind the tail: find the first
        newline, and either extend the tail or complete a line. */
    method AcceptCopied(data: seq<byte>, ghost tail: seq<byte>) returns (finalCount: nat)
      requires buffer.Valid() && heap.Valid() && unterminatedSize + |data| < TWO_TO_63
      requires data != [] && Copied(tail, data)
      modifies this, buffer, buffer.entry, heap
      ensures Sound() && stream == old(stream)
      ensures finalCount == |ThroughNewline(data)|
      ensures State() == WriteStep(buffer.entry.Length,
                                   DeviceState(Contents(old(heap.live), old(buffer.contents)), tail),
                                   WriteCall(data, Succeeds))
    {
      var terminatorPosition := FindChar(data, |data|, NEWLINE);
      if terminatorPosition < 0 {
        finalCount := |data|;
        unterminatedSize := unterminatedSize + finalCount;
      } else {
        finalCount := terminatorPosition + 1;
        FoundNewlineEndsLine(data, terminatorPosition);
        CompleteLine(data, finalCount, tail);
      }
    }

    /** copy_from_user of the whole of `data` behind the tail. */
    method CopyIn(data: seq<byte>)
      requires buffer.Valid() && heap.Valid() && unterminatedSize + |data| < TWO_TO_63
      requires Grown(State(), |data|)
      modifies heap
      ensures heap.Valid() && Copied(old(State()).tail, data)
      ensures Contents(heap.live, buffer.contents) == old(State()).lines
    {
      ghost var slots, live := buffer.entry[..], heap.live;
      ghost var whole := Entry(unterminatedBuffptr, unterminatedSize + |data|);
      heap.Store(unterminatedBuffptr.address, unterminatedSize, data);
      OverwrittenBlock(live[unterminatedBuffptr.address], unterminatedSize, data);
      AfterResizeFrom(slots, whole, buffer.outOffs, buffer.contents, live, heap.live, whole);
    }

    /** The part of aesd_write that copies the data in and accepts it, once there is room for it. */
    method CopyAndAccept(data: seq<byte>, ghost before: DeviceState) returns (finalCount: nat)
      requires buffer.Valid() && heap.Valid() && data != [] && unterminatedSize + |data| < TWO_TO_63
      requires Grown(before, |data|)
      modifies this, buffer, buffer.entry, heap
      ensures Sound() && stream == old(stream)
      ensures finalCount == |ThroughNewline(data)|
      ensures State() == WriteStep(buffer.entry.Length, before, WriteCall(data, Succeeds))
    {
      CopyIn(data);
      finalCount := AcceptCopied(data, before.tail);
    }

    /** The end of a failing write: an empty tail does not keep a block. */
    method GiveUp()
      requires buffer.Valid() && heap.Valid()
      requires unterminatedBuffptr.At? ==> Owns(Holders(), heap.live) && NullWhenEmpty(buffer.entry[..])
      modifies this`unterminatedBuffptr, heap
      ensures heap.Valid()
      ensures old(unterminatedBuffptr.At?) ==> Sound()
      ensures old(unterminatedBuffptr == Null) ==> heap.live == old(heap.live)
      ensures State() == old(State())
      ensures unterminatedBuffptr == if unterminatedSize == 0 then Null else old(unterminatedBuffptr)
    {
      if unterminatedBuffptr.At? && unterminatedSize == 0 {
        ghost var was, live := Entry(unterminatedBuffptr, unterminatedSize), heap.live;
        AfterDropFrom(buffer.entry[..], was, buffer.outOffs, buffer.contents, live);
        assert Holders()[buffer.entry.Length] == was;
        heap.Kfree(unterminatedBuffptr.address);
        unterminatedBuffptr := Null;
      }
    }

    /** Block `a` is allocated and nobody holds it any more; every other block has its one holder. */
    ghost predicate Leaked(a: nat)
      reads this, buffer, buffer.entry, heap
    {
      buffer.Valid() && heap.Valid() && a in heap.live && Owns(Holders(), heap.live - {a})
    }

    /** What a failed allocation does to a tail that has bytes: its block is forgotten. */
    method ForgetTail()
      requires Sound() && unterminatedBuffptr.At?
      modifies this`unterminatedBuffptr
      ensures Leaked(old(unterminatedBuffptr).address) && !Sound()
      ensures unterminatedBuffptr == Null
    {
      ghost var slots, was := buffer.entry[..], Entry(unterminatedBuffptr, unterminatedSize);
      OwnsWithoutLast(slots, was, heap.live);
      OwnsWithNull(slots, unterminatedSize, heap.live - Addresses(unterminatedBuffptr));
      OwnedTail();
      assert Holders()[buffer.entry.Length] == was;
      unterminatedBuffptr := Null;
      assert Holders()[buffer.entry.Length] == Entry(Null, unterminatedSize);
    }

    /** aesd_write with the mutex held: take in the data up to its first newline. A newline completes
        the tail into a line, which enters the ring and may push the oldest line out, whose block is
        freed. A failing call changes nothing, except that a failed allocation loses the block of a tail
        that has bytes. */
    method WriteLocked(data: seq<byte>, outcome: WriteOutcome) returns (retval: int)
      requires Sound() && unterminatedSize + |data| < TWO_TO_63
      requires outcome != LockInterrupted
      modifies this, buffer, buffer.entry, heap
      ensures retval == WriteResult(WriteCall(data, outcome)) && stream == old(stream)
      ensures Sound() <==> !LosesTail(WriteCall(data, outcome), old(unterminatedSize))
      ensures Sound() ==> State() == WriteStep(buffer.entry.Length, old(State()), WriteCall(data, outcome))
      ensures !Sound() ==> old(unterminatedBuffptr).At? && Leaked(old(unterminatedBuffptr).address)
    {
      retval := -ENOMEM;
      var error := 0;
      ghost var before := State();
      OwnedTail();
      if |data| > 0 {
        if outcome == AllocationFails {
          if unterminatedBuffptr.At? {
            ForgetTail();
          }
        } else {
          Grow(|data|);
          if outcome == CopyFaults {
            error := 1;
            ShrinkBack(before, |data|);
          } else {
            var finalCount := CopyAndAccept(data, before);
            retval := finalCount;
          }
        }
      }
      if retval < 0 {
        GiveUp();
        if error != 0 {
          retval := -EFAULT;
        }
      }
    }

    /** aesd_write: the mutex, the file position, and the bytes the stream gains. The invariant survives
        exactly the calls that do not lose a tail to a failed allocation. */
    method Write(data: seq<byte>, outcome: WriteOutcome, pos: int) returns (retval: int, newPos: int)
      requires Valid() && unterminatedSize + |data| < TWO_TO_63
      modifies this, buffer, buffer.entry, heap
      ensures retval == WriteResult(WriteCall(data, outcome))
      ensures outcome == LockInterrupted ==> retval == -ERESTARTSYS
      ensures outcome != LockInterrupted && (data == [] || outcome == AllocationFails) ==> retval == -ENOMEM
      ensures outcome == CopyFaults && data != [] ==> retval == -EFAULT
      ensures outcome == Succeeds && data != [] ==> retval == newPos - pos > 0
      ensures stream == old(stream) + Accepted(WriteCall(data, outcome))
      ensures newPos == pos + |Accepted(WriteCall(data, outcome))|
      ensures Valid() <==> !LosesTail(WriteCall(data, outcome), old(unterminatedSize))
      ensures !Valid() ==> old(unterminatedBuffptr).At? && Leaked(old(unterminatedBuffptr).address)
    {
      retval, newPos := -ERESTARTSYS, pos;
      if outcome != LockInterrupted {
        WriteStepExtendsStream(buffer.entry.Length, stream, WriteCall(data, outcome));
        retval := WriteLocked(data, outcome);
        if retval >= 0 {
          newPos := pos + retval;
          stream := stream + ThroughNewline(data);
        }
      }
    }

    lemma LineSizes()
      requires Sound()
      ensures Lengths(State().lines) == Sizes(buffer.contents)
      ensures |State().tail| == unterminatedSize
      ensures |Flatten(State().lines)| == Sum(Sizes(buffer.contents))
      ensures forall e | e in buffer.contents :: e.buffptr == Null ==> e.size == 0
    {
      LinesHaveSizes(buffer.entry[..], Entry(unterminatedBuffptr, unterminatedSize), buffer.outOffs,
                     buffer.contents, heap.live);
      FlattenLength(State().lines);
    }

    /** The entry aesd_read copies from, and the byte it starts at: in the ring, or else in the tail. */
    method FindEntryForRead(pos: size_t, ghost count: nat) returns (r: Option<(Entry, size_t)>)
      requires Valid() && pos < TWO_TO_63
      ensures r.None? <==> pos >= |Image(State())|
      ensures r.Some? ==> r.value.1 < r.value.0.size == |Content(heap.live, r.value.0)|
      ensures r.Some? ==> Take(Drop(Content(heap.live, r.value.0), r.value.1), count)
                          == ReadByLocating(State(), pos, count)
    {
      LineSizes();
      var slot := buffer.FindEntryOffsetForFpos(pos);
      if slot.Some? {
        r := Some((buffer.entry[slot.value.index], slot.value.offset));
      } else {
        var size := buffer.Size();
        var remaining := pos - size;
        if remaining < unterminatedSize {
          r := Some((Entry(unterminatedBuffptr, unterminatedSize), remaining));
        } else {
          r := None;
        }
      }
    }

    /** copy_to_user of the bytes of an entry from `entryByte` on, no more than asked for. */
    method CopyOut(entry: Entry, entryByte: size_t, count: nat) returns (bytes: seq<byte>)
      requires entryByte < entry.size == |Content(heap.live, entry)|
      ensures bytes == Take(Drop(Content(heap.live, entry), entryByte), count)
    {
      var finalCount := entry.size - entryByte;
      finalCount := if count < finalCount then count else finalCount;
      CopiedOut(heap.live, entry, entryByte, count);
      bytes := heap.live[entry.buffptr.address][entryByte..entryByte + finalCount];
    }

    /** aesd_read: the bytes of the image from the position on, up to the first newline and no more than
        asked for. A failing call leaves the position where it was; a copy can only fail when there is
        something to copy. */
    method Read(count: nat, pos: nat, outcome: ReadOutcome) returns (retval: int, bytes: seq<byte>, newPos: nat)
      requires Valid() && pos < TWO_TO_63
      ensures var failure := if outcome == ReadInterrupted then -ERESTARTSYS
                             else if outcome == ReadFaults && pos < |Image(State())| then -EFAULT else 0;
              if failure < 0 then retval == failure && bytes == [] && newPos == pos
              else bytes == ReadStep(State(), pos, count) && retval == |bytes| && newPos == pos + |bytes|
    {
      if outcome == ReadInterrupted {
        return -ERESTARTSYS, [], pos;
      }
      bytes, newPos := [], pos;
      StateOfShape(buffer.entry.Length, stream);
      LocatingReadsImage(State(), pos, count);
      var currentEntry := FindEntryForRead(pos, count);
      if currentEntry.Some? {
        if outcome == ReadFaults {
          return -EFAULT, [], pos;
        }
        bytes := CopyOut(currentEntry.value.0, currentEntry.value.1, count);
      } else {
        PastTheEnd(State(), pos, count);
      }
      newPos := pos + |bytes|;
      retval := |bytes|;
    }

    /** aesd_iocseekto: seek to a byte of a line. The line number is converted to `uint8_t`. */
    method IocSeekTo(writeCmd: uint32, writeCmdOffset: uint32, pos: nat, interrupted: bool)
      returns (result: int, newPos: nat)
      requires Valid() && |Flatten(State().lines)| < TWO_TO_63
      ensures result == if interrupted then -ERESTARTSYS else SeekCommandResult(State(), writeCmd, writeCmdOffset)
      ensures newPos == if result >= 0 then result else pos
    {
      if interrupted {
        return -ERESTARTSYS, pos;
      }
      result, newPos := -EINVAL, pos;
      LineSizes();
      var fpos := buffer.FindFposForEntryOffset(ToUint8(writeCmd), writeCmdOffset);
      if fpos >= 0 {
        var size := buffer.Size();
        result := FixedSizeLlseek(0, fpos, SEEK_SET, size);
        if result >= 0 {
          newPos := result;
        }
      }
    }

    /** aesd_llseek: the size it seeks within is that of the ring's lines; the tail does not count. */
    method Llseek(offset: int, whence: int, pos: nat, interrupted: bool) returns (retval: int, newPos: nat)
      requires Valid()
      ensures retval == if interrupted then -ERESTARTSYS
                        else FixedSizeLlseek(pos, offset, whence, |Flatten(State().lines)|)
      ensures newPos == if retval >= 0 then retval else pos
      ensures interrupted ==> retval == -ERESTARTSYS
      ensures !interrupted ==>
                var size := |Flatten(State().lines)|;
                && (whence == 0 ==> retval == if 0 <= offset <= size then offset else -EINVAL)
                && (whence == 1 && offset == 0 ==> retval == pos)
                && (whence == 1 && offset != 0 ==>
                      retval == if 0 <= pos + offset <= size then pos + offset else -EINVAL)
                && (whence == 2 ==> retval == if 0 <= size + offset <= size then size + offset else -EINVAL)
                && (whence !in {0, 1, 2} ==> retval == -EINVAL)
    {
      if interrupted {
        return -ERESTARTSYS, pos;
      }
      LineSizes();
      var size := buffer.Size();
      retval := FixedSizeLlseek(pos, offset, whence, size);
      newPos := if retval >= 0 then retval else pos;
    }

    method FreeIfPresent(p: Pointer)
      requires heap.Valid() && Addresses(p) <= heap.live.Keys
      modifies heap
      ensures heap.Valid()
      ensures heap.live == old(heap.live) - Addresses(p) && heap.freed == old(heap.freed) + Addresses(p)
    {
      if p.At? {
        heap.Kfree(p.address);
      }
    }

    /** One round of the cleanup loop. */
    method FreeSlot(index: nat, ghost lost: set<nat>)
      requires index < buffer.entry.Length
      requires heap.Valid() && lost <= heap.live.Keys && Owns(buffer.entry[index..], heap.live - lost)
      modifies heap
      ensures heap.Valid() && lost <= heap.live.Keys && Owns(buffer.entry[index + 1..], heap.live - lost)
      ensures heap.live.Keys <= old(heap.live.Keys)
      ensures heap.freed == old(heap.freed) + (old(heap.live.Keys) - heap.live.Keys)
    {
      assert buffer.entry[index..][1..] == buffer.entry[index + 1..];
      OwnsWithoutFirst(buffer.entry[index..], heap.live - lost);
      WithoutBoth(heap.live, lost, Addresses(buffer.entry[index].buffptr));
      FreeIfPresent(buffer.entry[index].buffptr);
    }

    /** aesd_cleanup_module: free the unterminated buffer and every slot's block. Every block that was
        still held is freed, each once; `lost` are the blocks that nobody holds. */
    method Cleanup(ghost lost: set<nat>)
      requires heap.Valid() && lost <= heap.live.Keys && Owns(Holders(), heap.live - lost)
      modifies heap
      ensures heap.Valid() && heap.live.Keys == lost
      ensures heap.freed == old(heap.freed) + (old(heap.live.Keys) - lost)
    {
      ghost var before, given := heap.live.Keys, heap.freed;
      OwnsWithoutLast(buffer.entry[..], Entry(unterminatedBuffptr, unterminatedSize), heap.live - lost);
      WithoutBoth(heap.live, lost, Addresses(unterminatedBuffptr));
      FreeIfPresent(unterminatedBuffptr);
      var index := 0;
      while index < buffer.entry.Length
        invariant 0 <= index <= buffer.entry.Length
        invariant heap.Valid() && Owns(buffer.entry[index..], heap.live - lost)
        invariant lost <= heap.live.Keys <= before && heap.freed == given + (before - heap.live.Keys)
      {
        FreeSlot(index, lost);
        index := index + 1;
      }
      assert buffer.entry[buffer.entry.Length..] == [];
      NoHoldersNoBlocks(heap.live - lost);
      assert heap.live.Keys == lost by {
        assert forall a | a in heap.live && a !in lost :: a in heap.live - lost;
      }
    }
  }
}
