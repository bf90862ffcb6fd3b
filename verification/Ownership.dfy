/** Which holder owns which heap block, and which bytes an entry therefore stands for. The holders of
    a device are its ring slots, in slot order, followed by the unterminated buffer. */
module Ownership {
  import opened CTypes
  import opened Lines
  import opened Positions
  import opened CircularBuffers
  import opened KernelHeap

  type Blocks = map<nat, seq<byte>>

  /** Every holder's block is allocated and large enough, no block has two holders, and no allocated
      block is without one. */
  ghost predicate Owns(holders: seq<Entry>, live: Blocks) {
    && (forall i | 0 <= i < |holders| && holders[i].buffptr.At? ::
          holders[i].buffptr.address in live && holders[i].size <= |live[holders[i].buffptr.address]|)
    && (forall i, j | 0 <= i < j < |holders| && holders[i].buffptr.At? && holders[j].buffptr.At? ::
          holders[i].buffptr.address != holders[j].buffptr.address)
    && (forall a {:trigger HasHolder(holders, a)} | a in live :: HasHolder(holders, a))
  }

  ghost predicate HasHolder(holders: seq<Entry>, a: nat) {
    exists i :: 0 <= i < |holders| && holders[i].buffptr == At(a)
  }

  /** A holder has a block exactly when it claims bytes. */
  ghost predicate NullWhenEmpty(holders: seq<Entry>) {
    forall i | 0 <= i < |holders| :: holders[i].buffptr == Null <==> holders[i].size == 0
  }

  /** The bytes an entry stands for. */
  function Content(live: Blocks, e: Entry): seq<byte> {
    if e.buffptr.At? && e.buffptr.address in live then Take(live[e.buffptr.address], e.size) else []
  }

  function Contents(live: Blocks, es: seq<Entry>): (r: seq<seq<byte>>)
    ensures |r| == |es|
  {
    seq(|es|, i requires 0 <= i < |es| => Content(live, es[i]))
  }

  /** The last holder's block was resized, or obtained. */
  lemma OwnsAfterResize(holders: seq<Entry>, live: Blocks, live': Blocks, e: Entry)
    requires holders != [] && Owns(holders, live)
    requires var p := holders[|holders| - 1].buffptr;
             && e.buffptr.At? && e.buffptr.address in live'
             && (e.buffptr == p || e.buffptr.address !in live)
             && live'.Keys == live.Keys - Addresses(p) + {e.buffptr.address}
             && (forall a | a in live' && a != e.buffptr.address :: live'[a] == live[a])
             && e.size <= |live'[e.buffptr.address]|
    ensures Owns(holders[|holders| - 1 := e], live')
  {
    var holders' := holders[|holders| - 1 := e];
    forall a | a in live'
      ensures HasHolder(holders', a)
    {
      if a == e.buffptr.address {
        assert holders'[|holders| - 1].buffptr == At(a);
      } else {
        assert HasHolder(holders, a);
        var i :| 0 <= i < |holders| && holders[i].buffptr == At(a);
        assert holders'[i].buffptr == At(a);
      }
    }
  }

  /** The last holder hands its block to holder `i`, whose own block, if any, is freed. */
  lemma OwnsAfterMove(holders: seq<Entry>, live: Blocks, i: nat, e: Entry)
    requires i < |holders| - 1 && Owns(holders, live)
    requires e.buffptr == holders[|holders| - 1].buffptr && e.size <= holders[|holders| - 1].size
    ensures Owns(holders[i := e][|holders| - 1 := ZERO_ENTRY], live - Addresses(holders[i].buffptr))
  {
    var last := |holders| - 1;
    var holders' := holders[i := e][last := ZERO_ENTRY];
    forall a | a in live - Addresses(holders[i].buffptr)
      ensures HasHolder(holders', a)
    {
      assert HasHolder(holders, a);
      var j :| 0 <= j < |holders| && holders[j].buffptr == At(a);
      assert holders'[if j == last then i else j].buffptr == At(a);
    }
  }

  /** The last holder's block is freed. */
  lemma OwnsAfterDrop(holders: seq<Entry>, live: Blocks)
    requires holders != [] && Owns(holders, live)
    ensures Owns(holders[|holders| - 1 := ZERO_ENTRY], live - Addresses(holders[|holders| - 1].buffptr))
  {
    var last := |holders| - 1;
    var holders' := holders[last := ZERO_ENTRY];
    forall a | a in live - Addresses(holders[last].buffptr)
      ensures HasHolder(holders', a)
    {
      assert HasHolder(holders, a);
      var j :| 0 <= j < |holders| && holders[j].buffptr == At(a);
      assert holders'[j].buffptr == At(a);
    }
  }

  /** The ring's entries keep their bytes while other blocks change or disappear. */
  lemma ContentsUnchanged(live: Blocks, live': Blocks, es: seq<Entry>)
    requires forall i | 0 <= i < |es| && es[i].buffptr.At? && es[i].buffptr.address in live ::
               es[i].buffptr.address in live' && live'[es[i].buffptr.address] == live[es[i].buffptr.address]
    requires forall i | 0 <= i < |es| && es[i].buffptr.At? :: es[i].buffptr.address in live
    ensures Contents(live', es) == Contents(live, es)
  {
  }

  /** Every ring entry is one of the holders before the last, and distinct entries are distinct
      holders. */
  ghost predicate InSlots(holders: seq<Entry>, start: nat, es: seq<Entry>) {
    holders != [] && Represents(holders[..|holders| - 1], start, es)
  }

  /** Changing the last holder's block leaves the ring's lines alone. */
  lemma LinesAfterResize(holders: seq<Entry>, start: nat, es: seq<Entry>, live: Blocks, live': Blocks)
    requires Owns(holders, live) && InSlots(holders, start, es)
    requires var p := holders[|holders| - 1].buffptr;
             forall a | a in live && a !in Addresses(p) :: a in live' && live'[a] == live[a]
    ensures Contents(live', es) == Contents(live, es)
  {
    forall i | 0 <= i < |es| && es[i].buffptr.At?
      ensures es[i].buffptr.address in live && es[i].buffptr.address !in Addresses(holders[|holders| - 1].buffptr)
    {
      var slot := SlotAfter(start, i, |holders| - 1);
      assert es[i] == holders[slot];
    }
    ContentsUnchanged(live, live', es);
  }

  /** Freeing the oldest entry's block leaves the other lines alone. */
  lemma LinesAfterEviction(holders: seq<Entry>, start: nat, es: seq<Entry>, live: Blocks)
    requires Owns(holders, live) && InSlots(holders, start, es) && es != []
    ensures Contents(live - Addresses(es[0].buffptr), es[1..]) == Contents(live, es)[1..]
  {
    var live' := live - Addresses(es[0].buffptr);
    forall i | 0 <= i < |es[1..]| && es[1..][i].buffptr.At?
      ensures es[1..][i].buffptr.address in live && es[1..][i].buffptr.address in live'
    {
      var s0, s1 := SlotAfter(start, 0, |holders| - 1), SlotAfter(start, i + 1, |holders| - 1);
      assert es[0] == holders[s0] && es[i + 1] == holders[s1];
      assert s0 != s1;
    }
    ContentsUnchanged(live, live', es[1..]);
    assert Contents(live, es)[1..] == Contents(live, es[1..]);
  }

  lemma ContentsAppend(live: Blocks, es: seq<Entry>, e: Entry)
    ensures Contents(live, es + [e]) == Contents(live, es) + [Content(live, e)]
  {
  }

  // ------------------------------------------------- the holders across one write

  /** Block `p`, if it is one, was replaced by block `q`. */
  ghost predicate Replaced(p: Pointer, live: Blocks, live': Blocks, q: Pointer) {
    && q.At? && q.address in live'
    && (q == p || q.address !in live)
    && live'.Keys == live.Keys - Addresses(p) + {q.address}
    && (forall a | a in live' && a != q.address :: live'[a] == live[a])
  }

  lemma SlotsKept(holders: seq<Entry>, start: nat, es: seq<Entry>, e: Entry)
    requires InSlots(holders, start, es)
    ensures InSlots(holders[|holders| - 1 := e], start, es)
  {
    assert holders[|holders| - 1 := e][..|holders| - 1] == holders[..|holders| - 1];
  }

  /** The last holder is now entry `e`, in the block that replaced its own. */
  lemma AfterResize(holders: seq<Entry>, start: nat, es: seq<Entry>, live: Blocks, live': Blocks, e: Entry)
    requires holders != [] && Owns(holders, live) && InSlots(holders, start, es)
    requires Replaced(holders[|holders| - 1].buffptr, live, live', e.buffptr) && e.size <= |live'[e.buffptr.address]|
    ensures Owns(holders[|holders| - 1 := e], live') && InSlots(holders[|holders| - 1 := e], start, es)
    ensures Contents(live', es) == Contents(live, es)
  {
    OwnsAfterResize(holders, live, live', e);
    LinesAfterResize(holders, start, es, live, live');
    SlotsKept(holders, start, es, e);
  }

  /** The last holder gives its block up, and the block is freed. */
  lemma AfterDrop(holders: seq<Entry>, start: nat, es: seq<Entry>, live: Blocks)
    requires holders != [] && Owns(holders, live) && InSlots(holders, start, es)
    ensures var n, live' := |holders| - 1, live - Addresses(holders[|holders| - 1].buffptr);
            Owns(holders[n := ZERO_ENTRY], live') && Contents(live', es) == Contents(live, es)
  {
    OwnsAfterDrop(holders, live);
    LinesAfterResize(holders, start, es, live, live - Addresses(holders[|holders| - 1].buffptr));
  }

  lemma LinesAfterMove(holders: seq<Entry>, start: nat, es: seq<Entry>, live: Blocks, e: Entry)
    requires |holders| > 1 && Owns(holders, live) && InSlots(holders, start, es)
    requires e.buffptr == holders[|holders| - 1].buffptr && e.buffptr.At?
    requires |es| < |holders| - 1 ==> holders[SlotAfter(start, |es|, |holders| - 1)] == ZERO_ENTRY
    ensures var n, next := |holders| - 1, SlotAfter(start, |es|, |holders| - 1);
            var live' := live - Addresses(holders[next].buffptr);
            Contents(live', Push(n, es, e)) == Push(n, Contents(live, es), Content(live, e))
  {
    var n, next := |holders| - 1, SlotAfter(start, |es|, |holders| - 1);
    var live' := live - Addresses(holders[next].buffptr);
    if |es| < n {
      assert live' == live;
      ContentsAppend(live, es, e);
    } else {
      assert es[0] == holders[next];
      LinesAfterEviction(holders, start, es, live);
      ContentsAppend(live', es[1..], e);
      assert Content(live', e) == Content(live, e);
    }
  }

  lemma HoldersAfterMove(slots: seq<Entry>, next: nat, last: Entry, e: Entry)
    requires next < |slots|
    ensures (slots + [last])[next := e][|slots| := ZERO_ENTRY] == slots[next := e] + [ZERO_ENTRY]
    ensures (slots + [last])[..|slots|] == slots
    ensures (slots + [last])[next] == slots[next]
  {
  }

  lemma OwnsMoved(slots: seq<Entry>, last: Entry, next: nat, live: Blocks, e: Entry)
    requires Owns(slots + [last], live) && next < |slots|
    requires e.buffptr == last.buffptr && e.size <= last.size
    ensures Addresses(slots[next].buffptr) <= live.Keys
    ensures Owns(slots[next := e] + [ZERO_ENTRY], live - Addresses(slots[next].buffptr))
  {
    HoldersAfterMove(slots, next, last, e);
    OwnsAfterMove(slots + [last], live, next, e);
  }

  lemma LinesMoved(slots: seq<Entry>, last: Entry, start: nat, next: nat, es: seq<Entry>, live: Blocks, e: Entry)
    requires Owns(slots + [last], live) && Represents(slots, start, es)
    requires e.buffptr == last.buffptr && e.buffptr.At?
    requires next == SlotAfter(start, |es|, |slots|) && next < |slots|
    requires |es| < |slots| ==> slots[next] == ZERO_ENTRY
    ensures Contents(live - Addresses(slots[next].buffptr), Push(|slots|, es, e))
            == Push(|slots|, Contents(live, es), Content(live, e))
  {
    HoldersAfterMove(slots, next, last, e);
    LinesAfterMove(slots + [last], start, es, live, e);
  }

  /** The last holder's block goes to the ring slot that follows the stored entries, as entry `e`, and
      the block that slot held is freed: a bounded append to the ring's lines. */
  lemma AfterMove(slots: seq<Entry>, last: Entry, start: nat, next: nat, es: seq<Entry>, live: Blocks, e: Entry)
    requires Owns(slots + [last], live) && Represents(slots, start, es)
    requires e.buffptr == last.buffptr && e.buffptr.At? && e.size <= last.size
    requires next == SlotAfter(start, |es|, |slots|) && next < |slots|
    requires |es| < |slots| ==> slots[next] == ZERO_ENTRY
    ensures var evicted := Addresses(slots[next].buffptr);
            && evicted <= live.Keys
            && Owns(slots[next := e] + [ZERO_ENTRY], live - evicted)
            && Contents(live - evicted, Push(|slots|, es, e)) == Push(|slots|, Contents(live, es), Content(live, e))
  {
    OwnsMoved(slots, last, next, live, e);
    LinesMoved(slots, last, start, next, es, live, e);
  }

  /** `AfterResize` with the ring slots and the last holder apart. */
  lemma AfterResizeFrom(slots: seq<Entry>, last: Entry, start: nat, es: seq<Entry>, live: Blocks, live': Blocks,
                        e: Entry)
    requires Owns(slots + [last], live) && Represents(slots, start, es)
    requires Replaced(last.buffptr, live, live', e.buffptr) && e.size <= |live'[e.buffptr.address]|
    ensures Owns(slots + [e], live') && Contents(live', es) == Contents(live, es)
  {
    assert (slots + [last])[..|slots|] == slots;
    assert (slots + [last])[|slots| := e] == slots + [e];
    AfterResize(slots + [last], start, es, live, live', e);
  }

  /** `AfterDrop` with the ring slots and the last holder apart. */
  lemma AfterDropFrom(slots: seq<Entry>, last: Entry, start: nat, es: seq<Entry>, live: Blocks)
    requires Owns(slots + [last], live) && Represents(slots, start, es)
    ensures var live' := live - Addresses(last.buffptr);
            Owns(slots + [ZERO_ENTRY], live') && Contents(live', es) == Contents(live, es)
  {
    assert (slots + [last])[..|slots|] == slots;
    assert (slots + [last])[|slots| := ZERO_ENTRY] == slots + [ZERO_ENTRY];
    AfterDrop(slots + [last], start, es, live);
  }

  lemma OwnsLess(slots: seq<Entry>, last: Entry, less: Entry, live: Blocks)
    requires Owns(slots + [last], live) && less.buffptr == last.buffptr && less.size <= last.size
    ensures Owns(slots + [less], live)
  {
    var before, after := slots + [last], slots + [less];
    assert forall i | 0 <= i < |after| ::
        after[i].buffptr == before[i].buffptr && after[i].size <= before[i].size;
    forall a | a in live
      ensures HasHolder(after, a)
    {
      assert HasHolder(before, a);
      var i :| 0 <= i < |before| && before[i].buffptr == At(a);
      assert after[i].buffptr == At(a);
    }
  }

  /** The ring's lines are as long as its entries say, and hold their blocks' bytes. */
  lemma LinesHaveSizes(slots: seq<Entry>, last: Entry, start: nat, es: seq<Entry>, live: Blocks)
    requires Owns(slots + [last], live) && NullWhenEmpty(slots + [last]) && Represents(slots, start, es)
    ensures Lengths(Contents(live, es)) == Sizes(es)
    ensures |Content(live, last)| == last.size
    ensures forall e | e in es :: e.buffptr == Null <==> e.size == 0
  {
    var holders := slots + [last];
    forall i | 0 <= i < |es|
      ensures es[i] == holders[SlotAfter(start, i, |slots|)]
    {
    }
    assert holders[|slots|] == last;
  }

  /** Freeing the last holder's block leaves the rest of the holders owning the rest of the blocks. */
  lemma OwnsWithoutLast(slots: seq<Entry>, last: Entry, live: Blocks)
    requires Owns(slots + [last], live)
    ensures Addresses(last.buffptr) <= live.Keys
    ensures Owns(slots, live - Addresses(last.buffptr))
  {
    var holders := slots + [last];
    assert holders[|slots|] == last;
    assert forall i | 0 <= i < |slots| :: slots[i] == holders[i];
    forall a | a in live - Addresses(last.buffptr)
      ensures HasHolder(slots, a)
    {
      assert HasHolder(holders, a);
      var i :| 0 <= i < |holders| && holders[i].buffptr == At(a);
      assert slots[i].buffptr == At(a);
    }
  }

  /** Freeing the first holder's block leaves the rest of the holders owning the rest of the blocks. */
  lemma OwnsWithoutFirst(holders: seq<Entry>, live: Blocks)
    requires holders != [] && Owns(holders, live)
    ensures Addresses(holders[0].buffptr) <= live.Keys
    ensures Owns(holders[1..], live - Addresses(holders[0].buffptr))
  {
    forall a | a in live - Addresses(holders[0].buffptr)
      ensures HasHolder(holders[1..], a)
    {
      assert HasHolder(holders, a);
      var i :| 0 <= i < |holders| && holders[i].buffptr == At(a);
      assert holders[1..][i - 1].buffptr == At(a);
    }
  }

  /** A holder without a block owns nothing, whatever size it claims. */
  lemma OwnsWithNull(slots: seq<Entry>, size: size_t, live: Blocks)
    requires Owns(slots, live)
    ensures Owns(slots + [Entry(Null, size)], live)
  {
    var holders := slots + [Entry(Null, size)];
    assert forall i | 0 <= i < |slots| :: holders[i] == slots[i];
    forall a | a in live
      ensures HasHolder(holders, a)
    {
      assert HasHolder(slots, a);
      var i :| 0 <= i < |slots| && slots[i].buffptr == At(a);
      assert holders[i].buffptr == At(a);
    }
  }

  lemma WithoutBoth(live: Blocks, lost: set<nat>, more: set<nat>)
    requires more <= (live - lost).Keys
    ensures more <= live.Keys && (live - more) - lost == (live - lost) - more
    ensures lost <= live.Keys ==> lost <= (live - more).Keys
  {
  }

  lemma NoHoldersNoBlocks(live: Blocks)
    requires Owns([], live)
    ensures live == map[]
  {
    assert forall a | a in live :: HasHolder([], a);
    assert forall a :: !HasHolder([], a);
    assert live.Keys == {};
  }
}
