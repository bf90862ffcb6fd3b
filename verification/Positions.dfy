/** Positions in a list of entries laid end to end: (entry, byte) pairs and flat offsets. */
module Positions {
  import opened CTypes
  import opened Lines

  datatype Position = Position(entry: nat, offset: nat)

  function Sum(sizes: seq<nat>): nat {
    if sizes == [] then 0 else sizes[0] + Sum(sizes[1..])
  }

  lemma {:induction false} SumAppend(xs: seq<nat>, ys: seq<nat>)
    ensures Sum(xs + ys) == Sum(xs) + Sum(ys)
  {
    if xs == [] {
      assert xs + ys == ys;
    } else {
      assert (xs + ys)[1..] == xs[1..] + ys;
      SumAppend(xs[1..], ys);
    }
  }

  lemma SumSplit(sizes: seq<nat>, k: nat)
    requires k <= |sizes|
    ensures Sum(sizes) == Sum(sizes[..k]) + Sum(sizes[k..])
  {
    assert sizes == sizes[..k] + sizes[k..];
    SumAppend(sizes[..k], sizes[k..]);
  }

  /** The sum of a prefix grows by the next element. */
  lemma SumStep(sizes: seq<nat>, k: nat)
    requires k < |sizes|
    ensures Sum(sizes[..k + 1]) == Sum(sizes[..k]) + sizes[k]
    ensures Sum(sizes[..k + 1]) <= Sum(sizes)
  {
    var next := sizes[..k + 1];
    SumSplit(next, k);
    assert next[..k] == sizes[..k] && next[k..] == [sizes[k]];
    assert [sizes[k]][1..] == [];
    SumSplit(sizes, k + 1);
  }

  /** Rotating a list does not change its sum. */
  lemma SumRotation(sizes: seq<nat>, k: nat)
    requires k <= |sizes|
    ensures Sum(sizes[k..] + sizes[..k]) == Sum(sizes)
  {
    SumAppend(sizes[k..], sizes[..k]);
    SumAppend(sizes[..k], sizes[k..]);
    assert sizes[..k] + sizes[k..] == sizes;
  }

  predicate ValidPosition(sizes: seq<nat>, p: Position) {
    p.entry < |sizes| && p.offset < sizes[p.entry]
  }

  /** The flat offset of a position. */
  function FlatOffset(sizes: seq<nat>, p: Position): nat
    requires ValidPosition(sizes, p)
  {
    Sum(sizes[..p.entry]) + p.offset
  }

  predicate Before(p: Position, q: Position) {
    p.entry < q.entry || (p.entry == q.entry && p.offset < q.offset)
  }

  lemma SumMonotone(sizes: seq<nat>, i: nat, j: nat)
    requires i <= j <= |sizes|
    ensures Sum(sizes[..i]) <= Sum(sizes[..j])
  {
    assert sizes[..j] == sizes[..i] + sizes[i..j];
    SumAppend(sizes[..i], sizes[i..j]);
  }

  /** Flat offsets order positions lexicographically, and stay below the total. */
  lemma FlatOffsetOrder(sizes: seq<nat>, p: Position, q: Position)
    requires ValidPosition(sizes, p) && ValidPosition(sizes, q)
    ensures Before(p, q) <==> FlatOffset(sizes, p) < FlatOffset(sizes, q)
    ensures p == q <==> FlatOffset(sizes, p) == FlatOffset(sizes, q)
    ensures FlatOffset(sizes, p) < Sum(sizes)
  {
    SumStep(sizes, p.entry);
    SumStep(sizes, q.entry);
    if p.entry < q.entry {
      SumMonotone(sizes, p.entry + 1, q.entry);
    } else if q.entry < p.entry {
      SumMonotone(sizes, q.entry + 1, p.entry);
    }
  }

  /** The position that holds flat offset `target`, searching from entry `k` with `target`
      counted from that entry's first byte. */
  function LocateFrom(sizes: seq<nat>, k: nat, target: nat): Option<Position>
    requires k <= |sizes|
    decreases |sizes| - k
  {
    if k == |sizes| then None
    else if target < sizes[k] then Some(Position(k, target))
    else LocateFrom(sizes, k + 1, target - sizes[k])
  }

  lemma {:induction false} LocateFromSound(sizes: seq<nat>, k: nat, target: nat)
    requires k <= |sizes|
    ensures var r := LocateFrom(sizes, k, target);
            && (r.None? <==> target >= Sum(sizes[k..]))
            && (r.Some? ==> ValidPosition(sizes, r.value) && r.value.entry >= k
                            && FlatOffset(sizes, r.value) == Sum(sizes[..k]) + target)
    decreases |sizes| - k
  {
    if k < |sizes| {
      assert sizes[k..][0] == sizes[k] && sizes[k..][1..] == sizes[k + 1..];
      if target >= sizes[k] {
        SumStep(sizes, k);
        LocateFromSound(sizes, k + 1, target - sizes[k]);
      }
    }
  }

  function Locate(sizes: seq<nat>, target: nat): (r: Option<Position>)
    ensures r.None? <==> target >= Sum(sizes)
    ensures r.Some? ==> ValidPosition(sizes, r.value) && FlatOffset(sizes, r.value) == target
  {
    assert sizes[0..] == sizes;
    LocateFromSound(sizes, 0, target);
    LocateFrom(sizes, 0, target)
  }

  /** The flat offset of (entry, offset), or -1 when there is no such byte. */
  function FlatOffsetOrMinusOne(sizes: seq<nat>, entry: nat, offset: nat): int {
    if ValidPosition(sizes, Position(entry, offset)) then FlatOffset(sizes, Position(entry, offset)) else -1
  }

  /** Locating and flattening are mutually inverse bijections between the valid positions and
      [0, Sum(sizes)). */
  lemma LocateFlatOffsetInverse(sizes: seq<nat>)
    ensures forall p | ValidPosition(sizes, p) :: Locate(sizes, FlatOffset(sizes, p)) == Some(p)
    ensures forall t: nat | t < Sum(sizes) ::
      Locate(sizes, t).Some? && FlatOffset(sizes, Locate(sizes, t).value) == t
  {
    forall p | ValidPosition(sizes, p)
      ensures Locate(sizes, FlatOffset(sizes, p)) == Some(p)
    {
      FlatOffsetOrder(sizes, p, p);
      FlatOffsetOrder(sizes, p, Locate(sizes, FlatOffset(sizes, p)).value);
    }
  }

  function Lengths(parts: seq<seq<byte>>): (r: seq<nat>)
    ensures |r| == |parts|
  {
    seq(|parts|, i requires 0 <= i < |parts| => |parts[i]|)
  }

  lemma {:induction false} FlattenLength(parts: seq<seq<byte>>)
    ensures |Flatten(parts)| == Sum(Lengths(parts))
  {
    if parts != [] {
      assert Lengths(parts)[1..] == Lengths(parts[1..]);
      FlattenLength(parts[1..]);
    }
  }

  /** What follows a flat offset: the rest of its entry and then the later entries. */
  lemma FlattenFrom(parts: seq<seq<byte>>, p: Position)
    requires ValidPosition(Lengths(parts), p)
    ensures FlatOffset(Lengths(parts), p) < |Flatten(parts)|
    ensures Flatten(parts)[FlatOffset(Lengths(parts), p)..]
            == parts[p.entry][p.offset..] + Flatten(parts[p.entry + 1..])
  {
    var k := p.entry;
    FlattenLength(parts);
    FlatOffsetOrder(Lengths(parts), p, p);
    FlattenLength(parts[..k]);
    assert Lengths(parts)[..k] == Lengths(parts[..k]);
    assert parts == parts[..k] + parts[k..];
    FlattenAppend(parts[..k], parts[k..]);
    assert parts[k..][0] == parts[k] && parts[k..][1..] == parts[k + 1..];
  }

  /** Locating a flat offset finds the byte that the concatenation holds there, and finds nothing
      exactly at or past its end. */
  lemma LocateByte(parts: seq<seq<byte>>, target: nat)
    ensures Locate(Lengths(parts), target).None? <==> target >= |Flatten(parts)|
    ensures Locate(Lengths(parts), target).Some? ==>
              var p := Locate(Lengths(parts), target).value;
              Flatten(parts)[target] == parts[p.entry][p.offset]
  {
    FlattenLength(parts);
    if target < |Flatten(parts)| {
      var p := Locate(Lengths(parts), target).value;
      FlattenFrom(parts, p);
      assert Flatten(parts)[target] == Flatten(parts)[target..][0];
    }
  }
}
