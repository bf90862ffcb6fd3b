/** Whole lifetimes of the device: from init, through any run of writes and reads, to cleanup. */
module DeviceRuns {
  import opened CTypes
  import opened Lines
  import opened DeviceSpec
  import opened CharDevices
  import opened SystemCalls

  // ------------------------------------------------------------- runs of writes

  /** How many bytes a run of calls offers. */
  function Offered(calls: seq<WriteCall>): nat {
    if calls == [] then 0 else |calls[0].data| + Offered(calls[1..])
  }

  function Results(calls: seq<WriteCall>): seq<int> {
    if calls == [] then [] else [WriteResult(calls[0])] + Results(calls[1..])
  }

  /** How far a run of writes has got: what is still to come leads where the whole run leads. */
  ghost predicate WriteRunSoFar(capacity: nat, st0: DeviceState, stream0: seq<byte>, calls: seq<WriteCall>, i: nat,
                               st: DeviceState, stream: seq<byte>, results: seq<int>)
    requires i <= |calls|
  {
    && |stream| + Offered(calls[i..]) < TWO_TO_63
    && stream + AcceptedByAll(calls[i..]) == stream0 + AcceptedByAll(calls)
    && results + Results(calls[i..]) == Results(calls)
    && (KeepsTails(capacity, st, calls[i..]) <==> KeepsTails(capacity, st0, calls))
  }

  lemma WrittenOneMore(capacity: nat, st0: DeviceState, stream0: seq<byte>, calls: seq<WriteCall>, i: nat,
                       st: DeviceState, stream: seq<byte>, results: seq<int>)
    requires i < |calls| && WriteRunSoFar(capacity, st0, stream0, calls, i, st, stream, results)
    ensures |stream| + |calls[i].data| < TWO_TO_63
    ensures if LosesTail(calls[i], |st.tail|) then !KeepsTails(capacity, st0, calls)
            else WriteRunSoFar(capacity, st0, stream0, calls, i + 1, WriteStep(capacity, st, calls[i]),
                              stream + Accepted(calls[i]), results + [WriteResult(calls[i])])
  {
    assert calls[i..][0] == calls[i] && calls[i..][1..] == calls[i + 1..];
    AppendAssociates(stream, Accepted(calls[i]), AcceptedByAll(calls[i + 1..]));
    AppendAssociates(results, [WriteResult(calls[i])], Results(calls[i + 1..]));
  }

  lemma WrittenAll(capacity: nat, st0: DeviceState, stream0: seq<byte>, calls: seq<WriteCall>,
                   st: DeviceState, stream: seq<byte>, results: seq<int>)
    requires WriteRunSoFar(capacity, st0, stream0, calls, |calls|, st, stream, results)
    ensures stream == stream0 + AcceptedByAll(calls) && results == Results(calls) && KeepsTails(capacity, st0, calls)
  {
    assert calls[|calls|..] == [];
    assert stream + [] == stream && results + [] == results;
  }

  /** One call of a run. */
  method WriteOne(dev: CharDevice, call: WriteCall, pos: int) returns (retval: int, newPos: int, lost: Option<nat>)
    requires dev.Valid() && |dev.stream| + |call.data| < TWO_TO_63
    modifies dev, dev.buffer, dev.buffer.entry, dev.heap
    ensures lost.Some? <==> LosesTail(call, |old(dev.State()).tail|)
    ensures lost.None? ==>
              && dev.Valid() && retval == WriteResult(call) && dev.stream == old(dev.stream) + Accepted(call)
              && dev.State() == WriteStep(dev.buffer.entry.Length, old(dev.State()), call)
    ensures lost.Some? ==> dev.Leaked(lost.value)
  {
    TailWithinStream(dev.buffer.entry.Length, dev.stream);
    dev.LineSizes();
    WriteStepExtendsStream(dev.buffer.entry.Length, dev.stream, call);
    var tail, tailSize := dev.unterminatedBuffptr, dev.unterminatedSize;
    retval, newPos := dev.Write(call.data, call.outcome, pos);
    lost := if LosesTail(call, tailSize) && tail.At? then Some(tail.address) else None;
  }

  /** Any run of calls on a device, up to the first that loses a tail, if one does: each returns what it
      should, and together they do what the run does to the specification. */
  method WriteAll(dev: CharDevice, calls: seq<WriteCall>) returns (results: seq<int>, lost: Option<nat>)
    requires dev.Valid() && |dev.stream| + Offered(calls) < TWO_TO_63
    modifies dev, dev.buffer, dev.buffer.entry, dev.heap
    ensures lost.None? <==> KeepsTails(dev.buffer.entry.Length, old(dev.State()), calls)
    ensures lost.None? ==>
              && dev.Valid() && results == Results(calls)
              && dev.stream == old(dev.stream) + AcceptedByAll(calls)
              && dev.State() == RunWrites(dev.buffer.entry.Length, old(dev.State()), calls)
    ensures lost.Some? ==> dev.Leaked(lost.value)
  {
    ghost var capacity, st0, stream0 := dev.buffer.entry.Length, dev.State(), dev.stream;
    results, lost := [], None;
    var pos, i := 0, 0;
    assert calls[0..] == calls;
    while i < |calls|
      invariant 0 <= i <= |calls| && dev.Valid() && lost == None
      invariant WriteRunSoFar(capacity, st0, stream0, calls, i, dev.State(), dev.stream, results)
    {
      WrittenOneMore(capacity, st0, stream0, calls, i, dev.State(), dev.stream, results);
      var retval;
      retval, pos, lost := WriteOne(dev, calls[i], pos);
      if lost.Some? {
        return;
      }
      results := results + [retval];
      i := i + 1;
    }
    WrittenAll(capacity, st0, stream0, calls, dev.State(), dev.stream, results);
    RunDependsOnStreamOnly(capacity, stream0, calls);
  }

  /** From init, through any run of writes up to the first that loses a tail, to cleanup: every block ever
      obtained has been freed, once, exactly when no call lost a tail; otherwise one block is left. */
  method Lifetime(capacity: uint8, calls: seq<WriteCall>) returns (dev: CharDevice)
    requires 1 <= capacity && Offered(calls) < TWO_TO_63
    ensures dev.heap.Valid()
    ensures dev.heap.live == map[] <==> KeepsTails(capacity, DeviceState([], []), calls)
    ensures KeepsTails(capacity, DeviceState([], []), calls) ==>
              dev.stream == AcceptedByAll(calls) && forall a: nat | a < dev.heap.issued :: a in dev.heap.freed
    ensures |dev.heap.live| <= 1
  {
    dev := new CharDevice(capacity);
    var results, lost := WriteAll(dev, calls);
    if lost.None? {
      assert dev.heap.live - {} == dev.heap.live;
      dev.Cleanup({});
      assert dev.heap.live == map[];
    } else {
      dev.Cleanup({lost.value});
      assert |dev.heap.live| == |dev.heap.live.Keys| == 1;
    }
  }

  // ------------------------------------------------------------- runs of reads

  lemma FlattenCons(piece: seq<byte>, rest: seq<seq<byte>>)
    ensures Flatten([piece] + rest) == piece + Flatten(rest)
  {
    assert ([piece] + rest)[1..] == rest;
  }

  /** Reads of the device from a position return what `read` says, and `size` is where they end. */
  ghost predicate ReadsAs(dev: CharDevice, pos: nat, read: (nat, nat) -> seq<byte>, size: nat)
    reads dev, dev.buffer, dev.buffer.entry, dev.heap
  {
    && dev.Valid() && pos < TWO_TO_63 && |dev.stream| < TWO_TO_63 && size == |Image(dev.State())|
    && forall p: nat, count: nat {:trigger ReadImage(Image(dev.State()), p, count)} ::
         read(p, count) == ReadImage(Image(dev.State()), p, count)
  }

  /** One call of a run. */
  method ReadOne(dev: CharDevice, pos: nat, call: ReadCall, ghost read: (nat, nat) -> seq<byte>, ghost size: nat)
    returns (piece: Option<seq<byte>>, newPos: nat)
    requires ReadsAs(dev, pos, read, size)
    ensures piece == if ReadFails(size, pos, call) then None else Some(read(pos, call.count))
    ensures newPos == if piece.Some? then pos + |piece.value| else pos
    ensures ReadsAs(dev, newPos, read, size)
  {
    var retval, bytes;
    retval, bytes, newPos := dev.Read(call.count, pos, call.outcome);
    piece := if retval < 0 then None else Some(bytes);
    PieceWithinStream(dev.buffer.entry.Length, dev.stream, pos, call.count);
  }

  method ReadEach(dev: CharDevice, pos: nat, calls: seq<ReadCall>, ghost read: (nat, nat) -> seq<byte>,
                  ghost size: nat)
    returns (pieces: seq<seq<byte>>, newPos: nat)
    requires ReadsAs(dev, pos, read, size)
    ensures pieces == Pieces(read, size, pos, calls) && newPos == pos + |Flatten(pieces)|
    decreases |calls|
  {
    if calls == [] {
      return [], pos;
    }
    var piece;
    piece, newPos := ReadOne(dev, pos, calls[0], read, size);
    pieces, newPos := ReadEach(dev, newPos, calls[1..], read, size);
    if piece.Some? {
      FlattenCons(piece.value, pieces);
      pieces := [piece.value] + pieces;
    }
  }

  /** Any run of read calls on a device that nothing is written to: they return the image from the
      position on, without gap or repetition, and the position moves on by what was returned. Failing
      calls return nothing and leave the position alone. With positive counts an empty piece means that
      all of it was returned, and one comes within as many successful calls as there are bytes, plus
      one. */
  method ReadAll(dev: CharDevice, pos: nat, calls: seq<ReadCall>) returns (pieces: seq<seq<byte>>, newPos: nat)
    requires dev.Valid() && pos < TWO_TO_63 && |dev.stream| < TWO_TO_63
    ensures pieces == ReadPieces(Image(dev.State()), pos, calls) && newPos == pos + |Flatten(pieces)|
    ensures AllPositive(calls) ==>
              var left := Drop(Image(dev.State()), pos);
              && Flatten(pieces) <= left
              && ([] in pieces ==> Flatten(pieces) == left)
              && (Successes(calls) > |left| ==> [] in pieces)
  {
    pieces, newPos := ReadEach(dev, pos, calls, ReadsOf(Image(dev.State())), |Image(dev.State())|);
    if AllPositive(calls) {
      WholeFileRead(Image(dev.State()), pos, calls);
    }
  }
}
