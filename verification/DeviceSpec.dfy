/** What the character device promises, as functions on values: the lines it keeps, the bytes after
    the last newline, and the one flat byte string that readers see. */
module DeviceSpec {
  import opened CTypes
  import opened Lines
  import opened Positions

  datatype DeviceState = DeviceState(lines: seq<seq<byte>>, tail: seq<byte>)

  /** The bytes a reader sees: the kept lines, oldest first, then the unterminated tail. */
  function Image(st: DeviceState): seq<byte> {
    Flatten(st.lines) + st.tail
  }

  /** The state that a stream of accepted bytes determines: its last `capacity` complete lines and
      the bytes after its last newline. */
  function StateOf(capacity: nat, stream: seq<byte>): DeviceState {
    DeviceState(LastN(Divide(stream).lines, capacity), Divide(stream).tail)
  }

  ghost predicate WellShaped(st: DeviceState) {
    AllLines(st.lines) && NEWLINE !in st.tail
  }

  lemma StateOfShape(capacity: nat, stream: seq<byte>)
    ensures WellShaped(StateOf(capacity, stream))
    ensures |StateOf(capacity, stream).lines| <= capacity
  {
    DivideShape(stream);
  }

  /** The lines that a stream of bytes has pushed out of the device. */
  function Evicted(capacity: nat, stream: seq<byte>): seq<seq<byte>> {
    var lines := Divide(stream).lines;
    lines[..|lines| - |LastN(lines, capacity)|]
  }

  lemma EvictedThenKept(lines: seq<seq<byte>>, capacity: nat)
    ensures lines[..|lines| - |LastN(lines, capacity)|] + LastN(lines, capacity) == lines
  {
  }

  /** The image is a suffix of the stream: only whole evicted lines are missing from its front, and
      nothing is missing while no more than `capacity` lines were completed. */
  lemma ImageIsSuffix(capacity: nat, stream: seq<byte>)
    ensures stream == Flatten(Evicted(capacity, stream)) + Image(StateOf(capacity, stream))
    ensures Evicted(capacity, stream) == [] <==> |Divide(stream).lines| <= capacity
  {
    var d := Divide(stream);
    DivideShape(stream);
    EvictedThenKept(d.lines, capacity);
    FlattenAppend(Evicted(capacity, stream), LastN(d.lines, capacity));
    AppendAssociates(Flatten(Evicted(capacity, stream)), Flatten(LastN(d.lines, capacity)), d.tail);
  }

  lemma {:induction false} DivideGrows(stream: seq<byte>, more: seq<byte>)
    ensures Divide(stream).lines <= Divide(stream + more).lines
    decreases |more|
  {
    if more == [] {
      assert stream + more == stream;
    } else {
      var init, c := more[..|more| - 1], more[|more| - 1];
      DivideGrows(stream, init);
      AppendLast(stream, more);
      DivideAppendByte(stream + init, c);
    }
  }

  /** What was pushed out stays out. */
  lemma EvictedGrows(capacity: nat, stream: seq<byte>, more: seq<byte>)
    ensures Evicted(capacity, stream) <= Evicted(capacity, stream + more)
  {
    DivideGrows(stream, more);
  }

  /** How many bytes of the image are pushed out when `more` is accepted. */
  function Gone(capacity: nat, stream: seq<byte>, more: seq<byte>): nat {
    EvictedGrows(capacity, stream, more);
    |Flatten(Evicted(capacity, stream + more)[|Evicted(capacity, stream)|..])|
  }

  /** Accepting bytes appends them to the image and pushes whole lines out at its front. */
  lemma ImageAfter(capacity: nat, stream: seq<byte>, more: seq<byte>)
    ensures Image(StateOf(capacity, stream + more))
            == Drop(Image(StateOf(capacity, stream)) + more, Gone(capacity, stream, more))
    ensures Gone(capacity, stream, more) <= |Image(StateOf(capacity, stream)) + more|
  {
    var gone, image := Evicted(capacity, stream), Image(StateOf(capacity, stream));
    var gone', image' := Evicted(capacity, stream + more), Image(StateOf(capacity, stream + more));
    ImageIsSuffix(capacity, stream);
    ImageIsSuffix(capacity, stream + more);
    EvictedGrows(capacity, stream, more);
    assert gone' == gone + gone'[|gone|..];
    FlattenAppend(gone, gone'[|gone|..]);
    CutFront(Flatten(gone), image, more, Flatten(gone'[|gone|..]), image');
  }

  lemma CutFront(a: seq<byte>, b: seq<byte>, c: seq<byte>, d: seq<byte>, e: seq<byte>)
    requires (a + b) + c == (a + d) + e
    ensures b + c == d + e && e == Drop(b + c, |d|)
  {
    assert (a + b) + c == a + (b + c) && (a + d) + e == a + (d + e);
    assert b + c == (a + (b + c))[|a|..];
    assert d + e == (a + (d + e))[|a|..];
  }

  // ---------------------------------------------------------------- writing

  /** What happens to a write call apart from its data. */
  datatype WriteOutcome = Succeeds | CopyFaults | AllocationFails | LockInterrupted

  datatype WriteCall = WriteCall(data: seq<byte>, outcome: WriteOutcome)

  /** The bytes a call takes in: up to its first newline, and nothing when it fails. */
  function Accepted(call: WriteCall): seq<byte> {
    if call.outcome == Succeeds then ThroughNewline(call.data) else []
  }

  /** What a call returns: the number of bytes taken in, or a negated error number. */
  function WriteResult(call: WriteCall): int {
    if call.outcome == LockInterrupted then -ERESTARTSYS
    else if call.data == [] || call.outcome == AllocationFails then -ENOMEM
    else if call.outcome == CopyFaults then -EFAULT
    else |ThroughNewline(call.data)|
  }

  /** A write that cannot allocate forgets the block of a tail that has bytes. */
  predicate LosesTail(call: WriteCall, tailSize: nat) {
    call.outcome == AllocationFails && call.data != [] && tailSize > 0
  }

  function WriteStep(capacity: nat, st: DeviceState, call: WriteCall): DeviceState {
    var taken := Accepted(call);
    if taken == [] then st
    else if NEWLINE in taken then DeviceState(Push(capacity, st.lines, st.tail + taken), [])
    else DeviceState(st.lines, st.tail + taken)
  }

  function RunWrites(capacity: nat, st: DeviceState, calls: seq<WriteCall>): DeviceState
    decreases |calls|
  {
    if calls == [] then st
    else RunWrites(capacity, WriteStep(capacity, st, calls[0]), calls[1..])
  }

  /** No call of the run loses a tail. */
  predicate KeepsTails(capacity: nat, st: DeviceState, calls: seq<WriteCall>)
    decreases |calls|
  {
    calls == []
    || (!LosesTail(calls[0], |st.tail|) && KeepsTails(capacity, WriteStep(capacity, st, calls[0]), calls[1..]))
  }

  function AcceptedByAll(calls: seq<WriteCall>): seq<byte> {
    if calls == [] then [] else Accepted(calls[0]) + AcceptedByAll(calls[1..])
  }

  /** One call, whatever its size and outcome, extends the stream by the bytes it takes in. */
  lemma WriteStepExtendsStream(capacity: nat, stream: seq<byte>, call: WriteCall)
    requires capacity > 0
    ensures WriteStep(capacity, StateOf(capacity, stream), call)
            == StateOf(capacity, stream + Accepted(call))
  {
    var taken := Accepted(call);
    if taken == [] {
      assert stream + taken == stream;
    } else if NEWLINE in taken {
      DivideAppendLine(stream, taken);
      PushLastN(capacity, Divide(stream).lines, Divide(stream).tail + taken);
    } else {
      DivideAppendPlain(stream, taken);
    }
  }

  /** After any run of calls the state is the one the accepted bytes determine. */
  lemma {:induction false} RunDependsOnStreamOnly(capacity: nat, stream: seq<byte>, calls: seq<WriteCall>)
    requires capacity > 0
    ensures RunWrites(capacity, StateOf(capacity, stream), calls)
            == StateOf(capacity, stream + AcceptedByAll(calls))
    decreases |calls|
  {
    if calls == [] {
      assert stream + [] == stream;
    } else {
      WriteStepExtendsStream(capacity, stream, calls[0]);
      RunDependsOnStreamOnly(capacity, stream + Accepted(calls[0]), calls[1..]);
      AppendAssociates(stream, Accepted(calls[0]), AcceptedByAll(calls[1..]));
    }
  }

  /** Two runs from a fresh device that get the same bytes accepted end in the same state, however
      the bytes were cut into calls and whichever calls failed on the way. */
  lemma {:induction false} ChunkingIndependence(capacity: nat, calls1: seq<WriteCall>, calls2: seq<WriteCall>)
    requires capacity > 0
    requires AcceptedByAll(calls1) == AcceptedByAll(calls2)
    ensures RunWrites(capacity, DeviceState([], []), calls1) == RunWrites(capacity, DeviceState([], []), calls2)
    ensures RunWrites(capacity, DeviceState([], []), calls1) == StateOf(capacity, AcceptedByAll(calls1))
  {
    assert StateOf(capacity, []) == DeviceState([], []);
    RunDependsOnStreamOnly(capacity, [], calls1);
    RunDependsOnStreamOnly(capacity, [], calls2);
    assert [] + AcceptedByAll(calls1) == AcceptedByAll(calls1);
  }

  /** One try of a caller that resumes after the returned count: how many of the remaining bytes it
      offers, and what becomes of the call. */
  datatype Attempt = Attempt(offered: nat, outcome: WriteOutcome)

  /** The calls such a caller makes to write `data`. */
  function Resuming(data: seq<byte>, attempts: seq<Attempt>): seq<WriteCall>
    decreases |attempts|
  {
    if attempts == [] then []
    else
      var call := WriteCall(Take(data, attempts[0].offered), attempts[0].outcome);
      [call] + Resuming(Drop(data, |Accepted(call)|), attempts[1..])
  }

  predicate Progresses(a: Attempt) {
    a.outcome == Succeeds && a.offered > 0
  }

  function ProgressCount(attempts: seq<Attempt>): nat {
    if attempts == [] then 0 else (if Progresses(attempts[0]) then 1 else 0) + ProgressCount(attempts[1..])
  }

  /** A resuming caller gets a prefix of its data accepted, and all of it after as many successful
      calls as there are bytes. */
  lemma {:induction false} ResumingAcceptsData(data: seq<byte>, attempts: seq<Attempt>)
    ensures AcceptedByAll(Resuming(data, attempts)) <= data
    ensures |AcceptedByAll(Resuming(data, attempts))| >= Min(|data|, ProgressCount(attempts))
    decreases |attempts|
  {
    if attempts != [] {
      var call := WriteCall(Take(data, attempts[0].offered), attempts[0].outcome);
      var taken := Accepted(call);
      var rest := Resuming(Drop(data, |taken|), attempts[1..]);
      ResumingAcceptsData(Drop(data, |taken|), attempts[1..]);
      AcceptedIsPrefix(data, attempts[0]);
      assert ([call] + rest)[1..] == rest;
      PrefixThenPrefix(data, taken, AcceptedByAll(rest));
    }
  }

  lemma AcceptedIsPrefix(data: seq<byte>, a: Attempt)
    ensures var taken := Accepted(WriteCall(Take(data, a.offered), a.outcome));
            taken <= data && (Progresses(a) && data != [] ==> taken != [])
  {
    var offered := Take(data, a.offered);
    assert offered != [] ==> ThroughNewline(offered) != [];
  }

  lemma PrefixThenPrefix(data: seq<byte>, p: seq<byte>, q: seq<byte>)
    requires p <= data && q <= Drop(data, |p|)
    ensures p + q <= data
  {
    assert data == p + Drop(data, |p|);
  }

  lemma PrefixOfFullLength(data: seq<byte>, p: seq<byte>)
    requires p <= data && |p| >= |data|
    ensures p == data
  {
  }

  /** Writing all of `data` piece by piece, resuming after every short or failed call, has the effect
      of the bytes of `data` and nothing else. */
  lemma {:induction false} ResumedWriteIsWhole(capacity: nat, stream: seq<byte>, data: seq<byte>,
                                               attempts: seq<Attempt>)
    requires capacity > 0 && ProgressCount(attempts) >= |data|
    ensures RunWrites(capacity, StateOf(capacity, stream), Resuming(data, attempts))
            == StateOf(capacity, stream + data)
  {
    ResumingAcceptsData(data, attempts);
    PrefixOfFullLength(data, AcceptedByAll(Resuming(data, attempts)));
    RunDependsOnStreamOnly(capacity, stream, Resuming(data, attempts));
  }

  // ---------------------------------------------------------------- reading

  /** What a read returns: the image from the position on, up to the first newline and no longer than
      asked for. */
  function ReadStep(st: DeviceState, pos: nat, count: nat): seq<byte> {
    ReadImage(Image(st), pos, count)
  }

  function ReadImage(image: seq<byte>, pos: nat, count: nat): seq<byte> {
    Take(ThroughNewline(Drop(image, pos)), count)
  }

  /** How the driver finds it: in the line that holds the position, or past the lines in the tail. */
  function ReadByLocating(st: DeviceState, pos: nat, count: nat): seq<byte> {
    match Locate(Lengths(st.lines), pos)
    case Some(p) => Take(st.lines[p.entry][p.offset..], count)
    case None =>
      FlattenLength(st.lines);
      Take(Drop(st.tail, pos - |Flatten(st.lines)|), count)
  }

  lemma ReadByLocatingInLines(st: DeviceState, p: Position)
    requires WellShaped(st) && ValidPosition(Lengths(st.lines), p)
    ensures var pos := FlatOffset(Lengths(st.lines), p);
            ThroughNewline(Drop(Image(st), pos)) == st.lines[p.entry][p.offset..]
  {
    var pos := FlatOffset(Lengths(st.lines), p);
    FlattenFrom(st.lines, p);
    DropWithin(Flatten(st.lines), st.tail, pos);
    ThroughNewlineOfLines(st.lines, st.tail, p.entry, p.offset);
  }

  lemma DropWithin(a: seq<byte>, b: seq<byte>, n: nat)
    requires n <= |a|
    ensures Drop(a + b, n) == a[n..] + b
  {
  }

  lemma ReadByLocatingInTail(st: DeviceState, pos: nat)
    requires WellShaped(st) && pos >= |Flatten(st.lines)|
    ensures ThroughNewline(Drop(Image(st), pos)) == Drop(st.tail, pos - |Flatten(st.lines)|)
  {
    assert Drop(Image(st), pos) == Drop(st.tail, pos - |Flatten(st.lines)|);
  }

  /** The search by line and offset agrees with the flat image. */
  lemma LocatingReadsImage(st: DeviceState, pos: nat, count: nat)
    requires WellShaped(st)
    ensures ReadByLocating(st, pos, count) == ReadStep(st, pos, count)
  {
    FlattenLength(st.lines);
    match Locate(Lengths(st.lines), pos)
    case Some(p) => ReadByLocatingInLines(st, p);
    case None => ReadByLocatingInTail(st, pos);
  }

  /** One positive read returns nothing exactly at or past the end, and ends at or before a newline. */
  lemma ReadStepProgress(st: DeviceState, pos: nat, count: nat)
    requires count > 0
    ensures var piece := ReadStep(st, pos, count);
            && piece <= Drop(Image(st), pos)
            && (piece == [] <==> pos >= |Image(st)|)
            && (forall i | 0 <= i < |piece| - 1 :: piece[i] != NEWLINE)
  {
    var whole := ThroughNewline(Drop(Image(st), pos));
    if IsLine(whole) {
      OnlyNewlineLast(whole);
    }
  }

  lemma ReadImageProgress(image: seq<byte>, pos: nat, count: nat)
    requires count > 0
    ensures ReadImage(image, pos, count) <= Drop(image, pos)
    ensures ReadImage(image, pos, count) == [] <==> Drop(image, pos) == []
  {
  }

  /** What happens to a read call apart from its arguments. */
  datatype ReadOutcome = ReadSucceeds | ReadFaults | ReadInterrupted

  datatype ReadCall = ReadCall(count: nat, outcome: ReadOutcome)

  /** A copy can only fail when there is something to copy. */
  predicate ReadFails(size: nat, pos: nat, call: ReadCall) {
    call.outcome == ReadInterrupted || (call.outcome == ReadFaults && pos < size)
  }

  /** What a run of reads returns, a piece for each call that does not fail, when nothing is written in
      between: each starts where the last one ended. `read` is what one call returns. */
  function Pieces(read: (nat, nat) -> seq<byte>, size: nat, pos: nat, calls: seq<ReadCall>): seq<seq<byte>>
    decreases |calls|
  {
    if calls == [] then []
    else if ReadFails(size, pos, calls[0]) then Pieces(read, size, pos, calls[1..])
    else
      var piece := read(pos, calls[0].count);
      [piece] + Pieces(read, size, pos + |piece|, calls[1..])
  }

  function ReadsOf(image: seq<byte>): (nat, nat) -> seq<byte> {
    (pos: nat, count: nat) => ReadImage(image, pos, count)
  }

  function ReadPieces(image: seq<byte>, pos: nat, calls: seq<ReadCall>): seq<seq<byte>> {
    Pieces(ReadsOf(image), |image|, pos, calls)
  }

  function Successes(calls: seq<ReadCall>): nat {
    if calls == [] then 0 else (if calls[0].outcome == ReadSucceeds then 1 else 0) + Successes(calls[1..])
  }

  /** The pieces are all of `data`, or a beginning of it; all of it when one of them is empty, and one of
      them is when there are more pieces than bytes. */
  ghost predicate Covers(data: seq<byte>, pieces: seq<seq<byte>>) {
    && Flatten(pieces) <= data
    && ([] in pieces ==> Flatten(pieces) == data)
    && (|pieces| > |data| ==> [] in pieces)
  }

  lemma CoversJoin(data: seq<byte>, pieces: seq<seq<byte>>)
    requires pieces != [] && pieces[0] <= data && (pieces[0] == [] <==> data == [])
    requires Covers(Drop(data, |pieces[0]|), pieces[1..])
    ensures Covers(data, pieces)
  {
    PrefixThenPrefix(data, pieces[0], Flatten(pieces[1..]));
    assert pieces == [pieces[0]] + pieces[1..];
  }

  /** A read with a positive count returns a beginning of what is left, and nothing only when nothing is. */
  ghost predicate Progressing(read: (nat, nat) -> seq<byte>, image: seq<byte>) {
    forall pos: nat, count: nat | count > 0 ::
      read(pos, count) <= Drop(image, pos) && (read(pos, count) == [] <==> Drop(image, pos) == [])
  }

  predicate AllPositive(calls: seq<ReadCall>) {
    forall i | 0 <= i < |calls| :: calls[i].count > 0
  }

  lemma {:induction false} PiecesCover(read: (nat, nat) -> seq<byte>, image: seq<byte>, pos: nat,
                                       calls: seq<ReadCall>)
    requires Progressing(read, image) && AllPositive(calls)
    ensures Covers(Drop(image, pos), Pieces(read, |image|, pos, calls))
    decreases |calls|
  {
    if calls != [] {
      if ReadFails(|image|, pos, calls[0]) {
        PiecesCover(read, image, pos, calls[1..]);
      } else {
        var piece := read(pos, calls[0].count);
        PiecesCover(read, image, pos + |piece|, calls[1..]);
        DropThenDrop(image, pos, |piece|);
        CoversJoin(Drop(image, pos), Pieces(read, |image|, pos, calls));
      }
    }
  }

  /** Every successful call has its piece. */
  lemma {:induction false} EnoughPieces(read: (nat, nat) -> seq<byte>, size: nat, pos: nat, calls: seq<ReadCall>)
    ensures |Pieces(read, size, pos, calls)| >= Successes(calls)
    decreases |calls|
  {
    if calls != [] {
      EnoughPieces(read, size, if ReadFails(size, pos, calls[0]) then pos else pos + |read(pos, calls[0].count)|,
                   calls[1..]);
    }
  }

  /** Reading with any positive counts from any position returns the image from there on, without gap
      or repetition, whichever calls fail on the way; an empty read means that all of it was returned,
      and one comes within as many successful reads as there are bytes left, plus one. */
  lemma WholeFileRead(image: seq<byte>, pos: nat, calls: seq<ReadCall>)
    requires AllPositive(calls)
    ensures Covers(Drop(image, pos), ReadPieces(image, pos, calls))
    ensures Successes(calls) > |Drop(image, pos)| ==> [] in ReadPieces(image, pos, calls)
  {
    forall pos: nat, count: nat | count > 0
      ensures var read := ReadsOf(image);
              read(pos, count) <= Drop(image, pos) && (read(pos, count) == [] <==> Drop(image, pos) == [])
    {
      ReadImageProgress(image, pos, count);
    }
    PiecesCover(ReadsOf(image), image, pos, calls);
    EnoughPieces(ReadsOf(image), |image|, pos, calls);
  }

  lemma DropThenDrop(s: seq<byte>, m: nat, n: nat)
    ensures Drop(s, m + n) == Drop(Drop(s, m), n)
  {
  }

  // ---------------------------------------------------------------- seeking

  const SEEK_SET: int := 0
  const SEEK_CUR: int := 1
  const SEEK_END: int := 2

  /** The kernel's bounded seek for a file of fixed size: the new position, which is also the result,
      or a negated error number. Asking for the current position is not bounded. */
  function FixedSizeLlseek(pos: int, offset: int, whence: int, size: int): int {
    var target := if whence == SEEK_CUR then pos + offset else if whence == SEEK_END then size + offset else offset;
    if whence == SEEK_CUR && offset == 0 then pos
    else if whence !in {SEEK_SET, SEEK_CUR, SEEK_END} || target < 0 || target > size then -EINVAL
    else target
  }

  /** Asking for the position answers with it wherever it is, also in the tail, past the size that every
      other seek is bounded by. */
  lemma TellAnywhere(st: DeviceState, pos: nat, offset: int, whence: int)
    ensures var size := |Flatten(st.lines)|;
            FixedSizeLlseek(pos, offset, whence, size) > size <==> whence == SEEK_CUR && offset == 0 && pos > size
  {
  }

  /** What the seek command does: the line number reaches the ring as a `uint8_t`. */
  function SeekCommandResult(st: DeviceState, command: uint32, offset: uint32): int {
    var pos := FlatOffsetOrMinusOne(Lengths(st.lines), ToUint8(command), offset);
    if pos < 0 then -EINVAL else FixedSizeLlseek(0, pos, SEEK_SET, |Flatten(st.lines)|)
  }

  /** Whenever the line and byte exist the bounded seek that follows accepts the position too, and the
      next read returns the rest of that line from the requested byte. */
  lemma SeekThenRead(st: DeviceState, command: uint32, offset: uint32, count: nat)
    requires WellShaped(st) && count > 0
    ensures var entry, pos := ToUint8(command), SeekCommandResult(st, command, offset);
            if ValidPosition(Lengths(st.lines), Position(entry, offset))
            then 0 <= pos < |Flatten(st.lines)|
                 && ReadStep(st, pos, count) == Take(st.lines[entry][offset..], count) != []
            else pos == -EINVAL
  {
    var p := Position(ToUint8(command), offset);
    if ValidPosition(Lengths(st.lines), p) {
      FlattenFrom(st.lines, p);
      ReadByLocatingInLines(st, p);
    }
  }

  /** The documented seek takes a command exactly when that line has that byte. The code does the same
      exactly when the command is below 256 or its residue names no byte either. */
  lemma SeekCommandExact(st: DeviceState, command: uint32, offset: uint32)
    requires |st.lines| <= 255
    ensures (SeekCommandResult(st, command, offset) >= 0
             <==> ValidPosition(Lengths(st.lines), Position(command, offset)))
            <==> (command < 256 || !ValidPosition(Lengths(st.lines), Position(ToUint8(command), offset)))
  {
    var p := Position(ToUint8(command), offset);
    if ValidPosition(Lengths(st.lines), p) {
      FlattenFrom(st.lines, p);
    }
  }

  /** Commands that differ by a multiple of 256 seek alike. */
  lemma SeekCommandsAlike(st: DeviceState, command: uint32, other: uint32, offset: uint32)
    requires (command - other) % 256 == 0
    ensures SeekCommandResult(st, command, offset) == SeekCommandResult(st, other, offset)
  {
  }

  /** Command 256 on a device that holds one line seeks into line 0. */
  lemma SeekCommandWraps()
    ensures SeekCommandResult(DeviceState([[NEWLINE]], []), 256, 0) == 0
    ensures !ValidPosition(Lengths([[NEWLINE]]), Position(256, 0))
  {
    var st := DeviceState([[NEWLINE]], []);
    assert ValidPosition(Lengths(st.lines), Position(0, 0));
    assert Lengths(st.lines)[..0] == [];
  }

  /** Seeking to the end skips the lines and not the tail: the next read returns the tail. */
  lemma SeekEndReadsTail(st: DeviceState, count: nat)
    requires WellShaped(st)
    ensures var pos := FixedSizeLlseek(0, 0, SEEK_END, |Flatten(st.lines)|);
            pos == |Flatten(st.lines)| && ReadStep(st, pos, count) == Take(st.tail, count)
  {
    ReadByLocatingInTail(st, |Flatten(st.lines)|);
  }
}
