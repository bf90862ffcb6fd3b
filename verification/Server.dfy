/** The line loops of the socket server and what it does for one connection
    (server/src/aesdsocket.c), over the character device. */
module Servers {
  import opened CTypes
  import opened Lines
  import opened Positions
  import opened CStrings
  import opened DeviceSpec
  import opened CharDevices
  import opened SystemCalls

  // ------------------------------------------------------------- receiving a line

  /** What both line loops do with the bytes that a call left in the buffer: take them through the first
      newline that strchr finds and append them to the line. */
  method TakeChunk(buffer: array<byte>, bytesRead: nat, lineBuffer: seq<byte>) returns (eol: bool, extended: seq<byte>)
    requires buffer.Length == BUFFSIZE && 0 < bytesRead <= BUFFSIZE
    requires NEWLINE in buffer[..] || NUL in buffer[..]
    ensures eol <==> Strchr(buffer[..], NEWLINE) >= 0
    ensures extended == lineBuffer + Taken(buffer[..], bytesRead)
  {
    var newlinePointer := Strchr(buffer[..], NEWLINE);
    var usefulBytes: int;
    if newlinePointer >= 0 {
      eol := true;
      usefulBytes := newlinePointer + 1;
    } else {
      eol := false;
      usefulBytes := bytesRead;
    }
    extended := lineBuffer;
    if usefulBytes > 0 {
      extended := lineBuffer + Strncpy(buffer[..], usefulBytes);
    }
  }

  /** The characters of a line, which is NULL when there are none. */
  function Text(line: Option<seq<byte>>): seq<byte> {
    match line
    case None => []
    case Some(text) => text
  }

  /** What arrives, over the buffer as it is, completes a line before an error is met. */
  predicate Completes(buffer: seq<byte>, arrivals: seq<Arrival>)
    requires |buffer| == BUFFSIZE && Receivable(arrivals)
    requires Fits(Chunks(arrivals)) && StaysWithin(buffer, Chunks(arrivals))
    decreases |arrivals|
  {
    if arrivals == [] then false
    else
      ChunksRest(arrivals);
      match arrivals[0]
      case Error => false
      case Data(bytes) =>
        var next := Overwritten(buffer, bytes);
        Strchr(next, NEWLINE) >= 0 || Completes(next, arrivals[1..])
      case _ => Completes(buffer, arrivals[1..])
  }

  lemma ChunksRest(arrivals: seq<Arrival>)
    requires arrivals != [] && Receivable(arrivals)
    ensures Receivable(arrivals[1..]) && Fits(Chunks(arrivals[1..]))
    ensures if arrivals[0].Data? then Chunks(arrivals) == [arrivals[0].bytes] + Chunks(arrivals[1..])
            else Chunks(arrivals) == Chunks(arrivals[1..])
    ensures arrivals[0].Data? ==>
              Chunks(arrivals)[0] == arrivals[0].bytes && Chunks(arrivals)[1..] == Chunks(arrivals[1..])
  {
    ReceivableFits(arrivals[1..]);
  }

  /** How far reception has got: `line` is a beginning of `whole`, and what is `left`, over the buffer as it
      is, will be made into the rest of it. `complete` says whether that will be a complete line. */
  ghost predicate Received(whole: seq<byte>, buffer: seq<byte>, left: seq<Arrival>, line: seq<byte>, eol: bool,
                           complete: bool)
  {
    if eol then line == whole && NEWLINE in line && complete
    else
      && |buffer| == BUFFSIZE && Receivable(left) && Fits(Chunks(left)) && StaysWithin(buffer, Chunks(left))
      && line + TakeRun(buffer, Chunks(left)) == whole && complete == Completes(buffer, left)
  }

  /** A call that delivers no bytes. */
  lemma ReceivedNothing(whole: seq<byte>, buffer: seq<byte>, left: seq<Arrival>, line: seq<byte>, complete: bool)
    requires Received(whole, buffer, left, line, false, complete) && (left != [] ==> !left[0].Data?)
    ensures left != [] && left[0].Error? ==> !complete
    ensures left == [] || !left[0].Error? ==>
              Received(whole, buffer, if left == [] then [] else left[1..], line, false, complete)
  {
    if left != [] {
      ChunksRest(left);
    }
  }

  /** A call that delivers a chunk. */
  lemma ReceivedChunk(whole: seq<byte>, buffer: seq<byte>, left: seq<Arrival>, line: seq<byte>, complete: bool)
    requires Received(whole, buffer, left, line, false, complete) && left != [] && left[0].Data?
    ensures var chunk := left[0].bytes;
            && 0 < |chunk| <= BUFFSIZE
            && var next := Overwritten(buffer, chunk);
               && (NEWLINE in next || NUL in next)
               && Received(whole, next, left[1..], line + Taken(next, |chunk|), Strchr(next, NEWLINE) >= 0, complete)
  {
    var chunk := left[0].bytes;
    var next := Overwritten(buffer, chunk);
    ChunksRest(left);
    if Strchr(next, NEWLINE) < 0 {
      AppendAssociates(line, Taken(next, |chunk|), TakeRun(next, Chunks(left[1..])));
    }
  }

  /** One round of the receive loop: whatever the call meets, what its bytes are made into is appended to
      the line. */
  method RecvChunk(conn: Socket, buffer: array<byte>, lineBuffer: seq<byte>, ghost whole: seq<byte>,
                   ghost complete: bool)
    returns (ok: bool, eol: bool, extended: seq<byte>)
    requires !conn.failed && buffer.Length == BUFFSIZE
    requires Received(whole, buffer[..], conn.incoming, lineBuffer, false, complete)
    modifies conn`incoming, conn`failed, conn`terminating, buffer
    ensures ok <==> !conn.failed
    ensures !ok ==> !complete
    ensures conn.incoming == if old(conn.incoming) == [] then [] else old(conn.incoming)[1..]
    ensures conn.terminating == (old(conn.terminating) || old(conn.incoming) == [])
    ensures ok ==> Received(whole, buffer[..], conn.incoming, extended, eol, complete)
  {
    ghost var left, before := conn.incoming, buffer[..];
    if left != [] && left[0].Data? {
      ReceivedChunk(whole, before, left, lineBuffer, complete);
    } else {
      ReceivedNothing(whole, before, left, lineBuffer, complete);
    }
    var r := conn.Recv(buffer);
    ok, eol, extended := !r.Failed?, false, lineBuffer;
    if r.Done? && r.count > 0 {
      assert buffer[..] == Overwritten(before, left[0].bytes);
      eol, extended := TakeChunk(buffer, r.count, lineBuffer);
    }
  }

  const ZEROS: seq<byte> := seq(BUFFSIZE, _ => NUL)

  /** The loop of aesdsocket_recv_line. */
  method RecvRounds(conn: Socket, ghost whole: seq<byte>, ghost complete: bool)
    returns (ok: bool, line: Option<seq<byte>>)
    requires !conn.failed && Received(whole, ZEROS, conn.incoming, [], false, complete)
    modifies conn`incoming, conn`failed, conn`terminating
    ensures ok <==> !conn.failed
    ensures !ok ==> !complete
    ensures old(conn.terminating) ==> conn.terminating
    ensures !conn.mayTerminate && !old(conn.terminating) && complete ==> !conn.terminating
    ensures line != Some([]) && Text(line) <= whole
    ensures old(conn.terminating) ==> ok && line == None
    ensures ok && !conn.terminating ==> complete && Text(line) == whole && NEWLINE in whole
  {
    var eol := false;
    var lineBuffer := [];
    var buffer := new byte[BUFFSIZE](_ => NUL);
    assert buffer[..] == ZEROS;
    var flag := conn.PollTermination();
    while !eol && !flag
      invariant Received(whole, buffer[..], conn.incoming, lineBuffer, eol, complete)
      invariant !conn.failed && flag == conn.terminating && (old(conn.terminating) ==> conn.terminating)
      invariant !conn.mayTerminate && !old(conn.terminating) && complete ==> !conn.terminating
      invariant old(conn.terminating) ==> flag && lineBuffer == []
      decreases |conn.incoming|, !eol && !flag
    {
      var received;
      received, eol, lineBuffer := RecvChunk(conn, buffer, lineBuffer, whole, complete);
      if !received {
        return false, None;
      }
      flag := conn.PollTermination();
    }
    return true, if |lineBuffer| > 0 then Some(lineBuffer) else None;
  }

  /** aesdsocket_recv_line: the line that the incoming chunks are made into, or a beginning of it when the
      server is told to stop first. That is the stream through its first newline, however it is cut into
      chunks, exactly when up to there no NUL comes before another byte of its chunk. It succeeds, and
      nothing stops it, when what arrives completes a line before an error and no signal comes. The line is
      NULL when nothing came. */
  method RecvLine(conn: Socket) returns (ok: bool, line: Option<seq<byte>>)
    requires Receivable(conn.incoming) && !conn.failed
    requires Fits(Chunks(conn.incoming)) && StaysWithin(ZEROS, Chunks(conn.incoming))
    modifies conn`incoming, conn`failed, conn`terminating
    ensures ok <==> !conn.failed
    ensures old(conn.terminating) ==> conn.terminating
    ensures line != Some([]) && (old(conn.terminating) ==> ok && line == None)
    ensures Text(line) <= TakeRun(ZEROS, Chunks(old(conn.incoming)))
    ensures ok && !conn.terminating ==>
              Text(line) == TakeRun(ZEROS, Chunks(old(conn.incoming))) && NEWLINE in Text(line)
    ensures ok && !conn.terminating ==>
              (Text(line) == ThroughNewline(Payload(old(conn.incoming))) <==> PadsThrough(Chunks(old(conn.incoming))))
    ensures ok && !conn.terminating ==> Completes(ZEROS, old(conn.incoming))
    ensures Completes(ZEROS, old(conn.incoming)) ==>
              ok && (!conn.mayTerminate && !old(conn.terminating) ==> !conn.terminating)
  {
    ghost var whole := TakeRun(ZEROS, Chunks(conn.incoming));
    RunTakenExact(ZEROS, Chunks(conn.incoming));
    assert [] + whole == whole;
    ok, line := RecvRounds(conn, whole, Completes(ZEROS, conn.incoming));
  }

  // ------------------------------------------------------------- writing and sending

  /** A write call, tried again for as long as signals interrupt it. */
  method WriteRetrying(file: OpenFile, data: seq<byte>) returns (r: Result)
    requires file.Valid() && !file.failed && data != []
    requires |file.dev.stream| + file.pos + |data| < TWO_TO_63
    modifies file, file.dev, file.dev.buffer, file.dev.buffer.entry, file.dev.heap
    ensures file.Valid() && !r.Interrupted? && (r.Failed? <==> file.failed) && (r.Failed? ==> file.mayFail)
    ensures r.Done? ==> var n := |ThroughNewline(data)|;
                        r.count == n && file.pos == old(file.pos) + n
                        && file.dev.stream == old(file.dev.stream) + ThroughNewline(data)
    ensures r.Failed? ==> file.dev.stream == old(file.dev.stream) && file.pos == old(file.pos)
  {
    r := file.Write(data);
    while r.Interrupted?
      invariant file.Valid() && (r.Failed? <==> file.failed) && (r.Failed? ==> file.mayFail)
      invariant r.Done? ==> var n := |ThroughNewline(data)|;
                            r.count == n && file.pos == old(file.pos) + n
                            && file.dev.stream == old(file.dev.stream) + ThroughNewline(data)
      invariant !r.Done? ==> file.dev.stream == old(file.dev.stream) && file.pos == old(file.pos)
      decreases file.interrupts, r.Interrupted?
    {
      r := file.Write(data);
    }
  }

  lemma NextPart(s: seq<byte>, left: nat, taken: nat)
    requires taken <= left <= |s|
    ensures s[..|s| - left] + s[|s| - left..][..taken] == s[..|s| - left + taken]
  {
  }

  lemma NextPartAfter(base: seq<byte>, s: seq<byte>, left: nat, taken: seq<byte>)
    requires left <= |s| && taken <= s[|s| - left..]
    ensures |taken| <= left
    ensures (base + s[..|s| - left]) + taken == base + s[..|s| - (left - |taken|)]
  {
  }

  /** The bytes of `text` but for the last `left` have been written since the stream was `base`. */
  ghost predicate WrittenSoFar(file: OpenFile, base: seq<byte>, text: seq<byte>, left: nat)
    reads file, file.dev
  {
    && left <= |text|
    && file.dev.stream == base + text[..|text| - left]
    && |file.dev.stream| + file.pos + 2 * left < TWO_TO_63
  }

  /** One call of the write loop takes in some of what is left. */
  method WritePart(file: OpenFile, ghost base: seq<byte>, text: seq<byte>, left: nat) returns (ok: bool, rest: nat)
    requires file.Valid() && !file.failed && WrittenSoFar(file, base, text, left) && left > 0
    modifies file, file.dev, file.dev.buffer, file.dev.buffer.entry, file.dev.heap
    ensures file.Valid() && (ok <==> !file.failed) && WrittenSoFar(file, base, text, rest)
    ensures !ok ==> file.mayFail
    ensures rest <= left && (ok ==> rest < left)
  {
    var data := text[|text| - left..];
    var r := WriteRetrying(file, data);
    if r.Failed? {
      return false, left;
    }
    NextPartAfter(base, text, left, ThroughNewline(data));
    return true, left - r.count;
  }

  /** aesdsocket_write_line: the device takes in the whole line, in as many calls as it has lines; when a
      call fails it has taken in a beginning of it. */
  method WriteLine(file: OpenFile, line: seq<byte>) returns (ok: bool)
    requires file.Valid() && !file.failed
    requires |file.dev.stream| + file.pos + 2 * |line| < TWO_TO_63
    modifies file, file.dev, file.dev.buffer, file.dev.buffer.entry, file.dev.heap
    ensures file.Valid() && (ok <==> !file.failed) && (!ok ==> file.mayFail)
    ensures ok ==> file.dev.stream == old(file.dev.stream) + CString(line)
    ensures !ok ==> old(file.dev.stream) <= file.dev.stream <= old(file.dev.stream) + CString(line)
  {
    var text := CString(line);
    ghost var base := file.dev.stream;
    var bytesToWrite: nat := |text|;
    ok := true;
    while bytesToWrite > 0 && ok
      invariant file.Valid() && (ok <==> !file.failed) && WrittenSoFar(file, base, text, bytesToWrite)
      invariant !ok ==> file.mayFail
      decreases bytesToWrite, ok
    {
      ok, bytesToWrite := WritePart(file, base, text, bytesToWrite);
    }
    assert text[..|text|] == text;
  }

  /** Without a signal the termination flag stays as it was. */
  predicate StillRuns(conn: Socket, was: bool)
    reads conn`terminating
  {
    !conn.mayTerminate ==> conn.terminating == was
  }

  /** A send call, tried again for as long as signals interrupt it. */
  method SendRetrying(conn: Socket, data: seq<byte>) returns (r: Result)
    requires !conn.failed && data != []
    modifies conn`sent, conn`interrupts, conn`failed
    ensures !r.Interrupted? && (r.Failed? <==> conn.failed) && (r.Failed? ==> conn.mayFail)
    ensures r.Done? ==> 0 < r.count <= |data| && conn.sent == old(conn.sent) + data[..r.count]
    ensures r.Failed? ==> conn.sent == old(conn.sent)
  {
    r := conn.Send(data);
    while r.Interrupted?
      invariant (r.Failed? <==> conn.failed) && (r.Failed? ==> conn.mayFail)
      invariant r.Done? ==> 0 < r.count <= |data| && conn.sent == old(conn.sent) + data[..r.count]
      invariant !r.Done? ==> conn.sent == old(conn.sent)
      decreases conn.interrupts, r.Interrupted?
    {
      r := conn.Send(data);
    }
  }

  /** One call of the send loop sends some of what is left. */
  method SendPart(conn: Socket, ghost base: seq<byte>, text: seq<byte>, left: nat) returns (ok: bool, rest: nat)
    requires !conn.failed && 0 < left <= |text| && conn.sent == base + text[..|text| - left]
    modifies conn`sent, conn`interrupts, conn`failed
    ensures (ok <==> !conn.failed) && (!ok ==> conn.mayFail)
    ensures rest <= left && (ok ==> rest < left) && conn.sent == base + text[..|text| - rest]
  {
    var r := SendRetrying(conn, text[|text| - left..]);
    if r.Failed? {
      return false, left;
    }
    NextPart(text, left, r.count);
    return true, left - r.count;
  }

  /** aesdsocket_send_line: the whole line goes out, or a beginning of it when a call fails or the server
      is told to stop. */
  method SendLine(conn: Socket, line: seq<byte>) returns (ok: bool)
    requires !conn.failed
    modifies conn`sent, conn`interrupts, conn`failed, conn`terminating
    ensures (ok <==> !conn.failed) && (!ok ==> conn.mayFail)
    ensures (old(conn.terminating) ==> conn.terminating) && StillRuns(conn, old(conn.terminating))
    ensures old(conn.sent) <= conn.sent <= old(conn.sent) + CString(line)
    ensures ok && !conn.terminating ==> conn.sent == old(conn.sent) + CString(line)
    ensures old(conn.terminating) ==> conn.sent == old(conn.sent)
  {
    var text := CString(line);
    ghost var base := conn.sent;
    var bytesToSend: nat := |text|;
    var flag := conn.PollTermination();
    while bytesToSend > 0 && !flag
      invariant bytesToSend <= |text| && !conn.failed && flag == conn.terminating
      invariant (old(conn.terminating) ==> conn.terminating) && StillRuns(conn, old(conn.terminating))
      invariant conn.sent == base + text[..|text| - bytesToSend]
      invariant old(conn.terminating) ==> bytesToSend == |text|
    {
      var sent;
      sent, bytesToSend := SendPart(conn, base, text, bytesToSend);
      if !sent {
        return false;
      }
      flag := conn.PollTermination();
    }
    assert text[..|text|] == text;
    return true;
  }

  // ------------------------------------------------------------- reading the device back

  /** Bytes the read loop can take from any position: free of NULs, and with a newline in every stretch
      as long as the buffer. */
  ghost predicate Readable(s: seq<byte>) {
    NulFree(s) && forall i: nat | i + BUFFSIZE <= |s| :: NEWLINE in Stretch(s, i)
  }

  function Stretch(s: seq<byte>, i: nat): seq<byte>
    requires i + BUFFSIZE <= |s|
  {
    s[i..i + BUFFSIZE]
  }

  lemma ReadableDrop(s: seq<byte>, n: nat)
    requires Readable(s)
    ensures Readable(Drop(s, n))
  {
    var b := Drop(s, n);
    assert forall x | x in b :: x in s;
    forall i: nat | i + BUFFSIZE <= |b|
      ensures NEWLINE in Stretch(b, i)
    {
      assert Stretch(b, i) == Stretch(s, n + i);
    }
  }

  /** The first newline is within the first stretch. */
  lemma FirstWindow(left: seq<byte>)
    requires |left| >= BUFFSIZE && Readable(left)
    ensures |ThroughNewline(left)| <= BUFFSIZE && NEWLINE in ThroughNewline(left)
  {
    var window := Stretch(left, 0);
    assert NEWLINE in window;
    assert left == window + left[BUFFSIZE..];
    ThroughNewlineAppend(window, left[BUFFSIZE..]);
  }

  /** A piece that one read returns from such bytes is a chunk the line loop can take. */
  lemma PieceIsGood(left: seq<byte>)
    requires Readable(left)
    ensures var piece := Take(ThroughNewline(left), BUFFSIZE);
            && GoodChunk(piece) && ThroughNewline(piece) == piece
            && (NEWLINE !in piece ==> piece == left)
            && (piece == [] <==> left == [])
  {
    var whole := ThroughNewline(left);
    var piece := Take(whole, BUFFSIZE);
    assert forall x | x in piece :: x in left;
    if |left| >= BUFFSIZE {
      FirstWindow(left);
    }
    assert piece == whole;
    if IsLine(whole) {
      ThroughNewlineUnique(piece, piece);
    }
  }

  /** Lines of at most 1024 bytes, a tail of fewer, and no NULs: that is what can be read from any
      position. */
  lemma ReadableMeansShortLines(s: seq<byte>)
    ensures Readable(s)
            <==> NulFree(s) && |Divide(s).tail| < BUFFSIZE && forall l | l in Divide(s).lines :: |l| <= BUFFSIZE
  {
    if Readable(s) {
      LinesAreShort(s);
    } else if NulFree(s) && |Divide(s).tail| < BUFFSIZE && forall l | l in Divide(s).lines :: |l| <= BUFFSIZE {
      forall i: nat | i + BUFFSIZE <= |s|
        ensures NEWLINE in Stretch(s, i)
      {
        ShortLinesFillStretches(s, i);
      }
    }
  }

  lemma LineIsShort(left: seq<byte>, s: seq<byte>, at: nat)
    requires Readable(s) && left == Drop(s, at)
    ensures |ThroughNewline(left)| <= BUFFSIZE && (NEWLINE !in left ==> |left| < BUFFSIZE)
  {
    ReadableDrop(s, at);
    if |left| >= BUFFSIZE {
      FirstWindow(left);
    }
  }

  lemma LinesAreShort(s: seq<byte>)
    requires Readable(s)
    ensures |Divide(s).tail| < BUFFSIZE && forall l | l in Divide(s).lines :: |l| <= BUFFSIZE
  {
    var st := DeviceState(Divide(s).lines, Divide(s).tail);
    DivideShape(s);
    forall k | 0 <= k < |st.lines|
      ensures |st.lines[k]| <= BUFFSIZE
    {
      assert IsLine(st.lines[k]);
      var p := Position(k, 0);
      var at := FlatOffset(Lengths(st.lines), p);
      ReadByLocatingInLines(st, p);
      LineIsShort(Drop(s, at), s, at);
    }
    ReadByLocatingInTail(st, |Flatten(st.lines)|);
    LineIsShort(Drop(s, |Flatten(st.lines)|), s, |Flatten(st.lines)|);
  }

  lemma LineEndsInStretch(s: seq<byte>, i: nat, rest: seq<byte>)
    requires i + BUFFSIZE <= |s| && rest <= Drop(s, i) && 0 < |rest| <= BUFFSIZE && rest[|rest| - 1] == NEWLINE
    ensures NEWLINE in Stretch(s, i)
  {
    assert Stretch(s, i)[|rest| - 1] == NEWLINE;
  }

  lemma ShortLinesFillStretches(s: seq<byte>, i: nat)
    requires i + BUFFSIZE <= |s|
    requires |Divide(s).tail| < BUFFSIZE && forall l | l in Divide(s).lines :: |l| <= BUFFSIZE
    ensures NEWLINE in Stretch(s, i)
  {
    var st := DeviceState(Divide(s).lines, Divide(s).tail);
    DivideShape(s);
    FlattenLength(st.lines);
    var p := Locate(Lengths(st.lines), i).value;
    var rest := st.lines[p.entry][p.offset..];
    ReadByLocatingInLines(st, p);
    assert IsLine(st.lines[p.entry]);
    LineEndsInStretch(s, i, rest);
  }

  /** A read call, tried again for as long as signals interrupt it. `piece` is what a read returns. */
  method ReadRetrying(file: OpenFile, buffer: array<byte>, ghost piece: seq<byte>) returns (r: Result)
    requires file.Valid() && !file.failed && buffer.Length == BUFFSIZE
    requires piece == ReadStep(file.dev.State(), file.pos, BUFFSIZE)
    modifies file, buffer
    ensures file.Valid() && !r.Interrupted? && (r.Failed? <==> file.failed) && (r.Failed? ==> file.mayFail)
    ensures file.dev.State() == old(file.dev.State()) && (r.Failed? ==> file.pos == old(file.pos))
    ensures r.Done? ==> r.count == |piece| && file.pos == old(file.pos) + |piece|
                        && buffer[..] == piece + old(buffer[..])[|piece|..]
  {
    r := file.Read(buffer);
    while r.Interrupted?
      invariant file.Valid() && (r.Failed? <==> file.failed) && (r.Failed? ==> file.mayFail)
      invariant file.dev.State() == old(file.dev.State())
      invariant r.Done? ==> r.count == |piece| && file.pos == old(file.pos) + |piece|
                            && buffer[..] == piece + old(buffer[..])[|piece|..]
      invariant !r.Done? ==> buffer[..] == old(buffer[..]) && file.pos == old(file.pos)
      decreases file.interrupts, r.Interrupted?
    {
      r := file.Read(buffer);
    }
  }

  /** What one read takes is the front of what is still to be read. */
  lemma ReadTakesFromLeft(st: DeviceState, pos: nat, left: seq<byte>) returns (piece: seq<byte>)
    requires left == Drop(Image(st), pos)
    ensures piece == ReadStep(st, pos, BUFFSIZE) == Take(ThroughNewline(left), BUFFSIZE)
  {
    piece := ReadStep(st, pos, BUFFSIZE);
  }

  /** The same, where `left` is what is still to be read. */
  method ReadFromLeft(file: OpenFile, buffer: array<byte>, ghost left: seq<byte>, ghost piece: seq<byte>)
    returns (r: Result)
    requires file.Valid() && !file.failed && buffer.Length == BUFFSIZE
    requires left == Drop(Image(file.dev.State()), file.pos)
    requires piece == ReadStep(file.dev.State(), file.pos, BUFFSIZE)
    modifies file, buffer
    ensures file.Valid() && !r.Interrupted? && (r.Failed? <==> file.failed) && (r.Failed? ==> file.mayFail)
    ensures file.dev.State() == old(file.dev.State()) && (r.Failed? ==> file.pos == old(file.pos))
    ensures r.Done? ==> r.count == |piece| && file.pos == old(file.pos) + |piece|
                        && buffer[..] == piece + old(buffer[..])[|piece|..]
                        && Drop(left, |piece|) == Drop(Image(file.dev.State()), file.pos)
  {
    DropThenDrop(Image(file.dev.State()), file.pos, |piece|);
    r := ReadRetrying(file, buffer, piece);
  }

  /** How far the read loop has got: `line` was taken from the front of `all`, and `left`, which can be
      read on, is the rest. */
  ghost predicate ReadSoFar(all: seq<byte>, left: seq<byte>, line: seq<byte>, eol: bool) {
    all == line + left && (eol <==> NEWLINE in line) && line == ThroughNewline(line) && Readable(left)
  }

  lemma PieceMoved(all: seq<byte>, line: seq<byte>, left: seq<byte>, piece: seq<byte>)
    requires all == line + left && piece <= left
    ensures all == (line + piece) + Drop(left, |piece|)
  {
  }

  /** One more piece. */
  lemma ReadSoFarStep(all: seq<byte>, left: seq<byte>, line: seq<byte>)
    requires ReadSoFar(all, left, line, false)
    ensures var piece := Take(ThroughNewline(left), BUFFSIZE);
            ReadSoFar(all, Drop(left, |piece|), line + piece, NEWLINE in piece)
  {
    var piece := Take(ThroughNewline(left), BUFFSIZE);
    PieceIsGood(left);
    ThroughNewlineAppend(line, piece);
    ReadableDrop(left, |piece|);
    PieceMoved(all, line, left, piece);
  }

  lemma ReadSoFarDone(all: seq<byte>, left: seq<byte>, line: seq<byte>, eol: bool)
    requires ReadSoFar(all, left, line, eol) && (eol || left == [])
    ensures line == ThroughNewline(all) && Drop(all, |line|) == left
  {
    ThroughNewlineAppend(line, left);
  }

  /** What the read loop does with the bytes one call returned. */
  method AppendPiece(buffer: array<byte>, bytesRead: nat, lineBuffer: seq<byte>, ghost before: seq<byte>,
                     ghost all: seq<byte>, ghost left: seq<byte>)
    returns (eol: bool, eof: bool, extended: seq<byte>)
    requires buffer.Length == BUFFSIZE && Reusable(before) && ReadSoFar(all, left, lineBuffer, false)
    requires var piece := Take(ThroughNewline(left), BUFFSIZE);
             bytesRead == |piece| && buffer[..] == piece + before[|piece|..]
    ensures ReadSoFar(all, Drop(left, bytesRead), extended, eol)
    ensures |extended| == |lineBuffer| + bytesRead
    ensures if eof then !eol && left == [] else 0 < bytesRead <= |left|
    ensures !eol ==> Reusable(buffer[..])
  {
    ghost var piece := Take(ThroughNewline(left), BUFFSIZE);
    ReadSoFarStep(all, left, lineBuffer);
    PieceIsGood(left);
    if bytesRead > 0 {
      eof := false;
      ChunkInReusedBuffer(before, piece);
      eol, extended := TakeChunk(buffer, bytesRead, lineBuffer);
    } else {
      assert piece == [] && buffer[..] == before && lineBuffer + piece == lineBuffer;
      eol, eof, extended := false, true, lineBuffer;
    }
  }

  /** One round of the read loop: the next piece, appended to the line, or the end of the file. */
  method ReadPiece(file: OpenFile, buffer: array<byte>, lineBuffer: seq<byte>, ghost all: seq<byte>,
                   ghost left: seq<byte>)
    returns (ok: bool, eol: bool, eof: bool, extended: seq<byte>, ghost rest: seq<byte>)
    requires file.Valid() && !file.failed && buffer.Length == BUFFSIZE && Reusable(buffer[..])
    requires left == Drop(Image(file.dev.State()), file.pos) && ReadSoFar(all, left, lineBuffer, false)
    modifies file, buffer
    ensures file.Valid() && (ok <==> !file.failed) && file.dev.State() == old(file.dev.State())
    ensures !ok ==> file.mayFail && file.pos == old(file.pos)
    ensures ok ==> rest == Drop(Image(file.dev.State()), file.pos) && ReadSoFar(all, rest, extended, eol)
    ensures ok ==> file.pos + |lineBuffer| == old(file.pos) + |extended|
    ensures ok ==> if eof then !eol && rest == [] else |rest| < |left|
    ensures ok && !eol ==> Reusable(buffer[..])
  {
    ghost var before := buffer[..];
    ghost var piece := ReadTakesFromLeft(file.dev.State(), file.pos, left);
    rest := Drop(left, |piece|);
    eol, eof, extended := false, false, [];
    var r := ReadFromLeft(file, buffer, left, piece);
    ok := r.Done?;
    if ok {
      eol, eof, extended := AppendPiece(buffer, r.count, lineBuffer, before, all, left);
    }
  }

  /** aesdsocket_read_line on the device: from the current position exactly the next line, or what is left
      when there is no newline any more; the position advances by exactly as much, so nothing that was
      read is dropped. The end of the file is reported when no newline came. A line that was passed in
      is replaced, even by an empty one. When a read fails the caller keeps the line it passed in; that line
      is stale, given to `realloc` already, exactly when an earlier read of the call had returned bytes. */
  method ReadLine(file: OpenFile, line: Option<seq<byte>>, ghost left: seq<byte>)
    returns (ok: bool, newLine: Option<seq<byte>>, eof: bool, stale: bool)
    requires file.Valid() && !file.failed
    requires left == Drop(Image(file.dev.State()), file.pos) && Readable(left)
    modifies file
    ensures file.Valid() && (ok <==> !file.failed) && file.dev.State() == old(file.dev.State())
    ensures !ok ==> file.mayFail
    ensures !ok ==> newLine == line && !eof && (stale <==> line.Some? && file.pos > old(file.pos))
    ensures ok ==> var next := ThroughNewline(left);
                   && file.pos == old(file.pos) + |next|
                   && Drop(Image(file.dev.State()), file.pos) == Drop(left, |next|)
                   && newLine == (if line == None && next == [] then None else Some(next))
                   && (eof <==> NEWLINE !in next) && !stale
  {
    ghost var rest := left;
    var eol, eofLocal := false, false;
    var lineBuffer := [];
    var buffer := new byte[BUFFSIZE](_ => NUL);
    while !eol && !eofLocal
      invariant file.Valid() && !file.failed && file.dev.State() == old(file.dev.State())
      invariant rest == Drop(Image(file.dev.State()), file.pos) && ReadSoFar(left, rest, lineBuffer, eol)
      invariant file.pos == old(file.pos) + |lineBuffer|
      invariant eofLocal ==> rest == [] && !eol
      invariant !eol ==> Reusable(buffer[..])
      decreases |rest|, !eofLocal
    {
      var reallocated := |lineBuffer| > 0;
      ok, eol, eofLocal, lineBuffer, rest := ReadPiece(file, buffer, lineBuffer, left, rest);
      if !ok {
        return false, line, false, line.Some? && reallocated;
      }
    }
    ReadSoFarDone(left, rest, lineBuffer, eol);
    newLine := if line == None && lineBuffer == [] then None else Some(lineBuffer);
    return true, newLine, eofLocal, false;
  }

  lemma ReadableTake(s: seq<byte>, p: seq<byte>)
    requires p <= s && Readable(s)
    ensures Readable(p)
  {
    forall i: nat | i + BUFFSIZE <= |p|
      ensures NEWLINE in Stretch(p, i)
    {
      assert Stretch(p, i) == Stretch(s, i);
    }
  }

  /** How far sending the file has got: until the server is told to stop, everything that was read. */
  ghost predicate SentSoFar(base: seq<byte>, all: seq<byte>, left: seq<byte>, sent: seq<byte>, terminating: bool) {
    && base <= sent <= base + all
    && (!terminating ==> sent + left == base + all)
  }

  /** One more line, sent whole unless the server was or is told to stop. */
  lemma SentStep(base: seq<byte>, all: seq<byte>, left: seq<byte>, sent: seq<byte>, sent': seq<byte>,
                 was: bool, terminating: bool)
    requires SentSoFar(base, all, left, sent, was) && (was ==> terminating)
    requires var next := ThroughNewline(left);
             && sent <= sent' <= sent + next
             && (was ==> sent' == sent) && (!terminating ==> sent' == sent + next)
    ensures SentSoFar(base, all, Drop(left, |ThroughNewline(left)|), sent', terminating)
  {
    var next := ThroughNewline(left);
    assert left == next + Drop(left, |next|);
    if !was {
      assert (sent + next) + Drop(left, |next|) == base + all;
    }
  }

  lemma TextOfNext(left: seq<byte>, line: Option<seq<byte>>, newLine: Option<seq<byte>>)
    requires Readable(left)
    requires var next := ThroughNewline(left);
             newLine == (if line == None && next == [] then None else Some(next))
    ensures CString(Text(newLine)) == ThroughNewline(left)
  {
    assert forall x | x in ThroughNewline(left) :: x in left;
  }

  lemma NextIsShorter(left: seq<byte>)
    ensures var rest := Drop(left, |ThroughNewline(left)|);
            if NEWLINE in ThroughNewline(left) then |rest| < |left| else rest == []
  {
  }

  lemma SentBound(base: seq<byte>, all: seq<byte>, left: seq<byte>, sent: seq<byte>, sent': seq<byte>, was: bool)
    requires SentSoFar(base, all, left, sent, was)
    requires sent <= sent' <= sent + ThroughNewline(left) && (was ==> sent' == sent)
    ensures base <= sent' <= base + all
  {
    if !was {
      assert sent + ThroughNewline(left) <= sent + left;
    }
  }

  method SendIfAny(conn: Socket, line: Option<seq<byte>>, ghost base: seq<byte>, ghost all: seq<byte>,
                   ghost left: seq<byte>)
    returns (ok: bool)
    requires !conn.failed && CString(Text(line)) == ThroughNewline(left)
    requires SentSoFar(base, all, left, conn.sent, conn.terminating)
    modifies conn`sent, conn`interrupts, conn`failed, conn`terminating
    ensures (ok <==> !conn.failed) && (!ok ==> conn.mayFail) && (old(conn.terminating) ==> conn.terminating)
    ensures StillRuns(conn, old(conn.terminating)) && (old(conn.terminating) ==> conn.sent == old(conn.sent))
    ensures base <= conn.sent <= base + all
    ensures ok ==> SentSoFar(base, all, Drop(left, |ThroughNewline(left)|), conn.sent, conn.terminating)
  {
    ghost var sent, was := conn.sent, conn.terminating;
    ok := true;
    if line.Some? && |CString(line.value)| > 0 {
      ok := SendLine(conn, line.value);
    }
    if ok {
      SentStep(base, all, left, sent, conn.sent, was, conn.terminating);
    } else {
      SentBound(base, all, left, sent, conn.sent, was);
    }
  }

  /** One round of the loop of aesdsocket_read_and_send_file: read the next line and send it. */
  method SendNext(conn: Socket, file: OpenFile, line: Option<seq<byte>>, ghost base: seq<byte>,
                  ghost all: seq<byte>, ghost left: seq<byte>)
    returns (ok: bool, newLine: Option<seq<byte>>, eof: bool)
    requires file.Valid() && !file.failed && !conn.failed
    requires left == Drop(Image(file.dev.State()), file.pos) && Readable(left)
    requires SentSoFar(base, all, left, conn.sent, conn.terminating)
    modifies file, conn`sent, conn`interrupts, conn`failed, conn`terminating
    ensures file.Valid() && (ok <==> !file.failed && !conn.failed) && (!ok ==> file.mayFail || conn.mayFail)
    ensures (old(conn.terminating) ==> conn.terminating) && StillRuns(conn, old(conn.terminating))
    ensures old(conn.terminating) ==> conn.sent == old(conn.sent)
    ensures base <= conn.sent <= base + all
    ensures ok ==> var rest := Drop(left, |ThroughNewline(left)|);
                   && rest == Drop(Image(file.dev.State()), file.pos)
                   && SentSoFar(base, all, rest, conn.sent, conn.terminating)
                   && (if eof then rest == [] else |rest| < |left|)
  {
    NextIsShorter(left);
    var stale;
    ok, newLine, eof, stale := ReadLine(file, line, left);
    if ok {
      TextOfNext(left, line, newLine);
      ok := SendIfAny(conn, newLine, base, all, left);
    }
  }

  /** aesdsocket_read_and_send_file: everything the device has from the current position on goes out, line
      by line, and the loop ends; when a call fails or the server is told to stop, a beginning of it. */
  method ReadAndSendFile(conn: Socket, file: OpenFile) returns (ok: bool)
    requires file.Valid() && !file.failed && !conn.failed
    requires Readable(Drop(Image(file.dev.State()), file.pos))
    modifies file, conn`sent, conn`interrupts, conn`failed, conn`terminating
    ensures file.Valid() && (ok <==> !file.failed && !conn.failed) && (!ok ==> file.mayFail || conn.mayFail)
    ensures (old(conn.terminating) ==> conn.terminating) && StillRuns(conn, old(conn.terminating))
    ensures old(conn.terminating) ==> conn.sent == old(conn.sent)
    ensures var all := Drop(Image(file.dev.State()), old(file.pos));
            && old(conn.sent) <= conn.sent <= old(conn.sent) + all
            && (ok && !conn.terminating ==> conn.sent == old(conn.sent) + all)
  {
    ghost var base, all := conn.sent, Drop(Image(file.dev.State()), file.pos);
    ghost var left := all;
    var eof := false;
    var line: Option<seq<byte>> := None;
    ok := true;
    while !eof && ok
      invariant file.Valid() && (ok <==> !file.failed && !conn.failed) && (!ok ==> file.mayFail || conn.mayFail)
      invariant base <= conn.sent <= base + all && (old(conn.terminating) ==> conn.terminating)
      invariant StillRuns(conn, old(conn.terminating)) && (old(conn.terminating) ==> conn.sent == base)
      invariant ok ==> left == Drop(Image(file.dev.State()), file.pos) && Readable(left)
      invariant ok ==> SentSoFar(base, all, left, conn.sent, conn.terminating)
      invariant eof && ok ==> left == []
      decreases |left|, !eof, ok
    {
      ReadableDrop(left, |ThroughNewline(left)|);
      ok, line, eof := SendNext(conn, file, line, base, all, left);
      left := Drop(left, |ThroughNewline(left)|);
    }
  }

  // ------------------------------------------------------------- one connection

  const COLON: byte := 58
  const COMMA: byte := 44

  /** `strncmp(line, command, strlen(command)) == 0`. */
  predicate IsSeek(command: seq<byte>, line: seq<byte>) {
    command <= line
  }

  /** The numbers of a seek line: those between the first ':', the next ',' and the newline after it.
      `atoi` reads a number, and the result is converted to `uint32_t`. */
  function ParseSeek(line: seq<byte>, atoi: seq<byte> -> int): Option<(uint32, uint32)> {
    var colon := Strchr(line + [NUL], COLON);
    if !(0 <= colon < |line|) then None
    else
      var rest := line[colon + 1..];
      var comma := Strchr(rest + [NUL], COMMA);
      if !(0 <= comma < |rest|) then None
      else
        var offset := rest[comma + 1..];
        var end := Strchr(offset + [NUL], NEWLINE);
        if !(0 <= end < |offset|) then None
        else Some((atoi(rest[..comma]) % 0x1_0000_0000, atoi(offset[..end]) % 0x1_0000_0000))
  }

  lemma StrchrAt(before: seq<byte>, c: byte, after: seq<byte>)
    requires NulFree(before) && c !in before && c != NUL
    ensures Strchr(before + [c] + after + [NUL], c) == |before|
  {
    var s := before + [c] + after + [NUL];
    assert s[..|before|] == before && s[|before|] == c;
    StrchrFinds(s, c, |before|);
  }

  lemma CutAt(before: seq<byte>, c: byte, after: seq<byte>, s: seq<byte>)
    requires NulFree(before) && c !in before && c != NUL && s == before + [c] + after
    ensures Strchr(s + [NUL], c) == |before| < |s| && s[..|before|] == before && s[|before| + 1..] == after
  {
    StrchrAt(before, c, after);
  }

  lemma Regroup(a: seq<byte>, b: seq<byte>, c: seq<byte>, d: seq<byte>)
    ensures a + [COLON] + (b + [COMMA] + (c + [NEWLINE] + d)) == a + [COLON] + b + [COMMA] + c + [NEWLINE] + d
  {
  }

  /** A seek line in its intended format is read back as its two numbers. */
  lemma ParseSeekOfFormatted(prefix: seq<byte>, number: seq<byte>, offset: seq<byte>, atoi: seq<byte> -> int)
    requires NulFree(prefix) && NulFree(number) && NulFree(offset)
    requires COLON !in prefix && COMMA !in number && NEWLINE !in offset
    ensures ParseSeek(prefix + [COLON] + number + [COMMA] + offset + [NEWLINE], atoi)
            == Some((atoi(number) % 0x1_0000_0000, atoi(offset) % 0x1_0000_0000))
  {
    var line := prefix + [COLON] + number + [COMMA] + offset + [NEWLINE];
    Regroup(prefix, number, offset, []);
    CutAt(prefix, COLON, number + [COMMA] + (offset + [NEWLINE] + []), line);
    CutAt(number, COMMA, offset + [NEWLINE] + [], number + [COMMA] + (offset + [NEWLINE] + []));
    CutAt(offset, NEWLINE, [], offset + [NEWLINE] + []);
  }

  lemma SplitAtFirst(s: seq<byte>, c: byte, at: nat)
    requires at < |s + [NUL]| && (s + [NUL])[at] == c != NUL && c !in (s + [NUL])[..at]
    ensures at < |s| && s == s[..at] + [c] + s[at + 1..] && c !in s[..at]
  {
    assert (s + [NUL])[..at] == s[..at];
  }

  /** Numbers are only read from a line that has that format. */
  lemma ParseSeekHasFormat(line: seq<byte>, atoi: seq<byte> -> int)
    returns (prefix: seq<byte>, number: seq<byte>, offset: seq<byte>, rest: seq<byte>)
    requires ParseSeek(line, atoi).Some?
    ensures line == prefix + [COLON] + number + [COMMA] + offset + [NEWLINE] + rest
    ensures COLON !in prefix && COMMA !in number && NEWLINE !in offset
    ensures ParseSeek(line, atoi).value == (atoi(number) % 0x1_0000_0000, atoi(offset) % 0x1_0000_0000)
  {
    var colon := Strchr(line + [NUL], COLON);
    SplitAtFirst(line, COLON, colon);
    prefix := line[..colon];
    var middle := line[colon + 1..];
    var comma := Strchr(middle + [NUL], COMMA);
    SplitAtFirst(middle, COMMA, comma);
    number := middle[..comma];
    var last := middle[comma + 1..];
    var end := Strchr(last + [NUL], NEWLINE);
    SplitAtFirst(last, NEWLINE, end);
    offset, rest := last[..end], last[end + 1..];
    Regroup(prefix, number, offset, rest);
  }

  /** Where a connection starts to send from: 0, or where its seek command takes it. */
  function SendsFrom(st: DeviceState, command: seq<byte>, line: seq<byte>, atoi: seq<byte> -> int): int {
    if !IsSeek(command, line) || ParseSeek(line, atoi).None? then 0
    else
      var (writeCmd, offset) := ParseSeek(line, atoi).value;
      SeekCommandResult(st, writeCmd, offset)
  }

  /** What a connection adds to the device: its line, unless the line is a seek command. */
  function Adds(command: seq<byte>, line: seq<byte>): seq<byte> {
    if IsSeek(command, line) then [] else line
  }

  /** The reaction to a line: write it, or seek to where it says. The file that comes back is the one to
      read from. */
  method TakeLine(dev: CharDevice, line: seq<byte>, command: seq<byte>, atoi: seq<byte> -> int, interrupts: nat,
                  mayFail: bool)
    returns (ok: bool, file: OpenFile)
    requires dev.Valid() && NulFree(line)
    requires |dev.stream| + 2 * |line| < TWO_TO_63
    modifies dev, dev.buffer, dev.buffer.entry, dev.heap
    ensures fresh(file) && file.dev == dev && file.Valid() && (ok <==> !file.failed) && file.mayFail == mayFail
    ensures !ok ==> if IsSeek(command, line)
                    then ParseSeek(line, atoi).Some?
                         && (interrupts > 0 || SendsFrom(dev.State(), command, line, atoi) < 0)
                    else mayFail
    ensures ok ==> dev.stream == old(dev.stream) + Adds(command, line)
    ensures ok ==> file.pos == SendsFrom(dev.State(), command, line, atoi)
    ensures old(dev.stream) <= dev.stream <= old(dev.stream) + Adds(command, line)
  {
    file := new OpenFile(dev, interrupts, mayFail);
    if IsSeek(command, line) {
      ok := true;
      var numbers := ParseSeek(line, atoi);
      if numbers.Some? {
        var r := file.SeekTo(numbers.value.0, numbers.value.1);
        ok := r.Done?;
      }
    } else {
      ok := WriteLine(file, line);
      if ok {
        file := new OpenFile(dev, interrupts, mayFail);
      }
    }
  }

  /** Whatever part of the line reaches the device, what it has can be read back. */
  lemma StaysReadable(capacity: nat, stream: seq<byte>, line: seq<byte>, stream': seq<byte>, pos: nat)
    requires Readable(Image(StateOf(capacity, stream)) + line) && stream <= stream' <= stream + line
    ensures Readable(Drop(Image(StateOf(capacity, stream')), pos))
  {
    var image, more := Image(StateOf(capacity, stream)), stream'[|stream|..];
    assert stream' == stream + more && more <= line;
    ReadableTake(image + line, image + more);
    ImageAfter(capacity, stream, more);
    ReadableDrop(image + more, Gone(capacity, stream, more));
    ReadableDrop(Image(StateOf(capacity, stream')), pos);
  }

  lemma NulFreeEnd(s: seq<byte>, t: seq<byte>)
    requires NulFree(s + t)
    ensures NulFree(t)
  {
    assert forall x | x in t :: x in s + t;
  }

  /** The second half of aesdsocket_serve: react to the line, if there is one, and send the file. */
  method Respond(conn: Socket, dev: CharDevice, line: Option<seq<byte>>, command: seq<byte>,
                 atoi: seq<byte> -> int, interrupts: nat, mayFail: bool)
    returns (ok: bool)
    requires dev.Valid() && !conn.failed && line != Some([])
    requires Readable(Image(dev.State()) + Text(line)) && |dev.stream| + 2 * |Text(line)| < TWO_TO_63
    modifies conn`sent, conn`interrupts, conn`failed, conn`terminating, dev, dev.buffer, dev.buffer.entry, dev.heap
    ensures dev.Valid() && (old(conn.terminating) ==> conn.terminating) && StillRuns(conn, old(conn.terminating))
    ensures ok && !conn.terminating && line.Some? ==>
              && dev.stream == old(dev.stream) + Adds(command, line.value)
              && 0 <= SendsFrom(dev.State(), command, line.value, atoi)
              && conn.sent == old(conn.sent)
                              + Drop(Image(dev.State()), SendsFrom(dev.State(), command, line.value, atoi))
    ensures line.Some? && SendsFrom(dev.State(), command, line.value, atoi) < 0 ==> !ok && conn.sent == old(conn.sent)
    ensures line.Some? ==> old(dev.stream) <= dev.stream <= old(dev.stream) + Adds(command, line.value)
    ensures line.None? ==> dev.stream == old(dev.stream)
    ensures old(conn.sent) <= conn.sent && (old(conn.terminating) ==> conn.sent == old(conn.sent))
    ensures !conn.mayFail && !mayFail && line.Some? && SendsFrom(dev.State(), command, line.value, atoi) >= 0 ==>
              ok || (IsSeek(command, line.value) && ParseSeek(line.value, atoi).Some? && interrupts > 0)
  {
    ghost var stream := dev.stream;
    var file: OpenFile;
    if line.Some? {
      NulFreeEnd(Image(dev.State()), line.value);
      ok, file := TakeLine(dev, line.value, command, atoi, interrupts, mayFail);
      if !ok {
        return false;
      }
    } else {
      file := new OpenFile(dev, interrupts, mayFail);
    }
    StaysReadable(dev.buffer.entry.Length, stream, Text(line), dev.stream, file.pos);
    ok := ReadAndSendFile(conn, file);
  }

  /** After a complete line the device has no tail, and its image is its last lines. */
  lemma SentForLine(capacity: nat, stream: seq<byte>, line: seq<byte>)
    ensures IsLine(line) ==>
              Drop(Image(StateOf(capacity, stream + line)), 0)
              == Flatten(LastN(Divide(stream + line).lines, capacity))
  {
    if IsLine(line) {
      DivideAppendLine(stream, line);
    }
  }

  /** What aesdsocket_serve does with the line it has received, all of `whole` unless it was told to stop. */
  method ServeLine(conn: Socket, dev: CharDevice, line: Option<seq<byte>>, ghost whole: seq<byte>, command: seq<byte>,
                   atoi: seq<byte> -> int, interrupts: nat, mayFail: bool)
    returns (ok: bool)
    requires dev.Valid() && !conn.failed && line != Some([]) && Text(line) <= whole
    requires !conn.terminating ==> Text(line) == whole && IsLine(whole)
    requires Readable(Image(dev.State()) + whole) && |dev.stream| + 2 * |whole| < TWO_TO_63
    modifies conn`sent, conn`interrupts, conn`failed, conn`terminating, dev, dev.buffer, dev.buffer.entry, dev.heap
    ensures dev.Valid() && (old(conn.terminating) ==> conn.terminating) && StillRuns(conn, old(conn.terminating))
    ensures ok && !conn.terminating ==>
              && dev.stream == old(dev.stream) + Adds(command, whole)
              && 0 <= SendsFrom(dev.State(), command, whole, atoi)
              && conn.sent == old(conn.sent) + Drop(Image(dev.State()), SendsFrom(dev.State(), command, whole, atoi))
              && (!IsSeek(command, whole) ==>
                    conn.sent == old(conn.sent) + Flatten(LastN(Divide(dev.stream).lines, dev.buffer.entry.Length)))
    ensures !conn.terminating && SendsFrom(dev.State(), command, whole, atoi) < 0 ==>
              !ok && conn.sent == old(conn.sent)
    ensures !conn.terminating ==> old(dev.stream) <= dev.stream <= old(dev.stream) + Adds(command, whole)
    ensures old(dev.stream) <= dev.stream <= old(dev.stream) + whole && old(conn.sent) <= conn.sent
    ensures line.None? ==> dev.stream == old(dev.stream)
    ensures old(conn.terminating) ==> conn.sent == old(conn.sent)
    ensures !conn.terminating && !conn.mayFail && !mayFail && SendsFrom(dev.State(), command, whole, atoi) >= 0 ==>
              ok || (IsSeek(command, whole) && ParseSeek(whole, atoi).Some? && interrupts > 0)
  {
    ReadableTake(Image(dev.State()) + whole, Image(dev.State()) + Text(line));
    SentForLine(dev.buffer.entry.Length, dev.stream, whole);
    ok := Respond(conn, dev, line, command, atoi, interrupts, mayFail);
  }

  /** A newline arrives before an error. */
  predicate LineArrives(arrivals: seq<Arrival>) {
    arrivals != []
    && match arrivals[0]
       case Error => false
       case Data(bytes) => NEWLINE in bytes || LineArrives(arrivals[1..])
       case _ => LineArrives(arrivals[1..])
  }

  /** Chunk `i` has a newline, and no error is before it. */
  ghost predicate ArrivesAt(arrivals: seq<Arrival>, i: nat) {
    i < |arrivals| && arrivals[i].Data? && NEWLINE in arrivals[i].bytes && Error !in arrivals[..i]
  }

  lemma ArrivesLater(arrivals: seq<Arrival>, i: nat)
    requires arrivals != []
    ensures ArrivesAt(arrivals, i + 1) <==> !arrivals[0].Error? && ArrivesAt(arrivals[1..], i)
  {
    if i < |arrivals[1..]| {
      assert arrivals[..i + 1] == [arrivals[0]] + arrivals[1..][..i];
    }
  }

  lemma {:induction false} LineArrivesExact(arrivals: seq<Arrival>)
    ensures LineArrives(arrivals) <==> exists i: nat :: ArrivesAt(arrivals, i)
  {
    if arrivals != [] {
      LineArrivesExact(arrivals[1..]);
      assert ArrivesAt(arrivals, 0) <==> arrivals[0].Data? && NEWLINE in arrivals[0].bytes;
      if LineArrives(arrivals) && !ArrivesAt(arrivals, 0) {
        var i: nat :| ArrivesAt(arrivals[1..], i);
        ArrivesLater(arrivals, i);
      }
      if i: nat :| ArrivesAt(arrivals, i) {
        if i > 0 {
          ArrivesLater(arrivals, i - 1);
        }
      }
    }
  }

  lemma {:induction false} GoodCompletes(buffer: seq<byte>, arrivals: seq<Arrival>)
    requires Reusable(buffer) && Receivable(arrivals) && Fits(Chunks(arrivals)) && GoodThrough(Chunks(arrivals))
    requires StaysWithin(buffer, Chunks(arrivals))
    ensures Completes(buffer, arrivals) <==> LineArrives(arrivals)
    decreases |arrivals|
  {
    if arrivals != [] {
      ChunksRest(arrivals);
      match arrivals[0]
      case Error =>
      case Data(bytes) =>
        ChunkInReusedBuffer(buffer, bytes);
        if NEWLINE !in bytes {
          GoodCompletes(Overwritten(buffer, bytes), arrivals[1..]);
        }
      case _ => GoodCompletes(buffer, arrivals[1..]);
    }
  }

  lemma StartsGood(arrivals: seq<Arrival>)
    requires Receivable(arrivals) && GoodThrough(Chunks(arrivals))
    ensures Fits(Chunks(arrivals)) && StaysWithin(ZEROS, Chunks(arrivals))
    ensures TakeRun(ZEROS, Chunks(arrivals)) == ThroughNewline(Payload(arrivals))
    ensures Completes(ZEROS, arrivals) <==> LineArrives(arrivals)
  {
    ReceivableFits(arrivals);
    GoodRun(ZEROS, Chunks(arrivals));
    GoodCompletes(ZEROS, arrivals);
  }

  /** A line in the format of a seek command: anything, ':', a number, ',', another, and the end. */
  ghost predicate Formatted(line: seq<byte>, prefix: seq<byte>, number: seq<byte>, offset: seq<byte>) {
    && line == prefix + [COLON] + number + [COMMA] + offset + [NEWLINE]
    && COLON !in prefix && COMMA !in number && NEWLINE !in offset
  }

  lemma FormattedIsParsed(line: seq<byte>, prefix: seq<byte>, number: seq<byte>, offset: seq<byte>,
                          atoi: seq<byte> -> int)
    requires NulFree(line) && Formatted(line, prefix, number, offset)
    ensures ParseSeek(line, atoi) == Some((atoi(number) % 0x1_0000_0000, atoi(offset) % 0x1_0000_0000))
  {
    assert forall x | x in prefix || x in number || x in offset :: x in line;
    ParseSeekOfFormatted(prefix, number, offset, atoi);
  }

  lemma ParsedIsFormatted(line: seq<byte>, atoi: seq<byte> -> int)
    returns (prefix: seq<byte>, number: seq<byte>, offset: seq<byte>)
    requires IsLine(line) && ParseSeek(line, atoi).Some?
    ensures Formatted(line, prefix, number, offset)
  {
    var rest;
    prefix, number, offset, rest := ParseSeekHasFormat(line, atoi);
    OnlyNewlineLast(line);
    var all := prefix + [COLON] + number + [COMMA] + offset;
    assert line[|all|] == NEWLINE;
    assert rest == [];
  }

  /** Where the answer to a seek command starts, told by the bytes of the command. */
  lemma SeekInBytes(st: DeviceState, command: seq<byte>, line: seq<byte>, atoi: seq<byte> -> int, prefix: seq<byte>,
                    number: seq<byte>, offset: seq<byte>)
    requires WellShaped(st) && NulFree(line) && command <= line && Formatted(line, prefix, number, offset)
    ensures var entry, at := atoi(number) % 0x1_0000_0000 % 256, atoi(offset) % 0x1_0000_0000;
            if entry < |st.lines| && at < |st.lines[entry]|
            then 0 <= SendsFrom(st, command, line, atoi)
                 && Drop(Image(st), SendsFrom(st, command, line, atoi))
                    == st.lines[entry][at..] + Flatten(st.lines[entry + 1..]) + st.tail
            else SendsFrom(st, command, line, atoi) < 0
  {
    FormattedIsParsed(line, prefix, number, offset, atoi);
    var writeCmd, at := atoi(number) % 0x1_0000_0000, atoi(offset) % 0x1_0000_0000;
    SeekThenRead(st, writeCmd, at, 1);
    var p := Position(writeCmd % 256, at);
    if ValidPosition(Lengths(st.lines), p) {
      FlattenFrom(st.lines, p);
      DropWithin(Flatten(st.lines), st.tail, FlatOffset(Lengths(st.lines), p));
    }
  }

  /** What the answer to a line is, told by the bytes of the line. */
  lemma AnswerInBytes(st: DeviceState, command: seq<byte>, line: seq<byte>, atoi: seq<byte> -> int)
    requires IsLine(line)
    ensures Adds(command, line) == if command <= line then [] else line
    ensures IsSeek(command, line) <==> command <= line
    ensures !(command <= line) ==> SendsFrom(st, command, line, atoi) == 0
    ensures command <= line && (forall p, n, o :: !Formatted(line, p, n, o)) ==>
              SendsFrom(st, command, line, atoi) == 0 && ParseSeek(line, atoi).None?
  {
    if ParseSeek(line, atoi).Some? {
      var p, n, o := ParsedIsFormatted(line, atoi);
    }
  }

  /** What the answer to a seek command is, told by the bytes of the command; `sure` says that nothing fails
      or interrupts. */
  lemma SeekAnswer(st: DeviceState, command: seq<byte>, line: seq<byte>, atoi: seq<byte> -> int, base: seq<byte>,
                   sent: seq<byte>, ok: bool, sure: bool)
    requires WellShaped(st) && NulFree(line)
    requires var from := SendsFrom(st, command, line, atoi);
             && (ok ==> 0 <= from && sent == base + Drop(Image(st), from))
             && (from < 0 ==> !ok && sent == base)
             && (sure && from >= 0 ==> ok)
    ensures command <= line ==>
              forall p, n, o | Formatted(line, p, n, o) ::
                var (entry, at) := (atoi(n) % 0x1_0000_0000 % 256, atoi(o) % 0x1_0000_0000);
                if entry < |st.lines| && at < |st.lines[entry]| then
                  && (ok ==> sent == base + (st.lines[entry][at..] + Flatten(st.lines[entry + 1..]) + st.tail))
                  && (sure ==> ok)
                else !ok && sent == base
  {
    if command <= line {
      forall p, n, o | Formatted(line, p, n, o)
        ensures var (entry, at) := (atoi(n) % 0x1_0000_0000 % 256, atoi(o) % 0x1_0000_0000);
                if entry < |st.lines| && at < |st.lines[entry]| then
                  && (ok ==> sent == base + (st.lines[entry][at..] + Flatten(st.lines[entry + 1..]) + st.tail))
                  && (sure ==> ok)
                else !ok && sent == base
      {
        SeekInBytes(st, command, line, atoi, p, n, o);
      }
    }
  }

  /** The same as `ServeLine`, told by the bytes of the line. */
  method AnswerLine(conn: Socket, dev: CharDevice, line: Option<seq<byte>>, ghost whole: seq<byte>, command: seq<byte>,
                    atoi: seq<byte> -> int, interrupts: nat, mayFail: bool)
    returns (ok: bool)
    requires dev.Valid() && !conn.failed && line != Some([]) && Text(line) <= whole
    requires !conn.terminating ==> Text(line) == whole && IsLine(whole)
    requires Readable(Image(dev.State()) + whole) && |dev.stream| + 2 * |whole| < TWO_TO_63
    modifies conn`sent, conn`interrupts, conn`failed, conn`terminating, dev, dev.buffer, dev.buffer.entry, dev.heap
    ensures dev.Valid() && (old(conn.terminating) ==> conn.terminating) && StillRuns(conn, old(conn.terminating))
    ensures old(dev.stream) <= dev.stream <= old(dev.stream) + whole && old(conn.sent) <= conn.sent
    ensures line.None? ==> dev.stream == old(dev.stream)
    ensures old(conn.terminating) ==> conn.sent == old(conn.sent)
    ensures !conn.terminating && !(command <= whole) ==>
              && (ok ==> dev.stream == old(dev.stream) + whole
                         && conn.sent
                            == old(conn.sent) + Flatten(LastN(Divide(dev.stream).lines, dev.buffer.entry.Length)))
              && (!conn.mayFail && !mayFail ==> ok)
    ensures !conn.terminating && command <= whole ==>
              && dev.stream == old(dev.stream)
              && ((forall p, n, o :: !Formatted(whole, p, n, o)) ==>
                    (ok ==> conn.sent == old(conn.sent) + Image(dev.State()))
                    && (!conn.mayFail && !mayFail ==> ok))
    ensures !conn.terminating && command <= whole ==>
              forall p, n, o | Formatted(whole, p, n, o) ::
                var (entry, at) := (atoi(n) % 0x1_0000_0000 % 256, atoi(o) % 0x1_0000_0000);
                var lines := dev.State().lines;
                if entry < |lines| && at < |lines[entry]| then
                  && (ok ==> conn.sent
                             == old(conn.sent) + (lines[entry][at..] + Flatten(lines[entry + 1..]) + dev.State().tail))
                  && (!conn.mayFail && !mayFail && interrupts == 0 ==> ok)
                else !ok && conn.sent == old(conn.sent)
  {
    NulFreeEnd(Image(dev.State()), whole);
    ok := ServeLine(conn, dev, line, whole, command, atoi, interrupts, mayFail);
    if !conn.terminating {
      StateOfShape(dev.buffer.entry.Length, dev.stream);
      AnswerInBytes(dev.State(), command, whole, atoi);
      SeekAnswer(dev.State(), command, whole, atoi, old(conn.sent), conn.sent, ok,
                 !conn.mayFail && !mayFail && interrupts == 0);
    }
  }

  /** aesdsocket_serve: take a line from the connection; a seek command moves the position to read from,
      any other line goes to the device; then send what the device has from that position on. */
  method Serve(conn: Socket, dev: CharDevice, command: seq<byte>, atoi: seq<byte> -> int, interrupts: nat,
               mayFail: bool)
    returns (ok: bool)
    requires dev.Valid() && Receivable(conn.incoming) && GoodThrough(Chunks(conn.incoming)) && !conn.failed
    requires Readable(Image(dev.State()) + ThroughNewline(Payload(conn.incoming)))
    requires |dev.stream| + 2 * |ThroughNewline(Payload(conn.incoming))| < TWO_TO_63
    modifies conn, dev, dev.buffer, dev.buffer.entry, dev.heap
    ensures dev.Valid() && (old(conn.terminating) ==> conn.terminating)
    // The server is only told to stop by a signal, or when nothing more arrives.
    ensures LineArrives(old(conn.incoming)) && !conn.mayTerminate && !old(conn.terminating) ==> !conn.terminating
    ensures ok && !conn.terminating ==> LineArrives(old(conn.incoming))
    ensures old(conn.sent) <= conn.sent
    ensures old(dev.stream) <= dev.stream <= old(dev.stream) + ThroughNewline(Payload(old(conn.incoming)))
    // A line that does not begin with the command is added to the stream, and the last lines are sent back.
    ensures var line := ThroughNewline(Payload(old(conn.incoming)));
            LineArrives(old(conn.incoming)) && !conn.terminating && !(command <= line) ==>
              && (ok ==> dev.stream == old(dev.stream) + line
                         && conn.sent
                            == old(conn.sent) + Flatten(LastN(Divide(dev.stream).lines, dev.buffer.entry.Length)))
              && (!conn.mayFail && !mayFail ==> ok)
    // One that does leaves the stream alone; without numbers the whole image is sent back,
    ensures var line := ThroughNewline(Payload(old(conn.incoming)));
            LineArrives(old(conn.incoming)) && !conn.terminating && command <= line ==>
              && dev.stream == old(dev.stream)
              && ((forall p, n, o :: !Formatted(line, p, n, o)) ==>
                    (ok ==> conn.sent == old(conn.sent) + Image(dev.State()))
                    && (!conn.mayFail && !mayFail ==> ok))
    // and with numbers what there is from that byte of that line on, or nothing when there is no such byte.
    ensures var line := ThroughNewline(Payload(old(conn.incoming)));
            LineArrives(old(conn.incoming)) && !conn.terminating && command <= line ==>
              forall p, n, o | Formatted(line, p, n, o) ::
                var (entry, at) := (atoi(n) % 0x1_0000_0000 % 256, atoi(o) % 0x1_0000_0000);
                var lines := dev.State().lines;
                if entry < |lines| && at < |lines[entry]| then
                  && (ok ==> conn.sent
                             == old(conn.sent) + (lines[entry][at..] + Flatten(lines[entry + 1..]) + dev.State().tail))
                  && (!conn.mayFail && !mayFail && interrupts == 0 ==> ok)
                else !ok && conn.sent == old(conn.sent)
    // When the server was told to stop before, or when no line arrives, nothing is stored or sent.
    ensures old(conn.terminating) ==> dev.stream == old(dev.stream) && conn.sent == old(conn.sent)
    ensures !LineArrives(old(conn.incoming)) && !conn.terminating ==>
              !ok && dev.stream == old(dev.stream) && conn.sent == old(conn.sent)
  {
    ghost var whole := ThroughNewline(Payload(conn.incoming));
    StartsGood(conn.incoming);
    var line: Option<seq<byte>>;
    ok, line := RecvLine(conn);
    if ok {
      ok := AnswerLine(conn, dev, line, whole, command, atoi, interrupts, mayFail);
    }
  }
}
