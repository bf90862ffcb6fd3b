/** Any number of clients on one device, their driver calls interleaved in any way: the monitor of the
    server does not keep writers apart, but each driver call is one atomic step. */
module Interleavings {
  import opened CTypes
  import opened Lines
  import opened DeviceSpec
  import opened CharDevices
  import opened DeviceRuns
  import opened SystemCalls

  /** A client: what it still has to write, the position it reads from, and what it has read. */
  datatype Client = Client(left: seq<byte>, pos: nat, got: seq<byte>)

  datatype Call = Writes(client: nat, result: WriteOutcome) | Reads(client: nat, call: ReadCall)

  datatype World = World(stream: seq<byte>, clients: seq<Client>)

  // ------------------------------------------------------------- what a call does

  /** What a read that does not fail gets of what is left: a beginning, as long as asked for or up to and
      including the first newline. */
  ghost predicate IsPiece(left: seq<byte>, count: nat, piece: seq<byte>) {
    && piece <= left && |piece| <= count
    && (forall i | 0 <= i < |piece| - 1 :: piece[i] != NEWLINE)
    && (|piece| == Min(count, |left|) || (piece != [] && piece[|piece| - 1] == NEWLINE))
  }

  /** What a client can still read. */
  function ToRead(capacity: nat, stream: seq<byte>, c: Client): seq<byte> {
    Drop(Image(StateOf(capacity, stream)), c.pos)
  }

  /** What a call can return to its client: a piece of the image of that moment for a read that does not
      fail, and nothing otherwise. */
  ghost predicate Gets(capacity: nat, w: World, call: Call, piece: seq<byte>)
    requires call.client < |w.clients|
  {
    match call
    case Writes(_, _) => piece == []
    case Reads(c, read) =>
      var left := ToRead(capacity, w.stream, w.clients[c]);
      if read.outcome == ReadInterrupted || (read.outcome == ReadFaults && left != []) then piece == []
      else IsPiece(left, read.count, piece)
  }

  /** What a call does: a successful write call takes what its client has left, and the piece that a read
      returns moves on its client's position. */
  function Result(w: World, call: Call, piece: seq<byte>): (r: World)
    requires call.client < |w.clients|
    ensures |r.clients| == |w.clients|
  {
    var c := w.clients[call.client];
    match call
    case Writes(i, outcome) =>
      if outcome == Succeeds then World(w.stream + c.left, w.clients[i := c.(left := [])]) else w
    case Reads(i, _) => World(w.stream, w.clients[i := c.(pos := c.pos + |piece|, got := c.got + piece)])
  }

  ghost predicate Moves(capacity: nat, w: World, call: Call, piece: seq<byte>, w': World) {
    call.client < |w.clients| && Gets(capacity, w, call, piece) && w' == Result(w, call, piece)
  }

  /** The worlds that a run of calls goes through, and the pieces that it returns. */
  ghost predicate GoesThrough(capacity: nat, calls: seq<Call>, pieces: seq<seq<byte>>, worlds: seq<World>) {
    && |pieces| == |calls| && |worlds| == |calls| + 1
    && forall i | 0 <= i < |calls| :: Moves(capacity, worlds[i], calls[i], pieces[i], worlds[i + 1])
  }

  lemma PieceExact(left: seq<byte>, count: nat)
    ensures IsPiece(left, count, Take(ThroughNewline(left), count))
  {
    var whole := ThroughNewline(left);
    if NEWLINE in whole {
      OnlyNewlineLast(whole);
    }
  }

  // ------------------------------------------------------------- no line is torn

  /** The lines of the given clients, in the given order. */
  function LinesOf(clients: seq<Client>, order: seq<nat>): (r: seq<seq<byte>>)
    requires forall i | 0 <= i < |order| :: order[i] < |clients|
    ensures |r| == |order|
  {
    seq(|order|, i requires 0 <= i < |order| => clients[order[i]].left)
  }

  /** The clients in `order`, each once, have written their line; the others have written nothing of it. */
  ghost predicate WroteWhole(clients0: seq<Client>, clients: seq<Client>, order: seq<nat>) {
    && |clients| == |clients0|
    && (forall i | 0 <= i < |order| :: order[i] < |clients0|)
    && (forall i, j | 0 <= i < j < |order| :: order[i] != order[j])
    && (forall c | 0 <= c < |clients| ::
          if c in order then clients0[c].left != [] && clients[c].left == []
          else clients[c].left == clients0[c].left)
  }

  lemma WroteOneMore(clients0: seq<Client>, clients: seq<Client>, order: seq<nat>, c: nat)
    requires WroteWhole(clients0, clients, order) && c < |clients| && clients[c].left != []
    ensures c !in order
    ensures WroteWhole(clients0, clients[c := clients[c].(left := [])], order + [c])
    ensures LinesOf(clients0, order + [c]) == LinesOf(clients0, order) + [clients[c].left]
  {
    var order' := order + [c];
    assert forall d :: d in order' <==> d in order || d == c;
  }

  lemma SameWrites(clients0: seq<Client>, clients: seq<Client>, order: seq<nat>, c: nat, client: Client)
    requires WroteWhole(clients0, clients, order) && c < |clients| && client.left == clients[c].left
    ensures WroteWhole(clients0, clients[c := client], order)
  {
  }

  /** A line is accepted whole by one call, and stays one line. */
  lemma LineIsWhole(stream: seq<byte>, line: seq<byte>)
    requires IsLine(line) && Divide(stream).tail == []
    ensures Accepted(WriteCall(line, Succeeds)) == line
    ensures Divide(stream + line) == Division(Divide(stream).lines + [line], [])
  {
    ThroughNewlineUnique(line, line);
    DivideAppendLine(stream, line);
    assert [] + line == line;
  }

  function TotalLeft(clients: seq<Client>): nat {
    if clients == [] then 0 else |clients[0].left| + TotalLeft(clients[1..])
  }

  lemma {:induction false} TotalUpdate(clients: seq<Client>, c: nat, client: Client)
    requires c < |clients|
    ensures TotalLeft(clients[c := client]) == TotalLeft(clients) - |clients[c].left| + |client.left|
  {
    if c == 0 {
      assert clients[0 := client][1..] == clients[1..];
    } else {
      assert clients[c := client][1..] == clients[1..][c - 1 := client];
      TotalUpdate(clients[1..], c - 1, client);
    }
  }

  // ------------------------------------------------------------- what a reader misses

  lemma GoneAdds(capacity: nat, stream: seq<byte>, p: seq<byte>, q: seq<byte>)
    ensures Gone(capacity, stream, p + q) == Gone(capacity, stream, p) + Gone(capacity, stream + p, q)
  {
    AppendAssociates(stream, p, q);
    var e0, e1, e2 := Evicted(capacity, stream), Evicted(capacity, stream + p), Evicted(capacity, stream + p + q);
    EvictedGrows(capacity, stream, p);
    EvictedGrows(capacity, stream + p, q);
    assert e2[|e0|..] == e1[|e0|..] + e2[|e1|..];
    FlattenAppend(e1[|e0|..], e2[|e1|..]);
  }

  lemma GoneOfNothing(capacity: nat, stream: seq<byte>)
    ensures Gone(capacity, stream, []) == 0
  {
    assert stream + [] == stream;
  }

  /** What a reader has and can still read, against what it had and could read and what came in meanwhile:
      the same when nothing was pushed out meanwhile, and otherwise less. */
  ghost predicate Caught(capacity: nat, stream: seq<byte>, more: seq<byte>, was: Client, now: Client) {
    var should := was.got + Drop(Image(StateOf(capacity, stream)), was.pos) + more;
    var image := Image(StateOf(capacity, stream + more));
    var has := now.got + Drop(image, now.pos);
    if Gone(capacity, stream, more) == 0 then has == should && now.pos <= |image|
    else |has| < |should|
  }

  lemma CaughtAtFirst(capacity: nat, stream: seq<byte>, c: Client)
    requires c.pos <= |Image(StateOf(capacity, stream))|
    ensures Caught(capacity, stream, [], c, c)
  {
    GoneOfNothing(capacity, stream);
    var should := c.got + Drop(Image(StateOf(capacity, stream)), c.pos);
    assert stream + [] == stream && should + [] == should;
  }

  /** A read takes from what is left, and so changes nothing. */
  lemma CaughtAfterRead(capacity: nat, stream: seq<byte>, more: seq<byte>, was: Client, now: Client, piece: seq<byte>)
    requires Caught(capacity, stream, more, was, now)
    requires piece <= ToRead(capacity, stream + more, now)
    ensures Caught(capacity, stream, more, was, now.(pos := now.pos + |piece|, got := now.got + piece))
  {
    PieceMovedOver(now.got, Image(StateOf(capacity, stream + more)), now.pos, piece);
  }

  lemma PieceMovedOver(got: seq<byte>, image: seq<byte>, pos: nat, piece: seq<byte>)
    requires piece <= Drop(image, pos)
    ensures (got + piece) + Drop(image, pos + |piece|) == got + Drop(image, pos)
    ensures pos <= |image| ==> pos + |piece| <= |image|
  {
    DropThenDrop(image, pos, |piece|);
  }

  /** A write appends to what can be read, and pushes bytes out from under the position. */
  lemma CaughtAfterWrite(capacity: nat, stream: seq<byte>, more: seq<byte>, line: seq<byte>, was: Client, now: Client,
                         after: Client)
    requires Caught(capacity, stream, more, was, now) && after.pos == now.pos && after.got == now.got
    ensures Caught(capacity, stream, more + line, was, after)
  {
    GoneAdds(capacity, stream, more, line);
    AppendAssociates(stream, more, line);
    var image, gone := Image(StateOf(capacity, stream + more)), Gone(capacity, stream + more, line);
    ImageAfter(capacity, stream + more, line);
    if line == [] {
      GoneOfNothing(capacity, stream + more);
    }
    LeftAfterWrite(now.got, image, now.pos, line, gone);
    AppendAssociates(was.got + Drop(Image(StateOf(capacity, stream)), was.pos), more, line);
  }

  lemma LeftAfterWrite(got: seq<byte>, image: seq<byte>, pos: nat, line: seq<byte>, gone: nat)
    requires gone <= |image + line| && (line == [] ==> gone == 0)
    ensures var has, has' := got + Drop(image, pos), got + Drop(Drop(image + line, gone), pos);
            && |has'| <= |has| + |line|
            && (pos <= |image| && gone == 0 ==> has' == has + line && pos <= |image + line|)
            && (pos <= |image| && gone > 0 ==> |has'| < |has| + |line|)
  {
  }

  // ------------------------------------------------------------- which lines a run has written

  predicate LinesOrNothing(clients: seq<Client>) {
    forall c | 0 <= c < |clients| :: clients[c].left == [] || IsLine(clients[c].left)
  }

  /** How far an interleaving has got. */
  ghost predicate SoFar(stream0: seq<byte>, was: seq<Client>, w: World, order: seq<nat>) {
    && WroteWhole(was, w.clients, order) && LinesOrNothing(w.clients)
    && Divide(w.stream) == Division(Divide(stream0).lines + LinesOf(was, order), [])
    && w.stream == stream0 + Flatten(LinesOf(was, order))
    && |w.stream| + TotalLeft(w.clients) < TWO_TO_63
    && forall c | 0 <= c < |w.clients| :: w.clients[c].pos < TWO_TO_63
  }

  lemma SoFarAtFirst(w: World)
    requires Divide(w.stream).tail == [] && LinesOrNothing(w.clients) && |w.stream| + TotalLeft(w.clients) < TWO_TO_63
    requires forall c | 0 <= c < |w.clients| :: w.clients[c].pos < TWO_TO_63
    ensures SoFar(w.stream, w.clients, w, [])
  {
    assert LinesOf(w.clients, []) == [] && w.stream + [] == w.stream;
    assert Divide(w.stream).lines + [] == Divide(w.stream).lines;
  }

  lemma SoFarAfterWrite(stream0: seq<byte>, was: seq<Client>, w: World, order: seq<nat>, c: nat)
    requires SoFar(stream0, was, w, order) && c < |w.clients| && w.clients[c].left != []
    ensures SoFar(stream0, was, World(w.stream + w.clients[c].left, w.clients[c := w.clients[c].(left := [])]),
                  order + [c])
  {
    var line, lines := w.clients[c].left, LinesOf(was, order);
    WroteOneMore(was, w.clients, order, c);
    LineIsWhole(w.stream, line);
    AppendAssociates(Divide(stream0).lines, lines, [line]);
    FlattenAppend(lines, [line]);
    FlattenSingleton(line);
    AppendAssociates(stream0, Flatten(lines), line);
    TotalUpdate(w.clients, c, w.clients[c].(left := []));
  }

  /** A successful write call is made for client `c` before any is made for client `d`. */
  ghost predicate WritesBefore(calls: seq<Call>, c: nat, d: nat) {
    exists k :: 0 <= k < |calls| && calls[k] == Writes(c, Succeeds) && Writes(d, Succeeds) !in calls[..k + 1]
  }

  /** The clients in `order` are those with a line that a successful write call was made for, in the order of
      the first such call for each. */
  ghost predicate InOrderOfWrites(clients: seq<Client>, calls: seq<Call>, order: seq<nat>) {
    && (forall c: nat :: c in order <==>
          c < |clients| && clients[c].left != [] && Writes(c, Succeeds) in calls)
    && (forall i, j | 0 <= i < j < |order| :: WritesBefore(calls, order[i], order[j]))
  }

  /** Whether a call is the one that writes its client's line. */
  predicate IsFirstWrite(clients: seq<Client>, order: seq<nat>, call: Call) {
    call.Writes? && call.result == Succeeds && call.client < |clients| && clients[call.client].left != []
    && call.client !in order
  }

  lemma StillBefore(calls: seq<Call>, call: Call, c: nat, d: nat)
    requires WritesBefore(calls, c, d)
    ensures WritesBefore(calls + [call], c, d)
  {
    var k :| 0 <= k < |calls| && calls[k] == Writes(c, Succeeds) && Writes(d, Succeeds) !in calls[..k + 1];
    assert (calls + [call])[k] == calls[k] && (calls + [call])[..k + 1] == calls[..k + 1];
  }

  lemma FirstOfIts(calls: seq<Call>, call: Call, c: nat)
    requires Writes(c, Succeeds) in calls && call !in calls
    ensures call.Writes? && call.result == Succeeds ==> WritesBefore(calls + [call], c, call.client)
  {
    var k :| 0 <= k < |calls| && calls[k] == Writes(c, Succeeds);
    assert (calls + [call])[k] == calls[k] && (calls + [call])[..k + 1] == calls[..k + 1];
  }

  lemma OrderGrows(clients: seq<Client>, calls: seq<Call>, order: seq<nat>, call: Call)
    requires InOrderOfWrites(clients, calls, order) && call.client < |clients|
    ensures InOrderOfWrites(clients, calls + [call],
                            if IsFirstWrite(clients, order, call) then order + [call.client] else order)
  {
    var calls' := calls + [call];
    var first := IsFirstWrite(clients, order, call);
    var order' := if first then order + [call.client] else order;
    assert forall x :: x in calls' <==> x in calls || x == call;
    assert forall c: nat :: c in order' <==> c in order || (first && c == call.client);
    forall i, j | 0 <= i < j < |order'|
      ensures WritesBefore(calls', order'[i], order'[j])
    {
      if j < |order| {
        assert WritesBefore(calls, order[i], order[j]);
        StillBefore(calls, call, order[i], order[j]);
      } else {
        assert order[i] in order;
        FirstOfIts(calls, call, order[i]);
      }
    }
  }

  lemma WithinStream(capacity: nat, stream: seq<byte>, pos: nat, piece: seq<byte>)
    requires piece <= Drop(Image(StateOf(capacity, stream)), pos) && pos < TWO_TO_63 && |stream| < TWO_TO_63
    ensures pos + |piece| < TWO_TO_63
  {
    ImageIsSuffix(capacity, stream);
  }

  /** A client still has its line exactly when it had one and it is not among those that wrote. */
  lemma StillHasLine(was: seq<Client>, now: seq<Client>, order: seq<nat>, c: nat)
    requires WroteWhole(was, now, order) && c < |now|
    ensures now[c].left != [] <==> was[c].left != [] && c !in order
  {
  }

  lemma NothingLeft(w: World, call: Call)
    requires call.Writes? && call.client < |w.clients|
    requires call.result == Succeeds ==> w.clients[call.client].left == []
    ensures Result(w, call, []) == w
  {
    assert w.stream + [] == w.stream;
    assert w.clients[call.client := w.clients[call.client]] == w.clients;
  }

  /** One write call keeps everything in place. */
  lemma SoFarAfterWriteCall(stream0: seq<byte>, was: seq<Client>, w: World, order: seq<nat>, call: Call)
    requires SoFar(stream0, was, w, order) && call.client < |w.clients| && call.Writes?
    ensures SoFar(stream0, was, Result(w, call, []),
                  if IsFirstWrite(was, order, call) then order + [call.client] else order)
  {
    StillHasLine(was, w.clients, order, call.client);
    if IsFirstWrite(was, order, call) {
      SoFarAfterWrite(stream0, was, w, order, call.client);
    } else {
      NothingLeft(w, call);
    }
  }

  /** One read call keeps everything in place. */
  lemma SoFarAfterReadCall(capacity: nat, stream0: seq<byte>, was: seq<Client>, w: World, order: seq<nat>, call: Call,
                           piece: seq<byte>)
    requires SoFar(stream0, was, w, order) && call.client < |w.clients| && call.Reads?
    requires piece <= ToRead(capacity, w.stream, w.clients[call.client])
    ensures SoFar(stream0, was, Result(w, call, piece), order)
  {
    var c := call.client;
    var client := w.clients[c].(pos := w.clients[c].pos + |piece|, got := w.clients[c].got + piece);
    WithinStream(capacity, w.stream, w.clients[c].pos, piece);
    SameWrites(was, w.clients, order, c, client);
    assert Result(w, call, piece) == World(w.stream, w.clients[c := client]);
    TotalUpdate(w.clients, c, client);
  }

  /** Where an interleaving may start. */
  ghost predicate Starts(capacity: nat, w: World) {
    && Divide(w.stream).tail == [] && LinesOrNothing(w.clients) && |w.stream| + TotalLeft(w.clients) < TWO_TO_63
    && forall c | 0 <= c < |w.clients| :: w.clients[c].pos <= |Image(StateOf(capacity, w.stream))|
  }

  lemma SoFarAtStart(capacity: nat, w: World)
    requires Starts(capacity, w)
    ensures SoFar(w.stream, w.clients, w, [])
  {
    ImageIsSuffix(capacity, w.stream);
    SoFarAtFirst(w);
  }

  lemma LastStep(capacity: nat, calls: seq<Call>, pieces: seq<seq<byte>>, worlds: seq<World>) returns (call: Call)
    requires GoesThrough(capacity, calls, pieces, worlds) && calls != []
    ensures var n := |calls| - 1;
            && call == calls[n] && calls == calls[..n] + [call] && call.client < |worlds[n].clients|
            && worlds[n + 1] == Result(worlds[n], call, pieces[n])
            && (call.Writes? ==> pieces[n] == [])
            && pieces[n] <= ToRead(capacity, worlds[n].stream, worlds[n].clients[call.client])
            && GoesThrough(capacity, calls[..n], pieces[..n], worlds[..n + 1])
  {
    var n := |calls| - 1;
    call := calls[n];
    assert Moves(capacity, worlds[n], calls[n], pieces[n], worlds[n + 1]);
    forall i | 0 <= i < n
      ensures Moves(capacity, worlds[..n + 1][i], calls[..n][i], pieces[..n][i], worlds[..n + 1][i + 1])
    {
      assert Moves(capacity, worlds[i], calls[i], pieces[i], worlds[i + 1]);
    }
  }

  /** Any run of calls of clients that each have a line to write, or nothing: which lines were written. */
  lemma {:induction false} RunOfCalls(capacity: nat, calls: seq<Call>, pieces: seq<seq<byte>>, worlds: seq<World>)
    returns (order: seq<nat>)
    requires GoesThrough(capacity, calls, pieces, worlds) && Starts(capacity, worlds[0])
    ensures SoFar(worlds[0].stream, worlds[0].clients, worlds[|calls|], order)
    ensures InOrderOfWrites(worlds[0].clients, calls, order)
    decreases |calls|
  {
    if calls == [] {
      order := [];
      SoFarAtStart(capacity, worlds[0]);
    } else {
      var n := |calls| - 1;
      var call := LastStep(capacity, calls, pieces, worlds);
      order := RunOfCalls(capacity, calls[..n], pieces[..n], worlds[..n + 1]);
      OrderGrows(worlds[0].clients, calls[..n], order, call);
      if call.Writes? {
        SoFarAfterWriteCall(worlds[0].stream, worlds[0].clients, worlds[n], order, call);
      } else {
        SoFarAfterReadCall(capacity, worlds[0].stream, worlds[0].clients, worlds[n], order, call, pieces[n]);
      }
      if IsFirstWrite(worlds[0].clients, order, call) {
        order := order + [call.client];
      }
    }
  }

  /** What one client misses over such a run. */
  lemma {:induction false} RunOfReads(capacity: nat, calls: seq<Call>, pieces: seq<seq<byte>>, worlds: seq<World>,
                                      c: nat)
    returns (more: seq<byte>)
    requires GoesThrough(capacity, calls, pieces, worlds) && c < |worlds[0].clients|
    requires worlds[0].clients[c].pos <= |Image(StateOf(capacity, worlds[0].stream))|
    ensures worlds[|calls|].stream == worlds[0].stream + more && c < |worlds[|calls|].clients|
    ensures Caught(capacity, worlds[0].stream, more, worlds[0].clients[c], worlds[|calls|].clients[c])
    decreases |calls|
  {
    if calls == [] {
      more := [];
      CaughtAtFirst(capacity, worlds[0].stream, worlds[0].clients[c]);
      assert worlds[0].stream + [] == worlds[0].stream;
    } else {
      var n := |calls| - 1;
      var call := LastStep(capacity, calls, pieces, worlds);
      var before := RunOfReads(capacity, calls[..n], pieces[..n], worlds[..n + 1], c);
      more := CaughtAfterCall(capacity, worlds[0].stream, before, worlds[0].clients[c], worlds[n], call, pieces[n], c);
    }
  }

  lemma CaughtAfterCall(capacity: nat, stream0: seq<byte>, before: seq<byte>, was: Client, w: World, call: Call,
                        piece: seq<byte>, c: nat)
    returns (more: seq<byte>)
    requires call.client < |w.clients| && c < |w.clients| && w.stream == stream0 + before
    requires Caught(capacity, stream0, before, was, w.clients[c])
    requires piece <= ToRead(capacity, w.stream, w.clients[call.client])
    ensures Result(w, call, piece).stream == stream0 + more
    ensures Caught(capacity, stream0, more, was, Result(w, call, piece).clients[c])
  {
    more := before;
    if call.Writes? && call.result == Succeeds {
      more := before + w.clients[call.client].left;
      AppendAssociates(stream0, before, w.clients[call.client].left);
      CaughtAfterWrite(capacity, stream0, before, w.clients[call.client].left, was, w.clients[c],
                       Result(w, call, piece).clients[c]);
    } else if call.Reads? && call.client == c {
      CaughtAfterRead(capacity, stream0, before, was, w.clients[c], piece);
    }
  }

  // ------------------------------------------------------------- any interleaving

  lemma {:induction false} LeftWithinTotal(clients: seq<Client>, c: nat)
    requires c < |clients|
    ensures |clients[c].left| <= TotalLeft(clients)
  {
    if c > 0 {
      LeftWithinTotal(clients[1..], c - 1);
    }
  }

  lemma LineAccepted(line: seq<byte>, outcome: WriteOutcome)
    requires line == [] || IsLine(line)
    ensures var call := WriteCall(line, outcome);
            && (WriteResult(call) >= 0 <==> line != [] && outcome == Succeeds)
            && Accepted(call) == (if line != [] && outcome == Succeeds then line else [])
  {
    if line != [] {
      ThroughNewlineUnique(line, line);
    }
  }

  /** What the device needs of a client's call. */
  ghost predicate Ready(dev: CharDevice, clients: seq<Client>, c: nat)
    reads dev, dev.buffer, dev.buffer.entry, dev.heap
  {
    && dev.Valid() && c < |clients| && Divide(dev.stream).tail == []
    && (clients[c].left == [] || IsLine(clients[c].left)) && clients[c].pos < TWO_TO_63
    && |dev.stream| + |clients[c].left| < TWO_TO_63
  }

  /** A write call with a whole line, or nothing, on a device without a tail: all of it is accepted, or the
      call fails and nothing is. */
  method WriteLineOnce(dev: CharDevice, line: seq<byte>, outcome: WriteOutcome) returns (done: bool)
    requires dev.Valid() && Divide(dev.stream).tail == [] && (line == [] || IsLine(line))
    requires |dev.stream| + |line| < TWO_TO_63
    modifies dev, dev.buffer, dev.buffer.entry, dev.heap
    ensures dev.Valid() && done == (line != [] && outcome == Succeeds)
    ensures dev.stream == if done then old(dev.stream) + line else old(dev.stream)
  {
    LineAccepted(line, outcome);
    var retval, newPos, lost := WriteOne(dev, WriteCall(line, outcome), 0);
    done := retval >= 0;
  }

  /** A read call: nothing when it fails. */
  method ReadOnce(dev: CharDevice, pos: nat, call: ReadCall) returns (piece: seq<byte>)
    requires dev.Valid() && pos < TWO_TO_63 && |dev.stream| < TWO_TO_63
    ensures var left := Drop(Image(dev.State()), pos);
            if call.outcome == ReadInterrupted || (call.outcome == ReadFaults && left != []) then piece == []
            else IsPiece(left, call.count, piece)
  {
    PieceExact(Drop(Image(dev.State()), pos), call.count);
    var r, newPos := ReadOne(dev, pos, call, ReadsOf(Image(dev.State())), |Image(dev.State())|);
    piece := if r.Some? then r.value else [];
  }

  /** One call of an interleaving. */
  method CallOf(dev: CharDevice, clients: seq<Client>, call: Call) returns (clients': seq<Client>, piece: seq<byte>)
    requires Ready(dev, clients, call.client)
    modifies dev, dev.buffer, dev.buffer.entry, dev.heap
    ensures dev.Valid() && Gets(dev.buffer.entry.Length, World(old(dev.stream), clients), call, piece)
    ensures World(dev.stream, clients') == Result(World(old(dev.stream), clients), call, piece)
  {
    match call
    case Writes(c, outcome) =>
      NothingLeft(World(dev.stream, clients), if clients[c].left == [] then call else Writes(c, CopyFaults));
      var done := WriteLineOnce(dev, clients[c].left, outcome);
      clients', piece := if done then clients[c := clients[c].(left := [])] else clients, [];
    case Reads(c, read) =>
      piece := ReadOnce(dev, clients[c].pos, read);
      clients' := clients[c := clients[c].(pos := clients[c].pos + |piece|, got := clients[c].got + piece)];
  }

  lemma ReadyForNext(dev: CharDevice, capacity: nat, calls: seq<Call>, pieces: seq<seq<byte>>, worlds: seq<World>,
                     c: nat)
    requires dev.Valid() && GoesThrough(capacity, calls, pieces, worlds) && worlds[|calls|].stream == dev.stream
    requires c < |worlds[0].clients| && Starts(capacity, worlds[0])
    ensures Ready(dev, worlds[|calls|].clients, c)
  {
    var order := RunOfCalls(capacity, calls, pieces, worlds);
    LeftWithinTotal(worlds[|calls|].clients, c);
  }

  lemma GoesOn(capacity: nat, calls: seq<Call>, pieces: seq<seq<byte>>, worlds: seq<World>, call: Call,
               piece: seq<byte>)
    requires GoesThrough(capacity, calls, pieces, worlds) && call.client < |worlds[|calls|].clients|
    requires Gets(capacity, worlds[|calls|], call, piece)
    ensures GoesThrough(capacity, calls + [call], pieces + [piece], worlds + [Result(worlds[|calls|], call, piece)])
  {
    var calls', pieces', worlds' := calls + [call], pieces + [piece], worlds + [Result(worlds[|calls|], call, piece)];
    forall i | 0 <= i < |calls'|
      ensures Moves(capacity, worlds'[i], calls'[i], pieces'[i], worlds'[i + 1])
    {
      assert i < |calls| ==> Moves(capacity, worlds[i], calls[i], pieces[i], worlds[i + 1]);
    }
  }

  lemma CaughtExactly(capacity: nat, calls: seq<Call>, pieces: seq<seq<byte>>, worlds: seq<World>, came: seq<byte>)
    requires GoesThrough(capacity, calls, pieces, worlds) && Starts(capacity, worlds[0])
    requires worlds[|calls|].stream == worlds[0].stream + came
    requires |worlds[|calls|].clients| == |worlds[0].clients|
    ensures forall c | 0 <= c < |worlds[0].clients| ::
              Caught(capacity, worlds[0].stream, came, worlds[0].clients[c], worlds[|calls|].clients[c])
  {
    forall c | 0 <= c < |worlds[0].clients|
      ensures Caught(capacity, worlds[0].stream, came, worlds[0].clients[c], worlds[|calls|].clients[c])
    {
      var more := RunOfReads(capacity, calls, pieces, worlds, c);
      SameEnd(worlds[0].stream, more, came);
    }
  }

  lemma SameEnd(a: seq<byte>, b: seq<byte>, c: seq<byte>)
    requires a + b == a + c
    ensures b == c
  {
    assert b == (a + b)[|a|..] && c == (a + c)[|a|..];
  }

  predicate AllCallable(n: nat, calls: seq<Call>) {
    forall i | 0 <= i < |calls| :: calls[i].client < n
  }

  /** One more call of an interleaving. */
  method CallNext(dev: CharDevice, clients: seq<Client>, call: Call, ghost calls: seq<Call>,
                  ghost pieces: seq<seq<byte>>, ghost worlds: seq<World>)
    returns (clients': seq<Client>, piece: seq<byte>)
    requires dev.Valid() && GoesThrough(dev.buffer.entry.Length, calls, pieces, worlds)
    requires Starts(dev.buffer.entry.Length, worlds[0]) && call.client < |worlds[0].clients|
    requires worlds[|calls|] == World(dev.stream, clients)
    modifies dev, dev.buffer, dev.buffer.entry, dev.heap
    ensures dev.Valid()
    ensures GoesThrough(dev.buffer.entry.Length, calls + [call], pieces + [piece],
                        worlds + [World(dev.stream, clients')])
  {
    ReadyForNext(dev, dev.buffer.entry.Length, calls, pieces, worlds, call.client);
    clients', piece := CallOf(dev, clients, call);
    GoesOn(dev.buffer.entry.Length, calls, pieces, worlds, call, piece);
  }

  method CallEach(dev: CharDevice, clients: seq<Client>, calls: seq<Call>)
    returns (clients': seq<Client>, pieces: seq<seq<byte>>, ghost worlds: seq<World>)
    requires dev.Valid() && Starts(dev.buffer.entry.Length, World(dev.stream, clients))
    requires AllCallable(|clients|, calls)
    modifies dev, dev.buffer, dev.buffer.entry, dev.heap
    ensures dev.Valid() && GoesThrough(dev.buffer.entry.Length, calls, pieces, worlds)
    ensures worlds[0] == World(old(dev.stream), clients) && worlds[|calls|] == World(dev.stream, clients')
  {
    clients', pieces, worlds := clients, [], [World(dev.stream, clients)];
    var i := 0;
    while i < |calls|
      invariant 0 <= i <= |calls| && dev.Valid()
      invariant GoesThrough(dev.buffer.entry.Length, calls[..i], pieces, worlds)
      invariant worlds[0] == World(old(dev.stream), clients) && worlds[i] == World(dev.stream, clients')
    {
      var piece;
      clients', piece := CallNext(dev, clients', calls[i], calls[..i], pieces, worlds);
      assert calls[..i + 1] == calls[..i] + [calls[i]];
      pieces, worlds := pieces + [piece], worlds + [World(dev.stream, clients')];
      i := i + 1;
    }
    assert calls[..|calls|] == calls;
  }

  /** What a call means to its client: a read that succeeds returns at least one byte when something is asked
      for and is there, and what a call returns is appended to what the client has got and moves it on. */
  ghost predicate ClientGets(capacity: nat, w: World, call: Call, piece: seq<byte>, w': World) {
    && call.client < |w.clients| == |w'.clients|
    && var was, now := w.clients[call.client], w'.clients[call.client];
       && (call.Reads? && call.call.outcome == ReadSucceeds && call.call.count > 0 ==>
             ToRead(capacity, w.stream, was) != [] ==> piece != [])
       && piece <= ToRead(capacity, w.stream, was)
       && now.got == was.got + piece && now.pos == was.pos + |piece|
  }

  lemma AllClientsGet(capacity: nat, calls: seq<Call>, pieces: seq<seq<byte>>, worlds: seq<World>)
    requires GoesThrough(capacity, calls, pieces, worlds)
    ensures forall i | 0 <= i < |calls| :: ClientGets(capacity, worlds[i], calls[i], pieces[i], worlds[i + 1])
  {
    forall i | 0 <= i < |calls|
      ensures ClientGets(capacity, worlds[i], calls[i], pieces[i], worlds[i + 1])
    {
      assert Moves(capacity, worlds[i], calls[i], pieces[i], worlds[i + 1]);
      assert worlds[i].clients[calls[i].client].got + [] == worlds[i].clients[calls[i].client].got;
    }
  }

  /** Any interleaving of driver calls of clients that each have a line to write, or nothing, and read from
      wherever they want, failing calls included, in the order of the calls. Every read returns a piece of
      the image of its moment, at least one byte when it succeeds and something is asked for and is there;
      a client has got what its reads returned. No line is torn: a client's line reaches the device whole,
      as one line, with its first successful write call, and the device holds the lines in the order of
      those calls. A reader ends up with what it had and could read, followed by everything that came in
      meanwhile, exactly when no line was pushed out meanwhile. */
  method Interleave(dev: CharDevice, clients: seq<Client>, calls: seq<Call>)
    returns (clients': seq<Client>, pieces: seq<seq<byte>>, ghost order: seq<nat>, ghost worlds: seq<World>)
    requires dev.Valid() && Divide(dev.stream).tail == [] && LinesOrNothing(clients)
    requires forall c | 0 <= c < |clients| :: clients[c].pos <= |Image(dev.State())|
    requires AllCallable(|clients|, calls) && |dev.stream| + TotalLeft(clients) < TWO_TO_63
    modifies dev, dev.buffer, dev.buffer.entry, dev.heap
    ensures dev.Valid() && GoesThrough(dev.buffer.entry.Length, calls, pieces, worlds)
    ensures worlds[0] == World(old(dev.stream), clients) && worlds[|calls|] == World(dev.stream, clients')
    ensures forall i | 0 <= i < |calls| ::
              ClientGets(dev.buffer.entry.Length, worlds[i], calls[i], pieces[i], worlds[i + 1])
    ensures WroteWhole(clients, clients', order) && InOrderOfWrites(clients, calls, order)
    ensures Divide(dev.stream) == Division(old(Divide(dev.stream).lines) + LinesOf(clients, order), [])
    ensures forall c | 0 <= c < |clients| ::
              (clients'[c].got + Drop(Image(dev.State()), clients'[c].pos)
               == clients[c].got + Drop(old(Image(dev.State())), clients[c].pos) + Flatten(LinesOf(clients, order))
               <==> Gone(dev.buffer.entry.Length, old(dev.stream), Flatten(LinesOf(clients, order))) == 0)
  {
    clients', pieces, worlds := CallEach(dev, clients, calls);
    order := RunOfCalls(dev.buffer.entry.Length, calls, pieces, worlds);
    CaughtExactly(dev.buffer.entry.Length, calls, pieces, worlds, Flatten(LinesOf(clients, order)));
    AllClientsGet(dev.buffer.entry.Length, calls, pieces, worlds);
  }
}
