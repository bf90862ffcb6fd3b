/** The system calls of the server: a connected socket and an open device file, with the short transfers,
    interruptions and failures they are allowed. Signals are finite in number. */
module SystemCalls {
  import opened CTypes
  import opened Lines
  import opened CStrings
  import opened DeviceSpec
  import opened CharDevices

  /** How a call returns: with a count, with -1 and EINTR, or with -1 and another error. */
  datatype Result = Done(count: nat) | Interrupted | Failed

  /** What a recv call meets. */
  datatype Arrival = Data(bytes: seq<byte>) | PeerClosed | Signal | Error

  /** The chunks of data that arrive. */
  function Chunks(arrivals: seq<Arrival>): seq<seq<byte>> {
    if arrivals == [] then []
    else (if arrivals[0].Data? then [arrivals[0].bytes] else []) + Chunks(arrivals[1..])
  }

  /** Every byte that arrives, however it is cut into chunks. */
  function Payload(arrivals: seq<Arrival>): seq<byte> {
    Flatten(Chunks(arrivals))
  }

  /** recv delivers between one byte and as many as were asked for. */
  predicate Receivable(arrivals: seq<Arrival>) {
    forall i | 0 <= i < |arrivals| && arrivals[i].Data? :: 0 < |arrivals[i].bytes| <= BUFFSIZE
  }

  lemma {:induction false} ReceivableFits(arrivals: seq<Arrival>)
    requires Receivable(arrivals)
    ensures Fits(Chunks(arrivals))
  {
    if arrivals != [] {
      ReceivableFits(arrivals[1..]);
    }
  }

  /** Bytes arrive at the front of a buffer; what is behind them stays. */
  method CopyTo(buffer: array<byte>, bytes: seq<byte>)
    requires |bytes| <= buffer.Length
    modifies buffer
    ensures buffer[..] == bytes + old(buffer[..])[|bytes|..]
  {
    forall i | 0 <= i < |bytes| {
      buffer[i] := bytes[i];
    }
  }

  class Socket {
    var incoming: seq<Arrival>  // what the calls to recv will meet, until the server is told to stop
    var sent: seq<byte>
    var interrupts: nat         // how many more calls can be interrupted
    var failed: bool
    const mayFail: bool         // whether a send can fail for good
    var terminating: bool       // the termination flag, which only the signal handler sets
    const mayTerminate: bool    // whether the signal can come while there is something left to receive or send

    constructor (incoming: seq<Arrival>, interrupts: nat, mayFail: bool, mayTerminate: bool)
      ensures this.incoming == incoming && sent == [] && this.interrupts == interrupts
      ensures !failed && !terminating && this.mayFail == mayFail && this.mayTerminate == mayTerminate
    {
      this.incoming, sent, this.interrupts, this.mayFail := incoming, [], interrupts, mayFail;
      this.mayTerminate, failed, terminating := mayTerminate, false, false;
    }

    /** Look at the termination flag. Once set it stays set. */
    method PollTermination() returns (flag: bool)
      modifies this`terminating
      ensures flag == terminating && (old(terminating) ==> terminating)
      ensures !mayTerminate ==> terminating == old(terminating)
    {
      var raised: bool := *;
      terminating := terminating || (mayTerminate && raised);
      flag := terminating;
    }

    /** recv into the front of a buffer. With nothing left to arrive the call blocks until the signal that
        ends the server interrupts it. */
    method Recv(buffer: array<byte>) returns (r: Result)
      requires buffer.Length == BUFFSIZE && Receivable(incoming)
      modifies this`incoming, this`failed, this`terminating, buffer
      ensures old(incoming) == [] ==> r == Interrupted && terminating && incoming == [] && failed == old(failed)
      ensures old(incoming) != [] ==> incoming == old(incoming)[1..] && terminating == old(terminating)
      ensures old(incoming) != [] ==>
                match old(incoming)[0]
                case Data(bytes) =>
                  r == Done(|bytes|) && buffer[..] == bytes + old(buffer[..])[|bytes|..] && failed == old(failed)
                case PeerClosed => r == Done(0) && failed == old(failed)
                case Signal => r == Interrupted && failed == old(failed)
                case Error => r == Failed && failed
      ensures !(old(incoming) != [] && old(incoming)[0].Data?) ==> buffer[..] == old(buffer[..])
    {
      if incoming == [] {
        terminating := true;
        return Interrupted;
      }
      var arrival := incoming[0];
      incoming := incoming[1..];
      match arrival
      case Data(bytes) =>
        CopyTo(buffer, bytes);
        r := Done(|bytes|);
      case PeerClosed => r := Done(0);
      case Signal => r := Interrupted;
      case Error =>
        failed := true;
        r := Failed;
    }

    /** send: at least one byte goes out, or the call is interrupted or fails. */
    method Send(data: seq<byte>) returns (r: Result)
      requires data != []
      modifies this`sent, this`interrupts, this`failed
      ensures match r
              case Done(n) =>
                && 0 < n <= |data| && sent == old(sent) + data[..n]
                && interrupts == old(interrupts) && failed == old(failed)
              case Interrupted => sent == old(sent) && interrupts < old(interrupts) && failed == old(failed)
              case Failed => sent == old(sent) && interrupts == old(interrupts) && failed && mayFail
    {
      var fails: bool, signalled: bool := *, *;
      if mayFail && fails {
        failed := true;
        return Failed;
      }
      if interrupts > 0 && signalled {
        interrupts := interrupts - 1;
        return Interrupted;
      }
      var n: nat :| 0 < n <= |data|;
      sent := sent + data[..n];
      return Done(n);
    }
  }

  class OpenFile {
    const dev: CharDevice
    var pos: nat
    var interrupts: nat
    var failed: bool
    const mayFail: bool  // whether a read or write can fail for good

    ghost predicate Valid()
      reads this, dev, dev.buffer, dev.buffer.entry, dev.heap
    {
      dev.Valid() && pos < TWO_TO_63 && |dev.stream| < TWO_TO_63
    }

    /** open: a new file description starts at position 0. */
    constructor (dev: CharDevice, interrupts: nat, mayFail: bool)
      ensures this.dev == dev && pos == 0 && this.interrupts == interrupts && !failed && this.mayFail == mayFail
    {
      this.dev, pos, this.interrupts, failed, this.mayFail := dev, 0, interrupts, false, mayFail;
    }

    /** What a kernel result means to the caller: a count, or -1 with an error number. */
    method Conclude(retval: int) returns (r: Result)
      requires retval == -ERESTARTSYS ==> interrupts > 0
      modifies this`interrupts, this`failed
      ensures r == if retval >= 0 then Done(retval) else if retval == -ERESTARTSYS then Interrupted else Failed
      ensures interrupts == if r.Interrupted? then old(interrupts) - 1 else old(interrupts)
      ensures failed == (old(failed) || r.Failed?)
    {
      if retval >= 0 {
        r := Done(retval);
      } else if retval == -ERESTARTSYS {
        interrupts := interrupts - 1;
        r := Interrupted;
      } else {
        failed := true;
        r := Failed;
      }
    }

    /** write: the device takes the data in through its first newline. */
    method Write(data: seq<byte>) returns (r: Result)
      requires Valid() && data != [] && |dev.stream| + pos + |data| < TWO_TO_63
      modifies this, dev, dev.buffer, dev.buffer.entry, dev.heap
      ensures Valid()
      ensures match r
              case Done(n) =>
                n == |ThroughNewline(data)| && dev.stream == old(dev.stream) + ThroughNewline(data)
                && pos == old(pos) + n && interrupts == old(interrupts) && failed == old(failed)
              case Interrupted =>
                && dev.stream == old(dev.stream) && pos == old(pos)
                && interrupts < old(interrupts) && failed == old(failed)
              case Failed =>
                dev.stream == old(dev.stream) && pos == old(pos) && interrupts == old(interrupts) && failed && mayFail
    {
      var retval := EnterWrite(data);
      r := Conclude(retval);
    }

    /** What a write runs into: nothing, a fault, or, while signals last, an interruption. */
    method WriteMeets() returns (outcome: WriteOutcome)
      ensures outcome != AllocationFails
      ensures outcome == CopyFaults ==> mayFail
      ensures outcome == LockInterrupted ==> interrupts > 0
    {
      var fails: bool, signalled: bool := *, *;
      outcome := if mayFail && fails then CopyFaults
                 else if interrupts > 0 && signalled then LockInterrupted
                 else Succeeds;
    }

    /** The driver's side of a write, which may meet a fault or, while signals last, an interruption. */
    method EnterWrite(data: seq<byte>) returns (retval: int)
      requires Valid() && data != [] && |dev.stream| + pos + |data| < TWO_TO_63
      modifies this`pos, dev, dev.buffer, dev.buffer.entry, dev.heap
      ensures Valid() && (retval == -ERESTARTSYS ==> interrupts > 0)
      ensures retval < 0 ==> retval == -ERESTARTSYS || mayFail
      ensures retval < 0 ==> dev.stream == old(dev.stream) && pos == old(pos)
      ensures retval >= 0 ==> retval == |ThroughNewline(data)| && pos == old(pos) + retval
      ensures retval >= 0 ==> dev.stream == old(dev.stream) + ThroughNewline(data)
    {
      TailWithinStream(dev.buffer.entry.Length, dev.stream);
      dev.LineSizes();
      var outcome := WriteMeets();
      var newPos;
      retval, newPos := dev.Write(data, outcome, pos);
      pos := newPos;
    }

    /** read into the front of a buffer: the image from the position on, no further than its first
        newline. */
    method Read(buffer: array<byte>) returns (r: Result)
      requires Valid() && buffer.Length == BUFFSIZE
      modifies this, buffer
      ensures Valid() && dev.State() == old(dev.State())
      ensures match r
              case Done(n) =>
                var piece := ReadStep(dev.State(), old(pos), BUFFSIZE);
                n == |piece| && buffer[..] == piece + old(buffer[..])[n..]
                && pos == old(pos) + n && interrupts == old(interrupts) && failed == old(failed)
              case Interrupted =>
                && buffer[..] == old(buffer[..]) && pos == old(pos)
                && interrupts < old(interrupts) && failed == old(failed)
              case Failed =>
                buffer[..] == old(buffer[..]) && pos == old(pos) && interrupts == old(interrupts) && failed && mayFail
    {
      PieceWithinStream(dev.buffer.entry.Length, dev.stream, pos, BUFFSIZE);
      var outcome: ReadOutcome := ReadSucceeds;
      var fails: bool, signalled: bool := *, *;
      if mayFail && fails {
        outcome := ReadFaults;
      } else if interrupts > 0 && signalled {
        outcome := ReadInterrupted;
      }
      var retval, bytes, newPos := dev.Read(BUFFSIZE, pos, outcome);
      pos := newPos;
      CopyTo(buffer, bytes);
      r := Conclude(retval);
    }

    /** ioctl with the seek command. It is not tried again when it is interrupted. */
    method SeekTo(command: uint32, offset: uint32) returns (r: Result)
      requires Valid()
      modifies this`pos, this`failed
      ensures Valid() && !r.Interrupted? && (r.Failed? ==> pos == old(pos) && failed)
      ensures r.Done? ==> SeekCommandResult(dev.State(), command, offset) == pos && failed == old(failed)
      ensures r.Failed? ==> interrupts > 0 || SeekCommandResult(dev.State(), command, offset) < 0
    {
      LinesWithinStream(dev.buffer.entry.Length, dev.stream);
      SeekWithinLines(dev.State(), command, offset);
      var signalled: bool := *;
      var result, newPos := dev.IocSeekTo(command, offset, pos, interrupts > 0 && signalled);
      pos := newPos;
      if result >= 0 {
        r := Done(0);
      } else {
        failed := true;
        r := Failed;
      }
    }
  }

  lemma LinesWithinStream(capacity: nat, stream: seq<byte>)
    ensures |Flatten(StateOf(capacity, stream).lines)| <= |Image(StateOf(capacity, stream))| <= |stream|
  {
    ImageIsSuffix(capacity, stream);
  }

  lemma SeekWithinLines(st: DeviceState, command: uint32, offset: uint32)
    ensures SeekCommandResult(st, command, offset) <= |Flatten(st.lines)|
  {
  }

  lemma TailWithinStream(capacity: nat, stream: seq<byte>)
    ensures |StateOf(capacity, stream).tail| <= |stream|
  {
    DivideShape(stream);
  }

  lemma PieceWithinStream(capacity: nat, stream: seq<byte>, pos: nat, count: nat)
    ensures var piece := ReadStep(StateOf(capacity, stream), pos, count);
            piece != [] ==> pos + |piece| <= |stream|
  {
    if count > 0 {
      ImageIsSuffix(capacity, stream);
      ReadStepProgress(StateOf(capacity, stream), pos, count);
    }
  }
}
