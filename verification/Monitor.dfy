/** The monitor object of server/src/monitor.c. Its operations update the shared counters in place, one
    method for each critical section, and each one is a step of the protocol. */
module Monitors {
  import opened CTypes
  import opened MonitorProtocol

  /** `++` and `--` on an unsigned counter. */
  function Increment(x: uint32): uint32 {
    (x + 1) % 0x1_0000_0000
  }

  function Decrement(x: uint32): uint32 {
    (x - 1) % 0x1_0000_0000
  }

  class Monitor {
    var activeReaders: uint32
    var activeWriters: uint32
    var waitingReaders: uint32
    var waitingWriters: uint32
    ghost var threads: seq<Phase>  // where each client thread stands

    ghost function Snapshot(): State
      reads this
    {
      State(activeReaders, activeWriters, waitingReaders, waitingWriters, threads)
    }

    ghost predicate Valid()
      reads this
    {
      Inv(Snapshot()) && |threads| < 0x1_0000_0000
    }

    /** monitor_initialize, with a number of threads that may come to use it. */
    constructor (ghost n: nat)
      requires n < 0x1_0000_0000
      ensures Valid() && Snapshot() == Initial(n)
    {
      activeReaders, activeWriters, waitingReaders, waitingWriters := 0, 0, 0, 0;
      threads := seq(n, _ => Idle);
      InvInitial(n);
    }

    /** What the next step does to the counters fits them: no decrement underflows and no increment
        wraps. */
    lemma StepFits(a: Action)
      requires Valid() && Enabled(Snapshot(), a)
      ensures var s' := Next(Snapshot(), a);
              && Inv(s') && |s'.threads| == |threads|
              && 0 <= s'.activeReaders < 0x1_0000_0000 && 0 <= s'.activeWriters < 0x1_0000_0000
              && 0 <= s'.waitingReaders < 0x1_0000_0000 && 0 <= s'.waitingWriters < 0x1_0000_0000
    {
      var s' := Next(Snapshot(), a);
      InvStep(Snapshot(), a);
      NextThreads(Snapshot(), a);
      WeighBound(s'.threads, READING, 1);
      WeighBound(s'.threads, WRITING, 1);
      WeighBound(s'.threads, WAITING_TO_READ, 1);
      WeighBound(s'.threads, WAITING_TO_WRITE, 1);
    }

    /** pthread_cond_broadcast: on `can_read` it wakes the waiting readers, on `can_write` the writers. */
    ghost method CondBroadcast(waiting: Phase)
      modifies this`threads
      ensures threads == WakeAll(old(threads), waiting)
    {
      threads := WakeAll(threads, waiting);
    }

    /** pthread_cond_wait may return without a broadcast. */
    ghost method SpuriousWake(t: nat)
      requires Valid() && Enabled(Snapshot(), Action.SpuriousWake(t))
      modifies this`threads
      ensures Valid() && Snapshot() == Next(old(Snapshot()), Action.SpuriousWake(t))
    {
      StepFits(Action.SpuriousWake(t));
      threads := threads[t := Woken(threads[t])];
    }

    /** monitor_start_reading, up to the wait or through the unlock. */
    method StartReading(ghost t: nat) returns (waits: bool)
      requires Valid() && Enabled(Snapshot(), Action.StartReading(t))
      modifies this
      ensures Valid() && Snapshot() == Next(old(Snapshot()), Action.StartReading(t))
      ensures waits <==> threads[t] == WaitingReader
    {
      StepFits(Action.StartReading(t));
      waits := activeWriters != 0 || waitingWriters != 0;
      if waits {
        waitingReaders := Increment(waitingReaders);
        threads := threads[t := WaitingReader];
      } else {
        activeReaders := Increment(activeReaders);
        threads := threads[t := AdmittedReader];
      }
    }

    /** monitor_start_reading, from the return of the wait through the unlock. */
    method ResumeReading(ghost t: nat)
      requires Valid() && Enabled(Snapshot(), Action.ResumeReading(t))
      modifies this
      ensures Valid() && Snapshot() == Next(old(Snapshot()), Action.ResumeReading(t))
    {
      StepFits(Action.ResumeReading(t));
      NoUnderflow(Snapshot(), Action.ResumeReading(t));
      waitingReaders := Decrement(waitingReaders);
      activeReaders := Increment(activeReaders);
      threads := threads[t := AdmittedReader];
    }

    /** monitor_start_reading, the broadcast after the unlock. */
    method BroadcastCanRead(ghost t: nat)
      requires Valid() && Enabled(Snapshot(), Broadcast(t))
      modifies this
      ensures Valid() && Snapshot() == Next(old(Snapshot()), Broadcast(t))
    {
      StepFits(Broadcast(t));
      threads := threads[t := ActiveReader];
      CondBroadcast(WaitingReader);
    }

    /** monitor_stop_reading: the last reader to stop wakes the waiting writers. */
    method StopReading(ghost t: nat)
      requires Valid() && Enabled(Snapshot(), Action.StopReading(t))
      modifies this
      ensures Valid() && Snapshot() == Next(old(Snapshot()), Action.StopReading(t))
    {
      StepFits(Action.StopReading(t));
      NoUnderflow(Snapshot(), Action.StopReading(t));
      threads := threads[t := Idle];
      activeReaders := Decrement(activeReaders);
      if activeReaders == 0 {
        CondBroadcast(WaitingWriter);
      }
    }

    /** monitor_start_writing, up to the wait or through the unlock. */
    method StartWriting(ghost t: nat) returns (waits: bool)
      requires Valid() && Enabled(Snapshot(), Action.StartWriting(t))
      modifies this
      ensures Valid() && Snapshot() == Next(old(Snapshot()), Action.StartWriting(t))
      ensures waits <==> threads[t] == WaitingWriter
    {
      StepFits(Action.StartWriting(t));
      waits := activeWriters != 0 || activeReaders != 0 || waitingReaders != 0 || waitingWriters != 0;
      if waits {
        waitingWriters := Increment(waitingWriters);
        threads := threads[t := WaitingWriter];
      } else {
        activeWriters := Increment(activeWriters);
        threads := threads[t := ActiveWriter];
      }
    }

    /** monitor_start_writing, from the return of the wait through the unlock. */
    method ResumeWriting(ghost t: nat)
      requires Valid() && Enabled(Snapshot(), Action.ResumeWriting(t))
      modifies this
      ensures Valid() && Snapshot() == Next(old(Snapshot()), Action.ResumeWriting(t))
    {
      StepFits(Action.ResumeWriting(t));
      NoUnderflow(Snapshot(), Action.ResumeWriting(t));
      waitingWriters := Decrement(waitingWriters);
      activeWriters := Increment(activeWriters);
      threads := threads[t := ActiveWriter];
    }

    /** monitor_stop_writing: the last writer to stop wakes the waiting readers, or else the waiting
        writers. */
    method StopWriting(ghost t: nat)
      requires Valid() && Enabled(Snapshot(), Action.StopWriting(t))
      modifies this
      ensures Valid() && Snapshot() == Next(old(Snapshot()), Action.StopWriting(t))
    {
      StepFits(Action.StopWriting(t));
      NoUnderflow(Snapshot(), Action.StopWriting(t));
      threads := threads[t := Idle];
      activeWriters := Decrement(activeWriters);
      if activeWriters == 0 {
        if waitingReaders != 0 {
          CondBroadcast(WaitingReader);
        } else if waitingWriters != 0 {
          CondBroadcast(WaitingWriter);
        }
      }
    }
  }
}
