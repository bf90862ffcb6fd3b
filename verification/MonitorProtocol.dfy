/** The readers/writers monitor (server/src/monitor.c) as a step protocol over any number of threads.
    A critical section is one step, split where it waits; a broadcast outside the lock is a step of its
    own. A waiting thread may wake up without being signalled, as pthread_cond_wait allows (System
    Interfaces volume of IEEE Std 1003.1-2017). */
module MonitorProtocol {

  /** Where a thread stands. A woken thread has left the condition variable but does not hold the lock
      yet; an admitted reader counts as active but has not made its broadcast yet. */
  datatype Phase =
    | Idle
    | WaitingReader | WokenReader | AdmittedReader | ActiveReader
    | WaitingWriter | WokenWriter | ActiveWriter

  datatype State = State(activeReaders: int, activeWriters: int, waitingReaders: int, waitingWriters: int,
                         threads: seq<Phase>)

  datatype Action =
    | StartReading(t: nat) | ResumeReading(t: nat) | Broadcast(t: nat) | StopReading(t: nat)
    | StartWriting(t: nat) | ResumeWriting(t: nat) | StopWriting(t: nat)
    | SpuriousWake(t: nat)

  function Initial(n: nat): State {
    State(0, 0, 0, 0, seq(n, _ => Idle))
  }

  function Woken(p: Phase): Phase {
    match p
    case WaitingReader => WokenReader
    case WaitingWriter => WokenWriter
    case _ => p
  }

  /** A broadcast wakes every thread that waits in the given phase. */
  function WakeAll(threads: seq<Phase>, waiting: Phase): (r: seq<Phase>)
    ensures |r| == |threads|
    ensures forall i | 0 <= i < |r| :: r[i] == if threads[i] == waiting then Woken(waiting) else threads[i]
  {
    seq(|threads|, i requires 0 <= i < |threads| => if threads[i] == waiting then Woken(waiting) else threads[i])
  }

  predicate Enabled(s: State, a: Action) {
    && a.t < |s.threads|
    && var p := s.threads[a.t];
       match a
       case StartReading(_) => p == Idle
       case ResumeReading(_) => p == WokenReader
       case Broadcast(_) => p == AdmittedReader
       case StopReading(_) => p == ActiveReader
       case StartWriting(_) => p == Idle
       case ResumeWriting(_) => p == WokenWriter
       case StopWriting(_) => p == ActiveWriter
       case SpuriousWake(_) => p == WaitingReader || p == WaitingWriter
  }

  function Next(s: State, a: Action): State
    requires Enabled(s, a)
  {
    var threads := s.threads;
    match a
    case StartReading(t) =>
      if s.activeWriters != 0 || s.waitingWriters != 0
      then s.(waitingReaders := s.waitingReaders + 1, threads := threads[t := WaitingReader])
      else s.(activeReaders := s.activeReaders + 1, threads := threads[t := AdmittedReader])
    case ResumeReading(t) =>
      s.(waitingReaders := s.waitingReaders - 1, activeReaders := s.activeReaders + 1,
         threads := threads[t := AdmittedReader])
    case Broadcast(t) =>
      s.(threads := WakeAll(threads[t := ActiveReader], WaitingReader))
    case StopReading(t) =>
      var left := threads[t := Idle];
      s.(activeReaders := s.activeReaders - 1,
         threads := if s.activeReaders - 1 == 0 then WakeAll(left, WaitingWriter) else left)
    case StartWriting(t) =>
      if s.activeWriters != 0 || s.activeReaders != 0 || s.waitingReaders != 0 || s.waitingWriters != 0
      then s.(waitingWriters := s.waitingWriters + 1, threads := threads[t := WaitingWriter])
      else s.(activeWriters := s.activeWriters + 1, threads := threads[t := ActiveWriter])
    case ResumeWriting(t) =>
      s.(waitingWriters := s.waitingWriters - 1, activeWriters := s.activeWriters + 1,
         threads := threads[t := ActiveWriter])
    case StopWriting(t) =>
      var left := threads[t := Idle];
      s.(activeWriters := s.activeWriters - 1,
         threads := if s.activeWriters - 1 != 0 then left
                    else if s.waitingReaders != 0 then WakeAll(left, WaitingReader)
                    else if s.waitingWriters != 0 then WakeAll(left, WaitingWriter)
                    else left)
    case SpuriousWake(t) =>
      s.(threads := threads[t := Woken(threads[t])])
  }

  // ------------------------------------------------------------- weighing threads

  /** A sum over the threads of a number for each phase. */
  function Weigh(threads: seq<Phase>, w: Phase -> nat): nat {
    if threads == [] then 0 else w(threads[0]) + Weigh(threads[1..], w)
  }

  lemma {:induction false} WeighUpdate(threads: seq<Phase>, t: nat, p: Phase, w: Phase -> nat)
    requires t < |threads|
    ensures Weigh(threads[t := p], w) == Weigh(threads, w) - w(threads[t]) + w(p)
  {
    if t == 0 {
      assert threads[0 := p][1..] == threads[1..];
    } else {
      assert threads[t := p][1..] == threads[1..][t - 1 := p];
      WeighUpdate(threads[1..], t - 1, p, w);
    }
  }

  /** A broadcast does not add weight when waking does not, and keeps it when waking does. */
  lemma {:induction false} WeighWakeAll(threads: seq<Phase>, waiting: Phase, w: Phase -> nat)
    requires w(Woken(waiting)) <= w(waiting)
    ensures Weigh(WakeAll(threads, waiting), w) <= Weigh(threads, w)
    ensures w(Woken(waiting)) == w(waiting) ==> Weigh(WakeAll(threads, waiting), w) == Weigh(threads, w)
  {
    if threads != [] {
      assert WakeAll(threads, waiting)[1..] == WakeAll(threads[1..], waiting);
      WeighWakeAll(threads[1..], waiting, w);
    }
  }

  lemma {:induction false} WeighAtLeast(threads: seq<Phase>, t: nat, w: Phase -> nat)
    requires t < |threads|
    ensures Weigh(threads, w) >= w(threads[t])
  {
    if t > 0 {
      WeighAtLeast(threads[1..], t - 1, w);
    }
  }

  lemma {:induction false} WeighPositive(threads: seq<Phase>, w: Phase -> nat) returns (t: nat)
    requires Weigh(threads, w) > 0
    ensures t < |threads| && w(threads[t]) > 0
  {
    if w(threads[0]) > 0 {
      t := 0;
    } else {
      var u := WeighPositive(threads[1..], w);
      t := u + 1;
    }
  }

  lemma {:induction false} WeighBound(threads: seq<Phase>, w: Phase -> nat, bound: nat)
    requires forall p :: w(p) <= bound
    ensures Weigh(threads, w) <= bound * |threads|
  {
    if threads != [] {
      WeighBound(threads[1..], w, bound);
      assert bound * |threads| == bound * |threads[1..]| + bound;
    }
  }

  // ------------------------------------------------------------- the invariant

  const READING: Phase -> nat := (p: Phase) => if p == AdmittedReader || p == ActiveReader then 1 else 0
  const WRITING: Phase -> nat := (p: Phase) => if p == ActiveWriter then 1 else 0
  const WAITING_TO_READ: Phase -> nat := (p: Phase) => if p == WaitingReader || p == WokenReader then 1 else 0
  const WAITING_TO_WRITE: Phase -> nat := (p: Phase) => if p == WaitingWriter || p == WokenWriter then 1 else 0

  /** The four counters count the threads in the matching phases; a woken thread still counts as
      waiting. */
  ghost predicate CountersMatch(s: State) {
    && s.activeReaders == Weigh(s.threads, READING)
    && s.activeWriters == Weigh(s.threads, WRITING)
    && s.waitingReaders == Weigh(s.threads, WAITING_TO_READ)
    && s.waitingWriters == Weigh(s.threads, WAITING_TO_WRITE)
  }

  ghost predicate SomeThread(s: State, p: Phase) {
    exists t :: 0 <= t < |s.threads| && s.threads[t] == p
  }

  /** Nobody waits unsignalled without somebody who will signal: an unsignalled waiting reader has a
      writer to wait for, and an unsignalled waiting writer an active or a woken thread. */
  ghost predicate NobodyForgotten(s: State) {
    && (SomeThread(s, WaitingReader) ==> s.activeWriters + s.waitingWriters > 0)
    && (SomeThread(s, WaitingWriter) ==>
          s.activeReaders + s.activeWriters > 0 || SomeThread(s, WokenReader) || SomeThread(s, WokenWriter))
  }

  ghost predicate Inv(s: State) {
    CountersMatch(s) && NobodyForgotten(s)
  }

  /** The threads after an action: one thread moved on, and perhaps a broadcast. */
  function MovedTo(s: State, a: Action): Phase
    requires Enabled(s, a)
  {
    match a
    case StartReading(_) => if s.activeWriters != 0 || s.waitingWriters != 0 then WaitingReader else AdmittedReader
    case ResumeReading(_) => AdmittedReader
    case Broadcast(_) => ActiveReader
    case StopReading(_) => Idle
    case StartWriting(_) =>
      if s.activeWriters != 0 || s.activeReaders != 0 || s.waitingReaders != 0 || s.waitingWriters != 0
      then WaitingWriter else ActiveWriter
    case ResumeWriting(_) => ActiveWriter
    case StopWriting(_) => Idle
    case SpuriousWake(t) => Woken(s.threads[t])
  }

  /** The phase whose waiters an action wakes, if it broadcasts. Waking idle threads changes nothing. */
  function Signalled(s: State, a: Action): Phase
    requires Enabled(s, a)
  {
    match a
    case Broadcast(_) => WaitingReader
    case StopReading(_) => if s.activeReaders == 1 then WaitingWriter else Idle
    case StopWriting(_) =>
      if s.activeWriters != 1 then Idle
      else if s.waitingReaders != 0 then WaitingReader
      else if s.waitingWriters != 0 then WaitingWriter
      else Idle
    case _ => Idle
  }

  lemma NextThreads(s: State, a: Action)
    requires Enabled(s, a)
    ensures Next(s, a).threads == WakeAll(s.threads[a.t := MovedTo(s, a)], Signalled(s, a))
  {
    assert WakeAll(s.threads[a.t := MovedTo(s, a)], Idle) == s.threads[a.t := MovedTo(s, a)];
  }

  /** A weight that waking does not change changes only by the acting thread's. */
  lemma WeighNext(s: State, a: Action, w: Phase -> nat)
    requires Enabled(s, a)
    requires w(WokenReader) == w(WaitingReader) && w(WokenWriter) == w(WaitingWriter)
    ensures Weigh(Next(s, a).threads, w) == Weigh(s.threads, w) - w(s.threads[a.t]) + w(MovedTo(s, a))
  {
    NextThreads(s, a);
    WeighUpdate(s.threads, a.t, MovedTo(s, a), w);
    WeighWakeAll(s.threads[a.t := MovedTo(s, a)], Signalled(s, a), w);
  }

  lemma CountersStep(s: State, a: Action)
    requires CountersMatch(s) && Enabled(s, a)
    ensures CountersMatch(Next(s, a))
  {
    WeighNext(s, a, READING);
    WeighNext(s, a, WRITING);
    WeighNext(s, a, WAITING_TO_READ);
    WeighNext(s, a, WAITING_TO_WRITE);
  }

  /** No decrement underflows: the counter an action decrements counts the acting thread. */
  lemma NoUnderflow(s: State, a: Action)
    requires CountersMatch(s) && Enabled(s, a)
    ensures a.ResumeReading? ==> s.waitingReaders >= 1
    ensures a.StopReading? || a.Broadcast? ==> s.activeReaders >= 1
    ensures a.ResumeWriting? ==> s.waitingWriters >= 1
    ensures a.StopWriting? ==> s.activeWriters >= 1
  {
    WeighAtLeast(s.threads, a.t, READING);
    WeighAtLeast(s.threads, a.t, WRITING);
    WeighAtLeast(s.threads, a.t, WAITING_TO_READ);
    WeighAtLeast(s.threads, a.t, WAITING_TO_WRITE);
  }

  /** Whoever still waits after an action waited before, or has just started to. */
  lemma StillWaiting(s: State, a: Action, p: Phase)
    requires Enabled(s, a) && (p == WaitingReader || p == WaitingWriter)
    ensures SomeThread(Next(s, a), p) ==> Signalled(s, a) != p && (SomeThread(s, p) || MovedTo(s, a) == p)
  {
    NextThreads(s, a);
    if SomeThread(Next(s, a), p) {
      var t :| 0 <= t < |s.threads| && Next(s, a).threads[t] == p;
      assert t != a.t ==> s.threads[t] == p;
    }
  }

  /** A waiting thread is counted. */
  lemma WaitingIsCounted(s: State)
    requires CountersMatch(s)
    ensures SomeThread(s, WaitingReader) || SomeThread(s, WokenReader) ==> s.waitingReaders > 0
    ensures SomeThread(s, WaitingWriter) || SomeThread(s, WokenWriter) ==> s.waitingWriters > 0
  {
    forall t | 0 <= t < |s.threads|
      ensures WAITING_TO_READ(s.threads[t]) <= s.waitingReaders && WAITING_TO_WRITE(s.threads[t]) <= s.waitingWriters
    {
      WeighAtLeast(s.threads, t, WAITING_TO_READ);
      WeighAtLeast(s.threads, t, WAITING_TO_WRITE);
    }
  }

  lemma ReadersRemembered(s: State, a: Action)
    requires Inv(s) && Enabled(s, a)
    ensures var s' := Next(s, a);
            SomeThread(s', WaitingReader) ==> s'.activeWriters + s'.waitingWriters > 0
  {
    StillWaiting(s, a, WaitingReader);
    WaitingIsCounted(s);
    CountersStep(s, a);
    NoUnderflow(s, a);
  }

  /** A waiting reader, signalled or not, is there whenever the counter says so. */
  lemma WaitingReaderExists(s: State)
    requires CountersMatch(s) && s.waitingReaders > 0
    ensures SomeThread(s, WaitingReader) || SomeThread(s, WokenReader)
  {
    var t := WeighPositive(s.threads, WAITING_TO_READ);
  }

  lemma WaitingWriterExists(s: State)
    requires CountersMatch(s) && s.waitingWriters > 0
    ensures SomeThread(s, WaitingWriter) || SomeThread(s, WokenWriter)
  {
    var t := WeighPositive(s.threads, WAITING_TO_WRITE);
  }

  /** Whenever a writer would have to wait, somebody is active or woken already. */
  lemma SomebodyWillSignal(s: State)
    requires Inv(s)
    requires s.activeWriters != 0 || s.activeReaders != 0 || s.waitingReaders != 0 || s.waitingWriters != 0
    ensures s.activeReaders + s.activeWriters > 0 || SomeThread(s, WokenReader) || SomeThread(s, WokenWriter)
  {
    if s.activeReaders + s.activeWriters == 0 {
      if s.waitingWriters > 0 {
        WaitingWriterExists(s);
      } else {
        WaitingReaderExists(s);
      }
    }
  }

  /** A woken thread that does not act stays woken. */
  lemma StaysWoken(s: State, a: Action, p: Phase)
    requires Enabled(s, a) && (p == WokenReader || p == WokenWriter)
    requires SomeThread(s, p) && s.threads[a.t] != p
    ensures SomeThread(Next(s, a), p)
  {
    NextThreads(s, a);
    var t :| 0 <= t < |s.threads| && s.threads[t] == p;
    assert Next(s, a).threads[t] == p;
  }

  /** The last writer to stop hands over to the readers when there are any: one of them is woken. */
  lemma HandedToReaders(s: State, a: Action)
    requires CountersMatch(s) && Enabled(s, a) && a.StopWriting?
    requires s.activeWriters == 1 && s.waitingReaders != 0
    ensures SomeThread(Next(s, a), WokenReader)
  {
    WeighNext(s, a, WAITING_TO_READ);
    CountersStep(s, a);
    WaitingReaderExists(Next(s, a));
    StillWaiting(s, a, WaitingReader);
  }

  lemma WritersRemembered(s: State, a: Action)
    requires Inv(s) && Enabled(s, a)
    ensures var s' := Next(s, a);
            SomeThread(s', WaitingWriter) ==>
              s'.activeReaders + s'.activeWriters > 0 || SomeThread(s', WokenReader) || SomeThread(s', WokenWriter)
  {
    var s' := Next(s, a);
    StillWaiting(s, a, WaitingWriter);
    WaitingIsCounted(s);
    CountersStep(s, a);
    NoUnderflow(s, a);
    if SomeThread(s', WaitingWriter) && s'.activeReaders + s'.activeWriters == 0 {
      match a
      case StartReading(_) => SignallerStays(s, a);
      case StartWriting(_) => SignallerStays(s, a);
      case StopWriting(_) => HandedToReaders(s, a);
      case SpuriousWake(t) => assert s'.threads[t] == Woken(s.threads[t]);
      case _ =>
    }
  }

  lemma SignallerStays(s: State, a: Action)
    requires Inv(s) && Enabled(s, a) && (a.StartReading? || a.StartWriting?)
    requires SomeThread(Next(s, a), WaitingWriter)
    requires Next(s, a).activeReaders + Next(s, a).activeWriters == 0
    ensures SomeThread(Next(s, a), WokenReader) || SomeThread(Next(s, a), WokenWriter)
  {
    StillWaiting(s, a, WaitingWriter);
    if SomeThread(s, WaitingWriter) {
    } else {
      SomebodyWillSignal(s);
    }
    if SomeThread(s, WokenReader) {
      StaysWoken(s, a, WokenReader);
    }
    if SomeThread(s, WokenWriter) {
      StaysWoken(s, a, WokenWriter);
    }
  }

  /** Every step keeps the counters right and nobody forgotten. */
  lemma InvStep(s: State, a: Action)
    requires Inv(s) && Enabled(s, a)
    ensures Inv(Next(s, a))
  {
    CountersStep(s, a);
    ReadersRemembered(s, a);
    WritersRemembered(s, a);
  }

  lemma {:induction false} InitialWeight(n: nat, w: Phase -> nat)
    requires w(Idle) == 0
    ensures Weigh(seq(n, _ => Idle), w) == 0
  {
    if n > 0 {
      assert seq(n, _ => Idle)[1..] == seq(n - 1, _ => Idle);
      InitialWeight(n - 1, w);
    }
  }

  lemma InvInitial(n: nat)
    ensures Inv(Initial(n))
  {
    InitialWeight(n, READING);
    InitialWeight(n, WRITING);
    InitialWeight(n, WAITING_TO_READ);
    InitialWeight(n, WAITING_TO_WRITE);
  }
}
