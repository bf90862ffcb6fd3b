/** What each step of the monitor does to each thread, told by where the threads stand and not by the
    counters: who is let in at once, who has to wait, and who is woken. */
module MonitorLaws {
  import opened MonitorProtocol

  predicate Writes(p: Phase) {
    p == WaitingWriter || p == WokenWriter || p == ActiveWriter
  }

  predicate ReadsNow(p: Phase) {
    p == AdmittedReader || p == ActiveReader
  }

  predicate WantsToRead(p: Phase) {
    p == WaitingReader || p == WokenReader
  }

  /** All threads but `t` are without the property. */
  ghost predicate NobodyElse(s: State, t: nat, has: Phase -> bool) {
    forall u | 0 <= u < |s.threads| && u != t :: !has(s.threads[u])
  }

  lemma {:induction false} WeighZero(threads: seq<Phase>, w: Phase -> nat)
    ensures Weigh(threads, w) == 0 <==> forall t | 0 <= t < |threads| :: w(threads[t]) == 0
  {
    if threads != [] {
      WeighZero(threads[1..], w);
      assert forall t | 0 < t < |threads| :: threads[t] == threads[1..][t - 1];
      if forall t | 0 <= t < |threads| :: w(threads[t]) == 0 {
        assert forall t | 0 <= t < |threads[1..]| :: threads[1..][t] == threads[t + 1];
      }
    }
  }

  /** A counter that counts one thread counts no other exactly when it is 1. */
  lemma CountsOnly(s: State, t: nat, w: Phase -> nat)
    requires t < |s.threads| && w(s.threads[t]) == 1 && w(Idle) == 0
    ensures Weigh(s.threads, w) == 1 <==> forall u | 0 <= u < |s.threads| && u != t :: w(s.threads[u]) == 0
  {
    var others := s.threads[t := Idle];
    WeighUpdate(s.threads, t, Idle, w);
    WeighZero(others, w);
    assert forall u | 0 <= u < |others| && u != t :: others[u] == s.threads[u];
    assert others[t] == Idle;
  }

  /** Who can act: each action is a step of a thread that stands in one place, and anybody who stands there
      can take it. */
  lemma WhoActs(s: State, a: Action)
    ensures Enabled(s, a)
            <==> a.t < |s.threads|
                 && match a
                    case StartReading(t) => s.threads[t] == Idle
                    case ResumeReading(t) => s.threads[t] == WokenReader
                    case Broadcast(t) => s.threads[t] == AdmittedReader
                    case StopReading(t) => s.threads[t] == ActiveReader
                    case StartWriting(t) => s.threads[t] == Idle
                    case ResumeWriting(t) => s.threads[t] == WokenWriter
                    case StopWriting(t) => s.threads[t] == ActiveWriter
                    case SpuriousWake(t) => s.threads[t] in {WaitingReader, WaitingWriter}
  {
  }

  /** The acting thread: a reader that starts is let in exactly when no thread is or waits to be a writer,
      and a writer exactly when all threads are idle; nobody looks again after a wait. */
  lemma ActingThread(s: State, a: Action)
    requires CountersMatch(s) && Enabled(s, a)
    ensures var now := Next(s, a).threads;
            && |now| == |s.threads|
            && match a
               case StartReading(t) =>
                 now[t] == if exists u :: 0 <= u < |s.threads| && Writes(s.threads[u]) then WaitingReader
                           else AdmittedReader
               case StartWriting(t) =>
                 now[t] == if forall u | 0 <= u < |s.threads| :: s.threads[u] == Idle then ActiveWriter
                           else WaitingWriter
               case ResumeReading(t) => now[t] == AdmittedReader
               case Broadcast(t) => now[t] == ActiveReader
               case StopReading(t) => now[t] == Idle
               case ResumeWriting(t) => now[t] == ActiveWriter
               case StopWriting(t) => now[t] == Idle
               case SpuriousWake(t) => now[t] == if s.threads[t] == WaitingReader then WokenReader else WokenWriter
  {
    NextThreads(s, a);
    WeighZero(s.threads, READING);
    WeighZero(s.threads, WRITING);
    WeighZero(s.threads, WAITING_TO_READ);
    WeighZero(s.threads, WAITING_TO_WRITE);
  }

  /** Every other thread: a waiting writer is woken exactly by the last reader to stop, or by the last
      writer to stop when no thread waits to read; a waiting reader exactly by an admitted reader's
      broadcast or by the last writer to stop; anybody else stays where it stands. */
  lemma OtherThreads(s: State, a: Action, t: nat)
    requires CountersMatch(s) && Enabled(s, a) && t < |s.threads| && t != a.t
    ensures t < |Next(s, a).threads|
    ensures var now := Next(s, a).threads[t];
            match s.threads[t]
            case WaitingWriter =>
              now == if (a.StopReading? && NobodyElse(s, a.t, ReadsNow))
                        || (a.StopWriting? && NobodyElse(s, a.t, p => p == ActiveWriter)
                            && NobodyElse(s, a.t, WantsToRead))
                     then WokenWriter else WaitingWriter
            case WaitingReader =>
              now == if a.Broadcast? || (a.StopWriting? && NobodyElse(s, a.t, p => p == ActiveWriter))
                     then WokenReader else WaitingReader
            case p => now == p
  {
    NextThreads(s, a);
    match a
    case StopReading(_) => CountsOnly(s, a.t, READING);
    case StopWriting(_) =>
      CountsOnly(s, a.t, WRITING);
      WeighZero(s.threads, WAITING_TO_READ);
      if s.threads[t] == WaitingWriter {
        WeighAtLeast(s.threads, t, WAITING_TO_WRITE);
      }
      if s.threads[t] == WaitingReader {
        WeighAtLeast(s.threads, t, WAITING_TO_READ);
      }
    case _ =>
  }
}
