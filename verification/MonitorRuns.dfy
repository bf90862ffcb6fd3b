/** What holds over whole runs of the monitor: nobody is forgotten, nothing gets stuck, and arrivals apart
    everything drains. */
module MonitorRuns {
  import opened MonitorProtocol

  predicate IsRun(s: State, actions: seq<Action>)
    decreases |actions|
  {
    actions == [] || (Enabled(s, actions[0]) && IsRun(Next(s, actions[0]), actions[1..]))
  }

  function RunFrom(s: State, actions: seq<Action>): State
    requires IsRun(s, actions)
    decreases |actions|
  {
    if actions == [] then s else RunFrom(Next(s, actions[0]), actions[1..])
  }

  lemma {:induction false} RunKeepsInv(s: State, actions: seq<Action>)
    requires Inv(s) && IsRun(s, actions)
    ensures Inv(RunFrom(s, actions)) && |RunFrom(s, actions).threads| == |s.threads|
    decreases |actions|
  {
    if actions != [] {
      InvStep(s, actions[0]);
      NextThreads(s, actions[0]);
      RunKeepsInv(Next(s, actions[0]), actions[1..]);
    }
  }

  /** In every reachable state, for any number of threads, the counters are the numbers of threads in
      the matching phases, an unsignalled waiting reader has an active or waiting writer, and an
      unsignalled waiting writer has an active or a woken thread. */
  lemma NoLostWakeup(n: nat, actions: seq<Action>)
    requires IsRun(Initial(n), actions)
    ensures CountersMatch(RunFrom(Initial(n), actions))
    ensures NobodyForgotten(RunFrom(Initial(n), actions))
    ensures |RunFrom(Initial(n), actions).threads| == n
  {
    InvInitial(n);
    RunKeepsInv(Initial(n), actions);
  }

  // ------------------------------------------------------------- draining

  predicate Arrival(a: Action) {
    a.StartReading? || a.StartWriting?
  }

  predicate NoArrivals(actions: seq<Action>) {
    forall i | 0 <= i < |actions| :: !Arrival(actions[i])
  }

  predicate AllIdle(s: State) {
    forall t | 0 <= t < |s.threads| :: s.threads[t] == Idle
  }

  /** How many steps a thread may still take part in before it is idle again. */
  const PATIENCE: Phase -> nat := (p: Phase) =>
    match p
    case Idle => 0
    case WaitingReader => 4
    case WaitingWriter => 4
    case WokenReader => 3
    case WokenWriter => 3
    case AdmittedReader => 2
    case ActiveReader => 1
    case ActiveWriter => 1

  lemma DrainStep(s: State, a: Action)
    requires Enabled(s, a) && !Arrival(a)
    ensures Weigh(Next(s, a).threads, PATIENCE) < Weigh(s.threads, PATIENCE)
  {
    NextThreads(s, a);
    WeighUpdate(s.threads, a.t, MovedTo(s, a), PATIENCE);
    WeighWakeAll(s.threads[a.t := MovedTo(s, a)], Signalled(s, a), PATIENCE);
  }

  /** Whatever was asked for can go on: while some thread is not idle, a thread that was signalled or is
      active can take a step, without any new arrival and without any spurious wakeup. */
  lemma NeverStuck(s: State) returns (a: Action)
    requires Inv(s) && !AllIdle(s)
    ensures Enabled(s, a) && !Arrival(a) && !a.SpuriousWake?
  {
    var t :| 0 <= t < |s.threads| && s.threads[t] != Idle;
    if s.threads[t] == WaitingReader || s.threads[t] == WaitingWriter {
      WaitingIsCounted(s);
      SomebodyWillSignal(s);
      a := SignallersStep(s);
    } else {
      a := OwnStep(s, t);
    }
  }

  function StepOf(p: Phase, t: nat): Action {
    match p
    case WokenReader => ResumeReading(t)
    case AdmittedReader => Broadcast(t)
    case ActiveReader => StopReading(t)
    case WokenWriter => ResumeWriting(t)
    case _ => StopWriting(t)
  }

  lemma OwnStep(s: State, t: nat) returns (a: Action)
    requires t < |s.threads| && s.threads[t] !in {Idle, WaitingReader, WaitingWriter}
    ensures Enabled(s, a) && !Arrival(a) && !a.SpuriousWake?
  {
    a := StepOf(s.threads[t], t);
  }

  lemma SignallersStep(s: State) returns (a: Action)
    requires CountersMatch(s)
    requires s.activeReaders + s.activeWriters > 0 || SomeThread(s, WokenReader) || SomeThread(s, WokenWriter)
    ensures Enabled(s, a) && !Arrival(a) && !a.SpuriousWake?
  {
    var t: nat;
    if SomeThread(s, WokenReader) {
      t :| t < |s.threads| && s.threads[t] == WokenReader;
    } else if SomeThread(s, WokenWriter) {
      t :| t < |s.threads| && s.threads[t] == WokenWriter;
    } else if s.activeReaders > 0 {
      t := WeighPositive(s.threads, READING);
    } else {
      t := WeighPositive(s.threads, WRITING);
    }
    a := OwnStep(s, t);
  }

  ghost predicate CanGoOn(s: State) {
    exists a :: Enabled(s, a) && !Arrival(a) && !a.SpuriousWake?
  }

  /** Once arrivals stop, from any state that satisfies the invariant, every interleaving, spurious
      wakeups and delayed broadcasts included, takes at most four steps for each thread, and as long
      as some thread is not idle it can go on. When all are idle every counter is zero. */
  lemma {:induction false} DrainsFrom(s: State, actions: seq<Action>)
    requires Inv(s) && IsRun(s, actions) && NoArrivals(actions)
    ensures |actions| <= Weigh(s.threads, PATIENCE) - Weigh(RunFrom(s, actions).threads, PATIENCE)
    ensures AllIdle(RunFrom(s, actions)) || CanGoOn(RunFrom(s, actions))
    decreases |actions|
  {
    if actions == [] {
      if !AllIdle(s) {
        var a := NeverStuck(s);
      }
    } else {
      InvStep(s, actions[0]);
      DrainStep(s, actions[0]);
      DrainsFrom(Next(s, actions[0]), actions[1..]);
    }
  }

  lemma {:induction false} IdleWeight(threads: seq<Phase>, w: Phase -> nat)
    requires w(Idle) == 0 && forall t | 0 <= t < |threads| :: threads[t] == Idle
    ensures Weigh(threads, w) == 0
  {
    if threads != [] {
      IdleWeight(threads[1..], w);
    }
  }

  lemma IdleCounters(s: State)
    requires CountersMatch(s) && AllIdle(s)
    ensures s.activeReaders == s.activeWriters == s.waitingReaders == s.waitingWriters == 0
  {
    IdleWeight(s.threads, READING);
    IdleWeight(s.threads, WRITING);
    IdleWeight(s.threads, WAITING_TO_READ);
    IdleWeight(s.threads, WAITING_TO_WRITE);
  }

  lemma {:induction false} BoundedDrain(n: nat, past: seq<Action>, actions: seq<Action>)
    requires IsRun(Initial(n), past)
    requires IsRun(RunFrom(Initial(n), past), actions) && NoArrivals(actions)
    ensures |actions| <= 4 * n
    ensures var final := RunFrom(RunFrom(Initial(n), past), actions);
            && (AllIdle(final) || CanGoOn(final))
            && (AllIdle(final) ==>
                  final.activeReaders == final.activeWriters == final.waitingReaders == final.waitingWriters == 0)
  {
    var s := RunFrom(Initial(n), past);
    NoLostWakeup(n, past);
    InvInitial(n);
    RunKeepsInv(Initial(n), past);
    RunKeepsInv(s, actions);
    DrainsFrom(s, actions);
    WeighBound(s.threads, PATIENCE, 4);
    if AllIdle(RunFrom(s, actions)) {
      IdleCounters(RunFrom(s, actions));
    }
  }

  // ------------------------------------------------------------- being served

  /** The active phase a thread that is not idle is on its way to, or in. */
  function Goal(p: Phase): Phase {
    match p
    case WaitingWriter => ActiveWriter
    case WokenWriter => ActiveWriter
    case ActiveWriter => ActiveWriter
    case _ => ActiveReader
  }

  lemma {:induction false} RunPrefix(s: State, actions: seq<Action>, i: nat)
    requires IsRun(s, actions) && i <= |actions|
    ensures IsRun(s, actions[..i])
    decreases |actions|
  {
    if i > 0 {
      assert actions[..i][1..] == actions[1..][..i - 1];
      RunPrefix(Next(s, actions[0]), actions[1..], i - 1);
    }
  }

  lemma GoalKept(s: State, a: Action, t: nat)
    requires Enabled(s, a) && !Arrival(a) && t < |s.threads|
    requires s.threads[t] != Idle && s.threads[t] != Goal(s.threads[t])
    ensures Next(s, a).threads[t] != Idle
    ensures Goal(Next(s, a).threads[t]) == Goal(s.threads[t])
  {
    NextThreads(s, a);
  }

  /** Nobody goes home unserved: a thread that waits, is woken or is admitted, and that is idle at the
      end of a run without arrivals, was active at some moment of that run, in the role it waited for. */
  lemma {:induction false} EverybodyServed(s: State, actions: seq<Action>, t: nat) returns (i: nat)
    requires IsRun(s, actions) && NoArrivals(actions) && t < |s.threads|
    requires s.threads[t] != Idle
    requires t < |RunFrom(s, actions).threads| && RunFrom(s, actions).threads[t] == Idle
    ensures i <= |actions| && IsRun(s, actions[..i])
    ensures t < |RunFrom(s, actions[..i]).threads|
    ensures RunFrom(s, actions[..i]).threads[t] == Goal(s.threads[t])
    decreases |actions|
  {
    if s.threads[t] == Goal(s.threads[t]) {
      i := 0;
    } else {
      NextThreads(s, actions[0]);
      GoalKept(s, actions[0], t);
      var j := EverybodyServed(Next(s, actions[0]), actions[1..], t);
      i := j + 1;
      RunPrefix(s, actions, i);
      assert actions[..i][1..] == actions[1..][..j];
    }
  }
}
