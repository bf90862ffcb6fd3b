/** When the monitor keeps writers apart from everybody else: not always, because a thread that leaves a
    wait does not look again. */
module MonitorExclusion {
  import opened MonitorProtocol
  import opened MonitorRuns
  import opened MonitorLaws

  /** Writers exclude everybody else. */
  predicate Exclusive(s: State) {
    s.activeWriters == 0 || (s.activeWriters == 1 && s.activeReaders == 0)
  }

  /** The condition a thread leaving its wait would have to check again, and does not. */
  predicate FindsItFree(s: State, a: Action) {
    match a
    case ResumeReading(_) => s.activeWriters == 0
    case ResumeWriting(_) => s.activeWriters == 0 && s.activeReaders == 0
    case _ => true
  }

  /** A step keeps exclusion exactly when it is not a resumption that finds the resource taken. */
  lemma ExclusionStep(s: State, a: Action)
    requires CountersMatch(s) && Enabled(s, a) && Exclusive(s)
    ensures Exclusive(Next(s, a)) <==> FindsItFree(s, a)
  {
    NoUnderflow(s, a);
    WeighAtLeast(s.threads, a.t, READING);
  }

  /** Nobody is signalled too early, in any run: a step that is no spurious wakeup wakes a writer only when
      it leaves nobody active, and a reader only when it leaves no writer active. What goes wrong later is
      that others may come in before the woken thread looks. */
  lemma WokenWhenFree(n: nat, actions: seq<Action>, a: Action, t: nat)
    requires IsRun(Initial(n), actions) && Enabled(RunFrom(Initial(n), actions), a) && !a.SpuriousWake?
    requires Exclusive(RunFrom(Initial(n), actions)) && t < n
    ensures var s := RunFrom(Initial(n), actions);
            && t < |s.threads| && t < |Next(s, a).threads|
            && (s.threads[t] == WaitingWriter && Next(s, a).threads[t] == WokenWriter ==>
                  Next(s, a).activeReaders == Next(s, a).activeWriters == 0)
            && (s.threads[t] == WaitingReader && Next(s, a).threads[t] == WokenReader ==>
                  Next(s, a).activeWriters == 0)
  {
    NoLostWakeup(n, actions);
    SignalledWhenFree(RunFrom(Initial(n), actions), a, t);
  }

  lemma SignalledWhenFree(s: State, a: Action, t: nat)
    requires CountersMatch(s) && Exclusive(s) && Enabled(s, a) && !a.SpuriousWake? && t < |s.threads|
    ensures t < |Next(s, a).threads|
    ensures s.threads[t] == WaitingWriter && Next(s, a).threads[t] == WokenWriter ==>
              Next(s, a).activeReaders == Next(s, a).activeWriters == 0
    ensures s.threads[t] == WaitingReader && Next(s, a).threads[t] == WokenReader ==> Next(s, a).activeWriters == 0
  {
    NextThreads(s, a);
    NoUnderflow(s, a);
  }

  predicate AlwaysExclusive(s: State, actions: seq<Action>)
    requires IsRun(s, actions)
    decreases |actions|
  {
    Exclusive(s) && (actions == [] || AlwaysExclusive(Next(s, actions[0]), actions[1..]))
  }

  predicate AlwaysFindsItFree(s: State, actions: seq<Action>)
    requires IsRun(s, actions)
    decreases |actions|
  {
    actions == [] || (FindsItFree(s, actions[0]) && AlwaysFindsItFree(Next(s, actions[0]), actions[1..]))
  }

  lemma {:induction false} ExclusionFrom(s: State, actions: seq<Action>)
    requires Inv(s) && IsRun(s, actions) && Exclusive(s)
    ensures AlwaysExclusive(s, actions) <==> AlwaysFindsItFree(s, actions)
    decreases |actions|
  {
    if actions != [] {
      ExclusionStep(s, actions[0]);
      InvStep(s, actions[0]);
      if Exclusive(Next(s, actions[0])) {
        ExclusionFrom(Next(s, actions[0]), actions[1..]);
      }
    }
  }

  /** A run of the monitor keeps readers and writers apart exactly when every thread that leaves a wait
      happens to find free what it waited for. */
  lemma ExclusionExact(n: nat, actions: seq<Action>)
    requires IsRun(Initial(n), actions)
    ensures AlwaysExclusive(Initial(n), actions) <==> AlwaysFindsItFree(Initial(n), actions)
  {
    InvInitial(n);
    ExclusionFrom(Initial(n), actions);
  }

  // ------------------------------------------------------------- how many clients are safe

  /** The phase of a thread, where threads that do not exist are idle. */
  function PhaseOf(s: State, t: nat): Phase {
    if t < |s.threads| then s.threads[t] else Idle
  }

  predicate GoingToWrite(p: Phase) {
    p == ActiveWriter || p == WokenWriter
  }

  /** Active, or on its way to be without looking again. */
  predicate LetIn(p: Phase) {
    p !in {Idle, WaitingReader, WaitingWriter}
  }

  predicate Compatible(p: Phase, q: Phase) {
    !(GoingToWrite(p) && LetIn(q)) && !(GoingToWrite(q) && LetIn(p))
  }

  /** At most two threads, of which a writer that is let in is let in alone. */
  ghost predicate Pair(s: State) {
    |s.threads| <= 2 && CountersMatch(s) && Compatible(PhaseOf(s, 0), PhaseOf(s, 1))
  }

  lemma WeighPair(s: State, w: Phase -> nat)
    requires |s.threads| <= 2 && w(Idle) == 0
    ensures Weigh(s.threads, w) == w(PhaseOf(s, 0)) + w(PhaseOf(s, 1))
  {
    if |s.threads| == 2 {
      var rest := s.threads[1..];
      assert rest[0] == s.threads[1] && rest[1..] == [];
      assert Weigh(rest, w) == w(rest[0]) + Weigh(rest[1..], w);
    } else if |s.threads| == 1 {
      assert s.threads[1..] == [];
    }
  }

  lemma PairIsExclusive(s: State)
    requires Pair(s)
    ensures Exclusive(s)
  {
    WeighPair(s, READING);
    WeighPair(s, WRITING);
  }

  /** A writer that starts while the other thread is let in waits, and so does a reader while the other
      thread is a writer. */
  lemma StarterWaits(s: State, a: Action)
    requires Pair(s) && Enabled(s, a) && a.t <= 1
    ensures var other := PhaseOf(s, 1 - a.t);
            && (a.StartReading? && GoingToWrite(other) ==> MovedTo(s, a) == WaitingReader)
            && (a.StartWriting? && LetIn(other) ==> MovedTo(s, a) == WaitingWriter)
  {
    WeighPair(s, READING);
    WeighPair(s, WRITING);
    WeighPair(s, WAITING_TO_READ);
    WeighPair(s, WAITING_TO_WRITE);
  }

  /** A step of one of two threads lets a writer in alone, unless it is a spurious wakeup; with one thread
      even then. */
  lemma PairStep(s: State, a: Action)
    requires Pair(s) && Enabled(s, a) && (a.SpuriousWake? ==> |s.threads| <= 1)
    ensures Pair(Next(s, a))
  {
    CountersStep(s, a);
    NextThreads(s, a);
    StarterWaits(s, a);
  }

  predicate NoSpuriousWakes(actions: seq<Action>) {
    forall i | 0 <= i < |actions| :: !actions[i].SpuriousWake?
  }

  lemma {:induction false} PairStaysExclusive(s: State, actions: seq<Action>)
    requires Pair(s) && IsRun(s, actions) && (NoSpuriousWakes(actions) || |s.threads| <= 1)
    ensures AlwaysExclusive(s, actions)
    decreases |actions|
  {
    PairIsExclusive(s);
    if actions != [] {
      assert !actions[0].SpuriousWake? || |s.threads| <= 1;
      PairStep(s, actions[0]);
      NextThreads(s, actions[0]);
      PairStaysExclusive(Next(s, actions[0]), actions[1..]);
    }
  }

  /** A run of `n` clients on a fresh monitor. */
  predicate ClientRun(n: nat, actions: seq<Action>) {
    IsRun(Initial(n), actions)
  }

  lemma InitialPair(n: nat)
    requires n <= 2
    ensures Pair(Initial(n))
  {
    InvInitial(n);
  }

  lemma {:induction false} ExclusiveAtEnd(s: State, actions: seq<Action>)
    requires IsRun(s, actions) && AlwaysExclusive(s, actions)
    ensures Exclusive(RunFrom(s, actions))
    decreases |actions|
  {
    if actions != [] {
      ExclusiveAtEnd(Next(s, actions[0]), actions[1..]);
    }
  }

  lemma RunStep(s: State, actions: seq<Action>)
    requires actions != [] && Enabled(s, actions[0]) && IsRun(Next(s, actions[0]), actions[1..])
    ensures IsRun(s, actions) && RunFrom(s, actions) == RunFrom(Next(s, actions[0]), actions[1..])
  {
  }

  /** Two writers that wait for a third are both let in when it stops. */
  lemma TwoWritersAtOnce(n: nat) returns (actions: seq<Action>)
    requires n >= 3
    ensures IsRun(Initial(n), actions) && NoSpuriousWakes(actions)
    ensures RunFrom(Initial(n), actions).activeWriters == 2
  {
    actions := [StartWriting(0), StartWriting(1), StartWriting(2), StopWriting(0), ResumeWriting(1),
                ResumeWriting(2)];
    var s0 := Initial(n);
    var s1 := Next(s0, actions[0]);
    var s2 := Next(s1, actions[1]);
    var s3 := Next(s2, actions[2]);
    var s4 := Next(s3, actions[3]);
    var s5 := Next(s4, actions[4]);
    RunStep(s5, actions[5..]);
    RunStep(s4, actions[4..]);
    RunStep(s3, actions[3..]);
    RunStep(s2, actions[2..]);
    RunStep(s1, actions[1..]);
    RunStep(s0, actions);
  }

  /** A writer that waits for a reader is let in beside it when it wakes up without being signalled. */
  lemma WriterBesideReader(n: nat) returns (actions: seq<Action>)
    requires n >= 2
    ensures IsRun(Initial(n), actions)
    ensures RunFrom(Initial(n), actions).activeWriters == RunFrom(Initial(n), actions).activeReaders == 1
  {
    actions := [StartReading(0), StartWriting(1), SpuriousWake(1), ResumeWriting(1)];
    var s0 := Initial(n);
    var s1 := Next(s0, actions[0]);
    var s2 := Next(s1, actions[1]);
    var s3 := Next(s2, actions[2]);
    RunStep(s3, actions[3..]);
    RunStep(s2, actions[2..]);
    RunStep(s1, actions[1..]);
    RunStep(s0, actions);
  }

  /** Without spurious wakeups the monitor keeps readers and writers apart in every run exactly when it has
      no more than two clients. */
  lemma ExclusionWithoutSpuriousWakes(n: nat)
    ensures (forall actions | ClientRun(n, actions) && NoSpuriousWakes(actions) ::
               AlwaysExclusive(Initial(n), actions))
            <==> n <= 2
  {
    if n <= 2 {
      InitialPair(n);
      forall actions | ClientRun(n, actions) && NoSpuriousWakes(actions)
        ensures AlwaysExclusive(Initial(n), actions)
      {
        PairStaysExclusive(Initial(n), actions);
      }
    } else {
      var actions := TwoWritersAtOnce(n);
      if AlwaysExclusive(Initial(n), actions) {
        ExclusiveAtEnd(Initial(n), actions);
      }
      assert ClientRun(n, actions) && !AlwaysExclusive(Initial(n), actions);
    }
  }

  /** With spurious wakeups, which pthread_cond_wait allows, it does so exactly when it has no more than
      one. */
  lemma ExclusionWithSpuriousWakes(n: nat)
    ensures (forall actions | ClientRun(n, actions) :: AlwaysExclusive(Initial(n), actions)) <==> n <= 1
  {
    if n <= 1 {
      InitialPair(n);
      forall actions | ClientRun(n, actions)
        ensures AlwaysExclusive(Initial(n), actions)
      {
        PairStaysExclusive(Initial(n), actions);
      }
    } else {
      var actions := WriterBesideReader(n);
      if AlwaysExclusive(Initial(n), actions) {
        ExclusiveAtEnd(Initial(n), actions);
      }
      assert ClientRun(n, actions) && !AlwaysExclusive(Initial(n), actions);
    }
  }
}
