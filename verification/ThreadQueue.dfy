/** The queue of thread ids (server/src/queue.c) and the part of the main loop that fills and drains it
    (server/src/aesdsocket.c). */
module ThreadQueues {
  import opened CTypes
  import opened DoublyLinkedLists

  function Reverse(s: seq<Tid>): (r: seq<Tid>)
    ensures |r| == |s|
  {
    if s == [] then [] else Reverse(s[1..]) + [s[0]]
  }

  lemma {:induction false} ReverseLast(s: seq<Tid>)
    requires s != []
    ensures Reverse(s) == [s[|s| - 1]] + Reverse(s[..|s| - 1])
  {
    if |s| == 1 {
      assert s[1..] == [] && s[..0] == [];
    } else {
      ReverseLast(s[1..]);
      assert s[1..][..|s| - 2] == s[..|s| - 1][1..];
    }
  }

  lemma ReverseCons(x: Tid, s: seq<Tid>)
    ensures Reverse([x] + s) == Reverse(s) + [x]
  {
    assert ([x] + s)[1..] == s;
  }

  class ThreadQueue {
    const list: DoublyLinkedList

    ghost predicate Valid()
      reads list, list.spine
    {
      list.Valid()
    }

    /** The ids in the order in which they will come out. */
    ghost function Waiting(): seq<Tid>
      reads list
    {
      Reverse(list.Contents())
    }

    constructor ()
      ensures Valid() && Waiting() == []
      ensures fresh(list) && list.spine == []
    {
      list := new DoublyLinkedList();
    }

    /** queue_is_empty. */
    method IsEmpty() returns (empty: bool)
      requires Valid()
      ensures empty <==> Waiting() == []
    {
      empty := list.IsEmpty();
    }

    /** queue_enqueue inserts at the head of the list. */
    method Enqueue(tid: Tid, allocates: bool) returns (ok: bool)
      requires Valid()
      modifies list, list.spine
      ensures Valid() && ok == allocates
      ensures Waiting() == if ok then old(Waiting()) + [tid] else old(Waiting())
      ensures if ok then list.head != null && fresh(list.head) && list.spine == [list.head] + old(list.spine)
              else list.spine == old(list.spine)
    {
      ReverseCons(tid, list.Contents());
      ok := list.InsertHead(tid, allocates);
    }

    /** queue_dequeue removes at the tail of the list. */
    method Dequeue() returns (r: Outcome<Tid>)
      requires Valid()
      modifies list, list.spine
      ensures Valid()
      ensures old(Waiting()) == [] ==> r == Aborted && Waiting() == []
      ensures old(Waiting()) != [] ==> r == Returned(old(Waiting())[0]) && Waiting() == old(Waiting())[1..]
      ensures list.spine == if old(list.spine) == [] then [] else old(list.spine)[..|old(list.spine)| - 1]
      ensures old(list.spine) != [] ==> old(list.spine)[|old(list.spine)| - 1].freed
    {
      if list.Contents() != [] {
        ReverseLast(list.Contents());
      }
      r := list.RemoveTail();
    }
  }

  /** One accepted connection: the thread started for it, and whether its id finds memory for a node. */
  datatype Accepted = Accepted(tid: Tid, allocates: bool)

  /** The ids that get into the queue: the loop ends at the first one that does not. */
  function Enqueued(accepted: seq<Accepted>): seq<Tid> {
    if accepted == [] || !accepted[0].allocates then [] else [accepted[0].tid] + Enqueued(accepted[1..])
  }

  lemma EnqueuedFrom(waiting: seq<Tid>, accepted: seq<Accepted>, i: nat)
    requires i < |accepted|
    ensures waiting + Enqueued(accepted[i..])
            == if accepted[i].allocates then (waiting + [accepted[i].tid]) + Enqueued(accepted[i + 1..]) else waiting
  {
    assert accepted[i..][1..] == accepted[i + 1..];
  }

  /** Those are the ids of the connections before the first whose id does not get in. */
  lemma {:induction false} EnqueuedExact(accepted: seq<Accepted>) returns (k: nat)
    ensures k <= |accepted| && (k < |accepted| ==> !accepted[k].allocates)
    ensures |Enqueued(accepted)| == k
    ensures forall i | 0 <= i < k :: accepted[i].allocates && Enqueued(accepted)[i] == accepted[i].tid
  {
    if accepted == [] || !accepted[0].allocates {
      k := 0;
    } else {
      var rest := EnqueuedExact(accepted[1..]);
      k := rest + 1;
    }
  }

  /** aesdsocket_mainloop, while it accepts: queue the id of every thread that is started, up to the
      first that cannot be queued. */
  method AcceptAll(accepted: seq<Accepted>) returns (queue: ThreadQueue)
    ensures queue.Valid() && fresh(queue.list) && fresh(queue.list.spine)
    ensures queue.Waiting() == Enqueued(accepted)
  {
    queue := new ThreadQueue();
    var i, ok := 0, true;
    while i < |accepted| && ok
      invariant 0 <= i <= |accepted| && queue.Valid() && fresh(queue.list) && fresh(queue.list.spine)
      invariant Enqueued(accepted) == queue.Waiting() + (if ok then Enqueued(accepted[i..]) else [])
      decreases |accepted| - i, ok
    {
      EnqueuedFrom(queue.Waiting(), accepted, i);
      ok := queue.Enqueue(accepted[i].tid, accepted[i].allocates);
      if ok {
        i := i + 1;
      }
    }
  }

  lemma HeadToBack(done: seq<Tid>, waiting: seq<Tid>)
    ensures waiting != [] ==> (done + [waiting[0]]) + waiting[1..] == done + waiting
  {
  }

  /** The threads joined so far and those that still wait are all there were, and the nodes of those that
      were joined were given back. */
  ghost predicate JoinedSoFar(queue: ThreadQueue, nodes: seq<Node>, all: seq<Tid>, joined: seq<Tid>)
    reads queue.list, nodes
  {
    && Distinct(nodes)
    && |queue.list.spine| <= |nodes| && queue.list.spine == nodes[..|queue.list.spine|]
    && (forall i | |queue.list.spine| <= i < |nodes| :: nodes[i].freed)
    && joined + queue.Waiting() == all
  }

  /** One round of the join loop. */
  method JoinNext(queue: ThreadQueue, ghost nodes: seq<Node>, ghost all: seq<Tid>, ghost joined: seq<Tid>)
    returns (tid: Tid)
    requires queue.Valid() && queue.Waiting() != [] && JoinedSoFar(queue, nodes, all, joined)
    modifies queue.list, queue.list.spine
    ensures queue.Valid() && JoinedSoFar(queue, nodes, all, joined + [tid])
    ensures |queue.list.spine| < |old(queue.list.spine)|
  {
    HeadToBack(joined, queue.Waiting());
    var r := queue.Dequeue();
    tid := r.value;
  }

  /** aesdsocket_mainloop, at shutdown: join the queued threads. */
  method JoinAll(queue: ThreadQueue) returns (joined: seq<Tid>)
    requires queue.Valid()
    modifies queue.list, queue.list.spine
    ensures queue.Valid() && queue.Waiting() == []
    ensures joined == old(queue.Waiting())
    ensures forall node | node in old(queue.list.spine) :: node.freed
  {
    ghost var nodes, all := queue.list.spine, queue.Waiting();
    joined := [];
    var empty := queue.IsEmpty();
    while !empty
      invariant queue.Valid() && (empty <==> queue.Waiting() == [])
      invariant JoinedSoFar(queue, nodes, all, joined)
      decreases |queue.list.spine|
    {
      var tid := JoinNext(queue, nodes, all, joined);
      joined := joined + [tid];
      empty := queue.IsEmpty();
    }
    assert |queue.list.spine| == |queue.Waiting()| == 0;
    assert joined + [] == joined;
  }

  /** Every thread that was queued is joined, each once and in the order in which they were started. */
  method AcceptThenJoin(accepted: seq<Accepted>) returns (joined: seq<Tid>)
    ensures joined == Enqueued(accepted)
  {
    var queue := AcceptAll(accepted);
    joined := JoinAll(queue);
  }

  // ------------------------------------------------------------- over whole runs

  datatype QueueOp = Enqueue(tid: Tid, allocates: bool) | Dequeue

  /** What a run of operations leaves in the queue. An id that finds no memory does not get in, and nothing
      comes out of an empty queue. */
  function After(waiting: seq<Tid>, ops: seq<QueueOp>): seq<Tid>
    decreases |ops|
  {
    if ops == [] then waiting
    else
      match ops[0]
      case Enqueue(tid, allocates) => After(if allocates then waiting + [tid] else waiting, ops[1..])
      case Dequeue => After(if waiting == [] then [] else waiting[1..], ops[1..])
  }

  function Out(waiting: seq<Tid>, ops: seq<QueueOp>): seq<Tid>
    decreases |ops|
  {
    if ops == [] then []
    else
      match ops[0]
      case Enqueue(tid, allocates) => Out(if allocates then waiting + [tid] else waiting, ops[1..])
      case Dequeue =>
        if waiting == [] then Out([], ops[1..]) else [waiting[0]] + Out(waiting[1..], ops[1..])
  }

  function In(ops: seq<QueueOp>): seq<Tid> {
    if ops == [] then []
    else if ops[0].Enqueue? && ops[0].allocates then [ops[0].tid] + In(ops[1..])
    else In(ops[1..])
  }

  /** First in, first out, over any run: what came out, followed by what is left, is what was there at
      first, followed by what came in. */
  lemma {:induction false} FirstInFirstOut(waiting: seq<Tid>, ops: seq<QueueOp>)
    ensures Out(waiting, ops) + After(waiting, ops) == waiting + In(ops)
    decreases |ops|
  {
    if ops != [] {
      match ops[0]
      case Enqueue(tid, allocates) =>
        FirstInFirstOut(if allocates then waiting + [tid] else waiting, ops[1..]);
        AppendAssociates(waiting, [tid], In(ops[1..]));
      case Dequeue =>
        if waiting == [] {
          FirstInFirstOut([], ops[1..]);
        } else {
          FirstInFirstOut(waiting[1..], ops[1..]);
          AppendAssociates([waiting[0]], waiting[1..], In(ops));
          AppendAssociates([waiting[0]], Out(waiting[1..], ops[1..]), After(waiting, ops));
          assert waiting == [waiting[0]] + waiting[1..];
        }
    }
  }

  /** One operation of a run. */
  method RunOp(queue: ThreadQueue, op: QueueOp) returns (out: seq<Tid>)
    requires queue.Valid()
    modifies queue.list, queue.list.spine
    ensures queue.Valid()
    ensures forall k | 0 <= k < |queue.list.spine| ::
              queue.list.spine[k] in old(queue.list.spine) || fresh(queue.list.spine[k])
    ensures var waiting := old(queue.Waiting());
            match op
            case Enqueue(tid, allocates) =>
              out == [] && queue.Waiting() == if allocates then waiting + [tid] else waiting
            case Dequeue =>
              if waiting == [] then out == [] && queue.Waiting() == []
              else out == [waiting[0]] && queue.Waiting() == waiting[1..]
  {
    match op
    case Enqueue(tid, allocates) =>
      var ok := queue.Enqueue(tid, allocates);
      out := [];
    case Dequeue =>
      var tid := queue.Dequeue();
      out := if tid.Returned? then [tid.value] else [];
  }

  /** Any run of operations on a queue is first in, first out. */
  method RunOps(queue: ThreadQueue, ops: seq<QueueOp>) returns (out: seq<Tid>)
    requires queue.Valid()
    modifies queue.list, queue.list.spine
    ensures queue.Valid()
    ensures out == Out(old(queue.Waiting()), ops) && queue.Waiting() == After(old(queue.Waiting()), ops)
    ensures out + queue.Waiting() == old(queue.Waiting()) + In(ops)
    decreases |ops|
  {
    FirstInFirstOut(queue.Waiting(), ops);
    out := [];
    if ops != [] {
      var first := RunOp(queue, ops[0]);
      var rest := RunOps(queue, ops[1..]);
      out := first + rest;
    }
  }
}
