/** The heap-allocated list of thread ids (server/src/doubly_linked_list.c, server/src/node.c). The C
    assertions and the dereferences of NULL are part of the behaviour: an operation that runs into one
    reports it instead of a result. */
module DoublyLinkedLists {

  type Tid = nat

  /** How a call ends: normally, at a failing assert, or at a NULL dereference. */
  datatype Outcome<+T> = Returned(value: T) | Aborted | Crashed

  class Node {
    var tid: Tid
    var next: Node?
    var prev: Node?
    var freed: bool  // whether the node was given back to the allocator

    constructor (tid: Tid)
      ensures this.tid == tid && next == null && prev == null && !freed
    {
      this.tid, next, prev, freed := tid, null, null, false;
    }
  }

  // ------------------------------------------------------------- places of a sequence

  /** The sequence with `x` put in before place `pos`. */
  ghost function Inserted<T>(s: seq<T>, pos: nat, x: T): (r: seq<T>)
    requires pos <= |s|
    ensures |r| == |s| + 1
    ensures forall i {:trigger r[i]} | 0 <= i < |r| ::
              r[i] == if i < pos then s[i] else if i == pos then x else s[i - 1]
  {
    s[..pos] + [x] + s[pos..]
  }

  /** The sequence without its element at place `pos`. */
  ghost function Without<T>(s: seq<T>, pos: nat): (r: seq<T>)
    requires pos < |s|
    ensures |r| == |s| - 1
    ensures forall i {:trigger r[i]} | 0 <= i < |r| :: r[i] == if i < pos then s[i] else s[i + 1]
  {
    s[..pos] + s[pos + 1..]
  }

  // ------------------------------------------------------------- nodes and what they hold

  /** The node at a place along a list, or NULL off either end. */
  ghost function NodeAt(spine: seq<Node>, i: int): Node? {
    if 0 <= i < |spine| then spine[i] else null
  }

  ghost predicate Distinct(spine: seq<Node>) {
    forall i, j | 0 <= i < j < |spine| :: spine[i] != spine[j]
  }

  /** The fields of one node. */
  datatype Cell = Cell(tid: Tid, next: Node?, prev: Node?)

  ghost function CellOf(node: Node): Cell
    reads node
  {
    Cell(node.tid, node.next, node.prev)
  }

  /** The cells are what the nodes hold, and no node was given back. */
  ghost predicate Mirrors(spine: seq<Node>, cells: seq<Cell>)
    reads spine
  {
    && |cells| == |spine|
    && forall i {:trigger cells[i]} | 0 <= i < |spine| :: cells[i] == CellOf(spine[i]) && !spine[i].freed
  }

  /** Along the nodes `next` and `prev` are each other's inverses, and both ends are NULL. */
  ghost predicate Chained(spine: seq<Node>, cells: seq<Cell>) {
    && |cells| == |spine|
    && forall i {:trigger cells[i]} | 0 <= i < |spine| ::
         cells[i].next == NodeAt(spine, i + 1) && cells[i].prev == NodeAt(spine, i - 1)
  }

  ghost function Tids(cells: seq<Cell>): (r: seq<Tid>)
    ensures |r| == |cells|
  {
    seq(|cells|, i requires 0 <= i < |cells| => cells[i].tid)
  }

  // ------------------------------------------------------------- changes to a chain

  lemma ChainedTid(spine: seq<Node>, cells: seq<Cell>, i: nat, tid: Tid)
    requires i < |cells| && Chained(spine, cells)
    ensures Chained(spine, cells[i := cells[i].(tid := tid)])
    ensures Tids(cells[i := cells[i].(tid := tid)]) == Tids(cells)[i := tid]
  {
    var cells' := cells[i := cells[i].(tid := tid)];
    forall k | 0 <= k < |spine|
      ensures cells'[k].next == NodeAt(spine, k + 1) && cells'[k].prev == NodeAt(spine, k - 1)
    {
      assert cells[k].next == NodeAt(spine, k + 1);
    }
  }

  lemma MirrorsPrepend(node: Node, spine: seq<Node>, cells: seq<Cell>)
    requires Mirrors(spine, cells) && !node.freed
    ensures Mirrors([node] + spine, [CellOf(node)] + cells)
  {
    forall i | 0 <= i < |spine| + 1
      ensures ([CellOf(node)] + cells)[i] == CellOf(([node] + spine)[i]) && !([node] + spine)[i].freed
    {
      assert i > 0 ==> cells[i - 1] == CellOf(spine[i - 1]);
    }
  }

  lemma MirrorsAppend(spine: seq<Node>, cells: seq<Cell>, node: Node)
    requires Mirrors(spine, cells) && !node.freed
    ensures Mirrors(spine + [node], cells + [CellOf(node)])
  {
    forall i | 0 <= i < |spine| + 1
      ensures (cells + [CellOf(node)])[i] == CellOf((spine + [node])[i]) && !(spine + [node])[i].freed
    {
      assert i < |spine| ==> cells[i] == CellOf(spine[i]);
    }
  }

  lemma ChainedPrepend(spine: seq<Node>, cells: seq<Cell>, node: Node, tid: Tid)
    requires spine != [] && Chained(spine, cells) && Distinct(spine) && node !in spine
    ensures var cells' := [Cell(tid, spine[0], null)] + cells[0 := cells[0].(prev := node)];
            Chained([node] + spine, cells') && Tids(cells') == [tid] + Tids(cells)
    ensures Distinct([node] + spine)
  {
    var spine' := [node] + spine;
    var cells' := [Cell(tid, spine[0], null)] + cells[0 := cells[0].(prev := node)];
    forall i | 0 <= i < |spine'|
      ensures cells'[i].next == NodeAt(spine', i + 1) && cells'[i].prev == NodeAt(spine', i - 1)
    {
      assert i > 0 ==> cells[i - 1].next == NodeAt(spine, i) && cells[i - 1].prev == NodeAt(spine, i - 2);
    }
  }

  lemma ChainedAppend(spine: seq<Node>, cells: seq<Cell>, node: Node, tid: Tid)
    requires spine != [] && Chained(spine, cells) && Distinct(spine) && node !in spine
    ensures var n := |spine|;
            var cells' := cells[n - 1 := cells[n - 1].(next := node)] + [Cell(tid, null, spine[n - 1])];
            Chained(spine + [node], cells') && Tids(cells') == Tids(cells) + [tid]
    ensures Distinct(spine + [node])
  {
    var n, spine' := |spine|, spine + [node];
    var cells' := cells[n - 1 := cells[n - 1].(next := node)] + [Cell(tid, null, spine[n - 1])];
    forall i | 0 <= i < |spine'|
      ensures cells'[i].next == NodeAt(spine', i + 1) && cells'[i].prev == NodeAt(spine', i - 1)
    {
      assert i < n ==> cells[i].next == NodeAt(spine, i + 1) && cells[i].prev == NodeAt(spine, i - 1);
    }
  }

  /** The neighbours of place `pos` link to a node between them. */
  ghost function LinkedTo(cells: seq<Cell>, pos: nat, node: Node): (r: seq<Cell>)
    requires 0 < pos < |cells|
    ensures |r| == |cells|
    ensures forall i {:trigger r[i]} | 0 <= i < |r| ::
              r[i] == if i == pos - 1 then cells[i].(next := node) else if i == pos then cells[i].(prev := node)
                      else cells[i]
  {
    cells[pos - 1 := cells[pos - 1].(next := node)][pos := cells[pos].(prev := node)]
  }

  lemma ChainedInsert(spine: seq<Node>, cells: seq<Cell>, pos: nat, node: Node, tid: Tid)
    requires 0 < pos < |spine| && Chained(spine, cells)
    ensures Chained(Inserted(spine, pos, node),
                    Inserted(LinkedTo(cells, pos, node), pos, Cell(tid, spine[pos], spine[pos - 1])))
  {
    var spine' := Inserted(spine, pos, node);
    var cells' := Inserted(LinkedTo(cells, pos, node), pos, Cell(tid, spine[pos], spine[pos - 1]));
    forall i | 0 <= i < |spine'|
      ensures cells'[i].next == NodeAt(spine', i + 1) && cells'[i].prev == NodeAt(spine', i - 1)
    {
      if i < pos {
        assert cells[i].next == NodeAt(spine, i + 1) && cells[i].prev == NodeAt(spine, i - 1);
      } else if i > pos {
        assert cells[i - 1].next == NodeAt(spine, i) && cells[i - 1].prev == NodeAt(spine, i - 2);
      }
    }
  }

  lemma TidsInsert(spine: seq<Node>, cells: seq<Cell>, pos: nat, node: Node, tid: Tid)
    requires 0 < pos < |spine| && |cells| == |spine|
    ensures Tids(Inserted(LinkedTo(cells, pos, node), pos, Cell(tid, spine[pos], spine[pos - 1])))
            == Inserted(Tids(cells), pos, tid)
  {
    var cells' := Inserted(LinkedTo(cells, pos, node), pos, Cell(tid, spine[pos], spine[pos - 1]));
    forall i | 0 <= i < |cells'|
      ensures cells'[i].tid == Inserted(Tids(cells), pos, tid)[i]
    {
    }
  }

  lemma DistinctInsert(spine: seq<Node>, pos: nat, node: Node)
    requires pos <= |spine| && Distinct(spine) && node !in spine
    ensures Distinct(Inserted(spine, pos, node))
  {
    var spine' := Inserted(spine, pos, node);
    forall i, j | 0 <= i < j < |spine'|
      ensures spine'[i] != spine'[j]
    {
    }
  }

  lemma MirrorsInsert(spine: seq<Node>, cells: seq<Cell>, pos: nat, node: Node)
    requires pos <= |spine| && Mirrors(spine, cells) && !node.freed
    ensures Mirrors(Inserted(spine, pos, node), Inserted(cells, pos, CellOf(node)))
  {
    var spine', cells' := Inserted(spine, pos, node), Inserted(cells, pos, CellOf(node));
    forall i | 0 <= i < |spine'|
      ensures cells'[i] == CellOf(spine'[i]) && !spine'[i].freed
    {
      if i < pos {
        assert cells[i] == CellOf(spine[i]);
      } else if i > pos {
        assert cells[i - 1] == CellOf(spine[i - 1]);
      }
    }
  }

  lemma ChainedTailPart(spine: seq<Node>, cells: seq<Cell>)
    requires |spine| > 1 && Chained(spine, cells)
    ensures var cells' := cells[1 := cells[1].(prev := null)][1..];
            Chained(spine[1..], cells') && Tids(cells') == Tids(cells)[1..]
  {
    var spine', cells' := spine[1..], cells[1 := cells[1].(prev := null)][1..];
    forall i | 0 <= i < |spine'|
      ensures cells'[i].next == NodeAt(spine', i + 1) && cells'[i].prev == NodeAt(spine', i - 1)
    {
      assert cells[i + 1].next == NodeAt(spine, i + 2) && cells[i + 1].prev == NodeAt(spine, i);
    }
  }

  lemma ChainedHeadPart(spine: seq<Node>, cells: seq<Cell>)
    requires |spine| > 1 && Chained(spine, cells)
    ensures var n := |spine|;
            var cells' := cells[n - 2 := cells[n - 2].(next := null)][..n - 1];
            Chained(spine[..n - 1], cells') && Tids(cells') == Tids(cells)[..n - 1]
  {
    var n := |spine|;
    var spine', cells' := spine[..n - 1], cells[n - 2 := cells[n - 2].(next := null)][..n - 1];
    forall i | 0 <= i < |spine'|
      ensures cells'[i].next == NodeAt(spine', i + 1) && cells'[i].prev == NodeAt(spine', i - 1)
    {
      assert cells[i].next == NodeAt(spine, i + 1) && cells[i].prev == NodeAt(spine, i - 1);
    }
  }

  /** The neighbours of place `pos` link past it. */
  ghost function LinkedPast(cells: seq<Cell>, pos: nat): (r: seq<Cell>)
    requires 0 < pos < |cells| - 1
    ensures |r| == |cells|
    ensures forall i {:trigger r[i]} | 0 <= i < |r| ::
              r[i] == if i == pos - 1 then cells[i].(next := cells[pos].next)
                      else if i == pos + 1 then cells[i].(prev := cells[pos].prev)
                      else cells[i]
  {
    cells[pos - 1 := cells[pos - 1].(next := cells[pos].next)][pos + 1 := cells[pos + 1].(prev := cells[pos].prev)]
  }

  lemma ChainedWithout(spine: seq<Node>, cells: seq<Cell>, pos: nat)
    requires 0 < pos < |spine| - 1 && Chained(spine, cells)
    ensures Chained(Without(spine, pos), Without(LinkedPast(cells, pos), pos))
  {
    var spine', cells' := Without(spine, pos), Without(LinkedPast(cells, pos), pos);
    assert cells[pos].next == spine[pos + 1] && cells[pos].prev == spine[pos - 1];
    forall i | 0 <= i < |spine'|
      ensures cells'[i].next == NodeAt(spine', i + 1) && cells'[i].prev == NodeAt(spine', i - 1)
    {
      if i < pos {
        assert cells[i].next == NodeAt(spine, i + 1) && cells[i].prev == NodeAt(spine, i - 1);
      } else {
        assert cells[i + 1].next == NodeAt(spine, i + 2) && cells[i + 1].prev == NodeAt(spine, i);
      }
    }
  }

  lemma TidsWithout(cells: seq<Cell>, pos: nat)
    requires 0 < pos < |cells| - 1
    ensures Tids(Without(LinkedPast(cells, pos), pos)) == Without(Tids(cells), pos)
  {
    var cells' := Without(LinkedPast(cells, pos), pos);
    forall i | 0 <= i < |cells'|
      ensures cells'[i].tid == Without(Tids(cells), pos)[i]
    {
    }
  }

  lemma DistinctWithout(spine: seq<Node>, pos: nat)
    requires pos < |spine| && Distinct(spine)
    ensures Distinct(Without(spine, pos)) && spine[pos] !in Without(spine, pos)
  {
    var spine' := Without(spine, pos);
    forall i, j | 0 <= i < j < |spine'|
      ensures spine'[i] != spine'[j]
    {
    }
  }

  lemma MirrorsWithout(spine: seq<Node>, cells: seq<Cell>, pos: nat)
    requires pos < |spine| && Mirrors(spine, cells)
    ensures Mirrors(Without(spine, pos), Without(cells, pos))
  {
    var spine', cells' := Without(spine, pos), Without(cells, pos);
    forall i | 0 <= i < |spine'|
      ensures cells'[i] == CellOf(spine'[i]) && !spine'[i].freed
    {
      if i < pos {
        assert cells[i] == CellOf(spine[i]);
      } else {
        assert cells[i + 1] == CellOf(spine[i + 1]);
      }
    }
  }

  class DoublyLinkedList {
    var head: Node?
    var tail: Node?
    var size: nat
    ghost var spine: seq<Node>  // the nodes, from head to tail
    ghost var cells: seq<Cell>  // what they hold

    /** The nodes are linked both ways, both ends are NULL, and `size` is their number. */
    ghost predicate Valid()
      reads this, spine
    {
      && size == |spine|
      && Distinct(spine) && Mirrors(spine, cells) && Chained(spine, cells)
      && head == NodeAt(spine, 0) && tail == NodeAt(spine, |spine| - 1)
    }

    /** The thread ids, from head to tail. */
    ghost function Contents(): (r: seq<Tid>)
      reads this
      ensures |r| == |cells|
    {
      Tids(cells)
    }

    constructor ()
      ensures Valid() && Contents() == [] && spine == []
    {
      head, tail, size, spine, cells := null, null, 0, [], [];
    }

    predicate IsEmpty()
      reads this
    {
      size == 0
    }

    // ------------------------------------------------------------- finding a node

    /** The places from which the list finds its way to the right node. */
    predicate Reachable(pos: nat)
      reads this
    {
      pos < size && (pos == 0 || pos < size / 2)
    }

    method GetNodeFromHead(pos: nat) returns (r: Outcome<Node?>)
      requires Valid()
      ensures r == if pos < size then Returned(NodeAt(spine, pos)) else Aborted
    {
      if !(pos < size) {
        return Aborted;
      }
      var current := head;
      var i := 0;
      while i < pos
        invariant 0 <= i <= pos && current == NodeAt(spine, i)
      {
        assert cells[i] == CellOf(current);
        current := current.next;
        i := i + 1;
      }
      return Returned(current);
    }

    /** The walk starts at the head, so it gives the head for the last place, NULL for the one before,
        and runs off the list for any other. */
    method GetNodeFromTail(pos: nat) returns (r: Outcome<Node?>)
      requires Valid()
      ensures r == if pos >= size then Aborted
                   else if pos == size - 1 then Returned(NodeAt(spine, 0))
                   else if pos == size - 2 then Returned(null)
                   else Crashed
    {
      if !(pos < size) {
        return Aborted;
      }
      var current := head;
      var i := size - 1;
      while i > pos
        invariant pos <= i <= size - 1
        invariant i >= size - 2
        invariant current == if i == size - 1 then NodeAt(spine, 0) else null
      {
        if current == null {
          return Crashed;
        }
        assert cells[0] == CellOf(current);
        current := current.prev;
        i := i - 1;
      }
      return Returned(current);
    }

    /** doubly_linked_list_get_node finds the node at `pos` exactly for place 0 and the places before the
        middle; for the last place of a longer list it gives the head, and elsewhere NULL or nothing. */
    method GetNode(pos: nat) returns (r: Outcome<Node?>)
      requires Valid()
      ensures pos < size ==> (r == Returned(NodeAt(spine, pos)) <==> Reachable(pos))
      ensures pos >= size ==> r == Aborted
      ensures pos < size && !Reachable(pos) ==>
                r == if pos == size - 1 then Returned(NodeAt(spine, 0))
                     else if pos == size - 2 then Returned(null)
                     else Crashed
    {
      if !(pos < size) {
        return Aborted;
      }
      if pos == 0 {
        r := Returned(head);
      } else if pos == size {
        r := Returned(tail);
      } else if pos < size / 2 {
        r := GetNodeFromHead(pos);
      } else {
        r := GetNodeFromTail(pos);
      }
    }

    /** doubly_linked_list_get returns the id at `pos` where the node is found, the head's id for the
        last place, and otherwise aborts or crashes. */
    method Get(pos: nat) returns (r: Outcome<Tid>)
      requires Valid()
      ensures r == if pos >= size then Aborted
                   else if Reachable(pos) then Returned(Contents()[pos])
                   else if pos == size - 1 then Returned(Contents()[0])
                   else Crashed
    {
      if !(pos < size) {
        return Aborted;
      }
      var node := GetNode(pos);
      match node
      case Returned(n) =>
        if n == null {
          r := Crashed;
        } else {
          r := Returned(n.tid);
        }
      case Aborted => r := Aborted;
      case Crashed => r := Crashed;
    }

    /** Node `node` is at place `i` of the list, or outside the list when `i` is negative. */
    ghost predicate IsAt(node: Node, i: int)
      reads this
    {
      if i < 0 then node !in spine else i < |spine| && node == spine[i]
    }

    /** node_set. */
    method NodeSet(node: Node, ghost i: int, tid: Tid)
      requires Distinct(spine) && Mirrors(spine, cells) && IsAt(node, i)
      modifies this`cells, node`tid
      ensures Mirrors(spine, cells) && node.tid == tid
      ensures cells == if i < 0 then old(cells) else old(cells)[i := old(cells)[i].(tid := tid)]
    {
      node.tid := tid;
      cells := if i < 0 then cells else cells[i := cells[i].(tid := tid)];
    }

    /** node_link_next, node_unlink_next. */
    method NodeLinkNext(node: Node, ghost i: int, next: Node?)
      requires Distinct(spine) && Mirrors(spine, cells) && IsAt(node, i)
      modifies this`cells, node`next
      ensures Mirrors(spine, cells) && node.next == next
      ensures cells == if i < 0 then old(cells) else old(cells)[i := old(cells)[i].(next := next)]
    {
      node.next := next;
      cells := if i < 0 then cells else cells[i := cells[i].(next := next)];
    }

    /** node_link_prev, node_unlink_prev. */
    method NodeLinkPrev(node: Node, ghost i: int, prev: Node?)
      requires Distinct(spine) && Mirrors(spine, cells) && IsAt(node, i)
      modifies this`cells, node`prev
      ensures Mirrors(spine, cells) && node.prev == prev
      ensures cells == if i < 0 then old(cells) else old(cells)[i := old(cells)[i].(prev := prev)]
    {
      node.prev := prev;
      cells := if i < 0 then cells else cells[i := cells[i].(prev := prev)];
    }

    /** Replace the id in a node of the list. */
    method SetAt(node: Node, ghost i: nat, tid: Tid)
      requires Valid() && IsAt(node, i)
      modifies this`cells, node`tid
      ensures Valid() && Contents() == old(Contents())[i := tid]
    {
      ChainedTid(spine, cells, i, tid);
      NodeSet(node, i, tid);
    }

    /** doubly_linked_list_set replaces the id at `pos` where the node is found, and the head's for the
        last place. */
    method Set(pos: nat, tid: Tid) returns (r: Outcome<()>)
      requires Valid()
      modifies this`cells, spine
      ensures Valid() && spine == old(spine)
      ensures r == if pos >= size then Aborted
                   else if Reachable(pos) || pos == size - 1 then Returned(()) else Crashed
      ensures Contents() == if r != Returned(()) then old(Contents())
                            else if Reachable(pos) then old(Contents())[pos := tid]
                            else old(Contents())[0 := tid]
    {
      if !(pos < size) {
        return Aborted;
      }
      var node := GetNode(pos);
      match node
      case Returned(n) =>
        if n == null {
          r := Crashed;
        } else {
          ghost var i := if Reachable(pos) then pos else 0;
          SetAt(n, i, tid);
          r := Returned(());
        }
      case Aborted => r := Aborted;
      case Crashed => r := Crashed;
    }

    // ------------------------------------------------------------- linking nodes in

    ghost predicate Detached(node: Node)
      reads this, node
    {
      node !in spine && node.next == null && node.prev == null && !node.freed
    }

    method InsertNodeWhenEmpty(newNode: Node)
      requires Valid() && Detached(newNode) && IsEmpty()
      modifies this
      ensures Valid() && spine == [newNode] && Contents() == [newNode.tid]
    {
      head, tail, size := newNode, newNode, 1;
      spine, cells := [newNode], [CellOf(newNode)];
    }

    /** The linked-up node becomes the head. */
    method AdoptHead(newNode: Node)
      requires spine != [] && size == |spine| && tail == spine[|spine| - 1] && Mirrors(spine, cells)
      requires Distinct([newNode] + spine) && Chained([newNode] + spine, [CellOf(newNode)] + cells)
      requires !newNode.freed
      modifies this
      ensures Valid() && spine == [newNode] + old(spine) && cells == [CellOf(newNode)] + old(cells)
    {
      head := newNode;
      size := size + 1;
      MirrorsPrepend(newNode, spine, cells);
      spine, cells := [newNode] + spine, [CellOf(newNode)] + cells;
    }

    method InsertNodeInHead(newNode: Node)
      requires Valid() && Detached(newNode) && !IsEmpty()
      modifies this, newNode`next, head`prev
      ensures Valid() && spine == [newNode] + old(spine)
      ensures Contents() == [old(newNode.tid)] + old(Contents())
    {
      ChainedPrepend(spine, cells, newNode, newNode.tid);
      NodeLinkNext(newNode, -1, head);
      NodeLinkPrev(head, 0, newNode);
      AdoptHead(newNode);
    }

    /** The linked-up node becomes the tail. */
    method AdoptTail(newNode: Node)
      requires spine != [] && size == |spine| && head == spine[0] && Mirrors(spine, cells)
      requires Distinct(spine + [newNode]) && Chained(spine + [newNode], cells + [CellOf(newNode)])
      requires !newNode.freed
      modifies this
      ensures Valid() && spine == old(spine) + [newNode] && cells == old(cells) + [CellOf(newNode)]
    {
      tail := newNode;
      size := size + 1;
      MirrorsAppend(spine, cells, newNode);
      spine, cells := spine + [newNode], cells + [CellOf(newNode)];
    }

    method InsertNodeInTail(newNode: Node)
      requires Valid() && Detached(newNode) && !IsEmpty()
      modifies this, newNode`prev, tail`next
      ensures Valid() && spine == old(spine) + [newNode]
      ensures Contents() == old(Contents()) + [old(newNode.tid)]
    {
      ChainedAppend(spine, cells, newNode, newNode.tid);
      NodeLinkPrev(newNode, -1, tail);
      NodeLinkNext(tail, |spine| - 1, newNode);
      AdoptTail(newNode);
    }

    /** What the neighbours hold once they link to a node between them. */
    method LinkNeighbours(ghost i: nat, before: Node, after: Node, newNode: Node)
      requires Distinct(spine) && Mirrors(spine, cells)
      requires 0 < i < |spine| && before == spine[i - 1] && after == spine[i]
      modifies this`cells, before`next, after`prev
      ensures Mirrors(spine, cells) && cells == LinkedTo(old(cells), i, newNode)
    {
      NodeLinkNext(before, i - 1, newNode);
      NodeLinkPrev(after, i, newNode);
    }

    /** The linked-up node takes its place inside the list. */
    method AdoptMiddle(ghost pos: nat, newNode: Node)
      requires 0 < pos < |spine| && size == |spine| && Mirrors(spine, cells) && Distinct(spine)
      requires head == spine[0] && tail == spine[|spine| - 1]
      requires newNode !in spine && !newNode.freed
      requires Chained(Inserted(spine, pos, newNode), Inserted(cells, pos, CellOf(newNode)))
      modifies this
      ensures Valid() && spine == Inserted(old(spine), pos, newNode)
      ensures cells == Inserted(old(cells), pos, CellOf(newNode))
    {
      DistinctInsert(spine, pos, newNode);
      MirrorsInsert(spine, cells, pos, newNode);
      size := size + 1;
      spine, cells := Inserted(spine, pos, newNode), Inserted(cells, pos, CellOf(newNode));
    }

    /** Link the neighbours of place `i` to a node that is linked to them already. */
    method LinkBetween(ghost i: nat, before: Node, after: Node, newNode: Node)
      requires Valid() && 0 < i < |spine| && before == spine[i - 1] && after == spine[i]
      requires newNode !in spine && newNode.prev == before && newNode.next == after && !newNode.freed
      modifies this, before`next, after`prev
      ensures Valid() && spine == Inserted(old(spine), i, newNode)
      ensures Contents() == Inserted(old(Contents()), i, newNode.tid)
    {
      ChainedInsert(spine, cells, i, newNode, newNode.tid);
      TidsInsert(spine, cells, i, newNode, newNode.tid);
      LinkNeighbours(i, before, after, newNode);
      AdoptMiddle(i, newNode);
    }

    /** Link a node in before the node at place `i`. The head has no node before it to link from. */
    method LinkBefore(ghost i: nat, nodeInPos: Node, newNode: Node) returns (r: Outcome<()>)
      requires Valid() && Detached(newNode) && IsAt(nodeInPos, i)
      modifies this, spine, newNode
      ensures r == if i == 0 then Crashed else Returned(())
      ensures i > 0 ==>
                && Valid() && spine == old(spine)[..i] + [newNode] + old(spine)[i..]
                && Contents() == old(Contents())[..i] + [old(newNode.tid)] + old(Contents())[i..]
    {
      assert cells[i] == CellOf(nodeInPos);
      NodeLinkPrev(newNode, -1, nodeInPos.prev);
      NodeLinkNext(newNode, -1, nodeInPos);
      if nodeInPos.prev == null {
        return Crashed;
      }
      LinkBetween(i, nodeInPos.prev, nodeInPos, newNode);
      return Returned(());
    }

    /** Link the node in before place `pos`, when that place is found; otherwise the walk to it ends in
        an abort or a crash. */
    method InsertMiddleNode(pos: nat, newNode: Node) returns (r: Outcome<()>)
      requires Valid() && Detached(newNode)
      modifies this, spine, newNode
      ensures r == if !(0 < pos < old(size)) then Aborted
                   else if old(Reachable(pos)) then Returned(()) else Crashed
      ensures r == Returned(()) ==>
                && Valid() && spine == old(spine)[..pos] + [newNode] + old(spine)[pos..]
                && Contents() == old(Contents())[..pos] + [old(newNode.tid)] + old(Contents())[pos..]
    {
      if !(0 < pos < size) {
        return Aborted;
      }
      var found := GetNode(pos);
      if found == Crashed || found == Returned(null) {
        return Crashed;
      }
      r := LinkBefore(if Reachable(pos) then pos else 0, found.value, newNode);
    }

    // ------------------------------------------------------------- inserting an id

    /** doubly_linked_list_insert_head. */
    method InsertHead(tid: Tid, allocates: bool) returns (ok: bool)
      requires Valid()
      modifies this, spine
      ensures Valid() && ok == allocates
      ensures Contents() == if ok then [tid] + old(Contents()) else old(Contents())
      ensures if ok then head != null && fresh(head) && spine == [head] + old(spine) else spine == old(spine)
    {
      if !allocates {
        return false;
      }
      var newNode := new Node(tid);
      if IsEmpty() {
        InsertNodeWhenEmpty(newNode);
      } else {
        InsertNodeInHead(newNode);
      }
      return true;
    }

    /** doubly_linked_list_insert_tail. */
    method InsertTail(tid: Tid, allocates: bool) returns (ok: bool)
      requires Valid()
      modifies this, spine
      ensures Valid() && ok == allocates
      ensures Contents() == if ok then old(Contents()) + [tid] else old(Contents())
      ensures if ok then tail != null && fresh(tail) && spine == old(spine) + [tail] else spine == old(spine)
    {
      if !allocates {
        return false;
      }
      var newNode := new Node(tid);
      if IsEmpty() {
        InsertNodeWhenEmpty(newNode);
      } else {
        InsertNodeInTail(newNode);
      }
      return true;
    }

    /** doubly_linked_list_insert puts the id in place `pos` exactly for either end and the places before
        the middle; past the end it aborts, and elsewhere it crashes. */
    method Insert(pos: nat, tid: Tid, allocates: bool) returns (r: Outcome<bool>)
      requires Valid()
      modifies this, spine
      ensures r == if pos > old(size) then Aborted
                   else if !allocates then Returned(false)
                   else if pos == 0 || pos == old(size) || old(Reachable(pos)) then Returned(true)
                   else Crashed
      ensures r.Returned? ==> Valid()
      ensures r == Returned(false) ==> Contents() == old(Contents())
      ensures r == Returned(true) ==> Contents() == old(Contents())[..pos] + [tid] + old(Contents())[pos..]
    {
      if !(pos <= size) {
        return Aborted;
      }
      if !allocates {
        return Returned(false);
      }
      var newNode := new Node(tid);
      if IsEmpty() {
        InsertNodeWhenEmpty(newNode);
      } else if pos == 0 {
        InsertNodeInHead(newNode);
      } else if pos == size {
        InsertNodeInTail(newNode);
      } else {
        var inserted := InsertMiddleNode(pos, newNode);
        if inserted != Returned(()) {
          return Crashed;
        }
      }
      return Returned(true);
    }

    // ------------------------------------------------------------- unlinking nodes

    /** node_destroy: a node that has left the list is given back, once. */
    method NodeDestroy(node: Node)
      requires Valid() && node !in spine && !node.freed
      modifies node`freed
      ensures Valid() && node.freed
    {
      node.freed := true;
    }

    /** doubly_linked_list_remove_last_node: only for a list of one node. */
    method RemoveLastNode() returns (r: Outcome<Node>)
      requires Valid()
      modifies this
      ensures r == if old(size) == 1 then Returned(old(spine)[0]) else Aborted
      ensures Valid()
      ensures r.Returned? ==> spine == [] && Contents() == [] && r.value.tid == old(Contents())[0]
      ensures r.Returned? ==> r.value !in spine && !r.value.freed
      ensures !r.Returned? ==> spine == old(spine) && cells == old(cells)
    {
      if size != 1 {
        return Aborted;
      }
      assert cells[0] == CellOf(head);
      r := Returned(head);
      head, tail, size := null, null, 0;
      spine, cells := [], [];
    }

    /** The first node, which nothing links to any more, leaves the list. */
    method DisownHead()
      requires |spine| > 1 && size == |spine| && Mirrors(spine, cells) && Distinct(spine)
      requires head == spine[1] && tail == spine[|spine| - 1] && Chained(spine[1..], cells[1..])
      modifies this`size, this`spine, this`cells
      ensures Valid() && spine == old(spine)[1..] && cells == old(cells)[1..]
      ensures old(spine)[0] !in spine
    {
      size := size - 1;
      spine, cells := spine[1..], cells[1..];
    }

    /** doubly_linked_list_remove_head_node: only for a list of more than one node. */
    method RemoveHeadNode() returns (r: Outcome<Node>)
      requires Valid()
      modifies this, spine
      ensures r == if old(size) > 1 then Returned(old(spine)[0]) else Aborted
      ensures Valid()
      ensures r.Returned? ==> spine == old(spine)[1..] && Contents() == old(Contents())[1..]
      ensures r.Returned? ==> r.value.tid == old(Contents())[0] && r.value !in spine && !r.value.freed
      ensures !r.Returned? ==> spine == old(spine) && cells == old(cells)
    {
      if !(size > 1) {
        return Aborted;
      }
      var oldHead := head;
      assert cells[0] == CellOf(oldHead);
      ChainedTailPart(spine, cells);
      head := oldHead.next;
      NodeLinkPrev(head, 1, null);
      DisownHead();
      return Returned(oldHead);
    }

    /** The last node, which nothing links to any more, leaves the list. */
    method DisownTail()
      requires |spine| > 1 && size == |spine| && Mirrors(spine, cells) && Distinct(spine)
      requires head == spine[0] && tail == spine[|spine| - 2]
      requires Chained(spine[..|spine| - 1], cells[..|cells| - 1])
      modifies this`size, this`spine, this`cells
      ensures Valid() && spine == old(spine)[..|old(spine)| - 1] && cells == old(cells)[..|old(cells)| - 1]
      ensures old(spine)[|old(spine)| - 1] !in spine
    {
      size := size - 1;
      spine, cells := spine[..|spine| - 1], cells[..|cells| - 1];
    }

    /** doubly_linked_list_remove_tail_node: only for a list of more than one node. */
    method RemoveTailNode() returns (r: Outcome<Node>)
      requires Valid()
      modifies this, spine
      ensures r == if old(size) > 1 then Returned(old(spine)[old(size) - 1]) else Aborted
      ensures Valid()
      ensures r.Returned? ==> spine == old(spine)[..old(size) - 1] && Contents() == old(Contents())[..old(size) - 1]
      ensures r.Returned? ==> r.value.tid == old(Contents())[old(size) - 1] && r.value !in spine && !r.value.freed
      ensures !r.Returned? ==> spine == old(spine) && cells == old(cells)
    {
      if !(size > 1) {
        return Aborted;
      }
      var oldTail := tail;
      ghost var n := |spine|;
      assert cells[n - 1] == CellOf(oldTail);
      ChainedHeadPart(spine, cells);
      tail := oldTail.prev;
      NodeLinkNext(tail, n - 2, null);
      DisownTail();
      return Returned(oldTail);
    }

    /** What the neighbours of place `pos` hold once they link past it. */
    method LinkPast(ghost pos: nat, before: Node, after: Node)
      requires Distinct(spine) && Mirrors(spine, cells) && Chained(spine, cells)
      requires 0 < pos < |spine| - 1 && before == spine[pos - 1] && after == spine[pos + 1]
      modifies this`cells, before`next, after`prev
      ensures Mirrors(spine, cells) && cells == LinkedPast(old(cells), pos)
    {
      assert cells[pos].prev == before && cells[pos].next == after;
      NodeLinkNext(before, pos - 1, after);
      NodeLinkPrev(after, pos + 1, before);
    }

    /** The node at `pos`, which nothing links to any more, leaves the list. */
    method DisownMiddle(ghost pos: nat)
      requires 0 < pos < |spine| - 1 && size == |spine| && Mirrors(spine, cells) && Distinct(spine)
      requires head == spine[0] && tail == spine[|spine| - 1]
      requires Chained(Without(spine, pos), Without(cells, pos))
      modifies this
      ensures Valid() && spine == Without(old(spine), pos) && cells == Without(old(cells), pos)
      ensures old(spine)[pos] !in spine
    {
      DistinctWithout(spine, pos);
      MirrorsWithout(spine, cells, pos);
      size := size - 1;
      spine, cells := Without(spine, pos), Without(cells, pos);
    }

    method UnlinkMiddle(ghost pos: nat, oldNode: Node)
      requires Valid() && 0 < pos < |spine| - 1 && oldNode == spine[pos]
      modifies this, spine
      ensures Valid() && spine == Without(old(spine), pos) && Contents() == Without(old(Contents()), pos)
      ensures oldNode.tid == old(Contents())[pos] && oldNode !in spine && !oldNode.freed
    {
      assert cells[pos] == CellOf(oldNode);
      ChainedWithout(spine, cells, pos);
      TidsWithout(cells, pos);
      LinkPast(pos, oldNode.prev, oldNode.next);
      DisownMiddle(pos);
    }

    /** doubly_linked_list_remove_middle_node, when the place is found. */
    method RemoveMiddleNode(pos: nat) returns (r: Outcome<Node>)
      requires Valid()
      modifies this, spine
      ensures r == if !(0 < pos < old(size) - 1) then Aborted
                   else if old(Reachable(pos)) then Returned(old(spine)[pos]) else Crashed
      ensures r.Returned? ==>
                && Valid() && spine == old(spine)[..pos] + old(spine)[pos + 1..]
                && Contents() == old(Contents())[..pos] + old(Contents())[pos + 1..]
                && r.value.tid == old(Contents())[pos] && r.value !in spine && !r.value.freed
    {
      if !(0 < pos < size - 1) {
        return Aborted;
      }
      var found := GetNode(pos);
      if found == Crashed || found == Returned(null) {
        return Crashed;
      }
      UnlinkMiddle(pos, found.value);
      return Returned(found.value);
    }

    // ------------------------------------------------------------- removing an id

    /** doubly_linked_list_remove_head. */
    method RemoveHead() returns (r: Outcome<Tid>)
      requires Valid()
      modifies this, spine
      ensures Valid()
      ensures r == if old(Contents()) == [] then Aborted else Returned(old(Contents())[0])
      ensures Contents() == if old(Contents()) == [] then [] else old(Contents())[1..]
      ensures spine == if old(spine) == [] then [] else old(spine)[1..]
      ensures old(spine) != [] ==> old(spine)[0].freed
    {
      if IsEmpty() {
        return Aborted;
      }
      var oldHead: Outcome<Node>;
      if size == 1 {
        oldHead := RemoveLastNode();
      } else {
        oldHead := RemoveHeadNode();
      }
      NodeDestroy(oldHead.value);
      return Returned(oldHead.value.tid);
    }

    /** doubly_linked_list_remove_tail. */
    method RemoveTail() returns (r: Outcome<Tid>)
      requires Valid()
      modifies this, spine
      ensures Valid()
      ensures var was := old(Contents());
              && r == (if was == [] then Aborted else Returned(was[|was| - 1]))
              && Contents() == if was == [] then [] else was[..|was| - 1]
      ensures spine == if old(spine) == [] then [] else old(spine)[..|old(spine)| - 1]
      ensures old(spine) != [] ==> old(spine)[|old(spine)| - 1].freed
    {
      if IsEmpty() {
        return Aborted;
      }
      var oldTail: Outcome<Node>;
      if size == 1 {
        oldTail := RemoveLastNode();
      } else {
        oldTail := RemoveTailNode();
      }
      NodeDestroy(oldTail.value);
      return Returned(oldTail.value.tid);
    }

    /** doubly_linked_list_remove takes the id at `pos` out exactly for the head of a list of more than
        one node and for the places before the middle; the only node, the tail, and any place past the
        end abort, and the rest crashes. */
    method Remove(pos: nat) returns (r: Outcome<Tid>)
      requires Valid()
      modifies this, spine
      ensures r == if (pos == 0 && old(size) > 1) || (pos > 0 && old(Reachable(pos)))
                   then Returned(old(Contents())[pos])
                   else if 0 < pos < old(size) - 1 then Crashed
                   else Aborted
      ensures r.Returned? ==> Valid() && Contents() == old(Contents())[..pos] + old(Contents())[pos + 1..]
      ensures r.Returned? ==> old(spine)[pos].freed
    {
      if !(pos < size) {
        return Aborted;
      }
      // The source tests for an empty list and for `pos == size` here, which the assertion above rules out.
      var oldNode: Outcome<Node>;
      if pos == 0 {
        oldNode := RemoveHeadNode();
      } else {
        oldNode := RemoveMiddleNode(pos);
      }
      match oldNode
      case Returned(node) =>
        NodeDestroy(node);
        r := Returned(node.tid);
      case Aborted => r := Aborted;
      case Crashed => r := Crashed;
    }
  }
}
