// queue.c: a FIFO of PCB references, each node keyed by an id (most often the PCB's pid).
// The queue keeps its nodes, head first, and the `size` field the C code maintains beside it.

module Queues {
  import opened Defs
  import opened Process

  class Queue {
    var id: int
    var size: int
    /** The nodes from head to tail: the PCB each refers to and the id it was added under. */
    var items: seq<Pcb>
    var ids: seq<int>

    /** size equals the number of nodes (queue.c keeps the two in step). */
    ghost predicate Valid()
      reads this
    {
      size == |items| == |ids|
    }

    /** queue_init: id 0, size 0, no head and no tail. */
    constructor Init()
      ensures Valid() && id == 0 && size == 0 && items == [] && ids == []
    {
      id := 0;
      size := 0;
      items := [];
      ids := [];
    }

    /** queue_add after its argument checks: link a node at the tail and count it. */
    method Add(data: Pcb, nodeId: int)
      requires Valid()
      modifies this
      ensures Valid() && id == old(id)
      ensures items == old(items) + [data] && ids == old(ids) + [nodeId]
    {
      items := items + [data];
      ids := ids + [nodeId];
      size := size + 1;
    }

    /** queue_pop on a non-empty queue: unlink the head and hand back its PCB. */
    method Pop() returns (data: Pcb)
      requires Valid() && items != []
      modifies this
      ensures Valid() && id == old(id)
      ensures data == old(items[0])
      ensures items == old(items[1..]) && ids == old(ids[1..])
    {
      data := items[0];
      items := items[1..];
      ids := ids[1..];
      size := size - 1;
    }

    /** queue_peek (its body is not part of this model): the head's PCB, or NULL when empty. */
    function Peek(): (r: Pcb?)
      reads this
      ensures r == null <==> items == []
      ensures r != null ==> r == items[0]
    {
      if items == [] then null else items[0]
    }
  }

  /** queue_init with the allocation outcome as a parameter: NULL when malloc fails. */
  method QueueInit(mallocOk: bool) returns (q: Queue?)
    ensures (q != null) == mallocOk
    ensures q != null ==> fresh(q) && q.Valid() && q.id == 0 && q.items == []
  {
    if !mallocOk {
      return null;
    }
    q := new Queue.Init();
  }

  /**
   * queue_add: -1 for a NULL queue, NULL data, or a failed node allocation, with nothing changed;
   * otherwise the node goes to the tail and the result is 0.
   */
  method QueueAdd(q: Queue?, data: Pcb?, nodeId: int, nodeAllocated: bool) returns (rc: int)
    requires q != null ==> q.Valid()
    modifies q
    ensures rc == 0 || rc == -1
    ensures rc == 0 <==> q != null && data != null && nodeAllocated
    ensures rc == -1 && q != null ==> q.items == old(q.items) && q.ids == old(q.ids) && q.size == old(q.size)
    ensures q != null ==> q.id == old(q.id)
    ensures rc == 0 ==> q.Valid() && q.items == old(q.items) + [data] && q.ids == old(q.ids) + [nodeId]
  {
    if q == null || data == null {
      return -1;
    }
    if !nodeAllocated {
      return -1;
    }
    q.Add(data, nodeId);
    rc := 0;
  }

  /**
   * queue_pop: NULL for a NULL or empty queue with nothing changed; otherwise the head's PCB,
   * with the head unlinked.
   */
  method QueuePop(q: Queue?) returns (r: Pcb?)
    requires q != null ==> q.Valid()
    modifies q
    ensures q == null || old(q.items) == [] ==> r == null
    ensures q != null ==> q.id == old(q.id)
    ensures q != null && old(q.items) == [] ==> q.items == [] && q.ids == old(q.ids) && q.size == old(q.size)
    ensures q != null && old(q.items) != [] ==>
              r == old(q.items[0]) && q.items == old(q.items[1..]) && q.ids == old(q.ids[1..]) && q.Valid()
  {
    if q == null {
      return null;
    }
    if q.size == 0 {
      return null;
    }
    r := q.Pop();
  }

  /** queue_size (its body is not part of this model): -1 for a NULL queue, else the node count. */
  function QueueSize(q: Queue?): (r: int)
    reads q
    requires q != null ==> q.Valid()
    ensures q == null <==> r == -1
    ensures q != null ==> r == |q.items|
  {
    if q == null then -1 else q.size
  }

  /**
   * FIFO order: adding PCBs one by one to a fresh queue and popping until it is empty hands
   * them back in the order they were added.
   */
  method FifoOrder(ps: seq<Pcb>) returns (out: seq<Pcb>)
    ensures out == ps
  {
    var q := new Queue.Init();
    var i := 0;
    while i < |ps|
      invariant 0 <= i <= |ps|
      invariant q.Valid() && q.items == ps[..i]
    {
      q.Add(ps[i], ps[i].pid);
      i := i + 1;
    }
    out := [];
    while q.size > 0
      invariant q.Valid() && out + q.items == ps
      decreases q.size
    {
      var p := q.Pop();
      out := out + [p];
    }
  }
}
