// list.c: a doubly linked list that grows at the tail and is popped from the tail.

module Lists {
  import opened Defs

  class LNode<T> {
    const data: T
    var next: LNode?<T>
    var prev: LNode?<T>

    /** lnode_init: an unlinked node holding the item. */
    constructor (item: T)
      ensures data == item && next == null && prev == null
    {
      data := item;
      next := null;
      prev := null;
    }
  }

  class List<T> {
    var head: LNode?<T>
    var tail: LNode?<T>
    var size: int
    /** The nodes from head to tail. */
    ghost var spine: seq<LNode<T>>
    ghost var Repr: set<object>

    /**
     * The links agree with the spine: prev/next pairs match, head and tail are its ends and
     * size counts it. Whether the tail's `next` is NULL is left to Valid().
     */
    ghost predicate Linked()
      reads this, Repr
    {
      this in Repr &&
      (forall i :: 0 <= i < |spine| ==> spine[i] in Repr) &&
      size == |spine| &&
      (spine == [] ==> head == null && tail == null) &&
      (spine != [] ==> head == spine[0] && tail == spine[|spine| - 1] && spine[0].prev == null) &&
      (forall i :: 0 <= i < |spine| - 1 ==> spine[i].next == spine[i + 1] && spine[i + 1].prev == spine[i]) &&
      (forall i, j :: 0 <= i < j < |spine| ==> spine[i] != spine[j])
    }

    /** A well-formed list: linked, and the walk from head stops after the tail. */
    ghost predicate Valid()
      reads this, Repr
    {
      Linked() && (tail == null || tail.next == null)
    }

    /** The items from head to tail. */
    ghost function Items(): (s: seq<T>)
      reads this
      ensures |s| == |spine|
    {
      var sp := spine;
      seq(|sp|, i requires 0 <= i < |sp| => sp[i].data)
    }

    /** list_init: no head, no tail, size 0. */
    constructor Init()
      ensures Valid() && fresh(Repr) && Items() == [] && size == 0
    {
      head := null;
      tail := null;
      size := 0;
      spine := [];
      Repr := {this};
    }

    /**
     * list_add after its argument checks: the new node goes after the tail with `prev` linked
     * to the old tail; the result is the new size. Works on a list whose tail link dangles too.
     */
    method Add(item: T) returns (newSize: int)
      requires Linked()
      modifies Repr
      ensures Valid() && fresh(Repr - old(Repr)) && Repr == old(Repr) + {tail}
      ensures Items() == old(Items()) + [item]
      ensures newSize == size == old(size) + 1
      ensures tail != null && tail.prev == old(tail)
    {
      ghost var sp := spine;
      var node := new LNode(item);
      assert forall i :: 0 <= i < |sp| ==> sp[i] != node;
      if head == null {
        head := node;
        tail := head;
      } else {
        assert tail == sp[|sp| - 1];
        node.prev := tail;
        tail.next := node;
        tail := tail.next;
      }
      size := size + 1;
      spine := spine + [node];
      Repr := Repr + {node};
      assert forall i :: 0 <= i < |sp| ==> spine[i] == sp[i];
      assert spine[|sp|] == node;
      newSize := size;
    }

    /**
     * list_pop as written: the tail node is unlinked from the list object and freed, but the
     * new tail's `next` still points at it.
     */
    method PopAsWritten() returns (r: Option<T>)
      requires Linked()
      modifies this
      ensures Linked() && Repr <= old(Repr)
      ensures old(spine) == [] ==> r == None && spine == []
      ensures old(spine) != [] ==> r == Some(old(tail.data)) && Items() == old(Items())[..|old(spine)| - 1]
      ensures old(spine) != [] ==> Repr == old(Repr) - {old(tail)}
      ensures |old(spine)| >= 2 ==> tail != null && tail.next == old(tail) && old(tail) !in Repr
    {
      if tail == null {
        return None;
      }
      var node := tail;
      ghost var k := |spine| - 1;
      assert node == spine[k];
      assert k > 0 ==> node.prev == spine[k - 1];
      assert forall i :: 0 <= i < k ==> spine[i] != node;
      tail := node.prev;
      if tail == null {
        head := null;
      }
      size := size - 1;
      spine := spine[..|spine| - 1];
      Repr := Repr - {node};
      r := Some(node.data);
    }

    /** list_pop with the new tail's `next` cleared: LIFO removal that keeps the list well formed. */
    method Pop() returns (r: Option<T>)
      requires Valid()
      modifies Repr
      ensures Valid() && Repr <= old(Repr)
      ensures old(spine) != [] ==> Repr == old(Repr) - {old(tail)}
      ensures old(spine) == [] ==> r == None && Items() == []
      ensures old(spine) != [] ==>
                r == Some(old(Items())[|old(spine)| - 1]) && Items() == old(Items())[..|old(spine)| - 1]
      ensures size == if old(spine) == [] then 0 else old(size) - 1
      ensures head == null <==> Items() == []
    {
      if tail == null {
        return None;
      }
      var node := tail;
      ghost var k := |spine| - 1;
      assert node == spine[k];
      assert k > 0 ==> node.prev == spine[k - 1] && spine[k - 1] in Repr;
      assert forall i :: 0 <= i < k ==> spine[i] != node;
      tail := node.prev;
      if tail == null {
        head := null;
      } else {
        tail.next := null;
      }
      size := size - 1;
      spine := spine[..|spine| - 1];
      Repr := Repr - {node};
      r := Some(node.data);
    }
  }

  /** list_add: -1 for a NULL list or a failed node allocation, with nothing changed. */
  method ListAdd<T>(l: List?<T>, item: T, nodeAllocated: bool) returns (rc: int)
    requires l != null ==> l.Linked()
    modifies if l == null then {} else l.Repr
    ensures l == null || !nodeAllocated ==> rc == -1
    ensures l != null && !nodeAllocated ==> l.Items() == old(l.Items()) && l.size == old(l.size) && unchanged(old(l.Repr))
    ensures l != null && nodeAllocated ==>
              l.Valid() && fresh(l.Repr - old(l.Repr)) &&
              l.Items() == old(l.Items()) + [item] && rc == l.size == old(l.size) + 1
  {
    if l == null {
      return -1;
    }
    if !nodeAllocated {
      return -1;
    }
    rc := l.Add(item);
  }

  /**
   * list_pop: NULL for a NULL or empty list, otherwise the most recently added item. As
   * written, the new tail's `next` is left pointing at the freed node, so only the links
   * between the remaining nodes are promised, and the list need not be well formed on entry.
   */
  method ListPop<T>(l: List?<T>) returns (r: Option<T>)
    requires l != null ==> l.Linked()
    modifies l
    ensures l == null ==> r == None
    ensures l != null ==> l.Linked() && l.Repr <= old(l.Repr)
    ensures l != null && old(l.Items()) == [] ==> r == None && l.Items() == []
    ensures l != null && old(l.Items()) != [] ==>
              r == Some(old(l.Items())[|old(l.Items())| - 1]) &&
              l.Items() == old(l.Items())[..|old(l.Items())| - 1]
    ensures l != null && |old(l.Items())| >= 2 ==> l.tail != null && l.tail.next == old(l.tail) && old(l.tail) !in l.Repr
  {
    if l == null {
      return None;
    }
    r := l.PopAsWritten();
  }

  /**
   * list_iter: the items handed to the callback, in call order. A NULL list or a NULL callback
   * means no calls; otherwise every item once, head to tail.
   */
  method ListIter<T>(l: List?<T>, hasCallback: bool) returns (visited: seq<T>)
    requires l != null ==> l.Valid()
    ensures visited == if l == null || !hasCallback then [] else l.Items()
  {
    if l == null || !hasCallback {
      return [];
    }
    visited := [];
    var node := l.head;
    ghost var k := 0;
    while node != null
      invariant 0 <= k <= |l.spine|
      invariant node == if k < |l.spine| then l.spine[k] else null
      invariant visited == l.Items()[..k]
      decreases |l.spine| - k
    {
      visited := visited + [node.data];
      node := node.next;
      k := k + 1;
    }
  }

  /**
   * Popping with list_pop as written from a two-item list leaves the remaining tail pointing
   * at the freed node, so a later list_iter walks past the tail.
   */
  method PopLeavesDanglingTail<T>(a: T, b: T) returns (l: List<T>)
    ensures l.Linked() && l.Items() == [a]
    ensures l.tail != null && l.tail.next != null && l.tail.next !in l.Repr
  {
    l := new List.Init();
    var n := l.Add(a);
    n := l.Add(b);
    var r := l.PopAsWritten();
  }

  /**
   * list_pop as written reads only `tail` and `tail.prev`, so it pops again from the list its
   * previous pop left dangling: three adds and two pops hand back the last two items, newest
   * first, and leave the first.
   */
  method PopTwiceAsWritten<T>(a: T, b: T, c: T) returns (r1: Option<T>, r2: Option<T>, l: List<T>)
    ensures r1 == Some(c) && r2 == Some(b)
    ensures l.Linked() && l.Items() == [a]
  {
    l := new List.Init();
    var n := l.Add(a);
    n := l.Add(b);
    n := l.Add(c);
    assert l.Items() == [a, b, c] && l.tail.data == l.Items()[2];
    r1 := l.PopAsWritten();
    assert l.Items() == [a, b] && l.tail.data == l.Items()[1];
    r2 := l.PopAsWritten();
  }

  /** With the corrected pop, the same sequence leaves a list that list_iter walks exactly. */
  method PopKeepsListWalkable<T>(a: T, b: T) returns (visited: seq<T>)
    ensures visited == [a]
  {
    var l := new List.Init();
    var n := l.Add(a);
    n := l.Add(b);
    var r := l.Pop();
    visited := ListIter(l, true);
  }
}
