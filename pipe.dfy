// pipe.c: the kernel's pipes form a singly linked list hanging off a head pipe; every pipe
// created by add_pipe takes the id one above the current tail's.
//
// The chain of `next` pointers is represented by the order of a sequence of pipe objects:
// position i + 1 is what pipe i's `next` points at, and the last pipe's `next` is NULL. The
// loops walk positions exactly as the C loops walk `next`.

module Pipes {
  import opened Defs
  import opened Queues

  class Pipe {
    /** PIPE_BUFFER_LEN bytes of pipe data. */
    var buf: array<char>
    var plen: int
    /** Fixed once the pipe is linked in. */
    const id: int
    var beingUsed: int
    /** Processes waiting on the pipe. */
    var queue: Queue?

    /** The fields both init_head_pipe and add_pipe give a new pipe: empty, free, unlinked. */
    constructor (id: int, bufLen: nat, pipeFree: int)
      ensures this.id == id && plen == 0 && beingUsed == pipeFree && queue == null
      ensures fresh(buf) && buf.Length == bufLen
      ensures forall i :: 0 <= i < bufLen ==> buf[i] == 0 as char
    {
      buf := new char[bufLen](_ => 0 as char);
      plen := 0;
      this.id := id;
      beingUsed := pipeFree;
      queue := null;
    }
  }

  /** The position of the first `id` in `ids`, or |ids| when there is none. */
  function FirstIndex(ids: seq<int>, id: int): (j: nat)
    ensures j <= |ids|
    ensures j < |ids| ==> ids[j] == id
    ensures forall i :: 0 <= i < j ==> ids[i] != id
    ensures j == |ids| <==> id !in ids
  {
    if ids == [] then 0
    else if ids[0] == id then 0
    else 1 + FirstIndex(ids[1..], id)
  }

  /** `s` with the element at `k` taken out, the others keeping their order. */
  function Without<X>(s: seq<X>, k: int): (r: seq<X>)
    requires 0 <= k < |s|
    ensures |r| == |s| - 1
    ensures forall i :: 0 <= i < |r| ==> r[i] == if i < k then s[i] else s[i + 1]
  {
    s[..k] + s[k + 1..]
  }

  /** Ids strictly increase from head to tail. */
  predicate Increasing(ids: seq<int>)
  {
    forall i, j :: 0 <= i < j < |ids| ==> ids[i] < ids[j]
  }

  /** The kernel's pipe list, held by its head pointer: `pipes[0]` is the head. */
  class PipeList {
    /** The pipes from head to tail; empty stands for a NULL head pointer. */
    var pipes: seq<Pipe>

    /** The ids from head to tail. */
    function Ids(): (ids: seq<int>)
      reads this
      ensures |ids| == |pipes| && forall i :: 0 <= i < |pipes| ==> ids[i] == pipes[i].id
    {
      var ps := pipes;
      seq(|ps|, i requires 0 <= i < |ps| => ps[i].id)
    }

    /**
     * init_head_pipe once malloc has succeeded: a lone pipe with the first id after the lock
     * and condition-variable ids, empty, free and with a zeroed buffer. The C code leaves the
     * head's queue uninitialised; here it is NULL.
     */
    constructor InitHead(maxLocks: int, maxCvars: int, bufLen: nat, pipeFree: int)
      ensures |pipes| == 1 && Ids() == [maxLocks + maxCvars + 1]
      ensures fresh(pipes[0]) && pipes[0].plen == 0 && pipes[0].beingUsed == pipeFree
      ensures pipes[0].buf.Length == bufLen && forall i :: 0 <= i < bufLen ==> pipes[0].buf[i] == 0 as char
    {
      var p := new Pipe(maxLocks + maxCvars + 1, bufLen, pipeFree);
      pipes := [p];
    }

    /**
     * add_pipe: ERROR when malloc fails or the head is NULL, with no change. Otherwise a new
     * empty, free pipe is linked after the tail with the tail's id plus one, which is returned.
     * A failed queue_init is reported by the C code and leaves the pipe with a NULL queue.
     */
    method Add(mallocOk: bool, queueOk: bool, bufLen: nat, pipeFree: int) returns (rc: int)
      modifies this
      ensures !mallocOk || old(pipes) == [] ==> rc == ERROR && pipes == old(pipes)
      ensures mallocOk && old(pipes) != [] ==>
                |pipes| == |old(pipes)| + 1 && pipes[..|old(pipes)|] == old(pipes) &&
                fresh(pipes[|pipes| - 1]) &&
                Ids() == old(Ids()) + [rc] && rc == old(Ids())[|old(pipes)| - 1] + 1
      ensures mallocOk && old(pipes) != [] ==>
                var p := pipes[|pipes| - 1];
                p.plen == 0 && p.beingUsed == pipeFree && p.buf.Length == bufLen &&
                (forall i :: 0 <= i < bufLen ==> p.buf[i] == 0 as char) &&
                (p.queue != null) == queueOk
    {
      if !mallocOk {
        return ERROR;
      }
      if pipes == [] {
        return ERROR;
      }
      // Walk to the tail: the pipe whose `next` is NULL.
      var k := 0;
      while k + 1 < |pipes|
        invariant 0 <= k < |pipes|
        decreases |pipes| - k
      {
        k := k + 1;
      }
      var newPipe := new Pipe(pipes[k].id + 1, bufLen, pipeFree);
      newPipe.queue := QueueInit(queueOk);
      ghost var ps := pipes;
      pipes := pipes + [newPipe];
      assert pipes[..|ps|] == ps;
      rc := newPipe.id;
    }

    /**
     * get_pipe: the first pipe from the head whose id matches, or NULL when none does. The C
     * code dereferences the head, so the list must not be empty.
     */
    method Get(id: int) returns (r: Pipe?)
      requires pipes != []
      ensures r == null <==> id !in Ids()
      ensures r != null ==> r == pipes[FirstIndex(Ids(), id)]
    {
      var k := 0;
      while pipes[k].id != id
        invariant 0 <= k < |pipes|
        invariant forall i :: 0 <= i < k ==> pipes[i].id != id
        decreases |pipes| - k
      {
        if k + 1 == |pipes| {
          return null;
        }
        k := k + 1;
      }
      assert FirstIndex(Ids(), id) == k;
      r := pipes[k];
    }

    /**
     * remove_pipe: ERROR with no change when no pipe has the id; otherwise the first pipe with
     * it is unlinked and freed, and the others keep their order. When the id is the head's, the
     * C code writes through an uninitialised `pipe_before`, so the head's id is excluded here.
     */
    method Remove(id: int) returns (rc: int)
      requires pipes != [] && pipes[0].id != id
      modifies this
      ensures rc == 0 || rc == ERROR
      ensures rc == ERROR <==> id !in old(Ids())
      ensures rc == ERROR ==> pipes == old(pipes)
      ensures rc == 0 ==>
                var j := FirstIndex(old(Ids()), id);
                0 < j < |old(pipes)| && pipes == Without(old(pipes), j) &&
                Ids() == Without(old(Ids()), j)
    {
      var k := 0;
      var before := -1;
      while pipes[k].id != id
        invariant 0 <= k < |pipes|
        invariant k > 0 ==> before == k - 1
        invariant forall i :: 0 <= i < k ==> pipes[i].id != id
        decreases |pipes| - k
      {
        if k + 1 == |pipes| {
          return ERROR;
        }
        before := k;
        k := k + 1;
      }
      assert FirstIndex(Ids(), id) == k && k > 0;
      ghost var ids := Ids();
      // pipe_before->next skips the found pipe, whether or not it is the tail.
      pipes := Without(pipes, k);
      assert Ids() == Without(ids, k);
      rc := 0;
    }
  }

  /** init_head_pipe: NULL when malloc fails, otherwise a one-pipe list. */
  method InitHeadPipe(mallocOk: bool, maxLocks: int, maxCvars: int, bufLen: nat, pipeFree: int)
    returns (l: PipeList?)
    ensures (l != null) == mallocOk
    ensures l != null ==> fresh(l) && l.Ids() == [maxLocks + maxCvars + 1]
  {
    if !mallocOk {
      return null;
    }
    l := new PipeList.InitHead(maxLocks, maxCvars, bufLen, pipeFree);
  }

  /** add_pipe keeps ids strictly increasing: the new id is above every id already present. */
  lemma {:induction false} AddKeepsIncreasing(ids: seq<int>)
    requires ids != [] && Increasing(ids)
    ensures Increasing(ids + [ids[|ids| - 1] + 1])
  {
    var ids' := ids + [ids[|ids| - 1] + 1];
    forall i, j | 0 <= i < j < |ids'|
      ensures ids'[i] < ids'[j]
    {
      if j == |ids| {
        assert i == |ids| - 1 || ids[i] < ids[|ids| - 1];
      }
    }
  }

  /**
   * With strictly increasing ids, removing the first pipe with a given id leaves no pipe with
   * it, and the remaining ids still increase.
   */
  lemma {:induction false} RemoveLeavesNoDuplicate(ids: seq<int>, id: int)
    requires Increasing(ids) && id in ids
    ensures var j := FirstIndex(ids, id);
            id !in Without(ids, j) && Increasing(Without(ids, j))
  {
  }

  /**
   * After a successful remove_pipe on a list whose ids strictly increase, get_pipe finds
   * nothing under that id.
   */
  method RemoveThenGet(l: PipeList, id: int) returns (rc: int, r: Pipe?)
    requires l.pipes != [] && l.pipes[0].id != id && Increasing(l.Ids())
    modifies l
    ensures r == null
  {
    ghost var ids := l.Ids();
    rc := l.Remove(id);
    if rc == 0 {
      RemoveLeavesNoDuplicate(ids, id);
    }
    r := l.Get(id);
  }
}
