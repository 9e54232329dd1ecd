// syscalls.c: the process-coordination, heap and terminal system calls. Each method ends
// where the C code calls SwapProcess or KernelContextSwitch and says, as a `Next`, which
// call it makes; what runs after that call runs on behalf of another process and is not part
// of this model. Callees whose bodies are not shown (init_process, CopyUPT, delete_process,
// free_addr_space, SwapProcess, TtyTransmit) appear as outcome parameters or as results.

module Syscalls {
  import opened Defs
  import opened Process
  import opened Queues
  import opened State
  import opened Sweeps
  import ContextSwitch

  // ---------------------------------------------------------------------------------------
  // KernelExit

  /** The parent a PCB keeps when `pid` exits: a child of `pid` becomes an orphan (ppid 0). */
  function Orphaned(ppid: int, pid: int): int
  {
    if ppid == pid then 0 else ppid
  }

  /** Whether the ready sweep, among the first `n` PCBs, meets the parent `ppid` (a PCB that is not a child of `pid`). */
  function ParentSeen(vs: seq<PcbView>, pid: int, ppid: int, n: nat): bool
    requires n <= |vs|
  {
    n > 0 && (ParentSeen(vs, pid, ppid, n - 1) || (vs[n - 1].ppid != pid && vs[n - 1].pid == ppid))
  }

  /** The ready sweep reports the parent exactly when some PCB it visits is the parent and not a child. */
  lemma {:induction false} ParentSeenExists(vs: seq<PcbView>, pid: int, ppid: int, n: nat)
    requires n <= |vs|
    ensures ParentSeen(vs, pid, ppid, n) <==> exists j :: 0 <= j < n && vs[j].ppid != pid && vs[j].pid == ppid
  {
    if n > 0 {
      ParentSeenExists(vs, pid, ppid, n - 1);
    }
  }

  /** One round of the ready sweep: pop `ps[i]`, orphan it or recognise the parent, re-add it. */
  method ExitReadyStep(ready: Queue, ghost ps: seq<Pcb>, ghost vs: seq<PcbView>, i: nat, pid: int, ppid: int)
    returns (isParent: bool)
    requires ready.Valid() && i < |ps| == |vs| && ready.items == ps[i..] + ps[..i]
    requires ps[i].pid == vs[i].pid && ps[i].ppid == vs[i].ppid
    modifies ready, {ps[i]}`ppid
    ensures ready.Valid() && ready.items == ps[i + 1..] + ps[..i + 1]
    ensures ps[i].ppid == Orphaned(vs[i].ppid, pid)
    ensures isParent == (vs[i].ppid != pid && vs[i].pid == ppid)
  {
    var p := PopRotated(ready, ps, i);
    isParent := false;
    if p.ppid == pid {
      p.ppid := 0;
    } else if p.pid == ppid {
      isParent := true;
    }
    AddRotated(ready, ps, i, p);
  }

  /**
   * The ready-queue sweep of KernelExit (syscalls.c:140-161): every PCB is popped and re-added,
   * so the queue ends as it began; children of the exiting process (`pid`) get ppid 0 (and no
   * other field changes: the frame allows only ppid); the result says whether the parent
   * (`ppid`) was met. The exiting PCB is on no queue.
   */
  method ExitReadySweep(ready: Queue, pid: int, ppid: int) returns (sawParent: bool)
    requires ready.Valid() && Distinct(ready.items)
    modifies ready, ready.items`ppid
    ensures ready.Valid() && ready.items == old(ready.items)
    ensures var ps, vs := old(ready.items), old(Views(ready.items));
            forall j :: 0 <= j < |ps| ==> ps[j].ppid == Orphaned(vs[j].ppid, pid)
    ensures sawParent == ParentSeen(old(Views(ready.items)), pid, ppid, |ready.items|)
  {
    ghost var ps := ready.items;
    ghost var vs := Views(ps);
    var limit := ready.size;
    var i := 0;
    sawParent := false;
    while i < limit
      invariant 0 <= i <= limit == |ps|
      invariant ready.Valid() && ready.items == ps[i..] + ps[..i]
      invariant forall j :: 0 <= j < i ==> ps[j].ppid == Orphaned(vs[j].ppid, pid)
      invariant forall j :: i <= j < limit ==> ps[j].ppid == vs[j].ppid
      invariant sawParent == ParentSeen(vs, pid, ppid, i)
    {
      var isParent := ExitReadyStep(ready, ps, vs, i, pid, ppid);
      sawParent := sawParent || isParent;
      i := i + 1;
    }
    assert ps[i..] == [] && ps[..i] == ps;
  }

  /** The ready sweep leaves the PCBs of queues that share none with ready as they were. */
  method ExitReadyFramed(ready: Queue, ghost bs: seq<Pcb>, ghost ds: seq<Pcb>, pid: int, ppid: int)
    returns (sawParent: bool)
    requires ready.Valid() && Distinct(ready.items)
    requires Disjoint(ready.items, bs) && Disjoint(ready.items, ds)
    modifies ready, ready.items`ppid
    ensures ready.Valid() && ready.items == old(ready.items)
    ensures var ps, vs := old(ready.items), old(Views(ready.items));
            forall j :: 0 <= j < |ps| ==> ps[j].ppid == Orphaned(vs[j].ppid, pid)
    ensures sawParent == ParentSeen(old(Views(ready.items)), pid, ppid, |ready.items|)
    ensures Views(bs) == old(Views(bs)) && Views(ds) == old(Views(ds))
  {
    sawParent := ExitReadySweep(ready, pid, ppid);
  }

  /** A PCB the blocked sweep wakes: the parent, blocked in Wait. */
  predicate WaitingParent(v: PcbView, ppid: int)
  {
    v.pid == ppid && v.blockedCode == BLOCKED_WAIT
  }

  function WakeMask(vs: seq<PcbView>, ppid: int): (m: seq<bool>)
    ensures |m| == |vs| && forall j :: 0 <= j < |vs| ==> m[j] == WaitingParent(vs[j], ppid)
  {
    seq(|vs|, j requires 0 <= j < |vs| => WaitingParent(vs[j], ppid))
  }

  /**
   * Blocked sweep of KernelExit: a waiting parent gets the exit code as its blocked code and
   * one child fewer; another PCB with the parent's pid is left alone; a child becomes an orphan.
   */
  function ExitBlockedView(v: PcbView, pid: int, ppid: int, exitCode: int): (w: PcbView)
  {
    if WaitingParent(v, ppid) then v.(blockedCode := exitCode, numChildren := v.numChildren - 1)
    else if v.pid == ppid then v
    else if v.ppid == pid then v.(ppid := 0)
    else v
  }

  /** Whether the blocked sweep, among the first `n` PCBs, meets the parent blocked on something other than Wait. */
  function LiveParentSeen(vs: seq<PcbView>, ppid: int, n: nat): bool
    requires n <= |vs|
  {
    n > 0 && (LiveParentSeen(vs, ppid, n - 1) || (vs[n - 1].pid == ppid && vs[n - 1].blockedCode != BLOCKED_WAIT))
  }

  /** The blocked sweep reports the parent exactly when some PCB it visits is the parent and not waiting. */
  lemma {:induction false} LiveParentSeenExists(vs: seq<PcbView>, ppid: int, n: nat)
    requires n <= |vs|
    ensures LiveParentSeen(vs, ppid, n) <==> exists j :: 0 <= j < n && vs[j].pid == ppid && vs[j].blockedCode != BLOCKED_WAIT
  {
    if n > 0 {
      LiveParentSeenExists(vs, ppid, n - 1);
    }
  }

  /** One PCB of the blocked sweep, updated as ExitBlockedView says; `wake` when it is the waiting parent, `live` when it is the parent blocked on something else. */
  method ExitBlockedVisit(p: Pcb, pid: int, ppid: int, exitCode: int) returns (wake: bool, live: bool)
    modifies p`ppid, p`blockedCode, p`numChildren
    ensures ViewOf(p) == ExitBlockedView(old(ViewOf(p)), pid, ppid, exitCode)
    ensures wake == WaitingParent(old(ViewOf(p)), ppid)
    ensures live == (p.pid == ppid && old(p.blockedCode) != BLOCKED_WAIT)
  {
    wake := p.pid == ppid && p.blockedCode == BLOCKED_WAIT;
    live := p.pid == ppid && !wake;
    if wake {
      p.blockedCode := exitCode;
      p.numChildren := p.numChildren - 1;
    } else if p.pid != ppid && p.ppid == pid {
      p.ppid := 0;
    }
  }

  /** The state of the blocked sweep after `i` rounds. */
  ghost predicate BlockedSweepAt(blocked: Queue, ready: Queue, ps: seq<Pcb>, vs: seq<PcbView>, r0: seq<Pcb>,
                                 i: nat, pid: int, ppid: int, exitCode: int)
    reads blocked, ready, ps
  {
    i <= |ps| == |vs| && blocked.Valid() && ready.Valid() &&
    blocked.items == ps[i..] + Select(ps, Negate(WakeMask(vs, ppid)), i) &&
    ready.items == r0 + Select(ps, WakeMask(vs, ppid), i) &&
    (forall j :: 0 <= j < i ==> ViewOf(ps[j]) == ExitBlockedView(vs[j], pid, ppid, exitCode)) &&
    (forall j :: i <= j < |ps| ==> ViewOf(ps[j]) == vs[j])
  }

  /** One round of the blocked sweep: pop `ps[i]`, update it, re-add it to the queue it belongs on. */
  method ExitBlockedStep(blocked: Queue, ready: Queue, ghost ps: seq<Pcb>, ghost vs: seq<PcbView>,
                         ghost r0: seq<Pcb>, i: nat, pid: int, ppid: int, exitCode: int)
    returns (live: bool)
    requires blocked != ready && i < |ps| && Distinct(ps)
    requires BlockedSweepAt(blocked, ready, ps, vs, r0, i, pid, ppid, exitCode)
    modifies blocked, ready, {ps[i]}`ppid, {ps[i]}`blockedCode, {ps[i]}`numChildren
    ensures BlockedSweepAt(blocked, ready, ps, vs, r0, i + 1, pid, ppid, exitCode)
    ensures live == (vs[i].pid == ppid && vs[i].blockedCode != BLOCKED_WAIT)
  {
    ghost var m := WakeMask(vs, ppid);
    ghost var n := Negate(m);
    var p := PopVisit(blocked, ps, Select(ps, n, i), i);
    var wake;
    wake, live := ExitBlockedVisit(p, pid, ppid, exitCode);
    if wake {
      AddSelected(ready, r0, ps, m, i, p);
    } else {
      AddSelected(blocked, ps[i + 1..], ps, n, i, p);
    }
  }

  /**
   * The blocked-queue sweep of KernelExit (syscalls.c:165-202): a waiting parent moves to the
   * tail of the ready queue, everyone else is re-added to the blocked queue in order, each PCB
   * changes as ExitBlockedView says, and the result says whether the parent was met blocked
   * on something other than Wait.
   */
  method ExitBlockedSweep(blocked: Queue, ready: Queue, pid: int, ppid: int, exitCode: int)
    returns (sawParent: bool)
    requires blocked != ready && blocked.Valid() && ready.Valid() && Distinct(blocked.items)
    modifies blocked, ready, blocked.items`ppid, blocked.items`blockedCode, blocked.items`numChildren
    ensures BlockedSweepAt(blocked, ready, old(blocked.items), old(Views(blocked.items)), old(ready.items),
                           |old(blocked.items)|, pid, ppid, exitCode)
    ensures sawParent == LiveParentSeen(old(Views(blocked.items)), ppid, |old(blocked.items)|)
  {
    ghost var ps := blocked.items;
    ghost var vs := Views(ps);
    ghost var r0 := ready.items;
    var limit := blocked.size;
    var i := 0;
    sawParent := false;
    while i < limit
      invariant i <= limit == |ps|
      invariant BlockedSweepAt(blocked, ready, ps, vs, r0, i, pid, ppid, exitCode)
      invariant sawParent == LiveParentSeen(vs, ppid, i)
    {
      var live := ExitBlockedStep(blocked, ready, ps, vs, r0, i, pid, ppid, exitCode);
      sawParent := sawParent || live;
      i := i + 1;
    }
  }

  /** The blocked sweep leaves the PCBs of a queue that shares none with blocked as they were. */
  method ExitBlockedFramed(blocked: Queue, ready: Queue, ghost ds: seq<Pcb>, pid: int, ppid: int, exitCode: int)
    returns (sawParent: bool)
    requires blocked != ready && blocked.Valid() && ready.Valid() && Distinct(blocked.items)
    requires Disjoint(blocked.items, ds)
    modifies blocked, ready, blocked.items`ppid, blocked.items`blockedCode, blocked.items`numChildren
    ensures BlockedSweepAt(blocked, ready, old(blocked.items), old(Views(blocked.items)), old(ready.items),
                           |old(blocked.items)|, pid, ppid, exitCode)
    ensures sawParent == LiveParentSeen(old(Views(blocked.items)), ppid, |old(blocked.items)|)
    ensures Views(ds) == old(Views(ds))
  {
    sawParent := ExitBlockedSweep(blocked, ready, pid, ppid, exitCode);
  }

  function KeepMask(vs: seq<PcbView>, pid: int): (m: seq<bool>)
    ensures |m| == |vs| && forall j :: 0 <= j < |vs| ==> m[j] == (vs[j].ppid != pid)
  {
    seq(|vs|, j requires 0 <= j < |vs| => vs[j].ppid != pid)
  }

  /** One round of the defunct sweep: pop `ps[i]` and re-add it unless it is a child of `pid`. */
  method ExitDefunctStep(defunct: Queue, ghost ps: seq<Pcb>, ghost vs: seq<PcbView>, i: nat, pid: int)
    requires defunct.Valid() && i < |ps| == |vs| && ps[i].ppid == vs[i].ppid
    requires defunct.items == ps[i..] + Select(ps, KeepMask(vs, pid), i)
    modifies defunct
    ensures defunct.Valid() && defunct.items == ps[i + 1..] + Select(ps, KeepMask(vs, pid), i + 1)
  {
    ghost var m := KeepMask(vs, pid);
    var p := PopVisit(defunct, ps, Select(ps, m, i), i);
    if p.ppid != pid {
      AddSelected(defunct, ps[i + 1..], ps, m, i, p);
    }
  }

  /**
   * The defunct-queue sweep of KernelExit (syscalls.c:204-221): defunct children of the
   * exiting process are dropped, the others stay in order.
   */
  method ExitDefunctSweep(defunct: Queue, pid: int)
    requires defunct.Valid()
    modifies defunct
    ensures defunct.Valid()
    ensures var ps := old(defunct.items);
            defunct.items == Select(ps, KeepMask(old(Views(defunct.items)), pid), |ps|)
  {
    ghost var ps := defunct.items;
    ghost var vs := Views(ps);
    var limit := defunct.size;
    var i := 0;
    while i < limit
      invariant 0 <= i <= limit == |ps|
      invariant defunct.Valid()
      invariant defunct.items == ps[i..] + Select(ps, KeepMask(vs, pid), i)
    {
      ExitDefunctStep(defunct, ps, vs, i, pid);
      i := i + 1;
    }
    assert ps[i..] == [];
  }

  /**
   * The queues after the three sweeps of KernelExit for an exiting process `pid` whose parent is
   * `ppid`, given the ready, blocked and defunct queues `rs`, `bs`, `ds` and their views before:
   * a waiting parent has moved from blocked to the tail of ready with the exit code as its
   * blocked code and one child fewer, children on ready and blocked are orphaned, defunct
   * children are dropped, and `sawParent` says whether a parent that is not waiting was met.
   */
  ghost predicate ExitSwept(ready: Queue, blocked: Queue, defunct: Queue,
                            rs: seq<Pcb>, rv: seq<PcbView>, bs: seq<Pcb>, bv: seq<PcbView>, ds: seq<Pcb>, dv: seq<PcbView>,
                            pid: int, ppid: int, exitCode: int, sawParent: bool)
    reads ready, blocked, defunct, rs, bs
  {
    |rv| == |rs| && |bv| == |bs| && |dv| == |ds| &&
    BlockedSweepAt(blocked, ready, bs, bv, rs, |bs|, pid, ppid, exitCode) &&
    defunct.items == Select(ds, KeepMask(dv, pid), |ds|) &&
    (forall j :: 0 <= j < |rs| ==> rs[j].ppid == Orphaned(rv[j].ppid, pid)) &&
    sawParent == (ParentSeen(rv, pid, ppid, |rs|) || LiveParentSeen(bv, ppid, |bs|))
  }

  /**
   * The three sweeps of KernelExit (syscalls.c:137-222), over queues that share no PCB.
   */
  method ExitSweeps(ready: Queue, blocked: Queue, defunct: Queue, pid: int, ppid: int, exitCode: int)
    returns (sawParent: bool)
    requires ready != blocked && ready != defunct && blocked != defunct
    requires ready.Valid() && blocked.Valid() && defunct.Valid()
    requires Distinct(ready.items) && Distinct(blocked.items)
    requires Disjoint(ready.items, blocked.items) && Disjoint(ready.items, defunct.items)
    requires Disjoint(blocked.items, defunct.items)
    modifies ready, blocked, defunct
    modifies ready.items`ppid, blocked.items`ppid, blocked.items`blockedCode, blocked.items`numChildren
    ensures ready.Valid() && blocked.Valid() && defunct.Valid()
    ensures ExitSwept(ready, blocked, defunct, old(ready.items), old(Views(ready.items)), old(blocked.items),
                      old(Views(blocked.items)), old(defunct.items), old(Views(defunct.items)), pid, ppid, exitCode, sawParent)
  {
    ghost var bs, bv := blocked.items, Views(blocked.items);
    ghost var ds, dv := defunct.items, Views(defunct.items);
    var inReady := ExitReadyFramed(ready, bs, ds, pid, ppid);
    var inBlocked := ExitBlockedFramed(blocked, ready, ds, pid, ppid, exitCode);
    ExitDefunctSweep(defunct, pid);
    sawParent := inReady || inBlocked;
  }

  /** Recording the exit code of a PCB that is on none of the queues leaves their PCBs as they were. */
  method RecordExitCode(p: Pcb, exitCode: int, ghost rs: seq<Pcb>, ghost bs: seq<Pcb>, ghost ds: seq<Pcb>)
    requires p !in rs && p !in bs && p !in ds
    modifies p`exitCode
    ensures p.exitCode == exitCode
    ensures Views(rs) == old(Views(rs)) && Views(bs) == old(Views(bs)) && Views(ds) == old(Views(ds))
  {
    p.exitCode := exitCode;
  }

  /**
   * KernelExit (syscalls.c:122-248), up to its call of SwapProcess. With a NULL user context it
   * fails and changes nothing. Otherwise it records the exit code and, when the process has a
   * parent or children, runs the sweeps. The process is then disposed of (delete_process, or
   * free_addr_space when a parent that is not waiting was met; `disposalOk` is their outcome)
   * and SwapProcess parks it on the defunct queue in the second case and on no queue in the first.
   */
  method KernelExit(k: Kernel, exitCode: int, uctxt: Option<UserContext>, disposalOk: bool) returns (next: Next)
    requires k.QueuesOk() && k.active != null
    requires Distinct(k.ready.items) && Distinct(k.blocked.items)
    requires Disjoint(k.ready.items, k.blocked.items) && Disjoint(k.ready.items, k.defunct.items)
    requires Disjoint(k.blocked.items, k.defunct.items)
    requires k.active !in k.ready.items && k.active !in k.blocked.items && k.active !in k.defunct.items
    modifies k.active`exitCode, k.ready, k.blocked, k.defunct
    modifies k.ready.items`ppid, k.blocked.items`ppid, k.blocked.items`blockedCode, k.blocked.items`numChildren
    ensures k.QueuesOk()
    ensures uctxt.None? ==> next == Returns(ERROR) && k.active.exitCode == old(k.active.exitCode)
    ensures uctxt.Some? ==> k.active.exitCode == exitCode
    ensures uctxt.None? || !old(k.active.ppid != 0 || k.active.numChildren > 0) ==>
              k.ready.items == old(k.ready.items) && k.blocked.items == old(k.blocked.items) &&
              k.defunct.items == old(k.defunct.items) &&
              unchanged(k.ready.items) && unchanged(k.blocked.items)
    ensures uctxt.Some? && !old(k.active.ppid != 0 || k.active.numChildren > 0) ==>
              next == if disposalOk then SwapsTo(null) else Returns(ERROR)
    ensures uctxt.Some? && old(k.active.ppid != 0 || k.active.numChildren > 0) ==>
              exists sawParent ::
                ExitSwept(k.ready, k.blocked, k.defunct, old(k.ready.items), old(Views(k.ready.items)),
                          old(k.blocked.items), old(Views(k.blocked.items)), old(k.defunct.items),
                          old(Views(k.defunct.items)), old(k.active.pid), old(k.active.ppid), exitCode, sawParent) &&
                next == if !disposalOk then Returns(ERROR) else if sawParent then SwapsTo(k.defunct) else SwapsTo(null)
  {
    if uctxt.None? {
      return Returns(ERROR);
    }
    var active := k.active;
    RecordExitCode(active, exitCode, k.ready.items, k.blocked.items, k.defunct.items);
    var sawParent := false;
    if active.ppid != 0 || active.numChildren > 0 {
      sawParent := ExitSweeps(k.ready, k.blocked, k.defunct, active.pid, active.ppid, exitCode);
    }
    if !disposalOk {
      return Returns(ERROR);
    }
    next := SwapsTo(if sawParent then k.defunct else null);
  }

  // ---------------------------------------------------------------------------------------
  // KernelWait

  /** The position of the first PCB (as viewed) whose parent is `pid`, or -1 when there is none. */
  function FirstChild(vs: seq<PcbView>, pid: int): (c: int)
    ensures -1 <= c < |vs|
    ensures c >= 0 ==> vs[c].ppid == pid
    ensures forall j :: 0 <= j < |vs| && (c < 0 || j < c) ==> vs[j].ppid != pid
  {
    if |vs| == 0 then -1
    else if vs[0].ppid == pid then 0
    else
      var c := FirstChild(vs[1..], pid);
      if c < 0 then -1 else c + 1
  }

  /**
   * Taking the first child out of the defunct queue, as the scan does, leaves every other
   * defunct PCB in the queue: the queue loses exactly that one entry.
   */
  lemma TakeOneLeavesRest(ds: seq<Pcb>, c: nat)
    requires c < |ds|
    ensures multiset(ds[c + 1..] + ds[..c]) + multiset{ds[c]} == multiset(ds)
    ensures |ds[c + 1..] + ds[..c]| == |ds| - 1
  {
    assert ds == ds[..c] + [ds[c]] + ds[c + 1..];
  }

  /**
   * The defunct-queue scan of KernelWait (syscalls.c:264-286): pop each defunct PCB in turn;
   * the first whose parent is `pid` is handed back and not re-added, so the queue keeps the
   * ones after it followed by the ones before it; with no such PCB the queue ends as it began.
   */
  method ScanDefunct(defunct: Queue, pid: int) returns (child: Pcb?)
    requires defunct.Valid()
    modifies defunct
    ensures defunct.Valid()
    ensures var ds, c := old(defunct.items), FirstChild(old(Views(defunct.items)), pid);
            (c < 0 ==> child == null && defunct.items == ds) &&
            (c >= 0 ==> child == ds[c] && defunct.items == ds[c + 1..] + ds[..c])
  {
    ghost var ds := defunct.items;
    ghost var vs := Views(ds);
    var limit := defunct.size;
    var i := 0;
    while i < limit
      invariant 0 <= i <= limit == |ds|
      invariant defunct.Valid() && defunct.items == ds[i..] + ds[..i]
      invariant forall j :: 0 <= j < i ==> vs[j].ppid != pid
    {
      var d := PopRotated(defunct, ds, i);
      if d.ppid == pid {
        return d;
      }
      AddRotated(defunct, ds, i, d);
      i := i + 1;
    }
    assert ds[i..] == [] && ds[..i] == ds;
    return null;
  }

  /**
   * KernelWait (syscalls.c:256-296), up to its call of SwapProcess. `statusPtr` is the
   * caller's int, as a one-element array. The C code writes ERROR through it before failing,
   * also when it is NULL (Wait(NULL) writes through a NULL pointer), so it must not be NULL.
   * With no children the result is ERROR. Otherwise the first defunct child is taken off the
   * defunct queue, the caller loses a child and gets the child's exit code as status, and the
   * result is 0; with no defunct child the caller is marked BLOCKED_WAIT and parks on the
   * blocked queue.
   */
  method KernelWait(k: Kernel, statusPtr: array?<int>) returns (next: Next)
    requires statusPtr != null && statusPtr.Length > 0
    requires k.QueuesOk() && k.active != null
    modifies statusPtr, k.defunct, k.active`numChildren, k.active`blockedCode
    ensures k.QueuesOk()
    ensures old(k.active.numChildren) == 0 ==>
              next == Returns(ERROR) && statusPtr[0] == ERROR && k.defunct.items == old(k.defunct.items) &&
              k.active.numChildren == 0 && k.active.blockedCode == old(k.active.blockedCode)
    ensures old(k.active.numChildren) != 0 ==>
              var ds, vs := old(k.defunct.items), old(Views(k.defunct.items));
              var c := FirstChild(vs, k.active.pid);
              if c >= 0 then
                next == Returns(0) && k.defunct.items == ds[c + 1..] + ds[..c] &&
                statusPtr[0] == vs[c].exitCode &&
                k.active.numChildren == old(k.active.numChildren) - 1 &&
                k.active.blockedCode == old(k.active.blockedCode)
              else
                next == SwapsTo(k.blocked) && k.defunct.items == ds && statusPtr[0] == old(statusPtr[0]) &&
                k.active.numChildren == old(k.active.numChildren) && k.active.blockedCode == BLOCKED_WAIT
  {
    var active := k.active;
    if active.numChildren == 0 {
      statusPtr[0] := ERROR;
      return Returns(ERROR);
    }
    var child := ScanDefunct(k.defunct, active.pid);
    if child != null {
      active.numChildren := active.numChildren - 1;
      statusPtr[0] := child.exitCode;
      return Returns(0);
    }
    active.blockedCode := BLOCKED_WAIT;
    next := SwapsTo(k.blocked);
  }

  /**
   * The end of KernelWait once the caller runs again (syscalls.c:299-303): when the process
   * that resumes is the one that waited, the blocked code its child's KernelExit left there
   * (the exit code) becomes the status and the process is no longer blocked. The result is 0.
   */
  method KernelWaitResumed(active: Pcb, waiterPid: int, statusPtr: array<int>) returns (rc: int)
    requires statusPtr.Length > 0
    modifies statusPtr, active`blockedCode
    ensures rc == 0
    ensures active.pid == waiterPid ==> statusPtr[0] == old(active.blockedCode) && active.blockedCode == NOT_BLOCKED
    ensures active.pid != waiterPid ==> statusPtr[0] == old(statusPtr[0]) && active.blockedCode == old(active.blockedCode)
  {
    if active.pid == waiterPid {
      statusPtr[0] := active.blockedCode;
      active.blockedCode := NOT_BLOCKED;
    }
    rc := 0;
  }

  /**
   * KernelExit's blocked sweep followed by the end of the parent's KernelWait: a parent
   * blocked in Wait leaves the blocked queue for the ready queue with one child fewer, and
   * when it runs again the status its Wait reports is the child's exit code and it is no
   * longer blocked.
   */
  method ExitWakesWaitingParent(blocked: Queue, ready: Queue, pid: int, exitCode: int, parent: Pcb,
                                statusPtr: array<int>) returns (rc: int)
    requires blocked != ready && blocked.Valid() && ready.Valid() && Distinct(blocked.items)
    requires parent in blocked.items && parent.blockedCode == BLOCKED_WAIT && statusPtr.Length > 0
    modifies blocked, ready, blocked.items`ppid, blocked.items`blockedCode, blocked.items`numChildren, statusPtr
    ensures rc == 0 && statusPtr[0] == exitCode && parent.blockedCode == NOT_BLOCKED
    ensures parent.numChildren == old(parent.numChildren) - 1
    ensures parent in ready.items && parent !in blocked.items
  {
    ghost var ps, vs := blocked.items, Views(blocked.items);
    ghost var j0 :| 0 <= j0 < |ps| && ps[j0] == parent;
    var ppid := parent.pid;
    var _ := ExitBlockedSweep(blocked, ready, pid, ppid, exitCode);
    ghost var m := WakeMask(vs, ppid);
    assert m[j0];
    SelectMember(ps, m, |ps|, parent);
    SelectMember(ps, Negate(m), |ps|, parent);
    assert ps[|ps|..] == [];
    rc := KernelWaitResumed(parent, ppid, statusPtr);
  }

  // ---------------------------------------------------------------------------------------
  // KernelGetPid, KernelGetPPid, KernelDelay

  /** KernelGetPid (syscalls.c:311-316): ERROR with no active process, else its pid. */
  function KernelGetPid(k: Kernel): (r: int)
    reads k, k.active
    ensures k.active == null ==> r == ERROR
    ensures k.active != null ==> r == k.active.pid
  {
    if k.active == null then ERROR else k.active.pid
  }

  /** KernelGetPPid (syscalls.c:323-328): ERROR with no active process, else its parent's pid. */
  function KernelGetPPid(k: Kernel): (r: int)
    reads k, k.active
    ensures k.active == null ==> r == ERROR
    ensures k.active != null ==> r == k.active.ppid
  {
    if k.active == null then ERROR else k.active.ppid
  }

  /**
   * KernelDelay (syscalls.c:423-441), up to its call of SwapProcess: 0 ticks returns 0 and a
   * negative count ERROR, both with nothing changed; otherwise the caller records the tick
   * count and BLOCKED_DELAY and parks on the blocked queue.
   */
  method KernelDelay(k: Kernel, clockTicks: int) returns (next: Next)
    requires k.active != null
    modifies k.active`clockTicks, k.active`blockedCode
    ensures clockTicks <= 0 ==>
              next == Returns(if clockTicks == 0 then 0 else ERROR) &&
              k.active.clockTicks == old(k.active.clockTicks) && k.active.blockedCode == old(k.active.blockedCode)
    ensures clockTicks > 0 ==>
              next == SwapsTo(k.blocked) && k.active.clockTicks == clockTicks && k.active.blockedCode == BLOCKED_DELAY
  {
    if clockTicks == 0 {
      return Returns(0);
    } else if clockTicks < 0 {
      return Returns(ERROR);
    }
    k.active.clockTicks := clockTicks;
    k.active.blockedCode := BLOCKED_DELAY;
    next := SwapsTo(k.blocked);
  }

  // ---------------------------------------------------------------------------------------
  // KernelFork

  /**
   * KernelFork (syscalls.c:22-78), up to its call of KernelContextSwitch. `uctxt` is the user
   * context (None: NULL), `child` what init_process returned, `copyOk` whether CopyUPT
   * succeeded and `nodeOk` whether queue_add could allocate its node. The window is the
   * highest invalid region-0 entry at or below the kernel stack base (the search KCCopy also
   * makes); it is marked valid and read-write for CopyUPT, keeping its frame number. When
   * CopyUPT fails the result is ERROR and the window stays reserved; otherwise the window is
   * reset to the invalid entry, the child joins the tail of the ready queue, and the kernel
   * switches to it with KCCopy.
   */
  method KernelFork(k: Kernel, uctxt: Option<UserContext>, child: Pcb?, copyOk: bool, nodeOk: bool,
                    stackBase: int) returns (next: Next)
    requires k.ready.Valid() && -1 <= stackBase < k.kpt.Length
    modifies k.kpt, k.ready
    ensures k.ready.Valid()
    ensures uctxt.None? || child == null ==>
              next == Returns(ERROR) && k.kpt[..] == old(k.kpt[..]) && k.ready.items == old(k.ready.items)
    ensures uctxt.Some? && child != null ==>
              var w := ContextSwitch.HighestInvalid(old(k.kpt[..]), stackBase);
              (w < 0 ==> next == Returns(ERROR) && k.kpt[..] == old(k.kpt[..]) &&
                         k.ready.items == old(k.ready.items)) &&
              (w >= 0 && !copyOk ==> next == Returns(ERROR) && k.ready.items == old(k.ready.items) &&
                                     k.kpt[..] == old(k.kpt[..])[w := PTE(true, old(k.kpt[w].pfn), NO_X_W_R)]) &&
              (w >= 0 && copyOk ==> k.kpt[..] == old(k.kpt[..])[w := INVALID_PTE] &&
                                    (nodeOk ==> next == CopiesTo(child) && k.ready.items == old(k.ready.items) + [child]) &&
                                    (!nodeOk ==> next == Returns(ERROR) && k.ready.items == old(k.ready.items)))
  {
    if uctxt.None? || child == null {
      return Returns(ERROR);
    }
    var w := ContextSwitch.FindWindow(k.kpt, stackBase);
    if w == -1 {
      return Returns(ERROR);
    }
    k.kpt[w] := k.kpt[w].(valid := true, prot := NO_X_W_R);
    if !copyOk {
      return Returns(ERROR);
    }
    k.kpt[w] := INVALID_PTE;
    var rc := QueueAdd(k.ready, child, child.pid, nodeOk);
    if rc == ERROR {
      return Returns(ERROR);
    }
    next := CopiesTo(child);
  }
}
