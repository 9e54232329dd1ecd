// not-implemented-traphandlers.c: the clock-tick handler, which checks the running queue,
// counts down the delay clocks of the blocked PCBs (moving the due ones to the ready queue)
// and rotates the head of the ready queue into the running queue; and the running-queue
// drafts of KernelGetPid and KernelDelay. Halt and KernelContextSwitch are outcomes (`Next`).

module TrapHandlers {
  import opened Defs
  import opened Process
  import opened Queues
  import opened State
  import opened Sweeps

  // ---------------------------------------------------------------------------------------
  // Delay clocks

  /**
   * What one clock tick does to the delay clock of a blocked PCB: a positive count goes down
   * by one; a zero count (the PCB is due and moves to the ready queue) and a negative count
   * stay as they are.
   */
  function Tick(d: int): int
  {
    if d > 0 then d - 1 else d
  }

  /** The delay clock after `n` ticks. */
  function Ticks(d: int, n: nat): int
  {
    if n == 0 then d else Ticks(Tick(d), n - 1)
  }

  /**
   * A non-negative delay clock counts down by one per tick and then stays at zero; a negative
   * one never changes.
   */
  lemma {:induction false} TicksCountDown(d: int, n: nat)
    ensures d >= 0 ==> Ticks(d, n) == (if n <= d then d - n else 0)
    ensures d < 0 ==> Ticks(d, n) == d
  {
    if n > 0 {
      TicksCountDown(Tick(d), n - 1);
    }
  }

  /**
   * A PCB blocked with delay clock `d >= 0` is due (its clock reads zero, so the next sweep
   * moves it to the ready queue) after exactly `d` ticks and not before; one with a negative
   * clock is never due.
   */
  lemma {:induction false} DueAfterExactly(d: int, n: nat)
    ensures d >= 0 ==> (Ticks(d, n) == 0 <==> n >= d)
    ensures d < 0 ==> Ticks(d, n) != 0
  {
    TicksCountDown(d, n);
  }

  /** Which PCBs the sweep moves to the ready queue: those whose delay clock reads zero. */
  function DueMask(vs: seq<PcbView>): (m: seq<bool>)
    ensures |m| == |vs| && forall j :: 0 <= j < |vs| ==> m[j] == (vs[j].delayClock == 0)
  {
    seq(|vs|, j requires 0 <= j < |vs| => vs[j].delayClock == 0)
  }

  /**
   * The state of the delay sweep over blocked PCBs `ps` (views `vs` before it) after `i`
   * rounds, the ready queue having held `r0`: the unvisited PCBs are ahead of the visited ones
   * that stay, in order; the due ones have been appended to the ready queue, in order; the
   * visited PCBs' delay clocks have ticked and the others' have not.
   */
  ghost predicate DelaySweepAt(blocked: Queue, ready: Queue, ps: seq<Pcb>, vs: seq<PcbView>, r0: seq<Pcb>, i: nat)
    reads blocked, ready, ps
  {
    i <= |ps| == |vs| && blocked.Valid() && ready.Valid() &&
    blocked.items == ps[i..] + Select(ps, Negate(DueMask(vs)), i) &&
    ready.items == r0 + Select(ps, DueMask(vs), i) &&
    (forall j :: 0 <= j < i ==> ps[j].delayClock == Tick(vs[j].delayClock)) &&
    (forall j :: i <= j < |ps| ==> ps[j].delayClock == vs[j].delayClock)
  }

  /**
   * The sweep loses and duplicates nothing: the blocked and ready queues afterwards hold, with
   * multiplicity, the PCBs that were blocked and the PCBs that were ready, and the sweep leaves
   * blocked exactly as many PCBs as it did not move.
   */
  lemma DelaySweepKeepsEveryPcb(blocked: Queue, ready: Queue, ps: seq<Pcb>, vs: seq<PcbView>, r0: seq<Pcb>)
    requires DelaySweepAt(blocked, ready, ps, vs, r0, |ps|)
    ensures multiset(blocked.items) + multiset(ready.items) == multiset(ps) + multiset(r0)
    ensures |blocked.items| + |ready.items| == |ps| + |r0|
  {
    var m := DueMask(vs);
    assert ps[|ps|..] == [];
    SplitKeepsEvery(ps, m, r0, blocked.items, ready.items);
  }

  /** Splitting `ps` by a mask between a queue `b` and the tail of a queue `r` after `r0` keeps every element. */
  lemma SplitKeepsEvery<T>(ps: seq<T>, m: seq<bool>, r0: seq<T>, b: seq<T>, r: seq<T>)
    requires |m| == |ps| && b == Select(ps, Negate(m), |ps|) && r == r0 + Select(ps, m, |ps|)
    ensures multiset(b) + multiset(r) == multiset(ps) + multiset(r0)
    ensures |b| + |r| == |ps| + |r0|
  {
    SelectSplits(ps, m, Negate(m), |ps|);
    SelectSplitsLength(ps, m, Negate(m), |ps|);
    assert ps[..|ps|] == ps;
  }

  /** One round of the delay sweep: pop `ps[i]`, tick its clock, re-add it where it belongs. */
  method DelayStep(blocked: Queue, ready: Queue, ghost ps: seq<Pcb>, ghost vs: seq<PcbView>,
                   ghost r0: seq<Pcb>, i: nat)
    requires blocked != ready && i < |ps| && Distinct(ps)
    requires DelaySweepAt(blocked, ready, ps, vs, r0, i)
    modifies blocked, ready, {ps[i]}`delayClock
    ensures DelaySweepAt(blocked, ready, ps, vs, r0, i + 1)
  {
    ghost var m := DueMask(vs);
    ghost var n := Negate(m);
    var p := PopVisit(blocked, ps, Select(ps, n, i), i);
    if p.delayClock > 0 {
      p.delayClock := p.delayClock - 1;
      AddSelected(blocked, ps[i + 1..], ps, n, i, p);
    } else if p.delayClock == 0 {
      AddSelected(ready, r0, ps, m, i, p);
    } else {
      AddSelected(blocked, ps[i + 1..], ps, n, i, p);
    }
  }

  /**
   * The blocked-queue sweep of the clock handler (not-implemented-traphandlers.c:104-131):
   * every blocked PCB is visited once; a positive delay clock is decremented and the PCB stays
   * blocked; a zero clock moves the PCB to the tail of the ready queue; a negative clock is left
   * as it is and the PCB stays blocked. The PCBs that stay keep their order, and so do those
   * that move.
   */
  method DelaySweep(blocked: Queue, ready: Queue)
    requires blocked != ready && blocked.Valid() && ready.Valid() && Distinct(blocked.items)
    modifies blocked, ready, blocked.items`delayClock
    ensures DelaySweepAt(blocked, ready, old(blocked.items), old(Views(blocked.items)), old(ready.items),
                         |old(blocked.items)|)
  {
    ghost var ps := blocked.items;
    ghost var vs := Views(ps);
    ghost var r0 := ready.items;
    var size := blocked.size;
    var index := 0;
    while index < size
      invariant index <= size == |ps|
      invariant DelaySweepAt(blocked, ready, ps, vs, r0, index)
    {
      DelayStep(blocked, ready, ps, vs, r0, index);
      index := index + 1;
    }
  }

  /** The delay sweep leaves the PCBs of a queue that shares none with blocked as they were. */
  method DelaySweepFramed(blocked: Queue, ready: Queue, ghost rs: seq<Pcb>)
    requires blocked != ready && blocked.Valid() && ready.Valid() && Distinct(blocked.items)
    requires Disjoint(blocked.items, rs)
    modifies blocked, ready, blocked.items`delayClock
    ensures DelaySweepAt(blocked, ready, old(blocked.items), old(Views(blocked.items)), old(ready.items),
                         |old(blocked.items)|)
    ensures Views(rs) == old(Views(rs))
  {
    DelaySweep(blocked, ready);
  }

  // ---------------------------------------------------------------------------------------
  // The clock handler

  /**
   * The running-queue check that opens the clock handler and its siblings
   * (not-implemented-traphandlers.c:92-101): with exactly one running PCB it is popped and
   * re-added, so the queue ends as it began, and returned; any other size halts the machine
   * (returned as null here).
   */
  method CheckRunning(running: Queue) returns (curr: Pcb?)
    requires running.Valid()
    modifies running
    ensures running.Valid() && running.items == old(running.items)
    ensures curr != null <==> |running.items| == 1
    ensures curr != null ==> curr == running.items[0]
  {
    if running.size != 1 {
      return null;
    }
    curr := running.Pop();
    running.Add(curr, curr.pid);
  }

  /** What the clock handler does to the only running PCB's delay clock when nothing is ready. */
  function IdleTick(d: int): int
  {
    if d < 0 then d - 1 else d
  }

  /**
   * The rotation at the end of the clock handler (not-implemented-traphandlers.c:134-182),
   * up to KernelContextSwitch: with a PCB ready, its head is popped and appended to the running
   * queue, the current PCB is appended to the ready queue and gets the trap's user context,
   * and the handler switches from the current PCB to the popped one (until the switch comes
   * back, the current PCB is on both queues). With nothing ready, a negative delay clock of the
   * current PCB is decremented and the handler returns.
   */
  method RotateReady(running: Queue, ready: Queue, curr: Pcb, ctx: UserContext) returns (next: Next)
    requires running != ready && running.Valid() && ready.Valid() && running.items == [curr]
    modifies running, ready, curr`userContext, curr`delayClock
    ensures running.Valid() && ready.Valid()
    ensures var r := old(ready.items);
            if r != [] then
              next == SwitchesTo(curr, r[0]) && running.items == [curr, r[0]] && ready.items == r[1..] + [curr] &&
              curr.userContext == ctx && curr.delayClock == old(curr.delayClock)
            else
              next == Returns(0) && running.items == [curr] && ready.items == [] &&
              curr.userContext == old(curr.userContext) && curr.delayClock == IdleTick(old(curr.delayClock))
  {
    if ready.size >= 1 {
      var nextProc := ready.Pop();
      running.Add(nextProc, nextProc.pid);
      ready.Add(curr, curr.pid);
      curr.userContext := ctx;
      next := SwitchesTo(curr, nextProc);
    } else {
      if curr.delayClock < 0 {
        curr.delayClock := curr.delayClock - 1;
      }
      next := Returns(0);
    }
  }

  /** The rotation leaves the delay clocks of PCBs other than the current one as they were. */
  method RotateReadyFramed(running: Queue, ready: Queue, curr: Pcb, ctx: UserContext, ghost ps: seq<Pcb>)
      returns (next: Next)
    requires running != ready && running.Valid() && ready.Valid() && running.items == [curr]
    requires forall j :: 0 <= j < |ps| ==> ps[j] != curr
    modifies running, ready, curr`userContext, curr`delayClock
    ensures running.Valid() && ready.Valid()
    ensures var r := old(ready.items);
            if r != [] then
              next == SwitchesTo(curr, r[0]) && running.items == [curr, r[0]] && ready.items == r[1..] + [curr] &&
              curr.userContext == ctx && curr.delayClock == old(curr.delayClock)
            else
              next == Returns(0) && running.items == [curr] && ready.items == [] &&
              curr.userContext == old(curr.userContext) && curr.delayClock == IdleTick(old(curr.delayClock))
    ensures forall j :: 0 <= j < |ps| ==> ps[j].delayClock == old(ps[j].delayClock)
  {
    next := RotateReady(running, ready, curr, ctx);
  }

  /**
   * The clock handler once exactly one PCB, `curr`, runs (not-implemented-traphandlers.c:104-184):
   * the blocked PCBs are swept as DelaySweep says and the ready queue, now ending with the due
   * PCBs, is rotated as RotateReady says.
   */
  method SweepAndRotate(k: Kernel, curr: Pcb, ctx: UserContext) returns (next: Next)
    requires k.running != k.ready && k.running != k.blocked && k.ready != k.blocked
    requires k.running.Valid() && k.ready.Valid() && k.blocked.Valid() && k.running.items == [curr]
    requires Distinct(k.blocked.items) && Disjoint(k.running.items, k.blocked.items)
    modifies k.running, k.ready, k.blocked, k.blocked.items`delayClock, curr`userContext, curr`delayClock
    ensures var ps, vs := old(k.blocked.items), old(Views(k.blocked.items));
            var r := old(k.ready.items) + Select(ps, DueMask(vs), |ps|);
            k.blocked.items == Select(ps, Negate(DueMask(vs)), |ps|) &&
            (forall j :: 0 <= j < |ps| ==> ps[j].delayClock == Tick(vs[j].delayClock)) &&
            if r != [] then
              next == SwitchesTo(curr, r[0]) && k.running.items == [curr, r[0]] &&
              k.ready.items == r[1..] + [curr] && curr.userContext == ctx &&
              curr.delayClock == old(curr.delayClock)
            else
              next == Returns(0) && k.running.items == [curr] && k.ready.items == [] &&
              curr.delayClock == IdleTick(old(curr.delayClock)) && curr.userContext == old(curr.userContext)
  {
    ghost var ps := k.blocked.items;
    assert k.running.items[0] == curr;
    assert forall j :: 0 <= j < |ps| ==> ps[j] != curr;
    DelaySweepFramed(k.blocked, k.ready, k.running.items);
    assert ps[|ps|..] == [];
    assert curr.userContext == old(curr.userContext) && curr.delayClock == old(curr.delayClock);
    ghost var r := k.ready.items;
    next := RotateReadyFramed(k.running, k.ready, curr, ctx, ps);
    assert r == old(k.ready.items) + Select(ps, DueMask(old(Views(k.blocked.items))), |ps|);
  }

  /**
   * TrapClockHandler (not-implemented-traphandlers.c:88-184), up to KernelContextSwitch, for
   * running, ready and blocked queues that are distinct, with no PCB both running and blocked.
   * A running queue that does not hold exactly one PCB halts the machine with nothing
   * changed. Otherwise the handler goes on as SweepAndRotate says.
   */
  method TrapClockHandler(k: Kernel, ctx: UserContext) returns (next: Next)
    requires k.running != k.ready && k.running != k.blocked && k.ready != k.blocked
    requires k.running.Valid() && k.ready.Valid() && k.blocked.Valid()
    requires Distinct(k.blocked.items) && Disjoint(k.running.items, k.blocked.items)
    modifies k.running, k.ready, k.blocked, k.blocked.items`delayClock
    modifies k.running.items`userContext, k.running.items`delayClock
    ensures |old(k.running.items)| != 1 ==>
              next == Halts && k.running.items == old(k.running.items) &&
              k.ready.items == old(k.ready.items) && k.blocked.items == old(k.blocked.items) &&
              (forall p :: p in old(k.blocked.items) ==> p.delayClock == old(p.delayClock)) &&
              (forall p :: p in old(k.running.items) ==>
                 p.delayClock == old(p.delayClock) && p.userContext == old(p.userContext))
    ensures |old(k.running.items)| == 1 ==>
              var curr, ps, vs := old(k.running.items[0]), old(k.blocked.items), old(Views(k.blocked.items));
              var r := old(k.ready.items) + Select(ps, DueMask(vs), |ps|);
              k.blocked.items == Select(ps, Negate(DueMask(vs)), |ps|) &&
              (forall j :: 0 <= j < |ps| ==> ps[j].delayClock == Tick(vs[j].delayClock)) &&
              if r != [] then
                next == SwitchesTo(curr, r[0]) && k.running.items == [curr, r[0]] &&
                k.ready.items == r[1..] + [curr] && curr.userContext == ctx &&
                curr.delayClock == old(curr.delayClock)
              else
                next == Returns(0) && k.running.items == [curr] && k.ready.items == [] &&
                curr.delayClock == IdleTick(old(curr.delayClock)) && curr.userContext == old(curr.userContext)
  {
    var curr := CheckRunning(k.running);
    if curr == null {
      return Halts;
    }
    next := SweepAndRotate(k, curr, ctx);
  }

  // ---------------------------------------------------------------------------------------
  // The running-queue drafts of KernelGetPid and KernelDelay

  /**
   * KernelGetPid (not-implemented-traphandlers.c:391-403): the head of the running queue is
   * popped and re-added and its pid returned. A size other than one is only reported, so the
   * queue must not be empty (the C code then dereferences NULL); with one running PCB, as the
   * scheduler keeps it, the queue ends as it began.
   */
  method KernelGetPid(running: Queue) returns (pid: int)
    requires running.Valid() && running.items != []
    modifies running
    ensures running.Valid()
    ensures pid == old(running.items[0]).pid
    ensures running.items == old(running.items[1..]) + [old(running.items[0])]
    ensures |old(running.items)| == 1 ==> running.items == old(running.items)
  {
    var curr := running.Pop();
    running.Add(curr, curr.pid);
    pid := curr.pid;
  }

  /**
   * The KernelDelay draft (not-implemented-traphandlers.c:511-547): 0 ticks returns 0 and a
   * negative count ERROR, both with nothing changed. Otherwise the head of the running queue
   * (which must exist: the C code dereferences it) is popped and re-added, its delay clock
   * is set to the tick count, and the draft returns 0 without blocking it.
   */
  method KernelDelay(running: Queue, clockTicks: int) returns (rc: int)
    requires running.Valid() && (clockTicks > 0 ==> running.items != [])
    modifies running, running.items`delayClock
    ensures running.Valid()
    ensures clockTicks <= 0 ==>
              rc == (if clockTicks == 0 then 0 else ERROR) && running.items == old(running.items) &&
              forall p :: p in running.items ==> p.delayClock == old(p.delayClock)
    ensures clockTicks > 0 ==>
              rc == 0 && running.items == old(running.items[1..]) + [old(running.items[0])] &&
              running.items[|running.items| - 1].delayClock == clockTicks &&
              (|old(running.items)| == 1 ==> running.items == old(running.items)) &&
              forall p :: p in old(running.items) && p != old(running.items[0]) ==> p.delayClock == old(p.delayClock)
  {
    if clockTicks == 0 {
      return 0;
    } else if clockTicks < 0 {
      return ERROR;
    }
    var curr := running.Pop();
    running.Add(curr, curr.pid);
    curr.delayClock := clockTicks;
    rc := 0;
  }
}
