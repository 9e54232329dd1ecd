// The kernel's global state: the scheduling queues, the active PCB, the region-0 page table
// and frame bit vector, the kernel break, the terminal buffers and queues, and the physical
// frames handed out by the hardware library's AllocatePFN / DeallocatePFN.

module State {
  import opened Defs
  import opened Process
  import opened Queues

  /**
   * Physical memory as the kernel library presents it: the frames AllocatePFN may hand out,
   * kept as a free list, and the contents of every frame (one int per byte).
   */
  class PhysMem {
    var freeList: seq<int>
    var frames: map<int, seq<int>>

    /** The free frames. */
    function Free(): (s: set<int>)
      reads this
      ensures forall f :: f in s <==> f in freeList
    {
      set f | f in freeList
    }

    /** Frame numbers are never negative, so ERROR (-1) is never a frame; none is listed twice. */
    ghost predicate Valid()
      reads this
    {
      (forall i :: 0 <= i < |freeList| ==> 0 <= freeList[i]) &&
      (forall i, j :: 0 <= i < j < |freeList| ==> freeList[i] != freeList[j])
    }

    constructor (freeList: seq<int>, frames: map<int, seq<int>>)
      requires forall i :: 0 <= i < |freeList| ==> 0 <= freeList[i]
      requires forall i, j :: 0 <= i < j < |freeList| ==> freeList[i] != freeList[j]
      ensures Valid() && this.freeList == freeList && this.frames == frames
    {
      this.freeList := freeList;
      this.frames := frames;
    }

    /**
     * AllocatePFN (its body is not part of this model): ERROR when no frame is free, otherwise
     * a free frame, which stops being free. The model hands out the head of the free list.
     */
    method AllocatePfn() returns (pfn: int)
      requires Valid()
      modifies this
      ensures Valid() && frames == old(frames)
      ensures old(freeList) == [] ==> pfn == ERROR && freeList == old(freeList)
      ensures old(freeList) != [] ==> 0 <= pfn && pfn in old(Free()) && Free() == old(Free()) - {pfn}
      ensures old(freeList) != [] ==> pfn == old(freeList[0]) && freeList == old(freeList[1..])
      ensures |freeList| == if old(freeList) == [] then 0 else |old(freeList)| - 1
    {
      if |freeList| == 0 {
        return ERROR;
      }
      pfn := freeList[0];
      freeList := freeList[1..];
    }

    /**
     * DeallocatePFN (its body is not part of this model): ERROR for a negative frame or one
     * that is already free, otherwise the frame becomes free again, at the end of the free list.
     */
    method DeallocatePfn(pfn: int) returns (rc: int)
      requires Valid()
      modifies this
      ensures Valid() && frames == old(frames)
      ensures rc == ERROR <==> pfn < 0 || pfn in old(Free())
      ensures rc == ERROR ==> freeList == old(freeList)
      ensures rc != ERROR ==> rc == 0 && Free() == old(Free()) + {pfn} && freeList == old(freeList) + [pfn]
    {
      if pfn < 0 || pfn in freeList {
        return ERROR;
      }
      freeList := freeList + [pfn];
      rc := 0;
    }
  }

  /** Where the model of a kernel path stops: a return, or a call into code outside the model. */
  datatype Next =
    | Returns(rc: int)
      /** SwapProcess(q, uctxt): park the caller on `q` (NULL: on no queue) and run another. */
    | SwapsTo(q: Queue?)
      /** KernelContextSwitch(KCSwitch, from, to). */
    | SwitchesTo(from: Pcb, to: Pcb)
      /** KernelContextSwitch(KCCopy, child, NULL). */
    | CopiesTo(child: Pcb)
      /** Halt(): the machine stops. */
    | Halts

  /** The globals the core reads and writes. */
  class Kernel {
    /** activePCB: the process on whose behalf the kernel runs. */
    var active: Pcb?
    const running: Queue
    const ready: Queue
    const blocked: Queue
    const defunct: Queue

    /** The region-0 page table (REG_PTBR0), indexed by page number: region 0 starts at page 0. */
    const kpt: array<PTE>
    /** ptr_bit_vector: PAGE_FREE or PAGE_NOT_FREE per physical frame. */
    const bitVector: array<int>
    var kernelBrk: int
    /** _kernel_orig_brk. */
    const origBrk: int
    const mem: PhysMem

    /** Per terminal: the read buffer, its fill count, and the queues of waiting readers and writers. */
    const ttyReadBuffers: seq<array?<char>>
    const ttyReadTrackers: array<int>
    const ttyReadQueues: seq<Queue?>
    const ttyWriteQueues: seq<Queue?>
    /** TERMINAL_OPEN or TERMINAL_CLOSED per terminal. */
    const ttyWriteTrackers: array<int>

    constructor (active: Pcb?, running: Queue, ready: Queue, blocked: Queue, defunct: Queue,
                 kpt: array<PTE>, bitVector: array<int>, brk: int, mem: PhysMem,
                 readBuffers: seq<array?<char>>, readTrackers: array<int>, readQueues: seq<Queue?>,
                 writeQueues: seq<Queue?>, writeTrackers: array<int>)
      ensures this.active == active && this.running == running && this.ready == ready
      ensures this.blocked == blocked && this.defunct == defunct
      ensures this.kpt == kpt && this.bitVector == bitVector && this.mem == mem
      ensures kernelBrk == brk && origBrk == brk
      ensures ttyReadBuffers == readBuffers && ttyReadTrackers == readTrackers
      ensures ttyReadQueues == readQueues && ttyWriteQueues == writeQueues
      ensures ttyWriteTrackers == writeTrackers
    {
      this.active := active;
      this.running := running;
      this.ready := ready;
      this.blocked := blocked;
      this.defunct := defunct;
      this.kpt := kpt;
      this.bitVector := bitVector;
      kernelBrk := brk;
      origBrk := brk;
      this.mem := mem;
      ttyReadBuffers := readBuffers;
      ttyReadTrackers := readTrackers;
      ttyReadQueues := readQueues;
      ttyWriteQueues := writeQueues;
      ttyWriteTrackers := writeTrackers;
    }

    /** The four scheduling queues are distinct objects, each with its size in step. */
    ghost predicate QueuesOk()
      reads running, ready, blocked, defunct
    {
      running != ready && running != blocked && running != defunct &&
      ready != blocked && ready != defunct && blocked != defunct &&
      running.Valid() && ready.Valid() && blocked.Valid() && defunct.Valid()
    }
  }

  /** No PCB appears twice. */
  predicate Distinct(ps: seq<Pcb>)
  {
    forall i, j :: 0 <= i < j < |ps| ==> ps[i] != ps[j]
  }

  /** No PCB is in both sequences. */
  predicate Disjoint(ps: seq<Pcb>, qs: seq<Pcb>)
  {
    forall i, j :: 0 <= i < |ps| && 0 <= j < |qs| ==> ps[i] != qs[j]
  }
}
