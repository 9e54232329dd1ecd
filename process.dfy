// The process control block (process.h), with the fields that syscalls.c and the clock
// handler also use: ppid, exit_code, blocked_code, clock_ticks, delay_clock, tty_terminal.

module Process {
  import opened Defs

  class Pcb {
    var pid: int
    var ppid: int
    var numChildren: int
    var exitCode: int
    var blockedCode: int
    /** Set by KernelDelay in syscalls.c. */
    var clockTicks: int
    /** Counted down by the clock handler of not-implemented-traphandlers.c. */
    var delayClock: int
    var ttyTerminal: int

    var userContext: UserContext
    var kernelContext: KernelContext

    /** Region-1 table, USER_PT_SIZE entries, owned by this PCB. */
    const userPageTable: array<PTE>
    var userStackPtIndex: int
    var userHeapPtIndex: int
    var userTextPtIndex: int
    var userDataPtIndex: int

    /** The KERNEL_STACK_SIZE entries that back this process's kernel stack. */
    const kernelStackPt: array<PTE>

    /** A PCB as a creator would leave it: no children, not blocked, all segment indices 0. */
    constructor (pid: int, ppid: int, upt: array<PTE>, ksp: array<PTE>)
      ensures this.pid == pid && this.ppid == ppid
      ensures numChildren == 0 && blockedCode == NOT_BLOCKED && delayClock == 0
      ensures userPageTable == upt && kernelStackPt == ksp
      ensures userStackPtIndex == 0 && userHeapPtIndex == 0
      ensures userTextPtIndex == 0 && userDataPtIndex == 0
    {
      this.pid := pid;
      this.ppid := ppid;
      numChildren := 0;
      exitCode := 0;
      blockedCode := NOT_BLOCKED;
      clockTicks := 0;
      delayClock := 0;
      ttyTerminal := 0;
      userContext := UserContext(0, 0);
      kernelContext := KernelContext([]);
      userPageTable := upt;
      userStackPtIndex, userHeapPtIndex, userTextPtIndex, userDataPtIndex := 0, 0, 0, 0;
      kernelStackPt := ksp;
    }

    /** The segment indices are ordered and lie inside the region-1 table. */
    predicate SegmentsOrdered()
      reads this
    {
      0 <= userDataPtIndex <= userHeapPtIndex <= userStackPtIndex <= userPageTable.Length
    }
  }
}
