// Constants and the page-table entry shared by every part of the kernel
// (include.h, plus the ERROR/SUCCESS/KILL return codes of the kernel API).

module Defs {

  /** Return codes of kernel operations. */
  const ERROR: int := -1
  const SUCCESS: int := 0
  const KILL: int := -2

  /** Bit-vector slot states. */
  const PAGE_FREE: int := 1
  const PAGE_NOT_FREE: int := 0

  /** The VM-enable register's two meaningful values. */
  const VM_ENABLED: int := 1
  const VM_DISABLED: int := 0

  /** Protection bits, written in the order X W R (X = 4, W = 2, R = 1). */
  const X_NO_W_R: int := 5
  const NO_X_NO_W_NO_R: int := 0
  const X_W_R: int := 7
  const NO_X_W_R: int := 3
  const NO_X_NO_W_R: int := 1
  const NO_X_W_NO_R: int := 2
  const X_W_NO_R: int := 6

  /** Why a PCB sits on the blocked queue. */
  const NOT_BLOCKED: int := 0
  const BLOCKED_DELAY: int := 1
  const BLOCKED_WAIT: int := 2
  const BLOCKED_TTY_READ: int := 3
  const BLOCKED_TTY_WRITE: int := 4
  const BLOCKED_TTY_TRANSMIT: int := 5

  /** Terminal transmitter states. */
  const TERMINAL_OPEN: int := 1
  const TERMINAL_CLOSED: int := 0

  /** A page-table entry: valid bit, physical frame number, protection bits. */
  datatype PTE = PTE(valid: bool, pfn: int, prot: int)

  /** The entry every teardown loop leaves behind. */
  const INVALID_PTE: PTE := PTE(false, 0, 0)

  predicate Executable(prot: int) { prot in {4, 5, 6, 7} }
  predicate Writable(prot: int) { prot in {2, 3, 6, 7} }
  predicate Readable(prot: int) { prot in {1, 3, 5, 7} }

  /** A value or nothing: stands for a C pointer that may be NULL. */
  datatype Option<T> = None | Some(value: T)

  /** The saved privileged register state (opaque to the kernel). */
  datatype KernelContext = KernelContext(regs: seq<int>)

  /** The saved user-mode state: only the stack pointer and program counter are touched here. */
  datatype UserContext = UserContext(sp: int, pc: int)
}
