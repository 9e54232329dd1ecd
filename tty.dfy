// syscalls.c, KernelTtyRead and KernelTtyWrite: each terminal has a read buffer with a fill
// count (its tracker), a queue of readers, a queue of writers and a transmitter that is open
// or closed. A read hands out the buffered bytes up to and including the first newline and
// shifts the rest to the front; a write sends the caller's bytes in lines of at most
// TERMINAL_MAX_LINE (a hardware.h constant, a parameter here) through TtyTransmit, whose
// calls the model returns in order.

module Tty {
  import opened Defs
  import opened Process
  import opened Queues
  import opened State

  /** The NUL byte the C code tests for an empty buffer and writes when it clears one. */
  const NUL: char := 0 as char

  /** `n` NUL bytes. */
  function Zeros(n: nat): (z: seq<char>)
    ensures |z| == n && forall i :: 0 <= i < n ==> z[i] == NUL
  {
    seq(n, _ => NUL)
  }

  /** The length of the first line of `s`, its newline included; all of `s` when it has none. */
  function LineLength(s: seq<char>): (n: nat)
    ensures n <= |s|
    ensures '\n' in s ==> 0 < n && s[n - 1] == '\n' && '\n' !in s[..n - 1]
    ensures '\n' !in s ==> n == |s|
  {
    if |s| == 0 then 0
    else if s[0] == '\n' then 1
    else
      var m := LineLength(s[1..]);
      assert s[1..][..m] == s[1..m + 1];
      assert s == [s[0]] + s[1..];
      1 + m
  }

  /** How many bytes a read of at most `len` bytes takes from buffered bytes `s`. */
  function ReadCount(s: seq<char>, len: int): (n: nat)
    requires 0 <= len
    ensures n <= |s| && n <= len
    ensures n == LineLength(s) || n == len
  {
    if LineLength(s) > len then len else LineLength(s)
  }

  /** The scan loop of KernelTtyRead (syscalls.c:478-485): the first line's length in b[..fill]. */
  method FindLineEnd(b: array<char>, fill: int) returns (n: int)
    requires 0 <= fill <= b.Length
    ensures n == LineLength(b[..fill])
  {
    n := 0;
    while n < fill
      invariant 0 <= n <= fill
      invariant '\n' !in b[..n]
    {
      if b[n] == '\n' {
        assert b[..fill][n] == '\n';
        return n + 1;
      }
      assert b[..n + 1] == b[..n] + [b[n]];
      n := n + 1;
    }
    assert b[..fill] == b[..n];
  }

  /**
   * A read of at most `len` bytes from buffer contents `s` holding `fill` bytes: it takes the
   * first line, capped at `len`, as `out` (`n` bytes), and leaves the buffer as `b`, the bytes
   * after that line moved to the front and the bytes they freed set to NUL.
   */
  ghost predicate LineTaken(s: seq<char>, fill: int, len: int, n: int, out: seq<char>, b: seq<char>)
    requires 0 <= fill <= |s| && 0 <= len
  {
    n == ReadCount(s[..fill], len) && out == s[..n] && b == s[n..fill] + Zeros(n) + s[fill..]
  }

  /**
   * A read loses nothing: the bytes it hands out followed by the bytes it leaves buffered are
   * the bytes buffered before, and the buffer keeps its size.
   */
  lemma ReadLosesNothing(s: seq<char>, fill: int, len: int, n: int, out: seq<char>, b: seq<char>)
    requires 0 <= fill <= |s| && 0 <= len && LineTaken(s, fill, len, n, out, b)
    ensures 0 <= n <= fill && |b| == |s| && out + b[..fill - n] == s[..fill]
  {
    assert b[..fill - n] == s[n..fill];
    assert s[..fill] == s[..n] + s[n..fill];
  }

  /**
   * The buffer moves of KernelTtyRead (syscalls.c:492-504): the first `n` of the `fill`
   * buffered bytes are copied to `buf`, the other `fill - n` move to the front of `b`, and the
   * `n` bytes after them become NUL.
   */
  method TakeBytes(b: array<char>, fill: int, n: int, buf: array<char>)
    requires 0 <= n <= fill <= b.Length && n <= buf.Length && b != buf
    modifies b, buf
    ensures buf[..n] == old(b[..n]) && buf[n..] == old(buf[n..])
    ensures b[..] == old(b[n..fill]) + Zeros(n) + old(b[fill..])
  {
    ghost var s := b[..];
    forall i | 0 <= i < n {
      buf[i] := b[i];
    }
    var rest := b[n..fill];
    forall i | 0 <= i < fill {
      b[i] := if i < fill - n then rest[i] else NUL;
    }
    assert b[..] == s[n..fill] + Zeros(n) + s[fill..];
  }

  /**
   * The read itself in KernelTtyRead (syscalls.c:475-506), for terminal buffer `b` with fill
   * count `trackers[ttyId]`: the first line, capped at `len` bytes, goes to `buf` and its
   * length is returned, the buffer is left as LineTaken says, and the fill count drops by the
   * count returned.
   */
  method ReadLine(b: array<char>, trackers: array<int>, ttyId: int, buf: array<char>, len: int) returns (n: int)
    requires 0 <= ttyId < trackers.Length && 0 <= trackers[ttyId] <= b.Length
    requires b != buf && 0 <= len <= buf.Length
    modifies b, trackers, buf
    ensures 0 <= n <= old(trackers[ttyId]) && n <= len
    ensures LineTaken(old(b[..]), old(trackers[ttyId]), len, n, buf[..n], b[..])
    ensures buf[n..] == old(buf[n..])
    ensures trackers[ttyId] == old(trackers[ttyId]) - n
    ensures forall t :: 0 <= t < trackers.Length && t != ttyId ==> trackers[t] == old(trackers[t])
  {
    var fill := trackers[ttyId];
    n := FindLineEnd(b, fill);
    if n > len {
      n := len;
    }
    TakeBytes(b, fill, n, buf);
    trackers[ttyId] := fill - n;
  }

  /**
   * The wake-up at the end of KernelTtyRead (syscalls.c:509-513): when readers are queued and
   * the buffer is not empty, the head reader is marked not blocked and added to the ready
   * queue; it stays on the reader queue.
   */
  method WakeNextReader(q: Queue, ready: Queue, bufferEmpty: bool)
    requires q != ready && q.Valid() && ready.Valid()
    modifies ready, q.items`blockedCode
    ensures ready.Valid()
    ensures q.items != [] && !bufferEmpty ==>
              ready.items == old(ready.items) + [q.items[0]] && q.items[0].blockedCode == NOT_BLOCKED
    ensures !(q.items != [] && !bufferEmpty) ==> ready.items == old(ready.items)
  {
    if q.size > 0 && !bufferEmpty {
      var next := q.Peek();
      next.blockedCode := NOT_BLOCKED;
      ready.Add(next, next.pid);
    }
  }

  /**
   * The second half of KernelTtyRead (syscalls.c:475-515), run at once when input is waiting
   * and no reader is queued, or when a parked reader resumes: the line is read as ReadLine
   * says, and then, if readers are queued and the buffer still holds input, the head reader
   * is woken.
   */
  method ReadAndWake(b: array<char>, trackers: array<int>, ttyId: int, q: Queue, ready: Queue,
                     buf: array<char>, len: int) returns (n: int)
    requires 0 <= ttyId < trackers.Length && 0 <= trackers[ttyId] <= b.Length && 0 < b.Length
    requires b != buf && 0 <= len <= buf.Length
    requires q != ready && q.Valid() && ready.Valid()
    modifies b, trackers, buf, ready, q.items`blockedCode
    ensures 0 <= n <= old(trackers[ttyId]) && n <= len
    ensures LineTaken(old(b[..]), old(trackers[ttyId]), len, n, buf[..n], b[..])
    ensures buf[n..] == old(buf[n..])
    ensures trackers[ttyId] == old(trackers[ttyId]) - n
    ensures forall t :: 0 <= t < trackers.Length && t != ttyId ==> trackers[t] == old(trackers[t])
    ensures ready.Valid()
    ensures q.items != [] && b[0] != NUL ==>
              ready.items == old(ready.items) + [q.items[0]] && q.items[0].blockedCode == NOT_BLOCKED
    ensures !(q.items != [] && b[0] != NUL) ==> ready.items == old(ready.items)
  {
    n := ReadLine(b, trackers, ttyId, buf, len);
    WakeNextReader(q, ready, b[0] == NUL);
  }

  /**
   * KernelTtyRead (syscalls.c:456-516), for the active process. The C code never checks
   * `ttyId`, so it must name a terminal. ERROR for a terminal with no queue or no buffer and
   * for a negative `len`; 0 for `len` 0. When readers are already queued or the buffer is
   * empty, the caller is marked BLOCKED_TTY_READ on this terminal and parks on the reader
   * queue (SwapProcess), to run ReadAndWake when it resumes; otherwise it reads at once: the
   * first line, capped at `len`, as LineTaken says. No reader is queued then, so nobody is woken.
   */
  method KernelTtyRead(k: Kernel, ttyId: int, buf: array<char>, len: int) returns (next: Next)
    requires 0 <= ttyId < |k.ttyReadBuffers| && ttyId < |k.ttyReadQueues| && ttyId < k.ttyReadTrackers.Length
    requires k.active != null && k.ready.Valid()
    requires var b, q := k.ttyReadBuffers[ttyId], k.ttyReadQueues[ttyId];
             b != null && q != null ==>
               0 < b.Length && 0 <= k.ttyReadTrackers[ttyId] <= b.Length && b != buf && len <= buf.Length &&
               q != k.ready && q.Valid()
    modifies k.ttyReadBuffers[ttyId], k.ttyReadTrackers, buf, k.ready
    modifies (if k.ttyReadQueues[ttyId] == null then [] else k.ttyReadQueues[ttyId].items)`blockedCode
    modifies k.active`blockedCode, k.active`ttyTerminal
    ensures forall t :: 0 <= t < k.ttyReadTrackers.Length && t != ttyId ==> k.ttyReadTrackers[t] == old(k.ttyReadTrackers[t])
    ensures var q := k.ttyReadQueues[ttyId];
            q != null ==> forall p :: p in old(q.items) && p != k.active ==> p.blockedCode == old(p.blockedCode)
    ensures var b, q := k.ttyReadBuffers[ttyId], k.ttyReadQueues[ttyId];
            if q == null || b == null || len <= 0 then
              next == Returns(if q == null || b == null || len < 0 then ERROR else 0) &&
              k.ready.items == old(k.ready.items) && k.ttyReadTrackers[..] == old(k.ttyReadTrackers[..]) &&
              (b != null ==> b[..] == old(b[..])) && buf[..] == old(buf[..]) &&
              k.active.blockedCode == old(k.active.blockedCode) && k.active.ttyTerminal == old(k.active.ttyTerminal)
            else if old(q.items) != [] || old(b[0]) == NUL then
              next == SwapsTo(q) && k.active.blockedCode == BLOCKED_TTY_READ && k.active.ttyTerminal == ttyId &&
              k.ready.items == old(k.ready.items) && b[..] == old(b[..]) && buf[..] == old(buf[..]) &&
              k.ttyReadTrackers[..] == old(k.ttyReadTrackers[..])
            else
              next.Returns? && 0 <= next.rc <= len &&
              LineTaken(old(b[..]), old(k.ttyReadTrackers[ttyId]), len, next.rc, buf[..next.rc], b[..]) &&
              buf[next.rc..] == old(buf[next.rc..]) &&
              k.ttyReadTrackers[ttyId] == old(k.ttyReadTrackers[ttyId]) - next.rc &&
              k.ready.items == old(k.ready.items) &&
              k.active.blockedCode == old(k.active.blockedCode) && k.active.ttyTerminal == old(k.active.ttyTerminal)
  {
    var b, q := k.ttyReadBuffers[ttyId], k.ttyReadQueues[ttyId];
    if q == null || b == null {
      return Returns(ERROR);
    } else if len < 0 {
      return Returns(ERROR);
    } else if len == 0 {
      return Returns(0);
    }
    if q.size > 0 || b[0] == NUL {
      k.active.blockedCode := BLOCKED_TTY_READ;
      k.active.ttyTerminal := ttyId;
      return SwapsTo(q);
    }
    var n := ReadAndWake(b, k.ttyReadTrackers, ttyId, q, k.ready, buf, len);
    next := Returns(n);
  }

  /** Lines concatenated in order. */
  function Flatten(ls: seq<seq<char>>): seq<char>
  {
    if ls == [] then [] else ls[0] + Flatten(ls[1..])
  }

  /**
   * `s` cut into lines of `max` bytes from the front, the last one possibly shorter: the
   * lines KernelTtyWrite transmits.
   */
  function Lines(s: seq<char>, max: int): seq<seq<char>>
    requires max > 0
    decreases |s|
  {
    if |s| == 0 then []
    else if |s| <= max then [s]
    else [s[..max]] + Lines(s[max..], max)
  }

  /**
   * The lines of `s` put back together are `s`, none is empty, none is longer than `max`, and
   * all but the last are exactly `max` bytes.
   */
  lemma {:induction false} LinesCover(s: seq<char>, max: int)
    requires max > 0
    ensures var ls := Lines(s, max);
            Flatten(ls) == s &&
            (forall i :: 0 <= i < |ls| ==> 0 < |ls[i]| <= max) &&
            (forall i :: 0 <= i < |ls| - 1 ==> |ls[i]| == max)
    decreases |s|
  {
    var ls := Lines(s, max);
    if |s| == 0 {
    } else if |s| <= max {
      assert Flatten([s]) == s + Flatten([]);
    } else {
      var rest := Lines(s[max..], max);
      LinesCover(s[max..], max);
      assert ls[1..] == rest;
      assert s == s[..max] + s[max..];
      forall i | 1 <= i < |ls|
        ensures ls[i] == rest[i - 1]
      {
      }
    }
  }

  /** The lines of `s[w..]`: the next line of at most `max` bytes, then the lines after it. */
  lemma LinesFrom(s: seq<char>, w: int, max: int)
    requires 0 <= w < |s| && max > 0
    ensures var t := if |s| - w > max then max else |s| - w;
            Lines(s[w..], max) == [s[w..w + t]] + Lines(s[w + t..], max)
  {
    var t := if |s| - w > max then max else |s| - w;
    assert s[w..][..t] == s[w..w + t];
    assert s[w..][t..] == s[w + t..];
    if |s| - w <= max {
      assert s[w + t..] == [];
      assert s[w..] == s[w..w + t];
    }
  }

  /**
   * Sending the next line keeps "lines sent, then the lines of what is left, are the lines
   * of the whole" true.
   */
  lemma LinesAfterOneMore(s: seq<char>, w: int, max: int, sent: seq<seq<char>>)
    requires 0 <= w < |s| && max > 0 && sent + Lines(s[w..], max) == Lines(s, max)
    ensures var t := if |s| - w > max then max else |s| - w;
            (sent + [s[w..w + t]]) + Lines(s[w + t..], max) == Lines(s, max)
  {
    var t := if |s| - w > max then max else |s| - w;
    LinesFrom(s, w, max);
    assert sent + Lines(s[w..], max) == sent + ([s[w..w + t]] + Lines(s[w + t..], max));
  }

  /**
   * One claim of the transmitter in KernelTtyWrite (syscalls.c:559-571): when it is closed the
   * caller is marked BLOCKED_TTY_TRANSMIT on this terminal (and waits); then the transmitter
   * is marked closed for this line. No other terminal's tracker changes.
   */
  method ClaimTransmitter(active: Pcb, trackers: array<int>, ttyId: int)
    requires 0 <= ttyId < trackers.Length
    modifies trackers, active`blockedCode, active`ttyTerminal
    ensures trackers[ttyId] == TERMINAL_CLOSED
    ensures forall t :: 0 <= t < trackers.Length && t != ttyId ==> trackers[t] == old(trackers[t])
    ensures old(trackers[ttyId]) == TERMINAL_CLOSED ==>
              active.blockedCode == BLOCKED_TTY_TRANSMIT && active.ttyTerminal == ttyId
  {
    if trackers[ttyId] == TERMINAL_CLOSED {
      active.blockedCode := BLOCKED_TTY_TRANSMIT;
      active.ttyTerminal := ttyId;
    }
    trackers[ttyId] := TERMINAL_CLOSED;
  }

  /**
   * The transmit loop of KernelTtyWrite (syscalls.c:553-593) for `buf[..len]`: line after line
   * of at most `maxLine` bytes goes to TtyTransmit (the lines sent are returned, in order),
   * with the transmitter marked closed before each. Whenever it finds the transmitter closed
   * the caller is marked BLOCKED_TTY_TRANSMIT on this terminal before SwapProcess(NULL); the
   * model then carries on as if the transmit interrupt had reopened it.
   */
  method TransmitLines(active: Pcb, trackers: array<int>, ttyId: int, buf: array<char>, len: int, maxLine: int)
    returns (sent: seq<seq<char>>, written: int)
    requires 0 <= ttyId < trackers.Length && 0 <= len <= buf.Length && maxLine > 0
    modifies trackers, active`blockedCode, active`ttyTerminal
    ensures sent == Lines(buf[..len], maxLine) && written == len
    ensures len > 0 ==> trackers[ttyId] == TERMINAL_CLOSED
    ensures forall t :: 0 <= t < trackers.Length && t != ttyId ==> trackers[t] == old(trackers[t])
    ensures len == 0 ==> trackers[ttyId] == old(trackers[ttyId])
  {
    ghost var s := buf[..len];
    var left := len;
    written := 0;
    sent := [];
    while left > 0
      invariant 0 <= written <= len && left == len - written
      invariant sent + Lines(s[written..], maxLine) == Lines(s, maxLine)
      invariant written > 0 ==> trackers[ttyId] == TERMINAL_CLOSED
      invariant written == 0 ==> trackers[ttyId] == old(trackers[ttyId])
      invariant forall t :: 0 <= t < trackers.Length && t != ttyId ==> trackers[t] == old(trackers[t])
    {
      ClaimTransmitter(active, trackers, ttyId);
      var toWrite := if left > maxLine then maxLine else left;
      var line := buf[written..written + toWrite];
      assert line == s[written..written + toWrite];
      LinesAfterOneMore(s, written, maxLine, sent);
      sent := sent + [line];
      left := left - toWrite;
      written := written + toWrite;
    }
    assert s[written..] == [];
  }

  /**
   * The end of KernelTtyWrite (syscalls.c:595-603): the writer leaves the head of the writer
   * queue and, when writers remain, the next one is marked not blocked and added to the ready
   * queue (it stays at the head of the writer queue).
   */
  method WakeNextWriter(q: Queue, ready: Queue)
    requires q != ready && q.Valid() && ready.Valid() && q.items != []
    modifies q, ready, q.items[1..]`blockedCode
    ensures q.Valid() && ready.Valid() && q.items == old(q.items[1..])
    ensures q.items != [] ==> ready.items == old(ready.items) + [q.items[0]] && q.items[0].blockedCode == NOT_BLOCKED
    ensures q.items == [] ==> ready.items == old(ready.items)
    ensures forall p :: p in old(q.items) && (q.items == [] || p != q.items[0]) ==> p.blockedCode == old(p.blockedCode)
  {
    var _ := q.Pop();
    if q.size > 0 {
      var next := q.Peek();
      next.blockedCode := NOT_BLOCKED;
      ready.Add(next, next.pid);
    }
  }

  /**
   * KernelTtyWrite (syscalls.c:527-604), for the active process. The C code never checks
   * `ttyId`, so it must name a terminal. ERROR for a terminal with no writer queue and for a
   * negative `len`; 0 for `len` 0. Otherwise the caller joins the tail of the writer queue;
   * unless it is then at the head it is marked BLOCKED_TTY_WRITE on this terminal and swaps
   * out with SwapProcess(NULL). At the head it transmits `buf[..len]` line by line, leaves
   * the queue, wakes the next writer, and returns `len`.
   */
  method KernelTtyWrite(k: Kernel, ttyId: int, buf: array<char>, len: int, maxLine: int)
    returns (next: Next, sent: seq<seq<char>>)
    requires 0 <= ttyId < |k.ttyWriteQueues| && ttyId < k.ttyWriteTrackers.Length && maxLine > 0
    requires k.active != null && k.ready.Valid() && len <= buf.Length
    requires var q := k.ttyWriteQueues[ttyId]; q != null ==> q != k.ready && q.Valid()
    modifies k.ttyWriteQueues[ttyId], k.ttyWriteTrackers, k.ready
    modifies (if k.ttyWriteQueues[ttyId] == null then [] else k.ttyWriteQueues[ttyId].items)`blockedCode
    modifies k.active`blockedCode, k.active`ttyTerminal
    ensures forall t :: 0 <= t < k.ttyWriteTrackers.Length && t != ttyId ==> k.ttyWriteTrackers[t] == old(k.ttyWriteTrackers[t])
    ensures var q := k.ttyWriteQueues[ttyId];
            if q == null || len <= 0 then
              next == Returns(if q == null || len < 0 then ERROR else 0) && sent == [] &&
              (q != null ==> q.items == old(q.items)) && k.ready.items == old(k.ready.items) &&
              k.ttyWriteTrackers[..] == old(k.ttyWriteTrackers[..]) &&
              k.active.blockedCode == old(k.active.blockedCode) && k.active.ttyTerminal == old(k.active.ttyTerminal) &&
              (q != null ==> forall p :: p in old(q.items) ==> p.blockedCode == old(p.blockedCode))
            else if old(q.items) != [] && old(q.items[0].pid) != k.active.pid then
              next == SwapsTo(null) && sent == [] && q.items == old(q.items) + [k.active] &&
              k.active.blockedCode == BLOCKED_TTY_WRITE && k.active.ttyTerminal == ttyId &&
              k.ready.items == old(k.ready.items) && k.ttyWriteTrackers[..] == old(k.ttyWriteTrackers[..]) &&
              (forall p :: p in old(q.items) && p != k.active ==> p.blockedCode == old(p.blockedCode))
            else
              next == Returns(len) && sent == Lines(buf[..len], maxLine) &&
              k.ttyWriteTrackers[ttyId] == TERMINAL_CLOSED &&
              q.items == (old(q.items) + [k.active])[1..] &&
              (q.items != [] ==> k.ready.items == old(k.ready.items) + [q.items[0]] &&
                                 q.items[0].blockedCode == NOT_BLOCKED) &&
              (q.items == [] ==> k.ready.items == old(k.ready.items)) &&
              (forall p :: p in old(q.items) && p != k.active && (q.items == [] || p != q.items[0]) ==>
                 p.blockedCode == old(p.blockedCode))
  {
    sent := [];
    var q := k.ttyWriteQueues[ttyId];
    if q == null {
      return Returns(ERROR), sent;
    } else if len < 0 {
      return Returns(ERROR), sent;
    } else if len == 0 {
      return Returns(0), sent;
    }
    var active := k.active;
    q.Add(active, active.pid);
    var head := q.Peek();
    if head.pid != active.pid {
      active.blockedCode := BLOCKED_TTY_WRITE;
      active.ttyTerminal := ttyId;
      return SwapsTo(null), sent;
    }
    var written;
    sent, written := TransmitLines(active, k.ttyWriteTrackers, ttyId, buf, len, maxLine);
    WakeNextWriter(q, k.ready);
    next := Returns(written);
  }
}
