// The earlier loader of loadprogram.c. It makes the same checks as LoadProgram, but it throws
// region 1 away without giving its frames back and rebuilds it, index by index, from pages
// taken off a bit vector of free pages.

module DraftLoader {
  import opened Defs
  import opened Process
  import LP = LoadProgram

  // ---------------------------------------------------------------------------------------
  // The bit vector of free pages

  /** How many of the slots [lo, hi) of bit vector `b` are PAGE_FREE. */
  function FreeCount(b: seq<int>, lo: int, hi: int): nat
    requires 0 <= lo <= hi <= |b|
    decreases hi - lo
  {
    if lo == hi then 0 else (if b[lo] == PAGE_FREE then 1 else 0) + FreeCount(b, lo + 1, hi)
  }

  /** A slot of [lo, hi) is free exactly when the free count there is positive. */
  lemma {:induction false} FreeCountPositive(b: seq<int>, lo: int, hi: int)
    requires 0 <= lo <= hi <= |b|
    ensures FreeCount(b, lo, hi) > 0 <==> exists j :: lo <= j < hi && b[j] == PAGE_FREE
    decreases hi - lo
  {
    if lo < hi {
      FreeCountPositive(b, lo + 1, hi);
    }
  }

  /** Taking one free slot of [lo, hi) leaves one fewer free slot there. */
  lemma {:induction false} FreeCountTake(b: seq<int>, p: int, lo: int, hi: int)
    requires 0 <= lo <= p < hi <= |b| && b[p] == PAGE_FREE
    ensures FreeCount(b[p := PAGE_NOT_FREE], lo, hi) == FreeCount(b, lo, hi) - 1
    decreases hi - lo
  {
    if lo < p {
      FreeCountTake(b, p, lo + 1, hi);
    } else {
      FreeCountSame(b, b[p := PAGE_NOT_FREE], lo + 1, hi);
    }
  }

  /** Bit vectors that agree on [lo, hi) have the same free count there. */
  lemma {:induction false} FreeCountSame(b: seq<int>, c: seq<int>, lo: int, hi: int)
    requires 0 <= lo <= hi <= |b| == |c| && forall j :: lo <= j < hi ==> b[j] == c[j]
    ensures FreeCount(b, lo, hi) == FreeCount(c, lo, hi)
    decreases hi - lo
  {
    if lo < hi {
      FreeCountSame(b, c, lo + 1, hi);
    }
  }

  /** The lowest free slot of [lo, hi). */
  function FirstFree(b: seq<int>, lo: int, hi: int): (p: int)
    requires 0 <= lo <= hi <= |b| && FreeCount(b, lo, hi) > 0
    ensures lo <= p < hi && b[p] == PAGE_FREE
    ensures forall j :: lo <= j < p ==> b[j] != PAGE_FREE
    decreases hi - lo
  {
    if b[lo] == PAGE_FREE then lo else FirstFree(b, lo + 1, hi)
  }

  /**
   * GetFreePage (loadprogram.c:414-426): the lowest free slot of [lo, hi), the region-1 page
   * numbers, is marked not free and returned; nothing else changes. With no free slot the C
   * function falls off its end without a return value, so a free slot is required here.
   */
  method GetFreePage(bv: array<int>, lo: int, hi: int) returns (page: int)
    requires 0 <= lo <= hi <= bv.Length && FreeCount(bv[..], lo, hi) > 0
    modifies bv
    ensures page == FirstFree(old(bv[..]), lo, hi)
    ensures bv[..] == old(bv[..])[page := PAGE_NOT_FREE]
    ensures FreeCount(bv[..], lo, hi) == FreeCount(old(bv[..]), lo, hi) - 1
  {
    var i := lo;
    while bv[i] != PAGE_FREE
      invariant lo <= i < hi && FreeCount(bv[..], i, hi) > 0
      invariant FirstFree(bv[..], i, hi) == FirstFree(bv[..], lo, hi)
      decreases hi - i
    {
      i := i + 1;
    }
    FreeCountTake(bv[..], i, lo, hi);
    bv[i] := PAGE_NOT_FREE;
    page := i;
  }

  /** Bit vector `b1` is `b0` with some free slots of [lo, hi) marked not free, and nothing else changed. */
  ghost predicate Marked(b0: seq<int>, b1: seq<int>, lo: int, hi: int)
  {
    |b1| == |b0| &&
    forall j :: 0 <= j < |b0| ==> b1[j] == b0[j] || (lo <= j < hi && b0[j] == PAGE_FREE && b1[j] == PAGE_NOT_FREE)
  }

  lemma MarkedTrans(b0: seq<int>, b1: seq<int>, b2: seq<int>, lo: int, hi: int)
    requires Marked(b0, b1, lo, hi) && Marked(b1, b2, lo, hi)
    ensures Marked(b0, b2, lo, hi)
  {
  }

  // ---------------------------------------------------------------------------------------
  // Throwing away the old region 1

  /**
   * The first loop of the draft (loadprogram.c:227-232): every valid entry becomes invalid
   * with frame 0, its protection kept. Unlike LoadProgram it gives no frame back, so the
   * bit vector is left as it was and the old frames stay taken.
   */
  method DiscardTable(upt: array<PTE>)
    modifies upt
    ensures upt[..] == LP.DiscardAll(old(upt[..]))
    ensures forall i :: 0 <= i < upt.Length ==> !upt[i].valid
  {
    ghost var t := upt[..];
    for i := 0 to upt.Length
      invariant forall j :: 0 <= j < upt.Length ==> upt[j] == if j < i then LP.Discarded(t[j]) else t[j]
    {
      if upt[i].valid {
        upt[i] := upt[i].(pfn := 0);
        upt[i] := upt[i].(valid := false);
      }
    }
  }

  // ---------------------------------------------------------------------------------------
  // Building the new region 1

  /** How many of the three tests of the build loop (loadprogram.c:260, 280, 299) take page `i`. */
  function Calls(s: LP.Segments, i: int): nat
  {
    (if i >= s.textLo && i <= s.textHi - 1 then 1 else 0) +
    (if i >= s.dataLo && i <= s.dataHi - 1 then 1 else 0) +
    (if i >= s.stackLo && i <= s.stackHi - 1 then 1 else 0)
  }

  /** How many pages the build loop takes off the bit vector for table indices below `n`. */
  function CallsBelow(s: LP.Segments, n: nat): nat
  {
    if n == 0 then 0 else CallsBelow(s, n - 1) + Calls(s, n - 1)
  }

  /** More indices never take fewer pages. */
  lemma {:induction false} CallsBelowGrows(s: LP.Segments, a: nat, b: nat)
    requires a <= b
    ensures CallsBelow(s, a) <= CallsBelow(s, b)
    decreases b - a
  {
    if a < b {
      CallsBelowGrows(s, a, b - 1);
    }
  }

  /**
   * One test of the build loop: take the lowest free page and map table index `i` to it,
   * valid and readable-writable (loadprogram.c:262-267); nothing else changes.
   */
  method MapPage(upt: array<PTE>, bv: array<int>, i: int, pf0: int, lo: int, hi: int) returns (page: int)
    requires 0 <= i < upt.Length && 0 <= lo <= hi <= bv.Length && FreeCount(bv[..], lo, hi) > 0
    modifies upt, bv
    ensures page == FirstFree(old(bv[..]), lo, hi)
    ensures bv[..] == old(bv[..])[page := PAGE_NOT_FREE]
    ensures FreeCount(bv[..], lo, hi) == FreeCount(old(bv[..]), lo, hi) - 1
    ensures upt[..] == old(upt[..])[i := PTE(true, page + pf0, NO_X_W_R)]
  {
    page := GetFreePage(bv, lo, hi);
    upt[i] := upt[i].(valid := true);
    upt[i] := upt[i].(pfn := page + pf0);
    upt[i] := upt[i].(prot := NO_X_W_R);
  }

  /**
   * Table `t` and bit vector `b` after one round of the build loop at index `i`, from `t0`
   * and `b0`: only free slots of [lo, hi) were marked, Calls(s, i) of them; only entry `i`
   * may change, and when a test took it, it is valid, readable-writable, on a page of
   * [lo, hi) that was free and now is not.
   */
  ghost predicate IndexMapped(t0: seq<PTE>, b0: seq<int>, t: seq<PTE>, b: seq<int>, s: LP.Segments,
                              i: int, pf0: int, lo: int, hi: int)
  {
    0 <= lo <= hi <= |b0| && 0 <= i < |t0| == |t| && Marked(b0, b, lo, hi) &&
    FreeCount(b, lo, hi) == FreeCount(b0, lo, hi) - Calls(s, i) &&
    (forall j :: 0 <= j < |t| && j != i ==> t[j] == t0[j]) &&
    (Calls(s, i) == 0 ==> t[i] == t0[i]) &&
    (Calls(s, i) > 0 ==>
       t[i].valid && t[i].prot == NO_X_W_R && lo <= t[i].pfn - pf0 < hi &&
       b0[t[i].pfn - pf0] == PAGE_FREE && b[t[i].pfn - pf0] == PAGE_NOT_FREE)
  }

  /**
   * Table `t` and bit vector `b` after one test of the build loop at index `i`, from `t0` and
   * `b0`: when the test `c` holds, `i` is mapped to the lowest free page, which is marked;
   * otherwise nothing changes.
   */
  ghost predicate TestMapped(t0: seq<PTE>, b0: seq<int>, t: seq<PTE>, b: seq<int>, c: bool,
                             i: int, pf0: int, lo: int, hi: int)
    requires 0 <= lo <= hi <= |b0| && 0 <= i < |t0|
  {
    if c then
      FreeCount(b0, lo, hi) > 0 &&
      var p := FirstFree(b0, lo, hi);
      t == t0[i := PTE(true, p + pf0, NO_X_W_R)] && b == b0[p := PAGE_NOT_FREE] &&
      FreeCount(b, lo, hi) == FreeCount(b0, lo, hi) - 1
    else
      t == t0 && b == b0
  }

  /** One of the three tests of the build loop: when `c` holds, map index `i` to a new page. */
  method MapIf(upt: array<PTE>, bv: array<int>, c: bool, i: int, pf0: int, lo: int, hi: int)
    requires 0 <= i < upt.Length && 0 <= lo <= hi <= bv.Length && (c ==> FreeCount(bv[..], lo, hi) > 0)
    modifies upt, bv
    ensures TestMapped(old(upt[..]), old(bv[..]), upt[..], bv[..], c, i, pf0, lo, hi)
  {
    if c {
      var page := MapPage(upt, bv, i, pf0, lo, hi);
    }
  }

  /** The three tests in a row make one round of the build loop. */
  lemma ThreeTests(t0: seq<PTE>, b0: seq<int>, t1: seq<PTE>, b1: seq<int>, t2: seq<PTE>, b2: seq<int>,
                   t: seq<PTE>, b: seq<int>, s: LP.Segments, i: int, pf0: int, lo: int, hi: int)
    requires 0 <= lo <= hi <= |b0| && 0 <= i < |t0|
    requires TestMapped(t0, b0, t1, b1, i >= s.textLo && i <= s.textHi - 1, i, pf0, lo, hi)
    requires |b1| == |b0| && |t1| == |t0|
    requires TestMapped(t1, b1, t2, b2, i >= s.dataLo && i <= s.dataHi - 1, i, pf0, lo, hi)
    requires |b2| == |b0| && |t2| == |t0|
    requires TestMapped(t2, b2, t, b, i >= s.stackLo && i <= s.stackHi - 1, i, pf0, lo, hi)
    ensures IndexMapped(t0, b0, t, b, s, i, pf0, lo, hi)
  {
    assert Marked(b0, b1, lo, hi) && Marked(b1, b2, lo, hi) && Marked(b2, b, lo, hi);
    MarkedTrans(b0, b1, b2, lo, hi);
    MarkedTrans(b0, b2, b, lo, hi);
  }

  /**
   * One round of the build loop (loadprogram.c:251-306): each of the three tests that takes
   * index `i` maps it to a new page, the last one winning.
   */
  method MapIndex(upt: array<PTE>, bv: array<int>, s: LP.Segments, i: int, pf0: int, lo: int, hi: int)
    requires 0 <= i < upt.Length && 0 <= lo <= hi <= bv.Length && FreeCount(bv[..], lo, hi) >= Calls(s, i)
    modifies upt, bv
    ensures IndexMapped(old(upt[..]), old(bv[..]), upt[..], bv[..], s, i, pf0, lo, hi)
  {
    ghost var t0, b0 := upt[..], bv[..];
    MapIf(upt, bv, i >= s.textLo && i <= s.textHi - 1, i, pf0, lo, hi);
    ghost var t1, b1 := upt[..], bv[..];
    MapIf(upt, bv, i >= s.dataLo && i <= s.dataHi - 1, i, pf0, lo, hi);
    ghost var t2, b2 := upt[..], bv[..];
    MapIf(upt, bv, i >= s.stackLo && i <= s.stackHi - 1, i, pf0, lo, hi);
    ThreeTests(t0, b0, t1, b1, t2, b2, upt[..], bv[..], s, i, pf0, lo, hi);
  }

  /**
   * The table and bit vector the draft's build loop leaves after indices [0, n), from table
   * `t0` and bit vector `b0`: every segment page below `n` is valid, on its own page of
   * [lo, hi) (offset by pf0) that was free and now is not, readable-writable or, in
   * [protLo, protHi), writable-executable; every other entry is as in `t0`; only free slots
   * were marked, exactly CallsBelow(s, n) of them, which is more than the pages mapped when
   * segments overlap.
   */
  ghost predicate DraftBuilt(t0: seq<PTE>, b0: seq<int>, t: seq<PTE>, b: seq<int>, s: LP.Segments,
                             pf0: int, lo: int, hi: int, n: int, protLo: int, protHi: int)
  {
    0 <= lo <= hi <= |b0| && |t| == |t0| && 0 <= n <= |t| && Marked(b0, b, lo, hi) &&
    FreeCount(b, lo, hi) == FreeCount(b0, lo, hi) - CallsBelow(s, n) &&
    (forall j :: 0 <= j < |t| && (j >= n || Calls(s, j) == 0) ==> t[j] == t0[j]) &&
    (forall j :: 0 <= j < n && Calls(s, j) > 0 ==>
       t[j].valid && t[j].prot == (if protLo <= j < protHi then X_W_NO_R else NO_X_W_R) &&
       lo <= t[j].pfn - pf0 < hi && b0[t[j].pfn - pf0] == PAGE_FREE && b[t[j].pfn - pf0] == PAGE_NOT_FREE) &&
    (forall j, k :: 0 <= j < k < n && Calls(s, j) > 0 && Calls(s, k) > 0 ==> t[j].pfn != t[k].pfn)
  }

  /** A round of the build loop at index `n` extends a build of [0, n) to one of [0, n + 1). */
  lemma BuildStep(t0: seq<PTE>, b0: seq<int>, t1: seq<PTE>, b1: seq<int>, t: seq<PTE>, b: seq<int>,
                  s: LP.Segments, pf0: int, lo: int, hi: int, n: int)
    requires DraftBuilt(t0, b0, t1, b1, s, pf0, lo, hi, n, 0, 0) && IndexMapped(t1, b1, t, b, s, n, pf0, lo, hi)
    ensures DraftBuilt(t0, b0, t, b, s, pf0, lo, hi, n + 1, 0, 0)
  {
    assert forall j :: 0 <= j < |b0| && b1[j] == PAGE_NOT_FREE ==> b[j] == PAGE_NOT_FREE;
    assert forall j :: 0 <= j < |b0| && b1[j] == PAGE_FREE ==> b0[j] == PAGE_FREE;
  }

  /** A build of [0, n) that started with room for every page it takes has room for the next round. */
  lemma BuildRoom(t0: seq<PTE>, b0: seq<int>, t: seq<PTE>, b: seq<int>, s: LP.Segments,
                  pf0: int, lo: int, hi: int, n: int, len: nat)
    requires DraftBuilt(t0, b0, t, b, s, pf0, lo, hi, n, 0, 0) && n < len && FreeCount(b0, lo, hi) >= CallsBelow(s, len)
    ensures 0 <= lo <= hi <= |b| && FreeCount(b, lo, hi) >= Calls(s, n)
  {
    CallsBelowGrows(s, n + 1, len);
  }

  /**
   * The build loop of the draft (loadprogram.c:245-310) over every table index. It needs
   * as many free pages as its tests take: GetFreePage has no answer when none is left.
   */
  method BuildTable(upt: array<PTE>, bv: array<int>, s: LP.Segments, pf0: int, lo: int, hi: int)
    requires 0 <= lo <= hi <= bv.Length && FreeCount(bv[..], lo, hi) >= CallsBelow(s, upt.Length)
    modifies upt, bv
    ensures DraftBuilt(old(upt[..]), old(bv[..]), upt[..], bv[..], s, pf0, lo, hi, upt.Length, 0, 0)
  {
    ghost var t0, b0 := upt[..], bv[..];
    for i := 0 to upt.Length
      invariant DraftBuilt(t0, b0, upt[..], bv[..], s, pf0, lo, hi, i, 0, 0)
    {
      BuildRoom(t0, b0, upt[..], bv[..], s, pf0, lo, hi, i, upt.Length);
      ghost var t1, b1 := upt[..], bv[..];
      MapIndex(upt, bv, s, i, pf0, lo, hi);
      BuildStep(t0, b0, t1, b1, upt[..], bv[..], s, pf0, lo, hi, i);
    }
  }

  // ---------------------------------------------------------------------------------------
  // Protecting the text

  /** The draft's protection loop: pages [lo, hi - 1) become executable and writable, not readable. */
  function DraftProtected(t: seq<PTE>, lo: int, hi: int): seq<PTE>
  {
    seq(|t|, i requires 0 <= i < |t| => if i >= lo && i < hi - 1 then t[i].(prot := X_W_NO_R) else t[i])
  }

  /**
   * The protection loop of the draft (loadprogram.c:367-372), as written: every index in
   * [lo, hi - 1) gets X_W_NO_R and nothing else changes.
   */
  method DraftProtect(upt: array<PTE>, lo: int, hi: int)
    modifies upt
    ensures upt[..] == DraftProtected(old(upt[..]), lo, hi)
  {
    ghost var t := upt[..];
    for i := 0 to upt.Length
      invariant forall j :: 0 <= j < upt.Length ==> upt[j] == if j < i && lo <= j < hi - 1 then t[j].(prot := X_W_NO_R) else t[j]
    {
      if i >= lo && i < hi - 1 {
        upt[i] := upt[i].(prot := X_W_NO_R);
      }
    }
  }

  /** Protecting a built table keeps it built, with the text but its last page writable-executable. */
  lemma DraftProtectKeepsBuilt(t0: seq<PTE>, b0: seq<int>, t: seq<PTE>, b: seq<int>, s: LP.Segments,
                               pf0: int, lo: int, hi: int)
    requires DraftBuilt(t0, b0, t, b, s, pf0, lo, hi, |t|, 0, 0) && forall j :: 0 <= j < |t0| ==> !t0[j].valid
    ensures DraftBuilt(t0, b0, DraftProtected(t, s.textLo, s.textHi), b, s, pf0, lo, hi, |t|, s.textLo, s.textHi - 1)
  {
    var u := DraftProtected(t, s.textLo, s.textHi);
    forall j | 0 <= j < |t| && Calls(s, j) == 0
      ensures u[j] == t0[j]
    {
      assert !(s.textLo <= j < s.textHi);
    }
  }

  /**
   * What the draft's protection loop leaves of a text segment of at least one page, against
   * what LoadProgram.ProtectText gives: its last page keeps the build's protection, so is not
   * executable, and every page before it is writable but not readable.
   */
  lemma DraftProtectMisses(t: seq<PTE>, lo: int, hi: int)
    requires 0 <= lo < hi <= |t| && forall j :: lo <= j < hi ==> t[j].prot == NO_X_W_R
    ensures var u := DraftProtected(t, lo, hi);
            !Executable(u[hi - 1].prot) && Writable(u[hi - 1].prot) &&
            forall j :: lo <= j < hi - 1 ==> Writable(u[j].prot) && !Readable(u[j].prot)
  {
  }

  // ---------------------------------------------------------------------------------------
  // The whole draft loader

  /**
   * The draft's table work before the reads (loadprogram.c:227-310): throw region 1 away and
   * build it from the bit vector, every page still readable-writable.
   */
  method RebuildRegion1(upt: array<PTE>, bv: array<int>, s: LP.Segments, pf0: int, lo: int, hi: int)
    requires 0 <= lo <= hi <= bv.Length && FreeCount(bv[..], lo, hi) >= CallsBelow(s, upt.Length)
    modifies upt, bv
    ensures DraftBuilt(LP.DiscardAll(old(upt[..])), old(bv[..]), upt[..], bv[..], s, pf0, lo, hi, upt.Length, 0, 0)
  {
    DiscardTable(upt);
    BuildTable(upt, bv, s, pf0, lo, hi);
  }

  /**
   * The draft once the executable is accepted (loadprogram.c:172-410): the stack pointer is
   * set; ERROR when the argument buffer cannot be allocated, with nothing else changed.
   * Otherwise region 1 is rebuilt, and a short read of the text or the data
   * (loadprogram.c:335-339, 347-351; `textReadOk`, `dataReadOk`) gives KILL, leaving the
   * built table unprotected and the entry point unset. When both reads succeed the text is
   * protected as written, the entry point set, and the result is SUCCESS.
   */
  method DraftAccepted(proc: Pcb, bv: array<int>, s: LP.Segments, sp: int, entry: int, argBufOk: bool,
                       textReadOk: bool, dataReadOk: bool, pf0: int, lo: int, hi: int) returns (rc: int)
    requires 0 <= lo <= hi <= bv.Length
    requires argBufOk ==> FreeCount(bv[..], lo, hi) >= CallsBelow(s, proc.userPageTable.Length)
    modifies proc.userPageTable, bv, proc`userContext
    ensures rc == (if !argBufOk then ERROR else if textReadOk && dataReadOk then SUCCESS else KILL)
    ensures proc.userContext.sp == sp
    ensures rc != SUCCESS ==> proc.userContext.pc == old(proc.userContext.pc)
    ensures !argBufOk ==> bv[..] == old(bv[..]) && proc.userPageTable[..] == old(proc.userPageTable[..])
    ensures rc == KILL ==>
              DraftBuilt(LP.DiscardAll(old(proc.userPageTable[..])), old(bv[..]), proc.userPageTable[..], bv[..],
                         s, pf0, lo, hi, proc.userPageTable.Length, 0, 0)
    ensures rc == SUCCESS ==>
              proc.userContext.pc == entry &&
              DraftBuilt(LP.DiscardAll(old(proc.userPageTable[..])), old(bv[..]), proc.userPageTable[..], bv[..],
                         s, pf0, lo, hi, proc.userPageTable.Length, s.textLo, s.textHi - 1)
  {
    proc.userContext := proc.userContext.(sp := sp);
    if !argBufOk {
      return ERROR;
    }
    RebuildRegion1(proc.userPageTable, bv, s, pf0, lo, hi);
    if !textReadOk || !dataReadOk {
      return KILL;
    }
    ghost var t0 := LP.DiscardAll(old(proc.userPageTable[..]));
    ghost var t1 := proc.userPageTable[..];
    DraftProtect(proc.userPageTable, s.textLo, s.textHi);
    DraftProtectKeepsBuilt(t0, old(bv[..]), t1, bv[..], s, pf0, lo, hi);
    ghost var built := proc.userPageTable[..];
    proc.userContext := proc.userContext.(pc := entry);
    assert proc.userPageTable[..] == built;
    rc := SUCCESS;
  }

  /** The bit-vector slots the draft searches: the page numbers of region 1. */
  function PageLo(m: LP.Machine): int
    requires m.pageSize > 0
  {
    m.vmem1Base / m.pageSize
  }

  function PageHi(m: LP.Machine): int
    requires m.pageSize > 0
  {
    m.vmem1Limit / m.pageSize
  }

  /** The stack the draft lays out for `argv`. */
  function StackOf(m: LP.Machine, argv: seq<Option<seq<char>>>): LP.Stack
    requires LP.MachineOk(m) && LP.Terminated(argv)
  {
    var argc := LP.FirstNull(argv);
    LP.StackFor(m, LP.ArgBytes(argv, argc), argc)
  }

  /**
   * The draft LoadProgram (loadprogram.c:55-410) for process `proc`, bit vector `bv` and
   * first physical frame `pf0`. It refuses, with ERROR and nothing changed, an entry point
   * below region 1 and an image that does not fit (loadprogram.c:90-95, 151-155). Accepted,
   * it sets the stack pointer, returns ERROR when the argument buffer cannot be allocated,
   * and otherwise throws region 1 away and builds it from the bit vector. A short read of
   * the text or the data then gives KILL; otherwise it protects the text as written and sets
   * the entry point: a DraftBuilt table and SUCCESS. It never records the segment indices.
   * The build needs as many free pages as it takes.
   */
  method DraftLoadProgram(proc: Pcb, bv: array<int>, m: LP.Machine, li: LP.LoadInfo, argv: seq<Option<seq<char>>>,
                          argBufOk: bool, textReadOk: bool, dataReadOk: bool, pf0: int) returns (rc: int)
    requires LP.MachineOk(m) && LP.Terminated(argv) && proc.userPageTable.Length == m.maxPtLen
    requires 0 <= PageLo(m) <= PageHi(m) <= bv.Length
    requires var s := LP.SegmentsOf(m, li, StackOf(m, argv).npg);
             LP.Accepts(m, li, StackOf(m, argv).npg) && argBufOk ==>
               FreeCount(bv[..], PageLo(m), PageHi(m)) >= CallsBelow(s, m.maxPtLen)
    modifies proc.userPageTable, bv, proc`userContext
    ensures var st := StackOf(m, argv);
            var built := LP.Accepts(m, li, st.npg) && argBufOk;
            (rc == ERROR <==> !built) &&
            (rc == SUCCESS <==> built && textReadOk && dataReadOk) &&
            (rc == KILL <==> built && !(textReadOk && dataReadOk)) &&
            (rc == ERROR ==> bv[..] == old(bv[..]) && proc.userPageTable[..] == old(proc.userPageTable[..])) &&
            (!LP.Accepts(m, li, st.npg) ==> proc.userContext == old(proc.userContext)) &&
            (LP.Accepts(m, li, st.npg) ==> proc.userContext.sp == st.sp) &&
            (rc != SUCCESS ==> proc.userContext.pc == old(proc.userContext.pc)) &&
            (rc == KILL ==>
               var s := LP.SegmentsOf(m, li, st.npg);
               DraftBuilt(LP.DiscardAll(old(proc.userPageTable[..])), old(bv[..]), proc.userPageTable[..], bv[..],
                          s, pf0, PageLo(m), PageHi(m), m.maxPtLen, 0, 0)) &&
            (rc == SUCCESS ==>
               var s := LP.SegmentsOf(m, li, st.npg);
               proc.userContext.pc == li.entry &&
               DraftBuilt(LP.DiscardAll(old(proc.userPageTable[..])), old(bv[..]), proc.userPageTable[..], bv[..],
                          s, pf0, PageLo(m), PageHi(m), m.maxPtLen, s.textLo, s.textHi - 1))
  {
    if li.entry < m.vmem1Base {
      return ERROR;
    }
    var textPg1 := (li.tVaddr - m.vmem1Base) / m.pageSize;
    var dataPg1 := (li.idVaddr - m.vmem1Base) / m.pageSize;
    var dataNpg := li.idNpg + li.udNpg;
    var size, argcount := LP.CountArgs(argv);
    var st := LP.StackFor(m, size, argcount);
    if st.npg + dataPg1 + dataNpg >= m.maxPtLen {
      return ERROR;
    }
    var s := LP.Segments(textPg1, textPg1 + li.tNpg, dataPg1, dataPg1 + dataNpg, m.maxPtLen - st.npg, m.maxPtLen);
    assert s == LP.SegmentsOf(m, li, st.npg);
    rc := DraftAccepted(proc, bv, s, st.sp, li.entry, argBufOk, textReadOk, dataReadOk, pf0, PageLo(m), PageHi(m));
  }
}
