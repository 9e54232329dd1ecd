// load_program.c: LoadProgram, which replaces a process's region 1 with a fresh image of an
// executable. The arithmetic that sizes the arguments and the new stack is pure; throwing away
// the old region 1, mapping the text, data and stack segments on fresh frames and then making
// the text executable are loops over the process's region-1 page table.
//
// The hardware constants (hardware.h is not part of this model) come in a `Machine` value and
// what LoadInfo reads from the executable in a `LoadInfo` value. Opening and reading the file,
// the TLB flushes and the copying of the arguments onto the new stack are not modelled; whether
// the argument buffer's malloc and the two segment reads succeed are parameters.

module LoadProgram {
  import opened Defs
  import opened Process
  import opened State
  import KernelTables

  /**
   * The hardware constants LoadProgram uses: PAGESIZE, VMEM_1_BASE, VMEM_1_LIMIT, MAX_PT_LEN
   * (entries in a region-1 table), sizeof(void *), POST_ARGV_NULL_SPACE and
   * INITIAL_STACK_FRAME_SIZE.
   */
  datatype Machine = Machine(pageSize: int, vmem1Base: int, vmem1Limit: int, maxPtLen: int,
                             ptrSize: int, postArgvNullSpace: int, initialStackFrameSize: int)

  /** Pages are a positive size, region 1 ends on a page boundary, and the stack sizes are not negative. */
  predicate MachineOk(m: Machine)
  {
    m.pageSize > 0 && m.maxPtLen > 0 && m.vmem1Limit % m.pageSize == 0 &&
    m.ptrSize > 0 && m.postArgvNullSpace >= 0 && m.initialStackFrameSize >= 0
  }

  /**
   * What LoadInfo reports: the entry point, the text's first address and page count, the
   * initialised data's first address and page count, and the uninitialised data's page count.
   */
  datatype LoadInfo = LoadInfo(entry: int, tVaddr: int, tNpg: int, idVaddr: int, idNpg: int, udNpg: int)

  // ---------------------------------------------------------------------------------------
  // Arguments

  const NUL: char := 0 as char

  /** A NULL-terminated argument vector: some entry is NULL. */
  predicate Terminated(argv: seq<Option<seq<char>>>)
  {
    exists j :: 0 <= j < |argv| && argv[j].None?
  }

  /** argc: the index of the first NULL entry, every entry before it being an argument. */
  function FirstNull(argv: seq<Option<seq<char>>>): (n: nat)
    requires Terminated(argv)
    ensures n < |argv| && argv[n].None? && forall j :: 0 <= j < n ==> argv[j].Some?
  {
    if argv[0].None? then 0
    else
      var j :| 0 <= j < |argv| && argv[j].None?;
      assert 0 <= j - 1 < |argv[1..]| && argv[1..][j - 1].None?;
      1 + FirstNull(argv[1..])
  }

  /** The bytes the first `n` arguments take, each with its terminating NUL (strlen + 1). */
  function ArgBytes(argv: seq<Option<seq<char>>>, n: nat): nat
    requires n <= |argv| && forall j :: 0 <= j < n ==> argv[j].Some?
  {
    if n == 0 then 0 else ArgBytes(argv, n - 1) + |argv[n - 1].value| + 1
  }

  /** The first `n` arguments back to back, each followed by NUL: the argument buffer's layout. */
  function Packed(argv: seq<Option<seq<char>>>, n: nat): seq<char>
    requires n <= |argv| && forall j :: 0 <= j < n ==> argv[j].Some?
  {
    if n == 0 then [] else Packed(argv, n - 1) + argv[n - 1].value + [NUL]
  }

  /**
   * The size the loader computes is exactly what the arguments need saved back to back with
   * their NULs, and is at least one byte per argument.
   */
  lemma {:induction false} ArgBytesFitPacked(argv: seq<Option<seq<char>>>, n: nat)
    requires n <= |argv| && forall j :: 0 <= j < n ==> argv[j].Some?
    ensures |Packed(argv, n)| == ArgBytes(argv, n) >= n
  {
    if n > 0 {
      ArgBytesFitPacked(argv, n - 1);
    }
  }

  /**
   * The argument count of LoadProgram (load_program.c:72-77): `argcount` is the index of the
   * terminating NULL, so every entry before it is an argument, and `size` is what those
   * arguments take with their NULs.
   */
  method CountArgs(argv: seq<Option<seq<char>>>) returns (size: int, argcount: int)
    requires Terminated(argv)
    ensures 0 <= argcount < |argv| && argv[argcount].None?
    ensures forall j :: 0 <= j < argcount ==> argv[j].Some?
    ensures argcount == FirstNull(argv) && size == ArgBytes(argv, argcount)
  {
    size := 0;
    var i := 0;
    while argv[i].Some?
      invariant 0 <= i < |argv| && Terminated(argv[i..])
      invariant forall j :: 0 <= j < i ==> argv[j].Some?
      invariant size == ArgBytes(argv, i)
      decreases |argv| - i
    {
      ghost var j :| 0 <= j < |argv[i..]| && argv[i..][j].None?;
      assert j > 0 && argv[i + 1..][j - 1] == argv[i..][j];
      size := size + |argv[i].value| + 1;
      i := i + 1;
    }
    argcount := i;
  }

  // ---------------------------------------------------------------------------------------
  // The new stack

  /** `x & ~7`: `x` rounded down to a multiple of 8 (in two's complement, for either sign). */
  function DownTo8(x: int): int
  {
    x - x % 8
  }

  /** DOWN_TO_PAGE: `x` rounded down to a page boundary. */
  function DownToPage(x: int, pageSize: int): int
    requires pageSize > 0
  {
    x - x % pageSize
  }

  /**
   * Where the arguments go (`cp`), where argc and the argv and envp pointers go (`cpp`), the
   * new stack pointer (`sp`) and the number of stack pages (`npg`).
   */
  datatype Stack = Stack(cp: int, cpp: int, sp: int, npg: int)

  /** The stack arithmetic of LoadProgram (load_program.c:91-112), for `size` argument bytes and `argc` arguments. */
  function StackFor(m: Machine, size: int, argc: int): Stack
    requires m.pageSize > 0
  {
    var cp := m.vmem1Limit - size;
    var cpp := DownTo8(cp - (argc + 3 + m.postArgvNullSpace) * m.ptrSize);
    var sp := cpp - m.initialStackFrameSize;
    Stack(cp, cpp, sp, (m.vmem1Limit - DownToPage(sp, m.pageSize)) / m.pageSize)
  }

  /**
   * The new stack is laid out as the loader promises: the arguments end at VMEM_1_LIMIT; `cpp`
   * is 8-byte aligned and leaves room below `cp` for argc, the argument pointers, the two NULL
   * pointers and POST_ARGV_NULL_SPACE more, wasting under 8 bytes; the stack pointer leaves
   * INITIAL_STACK_FRAME_SIZE bytes below `cpp`; and the `npg` stack pages at the top of region 1
   * start exactly at the page holding the stack pointer, so they cover it and everything above.
   */
  lemma StackLayoutSound(m: Machine, size: int, argc: int)
    requires MachineOk(m) && size >= 0 && argc >= 0
    ensures var s, words := StackFor(m, size, argc), (argc + 3 + m.postArgvNullSpace) * m.ptrSize;
            s.cp + size == m.vmem1Limit &&
            s.cpp % 8 == 0 && s.cp - words - 8 < s.cpp <= s.cp - words &&
            s.sp + m.initialStackFrameSize == s.cpp &&
            m.vmem1Limit - s.npg * m.pageSize == DownToPage(s.sp, m.pageSize) &&
            m.vmem1Limit - s.npg * m.pageSize <= s.sp < m.vmem1Limit - s.npg * m.pageSize + m.pageSize &&
            s.npg >= 1
  {
    var s := StackFor(m, size, argc);
    var ps := m.pageSize;
    var x := s.cp - (argc + 3 + m.postArgvNullSpace) * m.ptrSize;
    assert x == (x / 8) * 8 + x % 8;
    assert s.cpp == (x / 8) * 8;
    KernelTables.DivUnique(s.cpp, 8, x / 8, 0);
    var q, r := m.vmem1Limit / ps, s.sp / ps;
    assert m.vmem1Limit == q * ps;
    assert DownToPage(s.sp, ps) == r * ps;
    assert m.vmem1Limit - DownToPage(s.sp, ps) == (q - r) * ps;
    KernelTables.DivUnique((q - r) * ps, ps, q - r, 0);
    assert s.npg == q - r;
    assert s.npg * ps == q * ps - r * ps;
    assert s.sp < m.vmem1Limit;
    if s.npg < 1 {
      assert q <= r;
      KernelTables.MulCompare(q, r, ps);
    }
  }

  // ---------------------------------------------------------------------------------------
  // The checks before anything changes

  /** text_pg1 and data_pg1: the region-1 pages where text and data start. */
  function TextPage(m: Machine, li: LoadInfo): int
    requires m.pageSize > 0
  {
    (li.tVaddr - m.vmem1Base) / m.pageSize
  }

  function DataPage(m: Machine, li: LoadInfo): int
    requires m.pageSize > 0
  {
    (li.idVaddr - m.vmem1Base) / m.pageSize
  }

  /** data_npg: initialised and uninitialised data pages. */
  function DataPages(li: LoadInfo): int
  {
    li.idNpg + li.udNpg
  }

  /**
   * The loader refuses an executable whose entry point lies below region 1
   * (load_program.c:54-58) and one whose data, heap page and stack do not fit in region 1
   * with at least one page to spare (load_program.c:119-122).
   */
  predicate Accepts(m: Machine, li: LoadInfo, npg: int)
    requires m.pageSize > 0
  {
    li.entry >= m.vmem1Base && npg + DataPage(m, li) + DataPages(li) < m.maxPtLen
  }

  // ---------------------------------------------------------------------------------------
  // Throwing away the old region 1

  /** A valid entry becomes invalid with frame 0 (its protection is left); an invalid one stays. */
  function Discarded(e: PTE): PTE
  {
    if e.valid then PTE(false, 0, e.prot) else e
  }

  function DiscardAll(t: seq<PTE>): (u: seq<PTE>)
    ensures |u| == |t| && forall i :: 0 <= i < |t| ==> u[i] == Discarded(t[i])
  {
    seq(|t|, i requires 0 <= i < |t| => Discarded(t[i]))
  }

  /**
   * The free list after DeallocatePFN is handed, in order, the frames of the valid entries
   * among the first `n` of `t`, starting from free list `f` (it refuses a negative frame and
   * one that is already free).
   */
  function Freed(t: seq<PTE>, f: seq<int>, n: nat): seq<int>
    requires n <= |t|
  {
    if n == 0 then f
    else
      var g := Freed(t, f, n - 1);
      if t[n - 1].valid && 0 <= t[n - 1].pfn && t[n - 1].pfn !in g then g + [t[n - 1].pfn] else g
  }

  /**
   * Throwing away region 1 loses no frame: the old free list is kept, in front, and every
   * frame a valid entry held is free afterwards.
   */
  lemma {:induction false} FreedReleasesEveryFrame(t: seq<PTE>, f: seq<int>, n: nat)
    requires n <= |t|
    ensures |f| <= |Freed(t, f, n)| && Freed(t, f, n)[..|f|] == f
    ensures forall i :: 0 <= i < n && t[i].valid && 0 <= t[i].pfn ==> t[i].pfn in Freed(t, f, n)
  {
    if n > 0 {
      FreedReleasesEveryFrame(t, f, n - 1);
      var g := Freed(t, f, n - 1);
      assert forall x :: x in g ==> x in Freed(t, f, n);
      if t[n - 1].valid && 0 <= t[n - 1].pfn && t[n - 1].pfn !in g {
        assert (g + [t[n - 1].pfn])[..|f|] == g[..|f|];
      }
    }
  }

  /** No frame listed twice. */
  predicate NoDuplicates(f: seq<int>)
  {
    forall i, j :: 0 <= i < j < |f| ==> f[i] != f[j]
  }

  /** Throwing away region 1 never lists a frame twice: DeallocatePFN refuses a frame already free. */
  lemma {:induction false} FreedKeepsNoDuplicates(t: seq<PTE>, f: seq<int>, n: nat)
    requires n <= |t| && NoDuplicates(f)
    ensures NoDuplicates(Freed(t, f, n))
  {
    if n > 0 {
      FreedKeepsNoDuplicates(t, f, n - 1);
    }
  }

  /**
   * The teardown of LoadProgram (load_program.c:189-197): every valid entry of region 1 is
   * made invalid with frame 0 and its frame handed to DeallocatePFN, in table order.
   */
  method DiscardRegion1(upt: array<PTE>, mem: PhysMem)
    requires mem.Valid()
    modifies upt, mem
    ensures mem.Valid() && mem.frames == old(mem.frames)
    ensures upt[..] == DiscardAll(old(upt[..]))
    ensures mem.freeList == Freed(old(upt[..]), old(mem.freeList), upt.Length)
  {
    ghost var t, f := upt[..], mem.freeList;
    var i := 0;
    while i < upt.Length
      invariant 0 <= i <= upt.Length && mem.Valid() && mem.frames == old(mem.frames)
      invariant forall j :: 0 <= j < i ==> upt[j] == Discarded(t[j])
      invariant forall j :: i <= j < upt.Length ==> upt[j] == t[j]
      invariant mem.freeList == Freed(t, f, i)
    {
      if upt[i].valid {
        var pfn := upt[i].pfn;
        upt[i] := upt[i].(valid := false);
        var _ := mem.DeallocatePfn(pfn);
        upt[i] := upt[i].(pfn := 0);
      }
      i := i + 1;
    }
    assert upt[..] == DiscardAll(t);
  }

  // ---------------------------------------------------------------------------------------
  // Building the new region 1

  /** A table and a free list after a mapping loop, and whether it mapped every page. */
  datatype Build = Build(table: seq<PTE>, free: seq<int>, ok: bool)

  /**
   * One segment loop of LoadProgram over pages [lo, hi) of `t` with free list `f`: page after
   * page is made valid and readable-writable and then given the next free frame. When the
   * frames run out, the page being mapped is left valid on the frame it had, and the loop stops.
   */
  function MapRange(t: seq<PTE>, f: seq<int>, lo: int, hi: int): Build
    requires 0 <= lo <= hi <= |t|
  {
    var n := if hi - lo <= |f| then hi - lo else |f|;
    Build(seq(|t|, i requires 0 <= i < |t| =>
                if lo <= i < lo + n then PTE(true, f[i - lo], NO_X_W_R)
                else if i == lo + n && n < hi - lo then PTE(true, t[i].pfn, NO_X_W_R)
                else t[i]),
          f[n..], n == hi - lo)
  }

  /**
   * A segment loop of LoadProgram (load_program.c:213-222, 235-246, 259-270): it maps pages
   * [lo, hi) as MapRange says and reports whether AllocatePFN kept up.
   */
  method MapSegment(upt: array<PTE>, mem: PhysMem, lo: int, hi: int) returns (ok: bool)
    requires 0 <= lo <= hi <= upt.Length && mem.Valid()
    modifies upt, mem
    ensures mem.Valid() && mem.frames == old(mem.frames)
    ensures Build(upt[..], mem.freeList, ok) == MapRange(old(upt[..]), old(mem.freeList), lo, hi)
  {
    ghost var t, f := upt[..], mem.freeList;
    var i := lo;
    while i < hi
      invariant lo <= i <= hi && i - lo <= |f| && mem.Valid() && mem.frames == old(mem.frames)
      invariant Build(upt[..], mem.freeList, true) == MapRange(t, f, lo, i)
    {
      upt[i] := upt[i].(valid := true, prot := NO_X_W_R);
      var pfn := mem.AllocatePfn();
      if pfn == ERROR {
        assert upt[..] == MapRange(t, f, lo, hi).table;
        return false;
      }
      upt[i] := upt[i].(pfn := pfn);
      i := i + 1;
    }
    ok := true;
  }

  /** Pages [lo, hi) of each segment. */
  datatype Segments = Segments(textLo: int, textHi: int, dataLo: int, dataHi: int, stackLo: int, stackHi: int)

  predicate InTable(s: Segments, len: int)
  {
    0 <= s.textLo <= s.textHi <= len && 0 <= s.dataLo <= s.dataHi <= len && 0 <= s.stackLo <= s.stackHi <= len
  }

  /** How far the build got: the segment whose loop ran out of frames, or all mapped. */
  datatype Stage = TextShort | DataShort | StackShort | Mapped

  datatype Rebuilt = Rebuilt(stage: Stage, table: seq<PTE>, free: seq<int>)

  /** The three segment loops of LoadProgram, text, data and stack, stopping at the first that runs short. */
  function Rebuild(t: seq<PTE>, f: seq<int>, s: Segments): Rebuilt
    requires InTable(s, |t|)
  {
    var b1 := MapRange(t, f, s.textLo, s.textHi);
    if !b1.ok then Rebuilt(TextShort, b1.table, b1.free)
    else
      var b2 := MapRange(b1.table, b1.free, s.dataLo, s.dataHi);
      if !b2.ok then Rebuilt(DataShort, b2.table, b2.free)
      else
        var b3 := MapRange(b2.table, b2.free, s.stackLo, s.stackHi);
        Rebuilt(if b3.ok then Mapped else StackShort, b3.table, b3.free)
  }

  /** Text, then data, then stack, none overlapping. */
  predicate Ordered(s: Segments)
  {
    s.textLo <= s.textHi <= s.dataLo <= s.dataHi <= s.stackLo <= s.stackHi
  }

  /** The pages of all three segments. */
  function Total(s: Segments): int
  {
    (s.textHi - s.textLo) + (s.dataHi - s.dataLo) + (s.stackHi - s.stackLo)
  }

  predicate InSegment(s: Segments, i: int)
  {
    s.textLo <= i < s.textHi || s.dataLo <= i < s.dataHi || s.stackLo <= i < s.stackHi
  }

  /** Which free-list entry page `i` of a segment gets: text first, then data, then stack. */
  function Slot(s: Segments, i: int): int
  {
    if s.textLo <= i < s.textHi then i - s.textLo
    else if s.dataLo <= i < s.dataHi then (s.textHi - s.textLo) + i - s.dataLo
    else (s.textHi - s.textLo) + (s.dataHi - s.dataLo) + i - s.stackLo
  }

  /**
   * For ordered segments the build maps everything exactly when the free list holds a frame
   * for every segment page; it then gives the pages, text first, the first Total(s) free
   * frames in order, valid and readable-writable, leaves the rest of the table alone, and
   * leaves the remaining frames free.
   */
  lemma RebuildLayout(t: seq<PTE>, f: seq<int>, s: Segments)
    requires InTable(s, |t|) && Ordered(s)
    ensures var r := Rebuild(t, f, s);
            (r.stage == Mapped <==> Total(s) <= |f|) &&
            (r.stage == Mapped ==>
               r.free == f[Total(s)..] && |r.table| == |t| &&
               forall i :: 0 <= i < |t| ==>
                 r.table[i] == if InSegment(s, i) then PTE(true, f[Slot(s, i)], NO_X_W_R) else t[i])
  {
    var tn, dn := s.textHi - s.textLo, s.dataHi - s.dataLo;
    var b1 := MapRange(t, f, s.textLo, s.textHi);
    if b1.ok {
      assert b1.free == f[tn..];
      var b2 := MapRange(b1.table, b1.free, s.dataLo, s.dataHi);
      if b2.ok {
        assert b2.free == f[tn + dn..];
        var b3 := MapRange(b2.table, b2.free, s.stackLo, s.stackHi);
        if b3.ok {
          assert b3.free == f[Total(s)..];
          forall i | 0 <= i < |t|
            ensures b3.table[i] == if InSegment(s, i) then PTE(true, f[Slot(s, i)], NO_X_W_R) else t[i]
          {
            if s.dataLo <= i < s.dataHi {
              assert b2.table[i] == PTE(true, b1.free[i - s.dataLo], NO_X_W_R);
            } else if s.stackLo <= i < s.stackHi {
              assert b3.table[i] == PTE(true, b2.free[i - s.stackLo], NO_X_W_R);
            }
          }
        }
      }
    }
  }

  /** The text pages [lo, hi) made readable and executable, not writable. */
  function Protect(t: seq<PTE>, lo: int, hi: int): seq<PTE>
  {
    seq(|t|, i requires 0 <= i < |t| => if lo <= i < hi then t[i].(prot := X_NO_W_R) else t[i])
  }

  /**
   * The protection loop of LoadProgram (load_program.c:319-322): every text page in [lo, hi)
   * becomes readable and executable and no longer writable; nothing else changes.
   */
  method ProtectText(upt: array<PTE>, lo: int, hi: int)
    requires 0 <= lo <= hi <= upt.Length
    modifies upt
    ensures upt[..] == Protect(old(upt[..]), lo, hi)
    ensures forall i :: lo <= i < hi ==>
              upt[i].valid == old(upt[i].valid) && upt[i].pfn == old(upt[i].pfn) &&
              Readable(upt[i].prot) && Executable(upt[i].prot) && !Writable(upt[i].prot)
  {
    ghost var t := upt[..];
    var i := lo;
    while i < hi
      invariant lo <= i <= hi
      invariant forall j :: 0 <= j < upt.Length ==> upt[j] == if lo <= j < i then t[j].(prot := X_NO_W_R) else t[j]
    {
      upt[i] := upt[i].(prot := X_NO_W_R);
      i := i + 1;
    }
    assert upt[..] == Protect(t, lo, hi);
  }

  // ---------------------------------------------------------------------------------------
  // The whole loader

  /** The parts of a process and of physical memory that LoadProgram changes, as a value. */
  datatype Image = Image(table: seq<PTE>, free: seq<int>, uc: UserContext, text: int, data: int, heap: int, stack: int)

  function ImageOf(proc: Pcb, mem: PhysMem): Image
    reads proc, proc.userPageTable, mem
  {
    Image(proc.userPageTable[..], mem.freeList, proc.userContext,
          proc.userTextPtIndex, proc.userDataPtIndex, proc.userHeapPtIndex, proc.userStackPtIndex)
  }

  /**
   * What LoadProgram returns and the image it leaves, and whether it calls free_addr_space on
   * the process's tables before returning (free_addr_space is not part of this model).
   */
  datatype Loaded = Loaded(rc: int, image: Image, freesAddrSpace: bool)

  /** The text, data and stack pages of an executable, for `npg` stack pages. */
  function SegmentsOf(m: Machine, li: LoadInfo, npg: int): Segments
    requires m.pageSize > 0
  {
    Segments(TextPage(m, li), TextPage(m, li) + li.tNpg, DataPage(m, li), DataPage(m, li) + DataPages(li),
             m.maxPtLen - npg, m.maxPtLen)
  }

  /**
   * What the loader needs of LoadInfo's answer to stay inside the table: no negative page
   * count, and text and data starting inside region 1 with the text ending inside it (the C
   * code checks only that data and stack fit).
   */
  predicate Sane(m: Machine, li: LoadInfo)
    requires m.pageSize > 0
  {
    0 <= li.tNpg && 0 <= li.idNpg && 0 <= li.udNpg &&
    0 <= TextPage(m, li) && TextPage(m, li) + li.tNpg <= m.maxPtLen && 0 <= DataPage(m, li)
  }

  /**
   * LoadProgram once the executable is accepted (load_program.c:133-362), for segments `s`,
   * stack pointer `sp` and entry point `entry`: the stack pointer is set; ERROR with nothing
   * else changed when the argument buffer cannot be allocated; otherwise region 1 is thrown
   * away and rebuilt segment by segment, each segment index being set as its loop starts (the
   * heap's after the data loop); ERROR when a loop runs out of frames, after which the
   * process's address space is handed to free_addr_space (load_program.c:219, 241, 265); KILL
   * when a segment read fails; and otherwise the text is protected, the entry point set, and
   * SUCCESS.
   */
  function AcceptedSpec(s: Segments, sp: int, entry: int, argBufOk: bool, textReadOk: bool, dataReadOk: bool,
                        im: Image): Loaded
    requires InTable(s, |im.table|)
  {
    var im1 := im.(uc := im.uc.(sp := sp));
    if !argBufOk then Loaded(ERROR, im1, false)
    else
      var b := Rebuild(DiscardAll(im.table), Freed(im.table, im.free, |im.table|), s);
      var early := b.stage == TextShort || b.stage == DataShort;
      var im2 := im1.(table := b.table, free := b.free, text := s.textLo,
                      data := if b.stage == TextShort then im.data else s.dataLo,
                      heap := if early then im.heap else s.dataHi,
                      stack := if early then im.stack else s.stackLo);
      if b.stage != Mapped then Loaded(ERROR, im2, true)
      else if !textReadOk || !dataReadOk then Loaded(KILL, im2, false)
      else Loaded(SUCCESS, im2.(table := Protect(b.table, s.textLo, s.textHi), uc := im2.uc.(pc := entry)), false)
  }

  /**
   * LoadProgram (load_program.c:17-362) on image `im`, for `size` argument bytes and `argc`
   * arguments: ERROR with nothing changed when the executable is refused, otherwise as
   * AcceptedSpec says for its segments, its new stack pointer and its entry point.
   */
  function LoadSpec(m: Machine, li: LoadInfo, size: int, argc: int, argBufOk: bool, textReadOk: bool,
                    dataReadOk: bool, im: Image): Loaded
    requires MachineOk(m) && Sane(m, li) && size >= 0 && argc >= 0 && |im.table| == m.maxPtLen
  {
    var st := StackFor(m, size, argc);
    if !Accepts(m, li, st.npg) then Loaded(ERROR, im, false)
    else
      StackLayoutSound(m, size, argc);
      AcceptedSpec(SegmentsOf(m, li, st.npg), st.sp, li.entry, argBufOk, textReadOk, dataReadOk, im)
  }

  /**
   * The teardown and the three segment loops of LoadProgram (load_program.c:189-270): region 1
   * is thrown away, then rebuilt as Rebuild says; the text index is set before the text loop,
   * the data index before the data loop, and the heap and stack indices after the data loop.
   */
  method BuildRegion1(proc: Pcb, mem: PhysMem, s: Segments) returns (stage: Stage)
    requires InTable(s, proc.userPageTable.Length) && mem.Valid()
    modifies proc.userPageTable, mem
    modifies proc`userTextPtIndex, proc`userDataPtIndex, proc`userHeapPtIndex, proc`userStackPtIndex
    ensures mem.Valid()
    ensures var t0 := old(proc.userPageTable[..]);
            var b := Rebuild(DiscardAll(t0), Freed(t0, old(mem.freeList), |t0|), s);
            var early := b.stage == TextShort || b.stage == DataShort;
            stage == b.stage && proc.userPageTable[..] == b.table && mem.freeList == b.free &&
            proc.userTextPtIndex == s.textLo &&
            proc.userDataPtIndex == (if stage == TextShort then old(proc.userDataPtIndex) else s.dataLo) &&
            proc.userHeapPtIndex == (if early then old(proc.userHeapPtIndex) else s.dataHi) &&
            proc.userStackPtIndex == (if early then old(proc.userStackPtIndex) else s.stackLo)
  {
    var upt := proc.userPageTable;
    DiscardRegion1(upt, mem);
    ghost var t1, f1 := upt[..], mem.freeList;
    proc.userTextPtIndex := s.textLo;
    var ok := MapSegment(upt, mem, s.textLo, s.textHi);
    if !ok {
      return TextShort;
    }
    ghost var t2, f2 := upt[..], mem.freeList;
    proc.userDataPtIndex := s.dataLo;
    ok := MapSegment(upt, mem, s.dataLo, s.dataHi);
    if !ok {
      return DataShort;
    }
    proc.userHeapPtIndex := s.dataHi;
    proc.userStackPtIndex := s.stackLo;
    ok := MapSegment(upt, mem, s.stackLo, s.stackHi);
    stage := if ok then Mapped else StackShort;
  }

  /** LoadProgram once the executable is accepted (load_program.c:133-362), as AcceptedSpec says. */
  method LoadAccepted(proc: Pcb, mem: PhysMem, s: Segments, sp: int, entry: int,
                      argBufOk: bool, textReadOk: bool, dataReadOk: bool) returns (rc: int, freesAddrSpace: bool)
    requires InTable(s, proc.userPageTable.Length) && mem.Valid()
    modifies proc.userPageTable, mem, proc`userContext
    modifies proc`userTextPtIndex, proc`userDataPtIndex, proc`userHeapPtIndex, proc`userStackPtIndex
    ensures mem.Valid()
    ensures Loaded(rc, ImageOf(proc, mem), freesAddrSpace) ==
            AcceptedSpec(s, sp, entry, argBufOk, textReadOk, dataReadOk, old(ImageOf(proc, mem)))
  {
    proc.userContext := proc.userContext.(sp := sp);
    if !argBufOk {
      return ERROR, false;
    }
    var stage := BuildRegion1(proc, mem, s);
    if stage != Mapped {
      return ERROR, true;
    }
    if !textReadOk || !dataReadOk {
      return KILL, false;
    }
    ProtectText(proc.userPageTable, s.textLo, s.textHi);
    proc.userContext := proc.userContext.(pc := entry);
    rc, freesAddrSpace := SUCCESS, false;
  }

  /**
   * LoadProgram (load_program.c:17-362) for process `proc` and argument vector `argv`: what it
   * returns and the image it leaves are as LoadSpec says.
   */
  method LoadProgram(proc: Pcb, mem: PhysMem, m: Machine, li: LoadInfo, argv: seq<Option<seq<char>>>,
                     argBufOk: bool, textReadOk: bool, dataReadOk: bool) returns (rc: int, freesAddrSpace: bool)
    requires MachineOk(m) && Sane(m, li) && Terminated(argv)
    requires mem.Valid() && proc.userPageTable.Length == m.maxPtLen
    modifies proc.userPageTable, mem, proc`userContext
    modifies proc`userTextPtIndex, proc`userDataPtIndex, proc`userHeapPtIndex, proc`userStackPtIndex
    ensures mem.Valid()
    ensures var argc := FirstNull(argv);
            Loaded(rc, ImageOf(proc, mem), freesAddrSpace) ==
            LoadSpec(m, li, ArgBytes(argv, argc), argc, argBufOk, textReadOk, dataReadOk, old(ImageOf(proc, mem)))
  {
    var size, argcount := CountArgs(argv);
    if li.entry < m.vmem1Base {
      return ERROR, false;
    }
    var textPg1 := (li.tVaddr - m.vmem1Base) / m.pageSize;
    var dataPg1 := (li.idVaddr - m.vmem1Base) / m.pageSize;
    var dataNpg := li.idNpg + li.udNpg;
    var st := StackFor(m, size, argcount);
    if st.npg + dataPg1 + dataNpg >= m.maxPtLen {
      return ERROR, false;
    }
    StackLayoutSound(m, size, argcount);
    rc, freesAddrSpace := LoadAccepted(proc, mem, SegmentsOf(m, li, st.npg), st.sp, li.entry, argBufOk, textReadOk, dataReadOk);
  }

  // ---------------------------------------------------------------------------------------
  // What a load leaves behind

  /** The table facts of a successful load, for a table shaped as RebuildLayout and Protect leave it. */
  ghost predicate MappedImage(s: Segments, u: seq<PTE>, free: seq<int>)
  {
    (forall i :: 0 <= i < |u| ==> (u[i].valid <==> InSegment(s, i))) &&
    (forall i :: s.textLo <= i < s.textHi && 0 <= i < |u| ==> u[i].prot == X_NO_W_R) &&
    (forall i :: s.dataLo <= i < s.dataHi && 0 <= i < |u| ==> u[i].prot == NO_X_W_R) &&
    (forall i :: s.stackLo <= i < s.stackHi && 0 <= i < |u| ==> u[i].prot == NO_X_W_R) &&
    (forall i, j :: 0 <= i < j < |u| && InSegment(s, i) && InSegment(s, j) ==> u[i].pfn != u[j].pfn) &&
    (forall i :: 0 <= i < |u| && InSegment(s, i) ==> u[i].pfn !in free)
  }

  /** A table whose segment pages hold the first free frames in slot order, all else invalid, is a MappedImage. */
  lemma MappedImageOfSlots(s: Segments, t: seq<PTE>, f: seq<int>, u: seq<PTE>)
    requires InTable(s, |t|) && Ordered(s) && Total(s) <= |f| && NoDuplicates(f) && |u| == |t|
    requires forall i :: 0 <= i < |t| ==> !t[i].valid
    requires forall i :: 0 <= i < |t| && !InSegment(s, i) ==> u[i] == t[i]
    requires forall i :: 0 <= i < |t| && InSegment(s, i) ==>
               u[i].valid && u[i].pfn == f[Slot(s, i)] &&
               u[i].prot == if s.textLo <= i < s.textHi then X_NO_W_R else NO_X_W_R
    ensures MappedImage(s, u, f[Total(s)..])
  {
    forall i | 0 <= i < |u| && InSegment(s, i)
      ensures u[i].pfn !in f[Total(s)..]
    {
      assert Slot(s, i) < Total(s);
    }
  }

  /**
   * A successful accepted load over ordered segments with a gap page before the stack: the
   * table is a MappedImage, the segment indices are those of the segments, and the user
   * context holds the new stack pointer and the entry point.
   */
  lemma AcceptedImage(s: Segments, sp: int, entry: int, textReadOk: bool, dataReadOk: bool, im: Image)
    requires InTable(s, |im.table|) && Ordered(s) && NoDuplicates(im.free)
    ensures var out := AcceptedSpec(s, sp, entry, true, textReadOk, dataReadOk, im);
            out.rc == SUCCESS ==>
              out.image.text == s.textLo && out.image.data == s.dataLo && out.image.heap == s.dataHi &&
              out.image.stack == s.stackLo && out.image.uc.pc == entry && out.image.uc.sp == sp &&
              |out.image.table| == |im.table| && MappedImage(s, out.image.table, out.image.free)
  {
    var out := AcceptedSpec(s, sp, entry, true, textReadOk, dataReadOk, im);
    if out.rc == SUCCESS {
      var t1, f1 := DiscardAll(im.table), Freed(im.table, im.free, |im.table|);
      FreedKeepsNoDuplicates(im.table, im.free, |im.table|);
      RebuildLayout(t1, f1, s);
      var r := Rebuild(t1, f1, s);
      assert out.image.table == Protect(r.table, s.textLo, s.textHi) && out.image.free == f1[Total(s)..];
      MappedImageOfSlots(s, t1, f1, out.image.table);
    }
  }

  /**
   * A successful load of an executable whose text lies below its data leaves region 1 as the
   * executable asks (MappedImage): exactly the text, data and stack pages are valid; text pages
   * are readable and executable, data and stack pages readable and writable; no two pages
   * share a frame and no mapped frame is still on the free list. The segment indices are
   * those of the segments, with at least one page between the heap's start and the stack, and
   * the user context holds the new stack pointer and the entry point.
   */
  lemma LoadedImage(m: Machine, li: LoadInfo, size: int, argc: int, textReadOk: bool, dataReadOk: bool, im: Image)
    requires MachineOk(m) && Sane(m, li) && size >= 0 && argc >= 0 && |im.table| == m.maxPtLen
    requires TextPage(m, li) + li.tNpg <= DataPage(m, li) && NoDuplicates(im.free)
    ensures var out, st := LoadSpec(m, li, size, argc, true, textReadOk, dataReadOk, im), StackFor(m, size, argc);
            var s, u := SegmentsOf(m, li, st.npg), out.image;
            out.rc == SUCCESS ==>
              u.text == s.textLo && u.data == s.dataLo && u.heap == s.dataHi && u.stack == s.stackLo &&
              u.heap < u.stack && u.uc.pc == li.entry && u.uc.sp == st.sp && |u.table| == m.maxPtLen &&
              MappedImage(s, u.table, u.free)
  {
    var st := StackFor(m, size, argc);
    if Accepts(m, li, st.npg) {
      StackLayoutSound(m, size, argc);
      AcceptedImage(SegmentsOf(m, li, st.npg), st.sp, li.entry, textReadOk, dataReadOk, im);
    }
  }

  /**
   * An accepted executable whose text lies below its data, with its argument buffer
   * allocated, fails to load with ERROR exactly when throwing away region 1 leaves fewer free
   * frames than its segments have pages, and exactly then hands its address space to
   * free_addr_space.
   */
  lemma LoadRunsShort(m: Machine, li: LoadInfo, size: int, argc: int, textReadOk: bool, dataReadOk: bool, im: Image)
    requires MachineOk(m) && Sane(m, li) && size >= 0 && argc >= 0 && |im.table| == m.maxPtLen
    requires TextPage(m, li) + li.tNpg <= DataPage(m, li)
    ensures var st := StackFor(m, size, argc);
            Accepts(m, li, st.npg) ==>
              var out := LoadSpec(m, li, size, argc, true, textReadOk, dataReadOk, im);
              (out.rc == ERROR <==> |Freed(im.table, im.free, |im.table|)| < Total(SegmentsOf(m, li, st.npg))) &&
              (out.freesAddrSpace <==> out.rc == ERROR)
  {
    var st := StackFor(m, size, argc);
    if Accepts(m, li, st.npg) {
      StackLayoutSound(m, size, argc);
      RebuildLayout(DiscardAll(im.table), Freed(im.table, im.free, |im.table|), SegmentsOf(m, li, st.npg));
    }
  }
}
