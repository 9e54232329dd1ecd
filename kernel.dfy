// kernel.c: building the region-0 and region-1 page tables at boot, and moving the kernel break.
//
// Region 0 is taken to start at virtual page 0 (VMEM_0_BASE is page 0), so a region-0 page
// number is also its index in the region-0 table and in the frame bit vector. A shift right by
// PAGESHIFT is a division by the page size.

module KernelTables {
  import opened Defs
  import opened State

  /**
   * The page numbers SetRegion0_pt derives from the kernel's layout: text ends at
   * _kernel_data_start, data at _kernel_data_end, the heap at kernel_brk, and the kernel stack
   * spans [KERNEL_STACK_BASE, KERNEL_STACK_LIMIT).
   */
  datatype Layout = Layout(textEnd: int, dataEnd: int, brkPage: int, stackBase: int, stackLimit: int)

  /** The four segments of region 0, plus the pages in none of them. */
  datatype Segment = Text | Data | Heap | Stack | Unmapped

  /** The layout a linked kernel has: text, data, heap, then the stack, in that order. */
  predicate Ordered(l: Layout)
  {
    0 <= l.textEnd <= l.dataEnd <= l.brkPage <= l.stackBase <= l.stackLimit
  }

  /** The segment of page `i`: the first of text, data, heap and stack whose range holds it. */
  function SegmentOf(i: int, l: Layout): Segment
  {
    if 0 <= i < l.textEnd then Text
    else if l.textEnd <= i < l.dataEnd then Data
    else if l.dataEnd <= i < l.brkPage then Heap
    else if l.stackBase <= i < l.stackLimit then Stack
    else Unmapped
  }

  /** Text is readable and executable; data, heap and stack are readable and writable. */
  function ProtOf(s: Segment): int
  {
    if s == Text then X_NO_W_R else NO_X_W_R
  }

  /** Over the first `n` pages, a page is mapped exactly when its bit-vector slot is taken. */
  ghost predicate TableAgrees(kpt: seq<PTE>, bv: seq<int>, n: int)
  {
    0 <= n <= |kpt| && n <= |bv| &&
    forall i :: 0 <= i < n ==> (kpt[i].valid <==> bv[i] == PAGE_NOT_FREE)
  }

  /**
   * SetRegion0_pt: every page of the table is classified; a page in a segment is mapped to its
   * own frame (offset by PMEM_BASE's frame `pf0`) with its segment's protection and is marked
   * taken, any other page is invalid and marked free. The C code leaves an invalid entry's
   * frame and protection unset; the contract says only that the entry is invalid.
   */
  method SetRegion0(kpt: array<PTE>, kptSize: int, bv: array<int>, pf0: int, l: Layout)
    requires 0 <= kptSize <= kpt.Length && kptSize <= bv.Length
    modifies kpt, bv
    ensures forall i :: 0 <= i < kptSize ==> (kpt[i].valid <==> SegmentOf(i, l) != Unmapped)
    ensures forall i :: 0 <= i < kptSize && kpt[i].valid ==>
              kpt[i].pfn == i + pf0 && kpt[i].prot == ProtOf(SegmentOf(i, l))
    ensures TableAgrees(kpt[..], bv[..], kptSize)
    ensures forall i :: 0 <= i < kptSize ==> bv[i] == PAGE_NOT_FREE || bv[i] == PAGE_FREE
    ensures forall i :: kptSize <= i < kpt.Length ==> kpt[i] == old(kpt[i])
    ensures forall i :: kptSize <= i < bv.Length ==> bv[i] == old(bv[i])
  {
    var i := 0;
    while i < kptSize
      invariant 0 <= i <= kptSize
      invariant forall j :: 0 <= j < i ==> (kpt[j].valid <==> SegmentOf(j, l) != Unmapped)
      invariant forall j :: 0 <= j < i && kpt[j].valid ==>
                  kpt[j].pfn == j + pf0 && kpt[j].prot == ProtOf(SegmentOf(j, l))
      invariant forall j :: 0 <= j < i ==> bv[j] == if kpt[j].valid then PAGE_NOT_FREE else PAGE_FREE
      invariant forall j :: i <= j < kpt.Length ==> kpt[j] == old(kpt[j])
      invariant forall j :: i <= j < bv.Length ==> bv[j] == old(bv[j])
    {
      if 0 <= i < l.textEnd {
        kpt[i] := PTE(true, i + pf0, X_NO_W_R);
        bv[i] := PAGE_NOT_FREE;
      } else if l.textEnd <= i < l.dataEnd {
        kpt[i] := PTE(true, i + pf0, NO_X_W_R);
        bv[i] := PAGE_NOT_FREE;
      } else if l.dataEnd <= i < l.brkPage {
        kpt[i] := PTE(true, i + pf0, NO_X_W_R);
        bv[i] := PAGE_NOT_FREE;
      } else if l.stackBase <= i < l.stackLimit {
        kpt[i] := PTE(true, i + pf0, NO_X_W_R);
        bv[i] := PAGE_NOT_FREE;
      } else {
        kpt[i] := INVALID_PTE;
        bv[i] := PAGE_FREE;
      }
      i := i + 1;
    }
  }

  /**
   * For a kernel laid out in order, the mapped pages are exactly those below the break and
   * those of the kernel stack, and no mapped page is both writable and executable.
   */
  lemma Region0Coverage(l: Layout, i: int)
    requires Ordered(l)
    ensures SegmentOf(i, l) != Unmapped <==> (0 <= i < l.brkPage || l.stackBase <= i < l.stackLimit)
    ensures SegmentOf(i, l) != Unmapped ==>
              Readable(ProtOf(SegmentOf(i, l))) &&
              (Executable(ProtOf(SegmentOf(i, l))) <==> !Writable(ProtOf(SegmentOf(i, l)))) &&
              (Executable(ProtOf(SegmentOf(i, l))) <==> i < l.textEnd)
  {
  }

  /** k * ps is at least ps for k >= 1. */
  lemma MulAtLeast(k: int, ps: int)
    requires k >= 1 && ps > 0
    ensures k * ps >= ps
  {
    assert k * ps == (k - 1) * ps + ps;
  }

  /** A quotient is determined by any split into a multiple of the divisor and a remainder below it. */
  lemma DivUnique(x: int, ps: int, a: int, r: int)
    requires ps > 0 && 0 <= r < ps && x == a * ps + r
    ensures x / ps == a
  {
    var q, m := x / ps, x % ps;
    assert x == q * ps + m && 0 <= m < ps;
    if q > a {
      assert (q - a) * ps == q * ps - a * ps;
      MulAtLeast(q - a, ps);
    } else if q < a {
      assert (a - q) * ps == a * ps - q * ps;
      MulAtLeast(a - q, ps);
    }
  }

  /** (q * ps - d) / ps is q - 1 when 0 < d <= ps. */
  lemma DivJustBelow(q: int, ps: int, d: int)
    requires 0 < d <= ps
    ensures (q * ps - d) / ps == q - 1
  {
    assert q * ps - d == (q - 1) * ps + (ps - d);
    DivUnique(q * ps - d, ps, q - 1, ps - d);
  }

  /**
   * SetRegion1_pt: the stack pointer is put `uPtSize` entries' worth of bytes below
   * VMEM_1_LIMIT (`limit`), and `uPtSize` entries are mapped downwards from the page holding it,
   * each to frame `page + vp0 + pf0` with read/write protection, its bit-vector slot taken.
   */
  method SetRegion1(upt: array<PTE>, uPtSize: int, bv: array<int>, limit: int, pteSize: int,
                    pageSize: int, vp0: int, pf0: int) returns (sp: int)
    requires pageSize > 0 && uPtSize >= 0
    requires var top := (limit - uPtSize * pteSize) / pageSize - vp0;
             0 <= top - uPtSize + 1 && top < upt.Length &&
             0 <= top - uPtSize + 1 + vp0 && top + vp0 < bv.Length
    modifies upt, bv
    ensures sp == limit - uPtSize * pteSize
    ensures var top := sp / pageSize - vp0;
            (forall j :: top - uPtSize < j <= top ==> upt[j] == PTE(true, j + vp0 + pf0, NO_X_W_R)) &&
            (forall b :: top - uPtSize < b - vp0 <= top ==> bv[b] == PAGE_NOT_FREE) &&
            (forall j :: 0 <= j < upt.Length && !(top - uPtSize < j <= top) ==> upt[j] == old(upt[j])) &&
            (forall j :: 0 <= j < bv.Length && !(top - uPtSize < j - vp0 <= top) ==> bv[j] == old(bv[j]))
  {
    sp := limit - uPtSize * pteSize;
    var vpn := sp / pageSize;
    var idx := vpn - vp0;
    ghost var top := idx;
    var i := 0;
    while i < uPtSize
      invariant 0 <= i <= uPtSize && idx == top - i
      invariant forall j :: idx < j <= top ==> upt[j] == PTE(true, j + vp0 + pf0, NO_X_W_R)
      invariant forall b :: idx < b - vp0 <= top ==> bv[b] == PAGE_NOT_FREE
      invariant forall j :: 0 <= j < upt.Length && !(idx < j <= top) ==> upt[j] == old(upt[j])
      invariant forall j :: 0 <= j < bv.Length && !(idx < j - vp0 <= top) ==> bv[j] == old(bv[j])
    {
      upt[idx] := PTE(true, idx + vp0 + pf0, NO_X_W_R);
      bv[idx + vp0] := PAGE_NOT_FREE;
      idx := idx - 1;
      i := i + 1;
    }
  }

  /**
   * With region 1 exactly `uPtSize` pages long and the table's bytes fitting in one page, the
   * stack pointer lands in the last page, so SetRegion1_pt maps every entry of the table, not
   * only the one stack page its comments describe.
   */
  lemma {:induction false} Region1MapsEveryPage(uPtSize: int, limit: int, pteSize: int, pageSize: int, vp0: int)
    requires pageSize > 0 && uPtSize > 0 && 0 < uPtSize * pteSize <= pageSize
    requires limit == (vp0 + uPtSize) * pageSize
    ensures (limit - uPtSize * pteSize) / pageSize - vp0 == uPtSize - 1
  {
    DivJustBelow(vp0 + uPtSize, pageSize, uPtSize * pteSize);
  }

  /** a * ps compares with b * ps as a compares with b. */
  lemma MulCompare(a: int, b: int, ps: int)
    requires ps > 0
    ensures a * ps >= b * ps <==> a >= b
  {
    if a >= b {
      assert a * ps - b * ps == (a - b) * ps;
    } else {
      assert b * ps - a * ps == (b - a) * ps;
    }
  }

  /** The first slot in [lo, hi) that is not taken, or `hi` when all are taken. */
  function FirstFree(bv: seq<int>, lo: int, hi: int): (j: int)
    requires 0 <= lo <= hi <= |bv|
    ensures lo <= j <= hi
    ensures forall i :: lo <= i < j ==> bv[i] == PAGE_NOT_FREE
    ensures j < hi ==> bv[j] != PAGE_NOT_FREE
    decreases hi - lo
  {
    if lo == hi then hi
    else if bv[lo] != PAGE_NOT_FREE then lo
    else FirstFree(bv, lo + 1, hi)
  }

  /** The first loop of SetKernelBrk: whether no slot in [lo, hi) is taken. */
  method RangeUntaken(bv: array<int>, lo: int, hi: int) returns (ok: bool)
    requires 0 <= lo <= hi <= bv.Length
    ensures ok <==> forall i :: lo <= i < hi ==> bv[i] != PAGE_NOT_FREE
  {
    var index := lo;
    while index < hi
      invariant lo <= index <= hi
      invariant forall i :: lo <= i < index ==> bv[i] != PAGE_NOT_FREE
    {
      if bv[index] == PAGE_NOT_FREE {
        return false;
      }
      index := index + 1;
    }
    return true;
  }

  /**
   * The second loop of SetKernelBrk: pages [lo, hi) become mapped read/write to their own
   * frames and taken; nothing else changes, and a table that agreed with its bit vector still does.
   */
  method MapRange(kpt: array<PTE>, bv: array<int>, lo: int, hi: int, pf0: int)
    requires 0 <= lo <= hi <= kpt.Length && hi <= bv.Length
    modifies kpt, bv
    ensures forall i :: lo <= i < hi ==> kpt[i] == PTE(true, i + pf0, NO_X_W_R) && bv[i] == PAGE_NOT_FREE
    ensures forall i :: 0 <= i < kpt.Length && !(lo <= i < hi) ==> kpt[i] == old(kpt[i])
    ensures forall i :: 0 <= i < bv.Length && !(lo <= i < hi) ==> bv[i] == old(bv[i])
    ensures TableAgrees(old(kpt[..]), old(bv[..]), kpt.Length) ==> TableAgrees(kpt[..], bv[..], kpt.Length)
  {
    var index := lo;
    while index < hi
      invariant lo <= index <= hi
      invariant forall i :: lo <= i < index ==> kpt[i] == PTE(true, i + pf0, NO_X_W_R) && bv[i] == PAGE_NOT_FREE
      invariant forall i :: 0 <= i < kpt.Length && !(lo <= i < index) ==> kpt[i] == old(kpt[i])
      invariant forall i :: 0 <= i < bv.Length && !(lo <= i < index) ==> bv[i] == old(bv[i])
    {
      bv[index] := PAGE_NOT_FREE;
      kpt[index] := PTE(true, index + pf0, NO_X_W_R);
      index := index + 1;
    }
  }

  /**
   * SetKernelBrk with VM on: ERROR when the current break is NULL or above KERNEL_STACK_BASE,
   * when `addr`'s page is not above the break's page, or when a page in between is already
   * taken, all with no change; otherwise each page in between is mapped read/write to its own
   * frame and taken, and the break becomes `addr` rounded down to its page. The C code never
   * checks `addr`; its page must lie inside the table and the bit vector.
   */
  method GrowKernelBrk(k: Kernel, addr: int, pageSize: int, pf0: int, stackBasePage: int)
    returns (rc: int)
    requires pageSize > 0 && 0 <= addr && 0 <= k.kernelBrk
    requires addr / pageSize <= k.kpt.Length && addr / pageSize <= k.bitVector.Length
    modifies k`kernelBrk, k.kpt, k.bitVector
    ensures rc == 0 || rc == ERROR
    ensures rc == ERROR ==>
              k.kernelBrk == old(k.kernelBrk) && k.kpt[..] == old(k.kpt[..]) &&
              k.bitVector[..] == old(k.bitVector[..])
    ensures var brkPage := old(k.kernelBrk) / pageSize;
            var addrPage := addr / pageSize;
            (rc == ERROR <==>
               old(k.kernelBrk) == 0 || old(k.kernelBrk) > stackBasePage * pageSize ||
               addrPage <= brkPage ||
               exists i :: brkPage <= i < addrPage && old(k.bitVector[i]) == PAGE_NOT_FREE) &&
            (rc == 0 ==>
               k.kernelBrk == addrPage * pageSize &&
               (forall i :: brkPage <= i < addrPage ==>
                  k.kpt[i] == PTE(true, i + pf0, NO_X_W_R) && k.bitVector[i] == PAGE_NOT_FREE) &&
               (forall i :: 0 <= i < k.kpt.Length && !(brkPage <= i < addrPage) ==> k.kpt[i] == old(k.kpt[i])) &&
               (forall i :: 0 <= i < k.bitVector.Length && !(brkPage <= i < addrPage) ==>
                  k.bitVector[i] == old(k.bitVector[i])))
    ensures TableAgrees(old(k.kpt[..]), old(k.bitVector[..]), k.kpt.Length) ==>
              TableAgrees(k.kpt[..], k.bitVector[..], k.kpt.Length)
  {
    if k.kernelBrk == 0 || k.kernelBrk > stackBasePage * pageSize {
      return ERROR;
    }
    var index := k.kernelBrk / pageSize;
    var addrIndex := addr / pageSize;
    if addrIndex <= index {
      return ERROR;
    }
    var ok := RangeUntaken(k.bitVector, index, addrIndex);
    if !ok {
      return ERROR;
    }
    MapRange(k.kpt, k.bitVector, index, addrIndex, pf0);
    k.kernelBrk := addr - addr % pageSize;
    assert addr == addrIndex * pageSize + addr % pageSize;
    return 0;
  }

  /**
   * SetKernelBrk with VM off: the break becomes the first untaken page at or above the original
   * break, or ERROR when the scan reaches the kernel stack; the tables are only read.
   */
  method ScanKernelBrk(k: Kernel, pageSize: int, stackBasePage: int) returns (rc: int)
    requires pageSize > 0
    requires 0 <= k.origBrk && k.origBrk / pageSize < stackBasePage <= k.bitVector.Length
    modifies k`kernelBrk
    ensures var j := FirstFree(k.bitVector[..], k.origBrk / pageSize, stackBasePage);
            (rc == ERROR <==> j == stackBasePage) &&
            (rc == ERROR ==> k.kernelBrk == old(k.kernelBrk)) &&
            (rc != ERROR ==> rc == 0 && k.kernelBrk == j * pageSize)
  {
    var index := k.origBrk / pageSize;
    ghost var origPage := index;
    while k.bitVector[index] == PAGE_NOT_FREE
      invariant origPage <= index < stackBasePage
      invariant forall i :: origPage <= i < index ==> k.bitVector[i] == PAGE_NOT_FREE
      invariant k.kernelBrk == old(k.kernelBrk)
      decreases stackBasePage - index
    {
      index := index + 1;
      MulCompare(index, stackBasePage, pageSize);
      if index * pageSize >= stackBasePage * pageSize {
        assert FirstFree(k.bitVector[..], origPage, stackBasePage) == stackBasePage;
        return ERROR;
      }
    }
    assert FirstFree(k.bitVector[..], origPage, stackBasePage) == index;
    k.kernelBrk := index * pageSize;
    return 0;
  }

  /**
   * SetKernelBrk: reads the VM-enable register (`vm`); VM_ENABLED grows the mapped heap,
   * VM_DISABLED only moves the break past the frames taken so far, any other value is ERROR.
   */
  method SetKernelBrk(k: Kernel, vm: int, addr: int, pageSize: int, pf0: int, stackBasePage: int)
    returns (rc: int)
    requires pageSize > 0 && 0 <= addr && 0 <= k.kernelBrk
    requires addr / pageSize <= k.kpt.Length && addr / pageSize <= k.bitVector.Length
    requires 0 <= k.origBrk && k.origBrk / pageSize < stackBasePage <= k.bitVector.Length
    modifies k`kernelBrk, k.kpt, k.bitVector
    ensures rc == 0 || rc == ERROR
    ensures rc == ERROR ==>
              k.kernelBrk == old(k.kernelBrk) && k.kpt[..] == old(k.kpt[..]) &&
              k.bitVector[..] == old(k.bitVector[..])
    ensures vm != VM_ENABLED && vm != VM_DISABLED ==> rc == ERROR
    ensures vm == VM_ENABLED ==>
              var brkPage := old(k.kernelBrk) / pageSize;
              var addrPage := addr / pageSize;
              (rc == ERROR <==>
                 old(k.kernelBrk) == 0 || old(k.kernelBrk) > stackBasePage * pageSize ||
                 addrPage <= brkPage ||
                 exists i :: brkPage <= i < addrPage && old(k.bitVector[i]) == PAGE_NOT_FREE) &&
              (rc == 0 ==>
                 k.kernelBrk == addrPage * pageSize &&
                 (forall i :: brkPage <= i < addrPage ==>
                    k.kpt[i] == PTE(true, i + pf0, NO_X_W_R) && k.bitVector[i] == PAGE_NOT_FREE) &&
                 (forall i :: 0 <= i < k.kpt.Length && !(brkPage <= i < addrPage) ==> k.kpt[i] == old(k.kpt[i])) &&
                 (forall i :: 0 <= i < k.bitVector.Length && !(brkPage <= i < addrPage) ==>
                    k.bitVector[i] == old(k.bitVector[i])))
    ensures vm == VM_DISABLED ==>
              var j := FirstFree(old(k.bitVector[..]), k.origBrk / pageSize, stackBasePage);
              (rc == ERROR <==> j == stackBasePage) &&
              (rc == 0 ==> k.kernelBrk == j * pageSize && k.kpt[..] == old(k.kpt[..]) &&
                           k.bitVector[..] == old(k.bitVector[..]))
    ensures TableAgrees(old(k.kpt[..]), old(k.bitVector[..]), k.kpt.Length) ==>
              TableAgrees(k.kpt[..], k.bitVector[..], k.kpt.Length)
  {
    if vm == VM_ENABLED {
      rc := GrowKernelBrk(k, addr, pageSize, pf0, stackBasePage);
    } else if vm == VM_DISABLED {
      rc := ScanKernelBrk(k, pageSize, stackBasePage);
    } else {
      rc := ERROR;
    }
  }

  /** 2 to the power `n`. */
  function Pow2(n: nat): (r: int)
    ensures r > 0
  {
    if n == 0 then 1 else 2 * Pow2(n - 1)
  }

  /**
   * The region-0 table index SetKernelBrk means to compute for address `x`: its page number
   * (`x >> PAGESHIFT`) less the first page of region 0, `vp0`.
   */
  function PageIndex(x: int, pageShift: nat, vp0: int): (r: int)
    requires 0 <= x
    ensures (r + vp0) * Pow2(pageShift) <= x < (r + vp0 + 1) * Pow2(pageShift)
  {
    x / Pow2(pageShift) - vp0
  }

  /**
   * The index as kernel.c writes it, `x >> PAGESHIFT - vp0`: C's `-` binds tighter than `>>`,
   * so this is `x >> (PAGESHIFT - vp0)`.
   */
  function IndexAsParsed(x: int, pageShift: nat, vp0: nat): (r: int)
    requires 0 <= x && vp0 <= pageShift
    ensures r * Pow2(pageShift - vp0) <= x < (r + 1) * Pow2(pageShift - vp0)
  {
    x / Pow2(pageShift - vp0)
  }

  /** With region 0 at page 0 (this model's layout) the two readings agree for every address. */
  lemma ParsedIndexAgreesAtPageZero(x: int, pageShift: nat)
    requires 0 <= x
    ensures IndexAsParsed(x, pageShift, 0) == PageIndex(x, pageShift, 0)
  {
  }

  /**
   * With region 0 starting one page up, the address of the third page (8192-byte pages, so
   * PAGESHIFT 13) gives index 4 as parsed instead of page 2 less 1, that is 1.
   */
  lemma ParsedIndexWrongOffPageZero()
    ensures Pow2(13) == 8192 && Pow2(12) == 4096
    ensures IndexAsParsed(2 * 8192, 13, 1) == 4
    ensures PageIndex(2 * 8192, 13, 1) == 1
  {
    assert Pow2(12) == 4096 by {
      assert Pow2(4) == 16;
      assert Pow2(8) == 256;
    }
  }
}
