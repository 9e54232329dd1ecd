// syscalls.c, KernelBrk: move the user heap's end (the PCB's heap index into its region-1
// table) up or down. Growing maps each new page read/write on a frame from AllocatePFN;
// shrinking hands each frame back with DeallocatePFN and resets the entry. The frames come
// from the free list of `PhysMem`, whose AllocatePFN hands out the head and whose
// DeallocatePFN appends.

module UserBrk {
  import opened Defs
  import opened Process
  import opened State
  import ContextSwitch

  /**
   * The region-1 index KernelBrk computes for `addr`: UP_TO_PAGE(addr) >> PAGESHIFT less the
   * first page of region 1, `userPageBase`. It names the first page wholly at or above `addr`.
   */
  function TargetIndex(addr: int, pageSize: int, userPageBase: int): (t: int)
    requires pageSize > 0 && 0 <= addr
    ensures addr <= (t + userPageBase) * pageSize < addr + pageSize
  {
    var q := (addr + pageSize - 1) / pageSize;
    assert q * pageSize + (addr + pageSize - 1) % pageSize == addr + pageSize - 1;
    q - userPageBase
  }

  /** The first loops of KernelBrk: whether every entry in [lo, hi) has valid bit `valid`. */
  method AllMarked(upt: array<PTE>, lo: int, hi: int, valid: bool) returns (ok: bool)
    requires 0 <= lo <= hi <= upt.Length
    ensures ok <==> forall i :: lo <= i < hi ==> upt[i].valid == valid
  {
    var i := lo;
    while i < hi
      invariant lo <= i <= hi
      invariant forall j :: lo <= j < i ==> upt[j].valid == valid
    {
      if upt[i].valid != valid {
        return false;
      }
      i := i + 1;
    }
    return true;
  }

  /**
   * Table `u` and free list `g` after pages [lo, lo + n) of table `t` were mapped read/write,
   * in order, on the first `n` frames of free list `f`, and nothing else changed.
   */
  ghost predicate MappedFresh(t: seq<PTE>, u: seq<PTE>, f: seq<int>, g: seq<int>, lo: int, n: int)
  {
    0 <= lo && 0 <= n <= |f| && lo + n <= |t| == |u| && g == f[n..] &&
    (forall i :: lo <= i < lo + n ==> u[i] == PTE(true, f[i - lo], NO_X_W_R)) &&
    (forall i :: 0 <= i < |t| && !(lo <= i < lo + n) ==> u[i] == t[i])
  }

  /**
   * Table `u` and free list `g` after the frames of pages [lo, lo + n) of table `t` were handed
   * back, in order, to the end of free list `f` and those entries reset to the invalid entry.
   */
  ghost predicate Unmapped(t: seq<PTE>, u: seq<PTE>, f: seq<int>, g: seq<int>, lo: int, n: int)
  {
    0 <= lo && 0 <= n && lo + n <= |t| == |u| && |g| == |f| + n &&
    (forall j :: 0 <= j < |f| ==> g[j] == f[j]) &&
    (forall j :: |f| <= j < |g| ==> g[j] == t[lo + j - |f|].pfn) &&
    (forall i :: lo <= i < lo + n ==> u[i] == INVALID_PTE) &&
    (forall i :: 0 <= i < |t| && !(lo <= i < lo + n) ==> u[i] == t[i])
  }

  /**
   * The second loop of a growing KernelBrk: each page in [lo, hi) gets a frame from
   * AllocatePFN. When the frames run out the result is ERROR and the pages mapped so far stay
   * mapped (the C code's clean-up call comes after its `return` and never runs).
   */
  method MapFresh(upt: array<PTE>, mem: PhysMem, lo: int, hi: int) returns (rc: int)
    requires 0 <= lo <= hi <= upt.Length && mem.Valid()
    requires forall i :: lo <= i < hi ==> !upt[i].valid
    modifies upt, mem
    ensures mem.Valid() && mem.frames == old(mem.frames)
    ensures rc == 0 || rc == ERROR
    ensures var f := old(mem.freeList);
            (rc == ERROR <==> |f| < hi - lo) &&
            MappedFresh(old(upt[..]), upt[..], f, mem.freeList, lo, if hi - lo <= |f| then hi - lo else |f|)
  {
    ghost var t, f := upt[..], mem.freeList;
    var i := lo;
    while i < hi
      invariant lo <= i <= hi && i - lo <= |f|
      invariant mem.Valid() && mem.frames == old(mem.frames)
      invariant MappedFresh(t, upt[..], f, mem.freeList, lo, i - lo)
    {
      if !upt[i].valid {
        var pfn := mem.AllocatePfn();
        if pfn == ERROR {
          return ERROR;
        }
        upt[i] := PTE(true, pfn, NO_X_W_R);
      }
      i := i + 1;
    }
    rc := 0;
  }

  /**
   * How many of the frames of pages [lo, hi) of table `t`, handed to DeallocatePFN one by one
   * starting from free list `free`, are taken back before the first refusal (a negative frame,
   * or one that is already free).
   */
  function Released(t: seq<PTE>, lo: int, hi: int, free: seq<int>): (n: nat)
    requires 0 <= lo <= hi <= |t|
    ensures n <= hi - lo
    decreases hi - lo
  {
    if lo == hi || t[lo].pfn < 0 || t[lo].pfn in free then 0
    else 1 + Released(t, lo + 1, hi, free + [t[lo].pfn])
  }

  /**
   * One round of the shrink loop at page `i`, over table `t` whose pages from `lo` were being
   * handed back to free list `f`: the frame goes back and the entry is reset, or DeallocatePFN
   * refuses it (`ok` false) and nothing changes.
   */
  method UnmapPage(upt: array<PTE>, mem: PhysMem, ghost t: seq<PTE>, ghost f: seq<int>, lo: int, hi: int, i: int)
    returns (ok: bool)
    requires 0 <= lo <= i < hi <= |t| && t[i].valid
    requires mem.Valid() && Unmapped(t, upt[..], f, mem.freeList, lo, i - lo)
    modifies upt, mem
    ensures mem.Valid() && mem.frames == old(mem.frames)
    ensures ok ==> Unmapped(t, upt[..], f, mem.freeList, lo, i + 1 - lo) &&
                   Released(t, i, hi, old(mem.freeList)) == 1 + Released(t, i + 1, hi, mem.freeList)
    ensures !ok ==> Released(t, i, hi, old(mem.freeList)) == 0 &&
                    upt[..] == old(upt[..]) && mem.freeList == old(mem.freeList)
  {
    var rc := mem.DeallocatePfn(upt[i].pfn);
    if rc == ERROR {
      return false;
    }
    upt[i] := INVALID_PTE;
    ok := true;
  }

  /**
   * Where the frames of pages [lo, hi) of table `t`, handed to DeallocatePFN one by one from
   * free list `free`, stop being taken back: at a negative frame, one already free, or one
   * handed back earlier in the same run.
   */
  lemma {:induction false} ReleasedStopsAtRefusal(t: seq<PTE>, lo: int, hi: int, free: seq<int>)
    requires 0 <= lo <= hi <= |t|
    ensures var n := Released(t, lo, hi, free);
            n < hi - lo ==>
              t[lo + n].pfn < 0 || t[lo + n].pfn in free ||
              exists j :: lo <= j < lo + n && t[j].pfn == t[lo + n].pfn
    decreases hi - lo
  {
    if lo < hi && 0 <= t[lo].pfn && t[lo].pfn !in free {
      ReleasedStopsAtRefusal(t, lo + 1, hi, free + [t[lo].pfn]);
      var n := Released(t, lo + 1, hi, free + [t[lo].pfn]);
      if n < hi - lo - 1 && t[lo + 1 + n].pfn == t[lo].pfn {
        assert lo <= lo < lo + 1 + n;
      }
    }
  }

  /**
   * The outcome of handing back the frames of pages [lo, hi) of table `t` to free list `f`:
   * table `u`, free list `g`, and result 0 exactly when every frame was taken back.
   */
  ghost predicate ReleaseOutcome(t: seq<PTE>, u: seq<PTE>, f: seq<int>, g: seq<int>, lo: int, hi: int, rc: int)
    requires 0 <= lo <= hi <= |t|
  {
    var n := Released(t, lo, hi, f);
    (rc == 0 || rc == ERROR) && (rc == 0 <==> n == hi - lo) && Unmapped(t, u, f, g, lo, n)
  }

  /**
   * The second loop of a shrinking KernelBrk: the frame of each page in [lo, hi) goes back to
   * DeallocatePFN and the entry becomes the invalid entry, until DeallocatePFN refuses one,
   * which makes the result ERROR with the pages before it already released.
   */
  method UnmapRange(upt: array<PTE>, mem: PhysMem, lo: int, hi: int) returns (rc: int)
    requires 0 <= lo <= hi <= upt.Length && mem.Valid()
    requires forall i :: lo <= i < hi ==> upt[i].valid
    modifies upt, mem
    ensures mem.Valid() && mem.frames == old(mem.frames)
    ensures rc == 0 || rc == ERROR
    ensures ReleaseOutcome(old(upt[..]), upt[..], old(mem.freeList), mem.freeList, lo, hi, rc)
  {
    ghost var t, f := upt[..], mem.freeList;
    var i := lo;
    while i < hi
      invariant lo <= i <= hi
      invariant mem.Valid() && mem.frames == old(mem.frames)
      invariant Released(t, lo, hi, f) == (i - lo) + Released(t, i, hi, mem.freeList)
      invariant Unmapped(t, upt[..], f, mem.freeList, lo, i - lo)
    {
      if upt[i].valid {
        var ok := UnmapPage(upt, mem, t, f, lo, hi, i);
        if !ok {
          return ERROR;
        }
      }
      i := i + 1;
    }
    rc := 0;
  }

  /**
   * The outcome of growing the heap over pages [lo, hi) of table `t` with free list `f`:
   * ERROR with nothing changed when one of the pages is already valid, otherwise the pages
   * mapped as far as the free frames go, and 0 exactly when they all were.
   */
  ghost predicate GrowOutcome(t: seq<PTE>, u: seq<PTE>, f: seq<int>, g: seq<int>, lo: int, hi: int, rc: int)
    requires 0 <= lo <= hi <= |t|
  {
    if exists i :: lo <= i < hi && t[i].valid then rc == ERROR && u == t && g == f
    else
      (rc == 0 || rc == ERROR) && (rc == 0 <==> hi - lo <= |f|) &&
      MappedFresh(t, u, f, g, lo, if hi - lo <= |f| then hi - lo else |f|)
  }

  /**
   * The outcome of shrinking the heap over pages [lo, hi) of table `t` with free list `f`:
   * ERROR with nothing changed when one of the pages is not valid, otherwise their frames
   * handed back as far as DeallocatePFN takes them.
   */
  ghost predicate ShrinkOutcome(t: seq<PTE>, u: seq<PTE>, f: seq<int>, g: seq<int>, lo: int, hi: int, rc: int)
    requires 0 <= lo <= hi <= |t|
  {
    if exists i :: lo <= i < hi && !t[i].valid then rc == ERROR && u == t && g == f
    else ReleaseOutcome(t, u, f, g, lo, hi, rc)
  }

  /** The growing branch of KernelBrk (syscalls.c:360-380): check the pages, then map them. */
  method GrowHeap(upt: array<PTE>, mem: PhysMem, lo: int, hi: int) returns (rc: int)
    requires 0 <= lo <= hi <= upt.Length && mem.Valid()
    modifies upt, mem
    ensures mem.Valid() && mem.frames == old(mem.frames)
    ensures GrowOutcome(old(upt[..]), upt[..], old(mem.freeList), mem.freeList, lo, hi, rc)
  {
    var free := AllMarked(upt, lo, hi, false);
    if !free {
      return ERROR;
    }
    rc := MapFresh(upt, mem, lo, hi);
  }

  /** The shrinking branch of KernelBrk (syscalls.c:384-406): check the pages, then release them. */
  method ShrinkHeap(upt: array<PTE>, mem: PhysMem, lo: int, hi: int) returns (rc: int)
    requires 0 <= lo <= hi <= upt.Length && mem.Valid()
    modifies upt, mem
    ensures mem.Valid() && mem.frames == old(mem.frames)
    ensures ShrinkOutcome(old(upt[..]), upt[..], old(mem.freeList), mem.freeList, lo, hi, rc)
  {
    var taken := AllMarked(upt, lo, hi, true);
    if !taken {
      return ERROR;
    }
    rc := UnmapRange(upt, mem, lo, hi);
  }

  /**
   * KernelBrk (syscalls.c:336-410), for the active process. ERROR with nothing changed for a
   * NULL address and for a target index not strictly between the data and stack indices.
   * Otherwise the heap grows over [heap, target) or shrinks over [target, heap) as GrowOutcome
   * and ShrinkOutcome say, and the heap index becomes the target exactly when that gave 0;
   * after a failure part way the pages handled so far stay as they were left.
   */
  method KernelBrk(k: Kernel, addr: int, pageSize: int, userPageBase: int) returns (rc: int)
    requires pageSize > 0 && 0 <= addr
    requires k.active != null && k.active.SegmentsOrdered() && k.mem.Valid()
    modifies k.active.userPageTable, k.mem, k.active`userHeapPtIndex
    ensures k.mem.Valid() && k.active.SegmentsOrdered() && k.mem.frames == old(k.mem.frames)
    ensures rc == 0 || rc == ERROR
    ensures var a := k.active;
            var t, heap := TargetIndex(addr, pageSize, userPageBase), old(a.userHeapPtIndex);
            var u0, u1, f0, f1 := old(a.userPageTable[..]), a.userPageTable[..], old(k.mem.freeList), k.mem.freeList;
            if addr == 0 || t >= a.userStackPtIndex || t <= a.userDataPtIndex then
              rc == ERROR && u1 == u0 && f1 == f0 && a.userHeapPtIndex == heap
            else
              (if t > heap then GrowOutcome(u0, u1, f0, f1, heap, t, rc)
               else ShrinkOutcome(u0, u1, f0, f1, t, heap, rc)) &&
              a.userHeapPtIndex == (if rc == 0 then t else heap)
  {
    if addr == 0 {
      return ERROR;
    }
    var a := k.active;
    var heap, stack, data := a.userHeapPtIndex, a.userStackPtIndex, a.userDataPtIndex;
    var target := TargetIndex(addr, pageSize, userPageBase);
    if target >= stack || target <= data {
      return ERROR;
    }
    if target > heap {
      rc := GrowHeap(a.userPageTable, k.mem, heap, target);
    } else {
      rc := ShrinkHeap(a.userPageTable, k.mem, target, heap);
    }
    if rc == ERROR {
      return ERROR;
    }
    a.userHeapPtIndex := target;
  }

  /**
   * Frames that are not negative, pairwise distinct and not free are all taken back by
   * DeallocatePFN, one after the other.
   */
  lemma {:induction false} OwnedFramesRelease(t: seq<PTE>, lo: int, hi: int, free: seq<int>)
    requires 0 <= lo <= hi <= |t|
    requires forall i :: lo <= i < hi ==> 0 <= t[i].pfn && t[i].pfn !in free
    requires forall i, j :: lo <= i < j < hi ==> t[i].pfn != t[j].pfn
    ensures Released(t, lo, hi, free) == hi - lo
    decreases hi - lo
  {
    if lo < hi {
      OwnedFramesRelease(t, lo + 1, hi, free + [t[lo].pfn]);
    }
  }

  /**
   * Growing the heap by `n` pages and shrinking it back gives every frame back: the shrink
   * releases all `n` frames, the free list holds the same frames as before (the `n` taken
   * ones now at its end), and pages that were the invalid entry before are so again.
   */
  lemma GrowThenShrink(u0: seq<PTE>, u1: seq<PTE>, u2: seq<PTE>, f0: seq<int>, f1: seq<int>, f2: seq<int>,
                       lo: int, n: int)
    requires forall i :: 0 <= i < |f0| ==> 0 <= f0[i]
    requires forall i, j :: 0 <= i < j < |f0| ==> f0[i] != f0[j]
    requires MappedFresh(u0, u1, f0, f1, lo, n)
    requires Unmapped(u1, u2, f1, f2, lo, Released(u1, lo, lo + n, f1))
    ensures Released(u1, lo, lo + n, f1) == n
    ensures f2 == f0[n..] + f0[..n] && multiset(f2) == multiset(f0)
    ensures (forall i :: lo <= i < lo + n ==> u0[i] == INVALID_PTE) ==> u2 == u0
  {
    forall i | lo <= i < lo + n
      ensures 0 <= u1[i].pfn && u1[i].pfn !in f1
    {
      assert u1[i].pfn == f0[i - lo];
    }
    OwnedFramesRelease(u1, lo, lo + n, f1);
    FreeListRotated(u1, f0, f1, f2, lo, n);
    if forall i :: lo <= i < lo + n ==> u0[i] == INVALID_PTE {
      assert forall i :: 0 <= i < |u0| ==> u2[i] == u0[i];
    }
  }

  /** The free list after a grow by `n` pages and the shrink back: the taken frames rotate to its end. */
  lemma FreeListRotated(u1: seq<PTE>, f0: seq<int>, f1: seq<int>, f2: seq<int>, lo: int, n: int)
    requires 0 <= lo && 0 <= n <= |f0| && lo + n <= |u1| && f1 == f0[n..]
    requires forall i :: lo <= i < lo + n ==> u1[i].pfn == f0[i - lo]
    requires |f2| == |f1| + n && (forall j :: 0 <= j < |f1| ==> f2[j] == f1[j])
    requires forall j :: |f1| <= j < |f2| ==> f2[j] == u1[lo + j - |f1|].pfn
    ensures f2 == f0[n..] + f0[..n] && multiset(f2) == multiset(f0)
  {
    assert f2 == f0[n..] + f0[..n];
    assert f0 == f0[..n] + f0[n..];
  }
}
