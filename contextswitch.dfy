// contextswitch.c: the two kernel-context functions handed to KernelContextSwitch. KCSwitch
// points the kernel-stack pages of region 0 at the next process's stack frames; KCCopy
// duplicates the live kernel stack into a new process's frames through a borrowed page.
//
// Region 0 starts at page 0, so `stackBase` (KERNEL_STACK_BASE >> PAGESHIFT) indexes the
// region-0 table directly. A PCB's kernel_stack_pt has KERNEL_STACK_SIZE entries.

module ContextSwitch {
  import opened Defs
  import opened Process
  import opened State

  /** The highest index at or below `j` whose entry is invalid, or -1 when there is none. */
  function HighestInvalid(t: seq<PTE>, j: int): (w: int)
    requires -1 <= j < |t|
    ensures -1 <= w <= j && (w >= 0 ==> !t[w].valid)
    ensures forall i :: w < i <= j && 0 <= i ==> t[i].valid
    decreases j + 1
  {
    if j < 0 then -1
    else if !t[j].valid then j
    else HighestInvalid(t, j - 1)
  }

  /**
   * The window search of KCCopy and KernelFork: scan from the kernel stack's first page down to
   * page 0 and stop at the first invalid entry; -1 when every entry there is valid.
   */
  method FindWindow(kpt: array<PTE>, stackBase: int) returns (idx: int)
    requires -1 <= stackBase < kpt.Length
    ensures idx == HighestInvalid(kpt[..], stackBase)
    ensures idx == -1 <==> forall j :: 0 <= j <= stackBase ==> kpt[j].valid
  {
    idx := -1;
    var index := stackBase;
    while index >= 0
      invariant -1 <= index <= stackBase
      invariant HighestInvalid(kpt[..], stackBase) == HighestInvalid(kpt[..], index)
      decreases index + 1
    {
      if !kpt[index].valid {
        idx := index;
        return;
      }
      index := index - 1;
    }
  }

  /**
   * Frame contents after copying frame `src[i]` into frame `dst[i]` for i = 0, 1, ..., n - 1
   * in turn (a frame with no recorded contents reads as empty).
   */
  ghost function CopyFrames(f: map<int, seq<int>>, src: seq<int>, dst: seq<int>, n: nat): (g: map<int, seq<int>>)
    requires n <= |src| && n <= |dst|
  {
    if n == 0 then f
    else
      var g := CopyFrames(f, src, dst, n - 1);
      g[dst[n - 1] := if src[n - 1] in g then g[src[n - 1]] else []]
  }

  /**
   * When the destination frames are distinct and none is a source frame, every destination
   * ends up holding its source's original contents and every other frame is untouched.
   */
  lemma {:induction false} CopyFramesCopies(f: map<int, seq<int>>, src: seq<int>, dst: seq<int>, n: nat)
    requires n <= |src| && n <= |dst|
    requires forall i :: 0 <= i < n ==> src[i] in f
    requires forall i, j :: 0 <= i < j < n ==> dst[i] != dst[j]
    requires forall i, j :: 0 <= i < n && 0 <= j < n ==> dst[i] != src[j]
    ensures forall i :: 0 <= i < n ==> dst[i] in CopyFrames(f, src, dst, n) && CopyFrames(f, src, dst, n)[dst[i]] == f[src[i]]
    ensures forall x :: x in f && (forall i :: 0 <= i < n ==> x != dst[i]) ==> x in CopyFrames(f, src, dst, n) && CopyFrames(f, src, dst, n)[x] == f[x]
  {
    if n > 0 {
      CopyFramesCopies(f, src, dst, n - 1);
      var g := CopyFrames(f, src, dst, n - 1);
      assert g[src[n - 1]] == f[src[n - 1]];
    }
  }

  /** The frames behind the `n` kernel-stack pages of region-0 table `t`. */
  function StackFrames(t: seq<PTE>, stackBase: int, n: nat): (s: seq<int>)
    requires 0 <= stackBase && stackBase + n <= |t|
    ensures |s| == n && forall i :: 0 <= i < n ==> s[i] == t[stackBase + i].pfn
  {
    seq(n, i requires 0 <= i < n => t[stackBase + i].pfn)
  }

  /** The frames a PCB's kernel_stack_pt names. */
  function Pfns(t: seq<PTE>): (s: seq<int>)
    ensures |s| == |t| && forall i :: 0 <= i < |t| ==> s[i] == t[i].pfn
  {
    seq(|t|, i requires 0 <= i < |t| => t[i].pfn)
  }

  /**
   * One round of KCCopy's copy loop: `dst[i]` is marked valid, window entry `w` is pointed at
   * its frame, and live stack page i is copied into that frame.
   */
  method CopyPage(kpt: array<PTE>, w: int, dst: array<PTE>, i: int, mem: PhysMem, stackBase: int)
    requires 0 <= w < kpt.Length && 0 <= i < dst.Length && 0 <= stackBase + i < kpt.Length
    requires dst != kpt && w != stackBase + i && kpt[stackBase + i].pfn in mem.frames
    modifies kpt, dst, mem
    ensures dst[..] == old(dst[..])[i := old(dst[i]).(valid := true)]
    ensures kpt[..] == old(kpt[..])[w := old(kpt[w]).(pfn := old(dst[i]).pfn)]
    ensures mem.frames == old(mem.frames)[old(dst[i]).pfn := old(mem.frames[kpt[stackBase + i].pfn])]
    ensures mem.freeList == old(mem.freeList)
  {
    var entry := dst[i];
    dst[i] := entry.(valid := true);
    kpt[w] := kpt[w].(pfn := entry.pfn);
    // The window now shows dst[i]'s frame: copy the live stack page into it.
    var source := kpt[stackBase + i].pfn;
    mem.frames := mem.frames[entry.pfn := mem.frames[source]];
  }

  /**
   * The copy loop of KCCopy, through window entry `w`: each of `dst`'s entries is marked valid,
   * the window is pointed at its frame and live stack page i is copied there; the window ends
   * invalid with frame 0 and no protection, and no other region-0 entry changes.
   */
  method CopyThroughWindow(kpt: array<PTE>, w: int, dst: array<PTE>, mem: PhysMem, stackBase: int)
    requires 0 <= w < stackBase && stackBase + dst.Length <= kpt.Length && dst != kpt
    requires forall p :: stackBase <= p < stackBase + dst.Length ==> kpt[p].pfn in mem.frames
    modifies kpt, dst, mem
    ensures kpt[..] == old(kpt[..])[w := INVALID_PTE]
    ensures forall i :: 0 <= i < dst.Length ==> dst[i] == old(dst[i]).(valid := true)
    ensures mem.frames == CopyFrames(old(mem.frames), StackFrames(old(kpt[..]), stackBase, dst.Length),
                                     Pfns(old(dst[..])), dst.Length)
    ensures mem.freeList == old(mem.freeList)
  {
    ghost var t0 := kpt[..];
    ghost var src := StackFrames(t0, stackBase, dst.Length);
    ghost var d0 := dst[..];
    ghost var pfns := Pfns(d0);
    ghost var f0 := mem.frames;
    forall j | 0 <= j < dst.Length
      ensures src[j] in f0
    {
      assert src[j] == kpt[stackBase + j].pfn;
    }
    kpt[w] := kpt[w].(valid := true, prot := NO_X_W_R);
    var i := 0;
    while i < dst.Length
      invariant 0 <= i <= dst.Length
      invariant kpt[..] == t0[w := kpt[w]]
      invariant dst[..] == Validated(d0, i)
      invariant mem.frames == CopyFrames(f0, src, pfns, i) && f0.Keys <= mem.frames.Keys
      invariant mem.freeList == old(mem.freeList)
    {
      assert kpt[stackBase + i] == t0[stackBase + i];
      assert dst[i].pfn == pfns[i] && kpt[stackBase + i].pfn == src[i];
      ghost var g := mem.frames;
      CopyPage(kpt, w, dst, i, mem, stackBase);
      assert mem.frames == g[pfns[i] := g[src[i]]];
      assert CopyFrames(f0, src, pfns, i + 1) == g[pfns[i] := g[src[i]]];
      assert dst[..] == Validated(d0, i + 1);
      i := i + 1;
    }
    kpt[w] := INVALID_PTE;
    assert kpt[..] == t0[w := INVALID_PTE];
  }

  /** `d` with its first `i` entries marked valid. */
  function Validated(d: seq<PTE>, i: nat): (v: seq<PTE>)
    requires i <= |d|
    ensures |v| == |d|
    ensures forall j :: 0 <= j < |d| ==> v[j] == if j < i then d[j].(valid := true) else d[j]
  {
    seq(|d|, j requires 0 <= j < |d| => if j < i then d[j].(valid := true) else d[j])
  }

  /**
   * KCCopy: NULL with no change for a NULL context or PCB. Otherwise the context is saved in
   * the PCB; NULL when no region-0 entry at or below the stack base is invalid. Otherwise that
   * highest invalid entry serves as a window through which the live kernel stack is copied
   * into the PCB's stack frames (CopyThroughWindow), and `kc` is returned. The live stack
   * pages are mapped, as they are while the kernel runs on them, and KERNEL_STACK_SIZE is
   * positive.
   */
  method KCCopy(kc: Option<KernelContext>, pcb: Pcb?, kpt: array<PTE>, mem: PhysMem, stackBase: int)
    returns (r: Option<KernelContext>)
    requires 0 <= stackBase < kpt.Length
    requires pcb != null ==>
               pcb.kernelStackPt != kpt && 0 < pcb.kernelStackPt.Length && stackBase + pcb.kernelStackPt.Length <= kpt.Length &&
               forall p :: stackBase <= p < stackBase + pcb.kernelStackPt.Length ==>
                 kpt[p].valid && kpt[p].pfn in mem.frames
    modifies (if pcb == null then {} else {pcb})`kernelContext, if pcb == null then null else pcb.kernelStackPt, kpt, mem
    ensures mem.freeList == old(mem.freeList)
    ensures kc.None? || pcb == null ==> r.None? && mem.frames == old(mem.frames) && kpt[..] == old(kpt[..])
    ensures kc.None? && pcb != null ==> unchanged(pcb) && unchanged(pcb.kernelStackPt)
    ensures kc.Some? && pcb != null ==>
              var w := HighestInvalid(old(kpt[..]), stackBase);
              var n := pcb.kernelStackPt.Length;
              pcb.kernelContext == kc.value &&
              (w == -1 ==> r.None? && kpt[..] == old(kpt[..]) && mem.frames == old(mem.frames) &&
                           pcb.kernelStackPt[..] == old(pcb.kernelStackPt[..])) &&
              (w != -1 ==> r == kc && w < stackBase &&
                           kpt[..] == old(kpt[..])[w := INVALID_PTE] &&
                           (forall i :: 0 <= i < n ==>
                              pcb.kernelStackPt[i] == old(pcb.kernelStackPt[i]).(valid := true)) &&
                           mem.frames == CopyFrames(old(mem.frames), StackFrames(old(kpt[..]), stackBase, n),
                                                    Pfns(old(pcb.kernelStackPt[..])), n))
  {
    if kc.None? || pcb == null {
      return None;
    }
    pcb.kernelContext := kc.value;
    // The live stack's first page is mapped, so any window lies below it.
    assert kpt[stackBase].valid;
    var w := FindWindow(kpt, stackBase);
    if w == -1 {
      return None;
    }
    CopyThroughWindow(kpt, w, pcb.kernelStackPt, mem, stackBase);
    r := kc;
  }

  /** Region-0 table `t` with the `|stack|` entries from `stackBase` replaced by `stack`. */
  function Remap(t: seq<PTE>, stackBase: int, stack: seq<PTE>): (u: seq<PTE>)
    requires 0 <= stackBase && stackBase + |stack| <= |t|
    ensures |u| == |t|
    ensures forall i :: 0 <= i < |stack| ==> u[stackBase + i] == stack[i]
    ensures forall j :: 0 <= j < |t| && !(stackBase <= j < stackBase + |stack|) ==> u[j] == t[j]
  {
    t[..stackBase] + stack + t[stackBase + |stack|..]
  }

  /**
   * KCSwitch: the context is saved in `curr`, the kernel-stack entries of region 0 become a
   * copy of `next`'s kernel_stack_pt (frame, protection and valid bit), every other entry
   * stays, and the result is `next`'s saved context.
   */
  method KCSwitch(kc: KernelContext, curr: Pcb, next: Pcb, kpt: array<PTE>, stackBase: int)
    returns (r: KernelContext)
    requires 0 <= stackBase && stackBase + next.kernelStackPt.Length <= kpt.Length
    requires next.kernelStackPt != kpt
    modifies curr`kernelContext, kpt
    ensures curr.kernelContext == kc && r == next.kernelContext
    ensures kpt[..] == Remap(old(kpt[..]), stackBase, next.kernelStackPt[..])
  {
    curr.kernelContext := kc;
    var n := next.kernelStackPt.Length;
    var i := 0;
    while i < n
      invariant 0 <= i <= n
      invariant forall j :: 0 <= j < i ==> kpt[stackBase + j] == next.kernelStackPt[j]
      invariant forall j :: 0 <= j < kpt.Length && !(stackBase <= j < stackBase + i) ==> kpt[j] == old(kpt[j])
      invariant curr.kernelContext == kc
    {
      kpt[stackBase + i] := next.kernelStackPt[i];
      i := i + 1;
    }
    ghost var u := Remap(old(kpt[..]), stackBase, next.kernelStackPt[..]);
    assert forall j :: 0 <= j < kpt.Length ==> kpt[j] == u[j];
    r := next.kernelContext;
  }

  /**
   * Switching A -> B and then B -> A leaves the window showing A's stack entries, and the rest
   * of region 0 as it was before the first switch.
   */
  lemma {:induction false} RemapRoundTrip(t: seq<PTE>, stackBase: int, a: seq<PTE>, b: seq<PTE>)
    requires 0 <= stackBase && stackBase + |a| <= |t| && |b| == |a|
    ensures Remap(Remap(t, stackBase, b), stackBase, a) == Remap(t, stackBase, a)
    ensures Remap(Remap(t, stackBase, b), stackBase, a)[stackBase..stackBase + |a|] == a
  {
    var u := Remap(Remap(t, stackBase, b), stackBase, a);
    var v := Remap(t, stackBase, a);
    assert |u| == |v|;
    forall j | 0 <= j < |u|
      ensures u[j] == v[j]
    {
      if stackBase <= j < stackBase + |a| {
        assert u[stackBase + (j - stackBase)] == a[j - stackBase];
      }
    }
    assert u == v;
    forall i | 0 <= i < |a|
      ensures u[stackBase..stackBase + |a|][i] == a[i]
    {
      assert u[stackBase..stackBase + |a|][i] == u[stackBase + i];
    }
  }

  /** KCSwitch there and back: the region-0 stack entries are A's again, the rest untouched. */
  method SwitchThereAndBack(kc: KernelContext, a: Pcb, b: Pcb, kpt: array<PTE>, stackBase: int)
    requires 0 <= stackBase && stackBase + a.kernelStackPt.Length <= kpt.Length
    requires b.kernelStackPt.Length == a.kernelStackPt.Length
    requires a.kernelStackPt != kpt && b.kernelStackPt != kpt
    modifies a`kernelContext, b`kernelContext, kpt
    ensures kpt[..] == Remap(old(kpt[..]), stackBase, a.kernelStackPt[..])
  {
    var kb := KCSwitch(kc, a, b, kpt, stackBase);
    ghost var mid := kpt[..];
    var ka := KCSwitch(kb, b, a, kpt, stackBase);
    RemapRoundTrip(old(kpt[..]), stackBase, a.kernelStackPt[..], old(b.kernelStackPt[..]));
  }
}
