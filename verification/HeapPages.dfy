/** Backing the kernel heap with memory: a level-1 table for every heap page, then one frame for each page. */
module HeapPages {
  import opened Align
  import opened Extents
  import opened Basics
  import opened PageTable
  import opened DirectMap
  import FrameAllocation
  import opened Mapping

  /** The heap pages mapped so far, page `k` to frame `frames[k]`, and every other translation as it was. */
  ghost predicate HeapMapped(before: Memory, mem: Memory, root: nat, base: nat, frames: seq<nat>) {
    forall w: Virt :: ToPhys(mem, root, w) == HeapTranslation(before, root, base, frames, w)
  }

  ghost function HeapTranslation(before: Memory, root: nat, base: nat, frames: seq<nat>, w: nat): Option<nat> {
    if base <= w && (w - base) / FOUR_KB < |frames| then Some(frames[(w - base) / FOUR_KB] + (w - base) % FOUR_KB)
    else ToPhys(before, root, w)
  }

  /** Exactly the frames between two positions of the allocator, in order, none of them a table. */
  ghost predicate DataFrames(mem: Memory, root: nat, usable: seq<Extent>, frames: seq<nat>, lo: nat, hi: nat) {
    && (forall i, j :: 0 <= i < j < |frames| ==> frames[i] + FOUR_KB <= frames[j])
    && (forall i :: 0 <= i < |frames| ==> frames[i] + FOUR_KB <= hi && !IsTable(mem, root, frames[i]))
    && (forall p: nat :: p in frames <==> lo <= p < hi && FrameAllocation.IsFrame(usable, FOUR_KB, p))
  }

  ghost predicate SameTables(before: Memory, mem: Memory, root: nat) {
    forall w: Virt, m :: 1 <= m <= 4 ==> TableAt(mem, root, w, m) == TableAt(before, root, w, m)
  }

  /** The heap loop indexes level 1 with the address shifted into the direct map; the shift does not show there. */
  lemma {:induction false} ShiftedIndex(v: nat)
    ensures Index(PHYS_MEM_VIRT_ADDR + v, 1) == Index(v, 1)
  {
  }

  /** An unmapped page with a level-1 table is unmapped throughout. */
  lemma {:induction false} PageUnmapped(mem: Memory, root: nat, v: Virt, w: Virt)
    requires TableAt(mem, root, v, 1).Some? && ToPhys(mem, root, v) == None && Top(w, 1) == Top(v, 1)
    ensures ToPhys(mem, root, w) == None
  {
    TopStep(v, w, 1);
    SamePath(mem, root, v, w, 1);
    WalkThrough(mem, root, v, 1);
    WalkThrough(mem, root, w, 1);
    ToPhysIsWalk(mem, root, v);
    ToPhysIsWalk(mem, root, w);
  }

  /** Entering frame `p` for the unmapped page at `v`. */
  lemma {:induction false} PageLeaf(mem: Memory, root: nat, v: Virt, p: nat, t: nat, mem': Memory)
    requires Tree(mem, root) && TableAt(mem, root, v, 1) == Some(t) && v % FOUR_KB == 0 && ToPhys(mem, root, v) == None
    requires mem' == Write(mem, t, Index(v, 1), Entry(p, TABLE_FLAGS))
    ensures Tree(mem', root) && SameTables(mem, mem', root)
    ensures forall w: Virt ::
      ToPhys(mem', root, w) == if v <= w < v + FOUR_KB then Some(p + (w - v)) else ToPhys(mem, root, w)
    ensures forall w: Virt :: v <= w < v + FOUR_KB ==> ToPhys(mem, root, w) == None
  {
    WriteLeaf(mem, root, v, 1, Entry(p, TABLE_FLAGS));
    forall w: Virt
      ensures ToPhys(mem', root, w) == if v <= w < v + FOUR_KB then Some(p + (w - v)) else ToPhys(mem, root, w)
      ensures v <= w < v + FOUR_KB ==> ToPhys(mem, root, w) == None
    {
      SamePage(v, w, p);
      if v <= w < v + FOUR_KB {
        PageUnmapped(mem, root, v, w);
      }
    }
  }

  lemma {:induction false} SamePage(v: Virt, w: Virt, p: nat)
    requires v % FOUR_KB == 0
    ensures Top(w, 1) == Top(v, 1) <==> v <= w < v + FOUR_KB
    ensures v <= w < v + FOUR_KB ==> Through(Entry(p, TABLE_FLAGS), w, 1) == Some(p + (w - v))
  {
    SameSpan(v, w);
  }

  /** One more page: the map of the heap grows by exactly that page. */
  lemma {:induction false} OneMorePage(before: Memory, mem: Memory, mem': Memory, root: nat, base: nat,
                                       frames: seq<nat>, p: nat, v: nat)
    requires HeapMapped(before, mem, root, base, frames) && v == Nth(base, FOUR_KB, |frames|)
    requires forall w: Virt ::
      ToPhys(mem', root, w) == if v <= w < v + FOUR_KB then Some(p + (w - v)) else ToPhys(mem, root, w)
    ensures HeapMapped(before, mem', root, base, frames + [p])
  {
    forall w: Virt ensures ToPhys(mem', root, w) == HeapTranslation(before, root, base, frames + [p], w) {
      assert ToPhys(mem, root, w) == HeapTranslation(before, root, base, frames, w);
      GrownTranslation(before, root, base, frames, p, w);
    }
  }

  lemma {:induction false} GrownTranslation(before: Memory, root: nat, base: nat, frames: seq<nat>, p: nat, w: Virt)
    ensures var v := base + FOUR_KB * |frames|;
      HeapTranslation(before, root, base, frames + [p], w)
        == if v <= w < v + FOUR_KB then Some(p + (w - v)) else HeapTranslation(before, root, base, frames, w)
  {
  }

  /** What holds between two pages of the heap loop. */
  ghost predicate Progress(before: Memory, mem: Memory, root: nat, usable: seq<Extent>, c: FrameAllocation.Cursor,
                           base: nat, frames: seq<nat>, lo: nat)
  {
    && Tree(mem, root) && Spare(mem, root, usable, c) && SameTables(before, mem, root)
    && HeapMapped(before, mem, root, base, frames) && DataFrames(mem, root, usable, frames, lo, c.next)
    && lo <= c.next && (AllAccessible(before) ==> AllAccessible(mem))
  }

  lemma {:induction false} NextPageFree(before: Memory, mem: Memory, root: nat, base: nat, frames: seq<nat>, n: nat,
                                        v: Virt)
    requires PagesReady(before, root, base, n) && HeapMapped(before, mem, root, base, frames) && |frames| < n
    requires SameTables(before, mem, root) && v == Nth(base, FOUR_KB, |frames|)
    ensures ToPhys(mem, root, v) == None && TableAt(mem, root, v, 1).Some?
  {
  }

  lemma {:induction false} MoreData(mem: Memory, mem': Memory, root: nat, usable: seq<Extent>, frames: seq<nat>,
                                    lo: nat, hi: nat, p: nat)
    requires DataFrames(mem, root, usable, frames, lo, hi) && lo <= hi <= p && !IsTable(mem, root, p)
    requires SameTables(mem, mem', root)
    requires FrameAllocation.IsFrame(usable, FOUR_KB, p) && FrameAllocation.NoFrames(usable, FOUR_KB, hi, p)
    ensures DataFrames(mem', root, usable, frames + [p], lo, p + FOUR_KB)
  {
    forall q: nat ensures q in frames + [p] <==> lo <= q < p + FOUR_KB && FrameAllocation.IsFrame(usable, FOUR_KB, q) {
      assert q in frames + [p] <==> q in frames || q == p;
      if p <= q < p + FOUR_KB && FrameAllocation.IsFrame(usable, FOUR_KB, q) {
        FrameAllocation.FrameGap(p, q, FOUR_KB);
      }
    }
  }

  lemma {:induction false} SameTablesTwice(a: Memory, b: Memory, c: Memory, root: nat)
    requires SameTables(a, b, root) && SameTables(b, c, root)
    ensures SameTables(a, c, root)
  {
  }

  lemma {:induction false} PageAccessible(mem: Memory, t: nat, i: nat, p: nat)
    requires i < ENTRIES
    ensures AllAccessible(mem) ==> AllAccessible(Write(mem, t, i, Entry(p, TABLE_FLAGS)))
  {
    FlagBits();
    if AllAccessible(mem) {
      AccessibleAfter(mem, t, i, Entry(p, TABLE_FLAGS));
    }
  }

  /** Taking frame `p` and entering it for the next page carries the loop one page further. */
  lemma {:induction false} PageStep(before: Memory, mem: Memory, root: nat, usable: seq<Extent>,
                                    c: FrameAllocation.Cursor,
                                    c': FrameAllocation.Cursor, base: nat, frames: seq<nat>, n: nat, p: nat,
                                    v: Virt, t: nat, i: nat, lo: nat)
    requires Progress(before, mem, root, usable, c, base, frames, lo) && PagesReady(before, root, base, n)
    requires v == Nth(base, FOUR_KB, |frames|) && v % FOUR_KB == 0 && |frames| < n
    requires Spare(mem, root, usable, c') && c.next <= p && c'.next == p + FOUR_KB && !IsTable(mem, root, p)
    requires TableAt(mem, root, v, 1) == Some(t) && i == Index(v, 1)
    requires FrameAllocation.IsFrame(usable, FOUR_KB, p) && FrameAllocation.NoFrames(usable, FOUR_KB, c.next, p)
    ensures Progress(before, Write(mem, t, i, Entry(p, TABLE_FLAGS)), root, usable, c', base, frames + [p], lo)
  {
    NextPageFree(before, mem, root, base, frames, n, v);
    var mem' := Write(mem, t, i, Entry(p, TABLE_FLAGS));
    PageLeaf(mem, root, v, p, t, mem');
    OneMorePage(before, mem, mem', root, base, frames, p, v);
    SpareAfterLeaf(mem, mem', root, usable, c');
    MoreData(mem, mem', root, usable, frames, lo, c.next, p);
    PageAccessible(mem, t, i, p);
    SameTablesTwice(before, mem, mem', root);
  }

  lemma {:induction false} ProgressNoFrame(before: Memory, mem: Memory, root: nat, usable: seq<Extent>,
                                           c: FrameAllocation.Cursor, c': FrameAllocation.Cursor, base: nat,
                                           frames: seq<nat>, lo: nat)
    requires Progress(before, mem, root, usable, c, base, frames, lo)
    requires Spare(mem, root, usable, c') && c.next <= c'.next
    requires FrameAllocation.NoFrames(usable, FOUR_KB, c.next, c'.next)
    ensures Progress(before, mem, root, usable, c', base, frames, lo)
  {
  }

  lemma {:induction false} BaseAligned(base: nat)
    requires base % TWO_MB == 0
    ensures base % FOUR_KB == 0 && AlignDown(base, FOUR_KB) == base
  {
  }

  lemma {:induction false} PageAddress(base: nat, k: nat, n: nat, v: nat)
    requires base % FOUR_KB == 0 && base + FOUR_KB * n <= SPACE && k < n && v == base + FOUR_KB * k
    ensures v < SPACE && v % FOUR_KB == 0 && v == Nth(base, FOUR_KB, k)
  {
  }

  /** Maps the page after the last mapped one through its level-1 table `t`. */
  method MapPage(space: AddressSpace, fa: FrameAllocation.FrameAllocator, t: nat, v: Virt, ghost base: nat,
                 ghost n: nat,
                 ghost before: Memory, ghost frames: seq<nat>, ghost lo: nat)
    returns (ok: bool, ghost more: seq<nat>)
    requires v == Nth(base, FOUR_KB, |frames|) && v % FOUR_KB == 0 && |frames| < n && fa.frameSize == FOUR_KB
    requires PagesReady(before, space.root, base, n)
    requires Progress(before, space.mem, space.root, fa.usable, fa.cursor, base, frames, lo)
    requires TableAt(space.mem, space.root, v, 1) == Some(t)
    modifies space, fa
    ensures Progress(before, space.mem, space.root, fa.usable, fa.cursor, base, more, lo)
    ensures if ok then |more| == |frames| + 1 && frames <= more else more == frames
    ensures !ok ==> FrameAllocation.Exhausted(fa.usable, FOUR_KB, fa.cursor)
  {
    ghost var c := fa.cursor;
    var frame := space.TakeFrame(fa);
    if frame.None? {
      ProgressNoFrame(before, space.mem, space.root, fa.usable, c, fa.cursor, base, frames, lo);
      return false, frames;
    }
    ShiftedIndex(v);
    var i := Index(PHYS_MEM_VIRT_ADDR + v, 1);
    more := frames + [frame.value];
    PageStep(before, space.mem, space.root, fa.usable, c, fa.cursor, base, frames, n, frame.value, v, t, i, lo);
    space.mem := Write(space.mem, t, i, Entry(frame.value, TABLE_FLAGS));
    ok := true;
  }

  /** The level-1 table found for the first page of a window serves all of its pages. */
  lemma {:induction false} WindowTable(before: Memory, mem: Memory, root: nat, base: nat, window: nat, t: nat, j: nat,
                                       v: Virt)
    requires base % TWO_MB == 0 && j < 512
    requires SameTables(before, mem, root) && TableAt(before, root, base + TWO_MB * window, 1) == Some(t)
    requires v == base + FOUR_KB * (512 * window + j)
    ensures TableAt(mem, root, v, 1) == Some(t)
  {
    var first: Virt := base + TWO_MB * window;
    WindowStart(base, window);
    assert v == first + FOUR_KB * j;
    SameWindow(first, v);
    SamePath(before, root, first, v, 1);
    assert TableAt(mem, root, v, 1) == TableAt(before, root, v, 1);
  }

  lemma {:induction false} WindowStart(base: nat, window: nat)
    requires base % TWO_MB == 0
    ensures (base + TWO_MB * window) % TWO_MB == 0
  {
  }

  lemma {:induction false} SameWindow(first: Virt, v: Virt)
    requires first % TWO_MB == 0 && first <= v < first + TWO_MB
    ensures Top(first, 2) == Top(v, 2)
  {
  }

  lemma {:induction false} FirstTable(before: Memory, mem: Memory, root: nat, base: nat, n: nat, window: nat)
    requires PagesReady(before, root, base, n) && SameTables(before, mem, root)
    requires 512 * window < n && base + FOUR_KB * n <= SPACE
    ensures TableAt(before, root, base + TWO_MB * window, 1) == Some(Deepest(mem, root, 4, base + TWO_MB * window).0)
  {
    var v: Virt := Nth(base, FOUR_KB, 512 * window);
    assert v == base + TWO_MB * window;
    assert TableAt(before, root, v, 1).Some? && TableAt(mem, root, v, 1) == TableAt(before, root, v, 1);
    DeepestLevel(mem, root, v, 1);
    DeepestIsTable(mem, root, v, root, 4);
  }

  /** All pages of one 2 MB window, through the table found for its first page. */
  method MapWindow(space: AddressSpace, fa: FrameAllocation.FrameAllocator, base: nat, ghost n: nat, window: nat,
                   pages: nat,
                   ghost before: Memory, ghost frames: seq<nat>, ghost lo: nat)
    returns (ok: bool, ghost more: seq<nat>)
    requires base % TWO_MB == 0 && base + FOUR_KB * n <= SPACE && |frames| == 512 * window && fa.frameSize == FOUR_KB
    requires 1 <= pages <= 512 && 512 * window + pages <= n
    requires PagesReady(before, space.root, base, n)
    requires Progress(before, space.mem, space.root, fa.usable, fa.cursor, base, frames, lo)
    modifies space, fa
    ensures Progress(before, space.mem, space.root, fa.usable, fa.cursor, base, more, lo)
    ensures ok ==> |more| == 512 * window + pages
    ensures !ok ==> FrameAllocation.Exhausted(fa.usable, FOUR_KB, fa.cursor)
  {
    FirstTable(before, space.mem, space.root, base, n, window);
    var t, l := space.GetTable(base + TWO_MB * window);
    more := frames;
    var j := 0;
    while j < pages
      invariant j <= pages && |more| == 512 * window + j
      invariant Progress(before, space.mem, space.root, fa.usable, fa.cursor, base, more, lo)
    {
      ok, more := MapWindowPage(space, fa, t, base, n, window, j, before, more, lo);
      if !ok {
        return;
      }
      j := j + 1;
    }
    ok := true;
  }

  /** Page `j` of a window. */
  method MapWindowPage(space: AddressSpace, fa: FrameAllocation.FrameAllocator, t: nat, base: nat, ghost n: nat,
                       window: nat, j: nat, ghost before: Memory, ghost frames: seq<nat>, ghost lo: nat)
    returns (ok: bool, ghost more: seq<nat>)
    requires base % TWO_MB == 0 && base + FOUR_KB * n <= SPACE && fa.frameSize == FOUR_KB
    requires |frames| == 512 * window + j < n && j < 512
    requires PagesReady(before, space.root, base, n)
    requires Progress(before, space.mem, space.root, fa.usable, fa.cursor, base, frames, lo)
    requires TableAt(before, space.root, base + TWO_MB * window, 1) == Some(t)
    modifies space, fa
    ensures Progress(before, space.mem, space.root, fa.usable, fa.cursor, base, more, lo)
    ensures |more| == if ok then |frames| + 1 else |frames|
    ensures !ok ==> FrameAllocation.Exhausted(fa.usable, FOUR_KB, fa.cursor)
  {
    var v := base + FOUR_KB * (512 * window + j);
    BaseAligned(base);
    PageAddress(base, 512 * window + j, n, v);
    WindowTable(before, space.mem, space.root, base, window, t, j, v);
    ok, more := MapPage(space, fa, t, v, base, n, before, frames, lo);
  }

  /** The frame loop of heap initialisation, over 2 MB windows of a region whose pages all have their tables. */
  method MapHeap(space: AddressSpace, fa: FrameAllocation.FrameAllocator, base: nat, length: nat)
    returns (ok: bool, ghost frames: seq<nat>)
    requires base % TWO_MB == 0 && base + AlignUp(length, FOUR_KB) <= SPACE && fa.frameSize == FOUR_KB
    requires Tree(space.mem, space.root) && Spare(space.mem, space.root, fa.usable, fa.cursor)
    requires PagesReady(space.mem, space.root, base, AlignUp(length, FOUR_KB) / FOUR_KB)
    modifies space, fa
    ensures Progress(old(space.mem), space.mem, space.root, fa.usable, fa.cursor, base, frames, old(fa.cursor.next))
    ensures ok ==> |frames| == AlignUp(length, FOUR_KB) / FOUR_KB
    ensures !ok ==> FrameAllocation.Exhausted(fa.usable, FOUR_KB, fa.cursor)
  {
    ghost var before, lo := space.mem, fa.cursor.next;
    ghost var n := AlignUp(length, FOUR_KB) / FOUR_KB;
    Windows(length);
    frames := [];
    ProgressStart(before, space.root, fa.usable, fa.cursor, base);
    var whole := AlignUp(length, TWO_MB);
    var i := 0;
    while TWO_MB * i < whole
      invariant |frames| == if TWO_MB * i < whole then 512 * i else n
      invariant Progress(before, space.mem, space.root, fa.usable, fa.cursor, base, frames, lo)
      decreases whole - TWO_MB * i
    {
      var window := base + TWO_MB * i;
      WindowPages(length, i);
      var inner := if window + TWO_MB > base + length then base + length - window else TWO_MB;
      ok, frames := MapWindow(space, fa, base, n, i, AlignUp(inner, FOUR_KB) / FOUR_KB, before, frames, lo);
      if !ok {
        return;
      }
      i := i + 1;
    }
    ok := true;
  }

  lemma {:induction false} ProgressStart(mem: Memory, root: nat, usable: seq<Extent>, c: FrameAllocation.Cursor,
                                         base: nat)
    requires Tree(mem, root) && Spare(mem, root, usable, c)
    ensures Progress(mem, mem, root, usable, c, base, [], c.next)
  {
  }

  /** Each frame between two positions of the allocator either backs a page or has become a table. */
  ghost predicate FramesSpent(start: Memory, mem: Memory, root: nat, usable: seq<Extent>, frames: seq<nat>, lo: nat,
                              hi: nat)
  {
    && (forall i, j :: 0 <= i < j < |frames| ==> frames[i] + FOUR_KB <= frames[j])
    && (forall i :: 0 <= i < |frames| ==>
          lo <= frames[i] < hi && FrameAllocation.IsFrame(usable, FOUR_KB, frames[i]) && !IsTable(mem, root, frames[i]))
    && (forall g: nat :: IsTable(mem, root, g) <==>
          IsTable(start, root, g) || (lo <= g < hi && FrameAllocation.IsFrame(usable, FOUR_KB, g) && g !in frames))
  }

  lemma {:induction false} SpentOnBoth(start: Memory, before: Memory, mem: Memory, root: nat, usable: seq<Extent>,
                                       frames: seq<nat>, lo: nat, mid: nat, hi: nat)
    requires lo <= mid <= hi && Accounted(start, before, root, usable, lo, mid) && SameTables(before, mem, root)
    requires DataFrames(mem, root, usable, frames, mid, hi)
    ensures FramesSpent(start, mem, root, usable, frames, lo, hi)
  {
    forall i | 0 <= i < |frames|
      ensures lo <= frames[i] < hi && FrameAllocation.IsFrame(usable, FOUR_KB, frames[i])
    {
      assert frames[i] in frames;
    }
    forall g: nat ensures IsTable(mem, root, g) <==> IsTable(before, root, g) {
      if IsTable(before, root, g) {
        var w: Virt, m :| 1 <= m <= 4 && TableAt(before, root, w, m) == Some(g);
        assert TableAt(mem, root, w, m) == Some(g);
      }
    }
  }

  const HEAP_BASE: nat := 0x1100_0000_0000
  const HEAP_LENGTH: nat := 0xA0_0000

  /** The kernel's heap: 10 MB in five windows, which the requirements below admit. */
  lemma {:induction false} HeapRegion()
    ensures HEAP_BASE % TWO_MB == 0 && HEAP_BASE + AlignUp(HEAP_LENGTH, FOUR_KB) <= SPACE
    ensures HEAP_LENGTH == 5 * TWO_MB && AlignUp(HEAP_LENGTH, FOUR_KB) / FOUR_KB == 2560
  {
  }

  /** Allocates the heap's tables and frames: on success every heap page, unmapped before, has a frame of its own, none
      of them a table, and no other translation has changed. */
  method InitHeap(space: AddressSpace, fa: FrameAllocation.FrameAllocator, base: nat, length: nat)
    returns (outcome: Outcome, ghost frames: seq<nat>)
    requires base % TWO_MB == 0 && base + AlignUp(length, FOUR_KB) <= SPACE
    requires Tree(space.mem, space.root) && Pool(space.mem, space.root, fa)
    modifies space, fa
    ensures Tree(space.mem, space.root) && Pool(space.mem, space.root, fa)
    ensures HeapMapped(old(space.mem), space.mem, space.root, base, frames)
    ensures outcome != Fault ==>
      FramesSpent(old(space.mem), space.mem, space.root, fa.usable, frames, old(fa.cursor.next), fa.cursor.next)
    ensures AllAccessible(old(space.mem)) && outcome != Fault ==> AllAccessible(space.mem)
    ensures outcome == Done ==> |frames| == AlignUp(length, FOUR_KB) / FOUR_KB
    ensures outcome == Done ==> PagesFree(old(space.mem), space.root, base, |frames|)
    ensures outcome == OutOfFrames ==> FrameAllocation.Exhausted(fa.usable, FOUR_KB, fa.cursor)
    ensures outcome == AlreadyMapped ==>
      frames == [] && !PagesFree(old(space.mem), space.root, base, AlignUp(length, FOUR_KB) / FOUR_KB)
    ensures outcome == Fault ==>
      frames == [] && !TakenInReach(old(space.mem), space.root, fa.usable, old(fa.cursor.next), fa.cursor.next)
    ensures outcome != Panic
  {
    frames := [];
    outcome := HeapTables(space, fa, base, length);
    ghost var before, mid := space.mem, fa.cursor.next;
    if outcome == Done {
      var ok;
      ok, frames := MapHeap(space, fa, base, length);
      outcome := if ok then Done else OutOfFrames;
      SpentOnBoth(old(space.mem), before, space.mem, space.root, fa.usable, frames, old(fa.cursor.next), mid,
        fa.cursor.next);
    }
    HeapSince(old(space.mem), before, space.mem, space.root, base, frames);
  }

  /** The heap's tables, as an aligned region. */
  method HeapTables(space: AddressSpace, fa: FrameAllocation.FrameAllocator, base: nat, length: nat)
    returns (outcome: Outcome)
    requires base % TWO_MB == 0 && base + AlignUp(length, FOUR_KB) <= SPACE
    requires Tree(space.mem, space.root) && Pool(space.mem, space.root, fa)
    modifies space, fa
    ensures Tree(space.mem, space.root) && Pool(space.mem, space.root, fa)
    ensures SameTranslations(old(space.mem), space.mem, space.root)
    ensures outcome == Done ==>
      && PagesReady(space.mem, space.root, base, AlignUp(length, FOUR_KB) / FOUR_KB)
      && PagesFree(old(space.mem), space.root, base, AlignUp(length, FOUR_KB) / FOUR_KB)
    ensures outcome == AlreadyMapped ==>
      !PagesFree(old(space.mem), space.root, base, AlignUp(length, FOUR_KB) / FOUR_KB)
    ensures outcome == OutOfFrames ==> FrameAllocation.Exhausted(fa.usable, FOUR_KB, fa.cursor)
    ensures outcome == Fault <==>
      !TakenInReach(old(space.mem), space.root, fa.usable, old(fa.cursor.next), fa.cursor.next)
    ensures outcome != Panic
    ensures old(fa.cursor.next) <= fa.cursor.next
    ensures outcome != Fault ==>
      Accounted(old(space.mem), space.mem, space.root, fa.usable, old(fa.cursor.next), fa.cursor.next)
  {
    BaseAligned(base);
    outcome := space.AllocateTables(base, length, fa);
    if outcome == Done {
      HeapWasFree(old(space.mem), space.mem, space.root, base, length);
    } else if outcome == AlreadyMapped {
      HeapWasOccupied(old(space.mem), space.mem, space.root, base, length);
    }
  }

  lemma {:induction false} HeapWasOccupied(start: Memory, before: Memory, root: nat, base: nat, length: nat)
    requires base + AlignUp(length, FOUR_KB) <= SPACE && SameTranslations(start, before, root)
    requires exists i :: 0 <= i < AlignUp(length, FOUR_KB) / FOUR_KB && Occupied(before, root, base, i)
    ensures !PagesFree(start, root, base, AlignUp(length, FOUR_KB) / FOUR_KB)
  {
  }

  lemma {:induction false} HeapWasFree(start: Memory, before: Memory, root: nat, base: nat, length: nat)
    requires base + AlignUp(length, FOUR_KB) <= SPACE && SameTranslations(start, before, root)
    requires PagesReady(before, root, base, AlignUp(length, FOUR_KB) / FOUR_KB)
    ensures PagesFree(start, root, base, AlignUp(length, FOUR_KB) / FOUR_KB)
  {
  }

  ghost predicate PagesFree(mem: Memory, root: nat, base: nat, n: nat) {
    forall k :: 0 <= k < n ==> ToPhys(mem, root, Nth(base, FOUR_KB, k)) == None
  }

  lemma {:induction false} HeapSince(start: Memory, before: Memory, mem: Memory, root: nat, base: nat, frames: seq<nat>)
    requires SameTranslations(start, before, root) && HeapMapped(before, mem, root, base, frames)
    ensures HeapMapped(start, mem, root, base, frames)
  {
  }

  lemma {:induction false} Windows(length: nat)
    ensures length == 0 <==> AlignUp(length, TWO_MB) == 0
    ensures length == 0 ==> AlignUp(length, FOUR_KB) / FOUR_KB == 0
  {
  }

  /** The pages of the `i`-th 2 MB window of the heap. */
  lemma {:induction false} WindowPages(length: nat, i: nat)
    requires TWO_MB * i < AlignUp(length, TWO_MB)
    ensures TWO_MB * i < length
    ensures var inner := if TWO_MB * i + TWO_MB > length then length - TWO_MB * i else TWO_MB;
      var pages := AlignUp(inner, FOUR_KB) / FOUR_KB;
      && 1 <= pages <= 512 && 512 * i + pages <= AlignUp(length, FOUR_KB) / FOUR_KB
      && 512 * i + pages ==
           (if TWO_MB * (i + 1) < AlignUp(length, TWO_MB) then 512 * (i + 1) else AlignUp(length, FOUR_KB) / FOUR_KB)
  {
  }
}
