/** What each allocator call does to the lists, stated on the lists alone, and what becomes of the bytes over runs. */
module HeapExact {
  import opened Align
  import opened Extents
  import opened Basics
  import opened HeapSpec
  import opened HeapSafety

  // --- regions and layouts ---

  /** The region serves the request at `p`: aligned, as early as that allows, and the rest behind it is empty or holds
      a node. */
  predicate Serves(r: Extent, size: nat, align: nat, p: nat)
    requires align > 0
  {
    && r.start <= p < r.start + align && p % align == 0
    && (p + size == r.End() || p + size + 16 <= r.End())
  }

  lemma {:induction false} ServesExactly(r: Extent, size: nat, align: nat, p: nat)
    requires align > 0
    ensures AllocFromRegion(r, size, align) == Some(p) <==> Serves(r, size, align, p)
  {
    if r.start <= p < r.start + align && p % align == 0 {
      AlignedBelow(p, AlignUp(r.start, align), align);
      AlignedBelow(AlignUp(r.start, align), p, align);
    }
  }

  ghost predicate NoneServes(free: seq<Extent>, n: nat, size: nat, align: nat)
    requires n <= |free| && align > 0
  {
    forall k, p: nat :: 0 <= k < n ==> !Serves(free[k], size, align, p)
  }

  /** Region `k` is the first that serves the request, at `p`. */
  ghost predicate FirstServes(free: seq<Extent>, k: nat, size: nat, align: nat, p: nat)
    requires align > 0
  {
    k < |free| && NoneServes(free, k, size, align) && Serves(free[k], size, align, p)
  }

  /** What the fallback serves for a layout: the size padded to the alignment, both no smaller than a node's. */
  ghost predicate Adjusted(l: Layout, a: Layout) {
    && a.align == (if l.align > 8 then l.align else 8) && a.size + (a.align - 1) <= ISIZE_MAX
    && exists padded: nat :: Padded(l.size, a.align, padded) && a.size == (if padded > 16 then padded else 16)
  }

  predicate Padded(size: nat, align: nat, padded: nat)
    requires align > 0
  {
    padded % align == 0 && size <= padded < size + align
  }

  lemma {:induction false} AdjustExactly(l: Layout, a: Layout)
    ensures AdjustLayout(l) == Some(a) <==> Adjusted(l, a)
  {
    var align := Max(l.align, NODE_ALIGN);
    assert Padded(l.size, align, AlignUp(l.size, align));
    forall padded: nat | Padded(l.size, align, padded) ensures padded == AlignUp(l.size, align) {
      AlignedBelow(padded, AlignUp(l.size, align), align);
      AlignedBelow(AlignUp(l.size, align), padded, align);
    }
  }

  // --- the fallback ---

  /** `size` bytes at `p` are cut out of region `k`: the rest behind them comes first in the list, the gap in front is
      lost. */
  ghost predicate CutOut(h: Heap, h': Heap, k: nat, p: nat, size: nat)
    requires k < |h.free| && h.free[k].start <= p && p + size <= h.free[k].End()
  {
    var r := h.free[k];
    && h'.free == (if p + size < r.End() then [Extent(p + size, r.End() - (p + size))] else [])
                  + (h.free[..k] + h.free[k + 1..])
    && h'.classes == h.classes && h'.lost == h.lost + [Extent(r.start, p - r.start)]
  }

  lemma {:induction false} FirstFitExactly(free: seq<Extent>, size: nat, align: nat)
    requires align > 0
    ensures NoneServes(free, FirstFit(free, 0, size, align), size, align)
    ensures NoneServes(free, |free|, size, align) <==> FirstFit(free, 0, size, align) == |free|
  {
    var n := FirstFit(free, 0, size, align);
    forall k, p: nat | 0 <= k < n ensures !Serves(free[k], size, align, p) {
      ServesExactly(free[k], size, align, p);
    }
    if n < |free| {
      ServesExactly(free[n], size, align, AllocFromRegion(free[n], size, align).value);
    }
  }

  lemma {:induction false} FirstFitIs(free: seq<Extent>, size: nat, align: nat, k: nat, p: nat)
    requires align > 0 && FirstServes(free, k, size, align, p)
    ensures k == FirstFit(free, 0, size, align) && AllocFromRegion(free[k], size, align) == Some(p)
  {
    var n := FirstFit(free, 0, size, align);
    FirstFitExactly(free, size, align);
    ServesExactly(free[k], size, align, p);
    if n < k {
      ServesExactly(free[n], size, align, AllocFromRegion(free[n], size, align).value);
    }
  }

  /** The fallback fails exactly if no region serves the adjusted layout, */
  lemma {:induction false} FallbackRefuses(h: Heap, l: Layout, a: Layout)
    requires Adjusted(l, a)
    ensures FallbackAlloc(h, l).NoRegion? <==> NoneServes(h.free, |h.free|, a.size, a.align)
    ensures !FallbackAlloc(h, l).BadLayout?
  {
    AdjustExactly(l, a);
    FirstFitExactly(h.free, a.size, a.align);
  }

  /** and otherwise takes the first that does. */
  lemma {:induction false} FallbackServes(h: Heap, l: Layout, a: Layout, k: nat, p: nat)
    requires Adjusted(l, a) && FirstServes(h.free, k, a.size, a.align, p)
    ensures var c := FallbackAlloc(h, l);
      c.Carved? && c.range == Extent(p, a.size) && c.heap.live == h.live && CutOut(h, c.heap, k, p, a.size)
  {
    AdjustExactly(l, a);
    FirstFitIs(h.free, a.size, a.align, k, p);
  }

  // --- allocation ---

  /** A request that no class holds is refused exactly if no region serves it, and panics exactly if its adjusted layout
      does not fit `isize`. */
  lemma {:induction false} LargeRefused(h: Heap, l: Layout)
    requires h.Shaped() && (2048 < l.size || 2048 < l.align)
    ensures Alloc(h, l).0 == Null <==> exists a :: Adjusted(l, a) && NoneServes(h.free, |h.free|, a.size, a.align)
    ensures Alloc(h, l).0 == Panic <==> forall a :: !Adjusted(l, a)
    ensures !Alloc(h, l).0.Ptr? ==> Alloc(h, l).1 == h
  {
    if AdjustLayout(l).Some? {
      AdjustExactly(l, AdjustLayout(l).value);
      FallbackRefuses(h, l, AdjustLayout(l).value);
    }
    forall a | Adjusted(l, a) ensures AdjustLayout(l) == Some(a) {
      AdjustExactly(l, a);
    }
  }

  /** Otherwise it gets the first region that does, cut to size. */
  lemma {:induction false} LargeServed(h: Heap, l: Layout, a: Layout, k: nat, p: nat)
    requires h.Shaped() && (2048 < l.size || 2048 < l.align)
    requires Adjusted(l, a) && FirstServes(h.free, k, a.size, a.align, p)
    ensures var (outcome, h') := Alloc(h, l);
      outcome == Ptr(p) && CutOut(h, h', k, p, a.size) && h'.live == h.live + [Grant(p, l, a.size)]
  {
    FallbackServes(h, l, a, k, p);
  }

  /** Class `i` is the first whose blocks hold the layout. */
  predicate OfClass(l: Layout, i: nat) {
    && i < CLASSES && l.size <= BLOCK_SIZES[i] && l.align <= BLOCK_SIZES[i]
    && (i > 0 ==> BLOCK_SIZES[i - 1] < l.size || BLOCK_SIZES[i - 1] < l.align)
  }

  lemma {:induction false} ClassExactly(l: Layout, i: nat)
    ensures GetIndex(l) == Some(i) <==> OfClass(l, i)
  {
  }

  /** A class with a free block hands out the one released last. */
  lemma {:induction false} ListedAlloc(h: Heap, l: Layout, i: nat)
    requires h.Shaped() && OfClass(l, i) && h.classes[i] != []
    ensures var block := h.classes[i][0];
      var live := h.live + [Grant(block, l, BLOCK_SIZES[i])];
      Alloc(h, l) == (Ptr(block), Heap(h.free, h.classes[i := h.classes[i][1..]], live, h.lost))
  {
    ClassExactly(l, i);
  }

  function BlockBytes(i: nat): nat
    requires i < CLASSES
  {
    if i == 0 then 16 else BLOCK_SIZES[i]
  }

  lemma {:induction false} BlockAdjusts(i: nat)
    requires i < CLASSES
    ensures Adjusted(Layout(BLOCK_SIZES[i], 1), Layout(BlockBytes(i), 8))
  {
    BlockLayout(i);
    AdjustExactly(Layout(BLOCK_SIZES[i], 1), Layout(BlockBytes(i), 8));
  }

  /** Otherwise the first region that holds a block is cut; class 8 keeps the second half of the 16 bytes. */
  lemma {:induction false} FreshAlloc(h: Heap, l: Layout, i: nat, k: nat, p: nat)
    requires h.Shaped() && OfClass(l, i) && h.classes[i] == [] && FirstServes(h.free, k, BlockBytes(i), 8, p)
    ensures var (outcome, h') := Alloc(h, l);
      && outcome == Ptr(p) && h'.live == h.live + [Grant(p, l, BLOCK_SIZES[i])]
      && h'.classes == (if i == 0 then h.classes[0 := [p + 8]] else h.classes)
      && CutOut(h, h'.(classes := h.classes), k, p, BlockBytes(i))
  {
    ClassExactly(l, i);
    BlockAdjusts(i);
    FallbackServes(h, Layout(BLOCK_SIZES[i], 1), Layout(BlockBytes(i), 8), k, p);
    assert BLOCK_SIZES[i] == 8 <==> i == 0;
    assert i == 0 ==> [p + 8] + h.classes[i] == [p + 8];
  }

  /** Failing that, with nothing in the larger classes either, the call fails. */
  lemma {:induction false} ExhaustedAlloc(h: Heap, l: Layout, i: nat)
    requires h.Shaped() && OfClass(l, i) && h.classes[i] == [] && NoneServes(h.free, |h.free|, BlockBytes(i), 8)
    requires forall m :: i < m < CLASSES ==> h.classes[m] == []
    ensures Alloc(h, l) == (Null, h)
  {
    ClassExactly(l, i);
    BlockAdjusts(i);
    FallbackRefuses(h, Layout(BLOCK_SIZES[i], 1), Layout(BlockBytes(i), 8));
  }

  /** Class `j` is the first above `i` with a free block. */
  predicate NextClass(h: Heap, i: nat, j: nat)
    requires h.Shaped()
  {
    i < j < CLASSES && h.classes[j] != [] && forall m :: i < m < j ==> h.classes[m] == []
  }

  /** The heap once the block that class `j` got last is back in the free list. */
  function Scrapped(h: Heap, j: nat): Heap
    requires h.Shaped() && j < CLASSES && h.classes[j] != []
  {
    Heap([Extent(h.classes[j][0], BLOCK_SIZES[j])] + h.free, h.classes[j := h.classes[j][1..]], h.live, h.lost)
  }

  lemma {:induction false} SecondRequest(h: Heap, l: Layout, i: nat, j: nat)
    requires h.Shaped() && OfClass(l, i) && h.classes[i] == [] && NoneServes(h.free, |h.free|, BlockBytes(i), 8)
    requires NextClass(h, i, j)
    ensures Alloc(h, l) ==
      match FallbackAlloc(Scrapped(h, j), l)
      case Carved(range, h2) => (Ptr(range.start), AddGrant(h2, Grant(range.start, l, range.len)))
      case NoRegion => (Null, Scrapped(h, j))
      case BadLayout => (Panic, Scrapped(h, j))
  {
    ClassExactly(l, i);
    BlockAdjusts(i);
    FallbackRefuses(h, Layout(BLOCK_SIZES[i], 1), Layout(BlockBytes(i), 8));
    assert ScrapIndex(h, i + 1) == j;
    AllocIsRetry(h, l);
  }

  /** Otherwise one block of the next larger class goes to the free list, whatever comes of it, and the layout itself is
      asked for, with any alignment up to 2048. That is refused exactly if no region serves it even then, */
  lemma {:induction false} RetryRefused(h: Heap, l: Layout, i: nat, j: nat, a: Layout)
    requires h.Shaped() && OfClass(l, i) && h.classes[i] == [] && NoneServes(h.free, |h.free|, BlockBytes(i), 8)
    requires NextClass(h, i, j) && Adjusted(l, a)
    ensures Alloc(h, l).0 == Null <==> NoneServes(Scrapped(h, j).free, |h.free| + 1, a.size, a.align)
    ensures Alloc(h, l).0 != Panic && (Alloc(h, l).0 == Null ==> Alloc(h, l).1 == Scrapped(h, j))
  {
    SecondRequest(h, l, i, j);
    FallbackRefuses(Scrapped(h, j), l, a);
  }

  /** and served by the first that does. */
  lemma {:induction false} RetryServed(h: Heap, l: Layout, i: nat, j: nat, a: Layout, k: nat, p: nat, h1: Heap)
    requires h.Shaped() && OfClass(l, i) && h.classes[i] == [] && NoneServes(h.free, |h.free|, BlockBytes(i), 8)
    requires NextClass(h, i, j) && h1 == Scrapped(h, j)
    requires Adjusted(l, a) && FirstServes(h1.free, k, a.size, a.align, p)
    ensures var (outcome, h') := Alloc(h, l);
      outcome == Ptr(p) && CutOut(h1, h', k, p, a.size) && h'.live == h.live + [Grant(p, l, a.size)]
  {
    SecondRequest(h, l, i, j);
    FallbackServes(h1, l, a, k, p);
  }

  /** Layouts of a class never panic, and so always have an adjusted layout. */
  lemma {:induction false} ClassAdjusts(l: Layout, i: nat) returns (a: Layout)
    requires OfClass(l, i)
    ensures Adjusted(l, a)
  {
    assert AdjustLayout(l).Some?;
    a := AdjustLayout(l).value;
    AdjustExactly(l, a);
  }

  // --- release ---

  /** A release too large for a class puts the bytes first in the free list; nothing else changes. */
  lemma {:induction false} LargeDealloc(h: Heap, k: nat, a: Layout)
    requires h.Shaped() && k < |h.live| && ValidGrant(h.live[k])
    requires 2048 < h.live[k].layout.size || 2048 < h.live[k].layout.align
    requires Adjusted(h.live[k].layout, a)
    ensures h.live[k].owned == a.size
    ensures Dealloc(h, k) ==
      Heap([Extent(h.live[k].ptr, a.size)] + h.free, h.classes, h.live[..k] + h.live[k + 1..], h.lost)
  {
    AdjustExactly(h.live[k].layout, a);
  }

  /** Any other release puts the block first in the list of its class; what the grant had beyond a block is lost. */
  lemma {:induction false} ClassDealloc(h: Heap, k: nat, i: nat)
    requires h.Shaped() && k < |h.live| && OfClass(h.live[k].layout, i)
    ensures var g := h.live[k];
      var tail := if g.owned > BLOCK_SIZES[i] then [Extent(g.ptr + BLOCK_SIZES[i], g.owned - BLOCK_SIZES[i])] else [];
      Dealloc(h, k) ==
        Heap(h.free, h.classes[i := [g.ptr] + h.classes[i]], h.live[..k] + h.live[k + 1..], h.lost + tail)
  {
    ClassExactly(h.live[k].layout, i);
  }

  // --- bytes that no list gets back ---

  /** What an alignment can cost in front of an allocation: regions start at multiples of 8. */
  function Gap(align: nat): nat {
    if align > 8 then align - 8 else 0
  }

  /** The most that a call can lose: the gap in front of an allocation, or what a grant has beyond a block. */
  function Waste(h: Heap, op: Op): nat
    requires h.Shaped() && (op.DeallocOp? ==> op.index < |h.live|)
  {
    match op
    case AllocOp(l) => Gap(l.align)
    case DeallocOp(k) =>
      var g := h.live[k];
      match GetIndex(g.layout)
      case Some(i) => if g.owned > BLOCK_SIZES[i] then g.owned - BLOCK_SIZES[i] else 0
      case None => 0
  }

  lemma {:induction false} BytesSnoc(s: seq<Extent>, e: Extent)
    ensures Bytes(s + [e]) == Bytes(s) + e.len
  {
    BytesConcat(s, [e]);
    assert [e][1..] == [];
  }

  lemma {:induction false} FallbackLoses(h: Heap, l: Layout)
    requires h.Shaped() && NodesAligned(h) && PowerOfTwo(l.align) && FallbackAlloc(h, l).Carved?
    ensures Bytes(h.lost) <= Bytes(FallbackAlloc(h, l).heap.lost) <= Bytes(h.lost) + Gap(l.align)
  {
    var a := AdjustLayout(l).value;
    var k := FirstFit(h.free, 0, a.size, a.align);
    var r, p := h.free[k], AllocFromRegion(h.free[k], a.size, a.align).value;
    ServesExactly(r, a.size, a.align, p);
    AdjustedLayout(l);
    MultipleOfMultiple(p, a.align);
    BytesSnoc(h.lost, Extent(r.start, p - r.start));
    GapBound(r.start, p, a.align);
  }

  lemma {:induction false} GapBound(start: nat, p: nat, align: nat)
    requires start <= p < start + align && start % 8 == 0 && p % 8 == 0 && align % 8 == 0
    ensures p - start <= align - 8
  {
  }

  /** An allocation loses at most the gap that its alignment asks for. */
  lemma {:induction false} AllocLoses(h: Heap, l: Layout)
    requires h.Shaped() && NodesAligned(h) && ValidLayout(l)
    ensures Bytes(h.lost) <= Bytes(Alloc(h, l).1.lost) <= Bytes(h.lost) + Gap(l.align)
  {
    match GetIndex(l)
    case None =>
      if FallbackAlloc(h, l).Carved? {
        FallbackLoses(h, l);
      }
    case Some(i) =>
      var block := Layout(BLOCK_SIZES[i], 1);
      BlockLayout(i);
      if h.classes[i] != [] {
      } else if FallbackAlloc(h, block).Carved? {
        FallbackLoses(h, block);
      } else if TakesRetry(h, l) {
        RetryLoses(h, l, i, ScrapIndex(h, i + 1));
      }
  }

  lemma {:induction false} RetryLoses(h: Heap, l: Layout, i: nat, j: nat)
    requires h.Shaped() && NodesAligned(h) && ValidLayout(l) && TakesRetry(h, l)
    requires GetIndex(l) == Some(i) && j == ScrapIndex(h, i + 1)
    ensures Bytes(h.lost) <= Bytes(Alloc(h, l).1.lost) <= Bytes(h.lost) + Gap(l.align)
  {
    AllocIsRetry(h, l);
    ScrapAligned(h, j);
    if FallbackAlloc(Scrap(h, j), l).Carved? {
      FallbackLoses(Scrap(h, j), l);
    }
  }

  /** A release loses exactly what the grant has beyond a block of its class, and nothing without a class. */
  lemma {:induction false} DeallocLoses(h: Heap, k: nat)
    requires h.Shaped() && k < |h.live| && ValidGrant(h.live[k])
    ensures Bytes(Dealloc(h, k).lost) == Bytes(h.lost) + Waste(h, DeallocOp(k))
  {
    var g := h.live[k];
    var tail := if g.owned > ReleaseSize(g.layout)
      then [Extent(g.ptr + ReleaseSize(g.layout), g.owned - ReleaseSize(g.layout))] else [];
    if tail != [] {
      BytesSnoc(h.lost, tail[0]);
    } else {
      assert h.lost + tail == h.lost;
    }
  }

  function Wasted(h: Heap, ops: seq<Op>): nat
    requires h.Shaped() && Callable(h, ops)
    decreases |ops|
  {
    if ops == [] then 0 else Waste(h, ops[0]) + Wasted(Step(h, ops[0]), ops[1..])
  }

  /** Over a run, no more is lost than the calls waste. */
  lemma {:induction false} RunLoses(h: Heap, ops: seq<Op>, whole: Extent)
    requires Sound(h, whole) && Callable(h, ops) && ReleasesCovered(h, ops)
    ensures Bytes(Run(h, ops).lost) <= Bytes(h.lost) + Wasted(h, ops)
    decreases |ops|
  {
    if ops != [] {
      match ops[0] {
        case AllocOp(l) =>
          AllocSound(h, l, whole);
          AllocLoses(h, l);
        case DeallocOp(k) =>
          DeallocSound(h, k, whole);
          DeallocLoses(h, k);
      }
      RunLoses(Step(h, ops[0]), ops[1..], whole);
    }
  }

  /** Once everything is released, all bytes are back on the lists but those that the calls wasted. */
  lemma {:induction false} AllReturned(base: nat, length: nat, ops: seq<Op>)
    requires base % 8 == 0 && length >= LIST_NODE_SIZE
    requires Callable(Init(base, length), ops) && ReleasesCovered(Init(base, length), ops)
    requires Run(Init(base, length), ops).live == []
    ensures var h := Run(Init(base, length), ops);
      length <= Bytes(h.free) + Bytes(ClassExtents(h.classes, |h.classes|)) + Wasted(Init(base, length), ops)
  {
    HeapRuns(base, length, ops);
    InitSound(base, length);
    RunLoses(Init(base, length), ops, Extent(base, length));
    assert Grants([]) == [];
  }

  /** The call asks for no alignment above 8 and does not get more than a block by a retry. */
  predicate Thrifty(h: Heap, op: Op)
    requires h.Shaped()
  {
    op.AllocOp? ==>
      var l := op.layout;
      l.align <= 8 && (TakesRetry(h, l) ==> AdjustLayout(l).Some? && AdjustLayout(l).value.size == BlockOf(l))
  }

  function BlockOf(l: Layout): nat {
    match GetIndex(l) case Some(i) => BLOCK_SIZES[i] case None => 0
  }

  predicate AllThrifty(h: Heap, ops: seq<Op>)
    requires h.Shaped() && Callable(h, ops)
    decreases |ops|
  {
    ops == [] || (Thrifty(h, ops[0]) && AllThrifty(Step(h, ops[0]), ops[1..]))
  }

  /** Every grant has exactly the bytes that its release returns. */
  ghost predicate Fitting(h: Heap) {
    forall i :: 0 <= i < |h.live| ==> h.live[i].owned == ReleaseSize(h.live[i].layout)
  }

  lemma {:induction false} OneMoreFits(h: Heap, h': Heap, g: Grant)
    requires Fitting(h) && h'.live == h.live + [g] && g.owned == ReleaseSize(g.layout)
    ensures Fitting(h')
  {
  }

  lemma {:induction false} ThriftyFits(h: Heap, l: Layout)
    requires h.Shaped() && ValidLayout(l) && Fitting(h) && Thrifty(h, AllocOp(l))
    ensures Fitting(Alloc(h, l).1)
  {
    var h' := Alloc(h, l).1;
    match GetIndex(l)
    case None =>
      if FallbackAlloc(h, l).Carved? {
        OneMoreFits(h, h', Grant(FallbackAlloc(h, l).range.start, l, AdjustLayout(l).value.size));
      }
    case Some(i) =>
      if h.classes[i] != [] {
        OneMoreFits(h, h', Grant(h.classes[i][0], l, BLOCK_SIZES[i]));
      } else if FallbackAlloc(h, Layout(BLOCK_SIZES[i], 1)).Carved? {
        OneMoreFits(h, h', Grant(FallbackAlloc(h, Layout(BLOCK_SIZES[i], 1)).range.start, l, BLOCK_SIZES[i]));
      } else {
        BlockLayout(i);
        RetryFitting(h, l, i);
      }
  }

  lemma {:induction false} RetryFitting(h: Heap, l: Layout, i: nat)
    requires h.Shaped() && Fitting(h) && GetIndex(l) == Some(i) && Thrifty(h, AllocOp(l))
    requires TakesRetry(h, l) == (ScrapIndex(h, i + 1) < CLASSES)
    ensures Fitting(Retry(h, l, i).1)
  {
    var j := ScrapIndex(h, i + 1);
    if j < CLASSES && FallbackAlloc(Scrap(h, j), l).Carved? {
      OneMoreFits(h, Retry(h, l, i).1,
        Grant(FallbackAlloc(Scrap(h, j), l).range.start, l, AdjustLayout(l).value.size));
    }
  }

  /** Such runs waste nothing, so that in the end every byte is back. */
  lemma {:induction false} ThriftyLosesNothing(h: Heap, ops: seq<Op>)
    requires h.Shaped() && Callable(h, ops) && Fitting(h) && AllThrifty(h, ops)
    ensures ReleasesCovered(h, ops) && Wasted(h, ops) == 0
    decreases |ops|
  {
    if ops != [] {
      match ops[0] {
        case AllocOp(l) => ThriftyFits(h, l);
        case DeallocOp(k) =>
      }
      ThriftyLosesNothing(Step(h, ops[0]), ops[1..]);
    }
  }

  lemma {:induction false} EveryByteBack(base: nat, length: nat, ops: seq<Op>)
    requires base % 8 == 0 && length >= LIST_NODE_SIZE
    requires Callable(Init(base, length), ops) && AllThrifty(Init(base, length), ops)
    requires Run(Init(base, length), ops).live == []
    ensures var h := Run(Init(base, length), ops);
      Bytes(h.free) + Bytes(ClassExtents(h.classes, |h.classes|)) == length
  {
    ThriftyLosesNothing(Init(base, length), ops);
    AllReturned(base, length, ops);
    HeapRuns(base, length, ops);
  }
}
