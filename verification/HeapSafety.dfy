/** What every run of the kernel heap keeps, and exactly where the code stops keeping it. */
module HeapSafety {
  import opened Align
  import opened Extents
  import opened Basics
  import opened HeapSpec

  // --- arithmetic of layouts ---

  lemma {:induction false} PowerOfTwoMod8(n: nat)
    requires PowerOfTwo(n) && n >= 8
    ensures n % 8 == 0
  {
    assert PowerOfTwo(n / 2) && PowerOfTwo(n / 2 / 2);
  }

  lemma {:induction false} MultipleOfMultiple(r: nat, align: nat)
    requires align > 0 && align % 8 == 0 && r % align == 0
    ensures r % 8 == 0
  {
    var q, m := r / align, align / 8;
    assert r == q * align && align == 8 * m;
    assert r == 8 * (q * m);
  }

  /** Adjusted layouts keep every carved boundary on a node boundary. */
  lemma {:induction false} AdjustedLayout(l: Layout)
    requires PowerOfTwo(l.align)
    ensures AdjustLayout(l).Some? ==>
      var a := AdjustLayout(l).value;
      && a.align >= 8 && a.align % 8 == 0 && a.align % Max(l.align, 1) == 0
      && a.size % 8 == 0 && a.size >= LIST_NODE_SIZE && l.size <= a.size < Max(l.size + a.align, LIST_NODE_SIZE + 1)
  {
    if AdjustLayout(l).Some? {
      var align := Max(l.align, NODE_ALIGN);
      if l.align >= 8 {
        PowerOfTwoMod8(l.align);
      } else {
        SmallPowers(l.align);
      }
      MultipleOfMultiple(AlignUp(l.size, align), align);
    }
  }

  lemma {:induction false} SmallPowers(n: nat)
    requires PowerOfTwo(n) && n <= 8
    ensures n == 1 || n == 2 || n == 4 || n == 8
  {
    if n > 1 {
      SmallPowers(n / 2);
    }
  }

  // --- how each list operation changes coverage ---

  lemma {:induction false} CoverAll(h: Heap, x: int)
    requires h.Shaped()
    ensures Cover(All(h), x)
         == Cover(h.free, x) + Cover(ClassExtents(h.classes, |h.classes|), x)
            + Cover(Grants(h.live), x) + Cover(h.lost, x)
  {
    CoverConcat(h.free, ClassExtents(h.classes, |h.classes|) + (Grants(h.live) + h.lost), x);
    CoverConcat(ClassExtents(h.classes, |h.classes|), Grants(h.live) + h.lost, x);
    CoverConcat(Grants(h.live), h.lost, x);
  }

  lemma {:induction false} CoverClassUpdate(classes: seq<seq<nat>>, c: nat, blocks: seq<nat>, n: nat, x: int)
    requires n <= |classes| == CLASSES && c < CLASSES
    ensures Cover(ClassExtents(classes[c := blocks], n), x)
          + (if c < n then Cover(Blocks(classes[c], BLOCK_SIZES[c]), x) else 0)
         == Cover(ClassExtents(classes, n), x)
          + (if c < n then Cover(Blocks(blocks, BLOCK_SIZES[c]), x) else 0)
  {
    if n > 0 {
      CoverClassUpdate(classes, c, blocks, n - 1, x);
      CoverConcat(ClassExtents(classes, n - 1), Blocks(classes[n - 1], BLOCK_SIZES[n - 1]), x);
      var updated := classes[c := blocks];
      CoverConcat(ClassExtents(updated, n - 1), Blocks(updated[n - 1], BLOCK_SIZES[n - 1]), x);
    }
  }

  lemma {:induction false} CoverPush(h: Heap, i: nat, block: nat, x: int)
    requires h.Shaped() && i < CLASSES
    ensures Cover(All(PushBlock(h, i, block)), x) == Cover(All(h), x) + Hits(Extent(block, BLOCK_SIZES[i]), x)
  {
    CoverAll(h, x);
    CoverAll(PushBlock(h, i, block), x);
    CoverClassUpdate(h.classes, i, [block] + h.classes[i], |h.classes|, x);
    CoverBlock(h.classes[i], block, BLOCK_SIZES[i], x);
  }

  lemma {:induction false} CoverBlock(blocks: seq<nat>, block: nat, size: nat, x: int)
    ensures Cover(Blocks([block] + blocks, size), x) == Cover(Blocks(blocks, size), x) + Hits(Extent(block, size), x)
  {
    assert Blocks([block] + blocks, size) == [Extent(block, size)] + Blocks(blocks, size);
    CoverCons(Extent(block, size), Blocks(blocks, size), x);
  }

  lemma {:induction false} CoverPop(h: Heap, i: nat, x: int)
    requires h.Shaped() && i < CLASSES && h.classes[i] != []
    ensures Cover(All(PopBlock(h, i)), x) + Hits(Extent(h.classes[i][0], BLOCK_SIZES[i]), x) == Cover(All(h), x)
  {
    var h1 := PopBlock(h, i);
    CoverPush(h1, i, h.classes[i][0], x);
    assert [h.classes[i][0]] + h1.classes[i] == h.classes[i];
    assert PushBlock(h1, i, h.classes[i][0]) == h by {
      assert h1.classes[i := h.classes[i]] == h.classes;
    }
  }

  lemma {:induction false} CoverGrant(h: Heap, g: Grant, x: int)
    requires h.Shaped()
    ensures Cover(All(AddGrant(h, g)), x) == Cover(All(h), x) + Hits(Extent(g.ptr, g.owned), x)
  {
    CoverAll(h, x);
    CoverAll(AddGrant(h, g), x);
    assert Grants(h.live + [g]) == Grants(h.live) + [Extent(g.ptr, g.owned)];
    CoverSnoc(Grants(h.live), Extent(g.ptr, g.owned), x);
  }

  lemma {:induction false} CoverFree(h: Heap, e: Extent, x: int)
    requires h.Shaped()
    ensures Cover(All(h.(free := [e] + h.free)), x) == Cover(All(h), x) + Hits(e, x)
  {
    CoverAll(h, x);
    CoverAll(h.(free := [e] + h.free), x);
    CoverCons(e, h.free, x);
  }

  lemma {:induction false} CoverScrap(h: Heap, j: nat, x: int)
    requires h.Shaped() && j < CLASSES && h.classes[j] != []
    ensures Cover(All(Scrap(h, j)), x) == Cover(All(h), x)
  {
    CoverPop(h, j, x);
    CoverFree(PopBlock(h, j), Extent(h.classes[j][0], BLOCK_SIZES[j]), x);
  }

  /** The free list after a cut, with the gap before and the range itself, covers what it covered before. */
  lemma {:induction false} CoverCut(free: seq<Extent>, k: nat, start: nat, size: nat, x: int)
    requires k < |free| && free[k].start <= start && start + size <= free[k].End()
    ensures var r := free[k];
      var rest := Without(free, k);
      var excess := r.End() - (start + size);
      Cover(if excess > 0 then [Extent(start + size, excess)] + rest else rest, x)
        + Hits(Extent(r.start, start - r.start), x) + Hits(Extent(start, size), x) == Cover(free, x)
  {
    CoverRemove(free, k, x);
    var excess := free[k].End() - (start + size);
    CoverCons(Extent(start + size, excess), Without(free, k), x);
  }

  /** A carved range, the gap before it and the rest behind it are exactly the region it came from. */
  lemma {:induction false} CoverCarve(h: Heap, k: nat, start: nat, size: nat, x: int)
    requires h.Shaped() && k < |h.free| && h.free[k].start <= start && start + size <= h.free[k].End()
    ensures Cover(All(CarveAt(h, k, start, size).heap), x) + Hits(Extent(start, size), x) == Cover(All(h), x)
  {
    var h1 := CarveAt(h, k, start, size).heap;
    assert Cover(h1.lost, x) == Cover(h.lost, x) + Hits(Extent(h.free[k].start, start - h.free[k].start), x) by {
      CoverSnoc(h.lost, Extent(h.free[k].start, start - h.free[k].start), x);
    }
    CoverCut(h.free, k, start, size, x);
    CoverAll(h, x);
    CoverAll(h1, x);
  }

  lemma {:induction false} CarveAtAligned(h: Heap, k: nat, start: nat, size: nat)
    requires h.Shaped() && NodesAligned(h) && k < |h.free| && h.free[k].start <= start && start % 8 == 0
    requires size % 8 == 0
    requires start + size == h.free[k].End() || start + size + LIST_NODE_SIZE <= h.free[k].End()
    ensures NodesAligned(CarveAt(h, k, start, size).heap)
  {
  }

  /** What a fallback allocation cuts out, without the layout arithmetic. */
  lemma {:induction false} FallbackIsCarve(h: Heap, l: Layout) returns (a: Layout, k: nat, start: nat)
    requires FallbackAlloc(h, l).Carved?
    ensures AdjustLayout(l) == Some(a) && a.align > 0 && start % a.align == 0
    ensures k < |h.free| && h.free[k].start <= start && start + a.size <= h.free[k].End()
    ensures h.free[k].End() == start + a.size || h.free[k].End() >= start + a.size + LIST_NODE_SIZE
    ensures FallbackAlloc(h, l) == CarveAt(h, k, start, a.size)
  {
    a := AdjustLayout(l).value;
    k := FirstFit(h.free, 0, a.size, a.align);
    start := AllocFromRegion(h.free[k], a.size, a.align).value;
  }

  lemma {:induction false} CarveAligned(h: Heap, l: Layout)
    requires h.Shaped() && NodesAligned(h) && PowerOfTwo(l.align) && FallbackAlloc(h, l).Carved?
    ensures var c := FallbackAlloc(h, l);
      && c.heap.Shaped() && NodesAligned(c.heap) && c.heap.live == h.live && c.heap.classes == h.classes
      && c.range.start % 8 == 0 && c.range.len % 8 == 0 && c.range.len == AdjustLayout(l).value.size >= LIST_NODE_SIZE
      && c.range.start % AdjustLayout(l).value.align == 0
  {
    AdjustedLayout(l);
    var a, k, start := FallbackIsCarve(h, l);
    MultipleOfMultiple(start, a.align);
    CarveAtAligned(h, k, start, a.size);
  }

  lemma {:induction false} FallbackCover(h: Heap, l: Layout, x: int)
    requires h.Shaped() && FallbackAlloc(h, l).Carved?
    ensures var c := FallbackAlloc(h, l);
      c.heap.Shaped() && Cover(All(c.heap), x) + Hits(c.range, x) == Cover(All(h), x)
  {
    var a, k, start := FallbackIsCarve(h, l);
    CoverCarve(h, k, start, a.size, x);
  }

  // --- allocation ---

  lemma {:induction false} BlockLayout(i: nat)
    requires i < CLASSES
    ensures AdjustLayout(Layout(BLOCK_SIZES[i], 1)) == Some(Layout(Max(BLOCK_SIZES[i], 16), 8))
  {
  }

  lemma {:induction false} GrantAligned(h: Heap, g: Grant)
    requires h.Shaped() && NodesAligned(h) && g.ptr % 8 == 0 && ValidGrant(g)
    ensures NodesAligned(AddGrant(h, g))
  {
  }

  lemma {:induction false} PopAligned(h: Heap, i: nat)
    requires h.Shaped() && NodesAligned(h) && i < CLASSES && h.classes[i] != []
    ensures NodesAligned(PopBlock(h, i)) && h.classes[i][0] % 8 == 0
  {
  }

  lemma {:induction false} PushAligned(h: Heap, i: nat, block: nat)
    requires h.Shaped() && NodesAligned(h) && i < CLASSES && block % 8 == 0
    ensures NodesAligned(PushBlock(h, i, block))
  {
  }

  lemma {:induction false} ScrapAligned(h: Heap, j: nat)
    requires h.Shaped() && NodesAligned(h) && 1 <= j < CLASSES && h.classes[j] != []
    ensures NodesAligned(Scrap(h, j))
  {
  }

  lemma {:induction false} GrantSound(h: Heap, l: Layout, whole: Extent)
    requires Sound(h, whole) && ValidLayout(l) && FallbackAlloc(h, l).Carved?
    ensures Sound(GrantRange(FallbackAlloc(h, l), l).1, whole)
  {
    var c := FallbackAlloc(h, l);
    CarveAligned(h, l);
    var g := Grant(c.range.start, l, c.range.len);
    GrantAligned(c.heap, g);
    forall x: int ensures Cover(All(AddGrant(c.heap, g)), x) == Hits(whole, x) {
      FallbackCover(h, l, x);
      CoverGrant(c.heap, g, x);
      assert Cover(All(h), x) == Hits(whole, x);
    }
  }

  lemma {:induction false} ScrapSound(h: Heap, j: nat, whole: Extent)
    requires Sound(h, whole) && 1 <= j < CLASSES && h.classes[j] != []
    ensures Sound(Scrap(h, j), whole)
  {
    ScrapAligned(h, j);
    forall x: int ensures Cover(All(Scrap(h, j)), x) == Hits(whole, x) {
      CoverScrap(h, j, x);
      assert Cover(All(h), x) == Hits(whole, x);
    }
  }

  lemma {:induction false} BlockSound(h: Heap, l: Layout, i: nat, whole: Extent)
    requires Sound(h, whole) && ValidLayout(l) && GetIndex(l) == Some(i) && h.classes[i] != []
    ensures Sound(Alloc(h, l).1, whole)
  {
    PopAligned(h, i);
    var h1 := PopBlock(h, i);
    var g := Grant(h.classes[i][0], l, BLOCK_SIZES[i]);
    GrantAligned(h1, g);
    forall x: int ensures Cover(All(AddGrant(h1, g)), x) == Hits(whole, x) {
      CoverPop(h, i, x);
      CoverGrant(h1, g, x);
      assert Cover(All(h), x) == Hits(whole, x);
    }
  }

  lemma {:induction false} FreshBlockCover(c: Carved, g: Grant, i: nat, x: int)
    requires c.Carved? && c.heap.Shaped() && i < CLASSES && g.ptr == c.range.start && g.owned == BLOCK_SIZES[i]
    requires c.range.len == Max(BLOCK_SIZES[i], 16)
    ensures var h := if BLOCK_SIZES[i] == 8 then PushBlock(c.heap, i, c.range.start + 8) else c.heap;
      Cover(All(AddGrant(h, g)), x) == Cover(All(c.heap), x) + Hits(c.range, x)
  {
    var h := if BLOCK_SIZES[i] == 8 then PushBlock(c.heap, i, c.range.start + 8) else c.heap;
    CoverGrant(h, g, x);
    if BLOCK_SIZES[i] == 8 {
      CoverPush(c.heap, i, c.range.start + 8, x);
    } else {
      assert BLOCK_SIZES[i] >= 16;
    }
  }

  lemma {:induction false} FreshBlockSound(h: Heap, l: Layout, i: nat, whole: Extent)
    requires Sound(h, whole) && ValidLayout(l) && GetIndex(l) == Some(i) && h.classes[i] == []
    requires FallbackAlloc(h, Layout(BLOCK_SIZES[i], 1)).Carved?
    ensures Sound(Alloc(h, l).1, whole)
  {
    var size := BLOCK_SIZES[i];
    var block := Layout(size, 1);
    var c := FallbackAlloc(h, block);
    CarveAligned(h, block);
    BlockLayout(i);
    var g := Grant(c.range.start, l, size);
    var h2 := if size == 8 then PushBlock(c.heap, i, c.range.start + 8) else c.heap;
    assert Alloc(h, l).1 == AddGrant(h2, g);
    assert NodesAligned(AddGrant(h2, g)) by {
      if size == 8 {
        PushAligned(c.heap, i, c.range.start + 8);
      }
      GrantAligned(h2, g);
    }
    forall x: int ensures Cover(All(AddGrant(h2, g)), x) == Hits(whole, x) {
      FallbackCover(h, block, x);
      FreshBlockCover(c, g, i, x);
      assert Cover(All(h), x) == Hits(whole, x);
    }
  }

  /** Allocation keeps the heap tiled for every layout, on every path and with every outcome. */
  lemma {:induction false} AllocSound(h: Heap, l: Layout, whole: Extent)
    requires Sound(h, whole) && ValidLayout(l)
    ensures Sound(Alloc(h, l).1, whole)
  {
    match GetIndex(l)
    case None =>
      if FallbackAlloc(h, l).Carved? {
        GrantSound(h, l, whole);
      }
    case Some(i) =>
      if h.classes[i] != [] {
        BlockSound(h, l, i, whole);
      } else if FallbackAlloc(h, Layout(BLOCK_SIZES[i], 1)).Carved? {
        FreshBlockSound(h, l, i, whole);
      } else {
        var j := ScrapIndex(h, i + 1);
        if j < CLASSES {
          ScrapSound(h, j, whole);
          if FallbackAlloc(Scrap(h, j), l).Carved? {
            GrantSound(Scrap(h, j), l, whole);
          }
        }
      }
  }

  // --- the exact condition for releasing what was allocated ---

  /** The call reaches the second fallback request: its class is empty, no region fits a block, a larger class has one.
      */
  predicate TakesRetry(h: Heap, l: Layout)
    requires h.Shaped()
  {
    match GetIndex(l)
    case None => false
    case Some(i) =>
      && h.classes[i] == []
      && FallbackAlloc(h, Layout(BLOCK_SIZES[i], 1)).NoRegion?
      && ScrapIndex(h, i + 1) < CLASSES
  }

  /** The retry finds room for the client's own layout. */
  predicate RetryFits(h: Heap, l: Layout)
    requires h.Shaped() && TakesRetry(h, l)
  {
    FallbackAlloc(Scrap(h, ScrapIndex(h, GetIndex(l).value + 1)), l).Carved?
  }

  /** The layout's adjusted size is below the block size of the class it is released into. */
  predicate Undersized(l: Layout) {
    GetIndex(l).Some? && AdjustLayout(l).Some? && AdjustLayout(l).value.size < BLOCK_SIZES[GetIndex(l).value]
  }

  /** Every outstanding allocation stays releasable across an alloc exactly when the call does not hand out an
      undersized range on the retry path. */
  lemma {:induction false} AllocReleasable(h: Heap, l: Layout)
    requires h.Shaped() && ValidLayout(l) && AllReleasable(h)
    ensures AllReleasable(Alloc(h, l).1) <==> !(TakesRetry(h, l) && RetryFits(h, l) && Undersized(l))
  {
    var h' := Alloc(h, l).1;
    match GetIndex(l)
    case None =>
      if FallbackAlloc(h, l).Carved? {
        OneMoreGrant(h, h', Grant(FallbackAlloc(h, l).range.start, l, AdjustLayout(l).value.size));
      }
    case Some(i) =>
      if h.classes[i] != [] {
        OneMoreGrant(h, h', Grant(h.classes[i][0], l, BLOCK_SIZES[i]));
      } else if FallbackAlloc(h, Layout(BLOCK_SIZES[i], 1)).Carved? {
        OneMoreGrant(h, h', Grant(FallbackAlloc(h, Layout(BLOCK_SIZES[i], 1)).range.start, l, BLOCK_SIZES[i]));
      } else {
        BlockLayout(i);
        RetryReleasable(h, l, i);
      }
  }

  lemma {:induction false} RetryReleasable(h: Heap, l: Layout, i: nat)
    requires h.Shaped() && AllReleasable(h) && GetIndex(l) == Some(i)
    requires TakesRetry(h, l) == (ScrapIndex(h, i + 1) < CLASSES)
    ensures AllReleasable(Retry(h, l, i).1) <==> !(TakesRetry(h, l) && RetryFits(h, l) && Undersized(l))
  {
    var j := ScrapIndex(h, i + 1);
    if j < CLASSES && FallbackAlloc(Scrap(h, j), l).Carved? {
      OneMoreGrant(h, Retry(h, l, i).1,
        Grant(FallbackAlloc(Scrap(h, j), l).range.start, l, AdjustLayout(l).value.size));
    }
  }

  lemma {:induction false} OneMoreGrant(h: Heap, h': Heap, g: Grant)
    requires AllReleasable(h) && h'.live == h.live + [g]
    ensures AllReleasable(h') <==> Releasable(g)
  {
    assert h'.live[|h.live|] == g;
  }

  lemma {:induction false} GrantsWithout(live: seq<Grant>, k: nat, x: int)
    requires k < |live|
    ensures Cover(Grants(live), x)
         == Cover(Grants(Without(live, k)), x) + Hits(Extent(live[k].ptr, live[k].owned), x)
  {
    CoverRemove(Grants(live), k, x);
    assert Grants(live)[..k] + Grants(live)[k + 1..] == Grants(Without(live, k));
  }

  lemma {:induction false} ReleaseFacts(l: Layout)
    requires ValidLayout(l)
    ensures GetIndex(l).Some? ==> ReleaseSize(l) == BLOCK_SIZES[GetIndex(l).value] >= 8
  {
  }

  lemma {:induction false} ReleaseCover(h: Heap, k: nat, index: Option<nat>, size: nat, x: int)
    requires h.Shaped() && k < |h.live| && (index.Some? ==> index.value < CLASSES && size == BLOCK_SIZES[index.value])
    ensures Cover(All(ReleaseAs(h, k, index, size)), x) + Hits(Extent(h.live[k].ptr, h.live[k].owned), x)
         == Cover(All(h), x) + Hits(Extent(h.live[k].ptr, Max(h.live[k].owned, size)), x)
  {
    var g := h.live[k];
    var tail := if g.owned > size then [Extent(g.ptr + size, g.owned - size)] else [];
    var h1 := h.(live := Without(h.live, k), lost := h.lost + tail);
    assert Cover(All(h1), x) + Hits(Extent(g.ptr, g.owned), x) == Cover(All(h), x) + Cover(tail, x) by {
      CoverAll(h, x);
      CoverAll(h1, x);
      GrantsWithout(h.live, k, x);
      CoverConcat(h.lost, tail, x);
    }
    assert Cover(tail, x) + Hits(Extent(g.ptr, size), x) == Hits(Extent(g.ptr, Max(g.owned, size)), x) by {
      if g.owned > size {
        CoverCons(tail[0], [], x);
        assert tail == [tail[0]] + [];
      }
    }
    match index
    case Some(i) => CoverPush(h1, i, g.ptr, x);
    case None => CoverFree(h1, Extent(g.ptr, size), x);
  }

  lemma {:induction false} ReleaseAligned(h: Heap, k: nat, index: Option<nat>, size: nat)
    requires h.Shaped() && NodesAligned(h) && k < |h.live| && (index.Some? ==> index.value < CLASSES)
    requires index.None? ==> size >= LIST_NODE_SIZE
    ensures NodesAligned(ReleaseAs(h, k, index, size))
  {
  }

  lemma {:induction false} ReleaseTiles(h: Heap, k: nat, index: Option<nat>, size: nat, whole: Extent)
    requires h.Shaped() && Tiles(All(h), whole) && k < |h.live|
    requires index.Some? ==> index.value < CLASSES && size == BLOCK_SIZES[index.value]
    ensures Tiles(All(ReleaseAs(h, k, index, size)), whole) <==> size <= h.live[k].owned
  {
    var h' := ReleaseAs(h, k, index, size);
    if size <= h.live[k].owned {
      forall x: int ensures Cover(All(h'), x) == Hits(whole, x) {
        ReleaseCover(h, k, index, size, x);
        assert Cover(All(h), x) == Hits(whole, x);
      }
    } else {
      // the byte just behind the grant now counts once more than the tiling allows
      var x := h.live[k].ptr + h.live[k].owned;
      ReleaseCover(h, k, index, size, x);
      assert Cover(All(h), x) == Hits(whole, x);
      assert Cover(All(h'), x) == Hits(whole, x) + 1;
    }
  }

  /** Releasing keeps the heap tiled exactly when the allocation owns the bytes its class expects. */
  lemma {:induction false} DeallocSound(h: Heap, k: nat, whole: Extent)
    requires Sound(h, whole) && k < |h.live|
    ensures Sound(Dealloc(h, k), whole) <==> Releasable(h.live[k])
  {
    var l := h.live[k].layout;
    assert ValidGrant(h.live[k]);
    ReleaseFacts(l);
    ReleaseAligned(h, k, GetIndex(l), ReleaseSize(l));
    ReleaseTiles(h, k, GetIndex(l), ReleaseSize(l), whole);
  }

  lemma {:induction false} DeallocReleasable(h: Heap, k: nat)
    requires h.Shaped() && k < |h.live| && AllReleasable(h)
    ensures AllReleasable(Dealloc(h, k))
  {
  }

  // --- whole runs ---

  datatype Op = AllocOp(layout: Layout) | DeallocOp(index: nat)

  function Step(h: Heap, op: Op): (h': Heap)
    requires h.Shaped() && (op.DeallocOp? ==> op.index < |h.live|)
    ensures h'.Shaped()
  {
    match op
    case AllocOp(l) => Alloc(h, l).1
    case DeallocOp(k) => Dealloc(h, k)
  }

  /** What callers owe: valid layouts, and deallocs that name an outstanding allocation. */
  predicate Callable(h: Heap, ops: seq<Op>)
    requires h.Shaped()
    decreases |ops|
  {
    ops == [] ||
    (&& (match ops[0] case AllocOp(l) => ValidLayout(l) case DeallocOp(k) => k < |h.live|)
     && Callable(Step(h, ops[0]), ops[1..]))
  }

  function Run(h: Heap, ops: seq<Op>): (h': Heap)
    requires h.Shaped() && Callable(h, ops)
    ensures h'.Shaped()
    decreases |ops|
  {
    if ops == [] then h else Run(Step(h, ops[0]), ops[1..])
  }

  /** Every allocation released holds at least the bytes that its release hands to a list. */
  predicate ReleasesCovered(h: Heap, ops: seq<Op>)
    requires h.Shaped() && Callable(h, ops)
    decreases |ops|
  {
    ops == [] ||
    ((ops[0].DeallocOp? ==> Releasable(h.live[ops[0].index])) && ReleasesCovered(Step(h, ops[0]), ops[1..]))
  }

  ghost predicate AlwaysSound(h: Heap, ops: seq<Op>, whole: Extent)
    requires h.Shaped() && Callable(h, ops)
    decreases |ops|
  {
    Sound(h, whole) && (ops == [] || AlwaysSound(Step(h, ops[0]), ops[1..], whole))
  }

  /** The invariant holds at every point of a run exactly when every allocation released covers its release. */
  lemma {:induction false} SoundThroughout(h: Heap, ops: seq<Op>, whole: Extent)
    requires Sound(h, whole) && Callable(h, ops)
    ensures AlwaysSound(h, ops, whole) <==> ReleasesCovered(h, ops)
    ensures ReleasesCovered(h, ops) ==> Sound(Run(h, ops), whole)
    decreases |ops|
  {
    if ops != [] {
      match ops[0] {
        case AllocOp(l) => AllocSound(h, l, whole);
        case DeallocOp(k) => DeallocSound(h, k, whole);
      }
      if Sound(Step(h, ops[0]), whole) {
        SoundThroughout(Step(h, ops[0]), ops[1..], whole);
      }
    }
  }

  /** No alloc of the run hands out an undersized range on the retry path. */
  predicate Admissible(h: Heap, ops: seq<Op>)
    requires h.Shaped() && Callable(h, ops)
    decreases |ops|
  {
    ops == [] ||
    (&& (ops[0].AllocOp? ==>
           var l := ops[0].layout;
           !(TakesRetry(h, l) && RetryFits(h, l) && Undersized(l)))
     && Admissible(Step(h, ops[0]), ops[1..]))
  }

  /** Then every allocation stays releasable, whichever are released. */
  lemma {:induction false} RunSound(h: Heap, ops: seq<Op>, whole: Extent)
    requires Sound(h, whole) && AllReleasable(h) && Callable(h, ops) && Admissible(h, ops)
    ensures ReleasesCovered(h, ops) && Sound(Run(h, ops), whole) && AllReleasable(Run(h, ops))
    decreases |ops|
  {
    if ops != [] {
      match ops[0] {
        case AllocOp(l) =>
          AllocSound(h, l, whole);
          AllocReleasable(h, l);
        case DeallocOp(k) =>
          DeallocSound(h, k, whole);
          DeallocReleasable(h, k);
      }
      RunSound(Step(h, ops[0]), ops[1..], whole);
    }
  }

  lemma {:induction false} EmptyClasses(classes: seq<seq<nat>>, n: nat)
    requires n <= |classes| == CLASSES && forall i :: 0 <= i < CLASSES ==> classes[i] == []
    ensures ClassExtents(classes, n) == []
  {
    if n > 0 {
      EmptyClasses(classes, n - 1);
    }
  }

  lemma {:induction false} InitSound(base: nat, length: nat)
    requires base % 8 == 0 && length >= LIST_NODE_SIZE
    ensures Sound(Init(base, length), Extent(base, length)) && AllReleasable(Init(base, length))
  {
    var h := Init(base, length);
    EmptyClasses(h.classes, CLASSES);
    forall x: int ensures Cover(All(h), x) == Hits(Extent(base, length), x) {
      CoverAll(h, x);
      CoverCons(h.free[0], [], x);
      assert h.free == [h.free[0]] + [];
    }
  }

  /** What soundness says of the lists: no two ranges share a byte, none leaves the heap, and all bytes are accounted
      for. */
  lemma {:induction false} SoundMeans(h: Heap, whole: Extent)
    requires Sound(h, whole)
    ensures PairwiseDisjoint(All(h))
    ensures forall i, x: int :: 0 <= i < |All(h)| && All(h)[i].Has(x) ==> whole.Has(x)
    ensures Bytes(h.free) + Bytes(ClassExtents(h.classes, |h.classes|)) + Bytes(Grants(h.live)) + Bytes(h.lost)
         == whole.len
  {
    var all := All(h);
    forall x: int ensures Cover(all, x) <= 1 {
      assert Cover(all, x) == Hits(whole, x);
    }
    CoverIsDisjointness(all);
    forall i, x: int | 0 <= i < |all| && all[i].Has(x) ensures whole.Has(x) {
      CoverAtLeast(all, i, x);
      assert Cover(all, x) == Hits(whole, x);
    }
    TilingConservesBytes(all, whole);
    BytesConcat(h.free, ClassExtents(h.classes, |h.classes|) + (Grants(h.live) + h.lost));
    BytesConcat(ClassExtents(h.classes, |h.classes|), Grants(h.live) + h.lost);
    BytesConcat(Grants(h.live), h.lost);
  }

  /** Over every run from a fresh heap that releases only what covers its release: disjointness, containment and byte
      conservation. */
  lemma {:induction false} HeapRuns(base: nat, length: nat, ops: seq<Op>)
    requires base % 8 == 0 && length >= LIST_NODE_SIZE
    requires Callable(Init(base, length), ops) && ReleasesCovered(Init(base, length), ops)
    ensures var h := Run(Init(base, length), ops);
      && PairwiseDisjoint(All(h))
      && (forall i, x: int :: 0 <= i < |All(h)| && All(h)[i].Has(x) ==> Extent(base, length).Has(x))
      && Bytes(h.free) + Bytes(ClassExtents(h.classes, |h.classes|)) + Bytes(Grants(h.live)) + Bytes(h.lost) == length
      && (forall i :: 0 <= i < |h.live| ==> h.live[i].layout.size <= h.live[i].owned)
      && (Admissible(Init(base, length), ops) ==> AllReleasable(h))
  {
    InitSound(base, length);
    SoundThroughout(Init(base, length), ops, Extent(base, length));
    SoundMeans(Run(Init(base, length), ops), Extent(base, length));
    if Admissible(Init(base, length), ops) {
      RunSound(Init(base, length), ops, Extent(base, length));
    }
  }

  // --- what an undersized retry leads to ---

  lemma {:induction false} ClassGap(i: nat, j: nat)
    requires i < j < CLASSES
    ensures 2 * BLOCK_SIZES[i] <= BLOCK_SIZES[j] && BLOCK_SIZES[i] % 8 == 0 && 16 <= BLOCK_SIZES[j]
  {
  }

  /** Small alignments: the adjusted size is the size rounded up to 8, at least 16, and never above the class. */
  lemma {:induction false} SmallAdjust(l: Layout, i: nat)
    requires ValidLayout(l) && l.align <= 8 && GetIndex(l) == Some(i)
    ensures AdjustLayout(l) == Some(Layout(Max(AlignUp(l.size, 8), 16), 8))
    ensures AdjustLayout(l).value.size <= Max(BLOCK_SIZES[i], 16)
  {
    EightAdjust(l);
    ClassRounds(l.size, i);
  }

  lemma {:induction false} EightAdjust(l: Layout)
    requires l.align <= 8 && l.size <= 2048
    ensures AdjustLayout(l) == Some(Layout(Max(AlignUp(l.size, 8), 16), 8))
  {
  }

  lemma {:induction false} ClassRounds(size: nat, i: nat)
    requires i < CLASSES && size <= BLOCK_SIZES[i]
    ensures AlignUp(size, 8) <= BLOCK_SIZES[i]
  {
    AlignedBelow(AlignUp(size, 8), BLOCK_SIZES[i], 8);
  }

  lemma {:induction false} SmallFits(l: Layout, i: nat, j: nat) returns (size: nat)
    requires ValidLayout(l) && l.align <= 8 && GetIndex(l) == Some(i) && i < j < CLASSES
    ensures AdjustLayout(l) == Some(Layout(size, 8))
    ensures size == BLOCK_SIZES[j] || size + LIST_NODE_SIZE <= BLOCK_SIZES[j]
  {
    size := Max(AlignUp(l.size, 8), 16);
    SmallAdjust(l, i);
    ClassGap(i, j);
  }

  lemma {:induction false} HeadCarved(h: Heap, l: Layout, size: nat)
    requires h.free != [] && h.free[0].start % 8 == 0 && AdjustLayout(l) == Some(Layout(size, 8))
    requires size == h.free[0].len || size + LIST_NODE_SIZE <= h.free[0].len
    ensures FallbackAlloc(h, l) == CarveAt(h, 0, h.free[0].start, size)
  {
  }

  lemma {:induction false} RetryOnScrap(h: Heap, l: Layout, i: nat, j: nat, size: nat)
    requires h.Shaped() && i < CLASSES && j == ScrapIndex(h, i + 1) < CLASSES
    requires AdjustLayout(l) == Some(Layout(size, 8)) && h.classes[j][0] % 8 == 0
    requires size == BLOCK_SIZES[j] || size + LIST_NODE_SIZE <= BLOCK_SIZES[j]
    ensures FallbackAlloc(Scrap(h, j), l) == CarveAt(Scrap(h, j), 0, h.classes[j][0], size)
    ensures Retry(h, l, i) == GrantRange(CarveAt(Scrap(h, j), 0, h.classes[j][0], size), l)
  {
  }

  lemma {:induction false} AllocIsRetry(h: Heap, l: Layout)
    requires h.Shaped() && TakesRetry(h, l)
    ensures Alloc(h, l) == Retry(h, l, GetIndex(l).value)
  {
  }

  /** With an alignment of at most 8 the retry always succeeds, on the block just scrapped. */
  lemma {:induction false} RetryAlwaysFits(h: Heap, l: Layout) returns (j: nat, block: nat, size: nat)
    requires h.Shaped() && NodesAligned(h) && ValidLayout(l) && l.align <= 8 && TakesRetry(h, l)
    ensures RetryFits(h, l)
    ensures j == ScrapIndex(h, GetIndex(l).value + 1) < CLASSES && block == h.classes[j][0]
    ensures AdjustLayout(l) == Some(Layout(size, 8)) && size <= BLOCK_SIZES[j]
    ensures var (outcome, h') := Alloc(h, l);
      && outcome == Ptr(block) && h'.live == h.live + [Grant(block, l, size)]
      && (size < BLOCK_SIZES[j] ==> h'.free != [] && h'.free[0] == Extent(block + size, BLOCK_SIZES[j] - size))
  {
    var i := GetIndex(l).value;
    j := ScrapIndex(h, i + 1);
    block := h.classes[j][0];
    size := SmallFits(l, i, j);
    RetryShape(h, l, i, j, size);
    ScrapCarved(h, j, size);
  }

  lemma {:induction false} RetryShape(h: Heap, l: Layout, i: nat, j: nat, size: nat)
    requires h.Shaped() && TakesRetry(h, l) && GetIndex(l) == Some(i) && j == ScrapIndex(h, i + 1)
    requires AdjustLayout(l) == Some(Layout(size, 8)) && h.classes[j][0] % 8 == 0
    requires size == BLOCK_SIZES[j] || size + LIST_NODE_SIZE <= BLOCK_SIZES[j]
    ensures RetryFits(h, l)
    ensures Alloc(h, l) == GrantRange(CarveAt(Scrap(h, j), 0, h.classes[j][0], size), l)
  {
    RetryOnScrap(h, l, i, j, size);
    AllocIsRetry(h, l);
  }

  /** Carving at the head of the list what was just scrapped. */
  lemma {:induction false} ScrapCarved(h: Heap, j: nat, size: nat)
    requires h.Shaped() && j < CLASSES && h.classes[j] != [] && size <= BLOCK_SIZES[j]
    ensures var c := CarveAt(Scrap(h, j), 0, h.classes[j][0], size);
      && c.range == Extent(h.classes[j][0], size) && c.heap.live == h.live
      && (size < BLOCK_SIZES[j] ==>
            c.heap.free != [] && c.heap.free[0] == Extent(h.classes[j][0] + size, BLOCK_SIZES[j] - size))
  {
  }

  /** Whenever such a retry is undersized, freeing the pointer at once puts a block on its class list that overlaps
      the region at the head of the free list. */
  lemma {:induction false} UndersizedRetryOverlaps(h: Heap, l: Layout, whole: Extent)
    requires Sound(h, whole) && ValidLayout(l) && l.align <= 8 && TakesRetry(h, l) && Undersized(l)
    ensures var h1 := Alloc(h, l).1;
      && h1.Shaped() && |h1.live| == |h.live| + 1
      && var h2 := Dealloc(h1, |h.live|);
         var i := GetIndex(l).value;
         && h2.free != [] && h2.classes[i] != []
         && !Disjoint(h2.free[0], Extent(h2.classes[i][0], BLOCK_SIZES[i]))
  {
    var j, block, size := RetryAlwaysFits(h, l);
    var i := GetIndex(l).value;
    ClassGap(i, j);
    var h1 := Alloc(h, l).1;
    var h2 := Dealloc(h1, |h.live|);
    var shared := h2.classes[i][0] + size;
    assert h2.free[0].Has(shared) && Extent(h2.classes[i][0], BLOCK_SIZES[i]).Has(shared);
  }

  const NO_BLOCKS: seq<seq<nat>> := seq(CLASSES, _ => [])

  lemma {:induction false} WitnessAlloc64(h: Heap)
    requires h == Init(4096, 64)
    ensures var r := Alloc(h, Layout(64, 8)).1;
      r.free == [] && r.classes == NO_BLOCKS && r.live == [Grant(4096, Layout(64, 8), 64)]
  {
    BlockLayout(3);
    HeadCarved(h, Layout(64, 1), 64);
    assert GetIndex(Layout(64, 8)) == Some(3);
  }

  lemma {:induction false} WitnessFree64(h: Heap)
    requires h.free == [] && h.classes == NO_BLOCKS && h.live == [Grant(4096, Layout(64, 8), 64)]
    ensures var r := Dealloc(h, 0);
      r.free == [] && r.classes == NO_BLOCKS[3 := [4096]] && r.live == []
  {
    assert GetIndex(Layout(64, 8)) == Some(3);
    assert [4096] + h.classes[3] == [4096];
  }

  lemma {:induction false} WitnessAlloc17(h: Heap)
    requires h.free == [] && h.classes == NO_BLOCKS[3 := [4096]] && h.live == []
    ensures var r := Alloc(h, Layout(17, 1)).1;
      r.free == [Extent(4120, 40)] && r.classes == NO_BLOCKS && r.live == [Grant(4096, Layout(17, 1), 24)]
  {
    BlockLayout(2);
    assert GetIndex(Layout(17, 1)) == Some(2);
    assert AdjustLayout(Layout(17, 1)) == Some(Layout(24, 8));
    assert ScrapIndex(h, 3) == 3;
    assert TakesRetry(h, Layout(17, 1));
    AllocIsRetry(h, Layout(17, 1));
    RetryOnScrap(h, Layout(17, 1), 2, 3, 24);
    assert h.classes[3][1..] == [] && NO_BLOCKS[3 := [4096]][3 := []] == NO_BLOCKS;
  }

  lemma {:induction false} WitnessFree17(h: Heap)
    requires h.free == [Extent(4120, 40)] && h.classes == NO_BLOCKS && h.live == [Grant(4096, Layout(17, 1), 24)]
    ensures var r := Dealloc(h, 0);
      r.free == [Extent(4120, 40)] && r.classes == NO_BLOCKS[2 := [4096]] && r.live == []
  {
    assert GetIndex(Layout(17, 1)) == Some(2);
    assert [4096] + h.classes[2] == [4096];
  }

  lemma {:induction false} WitnessAlloc32(h: Heap)
    requires h.free == [Extent(4120, 40)] && h.classes == NO_BLOCKS[2 := [4096]] && h.live == []
    ensures var r := Alloc(h, Layout(32, 8)).1;
      r.free == [Extent(4120, 40)] && r.classes == NO_BLOCKS && r.live == [Grant(4096, Layout(32, 8), 32)]
  {
    assert GetIndex(Layout(32, 8)) == Some(2);
    assert h.classes[2][1..] == [] && NO_BLOCKS[2 := [4096]][2 := []] == NO_BLOCKS;
  }

  lemma {:induction false} WitnessAlloc9(h: Heap)
    requires h.free == [Extent(4120, 40)] && h.classes == NO_BLOCKS && h.live == [Grant(4096, Layout(32, 8), 32)]
    ensures Alloc(h, Layout(9, 1)).1.live == [Grant(4096, Layout(32, 8), 32), Grant(4120, Layout(9, 1), 16)]
  {
  }

  /** A run on a 64-byte heap that ends with two outstanding allocations sharing bytes: a 64-byte block is freed into
      its class, a 17-byte request scraps it and gets 24 bytes, and its release feeds class 32. */
  lemma {:induction false} OverlapWitness()
    ensures var h1 := Alloc(Init(4096, 64), Layout(64, 8)).1;
      && |h1.live| == 1
      && var h2 := Alloc(Dealloc(h1, 0), Layout(17, 1)).1;
         && |h2.live| == 1
         && var h3 := Alloc(Dealloc(h2, 0), Layout(32, 8)).1;
            var h4 := Alloc(h3, Layout(9, 1)).1;
            && h4.live == [Grant(4096, Layout(32, 8), 32), Grant(4120, Layout(9, 1), 16)]
            && !Disjoint(Extent(4096, 32), Extent(4120, 9))
  {
    var h1 := Alloc(Init(4096, 64), Layout(64, 8)).1;
    WitnessAlloc64(Init(4096, 64));
    WitnessFree64(h1);
    var h2 := Alloc(Dealloc(h1, 0), Layout(17, 1)).1;
    WitnessAlloc17(Dealloc(h1, 0));
    WitnessFree17(h2);
    var h3 := Alloc(Dealloc(h2, 0), Layout(32, 8)).1;
    WitnessAlloc32(Dealloc(h2, 0));
    WitnessAlloc9(h3);
    assert Extent(4096, 32).Has(4120) && Extent(4120, 9).Has(4120);
  }

  // --- allocation failure is justified ---

  /** For alignments up to 8 and sizes up to 2048, null comes back exactly when the class list is empty, no region
      fits a block of the class, and every larger class list is empty. */
  lemma {:induction false} NullOnlyWhenExhausted(h: Heap, l: Layout)
    requires h.Shaped() && NodesAligned(h) && ValidLayout(l) && l.align <= 8 && l.size <= 2048
    ensures GetIndex(l).Some?
    ensures var i := GetIndex(l).value;
      Alloc(h, l).0 == Null <==>
        && h.classes[i] == []
        && (forall k :: 0 <= k < |h.free| ==> AllocFromRegion(h.free[k], Max(BLOCK_SIZES[i], 16), 8).None?)
        && (forall j :: i < j < CLASSES ==> h.classes[j] == [])
    ensures Alloc(h, l).0 != Panic
  {
    var i := GetIndex(l).value;
    BlockLayout(i);
    var k := FirstFit(h.free, 0, Max(BLOCK_SIZES[i], 16), 8);
    if h.classes[i] == [] && k == |h.free| && ScrapIndex(h, i + 1) < CLASSES {
      var j, block, size := RetryAlwaysFits(h, l);
    }
  }

  /** Requests too large for a class go straight to the fallback and come back aligned; so does everything aligned
      to at most 8. */
  lemma {:induction false} FallbackPointersAligned(h: Heap, l: Layout)
    requires h.Shaped() && NodesAligned(h) && ValidLayout(l)
    requires GetIndex(l).None? || l.align <= 8
    ensures Alloc(h, l).0.Ptr? ==> Alloc(h, l).0.address % l.align == 0
  {
    match GetIndex(l)
    case None =>
      if FallbackAlloc(h, l).Carved? {
        FallbackStartAligned(h, l);
      }
    case Some(i) =>
      SmallAllocMod8(h, l, i);
      if Alloc(h, l).0.Ptr? {
        EightIsEnough(Alloc(h, l).0.address, l.align);
      }
  }

  lemma {:induction false} FallbackStartAligned(h: Heap, l: Layout)
    requires PowerOfTwo(l.align) && FallbackAlloc(h, l).Carved?
    ensures FallbackAlloc(h, l).range.start % l.align == 0
  {
    var a, k, start := FallbackIsCarve(h, l);
    AdjustedLayout(l);
    DivChain(start, a.align, l.align);
  }

  lemma {:induction false} EightIsEnough(address: nat, align: nat)
    requires address % 8 == 0 && PowerOfTwo(align) && align <= 8
    ensures address % align == 0
  {
    SmallPowers(align);
    EvenParts(address);
  }

  lemma {:induction false} EvenParts(address: nat)
    requires address % 8 == 0
    ensures address % 1 == 0 && address % 2 == 0 && address % 4 == 0
  {
    assert address == 4 * (address / 8 * 2);
  }

  lemma {:induction false} SmallAllocMod8(h: Heap, l: Layout, i: nat)
    requires h.Shaped() && NodesAligned(h) && ValidLayout(l) && l.align <= 8 && GetIndex(l) == Some(i)
    ensures Alloc(h, l).0.Ptr? ==> Alloc(h, l).0.address % 8 == 0
  {
    BlockLayout(i);
    if h.classes[i] != [] {
      PopAligned(h, i);
    } else if FallbackAlloc(h, Layout(BLOCK_SIZES[i], 1)).Carved? {
      CarveAligned(h, Layout(BLOCK_SIZES[i], 1));
    } else if TakesRetry(h, l) {
      var j, block, size := RetryAlwaysFits(h, l);
      PopAligned(h, ScrapIndex(h, i + 1));
    }
  }

  lemma {:induction false} DivChain(a: nat, b: nat, c: nat)
    requires b > 0 && c > 0 && a % b == 0 && b % c == 0
    ensures a % c == 0
  {
    var q, m := a / b, b / c;
    assert a == q * b && b == m * c;
    assert a == (q * m) * c by {
      assert q * (m * c) == (q * m) * c;
    }
    MultipleLemma(q * m, c);
  }
}
