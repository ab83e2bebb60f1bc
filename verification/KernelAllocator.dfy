/** The allocator object: size-class list heads, the fallback list head and the memory both kinds of node live in. */
module KernelAllocator {
  import opened Extents
  import opened Basics
  import opened HeapSpec
  import opened BlockAllocator
  import HeapSafety

  class Allocator {
    const heads: array<nat>
    var head: nat
    var mem: Memory
    ghost const whole: Extent
    ghost var heap: Heap

    /** The words in memory spell out the lists of `heap`, and no byte has two owners. */
    ghost predicate Linked()
      reads this, heads
    {
      && heads.Length == CLASSES && whole.start > 0
      && HasWords(mem, whole) && Separate(heap, whole)
      && Chains(mem, head, heads[..], heap)
    }

    ghost predicate Valid()
      reads this, heads
    {
      Linked() && Sound(heap, whole) && AllReleasable(heap)
    }

    constructor (base: nat, length: nat, memory: Memory)
      requires base > 0 && base % 8 == 0 && length >= LIST_NODE_SIZE && HasWords(memory, Extent(base, length))
      ensures Valid() && heap == Init(base, length) && whole == Extent(base, length) && fresh(heads)
    {
      heads := new nat[CLASSES](_ => 0);
      whole := Extent(base, length);
      head := 0;
      mem := memory;
      heap := Heap([], seq(CLASSES, _ => []), [], []);
      new;
      HeapSafety.InitSound(base, length);
      HeapSafety.EmptyClasses(heap.classes, CLASSES);
      forall x: int ensures Cover(All(heap), x) == 0 {
        HeapSafety.CoverAll(heap, x);
      }
      AddFreeRegion(base, length);
      assert heap == Init(base, length) by {
        assert [Extent(base, length)] + [] == [Extent(base, length)];
      }
    }

    /** The two requirements on the address and length are assertions in the source; every caller below meets them. */
    method AddFreeRegion(address: nat, length: nat)
      requires Linked() && address % NODE_ALIGN == 0 && length >= LIST_NODE_SIZE
      requires Vacant(heap, Extent(address, length), whole)
      modifies this
      ensures Linked() && heap == old(heap).(free := [Extent(address, length)] + old(heap).free)
      ensures SameOutside(old(mem), mem, Extent(address, length))
    {
      ghost var e := Extent(address, length);
      assert e.Has(address) && e.Has(address + 15);
      PushRegion(mem, head, heads[..], heap, e, whole);
      mem := mem[address := length][address + 8 := head];
      head := address;
      heap := heap.(free := [e] + heap.free);
    }

    /** Takes the region behind `prev` (the list head if 0) out of the list. */
    method UnlinkRegion(prev: nat, region: nat, ghost k: nat)
      requires Linked() && k < |heap.free| && region == heap.free[k].start
      requires prev == if k == 0 then 0 else heap.free[k - 1].start
      modifies this
      ensures Linked() && heap == old(heap).(free := Without(old(heap).free, k))
      ensures Vacant(heap, old(heap).free[k], whole) && region in mem && mem[region] == old(heap).free[k].len
      ensures forall a :: a in old(mem) && Cover(old(heap).free, a) == 0 ==> a in mem && mem[a] == old(mem)[a]
    {
      UnlinkChains(mem, head, heads[..], heap, k, whole);
      assert RegionNode(mem, heap.free, k);
      if k > 0 {
        StartPositive(heap, whole, k - 1);
      }
      ghost var unlinked := Unlinked(mem, heap.free, k);
      var next := mem[region + 8];
      mem := mem[region + 8 := 0];
      if prev == 0 {
        head := next;
      } else {
        mem := mem[prev + 8 := next];
      }
      assert mem == unlinked;
      heap := heap.(free := Without(heap.free, k));
    }

    /** Walks the links to the first suitable region and unlinks it. */
    method FindRegion(length: nat, align: nat) returns (found: bool, region: nat, start: nat)
      requires Linked() && align > 0
      modifies this
      ensures Linked()
      ensures var free := old(heap).free;
        var k := FirstFit(free, 0, length, align);
        && found == (k < |free|)
        && (!found ==> heap == old(heap) && mem == old(mem))
        && (found ==>
              && region == free[k].start && region in mem && mem[region] == free[k].len
              && Some(start) == AllocFromRegion(free[k], length, align)
              && heap == old(heap).(free := Without(free, k))
              && Vacant(heap, free[k], whole))
      ensures forall a :: a in old(mem) && Cover(old(heap).free, a) == 0 ==> a in mem && mem[a] == old(mem)[a]
    {
      ghost var free := heap.free;
      ghost var k := 0;
      var prev, current := 0, head;
      found, region, start := false, 0, 0;
      while current != 0
        invariant k <= |free| && current == RegionLink(free, k)
        invariant prev == if k == 0 then 0 else free[k - 1].start
        invariant FirstFit(free, 0, length, align) == FirstFit(free, k, length, align)
        invariant Linked() && heap == old(heap) && mem == old(mem)
        decreases |free| - k
      {
        assert RegionNode(mem, free, k);
        assert free[k] == Extent(current, mem[current]);
        var fit := AllocFromRegion(Extent(current, mem[current]), length, align);
        if fit.Some? {
          found, region, start := true, current, fit.value;
          UnlinkRegion(prev, region, k);
          return;
        }
        prev, current := current, mem[current + 8];
        k := k + 1;
      }
      assert k == |free| by {
        if k < |free| {
          StartPositive(heap, whole, k);
        }
      }
    }

    /** Gives the bytes `start .. region end` back to the list, if there are any, and writes off the gap in front. */
    method ReturnExcess(region: nat, begin: nat, start: nat, ghost r: Extent)
      requires Linked() && r.start == region && region in mem && mem[region] == r.len
      requires Vacant(heap, r, whole) && region <= begin <= start <= r.End()
      requires start == r.End() || start + LIST_NODE_SIZE <= r.End()
      requires start % NODE_ALIGN == 0
      modifies this
      ensures Linked()
      ensures heap.free == if r.End() > start then [Extent(start, r.End() - start)] + old(heap).free else old(heap).free
      ensures heap.classes == old(heap).classes && heap.live == old(heap).live
      ensures heap.lost == old(heap).lost + [Extent(region, begin - region)]
      ensures SameOutside(old(mem), mem, r)
    {
      var excess := region + mem[region] - start;
      VacantPart(heap, r, Extent(start, excess), whole);
      if excess > 0 {
        AddFreeRegion(start, excess);
      }
      ghost var gap := Extent(region, begin - region);
      assert Vacant(heap, gap, whole) by {
        VacantAfter(old(heap), heap, r, Extent(start, excess), gap, whole);
      }
      LoseSeparate(heap, gap, whole);
      heap := heap.(lost := heap.lost + [gap]);
    }

    /** First fit for an adjusted size and alignment, with the rest behind the range returned to the list. */
    method CarveFirst(size: nat, align: nat) returns (start: Option<nat>)
      requires Linked() && align > 0 && align % 8 == 0 && size % 8 == 0
      modifies this
      ensures Linked()
      ensures var h := old(heap);
        var k := FirstFit(h.free, 0, size, align);
        if k == |h.free| then start == None && heap == h
        else start == AllocFromRegion(h.free[k], size, align) && heap == CarveAt(h, k, start.value, size).heap
      ensures forall a :: a in old(mem) && Cover(old(heap).free, a) == 0 ==> a in mem && mem[a] == old(mem)[a]
    {
      ghost var h := heap;
      var found, region, begin := FindRegion(size, align);
      if !found {
        return None;
      }
      ghost var k := FirstFit(h.free, 0, size, align);
      EndAligned(begin, size, align);
      ReturnExcess(region, begin, begin + size, h.free[k]);
      assert heap == CarveAt(h, k, begin, size).heap;
      forall a | a in old(mem) && Cover(h.free, a) == 0 ensures a in mem && mem[a] == old(mem)[a] {
        CoverAtLeast(h.free, k, a);
      }
      start := Some(begin);
    }

    /** The fallback allocation. */
    method FallbackAlloc(l: Layout) returns (outcome: Outcome)
      requires Linked() && PowerOfTwo(l.align)
      modifies this
      ensures Linked()
      ensures match HeapSpec.FallbackAlloc(old(heap), l)
        case Carved(range, h) => outcome == Ptr(range.start) && heap == h && Vacant(heap, range, whole)
        case NoRegion => outcome == Null && heap == old(heap)
        case BadLayout => outcome == Panic && heap == old(heap)
      ensures forall a :: a in old(mem) && Cover(old(heap).free, a) == 0 ==> a in mem && mem[a] == old(mem)[a]
    {
      var adjusted := AdjustLayout(l);
      if adjusted.None? {
        return Panic;
      }
      HeapSafety.AdjustedLayout(l);
      ghost var h := heap;
      var start := CarveFirst(adjusted.value.size, adjusted.value.align);
      if start.None? {
        return Null;
      }
      CarvedSeparate(h, l, whole);
      outcome := Ptr(start.value);
    }

    method FallbackDealloc(address: nat, l: Layout)
      requires Linked() && PowerOfTwo(l.align) && AdjustLayout(l).Some? && address % NODE_ALIGN == 0
      requires Vacant(heap, Extent(address, AdjustLayout(l).value.size), whole)
      modifies this
      ensures Linked()
      ensures heap == old(heap).(free := [Extent(address, AdjustLayout(l).value.size)] + old(heap).free)
      ensures SameOutside(old(mem), mem, Extent(address, AdjustLayout(l).value.size))
    {
      HeapSafety.AdjustedLayout(l);
      AddFreeRegion(address, AdjustLayout(l).value.size);
    }

    method AddBlockNode(node: nat, index: nat)
      requires Linked() && index < CLASSES && node % NODE_ALIGN == 0
      requires Vacant(heap, Extent(node, BLOCK_SIZES[index]), whole)
      modifies this, heads
      ensures Linked() && heap == PushBlock(old(heap), index, node)
      ensures SameOutside(old(mem), mem, Extent(node, BLOCK_SIZES[index]))
    {
      assert Extent(node, BLOCK_SIZES[index]).Has(node) && Extent(node, BLOCK_SIZES[index]).Has(node + 7);
      PushNode(mem, head, heads[..], heap, index, node, whole);
      ghost var updated := heads[..][index := node];
      mem := mem[node := heads[index]];
      heads[index] := node;
      assert heads[..] == updated;
      heap := PushBlock(heap, index, node);
    }

    /** Takes the first block off a class list that has one. */
    method TakeBlock(index: nat) returns (node: nat)
      requires Linked() && index < CLASSES && heads[index] != 0
      modifies this, heads
      ensures Linked() && old(heap).classes[index] != [] && node == old(heap).classes[index][0]
      ensures heap == PopBlock(old(heap), index) && node % NODE_ALIGN == 0
      ensures Vacant(heap, Extent(node, BLOCK_SIZES[index]), whole)
      ensures SameOutside(old(mem), mem, Extent(node, BLOCK_SIZES[index]))
    {
      PopNode(mem, head, heads[..], heap, index, whole);
      node := heads[index];
      ghost var updated := heads[..][index := mem[node]];
      heads[index] := mem[node];
      mem := mem[node := 0];
      assert heads[..] == updated;
      heap := PopBlock(heap, index);
    }

    /** Moves the first block of class `i` to the fallback list. */
    method ScrapBlock(i: nat)
      requires Linked() && 1 <= i < CLASSES && heads[i] != 0
      modifies this, heads
      ensures Linked() && old(heap).classes[i] != [] && heap == Scrap(old(heap), i)
      ensures Untouched(old(mem), mem, old(heap).live, whole)
    {
      ghost var h := heap;
      var node := TakeBlock(i);
      AddFreeRegion(node, BLOCK_SIZES[i]);
      TakenUntouched(h, whole, i, old(mem), mem);
    }

    /** Returns one block of a class above the layout's own to the fallback list. */
    method ScrapFreeBlocks(l: Layout) returns (ok: bool)
      requires Linked()
      modifies this, heads
      ensures Linked()
      ensures match GetIndex(l)
        case None => !ok && heap == old(heap)
        case Some(i) =>
          var j := ScrapIndex(old(heap), i + 1);
          ok == (j < CLASSES) && heap == if ok then Scrap(old(heap), j) else old(heap)
      ensures Untouched(old(mem), mem, old(heap).live, whole)
    {
      var index := GetIndex(l);
      ok := false;
      if index.None? {
        return;
      }
      var i := index.value + 1;
      while i < CLASSES
        invariant index.value + 1 <= i <= CLASSES
        invariant Linked() && heap == old(heap) && mem == old(mem)
        invariant ScrapIndex(heap, index.value + 1) == ScrapIndex(heap, i)
      {
        assert BlockChain(mem, heads[i], heap.classes[i]);
        if heads[i] != 0 {
          ScrapBlock(i);
          ok := true;
          return;
        }
        assert heap.classes[i] == [] by {
          if heap.classes[i] != [] {
            BlockPositive(heap, whole, i);
          }
        }
        i := i + 1;
      }
    }

    /** A block of class `i` from its list. */
    method AllocListed(l: Layout, i: nat) returns (outcome: Outcome)
      requires Linked() && Sound(heap, whole) && ValidLayout(l) && GetIndex(l) == Some(i) && heads[i] != 0
      modifies this, heads
      ensures Linked() && Untouched(old(mem), mem, old(heap).live, whole)
      ensures old(heap).classes[i] != [] && (outcome, heap) == HeapSpec.Alloc(old(heap), l) && outcome.Ptr?
    {
      ghost var h := heap;
      var node := TakeBlock(i);
      outcome := Ptr(node);
      TakenUntouched(h, whole, i, old(mem), mem);
      HeapSafety.BlockSound(h, l, i, whole);
      heap := AddGrant(heap, Grant(node, l, BLOCK_SIZES[i]));
      SoundSeparate(heap, whole);
    }

    /** A block of class `i` cut from the fallback; a cut of 16 bytes serves class 8 twice. */
    method AllocFresh(l: Layout, i: nat) returns (outcome: Outcome)
      requires Linked() && Sound(heap, whole) && ValidLayout(l) && GetIndex(l) == Some(i) && heap.classes[i] == []
      modifies this, heads
      ensures Linked() && Untouched(old(mem), mem, old(heap).live, whole)
      ensures outcome == Null <==> HeapSpec.FallbackAlloc(old(heap), Layout(BLOCK_SIZES[i], 1)).NoRegion?
      ensures if outcome == Null then heap == old(heap) else (outcome, heap) == HeapSpec.Alloc(old(heap), l)
    {
      ghost var h := heap;
      var block := Layout(BLOCK_SIZES[i], 1);
      HeapSafety.BlockLayout(i);
      outcome := FallbackAlloc(block);
      FreeUntouched(h, whole, old(mem), mem);
      if outcome.Ptr? {
        HeapSafety.CarveAligned(h, block);
        FreshTarget(h, l, i, heap, outcome.address, whole);
        GrantFresh(outcome.address, l, i, h, block, HeapSpec.Alloc(h, l).1);
      }
    }

    /** Grants a block just carved. */
    method GrantFresh(start: nat, l: Layout, i: nat, ghost h: Heap, ghost block: Layout, ghost target: Heap)
      requires Linked() && Separate(h, whole) && i < CLASSES && start % 8 == 0
      requires BLOCK_SIZES[i] == 8 ==>
        HeapSpec.FallbackAlloc(h, block) == Carved(Extent(start, 16), heap) && Vacant(heap, Extent(start, 16), whole)
      requires Separate(target, whole) && target ==
        AddGrant(if BLOCK_SIZES[i] == 8 then PushBlock(heap, i, start + 8) else heap, Grant(start, l, BLOCK_SIZES[i]))
      modifies this, heads
      ensures Linked() && heap == target && Untouched(old(mem), mem, h.live, whole)
    {
      if BLOCK_SIZES[i] == 8 {
        SplitBlock(start, i, h, block);
      }
      heap := AddGrant(heap, Grant(start, l, BLOCK_SIZES[i]));
    }

    /** Of the 16 bytes carved for class 8 the second half goes onto the class list. */
    method SplitBlock(start: nat, i: nat, ghost h: Heap, ghost block: Layout)
      requires Linked() && Separate(h, whole) && i < CLASSES && BLOCK_SIZES[i] == 8 && start % 8 == 0
      requires HeapSpec.FallbackAlloc(h, block) == Carved(Extent(start, 16), heap)
      requires Vacant(heap, Extent(start, 16), whole)
      modifies this, heads
      ensures Linked() && heap == PushBlock(old(heap), i, start + 8) && Untouched(old(mem), mem, h.live, whole)
    {
      VacantPart(heap, Extent(start, 16), Extent(start + 8, 8), whole);
      AddBlockNode(start + 8, i);
      SplitUntouched(h, block, whole, old(mem), mem, start);
    }

    /** First attempt of a class-sized request: a block of the class, or a fresh one from the fallback. */
    method AllocBlock(l: Layout, i: nat) returns (outcome: Outcome)
      requires Linked() && Sound(heap, whole) && ValidLayout(l) && GetIndex(l) == Some(i)
      modifies this, heads
      ensures Linked() && Untouched(old(mem), mem, old(heap).live, whole)
      ensures outcome == Null <==>
        old(heap).classes[i] == [] && HeapSpec.FallbackAlloc(old(heap), Layout(BLOCK_SIZES[i], 1)).NoRegion?
      ensures if outcome == Null then heap == old(heap) else (outcome, heap) == HeapSpec.Alloc(old(heap), l)
    {
      assert BlockChain(mem, heads[i], heap.classes[i]);
      if heads[i] != 0 {
        outcome := AllocListed(l, i);
      } else {
        if heap.classes[i] != [] {
          BlockPositive(heap, whole, i);
        }
        outcome := AllocFresh(l, i);
      }
    }

    /** A fallback allocation granted to the client in full. */
    method AllocRange(l: Layout) returns (outcome: Outcome)
      requires Linked() && Sound(heap, whole) && ValidLayout(l)
      modifies this
      ensures Linked() && Untouched(old(mem), mem, old(heap).live, whole)
      ensures match HeapSpec.FallbackAlloc(old(heap), l)
        case Carved(range, h) => (outcome, heap) == GrantRange(Carved(range, h), l)
        case NoRegion => outcome == Null && heap == old(heap)
        case BadLayout => outcome == Panic && heap == old(heap)
    {
      ghost var h := heap;
      outcome := FallbackAlloc(l);
      FreeUntouched(h, whole, old(mem), mem);
      if outcome.Ptr? {
        HeapSafety.GrantSound(h, l, whole);
        ghost var range := HeapSpec.FallbackAlloc(h, l).range;
        heap := AddGrant(heap, Grant(outcome.address, l, range.len));
        SoundSeparate(heap, whole);
      }
    }

    /** Second attempt: scrap a larger block and ask the fallback for the client's layout. */
    method RetryAlloc(l: Layout) returns (outcome: Outcome)
      requires Linked() && Sound(heap, whole) && ValidLayout(l)
      modifies this, heads
      ensures Linked() && Untouched(old(mem), mem, old(heap).live, whole)
      ensures match GetIndex(l)
        case None => outcome == Null && heap == old(heap)
        case Some(i) => (outcome, heap) == Retry(old(heap), l, i)
    {
      ghost var h := heap;
      outcome := Null;
      var ok := ScrapFreeBlocks(l);
      if ok {
        HeapSafety.ScrapSound(h, ScrapIndex(h, GetIndex(l).value + 1), whole);
        outcome := AllocRange(l);
      }
    }

    /** Allocation, including the scrap-and-retry path. Nothing a client already holds is written to, and the object
        stays valid exactly unless the retry hands out an undersized range. */
    method Alloc(l: Layout) returns (outcome: Outcome)
      requires Linked() && Sound(heap, whole) && ValidLayout(l)
      modifies this, heads
      ensures Linked() && Sound(heap, whole)
      ensures (outcome, heap) == HeapSpec.Alloc(old(heap), l)
      ensures old(Valid()) ==>
        (Valid() <==>
         !(HeapSafety.TakesRetry(old(heap), l) && HeapSafety.RetryFits(old(heap), l) && HeapSafety.Undersized(l)))
      ensures Untouched(old(mem), mem, old(heap).live, whole)
    {
      HeapSafety.AllocSound(heap, l, whole);
      if AllReleasable(heap) {
        HeapSafety.AllocReleasable(heap, l);
      }
      AllocByParts(heap, l);
      var index := GetIndex(l);
      if index.Some? {
        outcome := AllocBlock(l, index.value);
      } else {
        outcome := AllocRange(l);
      }
      if outcome == Null {
        outcome := RetryAlloc(l);
      }
    }

    /** Hands `size` bytes at `ptr` to the class list or the free list. */
    method Release(ptr: nat, l: Layout, ghost size: nat)
      requires Linked() && ptr % NODE_ALIGN == 0 && ValidLayout(l) && size == ReleaseSize(l) && size >= 8
      requires GetIndex(l).None? ==> AdjustLayout(l).Some?
      requires Vacant(heap, Extent(ptr, size), whole)
      modifies this, heads
      ensures Linked() && SameOutside(old(mem), mem, Extent(ptr, size))
      ensures heap == match GetIndex(l)
        case Some(i) => PushBlock(old(heap), i, ptr)
        case None => old(heap).(free := [Extent(ptr, size)] + old(heap).free)
    {
      var index := GetIndex(l);
      if index.Some? {
        AddBlockNode(ptr, index.value);
      } else {
        FallbackDealloc(ptr, l);
      }
    }

    /** Releases the `k`-th outstanding allocation, which must cover its release, through its pointer and layout; the
        other allocations keep their contents. */
    method Dealloc(ptr: nat, l: Layout, ghost k: nat)
      requires Linked() && Sound(heap, whole) && k < |heap.live| && heap.live[k].ptr == ptr && heap.live[k].layout == l
      requires Releasable(heap.live[k])
      modifies this, heads
      ensures Linked() && Sound(heap, whole) && heap == HeapSpec.Dealloc(old(heap), k)
      ensures old(Valid()) ==> Valid()
      ensures Untouched(old(mem), mem, heap.live, whole)
    {
      ghost var h := heap;
      ghost var size := ReleaseSize(l);
      ghost var tail := if h.live[k].owned > size then [Extent(ptr + size, h.live[k].owned - size)] else [];
      HeapSafety.DeallocSound(h, k, whole);
      assert ValidGrant(h.live[k]);
      WithdrawSeparate(h, k, whole);
      heap := heap.(live := Without(h.live, k));
      Release(ptr, l, size);
      heap := heap.(lost := h.lost + tail);
      assert heap == HeapSpec.Dealloc(h, k);
      SoundSeparate(heap, whole);
      RestUntouched(h, k, whole, old(mem), mem);
      StillReleasable(h, k);
    }
  }

  // --- facts about the values the methods pass around ---

  /** How many free regions and class blocks cover a byte. */
  ghost function Listed(h: Heap, x: int): nat
    requires h.Shaped()
  {
    Cover(h.free, x) + Cover(ClassExtents(h.classes, |h.classes|), x)
  }

  /** Every word of every listed allocation, and every word outside the heap, still holds what it held. */
  ghost predicate Untouched(mem: Memory, mem': Memory, live: seq<Grant>, whole: Extent) {
    && (forall i, a: nat :: 0 <= i < |live| && a in mem && Extent(live[i].ptr, live[i].owned).Has(a) ==>
          a in mem' && mem'[a] == mem[a])
    && (forall a: nat :: a in mem && !whole.Has(a) ==> a in mem' && mem'[a] == mem[a])
  }

  /** An allocation is its first attempt unless that finds nothing, and then the retry. */
  lemma {:induction false} AllocByParts(h: Heap, l: Layout)
    requires h.Shaped()
    ensures match GetIndex(l)
      case None =>
        (match HeapSpec.FallbackAlloc(h, l)
         case Carved(range, h1) => HeapSpec.Alloc(h, l) == GrantRange(Carved(range, h1), l)
         case NoRegion => HeapSpec.Alloc(h, l) == (Null, h)
         case BadLayout => HeapSpec.Alloc(h, l) == (Panic, h))
      case Some(i) =>
        h.classes[i] == [] && HeapSpec.FallbackAlloc(h, Layout(BLOCK_SIZES[i], 1)).NoRegion? ==>
          HeapSpec.Alloc(h, l) == Retry(h, l, i)
  {
  }

  lemma {:induction false} EndAligned(start: nat, size: nat, align: nat)
    requires align > 0 && align % 8 == 0 && start % align == 0 && size % 8 == 0
    ensures (start + size) % NODE_ALIGN == 0
  {
    HeapSafety.MultipleOfMultiple(start, align);
  }

  lemma {:induction false} StartPositive(h: Heap, whole: Extent, k: nat)
    requires Separate(h, whole) && whole.start > 0 && k < |h.free|
    ensures h.free[k].start > 0
  {
    CoverAtLeast(h.free, k, h.free[k].start);
    OneOwner(h, whole, h.free[k].start);
  }

  lemma {:induction false} BlockPositive(h: Heap, whole: Extent, c: nat)
    requires Separate(h, whole) && whole.start > 0 && c < CLASSES && h.classes[c] != []
    ensures h.classes[c][0] > 0
  {
    var x := h.classes[c][0];
    CoverAtLeast(Blocks(h.classes[c], BLOCK_SIZES[c]), 0, x);
    ClassCover(h.classes, |h.classes|, c, x);
    OneOwner(h, whole, x);
  }

  /** The heap that a fresh block is to lead to. */
  lemma {:induction false} FreshTarget(h: Heap, l: Layout, i: nat, c: Heap, start: nat, whole: Extent)
    requires Sound(h, whole) && ValidLayout(l) && GetIndex(l) == Some(i) && h.classes[i] == []
    requires var f := HeapSpec.FallbackAlloc(h, Layout(BLOCK_SIZES[i], 1));
      f.Carved? && f.heap == c && f.range.start == start
    ensures HeapSpec.Alloc(h, l) ==
      (Ptr(start),
       AddGrant(if BLOCK_SIZES[i] == 8 then PushBlock(c, i, start + 8) else c, Grant(start, l, BLOCK_SIZES[i])))
    ensures Separate(HeapSpec.Alloc(h, l).1, whole)
  {
    HeapSafety.FreshBlockSound(h, l, i, whole);
    SoundSeparate(HeapSpec.Alloc(h, l).1, whole);
  }

  lemma {:induction false} SoundSeparate(h: Heap, whole: Extent)
    ensures Sound(h, whole) ==> Separate(h, whole)
  {
  }

  lemma {:induction false} CarvedSeparate(h: Heap, l: Layout, whole: Extent)
    requires Separate(h, whole) && PowerOfTwo(l.align) && HeapSpec.FallbackAlloc(h, l).Carved?
    ensures var c := HeapSpec.FallbackAlloc(h, l);
      Separate(c.heap, whole) && Vacant(c.heap, c.range, whole)
  {
    var c := HeapSpec.FallbackAlloc(h, l);
    HeapSafety.CarveAligned(h, l);
    forall x: int ensures Cover(All(c.heap), x) + Hits(c.range, x) <= Hits(whole, x) {
      HeapSafety.FallbackCover(h, l, x);
      assert Cover(All(h), x) <= Hits(whole, x);
    }
  }

  lemma {:induction false} WithdrawSeparate(h: Heap, k: nat, whole: Extent)
    requires Sound(h, whole) && k < |h.live| && Releasable(h.live[k])
    ensures var h' := h.(live := Without(h.live, k));
      Separate(h', whole) && Vacant(h', Extent(h.live[k].ptr, ReleaseSize(h.live[k].layout)), whole)
  {
    var h' := h.(live := Without(h.live, k));
    var e := Extent(h.live[k].ptr, h.live[k].owned);
    forall i | 0 <= i < |h'.live| ensures h'.live[i].ptr % NODE_ALIGN == 0 && ValidGrant(h'.live[i]) {
      assert h'.live[i] == if i < k then h.live[i] else h.live[i + 1];
    }
    forall x: int ensures Cover(All(h'), x) + Hits(e, x) == Hits(whole, x) {
      HeapSafety.GrantsWithout(h.live, k, x);
      HeapSafety.CoverAll(h, x);
      HeapSafety.CoverAll(h', x);
      assert Cover(All(h), x) == Hits(whole, x);
    }
  }

  lemma {:induction false} GrantOwner(h: Heap, whole: Extent, i: nat, a: nat)
    requires Separate(h, whole) && i < |h.live| && Extent(h.live[i].ptr, h.live[i].owned).Has(a)
    ensures Listed(h, a) == 0 && Cover(Grants(h.live), a) == 1
  {
    CoverAtLeast(Grants(h.live), i, a);
    OneOwner(h, whole, a);
  }

  lemma {:induction false} ListedUntouched(h: Heap, whole: Extent, mem: Memory, mem': Memory)
    requires Separate(h, whole)
    requires forall a :: a in mem && Listed(h, a) == 0 ==> a in mem' && mem'[a] == mem[a]
    ensures Untouched(mem, mem', h.live, whole)
  {
    forall i, a: nat | 0 <= i < |h.live| && a in mem && Extent(h.live[i].ptr, h.live[i].owned).Has(a)
      ensures a in mem' && mem'[a] == mem[a]
    {
      GrantOwner(h, whole, i, a);
    }
    forall a: nat | a in mem && !whole.Has(a) ensures Listed(h, a) == 0 {
      OneOwner(h, whole, a);
    }
  }

  lemma {:induction false} FreeUntouched(h: Heap, whole: Extent, mem: Memory, mem': Memory)
    requires Separate(h, whole)
    requires forall a :: a in mem && Cover(h.free, a) == 0 ==> a in mem' && mem'[a] == mem[a]
    ensures Untouched(mem, mem', h.live, whole)
  {
    ListedUntouched(h, whole, mem, mem');
  }

  lemma {:induction false} TakenUntouched(h: Heap, whole: Extent, c: nat, mem: Memory, mem': Memory)
    requires Separate(h, whole) && c < CLASSES && h.classes[c] != []
    requires SameOutside(mem, mem', Extent(h.classes[c][0], BLOCK_SIZES[c]))
    ensures Untouched(mem, mem', h.live, whole)
  {
    forall a | a in mem && Listed(h, a) == 0 ensures a in mem' && mem'[a] == mem[a] {
      CoverAtLeast(Blocks(h.classes[c], BLOCK_SIZES[c]), 0, a);
      ClassCover(h.classes, |h.classes|, c, a);
    }
    ListedUntouched(h, whole, mem, mem');
  }

  /** Writing into the range carved from the free list touches nothing a client holds. */
  lemma {:induction false} SplitUntouched(h: Heap, l: Layout, whole: Extent, mem: Memory, mem': Memory, start: nat)
    requires Separate(h, whole) && HeapSpec.FallbackAlloc(h, l).Carved?
    requires HeapSpec.FallbackAlloc(h, l).range == Extent(start, 16) && SameOutside(mem, mem', Extent(start + 8, 8))
    ensures Untouched(mem, mem', h.live, whole)
  {
    forall i, a: nat | 0 <= i < |h.live| && a in mem && Extent(h.live[i].ptr, h.live[i].owned).Has(a)
      ensures a in mem' && mem'[a] == mem[a]
    {
      assert Cover(All(h), a) <= Hits(whole, a);
      if Extent(start, 16).Has(a) {
        HeapSafety.FallbackCover(h, l, a);
        HeapSafety.CoverAll(HeapSpec.FallbackAlloc(h, l).heap, a);
        CoverAtLeast(Grants(h.live), i, a);
      }
    }
    forall a: nat | a in mem && !whole.Has(a) ensures !Extent(start, 16).Has(a) {
      HeapSafety.FallbackCover(h, l, a);
      assert Cover(All(h), a) <= Hits(whole, a);
    }
  }

  lemma {:induction false} VacantPart(h: Heap, range: Extent, part: Extent, whole: Extent)
    requires h.Shaped() && Vacant(h, range, whole)
    requires range.start <= part.start && part.End() <= range.End()
    ensures Vacant(h, part, whole)
  {
  }

  /** Using up one part of a vacant range leaves the part in front of it vacant. */
  lemma {:induction false} VacantAfter(h: Heap, h': Heap, r: Extent, used: Extent, gap: Extent, whole: Extent)
    requires h.Shaped() && Vacant(h, r, whole) && r.start <= gap.start && gap.End() <= used.start
    requires used.End() <= r.End()
    requires h' == h.(free := if used.len > 0 then [used] + h.free else h.free)
    ensures Vacant(h', gap, whole)
  {
    forall x: int | gap.Has(x) ensures Cover(All(h'), x) == 0 && whole.Has(x) {
      assert r.Has(x);
      HeapSafety.CoverFree(h, used, x);
    }
  }

  lemma {:induction false} LoseSeparate(h: Heap, gap: Extent, whole: Extent)
    requires Separate(h, whole) && Vacant(h, gap, whole)
    ensures Separate(h.(lost := h.lost + [gap]), whole)
  {
    var h' := h.(lost := h.lost + [gap]);
    forall x: int ensures Cover(All(h'), x) == Cover(All(h), x) + Hits(gap, x) {
      HeapSafety.CoverAll(h, x);
      HeapSafety.CoverAll(h', x);
      CoverSnoc(h.lost, gap, x);
    }
    SeparateMore(h, h', gap, whole);
  }

  lemma {:induction false} OtherGrant(h: Heap, k: nat, o: nat, whole: Extent, a: nat)
    requires Separate(h, whole) && k < |h.live| && o < |h.live| && o != k
    requires Extent(h.live[o].ptr, h.live[o].owned).Has(a)
    ensures !Extent(h.live[k].ptr, h.live[k].owned).Has(a)
  {
    if o < k {
      CoverTwo(Grants(h.live), o, k, a);
    } else {
      CoverTwo(Grants(h.live), k, o, a);
    }
    OneOwner(h, whole, a);
  }

  lemma {:induction false} StillReleasable(h: Heap, k: nat)
    requires h.Shaped() && k < |h.live|
    ensures AllReleasable(h) ==> AllReleasable(HeapSpec.Dealloc(h, k))
  {
    if AllReleasable(h) {
      HeapSafety.DeallocReleasable(h, k);
    }
  }

  lemma {:induction false} RestUntouched(h: Heap, k: nat, whole: Extent, mem: Memory, mem': Memory)
    requires Separate(h, whole) && k < |h.live| && Releasable(h.live[k])
    requires SameOutside(mem, mem', Extent(h.live[k].ptr, ReleaseSize(h.live[k].layout)))
    ensures Untouched(mem, mem', Without(h.live, k), whole)
  {
    var size := ReleaseSize(h.live[k].layout);
    var rest := Without(h.live, k);
    forall i, a: nat | 0 <= i < |rest| && a in mem && Extent(rest[i].ptr, rest[i].owned).Has(a)
      ensures a in mem' && mem'[a] == mem[a]
    {
      OtherGrant(h, k, if i < k then i else i + 1, whole, a);
      assert !Extent(h.live[k].ptr, size).Has(a);
    }
    forall a: nat | a in mem && !whole.Has(a) ensures !Extent(h.live[k].ptr, h.live[k].owned).Has(a) {
      CoverAtLeast(Grants(h.live), k, a);
      OneOwner(h, whole, a);
    }
  }
}
