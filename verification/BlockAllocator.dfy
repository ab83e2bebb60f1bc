/** The kernel allocator working on memory: list nodes live inside the free memory they describe, and every list
    operation reads and writes 8-byte words. Each method carries out the step of the same name in HeapSpec. */
module BlockAllocator {
  import opened Extents
  import opened Basics
  import opened HeapSpec
  import HeapSafety

  /** Words of memory by address; a region node is its length followed by its link, a block node is its link, and a
      link of 0 ends a list. */
  type Memory = map<nat, nat>

  ghost function RegionLink(free: seq<Extent>, i: nat): nat {
    if i < |free| then free[i].start else 0
  }

  ghost predicate RegionChain(mem: Memory, head: nat, free: seq<Extent>) {
    && head == RegionLink(free, 0)
    && forall i :: 0 <= i < |free| ==> RegionNode(mem, free, i)
  }

  ghost predicate RegionNode(mem: Memory, free: seq<Extent>, i: nat)
    requires i < |free|
  {
    var a := free[i].start;
    a in mem && a + 8 in mem && mem[a] == free[i].len && mem[a + 8] == RegionLink(free, i + 1)
  }

  ghost function BlockLink(blocks: seq<nat>, i: nat): nat {
    if i < |blocks| then blocks[i] else 0
  }

  ghost predicate BlockChain(mem: Memory, head: nat, blocks: seq<nat>) {
    && head == BlockLink(blocks, 0)
    && forall i :: 0 <= i < |blocks| ==> blocks[i] in mem && mem[blocks[i]] == BlockLink(blocks, i + 1)
  }

  ghost predicate Chains(mem: Memory, head: nat, heads: seq<nat>, h: Heap) {
    && h.Shaped() && |heads| == CLASSES
    && RegionChain(mem, head, h.free)
    && forall c :: 0 <= c < CLASSES ==> BlockChain(mem, heads[c], h.classes[c])
  }

  /** No byte is in two lists or outside the heap, and every node is aligned and large enough. */
  ghost predicate Separate(h: Heap, whole: Extent) {
    && h.Shaped() && NodesAligned(h)
    && forall x: int :: Cover(All(h), x) <= Hits(whole, x)
  }

  ghost predicate HasWords(mem: Memory, whole: Extent) {
    forall a: nat :: a % 8 == 0 && whole.start <= a && a + 8 <= whole.End() ==> a in mem
  }

  // --- frames ---

  lemma {:induction false} NodeCovered(free: seq<Extent>, i: nat)
    requires i < |free| && free[i].len >= LIST_NODE_SIZE
    ensures Cover(free, free[i].start) >= 1 && Cover(free, free[i].start + 8) >= 1
  {
    CoverAtLeast(free, i, free[i].start);
    CoverAtLeast(free, i, free[i].start + 8);
  }

  /** A region list only depends on the words it covers. */
  lemma {:induction false} RegionFrame(mem: Memory, mem': Memory, head: nat, free: seq<Extent>)
    requires RegionChain(mem, head, free)
    requires forall i :: 0 <= i < |free| ==> free[i].len >= LIST_NODE_SIZE
    requires forall a :: a in mem && Cover(free, a) > 0 ==> a in mem' && mem'[a] == mem[a]
    ensures RegionChain(mem', head, free)
  {
    forall i | 0 <= i < |free| ensures RegionNode(mem', free, i) {
      assert RegionNode(mem, free, i);
      NodeCovered(free, i);
    }
  }

  /** A block list only depends on the words it covers. */
  lemma {:induction false} BlockFrame(mem: Memory, mem': Memory, head: nat, blocks: seq<nat>, size: nat)
    requires BlockChain(mem, head, blocks) && size >= 8
    requires forall a :: a in mem && Cover(Blocks(blocks, size), a) > 0 ==> a in mem' && mem'[a] == mem[a]
    ensures BlockChain(mem', head, blocks)
  {
    forall i | 0 <= i < |blocks| ensures blocks[i] in mem' && mem'[blocks[i]] == BlockLink(blocks, i + 1) {
      CoverAtLeast(Blocks(blocks, size), i, blocks[i]);
    }
  }

  lemma {:induction false} ClassCover(classes: seq<seq<nat>>, n: nat, c: nat, x: int)
    requires c < n <= |classes| == CLASSES
    ensures Cover(ClassExtents(classes, n), x) >= Cover(Blocks(classes[c], BLOCK_SIZES[c]), x)
  {
    CoverConcat(ClassExtents(classes, n - 1), Blocks(classes[n - 1], BLOCK_SIZES[n - 1]), x);
    if c < n - 1 {
      ClassCover(classes, n - 1, c, x);
    }
  }

  /** What the separation of a heap says about one byte. */
  lemma {:induction false} OneOwner(h: Heap, whole: Extent, x: int)
    requires Separate(h, whole)
    ensures Cover(h.free, x) + Cover(ClassExtents(h.classes, |h.classes|), x) + Cover(Grants(h.live), x)
         <= Hits(whole, x)
  {
    HeapSafety.CoverAll(h, x);
    assert Cover(All(h), x) <= Hits(whole, x);
  }

  ghost predicate SameOutside(mem: Memory, mem': Memory, e: Extent) {
    forall a :: a in mem && !e.Has(a) ==> a in mem' && mem'[a] == mem[a]
  }

  /** Writing inside memory that no list covers leaves every list as it was. */
  lemma {:induction false} ChainsFrame(mem: Memory, mem': Memory, head: nat, heads: seq<nat>, h: Heap, e: Extent)
    requires Chains(mem, head, heads, h) && NodesAligned(h) && SameOutside(mem, mem', e)
    requires forall x: int :: e.Has(x) ==> Cover(All(h), x) == 0
    ensures Chains(mem', head, heads, h)
  {
    forall a | a in mem && Cover(h.free, a) > 0 ensures a in mem' && mem'[a] == mem[a] {
      HeapSafety.CoverAll(h, a);
    }
    RegionFrame(mem, mem', head, h.free);
    forall c | 0 <= c < CLASSES ensures BlockChain(mem', heads[c], h.classes[c]) {
      forall a | a in mem && Cover(Blocks(h.classes[c], BLOCK_SIZES[c]), a) > 0 ensures a in mem' && mem'[a] == mem[a] {
        HeapSafety.CoverAll(h, a);
        ClassCover(h.classes, |h.classes|, c, a);
      }
      BlockFrame(mem, mem', heads[c], h.classes[c], BLOCK_SIZES[c]);
    }
  }

  // --- separation through each list operation ---

  lemma {:induction false} SeparateMore(h: Heap, h': Heap, e: Extent, whole: Extent)
    requires Separate(h, whole) && h'.Shaped() && NodesAligned(h')
    requires forall x: int :: e.Has(x) ==> Cover(All(h), x) == 0 && whole.Has(x)
    requires forall x: int :: Cover(All(h'), x) == Cover(All(h), x) + Hits(e, x)
    ensures Separate(h', whole)
  {
  }

  /** A range is free for use: inside the heap and in no list. */
  ghost predicate Vacant(h: Heap, e: Extent, whole: Extent)
    requires h.Shaped()
  {
    forall x: int :: e.Has(x) ==> Cover(All(h), x) == 0 && whole.Has(x)
  }

  lemma {:induction false} FreeSeparate(h: Heap, e: Extent, whole: Extent)
    requires Separate(h, whole) && Vacant(h, e, whole) && e.start % 8 == 0 && e.len >= LIST_NODE_SIZE
    ensures Separate(h.(free := [e] + h.free), whole)
  {
    var h' := h.(free := [e] + h.free);
    forall x: int ensures Cover(All(h'), x) == Cover(All(h), x) + Hits(e, x) {
      HeapSafety.CoverFree(h, e, x);
    }
    SeparateMore(h, h', e, whole);
  }

  lemma {:induction false} ConsRegion(mem: Memory, head: nat, free: seq<Extent>, e: Extent)
    requires RegionChain(mem, head, free) && e.start in mem && e.start + 8 in mem
    requires mem[e.start] == e.len && mem[e.start + 8] == head
    ensures RegionChain(mem, e.start, [e] + free)
  {
    var longer := [e] + free;
    forall i | 0 <= i < |longer| ensures RegionNode(mem, longer, i) {
      if i > 0 {
        assert longer[i] == free[i - 1];
        assert RegionNode(mem, free, i - 1);
      }
    }
  }

  lemma {:induction false} PushRegion(mem: Memory, head: nat, heads: seq<nat>, h: Heap, e: Extent, whole: Extent)
    requires Chains(mem, head, heads, h) && Separate(h, whole) && Vacant(h, e, whole)
    requires e.start % 8 == 0 && e.len >= LIST_NODE_SIZE && e.start in mem && e.start + 8 in mem
    ensures var mem' := mem[e.start := e.len][e.start + 8 := head];
      var h' := h.(free := [e] + h.free);
      Chains(mem', e.start, heads, h') && Separate(h', whole) && SameOutside(mem, mem', e)
  {
    var mem' := mem[e.start := e.len][e.start + 8 := head];
    ChainsFrame(mem, mem', head, heads, h, e);
    ConsRegion(mem', head, h.free, e);
    FreeSeparate(h, e, whole);
  }

  lemma {:induction false} ConsBlock(mem: Memory, head: nat, blocks: seq<nat>, node: nat)
    requires BlockChain(mem, head, blocks) && node in mem && mem[node] == head
    ensures BlockChain(mem, node, [node] + blocks)
  {
  }

  lemma {:induction false} PushSeparate(h: Heap, c: nat, node: nat, whole: Extent)
    requires Separate(h, whole) && c < CLASSES && node % 8 == 0 && Vacant(h, Extent(node, BLOCK_SIZES[c]), whole)
    ensures Separate(PushBlock(h, c, node), whole)
  {
    var e := Extent(node, BLOCK_SIZES[c]);
    var h' := PushBlock(h, c, node);
    HeapSafety.PushAligned(h, c, node);
    forall x: int ensures Cover(All(h'), x) == Cover(All(h), x) + Hits(e, x) {
      HeapSafety.CoverPush(h, c, node, x);
    }
    SeparateMore(h, h', e, whole);
  }

  lemma {:induction false} PushNode(mem: Memory, head: nat, heads: seq<nat>, h: Heap, c: nat, node: nat, whole: Extent)
    requires Chains(mem, head, heads, h) && Separate(h, whole) && c < CLASSES
    requires Vacant(h, Extent(node, BLOCK_SIZES[c]), whole) && node % 8 == 0 && node in mem
    ensures var mem' := mem[node := heads[c]];
      var h' := PushBlock(h, c, node);
      && Chains(mem', head, heads[c := node], h') && Separate(h', whole)
      && SameOutside(mem, mem', Extent(node, BLOCK_SIZES[c]))
  {
    var e := Extent(node, BLOCK_SIZES[c]);
    var mem' := mem[node := heads[c]];
    assert e.Has(node);
    ChainsFrame(mem, mem', head, heads, h, e);
    ConsBlock(mem', heads[c], h.classes[c], node);
    PushSeparate(h, c, node, whole);
  }

  lemma {:induction false} PopNode(mem: Memory, head: nat, heads: seq<nat>, h: Heap, c: nat, whole: Extent)
    requires Chains(mem, head, heads, h) && Separate(h, whole) && c < CLASSES && heads[c] != 0
    ensures h.classes[c] != [] && heads[c] == h.classes[c][0] && heads[c] in mem
    ensures var mem' := mem[heads[c] := 0];
      var h' := PopBlock(h, c);
      && Chains(mem', head, heads[c := mem[heads[c]]], h') && Separate(h', whole)
      && Vacant(h', Extent(heads[c], BLOCK_SIZES[c]), whole)
      && SameOutside(mem, mem', Extent(heads[c], BLOCK_SIZES[c]))
      && heads[c] % 8 == 0
  {
    var node := heads[c];
    var e := Extent(node, BLOCK_SIZES[c]);
    var h' := PopBlock(h, c);
    HeapSafety.PopAligned(h, c);
    forall x: int ensures Cover(All(h'), x) + Hits(e, x) == Cover(All(h), x) <= Hits(whole, x) {
      HeapSafety.CoverPop(h, c, x);
      assert Cover(All(h), x) <= Hits(whole, x);
    }
    var heads' := heads[c := mem[node]];
    assert Chains(mem, head, heads', h') by {
      var blocks := h'.classes[c];
      forall i | 0 <= i < |blocks| ensures blocks[i] in mem && mem[blocks[i]] == BlockLink(blocks, i + 1) {
        assert blocks[i] == h.classes[c][i + 1];
      }
    }
    assert e.Has(node);
    ChainsFrame(mem, mem[node := 0], head, heads', h', e);
  }

  lemma {:induction false} FreeApart(h: Heap, whole: Extent, i: nat, j: nat)
    requires Separate(h, whole) && i < |h.free| && j < |h.free| && i != j
    ensures h.free[i].End() <= h.free[j].start || h.free[j].End() <= h.free[i].start
  {
    var a, b := if i < j then i else j, if i < j then j else i;
    var x := if h.free[i].start <= h.free[j].start then h.free[j].start else h.free[i].start;
    CoverTwo(h.free, a, b, x);
    OneOwner(h, whole, x);
  }

  /** Memory after unlinking the `k`-th region: its own link is cleared and its predecessor takes the link over. */
  ghost function Unlinked(mem: Memory, free: seq<Extent>, k: nat): Memory
    requires k < |free|
  {
    var mem1 := mem[free[k].start + 8 := 0];
    if k == 0 then mem1 else mem1[free[k - 1].start + 8 := RegionLink(free, k + 1)]
  }

  ghost predicate Apart(free: seq<Extent>) {
    && (forall i :: 0 <= i < |free| ==> free[i].len >= LIST_NODE_SIZE)
    && (forall i, j :: 0 <= i < |free| && 0 <= j < |free| && i != j ==>
          free[i].End() <= free[j].start || free[j].End() <= free[i].start)
  }

  lemma {:induction false} UnlinkRegions(mem: Memory, head: nat, free: seq<Extent>, k: nat)
    requires RegionChain(mem, head, free) && Apart(free) && k < |free|
    ensures RegionChain(Unlinked(mem, free, k), if k == 0 then RegionLink(free, 1) else head, Without(free, k))
    ensures free[k].start in Unlinked(mem, free, k) && Unlinked(mem, free, k)[free[k].start] == free[k].len
  {
    var mem' := Unlinked(mem, free, k);
    var rest := Without(free, k);
    assert RegionNode(mem, free, k);
    forall i | 0 <= i < |rest| ensures RegionNode(mem', rest, i) {
      var o := if i < k then i else i + 1;
      assert rest[i] == free[o];
      assert RegionNode(mem, free, o);
      assert free[o].End() <= free[k].start || free[k].End() <= free[o].start;
    }
  }

  lemma {:induction false} UnlinkFrame(mem: Memory, free: seq<Extent>, k: nat, a: nat)
    requires Apart(free) && k < |free| && a in mem && Cover(free, a) == 0
    ensures a in Unlinked(mem, free, k) && Unlinked(mem, free, k)[a] == mem[a]
  {
    NodeCovered(free, k);
    if k > 0 {
      NodeCovered(free, k - 1);
    }
  }

  lemma {:induction false} UnlinkSeparate(h: Heap, k: nat, whole: Extent)
    requires Separate(h, whole) && k < |h.free|
    ensures var h' := h.(free := Without(h.free, k)); Separate(h', whole) && Vacant(h', h.free[k], whole)
  {
    var rest := Without(h.free, k);
    var h' := h.(free := rest);
    forall i | 0 <= i < |rest| ensures rest[i].start % NODE_ALIGN == 0 && rest[i].len >= LIST_NODE_SIZE {
      assert rest[i] == h.free[if i < k then i else i + 1];
    }
    forall x: int ensures Cover(All(h'), x) + Hits(h.free[k], x) == Cover(All(h), x) <= Hits(whole, x) {
      HeapSafety.CoverAll(h, x);
      HeapSafety.CoverAll(h', x);
      CoverRemove(h.free, k, x);
      assert Cover(All(h), x) <= Hits(whole, x);
    }
  }

  lemma {:induction false} FreeIsApart(h: Heap, whole: Extent)
    requires Separate(h, whole)
    ensures Apart(h.free)
  {
    forall i, j | 0 <= i < |h.free| && 0 <= j < |h.free| && i != j
      ensures h.free[i].End() <= h.free[j].start || h.free[j].End() <= h.free[i].start
    {
      FreeApart(h, whole, i, j);
    }
  }

  /** Changes confined to free regions leave the class lists alone. */
  lemma {:induction false} ClassesFrame(mem: Memory, mem': Memory, heads: seq<nat>, h: Heap, whole: Extent, c: nat)
    requires Separate(h, whole) && c < CLASSES && |heads| == CLASSES && BlockChain(mem, heads[c], h.classes[c])
    requires forall a :: a in mem && Cover(h.free, a) == 0 ==> a in mem' && mem'[a] == mem[a]
    ensures BlockChain(mem', heads[c], h.classes[c])
  {
    forall a | a in mem && Cover(Blocks(h.classes[c], BLOCK_SIZES[c]), a) > 0 ensures a in mem' && mem'[a] == mem[a] {
      OneOwner(h, whole, a);
      ClassCover(h.classes, |h.classes|, c, a);
    }
    BlockFrame(mem, mem', heads[c], h.classes[c], BLOCK_SIZES[c]);
  }

  lemma {:induction false} UnlinkChains(mem: Memory, head: nat, heads: seq<nat>, h: Heap, k: nat, whole: Extent)
    requires Chains(mem, head, heads, h) && Separate(h, whole) && k < |h.free|
    ensures var mem' := Unlinked(mem, h.free, k);
      var h' := h.(free := Without(h.free, k));
      && Chains(mem', if k == 0 then RegionLink(h.free, 1) else head, heads, h')
      && Separate(h', whole) && Vacant(h', h.free[k], whole)
      && h.free[k].start in mem' && mem'[h.free[k].start] == h.free[k].len
      && (forall a :: a in mem && Cover(h.free, a) == 0 ==> a in mem' && mem'[a] == mem[a])
  {
    var mem' := Unlinked(mem, h.free, k);
    FreeIsApart(h, whole);
    UnlinkRegions(mem, head, h.free, k);
    forall a | a in mem && Cover(h.free, a) == 0 ensures a in mem' && mem'[a] == mem[a] {
      UnlinkFrame(mem, h.free, k, a);
    }
    forall c | 0 <= c < CLASSES ensures BlockChain(mem', heads[c], h.classes[c]) {
      ClassesFrame(mem, mem', heads, h, whole, c);
    }
    UnlinkSeparate(h, k, whole);
  }
}
