/** The kernel heap as a value: what each allocator call does to the free list, the size-class lists and the
    outstanding allocations. The class in KernelAllocator carries the same calls out on memory words. */
module HeapSpec {
  import opened Align
  import opened Extents
  import opened Basics

  const BLOCK_SIZES: seq<nat> := [8, 16, 32, 64, 128, 256, 512, 1024, 2048]
  const CLASSES: nat := 9
  const LIST_NODE_SIZE: nat := 16
  const NODE_ALIGN: nat := 8
  const ISIZE_MAX: nat := 0x7FFF_FFFF_FFFF_FFFF

  datatype Layout = Layout(size: nat, align: nat)

  predicate PowerOfTwo(n: nat) {
    n == 1 || (n > 1 && n % 2 == 0 && PowerOfTwo(n / 2))
  }

  /** What `Layout::from_size_align` accepts: the size rounded up to the alignment stays within `isize`. */
  predicate ValidLayout(l: Layout) {
    PowerOfTwo(l.align) && l.size + (l.align - 1) <= ISIZE_MAX
  }

  /** The size class serving a layout: the first block size at least as large as both size and alignment. */
  function GetIndex(l: Layout): (r: Option<nat>)
    ensures r.Some? ==> r.value < CLASSES && l.size <= BLOCK_SIZES[r.value] && l.align <= BLOCK_SIZES[r.value]
    ensures r.Some? ==> forall j :: 0 <= j < r.value ==> BLOCK_SIZES[j] < Max(l.size, l.align)
    ensures r.None? <==> 2048 < l.size || 2048 < l.align
  {
    Position(Max(l.size, l.align), 0)
  }

  function Position(need: nat, i: nat): (r: Option<nat>)
    requires i <= CLASSES
    ensures r.Some? ==> i <= r.value < CLASSES && need <= BLOCK_SIZES[r.value]
    ensures r.Some? ==> forall j :: i <= j < r.value ==> BLOCK_SIZES[j] < need
    ensures r.None? ==> forall j :: i <= j < CLASSES ==> BLOCK_SIZES[j] < need
    decreases CLASSES - i
  {
    if i == CLASSES then None
    else if BLOCK_SIZES[i] >= need then Some(i)
    else Position(need, i + 1)
  }

  /** The layout the fallback list really serves; `None` where the source panics. */
  function AdjustLayout(l: Layout): (r: Option<Layout>) {
    var align := Max(l.align, NODE_ALIGN);
    if l.size + (align - 1) > ISIZE_MAX then None
    else
      var size := Max(AlignUp(l.size, align), LIST_NODE_SIZE);
      if size + (align - 1) > ISIZE_MAX then None else Some(Layout(size, align))
  }

  /** Where an allocation would start inside a free region, if the region can hold it: the rest behind it must be
      empty or large enough for a node. */
  function AllocFromRegion(r: Extent, length: nat, align: nat): (a: Option<nat>)
    requires align > 0
    ensures a.Some? ==> r.start <= a.value && a.value % align == 0 && a.value + length <= r.End()
    ensures a.Some? ==> r.End() == a.value + length || r.End() >= a.value + length + LIST_NODE_SIZE
  {
    var start := AlignUp(r.start, align);
    var end := start + length;
    if end > r.End() then None
    else if r.End() != end && r.End() < end + LIST_NODE_SIZE then None
    else Some(start)
  }

  /** The first suitable region of the free list, searching from index `i`. */
  function FirstFit(free: seq<Extent>, i: nat, length: nat, align: nat): (k: nat)
    requires i <= |free| && align > 0
    ensures i <= k <= |free|
    ensures k < |free| ==> AllocFromRegion(free[k], length, align).Some?
    ensures forall j :: i <= j < k ==> AllocFromRegion(free[j], length, align).None?
    decreases |free| - i
  {
    if i == |free| || AllocFromRegion(free[i], length, align).Some? then i
    else FirstFit(free, i + 1, length, align)
  }

  /** An outstanding allocation: the pointer and layout the client holds and the bytes set aside for it. */
  datatype Grant = Grant(ptr: nat, layout: Layout, owned: nat)

  /** `lost` lists the ranges that no list holds any more: alignment gaps in front of an allocation and the tail of
      a block released into a class smaller than the block. */
  datatype Heap = Heap(free: seq<Extent>, classes: seq<seq<nat>>, live: seq<Grant>, lost: seq<Extent>) {
    predicate Shaped() { |classes| == CLASSES }
  }

  datatype Outcome = Ptr(address: nat) | Null | Panic

  /** Result of a fallback allocation: the range handed out, nothing, or a panic. */
  datatype Carved = Carved(range: Extent, heap: Heap) | NoRegion | BadLayout

  function Init(base: nat, length: nat): Heap {
    Heap([Extent(base, length)], seq(CLASSES, _ => []), [], [])
  }

  /** Cuts `size` bytes at `start` out of the `k`-th free region. */
  function CarveAt(h: Heap, k: nat, start: nat, size: nat): (c: Carved)
    requires k < |h.free| && h.free[k].start <= start && start + size <= h.free[k].End()
    ensures c.Carved? && c.heap.classes == h.classes && c.heap.live == h.live
  {
    var r := h.free[k];
    var excess := r.End() - (start + size);
    var rest := Without(h.free, k);
    var free := if excess > 0 then [Extent(start + size, excess)] + rest else rest;
    Carved(Extent(start, size), h.(free := free, lost := h.lost + [Extent(r.start, start - r.start)]))
  }

  function FallbackAlloc(h: Heap, l: Layout): (c: Carved)
    ensures c.Carved? ==> c.heap.classes == h.classes && c.heap.live == h.live
    ensures c.BadLayout? <==> AdjustLayout(l).None?
  {
    match AdjustLayout(l)
    case None => BadLayout
    case Some(a) =>
      var k := FirstFit(h.free, 0, a.size, a.align);
      if k < |h.free| then
        CarveAt(h, k, AllocFromRegion(h.free[k], a.size, a.align).value, a.size)
      else NoRegion
  }

  function PushBlock(h: Heap, i: nat, block: nat): Heap
    requires h.Shaped() && i < CLASSES
  {
    h.(classes := h.classes[i := [block] + h.classes[i]])
  }

  function PopBlock(h: Heap, i: nat): Heap
    requires h.Shaped() && i < CLASSES && h.classes[i] != []
  {
    h.(classes := h.classes[i := h.classes[i][1..]])
  }

  function AddGrant(h: Heap, g: Grant): Heap {
    h.(live := h.live + [g])
  }

  /** The smallest class above `i` that has a free block, or the number of classes. */
  function ScrapIndex(h: Heap, i: nat): (j: nat)
    requires h.Shaped() && i <= CLASSES
    ensures i <= j <= CLASSES
    ensures j < CLASSES ==> h.classes[j] != []
    ensures forall m :: i <= m < j ==> h.classes[m] == []
    decreases CLASSES - i
  {
    if i == CLASSES || h.classes[i] != [] then i else ScrapIndex(h, i + 1)
  }

  /** Returns one block of class `j` to the free list. */
  function Scrap(h: Heap, j: nat): Heap
    requires h.Shaped() && j < CLASSES && h.classes[j] != []
  {
    var block := h.classes[j][0];
    var h1 := PopBlock(h, j);
    h1.(free := [Extent(block, BLOCK_SIZES[j])] + h1.free)
  }

  /** Grants a carved range to the client in full. */
  function GrantRange(c: Carved, l: Layout): (Outcome, Heap)
    requires c.Carved?
  {
    (Ptr(c.range.start), AddGrant(c.heap, Grant(c.range.start, l, c.range.len)))
  }

  /** Scraps one larger block, if there is one, and asks the fallback again for the client's own layout. */
  function Retry(h: Heap, l: Layout, i: nat): (r: (Outcome, Heap))
    requires h.Shaped() && i < CLASSES
    ensures r.1.Shaped()
  {
    var j := ScrapIndex(h, i + 1);
    if j == CLASSES then (Null, h)
    else
      var h1 := Scrap(h, j);
      match FallbackAlloc(h1, l)
      case Carved(range, h2) => GrantRange(Carved(range, h2), l)
      case NoRegion => (Null, h1)
      case BadLayout => (Panic, h1)
  }

  function Alloc(h: Heap, l: Layout): (r: (Outcome, Heap))
    requires h.Shaped()
    ensures r.1.Shaped()
  {
    match GetIndex(l)
    case None =>
      (match FallbackAlloc(h, l)
       case Carved(range, h1) => GrantRange(Carved(range, h1), l)
       case NoRegion => (Null, h)
       case BadLayout => (Panic, h))
    case Some(i) =>
      var size := BLOCK_SIZES[i];
      if h.classes[i] != [] then
        var block := h.classes[i][0];
        (Ptr(block), AddGrant(PopBlock(h, i), Grant(block, l, size)))
      else
        match FallbackAlloc(h, Layout(size, 1))
        case Carved(range, h1) =>
          // a 16-byte range serves class 8 twice: the second half goes onto the class list
          var h2 := if size == 8 then PushBlock(h1, i, range.start + 8) else h1;
          (Ptr(range.start), AddGrant(h2, Grant(range.start, l, size)))
        case NoRegion => Retry(h, l, i)
        case BadLayout => (Panic, h)
  }

  /** The bytes a later dealloc takes this layout's memory to have. */
  function ReleaseSize(l: Layout): nat {
    match GetIndex(l)
    case Some(i) => BLOCK_SIZES[i]
    case None => match AdjustLayout(l) case Some(a) => a.size case None => 0
  }

  /** Moves the `k`-th grant to class list `index`, or to the free list if there is none, as `size` bytes. */
  function ReleaseAs(h: Heap, k: nat, index: Option<nat>, size: nat): (h': Heap)
    requires h.Shaped() && k < |h.live| && (index.Some? ==> index.value < CLASSES)
    ensures h'.Shaped()
  {
    var g := h.live[k];
    var tail := if g.owned > size then [Extent(g.ptr + size, g.owned - size)] else [];
    var h1 := h.(live := Without(h.live, k), lost := h.lost + tail);
    match index
    case Some(i) => PushBlock(h1, i, g.ptr)
    case None => h1.(free := [Extent(g.ptr, size)] + h1.free)
  }

  /** Releases the `k`-th outstanding allocation with the layout it was made for. */
  function Dealloc(h: Heap, k: nat): Heap
    requires h.Shaped() && k < |h.live|
  {
    var l := h.live[k].layout;
    ReleaseAs(h, k, GetIndex(l), ReleaseSize(l))
  }

  // --- what the heap lists and grants cover ---

  ghost function Blocks(s: seq<nat>, size: nat): (r: seq<Extent>)
    ensures |r| == |s| && forall i :: 0 <= i < |s| ==> r[i] == Extent(s[i], size)
  {
    seq(|s|, i requires 0 <= i < |s| => Extent(s[i], size))
  }

  /** The blocks on the first `n` class lists. */
  ghost function ClassExtents(classes: seq<seq<nat>>, n: nat): seq<Extent>
    requires n <= |classes| == CLASSES
  {
    if n == 0 then [] else ClassExtents(classes, n - 1) + Blocks(classes[n - 1], BLOCK_SIZES[n - 1])
  }

  ghost function Grants(live: seq<Grant>): (r: seq<Extent>)
    ensures |r| == |live| && forall i :: 0 <= i < |live| ==> r[i] == Extent(live[i].ptr, live[i].owned)
  {
    seq(|live|, i requires 0 <= i < |live| => Extent(live[i].ptr, live[i].owned))
  }

  ghost function All(h: Heap): seq<Extent>
    requires h.Shaped()
  {
    h.free + (ClassExtents(h.classes, |h.classes|) + (Grants(h.live) + h.lost))
  }

  /** Every node fits where it lies, and free regions, class blocks, grants and lost ranges tile the heap. */
  ghost predicate Sound(h: Heap, whole: Extent) {
    && h.Shaped()
    && Tiles(All(h), whole)
    && NodesAligned(h)
  }

  ghost predicate NodesAligned(h: Heap)
    requires h.Shaped()
  {
    && (forall i :: 0 <= i < |h.free| ==> h.free[i].start % NODE_ALIGN == 0 && h.free[i].len >= LIST_NODE_SIZE)
    && (forall c, i :: 0 <= c < CLASSES && 0 <= i < |h.classes[c]| ==> h.classes[c][i] % NODE_ALIGN == 0)
    && (forall i :: 0 <= i < |h.live| ==> h.live[i].ptr % NODE_ALIGN == 0 && ValidGrant(h.live[i]))
  }

  predicate ValidGrant(g: Grant) {
    && ValidLayout(g.layout) && g.layout.size <= g.owned
    && (GetIndex(g.layout).None? ==> g.owned == ReleaseSize(g.layout) >= LIST_NODE_SIZE)
  }

  /** The grant holds at least the bytes that its release will hand to a list. */
  predicate Releasable(g: Grant) {
    ReleaseSize(g.layout) <= g.owned
  }

  ghost predicate AllReleasable(h: Heap) {
    forall i :: 0 <= i < |h.live| ==> Releasable(h.live[i])
  }
}
