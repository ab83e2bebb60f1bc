/** The mappings of boot: the direct map of all physical memory, and the end of the identity map below 2 MB. */
module BootMapping {
  import opened Align
  import opened Extents
  import opened Basics
  import opened PageTable
  import opened DirectMap
  import FrameAllocation
  import opened Mapping

  // --- all of physical memory ---

  /** The direct-map windows of the first `n` regions, in the order they are mapped. */
  function AllWindows(regions: seq<Extent>, n: nat): seq<nat>
    requires n <= |regions|
  {
    if n == 0 then [] else AllWindows(regions, n - 1) + Windows(regions[n - 1].start, regions[n - 1].len)
  }

  /** The region's direct map fits the address space. */
  predicate Fits(r: Extent) {
    PHYS_MEM_VIRT_ADDR + AlignDown(r.start, TWO_MB) + AlignUp(r.len, TWO_MB) <= SPACE
  }

  ghost predicate InSome(w: nat, regions: seq<Extent>) {
    exists i :: 0 <= i < |regions| && InFrames(w, regions[i].start, regions[i].len)
  }

  lemma {:induction false} AllAreWindows(regions: seq<Extent>, n: nat)
    requires n <= |regions| && forall i :: 0 <= i < n ==> Fits(regions[i])
    ensures AreWindows(AllWindows(regions, n))
  {
    if n > 0 {
      AllAreWindows(regions, n - 1);
      RowIsWindows(AlignDown(regions[n - 1].start, TWO_MB), AlignUp(regions[n - 1].len, TWO_MB));
    }
  }

  lemma {:induction false} AllCover(regions: seq<Extent>, n: nat, w: nat)
    requires n <= |regions|
    ensures Covered(w, AllWindows(regions, n)) <==> InSome(w, regions[..n])
  {
    if n > 0 {
      var r := regions[n - 1];
      AllCover(regions, n - 1, w);
      CoveredConcat(w, AllWindows(regions, n - 1), Windows(r.start, r.len));
      RowCovers(AlignDown(r.start, TWO_MB), AlignUp(r.len, TWO_MB), w);
      InOneMore(w, regions, n);
    }
  }

  lemma {:induction false} InOneMore(w: nat, regions: seq<Extent>, n: nat)
    requires 0 < n <= |regions|
    ensures InSome(w, regions[..n]) <==>
      InSome(w, regions[..n - 1]) || InFrames(w, regions[n - 1].start, regions[n - 1].len)
  {
    var s, t := regions[..n], regions[..n - 1];
    assert forall i :: 0 <= i < n - 1 ==> s[i] == t[i];
    assert s[n - 1] == regions[n - 1];
  }

  lemma {:induction false} AllSplit(regions: seq<Extent>, n: nat, m: nat) returns (rest: seq<nat>)
    requires n <= m <= |regions|
    ensures AllWindows(regions, m) == AllWindows(regions, n) + rest
    decreases m
  {
    if n == m {
      rest := [];
    } else {
      var init := AllSplit(regions, n, m - 1);
      rest := init + Windows(regions[m - 1].start, regions[m - 1].len);
    }
  }

  /** Maps every region of the memory map in turn; their 2 MB windows may overlap. It ends as planned from the tables
      and the allocator before the call; on success the direct map of all regions is in place and exactly the tables
      needed were added. Whatever happens, no translation outside the regions and outside 1 GB pages changes. */
  method MapPhysicalMemory(space: AddressSpace, fa: FrameAllocation.FrameAllocator, regions: seq<Extent>)
    returns (outcome: Outcome)
    requires forall i :: 0 <= i < |regions| ==> Fits(regions[i])
    requires Tree(space.mem, space.root) && Pool(space.mem, space.root, fa)
    modifies space, fa
    ensures Tree(space.mem, space.root) && Pool(space.mem, space.root, fa)
    ensures outcome ==
      PlanOutcome(old(space.mem), space.root, fa.usable, old(fa.cursor), AllWindows(regions, |regions|))
    ensures outcome == Done ==> Built(old(space.mem), space.mem, space.root, AllWindows(regions, |regions|))
    ensures outcome == Done ==>
      Accounted(old(space.mem), space.mem, space.root, fa.usable, old(fa.cursor.next), fa.cursor.next)
    ensures outcome == Done ==>
      forall w: Virt :: InSome(w, regions) ==> ToPhys(space.mem, space.root, w) == Some(w - PHYS_MEM_VIRT_ADDR)
    ensures forall w: Virt :: !InSome(w, regions) && !GigabytePage(old(space.mem), space.root, w) ==>
      ToPhys(space.mem, space.root, w) == ToPhys(old(space.mem), space.root, w)
    ensures outcome == OutOfFrames ==> FrameAllocation.Exhausted(fa.usable, FOUR_KB, fa.cursor)
  {
    ghost var from, c := space.mem, fa.cursor;
    BuiltNothing(from, space.root);
    AccountedNone(from, space.root, fa.usable, c.next, c.next);
    for n := 0 to |regions|
      invariant Tree(space.mem, space.root) && Pool(space.mem, space.root, fa)
      invariant Underway(from, space.mem, space.root, fa.usable, c, fa.cursor, AllWindows(regions, n))
    {
      outcome := MapNextRegion(space, fa, regions, n, from, c);
      if outcome != Done {
        return;
      }
    }
    outcome := Done;
    AllMapped(from, space.mem, space.root, regions);
  }

  method MapNextRegion(space: AddressSpace, fa: FrameAllocation.FrameAllocator, regions: seq<Extent>, n: nat,
                       ghost from: Memory, ghost c: FrameAllocation.Cursor)
    returns (outcome: Outcome)
    requires n < |regions| && forall i :: 0 <= i < |regions| ==> Fits(regions[i])
    requires Tree(space.mem, space.root) && Pool(space.mem, space.root, fa)
    requires Underway(from, space.mem, space.root, fa.usable, c, fa.cursor, AllWindows(regions, n))
    modifies space, fa
    ensures Tree(space.mem, space.root) && Pool(space.mem, space.root, fa)
    ensures outcome == Done ==>
      Underway(from, space.mem, space.root, fa.usable, c, fa.cursor, AllWindows(regions, n + 1))
    ensures outcome != Done ==>
      && outcome == PlanOutcome(from, space.root, fa.usable, c, AllWindows(regions, |regions|))
      && forall w: Virt :: !InSome(w, regions) && !GigabytePage(from, space.root, w) ==>
           ToPhys(space.mem, space.root, w) == ToPhys(from, space.root, w)
    ensures outcome == OutOfFrames ==> FrameAllocation.Exhausted(fa.usable, FOUR_KB, fa.cursor)
  {
    ghost var ws, row := AllWindows(regions, n), Windows(regions[n].start, regions[n].len);
    AllAreWindows(regions, n);
    outcome := space.MapHugeFrames(
      AlignDown(regions[n].start, TWO_MB), AlignUp(regions[n].len, TWO_MB), fa, from, c, ws, row);
    assert AllWindows(regions, n + 1) == ws + row;
    if outcome != Done {
      ghost var rest := AllSplit(regions, n + 1, |regions|);
      PlanFails(from, space.root, fa.usable, c, ws + row, rest);
      RestKept(from, space.mem, space.root, regions, n);
    }
  }

  lemma {:induction false} RestKept(from: Memory, mem: Memory, root: nat, regions: seq<Extent>, n: nat)
    requires n < |regions|
    requires OutsideKept(from, mem, root, AllWindows(regions, n), Windows(regions[n].start, regions[n].len))
    ensures forall w: Virt :: !InSome(w, regions) && !GigabytePage(from, root, w) ==>
      ToPhys(mem, root, w) == ToPhys(from, root, w)
  {
    forall w: Virt | !InSome(w, regions) && !GigabytePage(from, root, w)
      ensures ToPhys(mem, root, w) == ToPhys(from, root, w)
    {
      AllCover(regions, n, w);
      RowCovers(AlignDown(regions[n].start, TWO_MB), AlignUp(regions[n].len, TWO_MB), w);
    }
  }

  lemma {:induction false} AllMapped(from: Memory, mem: Memory, root: nat, regions: seq<Extent>)
    requires Built(from, mem, root, AllWindows(regions, |regions|))
    ensures forall w: Virt :: InSome(w, regions) ==> ToPhys(mem, root, w) == Some(w - PHYS_MEM_VIRT_ADDR)
    ensures forall w: Virt :: !InSome(w, regions) && !GigabytePage(from, root, w) ==>
      ToPhys(mem, root, w) == ToPhys(from, root, w)
  {
    assert regions[..|regions|] == regions;
    forall w: Virt ensures Covered(w, AllWindows(regions, |regions|)) <==> InSome(w, regions) {
      AllCover(regions, |regions|, w);
    }
  }

  /** The 2 MB windows of the regions in front. */
  function Before(regions: seq<Extent>, n: nat): nat
    requires n <= |regions|
  {
    if n == 0 then 0 else Before(regions, n - 1) + (regions[n - 1].len + TWO_MB - 1) / TWO_MB
  }

  /** The windows are mapped region after region in the order of the map, each from its start upwards. */
  lemma {:induction false} WindowsInOrder(regions: seq<Extent>, n: nat, i: nat, k: nat)
    requires i < n <= |regions| && k < (regions[i].len + TWO_MB - 1) / TWO_MB
    ensures |AllWindows(regions, n)| == Before(regions, n) && Before(regions, i) + k < Before(regions, n)
    ensures AllWindows(regions, n)[Before(regions, i) + k] ==
      PHYS_MEM_VIRT_ADDR + (regions[i].start - regions[i].start % TWO_MB) + TWO_MB * k
    decreases n
  {
    AllCounted(regions, n - 1);
    WindowCount(regions[n - 1].len);
    if i < n - 1 {
      WindowsInOrder(regions, n - 1, i, k);
    }
  }

  lemma {:induction false} AllCounted(regions: seq<Extent>, n: nat)
    requires n <= |regions|
    ensures |AllWindows(regions, n)| == Before(regions, n)
  {
    if n > 0 {
      AllCounted(regions, n - 1);
      WindowCount(regions[n - 1].len);
    }
  }

  lemma {:induction false} WindowCount(length: nat)
    ensures AlignUp(length, TWO_MB) / TWO_MB == (length + TWO_MB - 1) / TWO_MB
  {
  }

  /** Two pages around a 2 MB boundary: the second one is left out of the direct map. */
  lemma {:induction false} MissedWitness()
    ensures var r := Extent(0x1F_F000, 0x2000);
      Fits(r) && r.Has(0x20_0000) && !InSome(PHYS_MEM_VIRT_ADDR + 0x20_0000, [r])
  {
    var r := Extent(0x1F_F000, 0x2000);
    assert AlignDown(r.start, TWO_MB) == 0 && AlignUp(r.len, TWO_MB) == TWO_MB;
  }

  // --- windows that cannot be mapped ---

  const ROOT: nat := 0x4000_1000
  const TABLE3: nat := 0x4000_2000
  const TABLE2: nat := 0x4000_3000
  const TABLE1: nat := 0x4000_4000

  /** A frame with two entries. */
  function Entries(i: nat, e: Entry, j: nat, f: Entry): (r: seq<Entry>)
    ensures |r| == ENTRIES
    ensures forall k :: 0 <= k < ENTRIES ==> r[k] == if k == i then e else if k == j then f else EMPTY
  {
    seq(ENTRIES, k => if k == i then e else if k == j then f else EMPTY)
  }

  /** A direct map of two 1 GB pages, its tables in the second. */
  function GigabyteMemory(): Memory {
    map[ROOT := Entries(2, Entry(TABLE3, TABLE_FLAGS), 2, EMPTY),
        TABLE3 := Entries(0, Entry(0, HUGE_FLAGS), 1, Entry(0x4000_0000, HUGE_FLAGS))]
  }

  /** A direct map whose first gigabyte has an empty level-1 table. */
  function PagedMemory(): Memory {
    map[ROOT := Entries(2, Entry(TABLE3, TABLE_FLAGS), 2, EMPTY),
        TABLE3 := Entries(0, Entry(TABLE2, TABLE_FLAGS), 1, Entry(0x4000_0000, HUGE_FLAGS)),
        TABLE2 := Entries(0, Entry(TABLE1, TABLE_FLAGS), 0, EMPTY)]
  }

  /** Frames in the second gigabyte, and in the first. */
  const HIGH_RAM: seq<Extent> := [Extent(0x4001_0000, 0x1_0000)]
  const HIGH_START: FrameAllocation.Cursor := FrameAllocation.Cursor(0x4001_0000, 0)
  const LOW_RAM: seq<Extent> := [Extent(0x1_0000, 0x1_0000)]
  const LOW_START: FrameAllocation.Cursor := FrameAllocation.Cursor(0x1_0000, 0)

  lemma {:induction false} DirectIndices(w: nat)
    requires PHYS_MEM_VIRT_ADDR <= w < PHYS_MEM_VIRT_ADDR + 0x8000_0000
    ensures Index(w, 4) == 2 && Index(w, 3) == (if w < PHYS_MEM_VIRT_ADDR + 0x4000_0000 then 0 else 1)
    ensures w < PHYS_MEM_VIRT_ADDR + TWO_MB ==> Index(w, 2) == 0
  {
    IndexQuotient(w);
  }

  lemma {:induction false} FirstFrame(usable: seq<Extent>, c: FrameAllocation.Cursor, f: nat)
    requires c == FrameAllocation.Cursor(f, 0) && usable == [Extent(f, 0x1_0000)]
    ensures FrameAllocation.Next(usable, FOUR_KB, c).0 == Some(f)
  {
  }

  /** Where the tables of the two memories are. */
  lemma {:induction false} GigabyteTables(w: Virt)
    ensures var mem := GigabyteMemory();
      && TableAt(mem, ROOT, w, 4) == Some(ROOT)
      && TableAt(mem, ROOT, w, 3) == (if Index(w, 4) == 2 then Some(TABLE3) else None)
      && TableAt(mem, ROOT, w, 2) == None && TableAt(mem, ROOT, w, 1) == None
  {
    var mem := GigabyteMemory();
    assert FrameAt(mem, ROOT) == Entries(2, Entry(TABLE3, TABLE_FLAGS), 2, EMPTY);
    assert FrameAt(mem, TABLE3) == Entries(0, Entry(0, HUGE_FLAGS), 1, Entry(0x4000_0000, HUGE_FLAGS));
    assert TableAt(mem, ROOT, w, 3) == (if Index(w, 4) == 2 then Some(TABLE3) else None);
    assert TableAt(mem, ROOT, w, 2) == None;
  }

  lemma {:induction false} PagedTables(w: Virt)
    ensures var mem := PagedMemory();
      && TableAt(mem, ROOT, w, 4) == Some(ROOT)
      && TableAt(mem, ROOT, w, 3) == (if Index(w, 4) == 2 then Some(TABLE3) else None)
      && TableAt(mem, ROOT, w, 2) == (if Index(w, 4) == 2 && Index(w, 3) == 0 then Some(TABLE2) else None)
      && TableAt(mem, ROOT, w, 1) ==
           (if Index(w, 4) == 2 && Index(w, 3) == 0 && Index(w, 2) == 0 then Some(TABLE1) else None)
  {
    var mem := PagedMemory();
    assert FrameAt(mem, ROOT) == Entries(2, Entry(TABLE3, TABLE_FLAGS), 2, EMPTY);
    assert FrameAt(mem, TABLE3) == Entries(0, Entry(TABLE2, TABLE_FLAGS), 1, Entry(0x4000_0000, HUGE_FLAGS));
    assert FrameAt(mem, TABLE2) == Entries(0, Entry(TABLE1, TABLE_FLAGS), 0, EMPTY);
    assert TableAt(mem, ROOT, w, 3) == (if Index(w, 4) == 2 then Some(TABLE3) else None);
    assert TableAt(mem, ROOT, w, 2) == (if Index(w, 4) == 2 && Index(w, 3) == 0 then Some(TABLE2) else None);
  }

  /** Addresses with the same indices take the same way. */
  lemma {:induction false} SameIndices(v: Virt, w: Virt)
    ensures Top(v, 5) == Top(w, 5)
    ensures Index(v, 4) == Index(w, 4) ==> Top(v, 4) == Top(w, 4)
    ensures Index(v, 4) == Index(w, 4) && Index(v, 3) == Index(w, 3) ==> Top(v, 3) == Top(w, 3)
    ensures Index(v, 4) == Index(w, 4) && Index(v, 3) == Index(w, 3) && Index(v, 2) == Index(w, 2) ==>
      Top(v, 2) == Top(w, 2)
  {
    TopFive(v);
    TopFive(w);
    TopStep(v, w, 4);
    TopStep(v, w, 3);
    TopStep(v, w, 2);
  }

  lemma {:induction false} TopFive(v: Virt)
    ensures Top(v, 5) == 0
  {
    TopThree(v);
    QuotientOfGigabytes(v);
    assert Top(v, 4) == Top(v, 3) / 512 && Top(v, 5) == Top(v, 4) / 512;
  }

  lemma {:induction false} GigabyteTree()
    ensures Tree(GigabyteMemory(), ROOT) && Spare(GigabyteMemory(), ROOT, HIGH_RAM, HIGH_START)
    ensures Spare(GigabyteMemory(), ROOT, LOW_RAM, LOW_START)
  {
    var mem := GigabyteMemory();
    forall a: Virt, b: Virt, i, j | 1 <= i <= 4 && 1 <= j <= 4 && TableAt(mem, ROOT, a, i).Some?
      && TableAt(mem, ROOT, a, i) == TableAt(mem, ROOT, b, j)
      ensures i == j && Top(a, i + 1) == Top(b, i + 1)
    {
      GigabyteTables(a);
      GigabyteTables(b);
      SameIndices(a, b);
    }
    forall p: nat | IsTable(mem, ROOT, p) ensures p == ROOT || p == TABLE3 {
      var w: Virt, l :| 1 <= l <= 4 && TableAt(mem, ROOT, w, l) == Some(p);
      GigabyteTables(w);
    }
    assert FrameAllocation.Good(HIGH_RAM, FOUR_KB, HIGH_START) && FrameAllocation.Good(LOW_RAM, FOUR_KB, LOW_START);
  }

  lemma {:induction false} PagedTree()
    ensures Tree(PagedMemory(), ROOT) && Spare(PagedMemory(), ROOT, HIGH_RAM, HIGH_START)
  {
    var mem := PagedMemory();
    forall a: Virt, b: Virt, i, j | 1 <= i <= 4 && 1 <= j <= 4 && TableAt(mem, ROOT, a, i).Some?
      && TableAt(mem, ROOT, a, i) == TableAt(mem, ROOT, b, j)
      ensures i == j && Top(a, i + 1) == Top(b, i + 1)
    {
      PagedTables(a);
      PagedTables(b);
      SameIndices(a, b);
    }
    forall p: nat | IsTable(mem, ROOT, p) ensures p < HIGH_START.next {
      var w: Virt, l :| 1 <= l <= 4 && TableAt(mem, ROOT, w, l) == Some(p);
      PagedTables(w);
    }
    assert FrameAllocation.Good(HIGH_RAM, FOUR_KB, HIGH_START);
  }

  lemma {:induction false} GigabyteTranslates(w: Virt)
    requires PHYS_MEM_VIRT_ADDR <= w < PHYS_MEM_VIRT_ADDR + 0x8000_0000
    ensures GigabytePage(GigabyteMemory(), ROOT, w)
    ensures ToPhys(GigabyteMemory(), ROOT, w) == Some(w - PHYS_MEM_VIRT_ADDR)
  {
    var mem := GigabyteMemory();
    DirectIndices(w);
    GigabyteTables(w);
    assert FrameAt(mem, TABLE3) == Entries(0, Entry(0, HUGE_FLAGS), 1, Entry(0x4000_0000, HUGE_FLAGS));
    assert GetEntry(mem, TABLE3, 3, Index(w, 3)) ==
      Leaf(if w < PHYS_MEM_VIRT_ADDR + 0x4000_0000 then 0 else 0x4000_0000);
    WalkThrough(mem, ROOT, w, 3);
    ToPhysIsWalk(mem, ROOT, w);
  }

  /** One frame for the table in place of the first gigabyte: taken where it is still reached afterwards, or not. */
  lemma {:induction false} GigabyteLinks(usable: seq<Extent>, c: FrameAllocation.Cursor, f: nat, v: Virt)
    requires v == PHYS_MEM_VIRT_ADDR && f < 0x8000_0000 && FrameAllocation.Next(usable, FOUR_KB, c).0 == Some(f)
    ensures WindowOutcome(GigabyteMemory(), ROOT, [], usable, c, v) == if f < 0x4000_0000 then Fault else Done
  {
    var mem := GigabyteMemory();
    GigabyteTables(v);
    DirectIndices(v);
    GigabyteTranslates(v);
    GigabyteTranslates(PHYS_MEM_VIRT_ADDR + f);
    BuiltNothing(mem, ROOT);
    ReachedNow(mem, mem, ROOT, [], f);
    OneLink(mem, ROOT, usable, c, f, Missing(mem, ROOT, [], v));
    TopThree(v);
    TopThree(PHYS_MEM_VIRT_ADDR + f);
  }

  lemma {:induction false} OneLink(mem: Memory, root: nat, usable: seq<Extent>, c: FrameAllocation.Cursor, f: nat,
                                   n: nat)
    requires n == 1 && FrameAllocation.Next(usable, FOUR_KB, c).0 == Some(f) && Reached(mem, root, [], f)
    ensures LinkOutcome(mem, root, [], usable, c, n) == Done
  {
  }

  /** The first 2 MB of a 1 GB page, with frames elsewhere: the call succeeds and the rest of the gigabyte is lost. */
  lemma {:induction false} GigabyteWitness()
    ensures Tree(GigabyteMemory(), ROOT) && Spare(GigabyteMemory(), ROOT, HIGH_RAM, HIGH_START)
    ensures var mem, v := GigabyteMemory(), PHYS_MEM_VIRT_ADDR;
      && WindowOutcome(mem, ROOT, [], HIGH_RAM, HIGH_START, v) == Done
      && ToPhys(mem, ROOT, v + TWO_MB) == Some(TWO_MB) && Planned(mem, ROOT, [v], v + TWO_MB) == None
  {
    var v := PHYS_MEM_VIRT_ADDR;
    GigabyteTree();
    FirstFrame(HIGH_RAM, HIGH_START, 0x4001_0000);
    GigabyteLinks(HIGH_RAM, HIGH_START, 0x4001_0000, v);
    GigabyteTranslates(v + TWO_MB);
    NextGigabyte(v);
  }

  /** The same with frames in the gigabyte that is broken: the table is cut off and the call faults. */
  lemma {:induction false} CutOffWitness()
    ensures Tree(GigabyteMemory(), ROOT) && Spare(GigabyteMemory(), ROOT, LOW_RAM, LOW_START)
    ensures WindowOutcome(GigabyteMemory(), ROOT, [], LOW_RAM, LOW_START, PHYS_MEM_VIRT_ADDR) == Fault
  {
    GigabyteTree();
    FirstFrame(LOW_RAM, LOW_START, 0x1_0000);
    GigabyteLinks(LOW_RAM, LOW_START, 0x1_0000, PHYS_MEM_VIRT_ADDR);
  }

  lemma {:induction false} NextGigabyte(v: nat)
    requires v == PHYS_MEM_VIRT_ADDR
    ensures Shares(v + TWO_MB, [v], 3) && !Covered(v + TWO_MB, [v])
  {
    TopThree(v);
    TopThree(v + TWO_MB);
    assert [v][0] == v;
  }

  /** A window above a level-1 table: the call panics although frames are left. */
  lemma {:induction false} LevelOneWitness()
    ensures Tree(PagedMemory(), ROOT) && Spare(PagedMemory(), ROOT, HIGH_RAM, HIGH_START)
    ensures WindowOutcome(PagedMemory(), ROOT, [], HIGH_RAM, HIGH_START, PHYS_MEM_VIRT_ADDR) == Panic
    ensures ToPhys(PagedMemory(), ROOT, PHYS_MEM_VIRT_ADDR) == None
  {
    var mem, v := PagedMemory(), PHYS_MEM_VIRT_ADDR;
    PagedTree();
    DirectIndices(v);
    FirstFrame(HIGH_RAM, HIGH_START, 0x4001_0000);
    PagedTables(v);
    EmptyBelow(mem, ROOT, v, 1, v);
  }

  /** A window that needs tables while only the second gigabyte is in the direct map: a frame of the first faults. */
  lemma {:induction false} UnreachedWitness()
    ensures Tree(PagedMemory(), ROOT)
    ensures TablesOutcome(PagedMemory(), ROOT, [], LOW_RAM, LOW_START, PHYS_MEM_VIRT_ADDR + 0x80_0000_0000) == Fault
  {
    var mem, v := PagedMemory(), PHYS_MEM_VIRT_ADDR + 0x80_0000_0000;
    PagedTree();
    IndexQuotient(v);
    PagedTables(v);
    FirstFrame(LOW_RAM, LOW_START, 0x1_0000);
    Unreached(0x1_0000);
    NoneReached(mem, ROOT, LOW_RAM, LOW_START, 0x1_0000, Missing(mem, ROOT, [], v));
  }

  lemma {:induction false} Unreached(p: nat)
    requires p < TWO_MB
    ensures !Reached(PagedMemory(), ROOT, [], p)
  {
    var mem := PagedMemory();
    var w: Virt := PHYS_MEM_VIRT_ADDR + p;
    PagedTables(w);
    DirectIndices(w);
    assert FrameAt(mem, TABLE1)[Index(w, 1)] == EMPTY;
    EmptyBelow(mem, ROOT, w, 1, w);
    BuiltNothing(mem, ROOT);
    ReachedNow(mem, mem, ROOT, [], p);
  }

  lemma {:induction false} NoneReached(mem: Memory, root: nat, usable: seq<Extent>, c: FrameAllocation.Cursor, f: nat,
                                       n: nat)
    requires n > 0 && FrameAllocation.Next(usable, FOUR_KB, c).0 == Some(f) && !Reached(mem, root, [], f)
    ensures LinkOutcome(mem, root, [], usable, c, n) == Fault
  {
  }

  // --- the identity map ---

  const LOW_STACK_PAGES: nat := 8

  /** Pages `LOW_STACK_PAGES .. n` of the first 2 MB are unmapped, all other addresses translate as before. */
  ghost predicate LowRemoved(before: Memory, mem: Memory, root: nat, n: nat) {
    forall w: Virt ::
      ToPhys(mem, root, w) == if FOUR_KB * LOW_STACK_PAGES <= w < FOUR_KB * n then None else ToPhys(before, root, w)
  }

  lemma {:induction false} LowPage(mem: Memory, root: nat, i: nat, v: Virt)
    requires i < 512 && v == FOUR_KB * i
    ensures Index(v, 1) == i && TableAt(mem, root, v, 1) == TableAt(mem, root, 0, 1) && v % FOUR_KB == 0
  {
    SameSpan(0, v);
    SamePath(mem, root, 0, v, 1);
  }

  lemma {:induction false} RemoveOne(before: Memory, mem: Memory, root: nat, t: nat, i: nat, v: Virt)
    requires Tree(mem, root) && TableAt(mem, root, 0, 1) == Some(t) && LOW_STACK_PAGES <= i < 512 && v == FOUR_KB * i
    requires LowRemoved(before, mem, root, i)
    ensures var mem' := Write(mem, t, i, Entry(0, 0));
      Tree(mem', root) && TableAt(mem', root, 0, 1) == Some(t) && LowRemoved(before, mem', root, i + 1)
  {
    LowPage(mem, root, i, v);
    WriteLeaf(mem, root, v, 1, Entry(0, 0));
    var mem' := Write(mem, t, i, Entry(0, 0));
    forall w: Virt ensures ToPhys(mem', root, w) ==
      if FOUR_KB * LOW_STACK_PAGES <= w < FOUR_KB * (i + 1) then None else ToPhys(before, root, w)
    {
      SameSpan(v, w);
    }
  }

  lemma {:induction false} LowTables(mem: Memory, root: nat)
    ensures Index(0, 1) == 0 && Index(0, 2) == 0 && Index(0, 3) == 0 && Index(0, 4) == 0
    ensures TableAt(mem, root, 0, 4) == Some(root)
    ensures TableAt(mem, root, 0, 1).Some? ==>
      && GetEntry(mem, root, 4, 0).NextTable?
      && var t3 := GetEntry(mem, root, 4, 0).table;
      && GetEntry(mem, t3, 3, 0).NextTable?
      && var t2 := GetEntry(mem, t3, 3, 0).table;
      && GetEntry(mem, t2, 2, 0).NextTable?
      && TableAt(mem, root, 0, 1) == Some(GetEntry(mem, t2, 2, 0).table)
  {
  }

  /** Removes the identity map of the first 2 MB except its first eight pages, where the boot stack is. */
  method RemoveIdentityMapping(space: AddressSpace)
    requires Tree(space.mem, space.root) && TableAt(space.mem, space.root, 0, 1).Some?
    modifies space
    ensures Tree(space.mem, space.root)
    ensures forall w: Virt ::
      ToPhys(space.mem, space.root, w) == if 0x8000 <= w < TWO_MB then None else ToPhys(old(space.mem), space.root, w)
  {
    LowTables(space.mem, space.root);
    var table3 := GetEntry(space.mem, space.root, 4, 0).table;
    var table2 := GetEntry(space.mem, table3, 3, 0).table;
    var table1 := GetEntry(space.mem, table2, 2, 0).table;
    for i := LOW_STACK_PAGES to 512
      invariant Tree(space.mem, space.root) && TableAt(space.mem, space.root, 0, 1) == Some(table1)
      invariant LowRemoved(old(space.mem), space.mem, space.root, i)
    {
      RemoveOne(old(space.mem), space.mem, space.root, table1, i, FOUR_KB * i);
      space.mem := Write(space.mem, table1, i, Entry(0, 0));
    }
  }
}
