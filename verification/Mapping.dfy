/** The boot-time mapping code: the direct map of physical memory, and table allocation for a region. All of it draws
    frames from the boot frame allocator and edits the live page tables. */
module Mapping {
  import opened Align
  import opened Extents
  import opened Basics
  import opened PageTable
  import opened DirectMap
  import FrameAllocation

  /** No frame that the allocator has yet to hand out is in use as a table. */
  ghost predicate Pool(mem: Memory, root: nat, fa: FrameAllocation.FrameAllocator)
    reads fa
  {
    fa.frameSize == FOUR_KB && Spare(mem, root, fa.usable, fa.cursor)
  }

  ghost predicate Spare(mem: Memory, root: nat, usable: seq<Extent>, c: FrameAllocation.Cursor) {
    && FrameAllocation.Good(usable, FOUR_KB, c)
    && forall p: nat :: FrameAllocation.IsFrame(usable, FOUR_KB, p) && c.next <= p ==> !IsTable(mem, root, p)
  }

  lemma {:induction false} SpareAfterLeaf(before: Memory, mem: Memory, root: nat, usable: seq<Extent>,
                                          c: FrameAllocation.Cursor)
    requires Spare(before, root, usable, c)
    requires forall w: Virt, m :: 1 <= m <= 4 ==> TableAt(mem, root, w, m) == TableAt(before, root, w, m)
    ensures Spare(mem, root, usable, c)
  {
  }

  lemma {:induction false} SpareAfterLink(before: Memory, mem: Memory, root: nat, usable: seq<Extent>,
                                          c: FrameAllocation.Cursor, f: nat)
    requires Spare(before, root, usable, c) && f < c.next
    requires forall g: nat :: IsTable(mem, root, g) ==> g == f || IsTable(before, root, g)
    ensures Spare(mem, root, usable, c)
  {
  }

  // --- what becomes of frames ---

  /** Exactly the frames between two positions of the allocator have become tables, and entries that were all present
      and writable still are. */
  ghost predicate Accounted(start: Memory, mem: Memory, root: nat, usable: seq<Extent>, lo: nat, hi: nat) {
    && (forall g: nat :: IsTable(mem, root, g) <==>
          IsTable(start, root, g) || (lo <= g < hi && FrameAllocation.IsFrame(usable, FOUR_KB, g)))
    && (AllAccessible(start) ==> AllAccessible(mem))
  }

  lemma {:induction false} AccountedNone(mem: Memory, root: nat, usable: seq<Extent>, lo: nat, hi: nat)
    requires FrameAllocation.NoFrames(usable, FOUR_KB, lo, hi)
    ensures Accounted(mem, mem, root, usable, lo, hi)
  {
  }

  lemma {:induction false} AccountedMore(a: Memory, b: Memory, c: Memory, root: nat, usable: seq<Extent>, lo: nat,
                                         mid: nat, hi: nat)
    requires lo <= mid <= hi && Accounted(a, b, root, usable, lo, mid) && Accounted(b, c, root, usable, mid, hi)
    ensures Accounted(a, c, root, usable, lo, hi)
  {
  }

  /** A frame just linked is the only one taken, and the only new table. */
  lemma {:induction false} AccountedLink(mem: Memory, mem': Memory, root: nat, usable: seq<Extent>, v: Virt, l: nat,
                                         t: nat, f: nat, lo: nat)
    requires 2 <= l <= 4 && mem' == Linked(mem, t, Index(v, l), f) && TableAt(mem', root, v, l - 1) == Some(f)
    requires forall g: nat :: IsTable(mem', root, g) ==> g == f || IsTable(mem, root, g)
    requires forall w: Virt, m :: 1 <= m <= 4 && TableAt(mem, root, w, m).Some? ==>
      TableAt(mem', root, w, m) == TableAt(mem, root, w, m)
    requires lo <= f && FrameAllocation.IsFrame(usable, FOUR_KB, f) && FrameAllocation.NoFrames(usable, FOUR_KB, lo, f)
    ensures Accounted(mem, mem', root, usable, lo, f + FOUR_KB)
  {
    assert IsTable(mem', root, f);
    forall g: nat | lo <= g < f + FOUR_KB && FrameAllocation.IsFrame(usable, FOUR_KB, g) ensures g == f {
      if f <= g {
        FrameAllocation.FrameGap(f, g, FOUR_KB);
      }
    }
    forall g: nat | IsTable(mem, root, g) ensures IsTable(mem', root, g) {
      var w: Virt, m :| 1 <= m <= 4 && TableAt(mem, root, w, m) == Some(g);
      assert TableAt(mem', root, w, m) == Some(g);
    }
    if AllAccessible(mem) {
      AccessibleLinked(mem, t, Index(v, l), f);
    }
  }

  lemma {:induction false} AccountedLeaf(start: Memory, mem: Memory, mem': Memory, root: nat, usable: seq<Extent>,
                                         lo: nat, hi: nat, t: nat, i: nat, e: Entry)
    requires Accounted(start, mem, root, usable, lo, hi) && i < ENTRIES && mem' == Write(mem, t, i, e)
    requires forall w: Virt, m :: 1 <= m <= 4 ==> TableAt(mem', root, w, m) == TableAt(mem, root, w, m)
    requires Accessible(e)
    ensures Accounted(start, mem', root, usable, lo, hi)
  {
    forall g: nat ensures IsTable(mem', root, g) <==> IsTable(mem, root, g) {
      if IsTable(mem, root, g) {
        var w: Virt, m :| 1 <= m <= 4 && TableAt(mem, root, w, m) == Some(g);
        assert TableAt(mem', root, w, m) == Some(g);
      }
    }
    if AllAccessible(mem) {
      AccessibleAfter(mem, t, i, e);
    }
  }

  // --- tables down to level 2 ---

  /** Tables were added on the way of `v` from level 3 down to `l`; that breaks a 1 GB page if `v` lies in one. */
  ghost predicate Extended(start: Memory, mem: Memory, root: nat, v: nat, l: nat) {
    && (forall w: Virt, m :: 1 <= m <= 4 ==>
          (TableAt(mem, root, w, m).Some? <==>
           TableAt(start, root, w, m).Some? || (m >= l && Top(w, m + 1) == Top(v, m + 1))))
    && (forall w: Virt :: ToPhys(mem, root, w) ==
          if l <= 2 && GigabytePage(start, root, w) && Top(w, 3) == Top(v, 3) then None else ToPhys(start, root, w))
  }

  lemma {:induction false} ExtendedStart(mem: Memory, root: nat, v: Virt, l: nat)
    requires 2 <= l <= 4 && TableAt(mem, root, v, l).Some?
    ensures Extended(mem, mem, root, v, l)
  {
    forall w: Virt, m | 1 <= m <= 4 && m >= l && Top(w, m + 1) == Top(v, m + 1) ensures TableAt(mem, root, w, m).Some? {
      SamePath(mem, root, v, w, m);
      AboveIsTable(mem, root, v, l, m);
    }
    forall w: Virt | l <= 2 && Top(w, 3) == Top(v, 3) ensures !GigabytePage(mem, root, w) {
      GigabyteShared(mem, root, v, w);
      GigabyteSeen(mem, root, v);
    }
  }

  /** An entry of level 3 or 4 that is no table is empty or a 1 GB page. */
  lemma {:induction false} ExtendedStep(start: Memory, mem: Memory, root: nat, v: Virt, l: nat, t: nat, f: nat,
                                        mem': Memory)
    requires 3 <= l <= 4 && Tree(mem, root) && TableAt(mem, root, v, l) == Some(t) && !IsTable(mem, root, f)
    requires !GetEntry(mem, t, l, Index(v, l)).NextTable?
    requires GetEntry(mem, t, l, Index(v, l)).Leaf? ==> mem == start
    requires Extended(start, mem, root, v, l) && mem' == Linked(mem, t, Index(v, l), f)
    ensures Tree(mem', root) && TableAt(mem', root, v, l - 1) == Some(f) && Extended(start, mem', root, v, l - 1)
    ensures GetEntry(mem', f, l - 1, Index(v, l - 1)) == Unmapped
    ensures forall g :: IsTable(mem', root, g) ==> g == f || IsTable(mem, root, g)
    ensures forall w: Virt, m :: 1 <= m <= 4 && TableAt(mem, root, w, m).Some? ==>
      TableAt(mem', root, w, m) == TableAt(mem, root, w, m)
  {
    LinkTable(mem, root, v, l, f);
    forall w: Virt ensures ToPhys(mem', root, w) ==
      if l - 1 <= 2 && GigabytePage(start, root, w) && Top(w, 3) == Top(v, 3) then None else ToPhys(start, root, w)
    {
      ExtendedAt(start, mem, root, v, l, t, f, mem', w);
    }
  }

  lemma {:induction false} ExtendedAt(start: Memory, mem: Memory, root: nat, v: Virt, l: nat, t: nat, f: nat,
                                      mem': Memory, w: Virt)
    requires 3 <= l <= 4 && TableAt(mem, root, v, l) == Some(t) && !GetEntry(mem, t, l, Index(v, l)).NextTable?
    requires GetEntry(mem, t, l, Index(v, l)).Leaf? ==> mem == start
    requires Extended(start, mem, root, v, l)
    requires ToPhys(mem', root, w) == if Top(w, l) == Top(v, l) then None else ToPhys(mem, root, w)
    ensures ToPhys(mem', root, w) ==
      if l - 1 <= 2 && GigabytePage(start, root, w) && Top(w, 3) == Top(v, 3) then None else ToPhys(start, root, w)
  {
    if Top(w, l) == Top(v, l) {
      if GetEntry(mem, t, l, Index(v, l)) == Unmapped {
        EmptyBelow(mem, root, v, l, w);
        assert ToPhys(start, root, w) == None;
      } else {
        GigabyteShared(mem, root, v, w);
      }
    }
  }

  /** The 2 MB leaf completes the window. */
  lemma {:induction false} HugeBuilt(start: Memory, mem: Memory, root: nat, v: Virt, t: nat, mem': Memory)
    requires Tree(mem, root) && IsWindow(v) && Extended(start, mem, root, v, 2)
    requires TableAt(mem, root, v, 2) == Some(t) && TableAt(start, root, v, 1).None?
    requires mem' == Write(mem, t, Index(v, 2), Entry(v - PHYS_MEM_VIRT_ADDR, HUGE_FLAGS))
    ensures Tree(mem', root) && Built(start, mem', root, [v])
    ensures forall w: Virt, m :: 1 <= m <= 4 ==> TableAt(mem', root, w, m) == TableAt(mem, root, w, m)
  {
    var e := Entry(v - PHYS_MEM_VIRT_ADDR, HUGE_FLAGS);
    assert TableAt(mem, root, v, 1).None?;
    WriteLeaf(mem, root, v, 2, e);
    forall w: Virt
      ensures ToPhys(mem', root, w) == Planned(start, root, [v], w)
      ensures Shares(w, [v], 3) <==> Top(v, 3) == Top(w, 3)
      ensures Shares(w, [v], 4) <==> Top(v, 4) == Top(w, 4)
    {
      HugeAt(start, mem, root, v, mem', w);
    }
  }

  lemma {:induction false} HugeAt(start: Memory, mem: Memory, root: nat, v: Virt, mem': Memory, w: Virt)
    requires IsWindow(v) && Extended(start, mem, root, v, 2)
    requires ToPhys(mem', root, w) ==
      if Top(w, 2) == Top(v, 2) then Through(Entry(v - PHYS_MEM_VIRT_ADDR, HUGE_FLAGS), w, 2) else ToPhys(mem, root, w)
    ensures ToPhys(mem', root, w) == Planned(start, root, [v], w)
    ensures Shares(w, [v], 3) <==> Top(v, 3) == Top(w, 3)
    ensures Shares(w, [v], 4) <==> Top(v, 4) == Top(w, 4)
  {
    HugeThrough(v, w);
    CoveredSnoc(w, [], v);
    SharesSnoc(w, [], v, 3);
    SharesSnoc(w, [], v, 4);
    assert [] + [v] == [v];
  }

  lemma {:induction false} HugeThrough(v: Virt, w: Virt)
    requires IsWindow(v)
    ensures Top(w, 2) == Top(v, 2) <==> v <= w < v + TWO_MB
    ensures v <= w < v + TWO_MB ==>
      Through(Entry(v - PHYS_MEM_VIRT_ADDR, HUGE_FLAGS), w, 2) == Some(w - PHYS_MEM_VIRT_ADDR)
  {
    SameTwoMb(v, w);
  }

  /** The tables missing are those below the deepest one. */
  lemma {:induction false} MissingLevel(mem: Memory, root: nat, v: Virt)
    requires TableAt(mem, root, v, 1).None?
    ensures Deepest(mem, root, 4, v).1 == Missing(mem, root, [], v) + 2
  {
    DeepestLevel(mem, root, v, 1);
    DeepestLevel(mem, root, v, 2);
    DeepestLevel(mem, root, v, 3);
  }

  class AddressSpace {
    const root: nat
    var mem: Memory

    constructor (root: nat, mem: Memory)
      ensures this.root == root && this.mem == mem
    {
      this.root := root;
      this.mem := mem;
    }

    /** Walks down as long as entries lead to tables. */
    method GetTable(v: nat) returns (t: nat, l: nat)
      ensures (t, l) == Deepest(mem, root, 4, v)
    {
      t, l := root, 4;
      var entry := GetEntry(mem, t, l, Index(v, l));
      while l > 1 && entry.NextTable?
        invariant 1 <= l <= 4 && Deepest(mem, t, l, v) == Deepest(mem, root, 4, v)
        invariant entry == GetEntry(mem, t, l, Index(v, l))
        decreases l
      {
        t, l := entry.table, l - 1;
        entry := GetEntry(mem, t, l, Index(v, l));
      }
    }

    method Translate(v: nat) returns (p: Option<nat>)
      ensures p == ToPhys(mem, root, v)
    {
      var t, l := GetTable(v);
      match GetEntry(mem, t, l, Index(v, l))
      case Leaf(frame) => p := Some(frame + Offset(v, l));
      case _ => p := None;
    }

    /** Clears the frame through its direct-map address and enters it by the physical address that translates to; false
        where the access faults. A level-1 table takes no tables. */
    method MapTableAt(t: nat, l: nat, f: nat, i: nat) returns (ok: bool)
      requires 1 <= l <= 4 && i < ENTRIES && !IsTable(mem, root, f)
      modifies this
      ensures ok <==> l == 1 || DirectMapped(old(mem), root, f)
      ensures mem == if ok && l > 1 then Linked(old(mem), t, i, f) else old(mem)
    {
      if l == 1 {
        return true;
      }
      var address := PHYS_MEM_VIRT_ADDR + f;
      var phys := Translate(address);
      if address >= SPACE || phys != Some(f) {
        return false;
      }
      ClearFrame(mem, root, f);
      mem := mem[f := Cleared()];
      phys := Translate(address);
      assert phys == Some(f);
      mem := Write(mem, t, i, Entry(phys.value, TABLE_FLAGS));
      return true;
    }

    /** The allocator's next frame: the least one left, or none if there is none. */
    method TakeFrame(fa: FrameAllocation.FrameAllocator) returns (frame: Option<nat>)
      requires Pool(mem, root, fa)
      modifies fa
      ensures Pool(mem, root, fa) && old(fa.cursor.next) <= fa.cursor.next
      ensures (frame, fa.cursor) == FrameAllocation.Next(fa.usable, FOUR_KB, old(fa.cursor))
      ensures frame.Some? ==>
        && old(fa.cursor.next) <= frame.value && fa.cursor.next == frame.value + FOUR_KB
        && FrameAllocation.IsFrame(fa.usable, FOUR_KB, frame.value) && !IsTable(mem, root, frame.value)
        && FrameAllocation.NoFrames(fa.usable, FOUR_KB, old(fa.cursor.next), frame.value)
      ensures frame.None? ==> FrameAllocation.Exhausted(fa.usable, FOUR_KB, old(fa.cursor))
      ensures frame.None? ==> FrameAllocation.Exhausted(fa.usable, FOUR_KB, fa.cursor)
    {
      FrameAllocation.NextFindsLeast(fa.usable, fa.frameSize, fa.cursor);
      frame := fa.GetNextFrame();
    }

    /** One table more on the way to level 2. */
    method ExtendOnce(v: Virt, t: nat, l: nat, fa: FrameAllocation.FrameAllocator, ghost start: Memory)
      returns (outcome: Outcome, next: nat)
      requires 3 <= l <= 4 && Tree(mem, root) && Pool(mem, root, fa)
      requires TableAt(mem, root, v, l) == Some(t) && !GetEntry(mem, t, l, Index(v, l)).NextTable?
      requires GetEntry(mem, t, l, Index(v, l)).Leaf? ==> mem == start
      requires Extended(start, mem, root, v, l)
      modifies this, fa
      ensures Tree(mem, root) && Pool(mem, root, fa)
      ensures fa.cursor == FrameAllocation.Next(fa.usable, FOUR_KB, old(fa.cursor)).1
      ensures var f := FrameAllocation.Next(fa.usable, FOUR_KB, old(fa.cursor)).0;
        outcome == if f.None? then OutOfFrames else if DirectMapped(old(mem), root, f.value) then Done else Fault
      ensures outcome == OutOfFrames ==> FrameAllocation.Exhausted(fa.usable, FOUR_KB, fa.cursor)
      ensures outcome != Done ==> mem == old(mem)
      ensures outcome == Done ==>
        && TableAt(mem, root, v, l - 1) == Some(next) && GetEntry(mem, next, l - 1, Index(v, l - 1)) == Unmapped
        && Extended(start, mem, root, v, l - 1)
        && FrameAllocation.Next(fa.usable, FOUR_KB, old(fa.cursor)).0 == Some(next) && DirectMapped(start, root, next)
        && Accounted(old(mem), mem, root, fa.usable, old(fa.cursor.next), fa.cursor.next)
    {
      var frame := TakeFrame(fa);
      next := t;
      if frame.None? {
        return OutOfFrames, next;
      }
      next := frame.value;
      ghost var before := mem;
      var ok := MapTableAt(t, l, next, Index(v, l));
      if !ok {
        return Fault, next;
      }
      ExtendedStep(start, before, root, v, l, t, next, mem);
      AccountedLink(before, mem, root, fa.usable, v, l, t, next, old(fa.cursor.next));
      StillDirect(start, before, root, v, l, next);
      SpareAfterLink(before, mem, root, fa.usable, fa.cursor, next);
      outcome := Done;
    }

    /** Goes down from the deepest table to level 2, linking fresh tables. Below a level-1 table there is no level to go
        on to. */
    method EnsureLevel2(v: Virt, fa: FrameAllocation.FrameAllocator) returns (outcome: Outcome, t: nat, linked: bool)
      requires Tree(mem, root) && Pool(mem, root, fa)
      modifies this, fa
      ensures Tree(mem, root) && Pool(mem, root, fa)
      ensures outcome == TablesOutcome(old(mem), root, [], fa.usable, old(fa.cursor), v)
      ensures outcome == OutOfFrames ==> FrameAllocation.Exhausted(fa.usable, FOUR_KB, fa.cursor)
      ensures outcome != Done ==> SameTranslations(old(mem), mem, root)
      ensures outcome == Done ==> old(fa.cursor.next) <= fa.cursor.next
      ensures outcome == Done ==>
        && TableAt(mem, root, v, 2) == Some(t) && TableAt(old(mem), root, v, 1).None?
        && Extended(old(mem), mem, root, v, 2)
        && fa.cursor == FrameAllocation.Skip(fa.usable, FOUR_KB, old(fa.cursor), Missing(old(mem), root, [], v))
      ensures outcome == Done ==> Accounted(old(mem), mem, root, fa.usable, old(fa.cursor.next), fa.cursor.next)
      ensures outcome == Done && linked ==> DirectMapped(old(mem), root, t)
      ensures outcome == Done && GigabytePage(old(mem), root, v) ==>
        linked && FrameAllocation.Next(fa.usable, FOUR_KB, old(fa.cursor)).0 == Some(t)
    {
      ghost var start, c, n := mem, fa.cursor, Missing(mem, root, [], v);
      var l;
      linked := false;
      t, l := GetTable(v);
      ghost var deepest := l;
      GigabyteSeen(mem, root, v);
      DeepestLevel(mem, root, v, 2);
      DeepestLevel(mem, root, v, 3);
      DeepestIsTable(mem, root, v, root, 4);
      DeepestLevel(mem, root, v, 1);
      if l >= 2 {
        MissingLevel(mem, root, v);
        ExtendedStart(mem, root, v, l);
        AccountedNone(mem, root, fa.usable, fa.cursor.next, fa.cursor.next);
      }
      while l != 2
        invariant 1 <= l <= 4 && Tree(mem, root) && Pool(mem, root, fa)
        invariant l == 1 ==> mem == start && fa.cursor == c && TableAt(start, root, v, 1).Some?
        invariant l >= 2 ==> TableAt(start, root, v, 1).None? && TableAt(mem, root, v, l) == Some(t)
        invariant l >= 2 ==> !GetEntry(mem, t, l, Index(v, l)).NextTable? && Extended(start, mem, root, v, l)
        invariant l > 2 && GetEntry(mem, t, l, Index(v, l)).Leaf? ==> mem == start
        invariant l >= 2 ==>
          LinkOutcome(start, root, [], fa.usable, c, n) == LinkOutcome(start, root, [], fa.usable, fa.cursor, l - 2)
        invariant l >= 2 ==>
          FrameAllocation.Skip(fa.usable, FOUR_KB, c, n) == FrameAllocation.Skip(fa.usable, FOUR_KB, fa.cursor, l - 2)
        invariant l >= 2 ==>
          c.next <= fa.cursor.next && Accounted(start, mem, root, fa.usable, c.next, fa.cursor.next)
        invariant l == deepest ==> fa.cursor == c
        invariant linked <==> l < deepest
        invariant linked ==> DirectMapped(start, root, t)
        invariant l + 1 == deepest ==> FrameAllocation.Next(fa.usable, FOUR_KB, c).0 == Some(t)
        decreases l
      {
        if l == 1 {
          var frame := TakeFrame(fa);
          if frame.None? {
            return OutOfFrames, t, false;
          }
          var ok := MapTableAt(t, l, frame.value, Index(v, l));
          return Panic, t, false;
        }
        ghost var before, c0 := mem, fa.cursor;
        var next;
        outcome, next := ExtendOnce(v, t, l, fa, start);
        ReachedBefore(start, before, root, fa.usable, c0, v, l);
        if outcome != Done {
          return;
        }
        AccountedMore(start, before, mem, root, fa.usable, c.next, c0.next, fa.cursor.next);
        t, l, linked := next, l - 1, true;
      }
      outcome := Done;
    }

    /** One window of the direct map: it ends as planned, and on success exactly that window is added. */
    method MapWindow(v: Virt, fa: FrameAllocation.FrameAllocator) returns (outcome: Outcome)
      requires IsWindow(v) && Tree(mem, root) && Pool(mem, root, fa)
      modifies this, fa
      ensures Tree(mem, root) && Pool(mem, root, fa)
      ensures outcome == WindowOutcome(old(mem), root, [], fa.usable, old(fa.cursor), v)
      ensures outcome == OutOfFrames ==> FrameAllocation.Exhausted(fa.usable, FOUR_KB, fa.cursor)
      ensures outcome != Done ==> KeptBesides(old(mem), mem, root)
      ensures outcome == Done ==> Built(old(mem), mem, root, [v])
      ensures outcome == Done ==>
        && fa.cursor == FrameAllocation.Skip(fa.usable, FOUR_KB, old(fa.cursor), Missing(old(mem), root, [], v))
        && old(fa.cursor.next) <= fa.cursor.next
        && Accounted(old(mem), mem, root, fa.usable, old(fa.cursor.next), fa.cursor.next)
    {
      var t, linked;
      outcome, t, linked := EnsureLevel2(v, fa);
      if outcome == Done {
        CutOffSeen(old(mem), mem, root, v, t, linked, FrameAllocation.Next(fa.usable, FOUR_KB, old(fa.cursor)).0);
        if linked {
          // the table just linked is reached through the direct map
          var phys := Translate(PHYS_MEM_VIRT_ADDR + t);
          if phys != Some(t) {
            return Fault;
          }
        }
        WriteHuge(v, t, fa, old(mem), old(fa.cursor.next));
      }
    }

    /** The 2 MB leaf, once its table is there. */
    method WriteHuge(v: Virt, t: nat, fa: FrameAllocation.FrameAllocator, ghost start: Memory, ghost lo: nat)
      requires IsWindow(v) && Tree(mem, root) && Pool(mem, root, fa)
      requires TableAt(mem, root, v, 2) == Some(t) && TableAt(start, root, v, 1).None?
      requires Extended(start, mem, root, v, 2) && Accounted(start, mem, root, fa.usable, lo, fa.cursor.next)
      modifies this
      ensures Tree(mem, root) && Pool(mem, root, fa)
      ensures Built(start, mem, root, [v]) && Accounted(start, mem, root, fa.usable, lo, fa.cursor.next)
    {
      ghost var before := mem;
      mem := Write(mem, t, Index(v, 2), Entry(v - PHYS_MEM_VIRT_ADDR, HUGE_FLAGS));
      HugeBuilt(start, before, root, v, t, mem);
      FlagBits();
      AccountedLeaf(start, before, mem, root, fa.usable, lo, fa.cursor.next, t, Index(v, 2),
        Entry(v - PHYS_MEM_VIRT_ADDR, HUGE_FLAGS));
      SpareAfterLeaf(before, mem, root, fa.usable, fa.cursor);
    }

    /** One 2 MB frame of the direct map. It ends as planned, and given frames for two tables it does what is wanted
        exactly if the window is mappable. */
    method MapHugeFrame(frame: nat, fa: FrameAllocation.FrameAllocator) returns (outcome: Outcome)
      requires IsWindow(PHYS_MEM_VIRT_ADDR + frame) && Tree(mem, root) && Pool(mem, root, fa)
      modifies this, fa
      ensures Tree(mem, root) && Pool(mem, root, fa)
      ensures outcome == WindowOutcome(old(mem), root, [], fa.usable, old(fa.cursor), PHYS_MEM_VIRT_ADDR + frame)
      ensures outcome == OutOfFrames ==> FrameAllocation.Exhausted(fa.usable, FOUR_KB, fa.cursor)
      ensures outcome != Done ==> KeptBesides(old(mem), mem, root)
      ensures outcome == Done ==> Built(old(mem), mem, root, [PHYS_MEM_VIRT_ADDR + frame])
      ensures LinkOutcome(old(mem), root, [], fa.usable, old(fa.cursor), 2) == Done ==>
        (outcome == Done && DirectWindow(old(mem), mem, root, PHYS_MEM_VIRT_ADDR + frame) <==>
         Mappable(old(mem), root, PHYS_MEM_VIRT_ADDR + frame))
    {
      var v := PHYS_MEM_VIRT_ADDR + frame;
      outcome := MapWindow(v, fa);
      MapsExactly(old(mem), mem, root, fa.usable, old(fa.cursor), v, outcome);
    }

    /** The 2 MB frames from `start` on, after the windows `ws` were mapped in the tables `from`: it ends as planned,
        and even if it fails the windows mapped so far are all that has changed. */
    method MapHugeFrames(start: nat, total: nat, fa: FrameAllocation.FrameAllocator, ghost from: Memory,
                         ghost c: FrameAllocation.Cursor, ghost ws: seq<nat>, ghost row: seq<nat>)
      returns (outcome: Outcome)
      requires start % TWO_MB == 0 && total % TWO_MB == 0 && PHYS_MEM_VIRT_ADDR + start + total <= SPACE
      requires row == Row(PHYS_MEM_VIRT_ADDR + start, total / TWO_MB)
      requires Tree(mem, root) && Pool(mem, root, fa) && AreWindows(ws)
      requires Underway(from, mem, root, fa.usable, c, fa.cursor, ws)
      modifies this, fa
      ensures Tree(mem, root) && Pool(mem, root, fa)
      ensures outcome == PlanOutcome(from, root, fa.usable, c, ws + row)
      ensures outcome == OutOfFrames ==> FrameAllocation.Exhausted(fa.usable, FOUR_KB, fa.cursor)
      ensures outcome == Done ==> Underway(from, mem, root, fa.usable, c, fa.cursor, ws + row)
      ensures OutsideKept(from, mem, root, ws, row)
    {
      ghost var count := total / TWO_MB;
      var index := 0;
      RowIsWindows(start, total);
      assert ws + row[..0] == ws;
      while start + TWO_MB * index < start + total
        invariant index <= count
        invariant Tree(mem, root) && Pool(mem, root, fa)
        invariant Underway(from, mem, root, fa.usable, c, fa.cursor, ws + row[..index])
        decreases count - index
      {
        var v := PHYS_MEM_VIRT_ADDR + (start + TWO_MB * index);
        RowAt(start, total, index, v);
        RowSplit(ws, row, index, v);
        ghost var before, rest := mem, row[index + 1..];
        outcome := MapNext(v, fa, from, c, ws + row[..index], ws + row[..index + 1], rest, ws + row);
        if outcome != Done {
          KeptSoFar(from, before, mem, root, ws, row, index);
          return;
        }
        index := index + 1;
      }
      RowEnd(total, index);
      assert row[..count] == row && AreWindows(ws + row);
      KeptSoFar(from, mem, mem, root, ws, row, count);
      outcome := Done;
    }

    /** The window `v` after the windows `done`; with `rest` behind it they make up `all`. */
    method MapNext(v: Virt, fa: FrameAllocation.FrameAllocator, ghost from: Memory, ghost c: FrameAllocation.Cursor,
                   ghost done: seq<nat>, ghost next: seq<nat>, ghost rest: seq<nat>, ghost all: seq<nat>)
      returns (outcome: Outcome)
      requires Tree(mem, root) && Pool(mem, root, fa) && AreWindows(done) && IsWindow(v)
      requires next == done + [v] && all == next + rest
      requires Underway(from, mem, root, fa.usable, c, fa.cursor, done)
      modifies this, fa
      ensures Tree(mem, root) && Pool(mem, root, fa)
      ensures outcome == Done ==> Underway(from, mem, root, fa.usable, c, fa.cursor, next)
      ensures outcome != Done ==>
        outcome == PlanOutcome(from, root, fa.usable, c, all) && KeptBesides(old(mem), mem, root)
      ensures outcome == OutOfFrames ==> FrameAllocation.Exhausted(fa.usable, FOUR_KB, fa.cursor)
    {
      ghost var before, now := mem, fa.cursor;
      outcome := MapWindow(v, fa);
      if outcome == Done {
        NextDone(from, before, mem, root, fa.usable, c, now, fa.cursor, done, v, next);
      } else {
        NextFails(from, before, root, fa.usable, c, now, done, v, next, rest, all, outcome);
      }
    }

    /** Maps every 2 MB frame the region iterator yields. */
    method MapPhysicalRegion(base: nat, length: nat, fa: FrameAllocation.FrameAllocator) returns (outcome: Outcome)
      requires PHYS_MEM_VIRT_ADDR + AlignDown(base, TWO_MB) + AlignUp(length, TWO_MB) <= SPACE
      requires Tree(mem, root) && Pool(mem, root, fa)
      modifies this, fa
      ensures Tree(mem, root) && Pool(mem, root, fa)
      ensures outcome == PlanOutcome(old(mem), root, fa.usable, old(fa.cursor), Windows(base, length))
      ensures outcome == OutOfFrames ==> FrameAllocation.Exhausted(fa.usable, FOUR_KB, fa.cursor)
      ensures outcome == Done ==> Built(old(mem), mem, root, Windows(base, length))
      ensures outcome == Done ==> Accounted(old(mem), mem, root, fa.usable, old(fa.cursor.next), fa.cursor.next)
      ensures outcome == Done ==>
        forall w: Virt :: InFrames(w, base, length) ==> ToPhys(mem, root, w) == Some(w - PHYS_MEM_VIRT_ADDR)
      ensures forall w: Virt :: !InFrames(w, base, length) && !GigabytePage(old(mem), root, w) ==>
        ToPhys(mem, root, w) == ToPhys(old(mem), root, w)
    {
      ghost var row := Windows(base, length);
      BuiltNothing(mem, root);
      AccountedNone(mem, root, fa.usable, fa.cursor.next, fa.cursor.next);
      outcome := MapHugeFrames(AlignDown(base, TWO_MB), AlignUp(length, TWO_MB), fa, mem, fa.cursor, [], row);
      assert [] + row == row;
      RegionTranslates(old(mem), mem, root, base, length, row, outcome == Done);
    }

    /** Gives page `index` from `start` on its level-1 table, unless it is mapped already. */
    method ReadyPage(v: Virt, fa: FrameAllocation.FrameAllocator, ghost start: nat, ghost index: nat)
      returns (outcome: Outcome)
      requires v == Nth(start, FOUR_KB, index)
      requires Tree(mem, root) && Pool(mem, root, fa) && PagesReady(mem, root, start, index)
      modifies this, fa
      ensures Tree(mem, root) && Pool(mem, root, fa) && SameTranslations(old(mem), mem, root)
      ensures outcome == Done ==> PagesReady(mem, root, start, index + 1)
      ensures outcome == AlreadyMapped ==> Occupied(mem, root, start, index)
      ensures outcome == OutOfFrames ==> FrameAllocation.Exhausted(fa.usable, FOUR_KB, fa.cursor)
      ensures outcome == Fault <==> !TakenInReach(old(mem), root, fa.usable, old(fa.cursor.next), fa.cursor.next)
      ensures outcome != Panic && old(fa.cursor.next) <= fa.cursor.next
      ensures outcome != Fault ==> Accounted(old(mem), mem, root, fa.usable, old(fa.cursor.next), fa.cursor.next)
    {
      var phys := Translate(v);
      if phys != None {
        AccountedNone(mem, root, fa.usable, fa.cursor.next, fa.cursor.next);
        return AlreadyMapped;
      }
      ghost var lo := fa.cursor.next;
      var t;
      outcome, t := EnsureLevel1(v, fa);
      if outcome == Done {
        OneMoreReady(old(mem), mem, root, start, index, v, lo, fa.cursor.next);
      }
    }

    /** Links fresh tables under the unmapped address until there is one of level 1. No translation changes. */
    method EnsureLevel1(v: Virt, fa: FrameAllocation.FrameAllocator) returns (outcome: Outcome, t: nat)
      requires Tree(mem, root) && Pool(mem, root, fa) && ToPhys(mem, root, v) == None
      modifies this, fa
      ensures Tree(mem, root) && Pool(mem, root, fa) && old(fa.cursor.next) <= fa.cursor.next
      ensures SameTranslations(old(mem), mem, root)
      ensures TablesGrow(old(mem), mem, root, old(fa.cursor.next), fa.cursor.next)
      ensures outcome == Done || outcome == OutOfFrames || outcome == Fault
      ensures outcome == Done ==> TableAt(mem, root, v, 1) == Some(t)
      ensures outcome == OutOfFrames ==> FrameAllocation.Exhausted(fa.usable, FOUR_KB, fa.cursor)
      ensures outcome == Fault <==> !TakenInReach(old(mem), root, fa.usable, old(fa.cursor.next), fa.cursor.next)
      ensures outcome != Fault ==> Accounted(old(mem), mem, root, fa.usable, old(fa.cursor.next), fa.cursor.next)
    {
      UnmappedDeepest(mem, root, v);
      AccountedNone(mem, root, fa.usable, fa.cursor.next, fa.cursor.next);
      var l;
      t, l := GetTable(v);
      while l != 1
        invariant 1 <= l <= 4 && TableAt(mem, root, v, l) == Some(t)
        invariant l > 1 ==> GetEntry(mem, t, l, Index(v, l)) == Unmapped
        invariant Tree(mem, root) && Pool(mem, root, fa) && old(fa.cursor.next) <= fa.cursor.next
        invariant SameTranslations(old(mem), mem, root)
        invariant TablesGrow(old(mem), mem, root, old(fa.cursor.next), fa.cursor.next)
        invariant Accounted(old(mem), mem, root, fa.usable, old(fa.cursor.next), fa.cursor.next)
        invariant TakenInReach(old(mem), root, fa.usable, old(fa.cursor.next), fa.cursor.next)
        decreases l
      {
        ghost var before, lo := mem, fa.cursor.next;
        var next;
        outcome, next := LinkNext(v, t, l, fa);
        GrowMore(old(mem), before, mem, root, old(fa.cursor.next), lo, fa.cursor.next);
        ReachMore(old(mem), before, root, fa.usable, old(fa.cursor.next), lo, fa.cursor.next);
        if outcome != Fault {
          AccountedMore(old(mem), before, mem, root, fa.usable, old(fa.cursor.next), lo, fa.cursor.next);
        }
        if outcome != Done {
          return;
        }
        t, l := next, l - 1;
      }
      outcome := Done;
    }

    /** Links one fresh table under the empty entry of `v` in table `t` of level `l`. */
    method LinkNext(v: Virt, t: nat, l: nat, fa: FrameAllocation.FrameAllocator) returns (outcome: Outcome, next: nat)
      requires 2 <= l <= 4 && Tree(mem, root) && Pool(mem, root, fa)
      requires TableAt(mem, root, v, l) == Some(t) && GetEntry(mem, t, l, Index(v, l)) == Unmapped
      modifies this, fa
      ensures Tree(mem, root) && Pool(mem, root, fa) && old(fa.cursor.next) <= fa.cursor.next
      ensures SameTranslations(old(mem), mem, root)
      ensures TablesGrow(old(mem), mem, root, old(fa.cursor.next), fa.cursor.next)
      ensures outcome == Done || outcome == OutOfFrames || outcome == Fault
      ensures outcome == Done ==>
        && TableAt(mem, root, v, l - 1) == Some(next)
        && (l > 2 ==> GetEntry(mem, next, l - 1, Index(v, l - 1)) == Unmapped)
      ensures outcome == OutOfFrames ==> FrameAllocation.Exhausted(fa.usable, FOUR_KB, fa.cursor)
      ensures outcome == Fault <==> !TakenInReach(old(mem), root, fa.usable, old(fa.cursor.next), fa.cursor.next)
      ensures outcome != Fault ==> Accounted(old(mem), mem, root, fa.usable, old(fa.cursor.next), fa.cursor.next)
    {
      ghost var lo := fa.cursor;
      var frame := TakeFrame(fa);
      next := t;
      if frame.None? {
        AccountedNone(mem, root, fa.usable, lo.next, fa.cursor.next);
        return OutOfFrames, next;
      }
      next := frame.value;
      ghost var before := mem;
      var ok := MapTableAt(t, l, next, Index(v, l));
      OneTaken(before, root, fa.usable, lo.next, next);
      if !ok {
        return Fault, next;
      }
      LinkedNext(before, mem, root, fa.usable, v, l, t, next, lo.next);
      SpareAfterLink(before, mem, root, fa.usable, fa.cursor, next);
      outcome := Done;
    }

    /** Gives every 4 KB page of the region a level-1 table, refusing pages that are mapped already. */
    method AllocateTables(base: nat, length: nat, fa: FrameAllocation.FrameAllocator) returns (outcome: Outcome)
      requires AlignDown(base, FOUR_KB) + AlignUp(length, FOUR_KB) <= SPACE
      requires Tree(mem, root) && Pool(mem, root, fa)
      modifies this, fa
      ensures Tree(mem, root) && Pool(mem, root, fa) && SameTranslations(old(mem), mem, root)
      ensures outcome == Done ==>
        PagesReady(mem, root, AlignDown(base, FOUR_KB), AlignUp(length, FOUR_KB) / FOUR_KB)
      ensures outcome == AlreadyMapped ==>
        exists i :: 0 <= i < AlignUp(length, FOUR_KB) / FOUR_KB && Occupied(mem, root, AlignDown(base, FOUR_KB), i)
      ensures outcome == OutOfFrames ==> FrameAllocation.Exhausted(fa.usable, FOUR_KB, fa.cursor)
      ensures outcome == Fault <==> !TakenInReach(old(mem), root, fa.usable, old(fa.cursor.next), fa.cursor.next)
      ensures outcome != Panic && old(fa.cursor.next) <= fa.cursor.next
      ensures outcome != Fault ==> Accounted(old(mem), mem, root, fa.usable, old(fa.cursor.next), fa.cursor.next)
    {
      var start, total := AlignDown(base, FOUR_KB), AlignUp(length, FOUR_KB);
      ghost var count := total / FOUR_KB;
      assert total == FOUR_KB * count;
      var index := 0;
      AccountedNone(mem, root, fa.usable, fa.cursor.next, fa.cursor.next);
      while start + FOUR_KB * index < start + total
        invariant index <= count
        invariant Tree(mem, root) && Pool(mem, root, fa) && SameTranslations(old(mem), mem, root)
        invariant PagesReady(mem, root, start, index)
        invariant old(fa.cursor.next) <= fa.cursor.next
        invariant Accounted(old(mem), mem, root, fa.usable, old(fa.cursor.next), fa.cursor.next)
        invariant TakenInReach(old(mem), root, fa.usable, old(fa.cursor.next), fa.cursor.next)
        decreases count - index
      {
        ghost var before, lo := mem, fa.cursor.next;
        outcome := ReadyPage(start + FOUR_KB * index, fa, start, index);
        ReachMore(old(mem), before, root, fa.usable, old(fa.cursor.next), lo, fa.cursor.next);
        if outcome != Fault {
          AccountedMore(old(mem), before, mem, root, fa.usable, old(fa.cursor.next), lo, fa.cursor.next);
        }
        if outcome != Done {
          return;
        }
        index := index + 1;
      }
      outcome := Done;
    }
  }

  /** Addresses of the window translate to their direct-map frame, all others as before. */
  ghost predicate DirectWindow(before: Memory, mem: Memory, root: nat, v: nat) {
    forall w: Virt :: ToPhys(mem, root, w) ==
      if PHYS_MEM_VIRT_ADDR <= v <= w < v + TWO_MB then Some(w - PHYS_MEM_VIRT_ADDR) else ToPhys(before, root, w)
  }

  lemma {:induction false} StillDirect(start: Memory, mem: Memory, root: nat, v: Virt, l: nat, p: nat)
    requires 3 <= l <= 4 && Extended(start, mem, root, v, l)
    ensures DirectMapped(mem, root, p) <==> DirectMapped(start, root, p)
  {
    if PHYS_MEM_VIRT_ADDR + p < SPACE {
      var w: Virt := PHYS_MEM_VIRT_ADDR + p;
      assert ToPhys(mem, root, w) == ToPhys(start, root, w);
    }
  }

  /** A table just linked is cut off exactly if it was reached through the 1 GB page it broke. */
  lemma {:induction false} CutOffSeen(start: Memory, mem: Memory, root: nat, v: Virt, t: nat, linked: bool,
                                      f: Option<nat>)
    requires Extended(start, mem, root, v, 2)
    requires linked ==> DirectMapped(start, root, t)
    requires GigabytePage(start, root, v) ==> linked && f == Some(t)
    ensures CutsOff(start, root, [], v, f) <==> linked && ToPhys(mem, root, PHYS_MEM_VIRT_ADDR + t) != Some(t)
    ensures KeptBesides(start, mem, root)
  {
    if linked {
      CutOffAt(start, mem, root, v, PHYS_MEM_VIRT_ADDR + t);
    }
    CutOffIf(start, mem, root, v, t, linked, f);
    LinkedKeeps(start, mem, root, v);
  }

  lemma {:induction false} CutOffIf(start: Memory, mem: Memory, root: nat, v: Virt, t: nat, linked: bool,
                                    f: Option<nat>)
    requires linked ==> DirectMapped(start, root, t)
    requires GigabytePage(start, root, v) ==> linked && f == Some(t)
    requires linked ==>
      ToPhys(mem, root, PHYS_MEM_VIRT_ADDR + t) ==
        if GigabytePage(start, root, v) && Top(PHYS_MEM_VIRT_ADDR + t, 3) == Top(v, 3) then None
        else ToPhys(start, root, PHYS_MEM_VIRT_ADDR + t)
    ensures CutsOff(start, root, [], v, f) <==> linked && ToPhys(mem, root, PHYS_MEM_VIRT_ADDR + t) != Some(t)
  {
  }

  lemma {:induction false} LinkedKeeps(start: Memory, mem: Memory, root: nat, v: Virt)
    requires Extended(start, mem, root, v, 2)
    ensures KeptBesides(start, mem, root)
  {
  }

  lemma {:induction false} CutOffAt(start: Memory, mem: Memory, root: nat, v: Virt, w: Virt)
    requires Extended(start, mem, root, v, 2)
    ensures ToPhys(mem, root, w) ==
      if GigabytePage(start, root, v) && Top(w, 3) == Top(v, 3) then None else ToPhys(start, root, w)
  {
    if Top(w, 3) == Top(v, 3) {
      GigabyteShared(start, root, v, w);
    }
  }

  lemma {:induction false} ReachedBefore(start: Memory, mem: Memory, root: nat, usable: seq<Extent>,
                                         c: FrameAllocation.Cursor, v: Virt, l: nat)
    requires 3 <= l <= 4 && Extended(start, mem, root, v, l)
    ensures SameTranslations(start, mem, root)
    ensures var (f, c') := FrameAllocation.Next(usable, FOUR_KB, c);
      LinkOutcome(start, root, [], usable, c, l - 2) ==
        if f.None? then OutOfFrames
        else if !DirectMapped(mem, root, f.value) then Fault
        else LinkOutcome(start, root, [], usable, c', l - 3)
  {
    var f := FrameAllocation.Next(usable, FOUR_KB, c).0;
    if f.Some? {
      BuiltNothing(start, root);
      ReachedNow(start, start, root, [], f.value);
    }
  }

  lemma {:induction false} FewerFrames(mem: Memory, root: nat, ws: seq<nat>, usable: seq<Extent>,
                                       c: FrameAllocation.Cursor,
                                       n: nat, k: nat)
    requires n <= k && LinkOutcome(mem, root, ws, usable, c, k) == Done
    ensures LinkOutcome(mem, root, ws, usable, c, n) == Done
    decreases n
  {
    if n > 0 {
      FewerFrames(mem, root, ws, usable, FrameAllocation.Next(usable, FOUR_KB, c).1, n - 1, k - 1);
    }
  }

  /** Given frames for two tables, a window is mapped and nothing else changed exactly if it is mappable: a 1 GB page
      loses the rest of its gigabyte, a level-1 table ends in a panic. */
  lemma {:induction false} MapsExactly(start: Memory, mem: Memory, root: nat, usable: seq<Extent>,
                                       c: FrameAllocation.Cursor, v: Virt, outcome: Outcome)
    requires IsWindow(v) && outcome == WindowOutcome(start, root, [], usable, c, v)
    requires outcome == Done ==> Built(start, mem, root, [v])
    ensures LinkOutcome(start, root, [], usable, c, 2) == Done ==>
      (outcome == Done && DirectWindow(start, mem, root, v) <==> Mappable(start, root, v))
  {
    if LinkOutcome(start, root, [], usable, c, 2) == Done {
      FewerFrames(start, root, [], usable, c, Missing(start, root, [], v), 2);
      if outcome == Done {
        BuiltWindow(start, mem, root, v);
      }
    }
  }

  lemma {:induction false} BuiltWindow(start: Memory, mem: Memory, root: nat, v: Virt)
    requires IsWindow(v) && Built(start, mem, root, [v])
    ensures DirectWindow(start, mem, root, v) <==> !GigabytePage(start, root, v)
  {
    forall w: Virt
      ensures Covered(w, [v]) <==> v <= w < v + TWO_MB
      ensures Shares(w, [v], 3) <==> Top(v, 3) == Top(w, 3)
      ensures Top(v, 3) == Top(w, 3) ==> (GigabytePage(start, root, w) <==> GigabytePage(start, root, v))
    {
      CoveredSnoc(w, [], v);
      SharesSnoc(w, [], v, 3);
      assert [] + [v] == [v];
      if Top(v, 3) == Top(w, 3) {
        GigabyteShared(start, root, v, w);
      }
    }
    if GigabytePage(start, root, v) {
      var w := Neighbour(v);
      assert !Covered(w, [v]) && ToPhys(mem, root, w) == None;
      GigabyteSeen(start, root, w);
    }
  }

  /** Another window of the same gigabyte. */
  lemma {:induction false} Neighbour(v: Virt) returns (w: Virt)
    requires IsWindow(v)
    ensures Top(w, 3) == Top(v, 3) && !(v <= w < v + TWO_MB)
  {
    var first := v / 0x4000_0000 * 0x4000_0000;
    w := if v == first then first + TWO_MB else first;
    TopThree(v);
    TopThree(w);
  }

  lemma {:induction false} TopThree(v: nat)
    ensures Top(v, 3) == v / 0x4000_0000
  {
    QuotientOfPages(v);
    QuotientOfHugePages(v);
    assert Top(v, 2) == v / 0x1000 / 512;
  }

  // --- regions ---

  function Nth(start: nat, size: nat, i: nat): nat {
    start + size * i
  }

  /** `n` windows next to each other. */
  function Row(first: nat, n: nat): (r: seq<nat>)
    ensures |r| == n && forall i :: 0 <= i < n ==> r[i] == Nth(first, TWO_MB, i)
  {
    seq(n, i requires 0 <= i < n => Nth(first, TWO_MB, i))
  }

  /** The windows of the frames that the iterator over a region yields. */
  function Windows(base: nat, length: nat): seq<nat> {
    Row(PHYS_MEM_VIRT_ADDR + AlignDown(base, TWO_MB), AlignUp(length, TWO_MB) / TWO_MB)
  }

  /** The address lies in the direct-map window of a 2 MB frame of the region. */
  predicate InFrames(w: nat, base: nat, length: nat) {
    var first := PHYS_MEM_VIRT_ADDR + AlignDown(base, TWO_MB);
    first <= w < first + AlignUp(length, TWO_MB)
  }

  /** The byte is in one of the region's 2 MB frames. */
  predicate Direct(p: nat, base: nat, length: nat) {
    InFrames(PHYS_MEM_VIRT_ADDR + p, base, length)
  }

  /** The frames reach no further than the last byte of the region rounded up from an aligned base. */
  predicate Reaches(base: nat, length: nat) {
    if length % TWO_MB == 0 then length == 0 || base % TWO_MB == 0 else base % TWO_MB + length % TWO_MB <= TWO_MB
  }

  /** Aligning base and length separately keeps every byte of the region exactly under that condition. */
  lemma {:induction false} RegionCovered(base: nat, length: nat)
    ensures (forall p: nat :: base <= p < base + length ==> Direct(p, base, length)) <==> Reaches(base, length)
  {
    if length > 0 {
      RegionEnd(base, length);
      if !Reaches(base, length) {
        assert !Direct(base + length - 1, base, length);
      }
    }
  }

  lemma {:induction false} RegionEnd(base: nat, length: nat)
    requires length > 0
    ensures base + length <= AlignDown(base, TWO_MB) + AlignUp(length, TWO_MB) <==> Reaches(base, length)
  {
  }

  lemma {:induction false} RowIsWindows(start: nat, total: nat)
    requires start % TWO_MB == 0 && total % TWO_MB == 0 && PHYS_MEM_VIRT_ADDR + start + total <= SPACE
    ensures AreWindows(Row(PHYS_MEM_VIRT_ADDR + start, total / TWO_MB))
  {
  }

  lemma {:induction false} RowAt(start: nat, total: nat, index: nat, v: nat)
    requires start % TWO_MB == 0 && total % TWO_MB == 0 && PHYS_MEM_VIRT_ADDR + start + total <= SPACE
    requires TWO_MB * index < total && v == PHYS_MEM_VIRT_ADDR + (start + TWO_MB * index)
    ensures index < total / TWO_MB && IsWindow(v) && Row(PHYS_MEM_VIRT_ADDR + start, total / TWO_MB)[index] == v
  {
  }

  lemma {:induction false} RowEnd(total: nat, index: nat)
    requires total % TWO_MB == 0 && index <= total / TWO_MB && TWO_MB * index >= total
    ensures index == total / TWO_MB
  {
  }

  lemma {:induction false} RowSplit(ws: seq<nat>, row: seq<nat>, index: nat, v: nat)
    requires index < |row| && row[index] == v
    ensures ws + row[..index + 1] == (ws + row[..index]) + [v]
    ensures ws + row == (ws + row[..index + 1]) + row[index + 1..]
    ensures AreWindows(ws) && AreWindows(row) ==> AreWindows(ws + row[..index])
  {
  }

  lemma {:induction false} RowCovers(start: nat, total: nat, w: nat)
    requires total % TWO_MB == 0
    ensures Covered(w, Row(PHYS_MEM_VIRT_ADDR + start, total / TWO_MB)) <==>
      PHYS_MEM_VIRT_ADDR + start <= w < PHYS_MEM_VIRT_ADDR + start + total
  {
    var first := PHYS_MEM_VIRT_ADDR + start;
    if first <= w < first + total {
      var i := (w - first) / TWO_MB;
      assert Row(first, total / TWO_MB)[i] <= w < Row(first, total / TWO_MB)[i] + TWO_MB;
    }
  }

  /** Addresses outside the windows, and outside 1 GB pages, translate as they were planned to before. */
  ghost predicate OutsideKept(from: Memory, mem: Memory, root: nat, ws: seq<nat>, row: seq<nat>) {
    forall w: Virt :: !Covered(w, row) && !GigabytePage(from, root, w) ==>
      ToPhys(mem, root, w) == Planned(from, root, ws, w)
  }

  lemma {:induction false} RegionTranslates(from: Memory, mem: Memory, root: nat, base: nat, length: nat,
                                            row: seq<nat>, done: bool)
    requires row == Windows(base, length) && OutsideKept(from, mem, root, [], row)
    requires done ==> Built(from, mem, root, row)
    ensures done ==> forall w: Virt :: InFrames(w, base, length) ==>
      ToPhys(mem, root, w) == Some(w - PHYS_MEM_VIRT_ADDR)
    ensures forall w: Virt :: !InFrames(w, base, length) && !GigabytePage(from, root, w) ==>
      ToPhys(mem, root, w) == ToPhys(from, root, w)
  {
    forall w: Virt ensures Covered(w, row) <==> InFrames(w, base, length) {
      RowCovers(AlignDown(base, TWO_MB), AlignUp(length, TWO_MB), w);
    }
  }

  lemma {:induction false} CoveredConcat(w: nat, a: seq<nat>, b: seq<nat>)
    ensures Covered(w, a + b) <==> Covered(w, a) || Covered(w, b)
  {
    if Covered(w, a) {
      var i :| 0 <= i < |a| && a[i] <= w < a[i] + TWO_MB;
      assert (a + b)[i] == a[i];
    }
    if Covered(w, b) {
      var i :| 0 <= i < |b| && b[i] <= w < b[i] + TWO_MB;
      assert (a + b)[|a| + i] == b[i];
    }
  }

  lemma {:induction false} KeptSoFar(from: Memory, before: Memory, mem: Memory, root: nat, ws: seq<nat>, row: seq<nat>,
                                     index: nat)
    requires index <= |row| && Built(from, before, root, ws + row[..index]) && KeptBesides(before, mem, root)
    requires AreWindows(ws + row[..index])
    ensures OutsideKept(from, mem, root, ws, row)
  {
    forall w: Virt | !Covered(w, row) && !GigabytePage(from, root, w)
      ensures ToPhys(mem, root, w) == Planned(from, root, ws, w)
    {
      CoveredConcat(w, ws, row[..index]);
      CoveredConcat(w, row[..index], row[index..]);
      assert row[..index] + row[index..] == row;
      assert ToPhys(before, root, w) == Planned(from, root, ws + row[..index], w);
      GigabytesLeft(from, before, root, ws + row[..index], w);
    }
  }

  /** The windows are mapped, as planned. */
  ghost predicate Underway(from: Memory, mem: Memory, root: nat, usable: seq<Extent>, c: FrameAllocation.Cursor,
                           now: FrameAllocation.Cursor, ws: seq<nat>)
  {
    && Built(from, mem, root, ws) && PlanOutcome(from, root, usable, c, ws) == Done
    && now == Spent(from, root, usable, c, ws)
    && c.next <= now.next && Accounted(from, mem, root, usable, c.next, now.next)
  }

  /** One window more in the plan; `all` is the whole list that `done`, `v` and `rest` make up. */
  lemma {:induction false} NextPlanned(from: Memory, root: nat, usable: seq<Extent>, c: FrameAllocation.Cursor,
                                       now: FrameAllocation.Cursor, done: seq<nat>, v: nat, next: seq<nat>,
                                       rest: seq<nat>,
                                       all: seq<nat>, outcome: Outcome)
    requires PlanOutcome(from, root, usable, c, done) == Done && now == Spent(from, root, usable, c, done)
    requires outcome == WindowOutcome(from, root, done, usable, now, v)
    requires next == done + [v] && all == next + rest
    ensures outcome == Done ==>
      && PlanOutcome(from, root, usable, c, next) == Done
      && Spent(from, root, usable, c, next) == FrameAllocation.Skip(usable, FOUR_KB, now, Missing(from, root, done, v))
    ensures outcome != Done ==> outcome == PlanOutcome(from, root, usable, c, all)
  {
    PlanSnoc(from, root, usable, c, done, v);
    if outcome != Done {
      PlanFails(from, root, usable, c, next, rest);
    }
  }

  lemma {:induction false} NextDone(from: Memory, before: Memory, mem: Memory, root: nat, usable: seq<Extent>,
                                    c: FrameAllocation.Cursor, now: FrameAllocation.Cursor,
                                    later: FrameAllocation.Cursor,
                                    done: seq<nat>, v: nat, next: seq<nat>)
    requires AreWindows(done) && IsWindow(v) && next == done + [v]
    requires Underway(from, before, root, usable, c, now, done)
    requires WindowOutcome(before, root, [], usable, now, v) == Done && Built(before, mem, root, [v])
    requires later == FrameAllocation.Skip(usable, FOUR_KB, now, Missing(before, root, [], v))
    requires now.next <= later.next && Accounted(before, mem, root, usable, now.next, later.next)
    ensures Underway(from, mem, root, usable, c, later, next)
  {
    AccountedMore(from, before, mem, root, usable, c.next, now.next, later.next);
    BuiltMore(from, before, mem, root, done, v);
    WindowOutcomeNow(from, before, root, done, usable, now, v);
    NextPlanned(from, root, usable, c, now, done, v, next, [], next + [], Done);
  }

  lemma {:induction false} NextFails(from: Memory, before: Memory, root: nat, usable: seq<Extent>,
                                     c: FrameAllocation.Cursor,
                                     now: FrameAllocation.Cursor, done: seq<nat>, v: nat, next: seq<nat>,
                                     rest: seq<nat>,
                                     all: seq<nat>, outcome: Outcome)
    requires AreWindows(done) && IsWindow(v) && next == done + [v] && all == next + rest
    requires Underway(from, before, root, usable, c, now, done)
    requires outcome == WindowOutcome(before, root, [], usable, now, v) != Done
    ensures outcome == PlanOutcome(from, root, usable, c, all)
  {
    WindowOutcomeNow(from, before, root, done, usable, now, v);
    NextPlanned(from, root, usable, c, now, done, v, next, rest, all, outcome);
  }

  // --- pages ---

  /** A table linked under an empty entry, in the allocator's next frame. */
  lemma {:induction false} LinkedNext(mem: Memory, mem': Memory, root: nat, usable: seq<Extent>, v: Virt, l: nat,
                                      t: nat, f: nat, lo: nat)
    requires 2 <= l <= 4 && Tree(mem, root) && TableAt(mem, root, v, l) == Some(t) && !IsTable(mem, root, f)
    requires GetEntry(mem, t, l, Index(v, l)) == Unmapped && mem' == Linked(mem, t, Index(v, l), f)
    requires lo <= f && FrameAllocation.IsFrame(usable, FOUR_KB, f) && FrameAllocation.NoFrames(usable, FOUR_KB, lo, f)
    ensures Tree(mem', root) && SameTranslations(mem, mem', root)
    ensures TableAt(mem', root, v, l - 1) == Some(f) && GetEntry(mem', f, l - 1, Index(v, l - 1)) == Unmapped
    ensures forall g: nat :: IsTable(mem', root, g) ==> g == f || IsTable(mem, root, g)
    ensures TablesGrow(mem, mem', root, lo, f + FOUR_KB) && Accounted(mem, mem', root, usable, lo, f + FOUR_KB)
  {
    LinkTable(mem, root, v, l, f);
    AccountedLink(mem, mem', root, usable, v, l, t, f, lo);
  }

  /** Every table of `mem` is still there, and any other table is a frame in `lo .. hi`. */
  ghost predicate TablesGrow(mem: Memory, mem': Memory, root: nat, lo: nat, hi: nat) {
    && (forall w: Virt, m :: 1 <= m <= 4 && TableAt(mem, root, w, m).Some? ==>
          TableAt(mem', root, w, m) == TableAt(mem, root, w, m))
    && (forall g: nat :: IsTable(mem', root, g) ==> IsTable(mem, root, g) || lo <= g < hi)
  }

  /** The frames taken between two positions of the allocator were all in the direct map. */
  ghost predicate TakenInReach(mem: Memory, root: nat, usable: seq<Extent>, lo: nat, hi: nat) {
    forall p: nat :: lo <= p < hi && FrameAllocation.IsFrame(usable, FOUR_KB, p) ==> DirectMapped(mem, root, p)
  }

  lemma {:induction false} OneTaken(mem: Memory, root: nat, usable: seq<Extent>, lo: nat, f: nat)
    requires lo <= f && FrameAllocation.IsFrame(usable, FOUR_KB, f) && FrameAllocation.NoFrames(usable, FOUR_KB, lo, f)
    ensures TakenInReach(mem, root, usable, lo, f + FOUR_KB) <==> DirectMapped(mem, root, f)
  {
    forall p: nat | lo <= p < f + FOUR_KB && FrameAllocation.IsFrame(usable, FOUR_KB, p) ensures p == f {
      if f <= p {
        FrameAllocation.FrameGap(f, p, FOUR_KB);
      }
    }
  }

  lemma {:induction false} ReachMore(start: Memory, mem: Memory, root: nat, usable: seq<Extent>, lo: nat, mid: nat,
                                     hi: nat)
    requires lo <= mid <= hi && TakenInReach(start, root, usable, lo, mid) && SameTranslations(start, mem, root)
    ensures TakenInReach(start, root, usable, lo, hi) <==> TakenInReach(mem, root, usable, mid, hi)
  {
    forall p: nat ensures DirectMapped(start, root, p) <==> DirectMapped(mem, root, p) {
      if PHYS_MEM_VIRT_ADDR + p < SPACE {
        var w: Virt := PHYS_MEM_VIRT_ADDR + p;
        assert ToPhys(mem, root, w) == ToPhys(start, root, w);
      }
    }
  }

  lemma {:induction false} UnmappedDeepest(mem: Memory, root: nat, v: Virt)
    requires ToPhys(mem, root, v) == None
    ensures var (t, l) := Deepest(mem, root, 4, v);
      TableAt(mem, root, v, l) == Some(t) && (l > 1 ==> GetEntry(mem, t, l, Index(v, l)) == Unmapped)
  {
  }

  lemma {:induction false} GrowMore(a: Memory, b: Memory, c: Memory, root: nat, lo: nat, mid: nat, hi: nat)
    requires lo <= mid <= hi && TablesGrow(a, b, root, lo, mid) && TablesGrow(b, c, root, mid, hi)
    ensures TablesGrow(a, c, root, lo, hi)
  {
  }

  ghost predicate Occupied(mem: Memory, root: nat, start: nat, i: nat) {
    ToPhys(mem, root, Nth(start, FOUR_KB, i)) != None
  }

  lemma {:induction false} OneMoreReady(before: Memory, mem: Memory, root: nat, start: nat, index: nat, v: Virt,
                                        lo: nat, hi: nat)
    requires PagesReady(before, root, start, index) && v == Nth(start, FOUR_KB, index)
    requires ToPhys(before, root, v) == None
    requires SameTranslations(before, mem, root) && TablesGrow(before, mem, root, lo, hi)
    requires TableAt(mem, root, v, 1).Some?
    ensures PagesReady(mem, root, start, index + 1)
  {
    PagesKept(before, mem, root, start, index, lo, hi);
  }

  /** The first `n` pages from `start` have their level-1 table and are not mapped. */
  ghost predicate PagesReady(mem: Memory, root: nat, start: nat, n: nat) {
    forall i :: 0 <= i < n ==>
      TableAt(mem, root, Nth(start, FOUR_KB, i), 1).Some? && ToPhys(mem, root, Nth(start, FOUR_KB, i)) == None
  }

  lemma {:induction false} PagesKept(before: Memory, mem: Memory, root: nat, start: nat, n: nat, lo: nat, hi: nat)
    requires PagesReady(before, root, start, n) && start + FOUR_KB * n <= SPACE
    requires SameTranslations(before, mem, root) && TablesGrow(before, mem, root, lo, hi)
    ensures PagesReady(mem, root, start, n)
  {
  }

  /** The addresses under one 2 MB entry, and under one 4 KB entry. */
  lemma {:induction false} SameSpan(v: Virt, w: Virt)
    ensures v % TWO_MB == 0 ==> (Top(w, 2) == Top(v, 2) <==> v <= w < v + TWO_MB)
    ensures v % TWO_MB == 0 && v <= w < v + TWO_MB ==> Offset(w, 2) == w - v
    ensures v % FOUR_KB == 0 ==> (Top(w, 1) == Top(v, 1) <==> v <= w < v + FOUR_KB)
    ensures v % FOUR_KB == 0 && v <= w < v + FOUR_KB ==> Offset(w, 1) == w - v
  {
  }
}
