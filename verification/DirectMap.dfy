/** What mapping a list of 2 MB windows of the direct map does to a set of page tables, and how it ends: as a plan, from
    the tables and the frame allocator before the first window. */
module DirectMap {
  import opened Extents
  import opened Basics
  import opened PageTable
  import FrameAllocation

  /** How a mapping call ends. `Fault` is the page fault on a frame that the direct map does not reach, `Panic` the
      failed unwrap below a level-1 table. */
  datatype Outcome = Done | OutOfFrames | AlreadyMapped | Fault | Panic

  /** The frame can be reached through the direct map. */
  ghost predicate DirectMapped(mem: Memory, root: nat, p: nat) {
    PHYS_MEM_VIRT_ADDR + p < SPACE && ToPhys(mem, root, PHYS_MEM_VIRT_ADDR + p) == Some(p)
  }

  ghost predicate SameTranslations(mem: Memory, mem': Memory, root: nat) {
    forall w: Virt :: ToPhys(mem', root, w) == ToPhys(mem, root, w)
  }

  // --- obstacles ---

  /** The address lies in a 1 GB page. */
  ghost predicate GigabytePage(mem: Memory, root: nat, v: nat) {
    TableAt(mem, root, v, 3).Some? && GetEntry(mem, TableAt(mem, root, v, 3).value, 3, Index(v, 3)).Leaf?
  }

  /** No translation changes but those of 1 GB pages. */
  ghost predicate KeptBesides(mem: Memory, mem': Memory, root: nat) {
    forall w: Virt :: !GigabytePage(mem, root, w) ==> ToPhys(mem', root, w) == ToPhys(mem, root, w)
  }

  /** Nothing on the walk of `v` stands in the way of a 2 MB page: no level-1 table and no 1 GB page. */
  ghost predicate Mappable(mem: Memory, root: nat, v: nat) {
    TableAt(mem, root, v, 1).None? && !GigabytePage(mem, root, v)
  }

  /** A 1 GB page shows as a translation without a level-2 table. */
  lemma {:induction false} GigabyteSeen(mem: Memory, root: nat, v: Virt)
    ensures GigabytePage(mem, root, v) <==>
      TableAt(mem, root, v, 3).Some? && TableAt(mem, root, v, 2).None? && ToPhys(mem, root, v).Some?
    ensures TableAt(mem, root, v, 3).None? ==> ToPhys(mem, root, v) == None
  {
    var t := TableAt(mem, root, v, 3);
    ToPhysIsWalk(mem, root, v);
    if t.Some? {
      WalkThrough(mem, root, v, 3);
    }
  }

  lemma {:induction false} GigabyteShared(mem: Memory, root: nat, v: Virt, w: Virt)
    requires Top(v, 3) == Top(w, 3)
    ensures GigabytePage(mem, root, v) <==> GigabytePage(mem, root, w)
  {
    TopStep(v, w, 3);
    SamePath(mem, root, v, w, 3);
  }

  // --- windows ---

  /** A 2 MB window of the direct map. */
  predicate IsWindow(v: nat) {
    PHYS_MEM_VIRT_ADDR <= v && v % TWO_MB == 0 && v + TWO_MB <= SPACE
  }

  predicate AreWindows(ws: seq<nat>) {
    forall i :: 0 <= i < |ws| ==> IsWindow(ws[i])
  }

  ghost predicate Covered(w: nat, ws: seq<nat>) {
    exists i :: 0 <= i < |ws| && ws[i] <= w < ws[i] + TWO_MB
  }

  /** One of the windows uses the same entries as `w` from level 4 down to `l`. */
  ghost predicate Shares(w: nat, ws: seq<nat>, l: nat)
    requires 1 <= l <= 5
  {
    exists i :: 0 <= i < |ws| && Top(ws[i], l) == Top(w, l)
  }

  /** The translation once the windows are mapped: 1 GB pages that a window lies in are gone. */
  ghost function Planned(mem: Memory, root: nat, ws: seq<nat>, w: nat): Option<nat> {
    if Covered(w, ws) then (if PHYS_MEM_VIRT_ADDR <= w then Some(w - PHYS_MEM_VIRT_ADDR) else None)
    else if GigabytePage(mem, root, w) && Shares(w, ws, 3) then None
    else ToPhys(mem, root, w)
  }

  /** The windows are mapped: exactly the translations planned, and exactly the tables needed added. */
  ghost predicate Built(start: Memory, mem: Memory, root: nat, ws: seq<nat>) {
    && (forall w: Virt :: ToPhys(mem, root, w) == Planned(start, root, ws, w))
    && (forall w: Virt :: TableAt(mem, root, w, 3).Some? <==> TableAt(start, root, w, 3).Some? || Shares(w, ws, 4))
    && (forall w: Virt :: TableAt(mem, root, w, 2).Some? <==> TableAt(start, root, w, 2).Some? || Shares(w, ws, 3))
    && (forall w: Virt :: TableAt(mem, root, w, 1).Some? <==> TableAt(start, root, w, 1).Some?)
  }

  lemma {:induction false} BuiltNothing(mem: Memory, root: nat)
    ensures Built(mem, mem, root, [])
  {
  }

  lemma {:induction false} CoveredSnoc(w: nat, ws: seq<nat>, v: nat)
    ensures Covered(w, ws + [v]) <==> Covered(w, ws) || v <= w < v + TWO_MB
  {
    var t := ws + [v];
    assert t[|ws|] == v;
    if Covered(w, ws) {
      var i :| 0 <= i < |ws| && ws[i] <= w < ws[i] + TWO_MB;
      assert t[i] == ws[i];
    }
  }

  lemma {:induction false} SharesSnoc(w: nat, ws: seq<nat>, v: nat, l: nat)
    requires 1 <= l <= 5
    ensures Shares(w, ws + [v], l) <==> Shares(w, ws, l) || Top(v, l) == Top(w, l)
  {
    var t := ws + [v];
    assert t[|ws|] == v;
    if Shares(w, ws, l) {
      var i :| 0 <= i < |ws| && Top(ws[i], l) == Top(w, l);
      assert t[i] == ws[i];
    }
  }

  /** A covered address shares every entry above level 1 with its window. */
  lemma {:induction false} CoveredShares(w: Virt, ws: seq<nat>)
    requires AreWindows(ws) && Covered(w, ws)
    ensures Shares(w, ws, 3) && Shares(w, ws, 4)
  {
    var i :| 0 <= i < |ws| && ws[i] <= w < ws[i] + TWO_MB;
    var v: Virt := ws[i];
    SameTwoMb(v, w);
    TopStep(v, w, 2);
    TopStep(v, w, 3);
  }

  lemma {:induction false} SameTwoMb(v: Virt, w: Virt)
    requires v % TWO_MB == 0
    ensures Top(w, 2) == Top(v, 2) <==> v <= w < v + TWO_MB
    ensures v <= w < v + TWO_MB ==> Offset(w, 2) == w - v
  {
    QuotientOfPages(v);
    QuotientOfPages(w);
  }

  /** 1 GB pages after the windows are mapped: those that no window lies in. */
  lemma {:induction false} GigabytesLeft(start: Memory, mem: Memory, root: nat, ws: seq<nat>, w: Virt)
    requires Built(start, mem, root, ws) && AreWindows(ws)
    ensures GigabytePage(mem, root, w) <==> GigabytePage(start, root, w) && !Shares(w, ws, 3)
  {
    GigabyteSeen(start, root, w);
    GigabyteSeen(mem, root, w);
    if Covered(w, ws) {
      CoveredShares(w, ws);
    }
  }

  /** Mapping one window more. */
  lemma {:induction false} BuiltMore(start: Memory, mem: Memory, mem': Memory, root: nat, ws: seq<nat>, v: nat)
    requires Built(start, mem, root, ws) && Built(mem, mem', root, [v]) && AreWindows(ws) && IsWindow(v)
    ensures Built(start, mem', root, ws + [v])
  {
    forall w: Virt
      ensures ToPhys(mem', root, w) == Planned(start, root, ws + [v], w)
      ensures TableAt(mem', root, w, 3).Some? <==> TableAt(start, root, w, 3).Some? || Shares(w, ws + [v], 4)
      ensures TableAt(mem', root, w, 2).Some? <==> TableAt(start, root, w, 2).Some? || Shares(w, ws + [v], 3)
    {
      OneMoreAt(start, mem, mem', root, ws, v, w);
    }
  }

  lemma {:induction false} OneMoreAt(start: Memory, mem: Memory, mem': Memory, root: nat, ws: seq<nat>, v: nat, w: Virt)
    requires Built(start, mem, root, ws) && Built(mem, mem', root, [v]) && AreWindows(ws) && IsWindow(v)
    ensures ToPhys(mem', root, w) == Planned(start, root, ws + [v], w)
    ensures TableAt(mem', root, w, 3).Some? <==> TableAt(start, root, w, 3).Some? || Shares(w, ws + [v], 4)
    ensures TableAt(mem', root, w, 2).Some? <==> TableAt(start, root, w, 2).Some? || Shares(w, ws + [v], 3)
  {
    GigabytesLeft(start, mem, root, ws, w);
    if Covered(w, ws) {
      CoveredShares(w, ws);
    }
    CoveredSnoc(w, ws, v);
    CoveredSnoc(w, [], v);
    SharesSnoc(w, ws, v, 3);
    SharesSnoc(w, [], v, 3);
    SharesSnoc(w, ws, v, 4);
    SharesSnoc(w, [], v, 4);
    assert [] + [v] == [v];
  }

  // --- the plan ---

  /** How many tables the window still needs once the windows `ws` are mapped. */
  ghost function Missing(mem: Memory, root: nat, ws: seq<nat>, v: nat): nat {
    One(TableAt(mem, root, v, 3).None? && !Shares(v, ws, 4)) + One(TableAt(mem, root, v, 2).None? && !Shares(v, ws, 3))
  }

  /** The frame can be reached through the direct map once the windows are mapped. */
  ghost predicate Reached(mem: Memory, root: nat, ws: seq<nat>, p: nat) {
    PHYS_MEM_VIRT_ADDR + p < SPACE && Planned(mem, root, ws, PHYS_MEM_VIRT_ADDR + p) == Some(p)
  }

  /** Linking `n` tables, each in the allocator's next frame. */
  ghost function LinkOutcome(mem: Memory, root: nat, ws: seq<nat>, usable: seq<Extent>, c: FrameAllocation.Cursor,
                             n: nat): Outcome
    decreases n
  {
    if n == 0 then Done
    else
      var (f, c') := FrameAllocation.Next(usable, FOUR_KB, c);
      if f.None? then OutOfFrames
      else if !Reached(mem, root, ws, f.value) then Fault
      else LinkOutcome(mem, root, ws, usable, c', n - 1)
  }

  /** Bringing the tables of the window `v` down to level 2 after the windows `ws`: with a level-1 table in place, the
      first frame taken is not used and the level below does not exist. */
  ghost function TablesOutcome(mem: Memory, root: nat, ws: seq<nat>, usable: seq<Extent>, c: FrameAllocation.Cursor,
                               v: nat): Outcome
  {
    if TableAt(mem, root, v, 1).Some? then
      (if FrameAllocation.Next(usable, FOUR_KB, c).0.Some? then Panic else OutOfFrames)
    else LinkOutcome(mem, root, ws, usable, c, Missing(mem, root, ws, v))
  }

  /** The window breaks a 1 GB page, and the frame of the table put in its place was reached through that page. */
  ghost predicate CutsOff(mem: Memory, root: nat, ws: seq<nat>, v: nat, f: Option<nat>) {
    && GigabytePage(mem, root, v) && !Shares(v, ws, 3)
    && f.Some? && Top(PHYS_MEM_VIRT_ADDR + f.value, 3) == Top(v, 3)
  }

  /** Mapping the window: the entry is written through the direct map, which a table cut off is no longer in. */
  ghost function WindowOutcome(mem: Memory, root: nat, ws: seq<nat>, usable: seq<Extent>, c: FrameAllocation.Cursor,
                               v: nat): Outcome
  {
    var tables := TablesOutcome(mem, root, ws, usable, c, v);
    if tables == Done && CutsOff(mem, root, ws, v, FrameAllocation.Next(usable, FOUR_KB, c).0) then Fault else tables
  }

  /** The tables that the windows need in all. */
  ghost function TablesFor(mem: Memory, root: nat, ws: seq<nat>): nat
    decreases |ws|
  {
    if ws == [] then 0
    else
      var init := ws[..|ws| - 1];
      TablesFor(mem, root, init) + Missing(mem, root, init, ws[|ws| - 1])
  }

  /** The allocator once the windows are mapped. */
  ghost function Spent(mem: Memory, root: nat, usable: seq<Extent>, c: FrameAllocation.Cursor,
                       ws: seq<nat>): FrameAllocation.Cursor {
    FrameAllocation.Skip(usable, FOUR_KB, c, TablesFor(mem, root, ws))
  }

  /** Mapping the windows one after the other. */
  ghost function PlanOutcome(mem: Memory, root: nat, usable: seq<Extent>, c: FrameAllocation.Cursor,
                             ws: seq<nat>): Outcome
    decreases |ws|
  {
    if ws == [] then Done
    else
      var init := ws[..|ws| - 1];
      var sofar := PlanOutcome(mem, root, usable, c, init);
      if sofar != Done then sofar
      else WindowOutcome(mem, root, init, usable, Spent(mem, root, usable, c, init), ws[|ws| - 1])
  }

  /** The plan can be read off the memory as it is at any point. */
  lemma {:induction false} ReachedNow(start: Memory, mem: Memory, root: nat, ws: seq<nat>, p: nat)
    requires Built(start, mem, root, ws)
    ensures DirectMapped(mem, root, p) <==> Reached(start, root, ws, p)
  {
    if PHYS_MEM_VIRT_ADDR + p < SPACE {
      var w: Virt := PHYS_MEM_VIRT_ADDR + p;
      assert ToPhys(mem, root, w) == Planned(start, root, ws, w);
    }
  }

  lemma {:induction false} ReachedSame(start: Memory, mem: Memory, root: nat, ws: seq<nat>, p: nat)
    requires Built(start, mem, root, ws)
    ensures Reached(mem, root, [], p) <==> Reached(start, root, ws, p)
  {
    ReachedNow(start, mem, root, ws, p);
    BuiltNothing(mem, root);
    ReachedNow(mem, mem, root, [], p);
  }

  /** How linking ends depends on the memory only through what is reached. */
  lemma {:induction false} LinkOutcomeSame(a: Memory, was: seq<nat>, b: Memory, bs: seq<nat>, root: nat,
                                           usable: seq<Extent>,
                                           c: FrameAllocation.Cursor, n: nat)
    requires forall p: nat :: Reached(a, root, was, p) <==> Reached(b, root, bs, p)
    ensures LinkOutcome(a, root, was, usable, c, n) == LinkOutcome(b, root, bs, usable, c, n)
    decreases n
  {
    if n > 0 {
      LinkOutcomeSame(a, was, b, bs, root, usable, FrameAllocation.Next(usable, FOUR_KB, c).1, n - 1);
    }
  }

  lemma {:induction false} WindowOutcomeNow(start: Memory, mem: Memory, root: nat, ws: seq<nat>, usable: seq<Extent>,
                                            c: FrameAllocation.Cursor, v: Virt)
    requires Built(start, mem, root, ws) && AreWindows(ws)
    ensures WindowOutcome(mem, root, [], usable, c, v) == WindowOutcome(start, root, ws, usable, c, v)
    ensures Missing(mem, root, [], v) == Missing(start, root, ws, v)
  {
    forall p: nat ensures Reached(mem, root, [], p) <==> Reached(start, root, ws, p) {
      ReachedSame(start, mem, root, ws, p);
    }
    LinkOutcomeSame(mem, [], start, ws, root, usable, c, Missing(start, root, ws, v));
    GigabytesLeft(start, mem, root, ws, v);
  }

  /** One window more. */
  lemma {:induction false} PlanSnoc(mem: Memory, root: nat, usable: seq<Extent>, c: FrameAllocation.Cursor,
                                    ws: seq<nat>, v: nat)
    ensures PlanOutcome(mem, root, usable, c, ws + [v]) ==
      if PlanOutcome(mem, root, usable, c, ws) != Done then PlanOutcome(mem, root, usable, c, ws)
      else WindowOutcome(mem, root, ws, usable, Spent(mem, root, usable, c, ws), v)
    ensures Spent(mem, root, usable, c, ws + [v]) ==
      FrameAllocation.Skip(usable, FOUR_KB, Spent(mem, root, usable, c, ws), Missing(mem, root, ws, v))
  {
    assert (ws + [v])[..|ws|] == ws;
    FrameAllocation.SkipMore(usable, FOUR_KB, c, TablesFor(mem, root, ws), Missing(mem, root, ws, v));
  }

  /** A plan that fails early fails as a whole. */
  lemma {:induction false} PlanFails(mem: Memory, root: nat, usable: seq<Extent>, c: FrameAllocation.Cursor,
                                     a: seq<nat>, b: seq<nat>)
    requires PlanOutcome(mem, root, usable, c, a) != Done
    ensures PlanOutcome(mem, root, usable, c, a + b) == PlanOutcome(mem, root, usable, c, a)
    decreases |b|
  {
    if b == [] {
      assert a + b == a;
    } else {
      var init, v := b[..|b| - 1], b[|b| - 1];
      PlanFails(mem, root, usable, c, a, init);
      PlanSnoc(mem, root, usable, c, a + init, v);
      assert (a + init) + [v] == a + b;
    }
  }

  // --- when it works ---

  ghost predicate AllReached(mem: Memory, root: nat, ws: seq<nat>, frames: seq<nat>) {
    forall i :: 0 <= i < |frames| ==> Reached(mem, root, ws, frames[i])
  }

  lemma {:induction false} AllReachedCons(mem: Memory, root: nat, ws: seq<nat>, f: nat, rest: seq<nat>)
    ensures AllReached(mem, root, ws, [f] + rest) <==> Reached(mem, root, ws, f) && AllReached(mem, root, ws, rest)
  {
    var s := [f] + rest;
    assert s[0] == f && forall i :: 0 <= i < |rest| ==> rest[i] == s[i + 1];
    assert forall i :: 0 < i < |s| ==> s[i] == rest[i - 1];
  }

  /** Faults are exactly frames out of reach: linking faults if and only if one of the frames it comes to is one. */
  lemma {:induction false} LinkFaults(mem: Memory, root: nat, ws: seq<nat>, usable: seq<Extent>,
                                      c: FrameAllocation.Cursor, n: nat)
    ensures var s := FrameAllocation.Frames(usable, FOUR_KB, c, n);
      && (LinkOutcome(mem, root, ws, usable, c, n) == Fault <==> !AllReached(mem, root, ws, s))
      && (LinkOutcome(mem, root, ws, usable, c, n) == Done <==> |s| == n && AllReached(mem, root, ws, s))
    decreases n
  {
    if n > 0 {
      var (f, c') := FrameAllocation.Next(usable, FOUR_KB, c);
      if f.Some? {
        LinkFaults(mem, root, ws, usable, c', n - 1);
        AllReachedCons(mem, root, ws, f.value, FrameAllocation.Frames(usable, FOUR_KB, c', n - 1));
      }
    }
  }

  /** No window of the list is in a 1 GB page or above a level-1 table. */
  ghost predicate Clear(mem: Memory, root: nat, ws: seq<nat>) {
    forall i :: 0 <= i < |ws| ==> Mappable(mem, root, ws[i])
  }

  /** Without 1 GB pages in the way, what was reached stays reached, and what is covered is reached too. */
  lemma {:induction false} ReachGrows(mem: Memory, root: nat, ws: seq<nat>, p: nat)
    requires AreWindows(ws) && Clear(mem, root, ws) && PHYS_MEM_VIRT_ADDR + p < SPACE
    ensures Reached(mem, root, ws, p) <==> DirectMapped(mem, root, p) || Covered(PHYS_MEM_VIRT_ADDR + p, ws)
  {
    var w: Virt := PHYS_MEM_VIRT_ADDR + p;
    if Shares(w, ws, 3) {
      var i :| 0 <= i < |ws| && Top(ws[i], 3) == Top(w, 3);
      GigabyteShared(mem, root, ws[i], w);
    }
  }

  /** The allocator has a frame for every table needed, each reached by the direct map as it was or by the windows
      mapped before it is taken. */
  ghost predicate Supplied(mem: Memory, root: nat, usable: seq<Extent>, c: FrameAllocation.Cursor, ws: seq<nat>)
    decreases |ws|
  {
    ws == [] ||
    (var init := ws[..|ws| - 1];
     var n := Missing(mem, root, init, ws[|ws| - 1]);
     && Supplied(mem, root, usable, c, init)
     && InReach(mem, root, init, FrameAllocation.Frames(usable, FOUR_KB, Spent(mem, root, usable, c, init), n), n))
  }

  ghost predicate InReach(mem: Memory, root: nat, ws: seq<nat>, frames: seq<nat>, n: nat) {
    && |frames| == n
    && (forall i :: 0 <= i < n ==> PHYS_MEM_VIRT_ADDR + frames[i] < SPACE)
    && (forall i :: 0 <= i < n ==> DirectMapped(mem, root, frames[i]) || Covered(PHYS_MEM_VIRT_ADDR + frames[i], ws))
  }

  lemma {:induction false} LinksInReach(mem: Memory, root: nat, ws: seq<nat>, usable: seq<Extent>,
                                        c: FrameAllocation.Cursor, n: nat)
    requires AreWindows(ws) && Clear(mem, root, ws)
    ensures LinkOutcome(mem, root, ws, usable, c, n) == Done <==>
      InReach(mem, root, ws, FrameAllocation.Frames(usable, FOUR_KB, c, n), n)
  {
    var s := FrameAllocation.Frames(usable, FOUR_KB, c, n);
    LinkFaults(mem, root, ws, usable, c, n);
    forall i | 0 <= i < |s| && PHYS_MEM_VIRT_ADDR + s[i] < SPACE
      ensures Reached(mem, root, ws, s[i]) <==> DirectMapped(mem, root, s[i]) || Covered(PHYS_MEM_VIRT_ADDR + s[i], ws)
    {
      ReachGrows(mem, root, ws, s[i]);
    }
  }

  /** Boot: with no obstacle among the windows, the direct map is completed exactly if the allocator supplies it. */
  lemma {:induction false} SuppliedExactly(mem: Memory, root: nat, usable: seq<Extent>, c: FrameAllocation.Cursor,
                                           ws: seq<nat>)
    requires AreWindows(ws) && Clear(mem, root, ws)
    ensures PlanOutcome(mem, root, usable, c, ws) == Done <==> Supplied(mem, root, usable, c, ws)
    decreases |ws|
  {
    if ws != [] {
      var init, v := ws[..|ws| - 1], ws[|ws| - 1];
      SuppliedExactly(mem, root, usable, c, init);
      LinksInReach(mem, root, init, usable, Spent(mem, root, usable, c, init), Missing(mem, root, init, v));
    }
  }

  /** In particular it is completed if the first frames, as many as tables are needed, are in the direct map already. */
  lemma {:induction false} EnoughLowFrames(mem: Memory, root: nat, usable: seq<Extent>, c: FrameAllocation.Cursor,
                                           ws: seq<nat>)
    requires AreWindows(ws) && Clear(mem, root, ws)
    requires LowFrames(mem, root, FrameAllocation.Frames(usable, FOUR_KB, c, TablesFor(mem, root, ws)),
                       TablesFor(mem, root, ws))
    ensures Supplied(mem, root, usable, c, ws) && PlanOutcome(mem, root, usable, c, ws) == Done
    decreases |ws|
  {
    if ws != [] {
      var init, v := ws[..|ws| - 1], ws[|ws| - 1];
      var before, n := TablesFor(mem, root, init), Missing(mem, root, init, v);
      FrameAllocation.FramesSplit(usable, FOUR_KB, c, before, n);
      LowSplit(mem, root, FrameAllocation.Frames(usable, FOUR_KB, c, before),
        FrameAllocation.Frames(usable, FOUR_KB, FrameAllocation.Skip(usable, FOUR_KB, c, before), n), init, before, n);
      EnoughLowFrames(mem, root, usable, c, init);
    }
    SuppliedExactly(mem, root, usable, c, ws);
  }

  ghost predicate LowFrames(mem: Memory, root: nat, frames: seq<nat>, n: nat) {
    |frames| == n && forall i :: 0 <= i < n ==> DirectMapped(mem, root, frames[i])
  }

  lemma {:induction false} LowSplit(mem: Memory, root: nat, a: seq<nat>, b: seq<nat>, ws: seq<nat>, m: nat, n: nat)
    requires LowFrames(mem, root, a + b, m + n) && |a| == m
    ensures LowFrames(mem, root, a, m) && InReach(mem, root, ws, b, n)
  {
    assert forall i :: 0 <= i < m ==> (a + b)[i] == a[i];
    assert forall i :: 0 <= i < n ==> (a + b)[m + i] == b[i];
  }

  /** A 1 GB page that a window lies in is gone: all of it that no window covers is unmapped. */
  lemma {:induction false} GigabytePageLost(start: Memory, mem: Memory, root: nat, ws: seq<nat>, w: Virt)
    requires Built(start, mem, root, ws) && GigabytePage(start, root, w) && Shares(w, ws, 3) && !Covered(w, ws)
    ensures ToPhys(start, root, w).Some? && ToPhys(mem, root, w) == None
  {
    GigabyteSeen(start, root, w);
  }

  /** Nothing outside the windows changes exactly when they break no 1 GB page that reaches beyond them. */
  lemma {:induction false} NothingElseLost(start: Memory, mem: Memory, root: nat, ws: seq<nat>)
    requires Built(start, mem, root, ws)
    ensures (forall w: Virt :: !Covered(w, ws) ==> ToPhys(mem, root, w) == ToPhys(start, root, w)) <==>
      (forall w: Virt :: !Covered(w, ws) && GigabytePage(start, root, w) ==> !Shares(w, ws, 3))
  {
    forall w: Virt | !Covered(w, ws) && GigabytePage(start, root, w) && Shares(w, ws, 3)
      ensures ToPhys(mem, root, w) != ToPhys(start, root, w)
    {
      GigabytePageLost(start, mem, root, ws, w);
    }
  }
}
