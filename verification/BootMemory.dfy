/** From the firmware's memory map to frames: what the map's preparation guarantees for every frame handed out later. */
module BootMemory {
  import opened Extents
  import Align
  import M = MemoryMap
  import F = FrameAllocation

  /** The first `n` frames taken from the prepared map, starting at `first`. */
  function BootFrames(es: seq<M.Entry>, k: nat, start: nat, len: nat, first: nat, n: nat): seq<nat>
    requires k < |es| && es[k].Contains(start, len)
  {
    var usable := M.Usable(M.Prepared(es, k, start, len));
    F.Frames(usable, M.PAGE, F.Cursor(first, F.StartEntry(usable, M.PAGE, first, 0)), n)
  }

  lemma {:induction false} WithinAvoids(usable: seq<Extent>, start: nat, len: nat, p: nat)
    requires F.IsFrame(usable, M.PAGE, p) && M.Avoids(usable, start, len)
    ensures Disjoint(Extent(p, M.PAGE), Extent(start, len))
  {
  }

  /** Frames taken at boot never overlap each other or the kernel. */
  lemma {:induction false} FramesAvoidKernel(es: seq<M.Entry>, k: nat, start: nat, len: nat, first: nat, n: nat)
    requires Simple(M.Ranges(es)) && M.RamNonEmpty(es)
    requires k < |es| && es[k].Contains(start, len) && start % M.PAGE == 0 && len > 0
    requires first % M.PAGE == 0
    ensures var s := BootFrames(es, k, start, len, first, n);
      && F.Ascending(s, M.PAGE, first)
      && forall i :: 0 <= i < |s| ==> Disjoint(Extent(s[i], M.PAGE), Extent(start, len))
  {
    var usable := M.Usable(M.Prepared(es, k, start, len));
    M.PreparedIsUsable(es, k, start, len);
    assert F.WellFormed(usable, M.PAGE);
    F.StartIsGood(usable, M.PAGE, first);
    F.CallsListFrames(usable, M.PAGE, F.Cursor(first, F.StartEntry(usable, M.PAGE, first, 0)), n);
    var s := BootFrames(es, k, start, len, first, n);
    forall i | 0 <= i < |s| ensures Disjoint(Extent(s[i], M.PAGE), Extent(start, len)) {
      WithinAvoids(usable, start, len, s[i]);
    }
  }

  // --- frames over the end of RAM ---

  /** The aligned entry passes its end and is not empty, so its last page is only partly RAM. */
  predicate Overshoots(e: M.Entry) {
    e.kind == M.RAM && e.length >= M.PAGE && e.base % M.PAGE != 0 && M.PAGE - e.base % M.PAGE > e.length % M.PAGE
  }

  /** The page that its last bytes lie in. */
  function LastPage(e: M.Entry): nat
    requires Overshoots(e)
  {
    Align.AlignDown(e.End(), M.PAGE)
  }

  predicate Inside(p: nat, e: M.Entry) {
    e.base <= p && p + M.PAGE <= e.End()
  }

  ghost predicate InRam(es: seq<M.Entry>, p: nat) {
    exists i :: 0 <= i < |es| && es[i].kind == M.RAM && Inside(p, es[i])
  }

  /** Of the frames of an aligned entry exactly the last page of one that overshoots is not inside the entry. */
  lemma {:induction false} InsideExactly(e: M.Entry, p: nat)
    requires e.kind == M.RAM && p % M.PAGE == 0 && F.IsWithin(M.AlignRange(e.Range()), p, M.PAGE)
    ensures Inside(p, e) <==> !(Overshoots(e) && p == LastPage(e))
  {
    M.AlignedEnd(e);
  }

  lemma {:induction false} LastPageIsFrame(e: M.Entry)
    requires Overshoots(e)
    ensures LastPage(e) % M.PAGE == 0 && F.IsWithin(M.AlignRange(e.Range()), LastPage(e), M.PAGE)
    ensures e.base <= LastPage(e) < e.End() < LastPage(e) + M.PAGE
  {
    M.AlignedEnd(e);
  }

  /** Every frame of the map is taken after some number of calls. */
  lemma {:induction false} TakenAtLast(usable: seq<Extent>, c: F.Cursor, p: nat) returns (n: nat)
    requires F.Good(usable, M.PAGE, c) && F.IsFrame(usable, M.PAGE, p) && c.next <= p
    ensures p in F.Frames(usable, M.PAGE, c, n)
  {
    n := p + 2;
    F.CallsListFrames(usable, M.PAGE, c, n);
    var s := F.Frames(usable, M.PAGE, c, n);
    F.FramesFew(usable, M.PAGE, c, n);
    if |s| == n {
      AtLeastIndex(s, c.next, n - 1);
    }
  }

  lemma {:induction false} AtLeastIndex(s: seq<nat>, lo: nat, i: nat)
    requires F.Ascending(s, M.PAGE, lo) && i < |s|
    ensures s[i] >= i
  {
    if i > 0 {
      AtLeastIndex(s, lo, i - 1);
      assert s[i - 1] + M.PAGE <= s[i];
    }
  }

  /** The map that the frames come from, and the entries it was made of. */
  lemma {:induction false} PreparedFrom(es: seq<M.Entry>, k: nat, start: nat, len: nat, p: nat) returns (e: M.Entry)
    requires k < |es| && es[k].Contains(start, len)
    requires F.IsFrame(M.Usable(M.Prepared(es, k, start, len)), M.PAGE, p)
    ensures e in M.Split(es, k, start, len) && e.kind == M.RAM && p % M.PAGE == 0
    ensures F.IsWithin(M.AlignRange(e.Range()), p, M.PAGE)
  {
    var split := M.Split(es, k, start, len);
    var sorted := M.Sort(split);
    M.UsableAlign(sorted);
    var i :| 0 <= i < |M.Usable(M.AlignAll(sorted))| && F.IsWithin(M.Usable(M.AlignAll(sorted))[i], p, M.PAGE);
    M.UsableFrom(sorted, i);
    var j :| 0 <= j < |sorted| && sorted[j].kind == M.RAM && sorted[j].Range() == M.Usable(sorted)[i];
    e := sorted[j];
    M.SortIsSorted(split);
    assert e in multiset(sorted);
  }

  lemma {:induction false} PreparedHas(es: seq<M.Entry>, k: nat, start: nat, len: nat, e: M.Entry, p: nat)
    requires k < |es| && es[k].Contains(start, len) && e in M.Split(es, k, start, len) && e.kind == M.RAM
    requires p % M.PAGE == 0 && F.IsWithin(M.AlignRange(e.Range()), p, M.PAGE)
    ensures F.IsFrame(M.Usable(M.Prepared(es, k, start, len)), M.PAGE, p)
  {
    var split := M.Split(es, k, start, len);
    var sorted := M.Sort(split);
    M.SortIsSorted(split);
    assert e in multiset(split);
    assert e in sorted;
    var j :| 0 <= j < |sorted| && sorted[j] == e;
    M.UsableHas(sorted, j);
    var i :| 0 <= i < |M.Usable(sorted)| && M.Usable(sorted)[i] == e.Range();
    M.UsableAlign(sorted);
    assert M.Usable(M.AlignAll(sorted))[i] == M.AlignRange(e.Range());
  }

  /** The last page of an entry that overshoots lies in no RAM entry. */
  lemma {:induction false} LastPageOutside(split: seq<M.Entry>, e: M.Entry)
    requires Simple(M.Ranges(split)) && e in split && Overshoots(e)
    ensures !InRam(split, LastPage(e))
  {
    LastPageIsFrame(e);
    var p := LastPage(e);
    if InRam(split, p) {
      var i :| 0 <= i < |split| && split[i].kind == M.RAM && Inside(p, split[i]);
      var j :| 0 <= j < |split| && split[j] == e;
      M.RangesElements(split);
      assert Cover(M.Ranges(split), p) <= 1;
      CoverTwo(M.Ranges(split), if i < j then i else j, if i < j then j else i, p);
    }
  }

  /** Every frame ever taken lies inside a RAM entry of the split map. */
  ghost predicate OnlyRam(es: seq<M.Entry>, k: nat, start: nat, len: nat, first: nat)
    requires k < |es| && es[k].Contains(start, len)
  {
    forall n: nat, p :: p in BootFrames(es, k, start, len, first, n) ==> InRam(M.Split(es, k, start, len), p)
  }

  /** That is so exactly when no RAM entry overshoots into a page that is still to be handed out. */
  lemma {:induction false} OnlyRamExactly(es: seq<M.Entry>, k: nat, start: nat, len: nat, first: nat)
    requires Simple(M.Ranges(es)) && M.RamNonEmpty(es)
    requires k < |es| && es[k].Contains(start, len) && start % M.PAGE == 0
    requires first % M.PAGE == 0
    ensures OnlyRam(es, k, start, len, first) <==>
      forall e :: e in M.Split(es, k, start, len) && Overshoots(e) ==> LastPage(e) < first
  {
    var split := M.Split(es, k, start, len);
    forall e | e in split && Overshoots(e) && first <= LastPage(e) ensures !OnlyRam(es, k, start, len, first) {
      var n := OvershootTaken(es, k, start, len, first, e);
      LastPageOutside(split, e);
    }
    forall n: nat, p | p in BootFrames(es, k, start, len, first, n) && !InRam(split, p)
      ensures exists e :: e in split && Overshoots(e) && first <= LastPage(e)
    {
      var e := FrameFrom(es, k, start, len, first, n, p);
      assert e in split && Overshoots(e) && first <= LastPage(e);
    }
  }

  lemma {:induction false} GoodStart(es: seq<M.Entry>, k: nat, start: nat, len: nat, first: nat)
    requires Simple(M.Ranges(es)) && M.RamNonEmpty(es)
    requires k < |es| && es[k].Contains(start, len) && start % M.PAGE == 0
    requires first % M.PAGE == 0
    ensures var usable := M.Usable(M.Prepared(es, k, start, len));
      F.Good(usable, M.PAGE, F.Cursor(first, F.StartEntry(usable, M.PAGE, first, 0)))
    ensures Simple(M.Ranges(M.Split(es, k, start, len)))
  {
    var usable := M.Usable(M.Prepared(es, k, start, len));
    M.PreparedIsUsable(es, k, start, len);
    assert F.WellFormed(usable, M.PAGE);
    F.StartIsGood(usable, M.PAGE, first);
    forall x: int ensures Cover(M.Ranges(M.Split(es, k, start, len)), x) <= 1 {
      M.SplitCovers(es, k, start, len, x);
      assert Cover(M.Ranges(es), x) <= 1;
    }
  }

  lemma {:induction false} OvershootTaken(es: seq<M.Entry>, k: nat, start: nat, len: nat, first: nat, e: M.Entry)
    returns (n: nat)
    requires Simple(M.Ranges(es)) && M.RamNonEmpty(es)
    requires k < |es| && es[k].Contains(start, len) && start % M.PAGE == 0
    requires first % M.PAGE == 0 && e in M.Split(es, k, start, len) && Overshoots(e) && first <= LastPage(e)
    ensures LastPage(e) in BootFrames(es, k, start, len, first, n)
    ensures Simple(M.Ranges(M.Split(es, k, start, len)))
  {
    var usable := M.Usable(M.Prepared(es, k, start, len));
    GoodStart(es, k, start, len, first);
    LastPageIsFrame(e);
    PreparedHas(es, k, start, len, e, LastPage(e));
    n := TakenAtLast(usable, F.Cursor(first, F.StartEntry(usable, M.PAGE, first, 0)), LastPage(e));
  }

  /** A frame outside RAM is the last page of the entry it came from. */
  lemma {:induction false} FrameFrom(es: seq<M.Entry>, k: nat, start: nat, len: nat, first: nat, n: nat, p: nat)
    returns (e: M.Entry)
    requires Simple(M.Ranges(es)) && M.RamNonEmpty(es)
    requires k < |es| && es[k].Contains(start, len) && start % M.PAGE == 0
    requires first % M.PAGE == 0 && p in BootFrames(es, k, start, len, first, n)
    requires !InRam(M.Split(es, k, start, len), p)
    ensures e in M.Split(es, k, start, len) && Overshoots(e) && p == LastPage(e) && first <= p
  {
    var usable := M.Usable(M.Prepared(es, k, start, len));
    var c := F.Cursor(first, F.StartEntry(usable, M.PAGE, first, 0));
    GoodStart(es, k, start, len, first);
    F.CallsListFrames(usable, M.PAGE, c, n);
    var s := F.Frames(usable, M.PAGE, c, n);
    var i :| 0 <= i < |s| && s[i] == p;
    e := PreparedFrom(es, k, start, len, p);
    InsideExactly(e, p);
  }

  // --- every page of RAM ---

  /** Alignment keeps every whole page of an entry. */
  lemma {:induction false} PagesSurvive(e: M.Entry, p: nat)
    requires e.kind == M.RAM && p % M.PAGE == 0 && Inside(p, e)
    ensures F.IsWithin(M.AlignRange(e.Range()), p, M.PAGE)
  {
    M.AlignedEnd(e);
    Align.AlignedBelow(Align.AlignUp(e.base, M.PAGE), p, M.PAGE);
    Align.AlignedBelow(p + M.PAGE, Align.AlignDown(e.End(), M.PAGE), M.PAGE);
  }

  /** A page that boot may hand out: inside a RAM entry, or the last of one that overshoots. */
  ghost predicate Offered(es: seq<M.Entry>, k: nat, start: nat, len: nat, p: nat)
    requires k < |es| && es[k].Contains(start, len)
  {
    var split := M.Split(es, k, start, len);
    p % M.PAGE == 0 && (InRam(split, p) || exists e :: e in split && Overshoots(e) && p == LastPage(e))
  }

  lemma {:induction false} OfferedIsFrame(es: seq<M.Entry>, k: nat, start: nat, len: nat, p: nat)
    requires k < |es| && es[k].Contains(start, len)
    ensures Offered(es, k, start, len, p) <==> F.IsFrame(M.Usable(M.Prepared(es, k, start, len)), M.PAGE, p)
  {
    var split := M.Split(es, k, start, len);
    if Offered(es, k, start, len, p) {
      if InRam(split, p) {
        var i :| 0 <= i < |split| && split[i].kind == M.RAM && Inside(p, split[i]);
        PagesSurvive(split[i], p);
        PreparedHas(es, k, start, len, split[i], p);
      } else {
        var e :| e in split && Overshoots(e) && p == LastPage(e);
        LastPageIsFrame(e);
        PreparedHas(es, k, start, len, e, p);
      }
    }
    if F.IsFrame(M.Usable(M.Prepared(es, k, start, len)), M.PAGE, p) {
      var e := PreparedFrom(es, k, start, len, p);
      InsideExactly(e, p);
      if Inside(p, e) {
        var i :| 0 <= i < |split| && split[i] == e;
      }
    }
  }

  /** Sooner or later boot hands out exactly the pages from `first` on that it may: no page of RAM is left out. */
  lemma {:induction false} FramesExactly(es: seq<M.Entry>, k: nat, start: nat, len: nat, first: nat, p: nat)
    requires Simple(M.Ranges(es)) && M.RamNonEmpty(es)
    requires k < |es| && es[k].Contains(start, len) && start % M.PAGE == 0 && first % M.PAGE == 0
    ensures (exists n: nat :: p in BootFrames(es, k, start, len, first, n)) <==>
      first <= p && Offered(es, k, start, len, p)
  {
    var usable := M.Usable(M.Prepared(es, k, start, len));
    var c := F.Cursor(first, F.StartEntry(usable, M.PAGE, first, 0));
    GoodStart(es, k, start, len, first);
    OfferedIsFrame(es, k, start, len, p);
    if first <= p && Offered(es, k, start, len, p) {
      var n := TakenAtLast(usable, c, p);
      assert p in BootFrames(es, k, start, len, first, n);
    }
    forall n: nat | p in BootFrames(es, k, start, len, first, n) ensures first <= p && Offered(es, k, start, len, p) {
      F.CallsListFrames(usable, M.PAGE, c, n);
      var s := F.Frames(usable, M.PAGE, c, n);
      var i :| 0 <= i < |s| && s[i] == p;
    }
  }

  /** A RAM entry from 0x1100 to 0x2300 with a reserved one behind it: the frame at 0x2000 is handed out and reaches
      into the reserved entry. */
  lemma {:induction false} OvershootWitness()
    ensures var es := [M.Entry(0x1100, 0x1200, M.RAM, 1), M.Entry(0x2300, 0x1000, M.RESERVED, 1),
                       M.Entry(0x10_0000, 0x10_0000, M.RAM, 1)];
      && Simple(M.Ranges(es)) && M.RamNonEmpty(es) && es[2].Contains(0x10_0000, 0x1000)
      && (exists n: nat :: 0x2000 in BootFrames(es, 2, 0x10_0000, 0x1000, 0, n))
      && !Disjoint(Extent(0x2000, M.PAGE), es[1].Range())
  {
    var es := [M.Entry(0x1100, 0x1200, M.RAM, 1), M.Entry(0x2300, 0x1000, M.RESERVED, 1),
               M.Entry(0x10_0000, 0x10_0000, M.RAM, 1)];
    ThreeApart(es);
    assert es[0] == M.Split(es, 2, 0x10_0000, 0x1000)[0];
    M.AlignedEnd(es[0]);
    assert Overshoots(es[0]) && LastPage(es[0]) == 0x2000;
    var n := OvershootTaken(es, 2, 0x10_0000, 0x1000, 0, es[0]);
    assert Extent(0x2000, M.PAGE).Has(0x2300) && es[1].Range().Has(0x2300);
  }

  lemma {:induction false} ThreeApart(es: seq<M.Entry>)
    requires |es| == 3 && es[0].End() <= es[1].base && es[1].End() <= es[2].base
    ensures Simple(M.Ranges(es))
  {
    M.RangesElements(es);
    assert PairwiseDisjoint(M.Ranges(es));
    CoverIsDisjointness(M.Ranges(es));
  }
}
