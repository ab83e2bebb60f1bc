/** The boot-time frame allocator: takes frames in address order from the usable entries of the memory map. */
module FrameAllocation {
  import Align
  import opened Extents
  import opened Basics

  /** Where the allocator stands: the next address to try and the entry to start scanning at. */
  datatype Cursor = Cursor(next: nat, entry: nat)

  predicate IsWithin(e: Extent, base: nat, length: nat) {
    e.start <= base && base + length <= e.End()
  }

  /** One call, scanning from entry `i`. */
  function Scan(usable: seq<Extent>, frame: nat, i: nat, c: Cursor): (r: (Option<nat>, Cursor))
    ensures c.next <= r.1.next
    ensures r.0.Some? ==> c.next <= r.0.value && r.1.next == r.0.value + frame
    decreases |usable| - i
  {
    if i >= |usable| then (None, c)
    else
      var e := usable[i];
      var c1 := if c.next < e.start then Cursor(e.start, i) else c;
      if IsWithin(e, c1.next, frame) then (Some(c1.next), Cursor(c1.next + frame, c1.entry))
      else Scan(usable, frame, i + 1, c1)
  }

  function Next(usable: seq<Extent>, frame: nat, c: Cursor): (Option<nat>, Cursor) {
    Scan(usable, frame, c.entry, c)
  }

  /** The first entry at or after `i` that holds a whole frame at `start`; 0 if none does. */
  function StartEntry(usable: seq<Extent>, frame: nat, start: nat, i: nat): (k: nat)
    requires i <= |usable|
    ensures k == 0 || (k < |usable| && IsWithin(usable[k], start, frame))
    decreases |usable| - i
  {
    if i == |usable| then 0
    else if IsWithin(usable[i], start, frame) then i
    else StartEntry(usable, frame, start, i + 1)
  }

  class FrameAllocator {
    const usable: seq<Extent>
    const frameSize: nat
    var cursor: Cursor

    constructor (usable: seq<Extent>, start: nat, frameSize: nat)
      ensures this.usable == usable && this.frameSize == frameSize
      ensures cursor == Cursor(start, StartEntry(usable, frameSize, start, 0))
    {
      this.usable := usable;
      this.frameSize := frameSize;
      var entry := 0;
      for i := 0 to |usable|
        invariant entry == 0 && StartEntry(usable, frameSize, start, 0) == StartEntry(usable, frameSize, start, i)
      {
        if IsWithin(usable[i], start, frameSize) {
          entry := i;
          break;
        }
      }
      cursor := Cursor(start, entry);
    }

    method GetNextFrame() returns (result: Option<nat>)
      modifies this
      ensures (result, cursor) == Next(usable, frameSize, old(cursor))
    {
      var i := cursor.entry;
      while i < |usable|
        invariant Scan(usable, frameSize, i, cursor) == Next(usable, frameSize, old(cursor))
        decreases |usable| - i
      {
        var e := usable[i];
        if cursor.next < e.start {
          cursor := Cursor(e.start, i);
        }
        if IsWithin(e, cursor.next, frameSize) {
          result := Some(cursor.next);
          cursor := cursor.(next := cursor.next + frameSize);
          return;
        }
        i := i + 1;
      }
      result := None;
    }
  }

  // --- the frames of a map ---

  /** A whole aligned frame inside one usable entry. */
  ghost predicate IsFrame(usable: seq<Extent>, frame: nat, p: nat) {
    frame > 0 && p % frame == 0 && exists i :: 0 <= i < |usable| && IsWithin(usable[i], p, frame)
  }

  /** Entries ascending without overlap and starting on frame boundaries. */
  ghost predicate WellFormed(usable: seq<Extent>, frame: nat) {
    && frame > 0
    && (forall i, j :: 0 <= i < j < |usable| ==> usable[i].End() <= usable[j].start)
    && (forall i :: 0 <= i < |usable| ==> usable[i].start % frame == 0)
  }

  /** The scan may skip the entries before the cursor's: they end at or before the next address. */
  ghost predicate Good(usable: seq<Extent>, frame: nat, c: Cursor) {
    && WellFormed(usable, frame) && c.next % frame == 0 && c.entry <= |usable|
    && forall j :: 0 <= j < c.entry ==> usable[j].End() <= c.next
  }

  /** No frame is left. */
  ghost predicate Exhausted(usable: seq<Extent>, frame: nat, c: Cursor) {
    forall p :: c.next <= p ==> !IsFrame(usable, frame, p)
  }

  ghost predicate NoFrames(usable: seq<Extent>, frame: nat, lo: nat, hi: nat) {
    forall p :: lo <= p < hi ==> !IsFrame(usable, frame, p)
  }

  lemma {:induction false} StartIsGood(usable: seq<Extent>, frame: nat, start: nat)
    requires WellFormed(usable, frame) && start % frame == 0
    ensures Good(usable, frame, Cursor(start, StartEntry(usable, frame, start, 0)))
  {
  }

  lemma {:induction false} NextAligned(a: nat, frame: nat)
    requires frame > 0 && a % frame == 0
    ensures (a + frame) % frame == 0
  {
    Align.ShiftLemma(a, frame);
  }

  /** One scan finds the least frame at or above the cursor, or there is none. */
  lemma {:induction false} ScanFindsLeast(usable: seq<Extent>, frame: nat, i: nat, c: Cursor)
    requires Good(usable, frame, c) && c.entry <= i
    requires forall j :: 0 <= j < i && j < |usable| ==> usable[j].End() < c.next + frame
    ensures var (r, c') := Scan(usable, frame, i, c);
      && Good(usable, frame, c')
      && (r.Some? ==> IsFrame(usable, frame, r.value) && NoFrames(usable, frame, c.next, r.value))
      && (r.None? ==> Exhausted(usable, frame, c) && Exhausted(usable, frame, c'))
    decreases |usable| - i
  {
    if i < |usable| {
      var e := usable[i];
      var c1 := if c.next < e.start then Cursor(e.start, i) else c;
      assert Good(usable, frame, c1);
      forall p, k | c.next <= p && 0 <= k < |usable| && IsWithin(usable[k], p, frame) ensures c1.next <= p && k >= i {
        if i < k {
          assert usable[i].End() <= usable[k].start;
        }
      }
      if IsWithin(e, c1.next, frame) {
        NextAligned(c1.next, frame);
        assert IsFrame(usable, frame, c1.next);
      } else {
        ScanFindsLeast(usable, frame, i + 1, c1);
      }
    }
  }

  /** A call returns the least remaining frame, and none exactly when no frame remains; it keeps the cursor good. */
  lemma {:induction false} NextFindsLeast(usable: seq<Extent>, frame: nat, c: Cursor)
    requires Good(usable, frame, c)
    ensures var (r, c') := Next(usable, frame, c);
      && Good(usable, frame, c') && c.next <= c'.next
      && (r.Some? ==> IsFrame(usable, frame, r.value) && NoFrames(usable, frame, c.next, r.value)
                      && c.next <= r.value && c'.next == r.value + frame)
      && (r.None? ==> Exhausted(usable, frame, c) && Exhausted(usable, frame, c'))
  {
    ScanFindsLeast(usable, frame, c.entry, c);
  }

  /** The frames the first `k` calls return, stopping at the first failure. */
  function Frames(usable: seq<Extent>, frame: nat, c: Cursor, k: nat): seq<nat>
    decreases k
  {
    if k == 0 then []
    else
      var (r, c') := Next(usable, frame, c);
      if r.None? then [] else [r.value] + Frames(usable, frame, c', k - 1)
  }

  ghost predicate Ascending(s: seq<nat>, frame: nat, lo: nat) {
    && (forall i :: 0 <= i < |s| ==> lo <= s[i])
    && (forall i, j :: 0 <= i < j < |s| ==> s[i] + frame <= s[j])
  }

  lemma {:induction false} AscendCons(v: nat, s: seq<nat>, frame: nat, lo: nat)
    requires lo <= v && Ascending(s, frame, v + frame)
    ensures Ascending([v] + s, frame, lo)
  {
  }

  /** On any map at all, later frames lie strictly above earlier ones and do not overlap them. */
  lemma {:induction false} FramesAscend(usable: seq<Extent>, frame: nat, c: Cursor, k: nat)
    ensures Ascending(Frames(usable, frame, c, k), frame, c.next)
    decreases k
  {
    if k > 0 {
      var (r, c') := Next(usable, frame, c);
      if r.Some? {
        FramesAscend(usable, frame, c', k - 1);
        AscendCons(r.value, Frames(usable, frame, c', k - 1), frame, c.next);
      }
    }
  }

  /** Every frame at or above the cursor is among the first `k` results, unless it lies above them all. */
  ghost predicate Complete(usable: seq<Extent>, frame: nat, c: Cursor, k: nat) {
    var s := Frames(usable, frame, c, k);
    forall p: nat :: IsFrame(usable, frame, p) && c.next <= p && (|s| < k || (s != [] && p <= s[|s| - 1])) ==> p in s
  }

  lemma {:induction false} CompleteStep(usable: seq<Extent>, frame: nat, c: Cursor, k: nat)
    requires Good(usable, frame, c) && k > 0 && Next(usable, frame, c).0.Some?
    requires Complete(usable, frame, Next(usable, frame, c).1, k - 1)
    ensures Complete(usable, frame, c, k)
  {
    NextFindsLeast(usable, frame, c);
    var (r, c') := Next(usable, frame, c);
    var s, rest := Frames(usable, frame, c, k), Frames(usable, frame, c', k - 1);
    assert s == [r.value] + rest;
    forall p: nat | IsFrame(usable, frame, p) && c.next <= p && (|s| < k || p <= s[|s| - 1]) ensures p in s {
      if p < r.value + frame {
        FrameGap(r.value, p, frame);
        assert s[0] == r.value;
      } else if rest != [] || |s| < k {
        assert p in rest;
      }
    }
  }

  ghost predicate AllFrames(usable: seq<Extent>, frame: nat, s: seq<nat>) {
    forall i :: 0 <= i < |s| ==> IsFrame(usable, frame, s[i])
  }

  /** Over any number of calls on a well-formed map the allocator lists the frames from its start upwards: in strictly
      ascending order, only frames, and none left out below the last one, or at all once a call has failed. */
  lemma {:induction false} CallsListFrames(usable: seq<Extent>, frame: nat, c: Cursor, k: nat)
    requires Good(usable, frame, c)
    ensures Ascending(Frames(usable, frame, c, k), frame, c.next)
    ensures AllFrames(usable, frame, Frames(usable, frame, c, k))
    ensures Complete(usable, frame, c, k)
  {
    FramesAscend(usable, frame, c, k);
    FramesAreFrames(usable, frame, c, k);
    FramesComplete(usable, frame, c, k);
  }

  lemma {:induction false} FramesAreFrames(usable: seq<Extent>, frame: nat, c: Cursor, k: nat)
    requires Good(usable, frame, c)
    ensures AllFrames(usable, frame, Frames(usable, frame, c, k))
    decreases k
  {
    if k > 0 {
      NextFindsLeast(usable, frame, c);
      var (r, c') := Next(usable, frame, c);
      if r.Some? {
        FramesAreFrames(usable, frame, c', k - 1);
      }
    }
  }

  lemma {:induction false} FramesFew(usable: seq<Extent>, frame: nat, c: Cursor, k: nat)
    ensures |Frames(usable, frame, c, k)| <= k
    decreases k
  {
    if k > 0 {
      FramesFew(usable, frame, Next(usable, frame, c).1, k - 1);
    }
  }

  lemma {:induction false} FramesComplete(usable: seq<Extent>, frame: nat, c: Cursor, k: nat)
    requires Good(usable, frame, c)
    ensures Complete(usable, frame, c, k)
    decreases k
  {
    if k > 0 {
      NextFindsLeast(usable, frame, c);
      var (r, c') := Next(usable, frame, c);
      if r.Some? {
        FramesComplete(usable, frame, c', k - 1);
        CompleteStep(usable, frame, c, k);
      }
    }
  }

  lemma {:induction false} FrameGap(a: nat, p: nat, frame: nat)
    requires frame > 0 && a % frame == 0 && p % frame == 0 && a <= p < a + frame
    ensures p == a
  {
    Align.AlignedBelow(p, a, frame);
  }

  /** The cursor after `k` calls, whatever they return. */
  function Skip(usable: seq<Extent>, frame: nat, c: Cursor, k: nat): Cursor
    decreases k
  {
    if k == 0 then c else Skip(usable, frame, Next(usable, frame, c).1, k - 1)
  }

  lemma {:induction false} SkipMore(usable: seq<Extent>, frame: nat, c: Cursor, a: nat, b: nat)
    ensures Skip(usable, frame, c, a + b) == Skip(usable, frame, Skip(usable, frame, c, a), b)
    decreases a
  {
    if a > 0 {
      SkipMore(usable, frame, Next(usable, frame, c).1, a - 1, b);
    }
  }

  /** The frames of `a + b` calls, if the first `a` succeed. */
  lemma {:induction false} FramesSplit(usable: seq<Extent>, frame: nat, c: Cursor, a: nat, b: nat)
    requires |Frames(usable, frame, c, a + b)| == a + b
    ensures |Frames(usable, frame, c, a)| == a
    ensures Frames(usable, frame, c, a + b)
         == Frames(usable, frame, c, a) + Frames(usable, frame, Skip(usable, frame, c, a), b)
    decreases a
  {
    if a > 0 {
      FramesSplit(usable, frame, Next(usable, frame, c).1, a - 1, b);
    }
  }

  /** Once a call has failed, every later call fails too, and no frames come of any number of them. */
  lemma {:induction false} NoneForever(usable: seq<Extent>, frame: nat, c: Cursor, k: nat)
    requires Good(usable, frame, c) && Next(usable, frame, c).0.None?
    ensures Next(usable, frame, Skip(usable, frame, c, k)).0.None?
    ensures Frames(usable, frame, Skip(usable, frame, c, k), k) == []
    decreases k
  {
    NextFindsLeast(usable, frame, c);
    var c' := Next(usable, frame, c).1;
    NextFindsLeast(usable, frame, c');
    if k > 0 {
      NoneForever(usable, frame, c', k - 1);
    }
  }
}
