/** Four-level page tables (section 4.5 of the Intel SDM Vol. 3A) in physical memory, the software walk over them, and
    what writing one entry does to every translation. */
module PageTable {
  import opened Basics
  import Align

  const SPACE: nat := 0x1_0000_0000_0000
  const PHYS_MEM_VIRT_ADDR: nat := 0x100_0000_0000
  const TWO_MB: nat := 0x20_0000
  const FOUR_KB: nat := 0x1000
  const ENTRIES: nat := 512

  // PRESENT | WRITABLE, and the same with HUGE
  const TABLE_FLAGS: nat := 3
  const HUGE_FLAGS: nat := 131

  type Virt = v: nat | v < SPACE

  /** An entry split into its masked address and its flag bits. */
  datatype Entry = Entry(address: nat, flags: nat)

  const EMPTY: Entry := Entry(0, 0)

  /** Physical memory by frame address: 512 entries a frame; a frame never written reads as empty entries. */
  type Memory = map<nat, seq<Entry>>

  function Cleared(): (r: seq<Entry>)
    ensures |r| == ENTRIES && forall i :: 0 <= i < ENTRIES ==> r[i] == EMPTY
  {
    seq(ENTRIES, _ => EMPTY)
  }

  function FrameAt(mem: Memory, t: nat): (r: seq<Entry>)
    ensures |r| == ENTRIES
  {
    if t in mem && |mem[t]| == ENTRIES then mem[t] else Cleared()
  }

  function Write(mem: Memory, t: nat, i: nat, e: Entry): Memory
    requires i < ENTRIES
  {
    mem[t := FrameAt(mem, t)[i := e]]
  }

  // --- raw entries ---

  const WORD: nat := 0x1_0000_0000_0000_0000
  const ADDRESS_LIMIT: nat := 0x10_0000_0000_0000

  /** Addresses occupy bits 12 to 51 of an entry word, flags all others. */
  predicate WellFormedEntry(e: Entry) {
    && e.address % FOUR_KB == 0 && e.address < ADDRESS_LIMIT
    && e.flags < WORD && e.flags % ADDRESS_LIMIT < FOUR_KB
  }

  /** The word written for an entry: the bits of address and flags are disjoint, so their union is their sum. */
  function EncodeEntry(e: Entry): nat {
    e.address + e.flags
  }

  /** The two masks applied to a word: bits 12 to 51, and the rest. */
  function DecodeEntry(word: nat): Entry {
    var address := word / FOUR_KB % 0x100_0000_0000 * FOUR_KB;
    if word < address then EMPTY else Entry(address, word - address)
  }

  /** Reading an entry back undoes writing it, and the word is zero exactly for an entry that is not mapped. */
  lemma {:induction false} EntryRoundTrip(e: Entry)
    requires WellFormedEntry(e)
    ensures EncodeEntry(e) < WORD && DecodeEntry(EncodeEntry(e)) == e
    ensures EncodeEntry(e) == 0 <==> !IsMapped(e)
  {
    var high, low, page := e.flags / ADDRESS_LIMIT, e.flags % ADDRESS_LIMIT, e.address / FOUR_KB;
    assert EncodeEntry(e) == high * ADDRESS_LIMIT + page * FOUR_KB + low;
    MaskedAddress(high, page, low);
  }

  lemma {:induction false} MaskedAddress(high: nat, page: nat, low: nat)
    requires page < 0x100_0000_0000 && low < FOUR_KB
    ensures (high * ADDRESS_LIMIT + page * FOUR_KB + low) / FOUR_KB % 0x100_0000_0000 == page
  {
    assert (high * ADDRESS_LIMIT + page * FOUR_KB + low) / FOUR_KB == high * 0x100_0000_0000 + page;
  }

  // --- levels and indices ---

  /** All index choices from level 4 down to `l`: addresses with equal `Top` use the same entries down to that level. */
  function Top(v: nat, l: nat): nat
    requires 1 <= l <= 5
  {
    if l == 1 then v / 0x1000 else Top(v, l - 1) / 512
  }

  function Index(v: nat, l: nat): (i: nat)
    requires 1 <= l <= 4
    ensures i < ENTRIES
  {
    Top(v, l) % 512
  }

  /** The same index as a quotient. */
  lemma {:induction false} IndexQuotient(v: nat)
    ensures Index(v, 1) == (v / 0x1000) % 512 && Index(v, 2) == (v / 0x20_0000) % 512
    ensures Index(v, 3) == (v / 0x4000_0000) % 512 && Index(v, 4) == (v / 0x80_0000_0000) % 512
  {
    QuotientOfPages(v);
    QuotientOfHugePages(v);
    QuotientOfGigabytes(v);
  }

  lemma {:induction false} QuotientOfPages(v: nat)
    ensures v / 0x1000 / 512 == v / 0x20_0000
  {
  }

  lemma {:induction false} QuotientOfHugePages(v: nat)
    ensures v / 0x20_0000 / 512 == v / 0x4000_0000
  {
  }

  lemma {:induction false} QuotientOfGigabytes(v: nat)
    ensures v / 0x4000_0000 / 512 == v / 0x80_0000_0000
  {
  }

  /** A 64-bit shift to the left loses what passes bit 63. */
  function ShiftLeft(v: nat, factor: nat): nat {
    v * factor % WORD
  }

  /** The source selects an index by shifting left past the bits above it and then right by 55; the top sixteen bits of
      an address never matter. */
  lemma {:induction false} IndexByShifts(v: nat)
    requires v < WORD
    ensures ShiftLeft(v, 0x1_0000) / 0x80_0000_0000_0000 == Index(v, 4)
    ensures ShiftLeft(v, 0x200_0000) / 0x80_0000_0000_0000 == Index(v, 3)
    ensures ShiftLeft(v, 0x4_0000_0000) / 0x80_0000_0000_0000 == Index(v, 2)
    ensures ShiftLeft(v, 0x800_0000_0000) / 0x80_0000_0000_0000 == Index(v, 1)
  {
    IndexQuotient(v);
    ShiftOut4(v);
    ShiftOut3(v);
    ShiftOut2(v);
    ShiftOut1(v);
  }

  lemma {:induction false} ShiftOut4(v: nat)
    ensures ShiftLeft(v, 0x1_0000) / 0x80_0000_0000_0000 == v / 0x80_0000_0000 % 512
  {
    var high, rest := v / 0x1_0000_0000_0000, v % 0x1_0000_0000_0000;
    var q, r := rest / 0x80_0000_0000, rest % 0x80_0000_0000;
    Align.DivUnique(v * 0x1_0000, WORD, high, rest * 0x1_0000);
    Align.DivUnique(rest * 0x1_0000, 0x80_0000_0000_0000, q, r * 0x1_0000);
    Align.DivUnique(v, 0x80_0000_0000, high * 512 + q, r);
    Align.DivUnique(high * 512 + q, 512, high, q);
  }

  lemma {:induction false} ShiftOut3(v: nat)
    ensures ShiftLeft(v, 0x200_0000) / 0x80_0000_0000_0000 == v / 0x4000_0000 % 512
  {
    var high, rest := v / 0x80_0000_0000, v % 0x80_0000_0000;
    var q, r := rest / 0x4000_0000, rest % 0x4000_0000;
    Align.DivUnique(v * 0x200_0000, WORD, high, rest * 0x200_0000);
    Align.DivUnique(rest * 0x200_0000, 0x80_0000_0000_0000, q, r * 0x200_0000);
    Align.DivUnique(v, 0x4000_0000, high * 512 + q, r);
    Align.DivUnique(high * 512 + q, 512, high, q);
  }

  lemma {:induction false} ShiftOut2(v: nat)
    ensures ShiftLeft(v, 0x4_0000_0000) / 0x80_0000_0000_0000 == v / 0x20_0000 % 512
  {
    var high, rest := v / 0x4000_0000, v % 0x4000_0000;
    var q, r := rest / 0x20_0000, rest % 0x20_0000;
    Align.DivUnique(v * 0x4_0000_0000, WORD, high, rest * 0x4_0000_0000);
    Align.DivUnique(rest * 0x4_0000_0000, 0x80_0000_0000_0000, q, r * 0x4_0000_0000);
    Align.DivUnique(v, 0x20_0000, high * 512 + q, r);
    Align.DivUnique(high * 512 + q, 512, high, q);
  }

  lemma {:induction false} ShiftOut1(v: nat)
    ensures ShiftLeft(v, 0x800_0000_0000) / 0x80_0000_0000_0000 == v / 0x1000 % 512
  {
    var high, rest := v / 0x20_0000, v % 0x20_0000;
    var q, r := rest / 0x1000, rest % 0x1000;
    Align.DivUnique(v * 0x800_0000_0000, WORD, high, rest * 0x800_0000_0000);
    Align.DivUnique(rest * 0x800_0000_0000, 0x80_0000_0000_0000, q, r * 0x800_0000_0000);
    Align.DivUnique(v, 0x1000, high * 512 + q, r);
    Align.DivUnique(high * 512 + q, 512, high, q);
  }

  /** The offset below a leaf of level `l`; anything but levels 3 and 2 uses 12 bits. */
  function Offset(v: nat, l: nat): nat {
    if l == 3 then v % 0x4000_0000 else if l == 2 then v % 0x20_0000 else v % 0x1000
  }

  /** The source cuts the offset out by shifting left and right again. */
  lemma {:induction false} OffsetByShifts(v: nat)
    ensures ShiftLeft(v, 0x4_0000_0000) / 0x4_0000_0000 == Offset(v, 3)
    ensures ShiftLeft(v, 0x800_0000_0000) / 0x800_0000_0000 == Offset(v, 2)
    ensures ShiftLeft(v, 0x10_0000_0000_0000) / 0x10_0000_0000_0000 == Offset(v, 1)
  {
    Cut3(v);
    Cut2(v);
    Cut1(v);
  }

  lemma {:induction false} Cut3(v: nat)
    ensures ShiftLeft(v, 0x4_0000_0000) / 0x4_0000_0000 == v % 0x4000_0000
  {
    var high, rest := v / 0x4000_0000, v % 0x4000_0000;
    Align.DivUnique(v * 0x4_0000_0000, WORD, high, rest * 0x4_0000_0000);
    Align.DivUnique(rest * 0x4_0000_0000, 0x4_0000_0000, rest, 0);
  }

  lemma {:induction false} Cut2(v: nat)
    ensures ShiftLeft(v, 0x800_0000_0000) / 0x800_0000_0000 == v % 0x20_0000
  {
    var high, rest := v / 0x20_0000, v % 0x20_0000;
    Align.DivUnique(v * 0x800_0000_0000, WORD, high, rest * 0x800_0000_0000);
    Align.DivUnique(rest * 0x800_0000_0000, 0x800_0000_0000, rest, 0);
  }

  lemma {:induction false} Cut1(v: nat)
    ensures ShiftLeft(v, 0x10_0000_0000_0000) / 0x10_0000_0000_0000 == v % 0x1000
  {
    var high, rest := v / 0x1000, v % 0x1000;
    Align.DivUnique(v * 0x10_0000_0000_0000, WORD, high, rest * 0x10_0000_0000_0000);
    Align.DivUnique(rest * 0x10_0000_0000_0000, 0x10_0000_0000_0000, rest, 0);
  }

  lemma {:induction false} TopStep(v: Virt, w: Virt, l: nat)
    requires 1 <= l <= 4
    ensures Top(v, l) == Top(w, l) <==> Top(v, l + 1) == Top(w, l + 1) && Index(v, l) == Index(w, l)
  {
    QuotientRemainder(Top(v, l), Top(w, l));
  }

  lemma {:induction false} QuotientRemainder(a: nat, b: nat)
    ensures a == b <==> a / 512 == b / 512 && a % 512 == b % 512
  {
  }

  // --- the walk ---

  datatype Lookup = Unmapped | NextTable(table: nat) | Leaf(frame: nat)

  predicate IsMapped(e: Entry) {
    !(e.address == 0 && e.flags == 0)
  }

  predicate IsHuge(flags: nat) {
    (flags / 128) % 2 == 1
  }

  function Interpret(e: Entry, l: nat): Lookup
    requires 1 <= l <= 4
  {
    if !IsMapped(e) then Unmapped
    else if l == 4 then NextTable(e.address)
    else if l == 1 then Leaf(e.address)
    else if IsHuge(e.flags) then Leaf(e.address)
    else NextTable(e.address)
  }

  function GetEntry(mem: Memory, t: nat, l: nat, i: nat): Lookup
    requires 1 <= l <= 4 && i < ENTRIES
  {
    Interpret(FrameAt(mem, t)[i], l)
  }

  /** The deepest table on the walk, from table `t` of level `l` on. */
  function Deepest(mem: Memory, t: nat, l: nat, v: nat): (r: (nat, nat))
    requires 1 <= l <= 4
    ensures 1 <= r.1 <= l
    decreases l
  {
    if l == 1 then (t, 1)
    else match GetEntry(mem, t, l, Index(v, l))
      case NextTable(n) => Deepest(mem, n, l - 1, v)
      case _ => (t, l)
  }

  function ToPhys(mem: Memory, root: nat, v: nat): Option<nat> {
    var (t, l) := Deepest(mem, root, 4, v);
    match GetEntry(mem, t, l, Index(v, l))
    case Leaf(frame) => Some(frame + Offset(v, l))
    case _ => None
  }

  /** The same translation in one pass from the top. */
  function Walk(mem: Memory, t: nat, l: nat, v: nat): Option<nat>
    requires 1 <= l <= 4
    decreases l
  {
    match GetEntry(mem, t, l, Index(v, l))
    case Unmapped => None
    case Leaf(frame) => Some(frame + Offset(v, l))
    case NextTable(n) => if l == 1 then None else Walk(mem, n, l - 1, v)
  }

  lemma {:induction false} WalkFromDeepest(mem: Memory, t: nat, l: nat, v: nat)
    requires 1 <= l <= 4
    ensures var (d, m) := Deepest(mem, t, l, v);
      Walk(mem, t, l, v) ==
        match GetEntry(mem, d, m, Index(v, m)) case Leaf(frame) => Some(frame + Offset(v, m)) case _ => None
    decreases l
  {
    if l > 1 && GetEntry(mem, t, l, Index(v, l)).NextTable? {
      WalkFromDeepest(mem, GetEntry(mem, t, l, Index(v, l)).table, l - 1, v);
    }
  }

  /** Finding the deepest table and reading its entry is the same as walking down. */
  lemma {:induction false} ToPhysIsWalk(mem: Memory, root: nat, v: nat)
    ensures ToPhys(mem, root, v) == Walk(mem, root, 4, v)
  {
    WalkFromDeepest(mem, root, 4, v);
  }

  /** The table of level `l` on the walk of `v`, if the walk gets that far. */
  function TableAt(mem: Memory, root: nat, v: nat, l: nat): Option<nat>
    requires 1 <= l <= 4
    decreases 4 - l
  {
    if l == 4 then Some(root)
    else match TableAt(mem, root, v, l + 1)
      case None => None
      case Some(t) =>
        match GetEntry(mem, t, l + 1, Index(v, l + 1))
        case NextTable(n) => Some(n)
        case _ => None
  }

  lemma {:induction false} SamePath(mem: Memory, root: nat, v: Virt, w: Virt, l: nat)
    requires 1 <= l <= 4 && Top(v, l + 1) == Top(w, l + 1)
    ensures TableAt(mem, root, v, l) == TableAt(mem, root, w, l)
    decreases 4 - l
  {
    if l < 4 {
      TopStep(v, w, l + 1);
      SamePath(mem, root, v, w, l + 1);
    }
  }

  /** The tables form a tree: a frame serves as a table at one level and along one path only. */
  ghost predicate Tree(mem: Memory, root: nat) {
    forall v: Virt, w: Virt, l, m ::
      && 1 <= l <= 4 && 1 <= m <= 4
      && TableAt(mem, root, v, l).Some? && TableAt(mem, root, v, l) == TableAt(mem, root, w, m) ==>
        l == m && Top(v, l + 1) == Top(w, l + 1)
  }

  ghost predicate IsTable(mem: Memory, root: nat, f: nat) {
    exists v: Virt, l :: 1 <= l <= 4 && TableAt(mem, root, v, l) == Some(f)
  }

  // --- flags ---

  /** Bits 0 and 1 are present and writable, bit 7 says huge. */
  lemma {:induction false} FlagBits()
    ensures TABLE_FLAGS == 1 + 2 && HUGE_FLAGS == 1 + 2 + 128
    ensures IsHuge(HUGE_FLAGS) && !IsHuge(TABLE_FLAGS) && IsHuge(128)
  {
  }

  /** A mapped entry is present and writable. */
  predicate Accessible(e: Entry) {
    IsMapped(e) ==> e.flags % 2 == 1 && e.flags / 2 % 2 == 1
  }

  ghost predicate AllAccessible(mem: Memory) {
    forall t: nat, i :: 0 <= i < ENTRIES ==> Accessible(FrameAt(mem, t)[i])
  }

  lemma {:induction false} AccessibleAfter(mem: Memory, t: nat, i: nat, e: Entry)
    requires i < ENTRIES && AllAccessible(mem) && Accessible(e)
    ensures AllAccessible(Write(mem, t, i, e))
  {
    var mem' := Write(mem, t, i, e);
    forall s: nat, j | 0 <= j < ENTRIES ensures Accessible(FrameAt(mem', s)[j]) {
      assert Accessible(FrameAt(mem, s)[j]);
      assert s != t ==> FrameAt(mem', s) == FrameAt(mem, s);
    }
  }

  lemma {:induction false} AccessibleLinked(mem: Memory, t: nat, i: nat, f: nat)
    requires i < ENTRIES && AllAccessible(mem)
    ensures AllAccessible(Linked(mem, t, i, f))
  {
    var cleared := mem[f := Cleared()];
    forall s: nat, j | 0 <= j < ENTRIES ensures Accessible(FrameAt(cleared, s)[j]) {
      assert Accessible(FrameAt(mem, s)[j]);
      assert s != f ==> FrameAt(cleared, s) == FrameAt(mem, s);
    }
    FlagBits();
    AccessibleAfter(cleared, t, i, Entry(f, TABLE_FLAGS));
  }

  // --- writing one entry ---

  lemma {:induction false} ReadAfterWrite(mem: Memory, t: nat, i: nat, e: Entry, s: nat, j: nat, l: nat)
    requires i < ENTRIES && j < ENTRIES && 1 <= l <= 4
    ensures GetEntry(Write(mem, t, i, e), s, l, j) ==
      if s == t && i == j then Interpret(e, l) else GetEntry(mem, s, l, j)
  {
  }

  /** Writing the entry of `v` at level `l` moves no table at or above that level, and none at all off its path. */
  lemma {:induction false} TablesElsewhere(mem: Memory, root: nat, v: Virt, l: nat, e: Entry, w: Virt, m: nat)
    requires Tree(mem, root) && 1 <= l <= 4 && 1 <= m <= 4 && TableAt(mem, root, v, l).Some?
    requires m >= l || Top(w, l) != Top(v, l)
    ensures TableAt(Write(mem, TableAt(mem, root, v, l).value, Index(v, l), e), root, w, m) == TableAt(mem, root, w, m)
    decreases 4 - m
  {
    if m < 4 {
      var t := TableAt(mem, root, v, l).value;
      TablesElsewhere(mem, root, v, l, e, w, m + 1);
      var s := TableAt(mem, root, w, m + 1);
      if s.Some? {
        EntryElsewhere(mem, root, v, l, t, e, w, m + 1, s.value);
      }
    }
  }

  /** The entry that leads on to `w` below a table on its path is not the one written. */
  lemma {:induction false} EntryElsewhere(mem: Memory, root: nat, v: Virt, l: nat, t: nat, e: Entry, w: Virt, m: nat,
                                          s: nat)
    requires Tree(mem, root) && 1 <= l <= 4 && 1 <= m <= 4
    requires TableAt(mem, root, v, l) == Some(t) && TableAt(mem, root, w, m) == Some(s)
    requires m > l || Top(w, l) != Top(v, l)
    ensures GetEntry(Write(mem, t, Index(v, l), e), s, m, Index(w, m)) == GetEntry(mem, s, m, Index(w, m))
  {
    ReadAfterWrite(mem, t, Index(v, l), e, s, Index(w, m), m);
    if s == t {
      assert m == l && Top(w, l + 1) == Top(v, l + 1);
      TopStep(v, w, l);
    }
  }

  lemma {:induction false} WalkElsewhere(mem: Memory, root: nat, v: Virt, l: nat, e: Entry, w: Virt, s: nat, m: nat)
    requires Tree(mem, root) && 1 <= l <= 4 && 1 <= m <= 4 && TableAt(mem, root, v, l).Some?
    requires Top(w, l) != Top(v, l) && TableAt(mem, root, w, m) == Some(s)
    ensures Walk(Write(mem, TableAt(mem, root, v, l).value, Index(v, l), e), s, m, w) == Walk(mem, s, m, w)
    decreases m
  {
    EntryElsewhere(mem, root, v, l, TableAt(mem, root, v, l).value, e, w, m, s);
    match GetEntry(mem, s, m, Index(w, m))
    case NextTable(n) =>
      if m > 1 {
        WalkElsewhere(mem, root, v, l, e, w, n, m - 1);
      }
    case _ =>
  }

  /** The translation of every address off the written entry's path is unchanged. */
  lemma {:induction false} TranslationElsewhere(mem: Memory, root: nat, v: Virt, l: nat, e: Entry, w: Virt)
    requires Tree(mem, root) && 1 <= l <= 4 && TableAt(mem, root, v, l).Some? && Top(w, l) != Top(v, l)
    ensures ToPhys(Write(mem, TableAt(mem, root, v, l).value, Index(v, l), e), root, w) == ToPhys(mem, root, w)
  {
    var mem' := Write(mem, TableAt(mem, root, v, l).value, Index(v, l), e);
    WalkElsewhere(mem, root, v, l, e, w, root, 4);
    ToPhysIsWalk(mem, root, w);
    ToPhysIsWalk(mem', root, w);
  }

  /** Walking from the top is walking from any table on the way. */
  lemma {:induction false} WalkThrough(mem: Memory, root: nat, w: Virt, m: nat)
    requires 1 <= m <= 4 && TableAt(mem, root, w, m).Some?
    ensures Walk(mem, root, 4, w) == Walk(mem, TableAt(mem, root, w, m).value, m, w)
    decreases 4 - m
  {
    if m < 4 {
      WalkThrough(mem, root, w, m + 1);
    }
  }

  /** What an entry of level `l` that is no table makes of an address. */
  function Through(e: Entry, w: nat, l: nat): Option<nat>
    requires 1 <= l <= 4
  {
    if Interpret(e, l).Leaf? then Some(e.address + Offset(w, l)) else None
  }

  /** Writing a leaf, or nothing, over an entry that was not a table: all tables stay where they were, and exactly the
      addresses under the entry translate through the new one. */
  lemma {:induction false} WriteLeaf(mem: Memory, root: nat, v: Virt, l: nat, e: Entry)
    requires Tree(mem, root) && 1 <= l <= 4 && TableAt(mem, root, v, l).Some?
    requires !GetEntry(mem, TableAt(mem, root, v, l).value, l, Index(v, l)).NextTable? && !Interpret(e, l).NextTable?
    ensures var mem' := Write(mem, TableAt(mem, root, v, l).value, Index(v, l), e);
      && (forall w: Virt, m :: 1 <= m <= 4 ==> TableAt(mem', root, w, m) == TableAt(mem, root, w, m))
      && Tree(mem', root)
      && (forall w: Virt :: ToPhys(mem', root, w) ==
            if Top(w, l) == Top(v, l) then Through(e, w, l) else ToPhys(mem, root, w))
  {
    var t := TableAt(mem, root, v, l).value;
    var mem' := Write(mem, t, Index(v, l), e);
    forall w: Virt, m | 1 <= m <= 4 ensures TableAt(mem', root, w, m) == TableAt(mem, root, w, m) {
      LeafTables(mem, root, v, l, e, w, m);
    }
    forall w: Virt ensures ToPhys(mem', root, w) ==
      if Top(w, l) == Top(v, l) then Through(e, w, l) else ToPhys(mem, root, w)
    {
      if Top(w, l) == Top(v, l) {
        TopStep(v, w, l);
        SamePath(mem', root, v, w, l);
        WalkThrough(mem', root, w, l);
        ToPhysIsWalk(mem', root, w);
        ReadAfterWrite(mem, t, Index(v, l), e, t, Index(w, l), l);
      } else {
        TranslationElsewhere(mem, root, v, l, e, w);
      }
    }
  }

  lemma {:induction false} LeafTables(mem: Memory, root: nat, v: Virt, l: nat, e: Entry, w: Virt, m: nat)
    requires Tree(mem, root) && 1 <= l <= 4 && 1 <= m <= 4 && TableAt(mem, root, v, l).Some?
    requires !GetEntry(mem, TableAt(mem, root, v, l).value, l, Index(v, l)).NextTable? && !Interpret(e, l).NextTable?
    ensures TableAt(Write(mem, TableAt(mem, root, v, l).value, Index(v, l), e), root, w, m) == TableAt(mem, root, w, m)
    decreases 4 - m
  {
    var t := TableAt(mem, root, v, l).value;
    var mem' := Write(mem, t, Index(v, l), e);
    if m >= l || Top(w, l) != Top(v, l) {
      TablesElsewhere(mem, root, v, l, e, w, m);
    } else {
      LeafTables(mem, root, v, l, e, w, m + 1);
      if m + 1 == l {
        TopStep(v, w, l);
        SamePath(mem, root, v, w, l);
        ReadAfterWrite(mem, t, Index(v, l), e, t, Index(w, l), l);
      } else {
        NoneBelow(mem, root, v, l, w, m + 1);
      }
    }
  }

  /** Below an entry that is no table there are no tables. */
  lemma {:induction false} NoneBelow(mem: Memory, root: nat, v: Virt, l: nat, w: Virt, m: nat)
    requires 1 <= m < l <= 4 && TableAt(mem, root, v, l).Some? && Top(w, l) == Top(v, l)
    requires !GetEntry(mem, TableAt(mem, root, v, l).value, l, Index(v, l)).NextTable?
    ensures TableAt(mem, root, w, m).None?
    decreases 4 - m
  {
    if m + 1 == l {
      TopStep(v, w, l);
      SamePath(mem, root, v, w, l);
    } else {
      NoneBelow(mem, root, v, l, w, m + 1);
    }
  }

  // --- linking a cleared frame as a new table ---

  lemma {:induction false} ClearTables(mem: Memory, root: nat, f: nat, w: Virt, m: nat)
    requires 1 <= m <= 4 && !IsTable(mem, root, f)
    ensures TableAt(mem[f := Cleared()], root, w, m) == TableAt(mem, root, w, m)
    decreases 4 - m
  {
    if m < 4 {
      ClearTables(mem, root, f, w, m + 1);
      var s := TableAt(mem, root, w, m + 1);
      assert s != Some(f);
    }
  }

  lemma {:induction false} ClearWalk(mem: Memory, root: nat, f: nat, w: Virt, s: nat, m: nat)
    requires 1 <= m <= 4 && !IsTable(mem, root, f) && TableAt(mem, root, w, m) == Some(s)
    ensures Walk(mem[f := Cleared()], s, m, w) == Walk(mem, s, m, w)
    decreases m
  {
    assert s != f;
    match GetEntry(mem, s, m, Index(w, m))
    case NextTable(n) =>
      if m > 1 {
        ClearWalk(mem, root, f, w, n, m - 1);
      }
    case _ =>
  }

  /** Clearing a frame that is no table changes no table and no translation. */
  lemma {:induction false} ClearFrame(mem: Memory, root: nat, f: nat)
    requires !IsTable(mem, root, f)
    ensures forall w: Virt, m :: 1 <= m <= 4 ==> TableAt(mem[f := Cleared()], root, w, m) == TableAt(mem, root, w, m)
    ensures forall w: Virt :: ToPhys(mem[f := Cleared()], root, w) == ToPhys(mem, root, w)
    ensures Tree(mem, root) ==> Tree(mem[f := Cleared()], root)
  {
    forall w: Virt, m | 1 <= m <= 4 ensures TableAt(mem[f := Cleared()], root, w, m) == TableAt(mem, root, w, m) {
      ClearTables(mem, root, f, w, m);
    }
    forall w: Virt ensures ToPhys(mem[f := Cleared()], root, w) == ToPhys(mem, root, w) {
      ClearWalk(mem, root, f, w, root, 4);
      ToPhysIsWalk(mem, root, w);
      ToPhysIsWalk(mem[f := Cleared()], root, w);
    }
    if Tree(mem, root) {
      SameTree(mem, mem[f := Cleared()], root);
    }
  }

  lemma {:induction false} SameTree(mem: Memory, mem': Memory, root: nat)
    requires Tree(mem, root)
    requires forall w: Virt, m :: 1 <= m <= 4 ==> TableAt(mem', root, w, m) == TableAt(mem, root, w, m)
    ensures Tree(mem', root)
  {
    forall a: Virt, b: Virt, i, j
      | 1 <= i <= 4 && 1 <= j <= 4 && TableAt(mem', root, a, i).Some?
        && TableAt(mem', root, a, i) == TableAt(mem', root, b, j)
      ensures i == j && Top(a, i + 1) == Top(b, i + 1)
    {
      assert TableAt(mem, root, a, i) == TableAt(mem, root, b, j);
    }
  }

  /** Memory after a cleared frame `f` was linked under `v` at level `l`. */
  function Linked(mem: Memory, t: nat, i: nat, f: nat): Memory
    requires i < ENTRIES
  {
    Write(mem[f := Cleared()], t, i, Entry(f, TABLE_FLAGS))
  }

  lemma {:induction false} LinkedTables(mem: Memory, root: nat, v: Virt, l: nat, f: nat, w: Virt, m: nat)
    requires Tree(mem, root) && 2 <= l <= 4 && 1 <= m <= 4 && TableAt(mem, root, v, l).Some? && !IsTable(mem, root, f)
    requires !GetEntry(mem, TableAt(mem, root, v, l).value, l, Index(v, l)).NextTable?
    ensures TableAt(Linked(mem, TableAt(mem, root, v, l).value, Index(v, l), f), root, w, m) ==
      if m == l - 1 && Top(w, l) == Top(v, l) then Some(f) else TableAt(mem, root, w, m)
    decreases 4 - m
  {
    var t := TableAt(mem, root, v, l).value;
    var cleared := mem[f := Cleared()];
    var e := Entry(f, TABLE_FLAGS);
    ClearFrame(mem, root, f);
    assert t != f;
    if m >= l || Top(w, l) != Top(v, l) {
      TablesElsewhere(cleared, root, v, l, e, w, m);
    } else {
      LinkedTables(mem, root, v, l, f, w, m + 1);
      if m + 1 == l {
        TopStep(v, w, l);
        SamePath(mem, root, v, w, l);
        ReadAfterWrite(cleared, t, Index(v, l), e, t, Index(w, l), l);
      } else {
        NoneBelow(mem, root, v, l, w, m);
        if m + 2 == l {
          ReadAfterWrite(cleared, t, Index(v, l), e, f, Index(w, m + 1), m + 1);
        } else {
          NoneBelow(mem, root, v, l, w, m + 1);
        }
      }
    }
  }

  lemma {:induction false} LinkedWalk(mem: Memory, root: nat, v: Virt, l: nat, f: nat, w: Virt)
    requires Tree(mem, root) && 2 <= l <= 4 && TableAt(mem, root, v, l).Some? && !IsTable(mem, root, f)
    requires !GetEntry(mem, TableAt(mem, root, v, l).value, l, Index(v, l)).NextTable?
    ensures ToPhys(Linked(mem, TableAt(mem, root, v, l).value, Index(v, l), f), root, w) ==
      if Top(w, l) == Top(v, l) then None else ToPhys(mem, root, w)
  {
    var t := TableAt(mem, root, v, l).value;
    var cleared := mem[f := Cleared()];
    var e := Entry(f, TABLE_FLAGS);
    var mem' := Linked(mem, t, Index(v, l), f);
    ClearFrame(mem, root, f);
    if Top(w, l) != Top(v, l) {
      TranslationElsewhere(cleared, root, v, l, e, w);
    } else {
      assert t != f;
      LinkedTables(mem, root, v, l, f, w, l - 1);
      WalkThrough(mem', root, w, l - 1);
      ToPhysIsWalk(mem', root, w);
      ReadAfterWrite(cleared, t, Index(v, l), e, f, Index(w, l - 1), l - 1);
    }
  }

  /** Below an empty entry nothing translates. */
  lemma {:induction false} EmptyBelow(mem: Memory, root: nat, v: Virt, l: nat, w: Virt)
    requires 1 <= l <= 4 && TableAt(mem, root, v, l).Some? && Top(w, l) == Top(v, l)
    requires GetEntry(mem, TableAt(mem, root, v, l).value, l, Index(v, l)) == Unmapped
    ensures ToPhys(mem, root, w) == None
  {
    TopStep(v, w, l);
    SamePath(mem, root, v, w, l);
    WalkThrough(mem, root, w, l);
    ToPhysIsWalk(mem, root, w);
  }

  /** Linking a fresh cleared table over an entry that was no table keeps the tree and adds exactly that table. It
      unmaps the addresses under the entry, which changes nothing if the entry was empty. */
  lemma {:induction false} LinkTable(mem: Memory, root: nat, v: Virt, l: nat, f: nat)
    requires Tree(mem, root) && 2 <= l <= 4 && TableAt(mem, root, v, l).Some? && !IsTable(mem, root, f)
    requires !GetEntry(mem, TableAt(mem, root, v, l).value, l, Index(v, l)).NextTable?
    ensures var mem' := Linked(mem, TableAt(mem, root, v, l).value, Index(v, l), f);
      && Tree(mem', root)
      && TableAt(mem', root, v, l - 1) == Some(f)
      && GetEntry(mem', f, l - 1, Index(v, l - 1)) == Unmapped
      && (forall w: Virt :: ToPhys(mem', root, w) == if Top(w, l) == Top(v, l) then None else ToPhys(mem, root, w))
      && (GetEntry(mem, TableAt(mem, root, v, l).value, l, Index(v, l)) == Unmapped ==>
            forall w: Virt :: ToPhys(mem', root, w) == ToPhys(mem, root, w))
      && (forall g :: IsTable(mem', root, g) ==> g == f || IsTable(mem, root, g))
      && (forall w: Virt, m :: 1 <= m <= 4 ==>
            (TableAt(mem', root, w, m) ==
             if m == l - 1 && Top(w, l) == Top(v, l) then Some(f) else TableAt(mem, root, w, m)))
      && (forall w: Virt, m :: 1 <= m <= 4 && TableAt(mem, root, w, m).Some? ==>
            TableAt(mem', root, w, m) == TableAt(mem, root, w, m))
  {
    var t := TableAt(mem, root, v, l).value;
    var mem' := Linked(mem, t, Index(v, l), f);
    forall w: Virt, m | 1 <= m <= 4 ensures TableAt(mem', root, w, m) ==
      if m == l - 1 && Top(w, l) == Top(v, l) then Some(f) else TableAt(mem, root, w, m)
    {
      LinkedTables(mem, root, v, l, f, w, m);
      if m == l - 1 && Top(w, l) == Top(v, l) {
        NoneBelow(mem, root, v, l, w, m);
      }
    }
    forall w: Virt, m | 1 <= m <= 4 && TableAt(mem, root, w, m).Some?
      ensures TableAt(mem', root, w, m) == TableAt(mem, root, w, m)
    {
      if m == l - 1 && Top(w, l) == Top(v, l) {
        NoneBelow(mem, root, v, l, w, m);
      }
    }
    forall w: Virt
      ensures ToPhys(mem', root, w) == if Top(w, l) == Top(v, l) then None else ToPhys(mem, root, w)
    {
      LinkedWalk(mem, root, v, l, f, w);
    }
    forall w: Virt | Top(w, l) == Top(v, l) && GetEntry(mem, t, l, Index(v, l)) == Unmapped
      ensures ToPhys(mem, root, w) == None
    {
      EmptyBelow(mem, root, v, l, w);
    }
    assert t != f;
    ReadAfterWrite(mem[f := Cleared()], t, Index(v, l), Entry(f, TABLE_FLAGS), f, Index(v, l - 1), l - 1);
    LinkedTree(mem, mem', root, v, l, f);
  }

  lemma {:induction false} LinkedTree(mem: Memory, mem': Memory, root: nat, v: Virt, l: nat, f: nat)
    requires Tree(mem, root) && 2 <= l <= 4 && !IsTable(mem, root, f)
    requires forall w: Virt, m :: 1 <= m <= 4 ==>
      (TableAt(mem', root, w, m) == if m == l - 1 && Top(w, l) == Top(v, l) then Some(f) else TableAt(mem, root, w, m))
    ensures Tree(mem', root)
  {
    forall a: Virt, b: Virt, i, j | 1 <= i <= 4 && 1 <= j <= 4 && TableAt(mem', root, a, i).Some?
      && TableAt(mem', root, a, i) == TableAt(mem', root, b, j)
      ensures i == j && Top(a, i + 1) == Top(b, i + 1)
    {
      assert TableAt(mem, root, a, i) != Some(f) && TableAt(mem, root, b, j) != Some(f);
    }
  }

  // --- what a walk finds ---

  lemma {:induction false} DeepestIsTable(mem: Memory, root: nat, v: nat, t: nat, l: nat)
    requires 1 <= l <= 4 && TableAt(mem, root, v, l) == Some(t)
    ensures var (d, m) := Deepest(mem, t, l, v);
      TableAt(mem, root, v, m) == Some(d) && (m > 1 ==> !GetEntry(mem, d, m, Index(v, m)).NextTable?)
    decreases l
  {
    if l > 1 && GetEntry(mem, t, l, Index(v, l)).NextTable? {
      DeepestIsTable(mem, root, v, GetEntry(mem, t, l, Index(v, l)).table, l - 1);
    }
  }

  /** A walk reaches a table of level `l` exactly when its deepest table is at or below that level. */
  lemma {:induction false} DeepestLevel(mem: Memory, root: nat, v: Virt, l: nat)
    requires 1 <= l <= 4
    ensures TableAt(mem, root, v, l).Some? <==> Deepest(mem, root, 4, v).1 <= l
  {
    var (d, m) := Deepest(mem, root, 4, v);
    DeepestIsTable(mem, root, v, root, 4);
    if m <= l {
      AboveIsTable(mem, root, v, m, l);
    } else {
      NoneBelow(mem, root, v, m, v, l);
    }
  }

  lemma {:induction false} AboveIsTable(mem: Memory, root: nat, v: Virt, m: nat, l: nat)
    requires 1 <= m <= l <= 4 && TableAt(mem, root, v, m).Some?
    ensures TableAt(mem, root, v, l).Some?
    decreases l - m
  {
    if m < l {
      AboveIsTable(mem, root, v, m + 1, l);
    }
  }
}
