/** The BIOS memory map (section 15.1 of the ACPI Specification) and its preparation at boot: the kernel image gets an
    entry of its own, the entries are sorted, and the RAM entries are aligned to page boundaries. */
module MemoryMap {
  import opened Align
  import opened Extents

  const PAGE: nat := 0x1000
  const RAM: nat := 1
  const RESERVED: nat := 2
  // 0xFF0 bytes of 24-byte entries
  const CAPACITY: nat := 170

  datatype Entry = Entry(base: nat, length: nat, kind: nat, attributes: nat) {
    function End(): nat { base + length }
    function Range(): Extent { Extent(base, length) }
    predicate Contains(start: nat, len: nat) { base <= start && start + len <= base + length }
  }

  datatype InitResult = Ready | NoEntry | Panic

  // --- the steps of init on the list of entries ---

  /** The first entry from index `i` on that contains the range, or the number of entries. */
  function FindEntry(es: seq<Entry>, start: nat, len: nat, i: nat): (k: nat)
    requires i <= |es|
    ensures i <= k <= |es|
    ensures k < |es| ==> es[k].Contains(start, len)
    ensures forall j :: i <= j < k ==> !es[j].Contains(start, len)
    decreases |es| - i
  {
    if i == |es| || es[i].Contains(start, len) then i else FindEntry(es, start, len, i + 1)
  }

  /** Containing a range is containing each of its bytes. */
  lemma {:induction false} ContainsBytes(e: Entry, start: nat, len: nat)
    requires len > 0
    ensures e.Contains(start, len) <==> forall x: int :: Extent(start, len).Has(x) ==> e.Range().Has(x)
  {
    assert Extent(start, len).Has(start) && Extent(start, len).Has(start + len - 1);
  }

  /** Up to three entries replacing the one that holds the kernel. */
  function Parts(e: Entry, start: nat, len: nat): seq<Entry>
    requires e.Contains(start, len)
  {
    (if e.base < start then [Entry(e.base, start - e.base, RAM, 1)] else [])
    + [Entry(start, len, RESERVED, e.attributes)]
    + (if e.End() > start + len then [Entry(start + len, e.End() - (start + len), RAM, 1)] else [])
  }

  function Split(es: seq<Entry>, k: nat, start: nat, len: nat): seq<Entry>
    requires k < |es| && es[k].Contains(start, len)
  {
    es[..k] + Parts(es[k], start, len) + es[k + 1..]
  }

  /** The derived order: base first, then length, kind and attributes. */
  predicate LessEq(a: Entry, b: Entry) {
    a.base < b.base || (a.base == b.base &&
    (a.length < b.length || (a.length == b.length &&
    (a.kind < b.kind || (a.kind == b.kind && a.attributes <= b.attributes)))))
  }

  ghost predicate Sorted(es: seq<Entry>) {
    forall i, j :: 0 <= i < j < |es| ==> LessEq(es[i], es[j])
  }

  function InsertSorted(e: Entry, es: seq<Entry>): seq<Entry> {
    if es == [] || LessEq(e, es[0]) then [e] + es else [es[0]] + InsertSorted(e, es[1..])
  }

  function Sort(es: seq<Entry>): seq<Entry> {
    if es == [] then [] else InsertSorted(es[0], Sort(es[1..]))
  }

  lemma {:induction false} LessEqTotal(a: Entry, b: Entry, c: Entry)
    ensures LessEq(a, b) || LessEq(b, a)
    ensures LessEq(a, b) && LessEq(b, c) ==> LessEq(a, c)
  {
  }

  lemma {:induction false} InsertPermutes(e: Entry, es: seq<Entry>)
    ensures multiset(InsertSorted(e, es)) == multiset([e]) + multiset(es)
  {
    if es != [] && !LessEq(e, es[0]) {
      InsertPermutes(e, es[1..]);
      assert es == [es[0]] + es[1..];
    }
  }

  lemma {:induction false} SortedCons(e: Entry, es: seq<Entry>)
    requires Sorted(es) && forall i :: 0 <= i < |es| ==> LessEq(e, es[i])
    ensures Sorted([e] + es)
  {
  }

  lemma {:induction false} InsertSorts(e: Entry, es: seq<Entry>)
    requires Sorted(es)
    ensures Sorted(InsertSorted(e, es))
  {
    if es == [] || LessEq(e, es[0]) {
      forall i | 0 <= i < |es| ensures LessEq(e, es[i]) {
        LessEqTotal(e, es[0], es[i]);
        assert i == 0 || LessEq(es[0], es[i]);
      }
      SortedCons(e, es);
    } else {
      var rest := InsertSorted(e, es[1..]);
      forall i, j | 0 <= i < j < |es[1..]| ensures LessEq(es[1..][i], es[1..][j]) {
        assert LessEq(es[i + 1], es[j + 1]);
      }
      InsertSorts(e, es[1..]);
      InsertPermutes(e, es[1..]);
      forall i | 0 <= i < |rest| ensures LessEq(es[0], rest[i]) {
        assert rest[i] in multiset(rest);
        if rest[i] in es[1..] {
          var k :| 0 <= k < |es[1..]| && es[1..][k] == rest[i];
          assert LessEq(es[0], es[k + 1]);
        } else {
          LessEqTotal(es[0], e, e);
        }
      }
      SortedCons(es[0], rest);
    }
  }

  /** The result is a sorted permutation, which a total order allows only one of. */
  lemma {:induction false} SortIsSorted(es: seq<Entry>)
    ensures Sorted(Sort(es)) && multiset(Sort(es)) == multiset(es) && |Sort(es)| == |es|
  {
    if es != [] {
      SortIsSorted(es[1..]);
      InsertSorts(es[0], Sort(es[1..]));
      InsertPermutes(es[0], Sort(es[1..]));
      assert es == [es[0]] + es[1..];
      assert |multiset(Sort(es))| == |multiset(es)|;
    }
  }

  function AlignEntry(e: Entry): Entry {
    if e.kind == RAM then e.(base := AlignUp(e.base, PAGE), length := AlignDown(e.length, PAGE)) else e
  }

  function AlignAll(es: seq<Entry>): (r: seq<Entry>)
    ensures |r| == |es| && forall i :: 0 <= i < |es| ==> r[i] == AlignEntry(es[i])
  {
    seq(|es|, i requires 0 <= i < |es| => AlignEntry(es[i]))
  }

  function Prepared(es: seq<Entry>, k: nat, start: nat, len: nat): seq<Entry>
    requires k < |es| && es[k].Contains(start, len)
  {
    AlignAll(Sort(Split(es, k, start, len)))
  }

  // --- coverage ---

  function Ranges(es: seq<Entry>): seq<Extent> {
    if es == [] then [] else [es[0].Range()] + Ranges(es[1..])
  }

  /** The ranges of the RAM entries, in order: what the usable-entry iterator yields. */
  function Usable(es: seq<Entry>): seq<Extent> {
    if es == [] then [] else (if es[0].kind == RAM then [es[0].Range()] else []) + Usable(es[1..])
  }

  lemma {:induction false} RangesConcat(a: seq<Entry>, b: seq<Entry>)
    ensures Ranges(a + b) == Ranges(a) + Ranges(b)
  {
    if a == [] {
      assert a + b == b;
    } else {
      assert (a + b)[1..] == a[1..] + b;
      RangesConcat(a[1..], b);
    }
  }

  lemma {:induction false} UsableConcat(a: seq<Entry>, b: seq<Entry>)
    ensures Usable(a + b) == Usable(a) + Usable(b)
  {
    if a == [] {
      assert a + b == b;
    } else {
      assert (a + b)[1..] == a[1..] + b && (a + b)[0] == a[0];
      UsableConcat(a[1..], b);
      var head := if a[0].kind == RAM then [a[0].Range()] else [];
      assert Usable(a) == head + Usable(a[1..]);
      assert Usable(a + b) == head + Usable(a[1..] + b);
    }
  }

  lemma {:induction false} CoverUsableOne(e: Entry, x: int)
    ensures Cover(Usable([e]), x) == if e.kind == RAM then Hits(e.Range(), x) else 0
    ensures Cover(Ranges([e]), x) == Hits(e.Range(), x)
  {
  }

  lemma {:induction false} CoverParts(e: Entry, start: nat, len: nat, x: int)
    requires e.Contains(start, len)
    ensures Cover(Ranges(Parts(e, start, len)), x) == Hits(e.Range(), x)
    ensures Cover(Usable(Parts(e, start, len)), x) + Hits(Extent(start, len), x) == Hits(e.Range(), x)
  {
    var before := if e.base < start then [Entry(e.base, start - e.base, RAM, 1)] else [];
    var kernel := Entry(start, len, RESERVED, e.attributes);
    var after := if e.End() > start + len then [Entry(start + len, e.End() - (start + len), RAM, 1)] else [];
    assert Parts(e, start, len) == (before + [kernel]) + after;
    RangesConcat(before + [kernel], after);
    RangesConcat(before, [kernel]);
    UsableConcat(before + [kernel], after);
    UsableConcat(before, [kernel]);
    CoverConcat(Ranges(before) + Ranges([kernel]), Ranges(after), x);
    CoverConcat(Ranges(before), Ranges([kernel]), x);
    CoverConcat(Usable(before) + Usable([kernel]), Usable(after), x);
    CoverConcat(Usable(before), Usable([kernel]), x);
    CoverUsableOne(kernel, x);
    if before != [] {
      CoverUsableOne(before[0], x);
    }
    if after != [] {
      CoverUsableOne(after[0], x);
    }
  }

  lemma {:induction false} CoverAround(a: seq<Entry>, m: seq<Entry>, b: seq<Entry>, x: int)
    ensures Cover(Ranges(a + m + b), x) == Cover(Ranges(a), x) + Cover(Ranges(m), x) + Cover(Ranges(b), x)
    ensures Cover(Usable(a + m + b), x) == Cover(Usable(a), x) + Cover(Usable(m), x) + Cover(Usable(b), x)
  {
    RangesConcat(a + m, b);
    RangesConcat(a, m);
    UsableConcat(a + m, b);
    UsableConcat(a, m);
    CoverConcat(Ranges(a) + Ranges(m), Ranges(b), x);
    CoverConcat(Ranges(a), Ranges(m), x);
    CoverConcat(Usable(a) + Usable(m), Usable(b), x);
    CoverConcat(Usable(a), Usable(m), x);
  }

  /** Splitting covers every byte exactly as often as before. RAM loses the kernel's bytes, and gains the rest of the
      split entry if that was not RAM. */
  lemma {:induction false} SplitCovers(es: seq<Entry>, k: nat, start: nat, len: nat, x: int)
    requires k < |es| && es[k].Contains(start, len)
    ensures Cover(Ranges(Split(es, k, start, len)), x) == Cover(Ranges(es), x)
    ensures Cover(Usable(Split(es, k, start, len)), x) + Hits(Extent(start, len), x)
         == Cover(Usable(es), x) + (if es[k].kind == RAM then 0 else Hits(es[k].Range(), x))
  {
    CoverAround(es[..k], Parts(es[k], start, len), es[k + 1..], x);
    assert es == es[..k] + [es[k]] + es[k + 1..];
    CoverAround(es[..k], [es[k]], es[k + 1..], x);
    CoverParts(es[k], start, len, x);
    CoverUsableOne(es[k], x);
  }

  lemma {:induction false} CoverHead(e: Entry, es: seq<Entry>, x: int)
    ensures Cover(Ranges([e] + es), x) == Hits(e.Range(), x) + Cover(Ranges(es), x)
    ensures Cover(Usable([e] + es), x) == Cover(Usable([e]), x) + Cover(Usable(es), x)
  {
    RangesConcat([e], es);
    UsableConcat([e], es);
    CoverConcat(Ranges([e]), Ranges(es), x);
    CoverConcat(Usable([e]), Usable(es), x);
    CoverUsableOne(e, x);
  }

  lemma {:induction false} InsertCovers(e: Entry, es: seq<Entry>, x: int)
    ensures Cover(Ranges(InsertSorted(e, es)), x) == Hits(e.Range(), x) + Cover(Ranges(es), x)
    ensures Cover(Usable(InsertSorted(e, es)), x) == Cover(Usable([e]), x) + Cover(Usable(es), x)
  {
    if es == [] || LessEq(e, es[0]) {
      CoverHead(e, es, x);
    } else {
      InsertCovers(e, es[1..], x);
      CoverHead(es[0], InsertSorted(e, es[1..]), x);
      CoverHead(es[0], es[1..], x);
      assert [es[0]] + es[1..] == es;
    }
  }

  /** Sorting moves no byte from or to RAM. */
  lemma {:induction false} SortCovers(es: seq<Entry>, x: int)
    ensures Cover(Ranges(Sort(es)), x) == Cover(Ranges(es), x)
    ensures Cover(Usable(Sort(es)), x) == Cover(Usable(es), x)
  {
    if es != [] {
      SortCovers(es[1..], x);
      InsertCovers(es[0], Sort(es[1..]), x);
      CoverHead(es[0], es[1..], x);
      assert [es[0]] + es[1..] == es;
    }
  }

  // --- alignment ---

  /** The aligned end passes the original end exactly when the base was raised by more than the length lost, and then
      it is the next page boundary; otherwise it is the page boundary at or before the end. */
  lemma {:induction false} AlignedEnd(e: Entry)
    requires e.kind == RAM
    ensures AlignEntry(e).End() ==
      if e.base % PAGE != 0 && PAGE - e.base % PAGE > e.length % PAGE then AlignUp(e.End(), PAGE)
      else AlignDown(e.End(), PAGE)
    ensures e.base % PAGE == 0 || e.End() % PAGE == 0 ==> AlignEntry(e).End() <= e.End()
    ensures AlignEntry(e).End() < e.End() + PAGE
    ensures AlignEntry(e).base % PAGE == 0 && AlignEntry(e).length % PAGE == 0
    ensures e.base <= AlignEntry(e).base < e.base + PAGE
    ensures AlignEntry(e).kind == e.kind && AlignEntry(e).attributes == e.attributes
  {
  }

  /** RAM ranges in ascending order without overlap. */
  ghost predicate Ordered(r: seq<Extent>) {
    forall i, j :: 0 <= i < j < |r| ==> r[i].End() <= r[j].start
  }

  ghost predicate PageAligned(r: seq<Extent>) {
    forall i :: 0 <= i < |r| ==> r[i].start % PAGE == 0 && r[i].len % PAGE == 0
  }

  /** No range reaches into the bytes `start .. start + len`. */
  ghost predicate Avoids(r: seq<Extent>, start: nat, len: nat) {
    forall i :: 0 <= i < |r| ==> r[i].End() <= start || start + len <= r[i].start
  }

  function AlignRange(e: Extent): Extent {
    Extent(AlignUp(e.start, PAGE), AlignDown(e.len, PAGE))
  }

  function AlignRanges(r: seq<Extent>): (a: seq<Extent>)
    ensures |a| == |r| && forall i :: 0 <= i < |r| ==> a[i] == AlignRange(r[i])
  {
    seq(|r|, i requires 0 <= i < |r| => AlignRange(r[i]))
  }

  lemma {:induction false} UsableAlign(es: seq<Entry>)
    ensures Usable(AlignAll(es)) == AlignRanges(Usable(es))
  {
    if es != [] {
      UsableAlign(es[1..]);
      assert AlignAll(es)[1..] == AlignAll(es[1..]);
    }
  }

  /** Aligning two ranges never moves the end of the first past the start of the second. */
  lemma {:induction false} AlignPair(a: Extent, b: Extent)
    requires a.End() <= b.start
    ensures AlignRange(a).End() <= AlignRange(b).start
  {
    assert AlignRange(a).End() < a.End() + PAGE;
    assert AlignRange(a).End() % PAGE == 0;
    AlignedBelow(AlignRange(a).End(), AlignUp(b.start, PAGE), PAGE);
  }

  /** Aligning keeps order, disjointness and distance from a page-aligned kernel. */
  lemma {:induction false} AlignKeepsOrder(r: seq<Extent>, start: nat, len: nat)
    requires Ordered(r) && Avoids(r, start, len) && start % PAGE == 0
    ensures Ordered(AlignRanges(r)) && PageAligned(AlignRanges(r)) && Avoids(AlignRanges(r), start, len)
  {
    var a := AlignRanges(r);
    forall i, j | 0 <= i < j < |a| ensures a[i].End() <= a[j].start {
      AlignPair(r[i], r[j]);
    }
    forall i | 0 <= i < |a| ensures a[i].End() <= start || start + len <= a[i].start {
      if r[i].End() <= start {
        AlignPair(r[i], Extent(start, len));
        assert AlignUp(start, PAGE) == start;
      }
    }
  }

  ghost predicate RamNonEmpty(es: seq<Entry>) {
    forall i :: 0 <= i < |es| && es[i].kind == RAM ==> es[i].length > 0
  }

  lemma {:induction false} UsableFrom(es: seq<Entry>, i: nat)
    requires i < |Usable(es)|
    ensures exists k :: 0 <= k < |es| && es[k].kind == RAM && es[k].Range() == Usable(es)[i]
  {
    if es[0].kind == RAM && i == 0 {
      assert es[0].Range() == Usable(es)[0];
    } else {
      var j := if es[0].kind == RAM then i - 1 else i;
      UsableFrom(es[1..], j);
      var k :| 0 <= k < |es[1..]| && es[1..][k].kind == RAM && es[1..][k].Range() == Usable(es[1..])[j];
      assert es[k + 1].Range() == Usable(es)[i];
    }
  }

  lemma {:induction false} UsableHas(es: seq<Entry>, k: nat)
    requires k < |es| && es[k].kind == RAM
    ensures exists i :: 0 <= i < |Usable(es)| && Usable(es)[i] == es[k].Range()
  {
    if k == 0 {
      assert Usable(es)[0] == es[0].Range();
    } else {
      UsableHas(es[1..], k - 1);
      var i :| 0 <= i < |Usable(es[1..])| && Usable(es[1..])[i] == es[k].Range();
      assert Usable(es)[if es[0].kind == RAM then i + 1 else i] == es[k].Range();
    }
  }

  lemma {:induction false} SortedApart(es: seq<Entry>, j: nat, k: nat)
    requires Sorted(es) && Simple(Ranges(es)) && j < k < |es| && es[k].length > 0
    ensures es[j].End() <= es[k].base
  {
    RangesElements(es);
    CoverTwo(Ranges(es), j, k, es[k].base);
    assert LessEq(es[j], es[k]);
    assert Cover(Ranges(es), es[k].base) <= 1;
  }

  lemma {:induction false} UsableOrdered(es: seq<Entry>)
    requires Sorted(es) && Simple(Ranges(es)) && RamNonEmpty(es)
    ensures Ordered(Usable(es))
  {
    if es != [] {
      var rest := es[1..];
      forall x: int ensures Cover(Ranges(rest), x) <= 1 {
        CoverCons(es[0].Range(), Ranges(rest), x);
        assert Cover(Ranges(es), x) <= 1;
      }
      forall i, j | 0 <= i < j < |rest| ensures LessEq(rest[i], rest[j]) {
        assert LessEq(es[i + 1], es[j + 1]);
      }
      UsableOrdered(rest);
      var u := Usable(rest);
      forall i | 0 <= i < |u| ensures es[0].End() <= u[i].start {
        UsableFrom(rest, i);
        var k :| 0 <= k < |rest| && rest[k].kind == RAM && rest[k].Range() == u[i];
        assert es[k + 1] == rest[k];
        SortedApart(es, 0, k + 1);
      }
    }
  }

  lemma {:induction false} AvoidsByCover(r: seq<Extent>, start: nat, len: nat)
    requires forall x: int :: Extent(start, len).Has(x) ==> Cover(r, x) == 0
    requires len > 0 && forall i :: 0 <= i < |r| ==> r[i].len > 0
    ensures Avoids(r, start, len)
  {
    forall i | 0 <= i < |r| ensures r[i].End() <= start || start + len <= r[i].start {
      if r[i].start < start + len && start < r[i].End() {
        var x := if r[i].start <= start then start else r[i].start;
        CoverAtLeast(r, i, x);
        assert Extent(start, len).Has(x);
      }
    }
  }

  lemma {:induction false} RangesElements(es: seq<Entry>)
    ensures |Ranges(es)| == |es| && forall i :: 0 <= i < |es| ==> Ranges(es)[i] == es[i].Range()
  {
    if es != [] {
      RangesElements(es[1..]);
    }
  }

  lemma {:induction false} SplitNonEmpty(es: seq<Entry>, k: nat, start: nat, len: nat)
    requires k < |es| && es[k].Contains(start, len) && RamNonEmpty(es)
    ensures RamNonEmpty(Sort(Split(es, k, start, len)))
  {
    var s := Split(es, k, start, len);
    var sorted := Sort(s);
    SortIsSorted(s);
    forall i | 0 <= i < |sorted| && sorted[i].kind == RAM ensures sorted[i].length > 0 {
      var e := sorted[i];
      assert e in multiset(sorted);
      assert e in s;
      assert e in es[..k] || e in Parts(es[k], start, len) || e in es[k + 1..];
    }
  }

  lemma {:induction false} SortedSplitFacts(es: seq<Entry>, k: nat, start: nat, len: nat)
    requires Simple(Ranges(es)) && k < |es| && es[k].Contains(start, len)
    ensures var sorted := Sort(Split(es, k, start, len));
      && Simple(Ranges(sorted))
      && forall x: int :: Extent(start, len).Has(x) ==> Cover(Usable(sorted), x) == 0
  {
    var s := Split(es, k, start, len);
    var sorted := Sort(s);
    forall x: int
      ensures Cover(Ranges(sorted), x) <= 1 && (Extent(start, len).Has(x) ==> Cover(Usable(sorted), x) == 0)
    {
      SortCovers(s, x);
      SplitCovers(es, k, start, len, x);
      UsableBelow(es, x);
      assert Cover(Ranges(es), x) <= 1;
      if es[k].kind != RAM && es[k].Range().Has(x) {
        UsableApart(es, k, x);
      }
    }
  }

  /** A byte of an entry that is not RAM is in no RAM entry. */
  lemma {:induction false} UsableApart(es: seq<Entry>, k: nat, x: int)
    requires Simple(Ranges(es)) && k < |es| && es[k].kind != RAM && es[k].Range().Has(x)
    ensures Cover(Usable(es), x) == 0
  {
    assert es == es[..k] + [es[k]] + es[k + 1..];
    CoverAround(es[..k], [es[k]], es[k + 1..], x);
    CoverUsableOne(es[k], x);
    UsableBelow(es[..k], x);
    UsableBelow(es[k + 1..], x);
    assert Cover(Ranges(es), x) <= 1;
  }

  /** After init on disjoint entries with no empty RAM, and the kernel at a page-aligned base, the usable entries are
      sorted, page-aligned, pairwise disjoint and free of every kernel byte. */
  lemma {:induction false} PreparedIsUsable(es: seq<Entry>, k: nat, start: nat, len: nat)
    requires Simple(Ranges(es)) && RamNonEmpty(es)
    requires k < |es| && es[k].Contains(start, len) && start % PAGE == 0
    ensures var usable := Usable(Prepared(es, k, start, len));
      Ordered(usable) && PageAligned(usable) && (len > 0 ==> Avoids(usable, start, len))
  {
    var sorted := Sort(Split(es, k, start, len));
    var u := Usable(sorted);
    SortedSplitFacts(es, k, start, len);
    SplitNonEmpty(es, k, start, len);
    SortIsSorted(Split(es, k, start, len));
    UsableOrdered(sorted);
    UsableAlign(sorted);
    if len > 0 {
      forall i | 0 <= i < |u| ensures u[i].len > 0 {
        UsableFrom(sorted, i);
      }
      AvoidsByCover(u, start, len);
      AlignKeepsOrder(u, start, len);
    } else {
      forall i, j | 0 <= i < j < |u| ensures AlignRange(u[i]).End() <= AlignRange(u[j]).start {
        AlignPair(u[i], u[j]);
      }
    }
  }

  lemma {:induction false} UsableBelow(es: seq<Entry>, x: int)
    ensures Cover(Usable(es), x) <= Cover(Ranges(es), x)
  {
    if es != [] {
      UsableBelow(es[1..], x);
      CoverAround([], [es[0]], es[1..], x);
      assert [] + [es[0]] + es[1..] == es;
      CoverUsableOne(es[0], x);
    }
  }

  lemma {:induction false} AroundEntry(es: seq<Entry>, k: nat, before: seq<Entry>)
    requires k < |es|
    ensures es[..k] + before + es[k..] == es[..k] + before + [es[k]] + es[k + 1..]
    ensures before == [] ==> es == es[..k] + before + [es[k]] + es[k + 1..]
  {
  }

  lemma {:induction false} SplitShape(es: seq<Entry>, k: nat, start: nat, len: nat, before: seq<Entry>)
    requires k < |es| && es[k].Contains(start, len)
    requires before == if es[k].base < start then [Entry(es[k].base, start - es[k].base, RAM, 1)] else []
    ensures var e := es[k];
      var after := if e.End() > start + len then [Entry(start + len, e.End() - (start + len), RAM, 1)] else [];
      && Split(es, k, start, len) ==
           (es[..k] + before) + [Entry(start, len, RESERVED, e.attributes)] + after + es[k + 1..]
  {
  }

  lemma {:induction false} Inserted(s: seq<Entry>, t: seq<Entry>, index: nat, entry: Entry)
    requires index <= |s| && |t| == |s| + 1 && t[index] == entry
    requires forall j :: 0 <= j < index ==> t[j] == s[j]
    requires forall j :: index < j < |t| ==> t[j] == s[j - 1]
    ensures t == s[..index] + [entry] + s[index..]
  {
  }

  // --- the map object ---

  class Map {
    var size: nat
    const entries: array<Entry>

    ghost predicate Valid()
      reads this
    {
      entries.Length == CAPACITY && size <= CAPACITY
    }

    ghost function Contents(): seq<Entry>
      requires Valid()
      reads this, entries
    {
      entries[..size]
    }

    constructor (es: seq<Entry>)
      requires |es| <= CAPACITY
      ensures Valid() && Contents() == es && fresh(entries)
    {
      entries := new Entry[CAPACITY](i => if 0 <= i < |es| then es[i] else Entry(0, 0, 0, 0));
      size := |es|;
    }

    /** Shifts the entries from `index` on by one and puts `entry` there; false where the source would index past the
        array. */
    method AddEntry(entry: Entry, index: nat) returns (ok: bool)
      requires Valid() && index <= size
      modifies this, entries
      ensures Valid() && ok == (old(size) < CAPACITY)
      ensures ok ==> Contents() == old(Contents())[..index] + [entry] + old(Contents())[index..]
    {
      ghost var all := entries[..];
      var prev := entry;
      var i := index;
      while i < size
        invariant index <= i <= size == old(size)
        invariant prev == if i == index then entry else all[i - 1]
        invariant forall j :: 0 <= j < index ==> entries[j] == all[j]
        invariant index < i ==> entries[index] == entry
        invariant forall j :: index < j < i ==> entries[j] == all[j - 1]
        invariant forall j :: i <= j < size ==> entries[j] == all[j]
      {
        var temp := entries[i];
        entries[i] := prev;
        prev := temp;
        i := i + 1;
      }
      if size == CAPACITY {
        return false;
      }
      entries[size] := prev;
      size := size + 1;
      ok := true;
      Inserted(all[..old(size)], Contents(), index, entry);
    }

    /** The library sort: the derived order is total, so the sorted arrangement is this one. */
    method SortEntries()
      requires Valid()
      modifies entries
      ensures Valid() && Contents() == Sort(old(Contents()))
    {
      var sorted := Sort(entries[..size]);
      SortIsSorted(entries[..size]);
      for i := 0 to size
        invariant forall j :: 0 <= j < i ==> entries[j] == sorted[j]
      {
        entries[i] := sorted[i];
      }
    }

    method AlignUsable()
      requires Valid()
      modifies entries
      ensures Valid() && Contents() == AlignAll(old(Contents()))
    {
      for i := 0 to size
        invariant forall j :: 0 <= j < i ==> entries[j] == AlignEntry(old(entries[j]))
        invariant forall j :: i <= j < size ==> entries[j] == old(entries[j])
      {
        if entries[i].kind == RAM {
          var e := entries[i];
          entries[i] := e.(base := AlignUp(e.base, PAGE), length := AlignDown(e.length, PAGE));
        }
      }
    }

    method FindKernelEntry(start: nat, len: nat) returns (k: nat)
      requires Valid()
      ensures k == FindEntry(Contents(), start, len, 0)
    {
      k := size;
      for i := 0 to size
        invariant k == size && FindEntry(Contents(), start, len, 0) == FindEntry(Contents(), start, len, i)
      {
        if entries[i].Contains(start, len) {
          return i;
        }
      }
    }

    /** Reserves the kernel's range inside entry `k`; false where the array overflows. */
    method ReserveKernel(k: nat, start: nat, len: nat) returns (ok: bool)
      requires Valid() && k < size && entries[k].Contains(start, len)
      modifies this, entries
      ensures Valid() && ok == (|Split(old(Contents()), k, start, len)| <= CAPACITY)
      ensures ok ==> Contents() == Split(old(Contents()), k, start, len)
    {
      ghost var es := Contents();
      var index := k;
      var entry := entries[k];
      var prev := Entry(entry.base, start - entry.base, RAM, 1);
      ghost var before := if entry.base < start then [prev] else [];
      if entry.base < start {
        ok := AddEntry(prev, index);
        if !ok {
          return;
        }
        index := index + 1;
      }
      AroundEntry(es, k, before);
      ok := ReserveTail(index, start, len, es[..k] + before, entry, es[k + 1..]);
      SplitShape(es, k, start, len, before);
    }

    /** The part behind the kernel, then the kernel entry itself. */
    method ReserveTail(index: nat, start: nat, len: nat, ghost a: seq<Entry>, ghost entry: Entry, ghost b: seq<Entry>)
      returns (ok: bool)
      requires Valid() && Contents() == a + [entry] + b && index == |a| && entry.Contains(start, len)
      modifies this, entries
      ensures Valid()
      ensures var after :=
          if entry.End() > start + len then [Entry(start + len, entry.End() - (start + len), RAM, 1)] else [];
        && ok == (old(size) + |after| <= CAPACITY)
        && (ok ==> Contents() == a + [Entry(start, len, RESERVED, entry.attributes)] + after + b)
    {
      assert entries[index] == Contents()[index] == entry;
      var end := entries[index].End();
      var attributes := entries[index].attributes;
      ok := true;
      ghost var after := if end > start + len then [Entry(start + len, end - (start + len), RAM, 1)] else [];
      if end > start + len {
        ok := AddEntry(Entry(start + len, end - (start + len), RAM, 1), index + 1);
        if !ok {
          return;
        }
      }
      assert Contents() == a + [entry] + after + b;
      ghost var c := Contents();
      entries[index] := Entry(start, len, RESERVED, attributes);
      assert Contents() == c[index := Entry(start, len, RESERVED, attributes)];
    }

    method Init(start: nat, len: nat) returns (result: InitResult)
      requires Valid()
      modifies this, entries
      ensures Valid()
      ensures var k := FindEntry(old(Contents()), start, len, 0);
        && (result == NoEntry <==> k == old(size))
        && (result == NoEntry ==> Contents() == old(Contents()))
        && (k < old(size) ==>
              && (result == Panic <==> |Split(old(Contents()), k, start, len)| > CAPACITY)
              && (result == Ready ==> Contents() == Prepared(old(Contents()), k, start, len)))
    {
      var k := FindKernelEntry(start, len);
      if k == size {
        return NoEntry;
      }
      var ok := ReserveKernel(k, start, len);
      if !ok {
        return Panic;
      }
      SortEntries();
      AlignUsable();
      result := Ready;
    }
  }
}
