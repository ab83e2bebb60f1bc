/** Byte ranges and how often a list of ranges covers each byte. Counting is additive over lists, so moving, splitting
    and reordering ranges are all followed by the same few lemmas. */
module Extents {

  datatype Extent = Extent(start: nat, len: nat) {
    function End(): nat { start + len }
    predicate Has(x: int) { start <= x < start + len }
  }

  function Hits(e: Extent, x: int): nat {
    if e.Has(x) then 1 else 0
  }

  /** The number of ranges of `s` that contain byte `x`. */
  ghost function Cover(s: seq<Extent>, x: int): nat {
    if s == [] then 0 else Hits(s[0], x) + Cover(s[1..], x)
  }

  ghost function Bytes(s: seq<Extent>): nat {
    if s == [] then 0 else s[0].len + Bytes(s[1..])
  }

  ghost predicate Disjoint(a: Extent, b: Extent) {
    forall x: int :: !(a.Has(x) && b.Has(x))
  }

  ghost predicate PairwiseDisjoint(s: seq<Extent>) {
    forall i, j :: 0 <= i < j < |s| ==> Disjoint(s[i], s[j])
  }

  /** `s` covers every byte of `whole` exactly once and no other byte at all. */
  ghost predicate Tiles(s: seq<Extent>, whole: Extent) {
    forall x: int :: Cover(s, x) == Hits(whole, x)
  }

  lemma {:induction false} CoverConcat(a: seq<Extent>, b: seq<Extent>, x: int)
    ensures Cover(a + b, x) == Cover(a, x) + Cover(b, x)
  {
    if a == [] {
      assert a + b == b;
    } else {
      assert (a + b)[1..] == a[1..] + b;
      CoverConcat(a[1..], b, x);
    }
  }

  lemma {:induction false} BytesConcat(a: seq<Extent>, b: seq<Extent>)
    ensures Bytes(a + b) == Bytes(a) + Bytes(b)
  {
    if a == [] {
      assert a + b == b;
    } else {
      assert (a + b)[1..] == a[1..] + b;
      BytesConcat(a[1..], b);
    }
  }

  lemma {:induction false} CoverCons(e: Extent, s: seq<Extent>, x: int)
    ensures Cover([e] + s, x) == Hits(e, x) + Cover(s, x)
  {
  }

  lemma {:induction false} CoverSnoc(s: seq<Extent>, e: Extent, x: int)
    ensures Cover(s + [e], x) == Cover(s, x) + Hits(e, x)
  {
    CoverConcat(s, [e], x);
    assert [e][1..] == [];
  }

  lemma {:induction false} CoverRemove(s: seq<Extent>, i: nat, x: int)
    requires i < |s|
    ensures Cover(s, x) == Cover(s[..i] + s[i + 1..], x) + Hits(s[i], x)
  {
    assert s == s[..i] + ([s[i]] + s[i + 1..]);
    CoverConcat(s[..i], [s[i]] + s[i + 1..], x);
    CoverCons(s[i], s[i + 1..], x);
    CoverConcat(s[..i], s[i + 1..], x);
  }

  lemma {:induction false} CoverAtLeast(s: seq<Extent>, i: nat, x: int)
    requires i < |s|
    ensures Cover(s, x) >= Hits(s[i], x)
  {
    CoverRemove(s, i, x);
  }

  lemma {:induction false} CoverTwo(s: seq<Extent>, i: nat, j: nat, x: int)
    requires i < j < |s|
    ensures Cover(s, x) >= Hits(s[i], x) + Hits(s[j], x)
  {
    CoverRemove(s, i, x);
    CoverAtLeast(s[..i] + s[i + 1..], j - 1, x);
  }

  lemma {:induction false} CoverNone(s: seq<Extent>, x: int)
    requires forall i :: 0 <= i < |s| ==> !s[i].Has(x)
    ensures Cover(s, x) == 0
  {
    if s != [] {
      forall i | 0 <= i < |s[1..]| ensures !s[1..][i].Has(x) {
        assert s[1..][i] == s[i + 1];
      }
      CoverNone(s[1..], x);
    }
  }

  /** No byte is covered twice. */
  ghost predicate Simple(s: seq<Extent>) {
    forall x: int :: Cover(s, x) <= 1
  }

  /** Covering no byte twice is the same as being pairwise disjoint. */
  lemma {:induction false} CoverIsDisjointness(s: seq<Extent>)
    ensures Simple(s) <==> PairwiseDisjoint(s)
  {
    if Simple(s) {
      forall i, j | 0 <= i < j < |s| ensures Disjoint(s[i], s[j]) {
        forall x: int ensures !(s[i].Has(x) && s[j].Has(x)) {
          CoverTwo(s, i, j, x);
          assert Cover(s, x) <= 1;
        }
      }
    }
    if PairwiseDisjoint(s) {
      forall x: int ensures Cover(s, x) <= 1 {
        DisjointCover(s, x);
      }
    }
  }

  lemma {:induction false} DisjointCover(s: seq<Extent>, x: int)
    requires PairwiseDisjoint(s)
    ensures Cover(s, x) <= 1
  {
    if s != [] {
      forall i, j | 0 <= i < j < |s[1..]| ensures Disjoint(s[1..][i], s[1..][j]) {
        assert Disjoint(s[i + 1], s[j + 1]);
      }
      if s[0].Has(x) {
        forall i | 0 <= i < |s[1..]| ensures !s[1..][i].Has(x) {
          assert Disjoint(s[0], s[i + 1]);
        }
        CoverNone(s[1..], x);
      } else {
        DisjointCover(s[1..], x);
      }
    }
  }

  /** Covers added up over the bytes `lo .. lo + n`. */
  ghost function Total(s: seq<Extent>, lo: nat, n: nat): nat {
    if n == 0 then 0 else Total(s, lo, n - 1) + Cover(s, lo + n - 1)
  }

  lemma {:induction false} TotalOne(e: Extent, lo: nat, n: nat)
    ensures Total([e], lo, n) ==
      if n == 0 || e.End() <= lo || lo + n <= e.start then 0
      else (if e.End() <= lo + n then e.End() else lo + n) - (if e.start <= lo then lo else e.start)
  {
    if n > 0 {
      TotalOne(e, lo, n - 1);
      CoverCons(e, [], lo + n - 1);
      assert [e] + [] == [e];
    }
  }

  lemma {:induction false} TotalCons(e: Extent, s: seq<Extent>, lo: nat, n: nat)
    ensures Total([e] + s, lo, n) == Total([e], lo, n) + Total(s, lo, n)
  {
    if n > 0 {
      TotalCons(e, s, lo, n - 1);
      CoverConcat([e], s, lo + n - 1);
    }
  }

  lemma {:induction false} TotalIsBytes(s: seq<Extent>, whole: Extent)
    requires forall x: int :: Cover(s, x) <= Hits(whole, x)
    ensures Total(s, whole.start, whole.len) == Bytes(s)
  {
    if s == [] {
      TotalEmpty(whole.start, whole.len);
    } else {
      assert s == [s[0]] + s[1..];
      TotalCons(s[0], s[1..], whole.start, whole.len);
      TotalOne(s[0], whole.start, whole.len);
      if s[0].len > 0 {
        assert Cover(s, s[0].start) <= Hits(whole, s[0].start);
        assert Cover(s, s[0].End() - 1) <= Hits(whole, s[0].End() - 1);
      }
      forall x: int ensures Cover(s[1..], x) <= Hits(whole, x) {
        assert Cover(s, x) <= Hits(whole, x);
      }
      TotalIsBytes(s[1..], whole);
    }
  }

  lemma {:induction false} TotalEmpty(lo: nat, n: nat)
    ensures Total([], lo, n) == 0
  {
    if n > 0 {
      TotalEmpty(lo, n - 1);
    }
  }

  lemma {:induction false} TotalFull(s: seq<Extent>, lo: nat, n: nat)
    requires forall x: int :: lo <= x < lo + n ==> Cover(s, x) == 1
    ensures Total(s, lo, n) == n
  {
    if n > 0 {
      TotalFull(s, lo, n - 1);
    }
  }

  /** A tiling has exactly as many bytes as what it tiles. */
  lemma {:induction false} TilingConservesBytes(s: seq<Extent>, whole: Extent)
    requires Tiles(s, whole)
    ensures Bytes(s) == whole.len
  {
    TotalIsBytes(s, whole);
    forall x: int | whole.start <= x < whole.start + whole.len ensures Cover(s, x) == 1 {
      assert Cover(s, x) == Hits(whole, x);
    }
    TotalFull(s, whole.start, whole.len);
  }
}
