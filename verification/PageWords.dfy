/** Page tables as the words in memory that the code reads and writes, with indices and offsets cut out by shifts: the
    translation of the words is that of the entries they encode. */
module PageWords {
  import opened Basics
  import opened PageTable

  /** 512 words a frame; a frame never written reads as zero. */
  type Words = map<nat, seq<nat>>

  function WordsAt(w: Words, t: nat): (r: seq<nat>)
    ensures |r| == ENTRIES
  {
    if t in w && |w[t]| == ENTRIES then w[t] else seq(ENTRIES, _ => 0)
  }

  function WriteWord(w: Words, t: nat, i: nat, word: nat): Words
    requires i < ENTRIES
  {
    w[t := WordsAt(w, t)[i := word]]
  }

  function EntryIndex(v: nat, l: nat): nat
    requires 1 <= l <= 4
  {
    var factor := if l == 4 then 0x1_0000 else if l == 3 then 0x200_0000 else if l == 2 then 0x4_0000_0000
                  else 0x800_0000_0000;
    ShiftLeft(v, factor) / 0x80_0000_0000_0000
  }

  function PageOffset(v: nat, l: nat): nat {
    var factor := if l == 3 then 0x4_0000_0000 else if l == 2 then 0x800_0000_0000 else 0x10_0000_0000_0000;
    ShiftLeft(v, factor) / factor
  }

  lemma {:induction false} ShiftsCut(v: nat, l: nat)
    requires v < WORD && 1 <= l <= 4
    ensures EntryIndex(v, l) == Index(v, l) && PageOffset(v, l) == Offset(v, l)
  {
    IndexByShifts(v);
    OffsetByShifts(v);
  }

  function ReadEntry(w: Words, t: nat, l: nat, i: nat): Lookup
    requires 1 <= l <= 4 && i < ENTRIES
  {
    Interpret(DecodeEntry(WordsAt(w, t)[i]), l)
  }

  function DeepestTable(w: Words, t: nat, l: nat, v: nat): (r: (nat, nat))
    requires 1 <= l <= 4 && v < WORD
    ensures 1 <= r.1 <= l
    decreases l
  {
    ShiftsCut(v, l);
    if l == 1 then (t, 1)
    else match ReadEntry(w, t, l, EntryIndex(v, l))
      case NextTable(n) => DeepestTable(w, n, l - 1, v)
      case _ => (t, l)
  }

  function TranslateWords(w: Words, root: nat, v: nat): Option<nat>
    requires v < WORD
  {
    var (t, l) := DeepestTable(w, root, 4, v);
    ShiftsCut(v, l);
    match ReadEntry(w, t, l, EntryIndex(v, l))
    case Leaf(frame) => Some(frame + PageOffset(v, l))
    case _ => None
  }

  /** What a word means at a level, by its bits: zero is unmapped; level 4 always leads on and level 1 never does, and
      in between bit 7 decides; bits 12 to 51 are the address. */
  lemma {:induction false} WordMeans(word: nat, l: nat)
    requires 1 <= l <= 4
    ensures var r := Interpret(DecodeEntry(word), l);
      && (r.Unmapped? <==> word == 0)
      && (r.Leaf? <==> word != 0 && (l == 1 || (l < 4 && word / 128 % 2 == 1)))
      && (r.Leaf? ==> r.frame == word / 0x1000 % 0x100_0000_0000 * 0x1000)
      && (r.NextTable? ==> r.table == word / 0x1000 % 0x100_0000_0000 * 0x1000)
  {
    var page := word / 0x1000 % 0x100_0000_0000;
    AddressBelow(word, page);
    BitKept(word - page * 0x1000, page);
  }

  lemma {:induction false} AddressBelow(word: nat, page: nat)
    requires page == word / 0x1000 % 0x100_0000_0000
    ensures page * 0x1000 <= word
  {
  }

  lemma {:induction false} BitKept(flags: nat, page: nat)
    ensures (flags + page * 0x1000) / 128 % 2 == flags / 128 % 2
  {
    assert (flags + page * 0x1000) / 128 == flags / 128 + page * 32;
  }

  // --- the entries the words encode ---

  function Encoded(frame: seq<Entry>): (r: seq<nat>)
    ensures |r| == |frame|
  {
    seq(|frame|, i requires 0 <= i < |frame| => EncodeEntry(frame[i]))
  }

  ghost function WordsOf(mem: Memory): Words {
    map t | t in mem :: Encoded(FrameAt(mem, t))
  }

  ghost predicate WellFormed(mem: Memory) {
    forall t, i | 0 <= i < ENTRIES :: WellFormedEntry(FrameAt(mem, t)[i])
  }

  lemma {:induction false} FrameWords(mem: Memory, t: nat)
    ensures WordsAt(WordsOf(mem), t) == Encoded(FrameAt(mem, t))
  {
  }

  lemma {:induction false} EntryAt(mem: Memory, t: nat, i: nat, e: Entry)
    requires WellFormed(mem) && i < ENTRIES && e == FrameAt(mem, t)[i]
    ensures DecodeEntry(EncodeEntry(e)) == e && (EncodeEntry(e) == 0 <==> !IsMapped(e))
  {
    assert WellFormedEntry(FrameAt(mem, t)[i]);
    EntryRoundTrip(e);
  }

  /** Reading a word is reading its entry: the zero test, both masks and the bit for huge pages. */
  lemma {:induction false} ReadsTheEntry(mem: Memory, t: nat, l: nat, i: nat)
    requires WellFormed(mem) && 1 <= l <= 4 && i < ENTRIES
    ensures ReadEntry(WordsOf(mem), t, l, i) == GetEntry(mem, t, l, i)
    ensures WordsAt(WordsOf(mem), t)[i] == 0 <==> GetEntry(mem, t, l, i).Unmapped?
  {
    EntryAt(mem, t, i, FrameAt(mem, t)[i]);
    FrameWords(mem, t);
  }

  /** Writing the word of an entry is writing the entry. */
  lemma {:induction false} WritesTheEntry(mem: Memory, t: nat, i: nat, e: Entry)
    requires i < ENTRIES
    ensures WordsOf(Write(mem, t, i, e)) == WriteWord(WordsOf(mem), t, i, EncodeEntry(e))
  {
    var mem', w' := Write(mem, t, i, e), WriteWord(WordsOf(mem), t, i, EncodeEntry(e));
    FrameWords(mem, t);
    assert Encoded(FrameAt(mem', t)) == Encoded(FrameAt(mem, t))[i := EncodeEntry(e)];
    forall s | s in mem' ensures WordsOf(mem')[s] == w'[s] {
      assert s != t ==> FrameAt(mem', s) == FrameAt(mem, s);
    }
  }

  lemma {:induction false} StaysWellFormed(mem: Memory, t: nat, i: nat, e: Entry)
    requires WellFormed(mem) && i < ENTRIES && WellFormedEntry(e)
    ensures WellFormed(Write(mem, t, i, e))
  {
    var mem' := Write(mem, t, i, e);
    forall s, j | 0 <= j < ENTRIES ensures WellFormedEntry(FrameAt(mem', s)[j]) {
      assert WellFormedEntry(FrameAt(mem, s)[j]);
      assert s != t ==> FrameAt(mem', s) == FrameAt(mem, s);
    }
  }

  lemma {:induction false} SameDeepest(mem: Memory, t: nat, l: nat, v: nat)
    requires WellFormed(mem) && 1 <= l <= 4 && v < WORD
    ensures DeepestTable(WordsOf(mem), t, l, v) == Deepest(mem, t, l, v)
    decreases l
  {
    ShiftsCut(v, l);
    ReadsTheEntry(mem, t, l, Index(v, l));
    if l > 1 && GetEntry(mem, t, l, Index(v, l)).NextTable? {
      SameDeepest(mem, GetEntry(mem, t, l, Index(v, l)).table, l - 1, v);
    }
  }

  /** Every 64-bit address translates through the words as through the entries. */
  lemma {:induction false} SameTranslation(mem: Memory, root: nat, v: nat)
    requires WellFormed(mem) && v < WORD
    ensures TranslateWords(WordsOf(mem), root, v) == ToPhys(mem, root, v)
  {
    SameDeepest(mem, root, 4, v);
    var (t, l) := Deepest(mem, root, 4, v);
    ShiftsCut(v, l);
    ReadsTheEntry(mem, t, l, Index(v, l));
  }
}
