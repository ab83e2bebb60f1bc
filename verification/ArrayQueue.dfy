/** The fixed-size ring queue between one consumer and an interrupt handler that produces. A pop can be interrupted
    between any two of its memory accesses by complete pushes. */
module ArrayQueue {
  import opened Basics

  datatype Ring<T> = Ring(buffer: seq<Option<T>>, head: nat, tail: nat) {
    function Size(): nat { |buffer| }
    predicate InRange() { head < |buffer| && tail < |buffer| }
  }

  function Succ(i: nat, size: nat): (r: nat)
    requires i < size
    ensures r == if i + 1 == size then 0 else i + 1
  {
    (i + 1) % size
  }

  /** Position `i` places after `start` on the ring. */
  function At(start: nat, i: nat, size: nat): nat
    requires start < size && i <= size
  {
    if start + i < size then start + i else start + i - size
  }

  predicate IsEmpty<T>(r: Ring<T>)
    requires r.InRange()
  {
    r.head == r.tail && r.buffer[r.head].None?
  }

  predicate IsFull<T>(r: Ring<T>)
    requires r.InRange()
  {
    r.head == r.tail && !r.buffer[r.head].None?
  }

  /** An uninterrupted push. */
  function Push<T>(r: Ring<T>, value: T): (bool, Ring<T>)
    requires r.InRange()
  {
    if IsFull(r) then (false, r)
    else (true, r.(tail := Succ(r.tail, r.Size()), buffer := r.buffer[r.tail := Some(value)]))
  }

  // --- the consumer, one memory access at a time ---

  datatype Pc<T> =
    | Ready                                          // between pops
    | Loaded(slot: nat)                               // head loaded
    | SawHead(slot: nat, h: nat)                      // emptiness test: head loaded again
    | SawTail(slot: nat, h: nat, t: nat)              // emptiness test: tail loaded
    | Trying(slot: nat)                               // not empty: about to compare-and-exchange
    | Taken(slot: nat)                                // head moved past `slot`
    | Copied(slot: nat, value: Option<T>)             // slot copied, not yet cleared

  /** The queue, the consumer's position, and what has been accepted and returned so far. */
  datatype System<T> = System(ring: Ring<T>, pc: Pc<T>, pushed: seq<T>, popped: seq<Option<T>>)

  datatype Move<T> =
    | Consume(spurious: bool)    // the consumer's next access; the exchange may fail without cause
    | Interrupt(value: T)        // a complete push

  predicate Enabled<T>(s: System<T>) {
    s.ring.InRange() &&
    match s.pc
    case Ready => true
    case Loaded(slot) => slot < s.ring.Size()
    case SawHead(slot, h) => slot < s.ring.Size() && h < s.ring.Size()
    case SawTail(slot, h, t) => slot < s.ring.Size() && h < s.ring.Size()
    case Trying(slot) => slot < s.ring.Size()
    case Taken(slot) => slot < s.ring.Size()
    case Copied(slot, _) => slot < s.ring.Size()
  }

  function Step<T>(s: System<T>, m: Move<T>): (s': System<T>)
    requires Enabled(s)
    ensures Enabled(s') && s'.ring.Size() == s.ring.Size()
  {
    match m
    case Interrupt(v) =>
      var (ok, ring) := Push(s.ring, v);
      if ok then s.(ring := ring, pushed := s.pushed + [v]) else s
    case Consume(spurious) =>
      match s.pc
      case Ready => s.(pc := Loaded(s.ring.head))
      case Loaded(slot) => s.(pc := SawHead(slot, s.ring.head))
      case SawHead(slot, h) => s.(pc := SawTail(slot, h, s.ring.tail))
      case SawTail(slot, h, t) =>
        if h == t && s.ring.buffer[h].None? then s.(pc := Ready, popped := s.popped + [None])
        else s.(pc := Trying(slot))
      case Trying(slot) =>
        if spurious || s.ring.head != slot then s.(pc := Loaded(s.ring.head))
        else s.(pc := Taken(slot), ring := s.ring.(head := Succ(slot, s.ring.Size())))
      case Taken(slot) => s.(pc := Copied(slot, s.ring.buffer[slot]))
      case Copied(slot, value) =>
        s.(pc := Ready, ring := s.ring.(buffer := s.ring.buffer[slot := None]), popped := s.popped + [value])
  }

  /** An uninterrupted pop. */
  function Pop<T>(s: System<T>): System<T>
    requires Enabled(s)
  {
    if IsEmpty(s.ring) then s.(popped := s.popped + [None])
    else
      var r := s.ring;
      s.(ring := Ring(r.buffer[r.head := None], Succ(r.head, r.Size()), r.tail),
         popped := s.popped + [r.buffer[r.head]])
  }

  /** The consumer alone, from having loaded the head until its pop returns; the exchange first fails `failures` times.
      */
  function Alone<T>(s: System<T>, failures: nat): System<T>
    requires Enabled(s)
    decreases failures
  {
    var tested := Step(Step(Step(s, Consume(false)), Consume(false)), Consume(false));
    if !tested.pc.Trying? then tested
    else if failures > 0 then Alone(Step(tested, Consume(true)), failures - 1)
    else Step(Step(Step(tested, Consume(false)), Consume(false)), Consume(false))
  }

  /** Without interruption the steps amount to one pop, however often the exchange fails. */
  lemma {:induction false} AloneIsPop<T>(s: System<T>, failures: nat)
    requires Enabled(s) && s.pc.Ready?
    ensures Alone(Step(s, Consume(false)), failures) == Pop(s)
  {
    var loaded := Step(s, Consume(false));
    var tested := Step(Step(Step(loaded, Consume(false)), Consume(false)), Consume(false));
    if failures > 0 && tested.pc.Trying? {
      assert Step(tested, Consume(true)) == loaded;
      AloneIsPop(s, failures - 1);
    }
  }

  // --- the queue as a list ---

  /** Values handed out so far, leaving out the empty answers. */
  function Values<T>(popped: seq<Option<T>>): seq<T> {
    if popped == [] then []
    else Values(popped[..|popped| - 1])
         + (if popped[|popped| - 1].Some? then [popped[|popped| - 1].value] else [])
  }

  predicate InFlight<T>(pc: Pc<T>) {
    pc.Taken? || pc.Copied?
  }

  /** The items stored, not counting the one being popped. */
  function Stored<T>(s: System<T>): nat {
    if |s.pushed| >= |Values(s.popped)| + (if InFlight(s.pc) then 1 else 0)
    then |s.pushed| - |Values(s.popped)| - (if InFlight(s.pc) then 1 else 0)
    else 0
  }

  /** The slots from `head` on hold the items `first ..` of `pushed`, all other slots but `spare` are empty. */
  ghost predicate Holds<T>(r: Ring<T>, pushed: seq<T>, first: nat, n: nat, spare: Option<nat>)
    requires r.InRange() && first + n <= |pushed| && n <= r.Size()
  {
    && (forall i :: 0 <= i < n ==> r.buffer[At(r.head, i, r.Size())] == Some(pushed[first + i]))
    && (forall i :: n <= i < r.Size() && Some(At(r.head, i, r.Size())) != spare ==>
          r.buffer[At(r.head, i, r.Size())].None?)
  }

  /** The system is a bounded FIFO: what was returned, what is being returned and what is stored are together exactly
      what was accepted, in order. */
  ghost predicate Fifo<T>(s: System<T>) {
    && Enabled(s)
    && var size, done := s.ring.Size(), |Values(s.popped)|;
    var flight := if InFlight(s.pc) then 1 else 0;
    var n := Stored(s);
    && done + flight + n == |s.pushed| && n + flight <= size
    && Values(s.popped) == s.pushed[..done]
    && s.ring.tail == At(s.ring.head, n, size)
    && Holds(s.ring, s.pushed, done + flight, n, if InFlight(s.pc) then Some(s.pc.slot) else None)
    && match s.pc
       case Ready => true
       case Loaded(slot) => slot == s.ring.head
       case SawHead(slot, h) => slot == s.ring.head == h
       case SawTail(slot, h, t) => slot == s.ring.head == h && (t != h ==> n >= 1)
       case Trying(slot) => slot == s.ring.head && n >= 1
       case Taken(slot) => Succ(slot, size) == s.ring.head && s.ring.buffer[slot] == Some(s.pushed[done])
       case Copied(slot, value) =>
         Succ(slot, size) == s.ring.head && s.ring.buffer[slot] == value == Some(s.pushed[done])
  }

  lemma {:induction false} ValuesSnoc<T>(popped: seq<Option<T>>, v: Option<T>)
    ensures Values(popped + [v]) == Values(popped) + (if v.Some? then [v.value] else [])
  {
  }

  /** Distinct offsets are distinct positions. */
  lemma {:induction false} AtInjective(start: nat, i: nat, j: nat, size: nat)
    requires start < size && i < size && j < size
    ensures At(start, i, size) == At(start, j, size) <==> i == j
  {
  }

  lemma {:induction false} AtSucc(start: nat, i: nat, size: nat)
    requires start < size && i < size
    ensures At(Succ(start, size), i, size) == if i + 1 == size then start else At(start, i + 1, size)
    ensures Succ(At(start, i, size), size) == At(start, i + 1, size)
  {
  }

  // --- pushes ---

  /** A push may overwrite the slot of a pop in flight exactly when the tail has come round to it. */
  predicate Clashes<T>(s: System<T>) {
    InFlight(s.pc) && s.ring.tail == s.pc.slot && s.ring.Size() > 1
  }

  lemma {:induction false} FullMeansFull<T>(s: System<T>)
    requires Fifo(s)
    ensures IsFull(s.ring) <==> Stored(s) == s.ring.Size() || (s.ring.Size() == 1 && InFlight(s.pc))
    ensures !InFlight(s.pc) ==> (IsEmpty(s.ring) <==> Stored(s) == 0)
    ensures Clashes(s) <==> InFlight(s.pc) && Stored(s) + 1 == s.ring.Size() > 1
  {
    var size, n := s.ring.Size(), Stored(s);
    assert At(s.ring.head, 0, size) == s.ring.head;
    if InFlight(s.pc) {
      assert At(s.ring.head, size - 1, size) == s.pc.slot;
      AtInjective(s.ring.head, n, size - 1, size);
    }
    if n < size {
      AtInjective(s.ring.head, n, 0, size);
    }
  }

  lemma {:induction false} PushHolds<T>(r: Ring<T>, pushed: seq<T>, first: nat, n: nat, spare: Option<nat>, v: T)
    requires r.InRange() && first + n == |pushed| && n < r.Size() && r.tail == At(r.head, n, r.Size())
    requires Holds(r, pushed, first, n, spare)
    ensures Holds(r.(tail := Succ(r.tail, r.Size()), buffer := r.buffer[r.tail := Some(v)]), pushed + [v], first, n + 1,
                  spare)
  {
  }

  /** A push keeps the queue a FIFO exactly when it does not clash with a pop in flight. */
  lemma {:induction false} PushKeepsFifo<T>(s: System<T>, v: T)
    requires Fifo(s)
    ensures Fifo(Step(s, Interrupt(v))) <==> !Clashes(s)
  {
    FullMeansFull(s);
    var size, n := s.ring.Size(), Stored(s);
    var s' := Step(s, Interrupt(v));
    if !IsFull(s.ring) {
      assert s'.pushed == s.pushed + [v];
      if !Clashes(s) {
        var done := |Values(s.popped)|;
        var flight := if InFlight(s.pc) then 1 else 0;
        PushHolds(s.ring, s.pushed, done + flight, n, if InFlight(s.pc) then Some(s.pc.slot) else None, v);
        AtSucc(s.ring.head, n, size);
        assert Values(s'.popped) == s'.pushed[..done];
        assert Stored(s') == n + 1;
        if InFlight(s.pc) {
          assert s.pc.slot != s.ring.tail;
        }
      } else {
        assert Stored(s') + 1 > size;
      }
    }
  }

  // --- the consumer's steps ---

  lemma {:induction false} ConsumeKeepsFifo<T>(s: System<T>, spurious: bool)
    requires Fifo(s)
    ensures Fifo(Step(s, Consume(spurious)))
  {
    var s' := Step(s, Consume(spurious));
    match s.pc
    case Ready =>
    case Loaded(slot) =>
    case SawHead(slot, h) =>
      FullMeansFull(s);
      assert At(s.ring.head, 0, s.ring.Size()) == s.ring.head;
    case SawTail(slot, h, t) => TestKeepsFifo(s, spurious);
    case Trying(slot) =>
      if !spurious {
        TakeKeepsFifo(s);
      }
    case Taken(slot) =>
    case Copied(slot, value) => ClearKeepsFifo(s);
  }

  lemma {:induction false} TestKeepsFifo<T>(s: System<T>, spurious: bool)
    requires Fifo(s) && s.pc.SawTail?
    ensures Fifo(Step(s, Consume(spurious)))
  {
    var s' := Step(s, Consume(spurious));
    assert At(s.ring.head, 0, s.ring.Size()) == s.ring.head;
    if s'.pc.Ready? {
      ValuesSnoc(s.popped, None);
    }
  }

  lemma {:induction false} TakeKeepsFifo<T>(s: System<T>)
    requires Fifo(s) && s.pc.Trying?
    ensures Fifo(Step(s, Consume(false)))
  {
    var s' := Step(s, Consume(false));
    var size, n, done := s.ring.Size(), Stored(s), |Values(s.popped)|;
    assert At(s.ring.head, 0, size) == s.ring.head;
    forall i | 0 <= i < n - 1 ensures s'.ring.buffer[At(s'.ring.head, i, size)] == Some(s.pushed[done + 1 + i]) {
      AtSucc(s.ring.head, i, size);
    }
    forall i | n - 1 <= i < size && At(s'.ring.head, i, size) != s.pc.slot
      ensures s'.ring.buffer[At(s'.ring.head, i, size)].None?
    {
      AtSucc(s.ring.head, i, size);
    }
    AtSucc(s.ring.head, n - 1, size);
  }

  lemma {:induction false} ClearKeepsFifo<T>(s: System<T>)
    requires Fifo(s) && s.pc.Copied?
    ensures Fifo(Step(s, Consume(false)))
  {
    var s' := Step(s, Consume(false));
    var size, n, done := s.ring.Size(), Stored(s), |Values(s.popped)|;
    ValuesSnoc(s.popped, s.pc.value);
    assert s.pushed[..done] + [s.pushed[done]] == s.pushed[..done + 1];
    assert At(s.ring.head, size - 1, size) == s.pc.slot;
    forall i | 0 <= i < n ensures s'.ring.buffer[At(s.ring.head, i, size)] == Some(s.pushed[done + 1 + i]) {
      AtInjective(s.ring.head, i, size - 1, size);
    }
  }

  // --- whole runs ---

  function Run<T>(s: System<T>, moves: seq<Move<T>>): (s': System<T>)
    requires Enabled(s)
    ensures Enabled(s') && s'.ring.Size() == s.ring.Size()
    decreases |moves|
  {
    if moves == [] then s else Run(Step(s, moves[0]), moves[1..])
  }

  /** No push of the run meets a pop in flight with the ring otherwise full. */
  predicate Safe<T>(s: System<T>, moves: seq<Move<T>>)
    requires Enabled(s)
    decreases |moves|
  {
    moves == [] || (!(moves[0].Interrupt? && Clashes(s)) && Safe(Step(s, moves[0]), moves[1..]))
  }

  lemma {:induction false} StepKeepsFifo<T>(s: System<T>, m: Move<T>)
    requires Fifo(s)
    ensures Fifo(Step(s, m)) <==> !(m.Interrupt? && Clashes(s))
  {
    match m
    case Interrupt(v) => PushKeepsFifo(s, v);
    case Consume(spurious) => ConsumeKeepsFifo(s, spurious);
  }

  ghost predicate AlwaysFifo<T>(s: System<T>, moves: seq<Move<T>>)
    requires Enabled(s)
    decreases |moves|
  {
    Fifo(s) && (moves == [] || AlwaysFifo(Step(s, moves[0]), moves[1..]))
  }

  /** The queue is a FIFO at every point of a run exactly when the run is safe. */
  lemma {:induction false} FifoThroughout<T>(s: System<T>, moves: seq<Move<T>>)
    requires Fifo(s)
    ensures AlwaysFifo(s, moves) <==> Safe(s, moves)
    ensures Safe(s, moves) ==> Fifo(Run(s, moves))
    decreases |moves|
  {
    if moves != [] {
      StepKeepsFifo(s, moves[0]);
      if Fifo(Step(s, moves[0])) {
        FifoThroughout(Step(s, moves[0]), moves[1..]);
      }
    }
  }

  function Fresh<T>(size: nat): System<T>
    requires size > 0
  {
    System(Ring(seq(size, _ => None), 0, 0), Ready, [], [])
  }

  /** Over every safe run from the empty queue, the values returned are the accepted ones in order, without loss or
      duplication, and never more than `size` are under way. */
  lemma {:induction false} QueueIsFifo<T>(size: nat, moves: seq<Move<T>>)
    requires size > 0 && Safe(Fresh<T>(size), moves)
    ensures var s := Run(Fresh<T>(size), moves);
      && Values(s.popped) <= s.pushed
      && |s.pushed| - |Values(s.popped)| <= size
  {
    assert Fifo(Fresh<T>(size));
    FifoThroughout(Fresh<T>(size), moves);
  }

  /** A pop answers "empty" only while nothing is stored. */
  lemma {:induction false} EmptyAnswerIsTrue<T>(s: System<T>, spurious: bool)
    requires Fifo(s) && |Step(s, Consume(spurious)).popped| == |s.popped| + 1
    ensures Step(s, Consume(spurious)).popped[|s.popped|].None? ==> s.pc.SawTail? && Stored(s) == 0
  {
    assert At(s.ring.head, 0, s.ring.Size()) == s.ring.head;
  }

  // --- every run, clash or not ---

  function Pred(i: nat, size: nat): (r: nat)
    requires i < size
    ensures r < size && Succ(r, size) == i
  {
    if i == 0 then size - 1 else i - 1
  }

  /** The position lies from `tail` up to, but not including, `head`. */
  predicate Between(tail: nat, k: nat, head: nat) {
    if tail <= head then tail <= k < head else k >= tail || k < head
  }

  /** If the slot behind the tail is empty, so are all slots from the tail to the head, but for the one being popped. */
  ghost predicate Drained<T>(s: System<T>) {
    && Enabled(s)
    && (InFlight(s.pc) ==> s.ring.head == Succ(s.pc.slot, s.ring.Size()))
    && (s.ring.buffer[Pred(s.ring.tail, s.ring.Size())].None? ==>
         forall k :: 0 <= k < s.ring.Size() && Between(s.ring.tail, k, s.ring.head) ==>
           s.ring.buffer[k].None? || (InFlight(s.pc) && k == s.pc.slot))
  }

  /** Every access of either side keeps that, also through clashes. */
  lemma {:induction false} StepKeepsDrained<T>(s: System<T>, m: Move<T>)
    requires Drained(s)
    ensures Drained(Step(s, m))
  {
  }

  /** The pop under way has seen the ring as it is. */
  ghost predicate Undisturbed<T>(s: System<T>)
    requires Enabled(s)
  {
    match s.pc
    case Ready => true
    case Loaded(slot) => slot == s.ring.head
    case SawHead(slot, h) => slot == s.ring.head == h
    case SawTail(slot, h, t) => slot == s.ring.head == h && t == s.ring.tail
    case Trying(slot) => slot == s.ring.head && !IsEmpty(s.ring)
    case Taken(slot) => s.ring.buffer[slot].None? ==> !IsFull(s.ring)
    case Copied(slot, value) => value == s.ring.buffer[slot] && (value.None? ==> !IsFull(s.ring))
  }

  /** A pop that is not interrupted and answers none leaves a ring that is not full, whatever clashed before. */
  lemma {:induction false} NoneMeansRoom<T>(s: System<T>, spurious: bool)
    requires Drained(s) && Undisturbed(s)
    ensures var s' := Step(s, Consume(spurious));
      && Undisturbed(s')
      && (|s'.popped| == |s.popped| + 1 && s'.popped[|s.popped|].None? ==> !IsFull(s'.ring))
  {
  }

  // --- the clash ---

  /** A ring whose first `n` slots hold 0 to `n` - 1. */
  function Filled(size: nat, n: nat): System<nat>
    requires n <= size
  {
    System(Ring(seq(size, i => if i < n then Some(i) else None), 0, if n == size then 0 else n), Ready,
           seq(n, i => i), [])
  }

  lemma {:induction false} RunConcat<T>(s: System<T>, a: seq<Move<T>>, b: seq<Move<T>>)
    requires Enabled(s)
    ensures Run(s, a + b) == Run(Run(s, a), b)
    decreases |a|
  {
    if a == [] {
      assert a + b == b;
    } else {
      assert (a + b)[0] == a[0] && (a + b)[1..] == a[1..] + b;
      RunConcat(Step(s, a[0]), a[1..], b);
    }
  }

  lemma {:induction false} FillOne(size: nat, n: nat)
    requires n < size
    ensures Enabled(Filled(size, n)) && Step(Filled(size, n), Interrupt(n)) == Filled(size, n + 1)
  {
    var s, t := Filled(size, n), Filled(size, n + 1);
    assert s.ring.buffer[n := Some(n)] == t.ring.buffer;
    assert s.pushed + [n] == t.pushed;
  }

  function Pushes(n: nat): seq<Move<nat>> {
    if n == 0 then [] else Pushes(n - 1) + [Interrupt(n - 1)]
  }

  lemma {:induction false} FillRun(size: nat, n: nat)
    requires 0 < size && n <= size
    ensures Run(Fresh<nat>(size), Pushes(n)) == Filled(size, n)
    decreases n
  {
    if n == 0 {
      assert Fresh<nat>(size).ring.buffer == Filled(size, 0).ring.buffer;
    } else {
      FillRun(size, n - 1);
      FillOne(size, n - 1);
      RunConcat(Fresh<nat>(size), Pushes(n - 1), [Interrupt(n - 1)]);
      OneMove(Filled(size, n - 1), Interrupt(n - 1));
    }
  }

  lemma {:induction false} OneMove<T>(s: System<T>, m: Move<T>)
    requires Enabled(s)
    ensures Run(s, [m]) == Step(s, m)
  {
    assert [m][1..] == [];
  }

  /** The ring full, its first slot being popped; then the same after one more push and the end of that pop. */
  function Taking(size: nat): System<nat>
    requires size > 1
  {
    var s := Filled(size, size);
    s.(ring := s.ring.(head := 1), pc := Taken(0))
  }

  function Clashed(size: nat): System<nat>
    requires size > 1
  {
    System(Ring(seq(size, i => if i == 0 then None else Some(i)), 1, 1), Ready, seq(size + 1, i => i), [Some(size)])
  }

  lemma {:induction false} ClashRun(size: nat)
    requires size > 1
    ensures Enabled(Taking(size))
    ensures Step(Step(Step(Taking(size), Interrupt(size)), Consume(false)), Consume(false)) == Clashed(size)
  {
    var s := Step(Taking(size), Interrupt(size));
    var t := Step(Step(s, Consume(false)), Consume(false));
    assert s.ring.buffer == Taking(size).ring.buffer[0 := Some(size)];
    assert t.ring.buffer == s.ring.buffer[0 := None] == Clashed(size).ring.buffer;
    assert t.pushed == Clashed(size).pushed;
    assert t.popped == Clashed(size).popped;
  }

  lemma {:induction false} StartTaking(size: nat)
    requires size > 1
    ensures var s := Filled(size, size);
      && Enabled(s)
      && Step(Step(Step(Step(Step(s, Consume(false)), Consume(false)), Consume(false)), Consume(false)), Consume(false))
         == Taking(size)
  {
    var s := Filled(size, size);
    var s4 := Step(Step(Step(Step(s, Consume(false)), Consume(false)), Consume(false)), Consume(false));
    assert s4 == s.(pc := Trying(0));
  }

  /** On every ring of more than one slot there is a run from the empty queue with a clash: fill it, interrupt the first
      pop once its slot is taken, and the pop returns the value pushed last instead of the first. */
  lemma {:induction false} ClashWitness(size: nat) returns (moves: seq<Move<nat>>)
    requires size > 1
    ensures !Safe(Fresh<nat>(size), moves)
    ensures var s := Run(Fresh<nat>(size), moves);
      s.pushed != [] && s.pushed[0] == 0 && s.popped == [Some(size)]
  {
    var c: Move<nat> := Consume(false);
    var take, end := [c, c, c, c, c], [Interrupt(size), c, c];
    moves := Pushes(size) + (take + end);
    var s := Filled(size, size);
    FillRun(size, size);
    RunConcat(Fresh<nat>(size), Pushes(size), take + end);
    StartTaking(size);
    RunConcat(s, take, end);
    FiveMoves(s, c, c, c, c, c);
    ClashRun(size);
    ThreeMoves(Taking(size), Interrupt(size), c, c);
    var last := Run(Fresh<nat>(size), moves);
    assert last == Clashed(size);
    assert last.popped == [Some(size)] && last.pushed[0] == 0;
    if Safe(Fresh<nat>(size), moves) {
      var none: seq<Option<nat>> := [];
      ValuesSnoc(none, Some(size));
      assert none + [Some(size)] == [Some(size)] && Values([Some(size)]) == [size];
      QueueIsFifo(size, moves);
    }
  }

  lemma {:induction false} ThreeMoves<T>(s: System<T>, a: Move<T>, b: Move<T>, c: Move<T>)
    requires Enabled(s)
    ensures Run(s, [a, b, c]) == Step(Step(Step(s, a), b), c)
  {
    assert [a, b, c][1..] == [b, c] && [b, c][1..] == [c];
    OneMove(Step(Step(s, a), b), c);
    assert Run(Step(s, a), [b, c]) == Run(Step(Step(s, a), b), [c]);
  }

  lemma {:induction false} FiveMoves<T>(s: System<T>, a: Move<T>, b: Move<T>, c: Move<T>, d: Move<T>, e: Move<T>)
    requires Enabled(s)
    ensures Run(s, [a, b, c, d, e]) == Step(Step(Step(Step(Step(s, a), b), c), d), e)
  {
    assert [a, b, c, d, e][1..] == [b, c, d, e] && [b, c, d, e][1..] == [c, d, e];
    ThreeMoves(Step(Step(s, a), b), c, d, e);
    assert Run(Step(s, a), [b, c, d, e]) == Run(Step(Step(s, a), b), [c, d, e]);
  }

  // --- uninterrupted calls ---

  /** The queue object, called without interruption. A weak exchange may still fail any number of times. */
  class Queue<T> {
    const buffer: array<Option<T>>
    var head: nat
    var tail: nat
    ghost var contents: seq<T>

    ghost predicate Valid()
      reads this, buffer
    {
      && head < buffer.Length && tail < buffer.Length
      && |contents| <= buffer.Length
      && tail == At(head, |contents|, buffer.Length)
      && Holds(View(), contents, 0, |contents|, None)
    }

    ghost function View(): Ring<T>
      reads this, buffer
    {
      Ring(buffer[..], head, tail)
    }

    constructor (size: nat)
      requires size > 0
      ensures Valid() && fresh(buffer) && buffer.Length == size && contents == []
    {
      buffer := new Option<T>[size](_ => None);
      head, tail, contents := 0, 0, [];
    }

    /** At `head == tail` the slot under the head tells a full ring from an empty one. */
    method IsEmpty() returns (yes: bool)
      requires Valid()
      ensures yes <==> contents == []
    {
      EmptyAndFull(View(), contents);
      yes := head == tail && buffer[head].None?;
    }

    method IsFull() returns (yes: bool)
      requires Valid()
      ensures yes <==> |contents| == buffer.Length
    {
      EmptyAndFull(View(), contents);
      yes := head == tail && !buffer[head].None?;
    }

    /** Appends the value, or refuses exactly when the ring is full. `failures` is how often the exchange fails. */
    method Push(value: T, failures: nat) returns (ok: bool)
      requires Valid()
      modifies this, buffer
      ensures Valid()
      ensures ok <==> |old(contents)| < buffer.Length
      ensures contents == if ok then old(contents) + [value] else old(contents)
    {
      var slot := tail;
      var full := IsFull();
      if full {
        return false;
      }
      var left := failures;
      while left > 0
        invariant slot == tail
        modifies {}
      {
        left, slot := left - 1, tail;
        full := IsFull();
        if full {
          return false;
        }
      }
      PushHolds(View(), contents, 0, |contents|, None, value);
      AtSucc(head, |contents|, buffer.Length);
      tail := (slot + 1) % buffer.Length;
      buffer[slot] := Some(value);
      contents := contents + [value];
      assert buffer[..] == old(buffer[..])[slot := Some(value)];
      return true;
    }

    /** Takes the oldest value, or answers none exactly when the ring is empty. */
    method Pop(failures: nat) returns (value: Option<T>)
      requires Valid()
      modifies this, buffer
      ensures Valid()
      ensures value == if old(contents) == [] then None else Some(old(contents)[0])
      ensures contents == if old(contents) == [] then [] else old(contents)[1..]
    {
      var slot := head;
      var empty := IsEmpty();
      if empty {
        return None;
      }
      var left := failures;
      while left > 0
        invariant slot == head
        modifies {}
      {
        left, slot := left - 1, head;
        empty := IsEmpty();
        if empty {
          return None;
        }
      }
      PopHolds(View(), contents);
      head := (slot + 1) % buffer.Length;
      value := buffer[slot];
      buffer[slot] := None;
      contents := contents[1..];
      assert buffer[..] == old(buffer[..])[slot := None];
    }
  }

  lemma {:induction false} EmptyAndFull<T>(r: Ring<T>, contents: seq<T>)
    requires r.InRange() && |contents| <= r.Size() && r.tail == At(r.head, |contents|, r.Size())
    requires Holds(r, contents, 0, |contents|, None)
    ensures IsEmpty(r) <==> contents == []
    ensures IsFull(r) <==> |contents| == r.Size()
  {
    assert At(r.head, 0, r.Size()) == r.head;
    if contents != [] {
      assert r.buffer[At(r.head, 0, r.Size())] == Some(contents[0 + 0]);
    }
  }

  lemma {:induction false} PopHolds<T>(r: Ring<T>, contents: seq<T>)
    requires r.InRange() && 0 < |contents| <= r.Size() && r.tail == At(r.head, |contents|, r.Size())
    requires Holds(r, contents, 0, |contents|, None)
    ensures r.buffer[r.head] == Some(contents[0])
    ensures var r' := r.(head := Succ(r.head, r.Size()), buffer := r.buffer[r.head := None]);
      Holds(r', contents[1..], 0, |contents| - 1, None) && r'.tail == At(r'.head, |contents| - 1, r.Size())
  {
    var size, n := r.Size(), |contents|;
    var r' := r.(head := Succ(r.head, size), buffer := r.buffer[r.head := None]);
    assert At(r.head, 0, size) == r.head;
    forall i | 0 <= i < n - 1 ensures r'.buffer[At(r'.head, i, size)] == Some(contents[1..][0 + i]) {
      AtSucc(r.head, i, size);
      AtInjective(r.head, i + 1, 0, size);
    }
    forall i | n - 1 <= i < size ensures r'.buffer[At(r'.head, i, size)].None? {
      AtSucc(r.head, i, size);
      if i + 1 < size {
        AtInjective(r.head, i + 1, 0, size);
        assert r.buffer[At(r.head, i + 1, size)].None?;
      }
    }
    AtSucc(r.head, n - 1, size);
  }
}
