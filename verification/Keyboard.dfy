/** The keyboard driver: one reader task that pops scancodes and blocks when there are none, against the keyboard
    interrupt that pushes them and wakes it up. */
module Keyboard {
  import opened Basics
  import opened Scheduler
  import Timers
  import Q = ArrayQueue

  type Scancode = nat

  /** Where the reader is in retrieving a scancode. Within a pop, the queue holds the exact position. */
  datatype Phase =
    | Popping      // interrupts enabled
    | SawNone      // about to disable interrupts
    | MaskedPop    // interrupts disabled from here on
    | StillNone    // about to announce itself as halted
    | Announced    // about to yield
    | Unmasking    // about to enable interrupts again; a yielding reader waits here

  datatype World = World(q: Q.System<Scancode>, s: State, halted: Option<TaskId>, reader: TaskId, phase: Phase)

  /** `regs` are the registers a task switch saves. */
  datatype Event =
    | Read(spurious: bool, regs: SavedState)                  // the reader's next access
    // a keyboard interrupt; `full` is the controller's status, `alarms` how many alarms a wake-up fires that schedule
    | Key(full: bool, code: Scancode, alarms: nat, regs: SavedState)
    | Sched(op: Op, regs: SavedState)                         // scheduling by another interrupt or task

  predicate ReaderRuns(w: World) {
    w.s.current.Some? && w.s.current.value.id == w.reader
  }

  predicate Masked(p: Phase) {
    !p.Popping? && !p.SawNone?
  }

  /** Interrupts reach the processor unless the reader runs with them disabled. */
  predicate Interruptible(w: World) {
    ReaderRuns(w) ==> !Masked(w.phase)
  }

  /** The reader steps only while it is the current task; only the reader itself yields for the reader, and only the
      keyboard wakes it up. */
  ghost predicate Possible(w: World, e: Event) {
    && Q.Enabled(w.q)
    && match e
       case Read(_, _) => ReaderRuns(w)
       case Key(_, _, _, _) => Interruptible(w)
       case Sched(op, _) =>
         && Interruptible(w) && Allowed(w.s, op)
         && (op.Yield? ==> !ReaderRuns(w)) && (op.WakeUp? ==> op.id != w.reader)
  }

  predicate Finished(before: Q.System<Scancode>, after: Q.System<Scancode>) {
    |after.popped| == |before.popped| + 1
  }

  function ReadStep(w: World, spurious: bool, regs: SavedState): World
    requires Q.Enabled(w.q) && ReaderRuns(w)
  {
    match w.phase
    case Popping =>
      var q := Q.Step(w.q, Q.Consume(spurious));
      w.(q := q, phase := if Finished(w.q, q) && q.popped[|w.q.popped|].None? then SawNone else Popping)
    case SawNone => w.(phase := MaskedPop)
    case MaskedPop =>
      var q := Q.Step(w.q, Q.Consume(spurious));
      w.(q := q, phase := if !Finished(w.q, q) then MaskedPop
                          else if q.popped[|w.q.popped|].None? then StillNone else Unmasking)
    case StillNone => w.(halted := Some(w.s.current.value.id), phase := Announced)
    case Announced => w.(s := YieldStep(Config(w.s, regs)).s, phase := Unmasking)
    case Unmasking => w.(phase := Popping)
  }

  /** The handler: push what the controller holds; if that succeeds, wake up whoever is halted. */
  function KeyStep(w: World, code: Scancode, alarms: nat, regs: SavedState): World
    requires Q.Enabled(w.q)
  {
    var q := Q.Step(w.q, Q.Interrupt(code));
    if !Q.Push(w.q.ring, code).0 then w
    else if w.halted.None? then w.(q := q)
    else
      var woken := WakeUpStep(Config(w.s, regs), w.halted.value);
      w.(q := q, halted := None, s := Rescheduled(woken, alarms).s)
  }

  function Next(w: World, e: Event): World
    requires Q.Enabled(w.q) && (e.Read? ==> ReaderRuns(w))
  {
    match e
    case Read(spurious, regs) => ReadStep(w, spurious, regs)
    case Key(full, code, alarms, regs) => if full then KeyStep(w, code, alarms, regs) else w
    case Sched(op, regs) => w.(s := Step(Config(w.s, regs), op).s)
  }

  // --- what every interleaving keeps ---

  predicate Blocked(w: World) {
    w.reader in w.s.blocked
  }

  /** The reader is about to block, or blocked. */
  predicate GivesUp(w: World) {
    w.phase.StillNone? || w.phase.Announced? || Blocked(w)
  }

  /** A blocked reader is named, and the ring has room for the scancode that will wake it. */
  ghost predicate Handshake(w: World) {
    && Q.Drained(w.q) && Orderly(w.s) && Places(w.s, w.reader) == 1
    && (w.halted.Some? ==> w.halted.value == w.reader)
    && (w.halted.Some? <==> w.phase.Announced? || Blocked(w))
    && (Blocked(w) ==> w.phase.Unmasking?)
    && (w.phase.MaskedPop? || w.phase.StillNone? || w.phase.Announced? ==> ReaderRuns(w))
    && (w.phase.Popping? || w.phase.MaskedPop? || w.q.pc.Ready?)
    && (w.phase.MaskedPop? ==> Q.Undisturbed(w.q))
    && (GivesUp(w) ==> !Q.IsFull(w.q.ring))
  }

  /** Scheduling by others neither blocks nor unblocks a task. */
  lemma {:induction false} BlockedKept(c: Config, op: Op, id: TaskId)
    requires Orderly(c.s) && Allowed(c.s, op)
    requires op.Yield? ==> !(c.s.current.Some? && c.s.current.value.id == id)
    requires op.WakeUp? ==> op.id != id
    ensures id in Step(c, op).s.blocked <==> id in c.s.blocked
  {
  }

  lemma {:induction false} SchedKeeps(w: World, op: Op, regs: SavedState)
    requires Handshake(w) && Possible(w, Sched(op, regs))
    ensures Handshake(Next(w, Sched(op, regs))) && (Blocked(Next(w, Sched(op, regs))) <==> Blocked(w))
  {
    StepConserves(Config(w.s, regs), op);
    BlockedKept(Config(w.s, regs), op, w.reader);
    assert op.Add? ==> op.task.id != w.reader;
  }

  lemma {:induction false} KeyKeeps(w: World, code: Scancode, alarms: nat, regs: SavedState)
    requires Handshake(w) && Possible(w, Key(true, code, alarms, regs))
    ensures Handshake(KeyStep(w, code, alarms, regs))
  {
    Q.StepKeepsDrained(w.q, Q.Interrupt(code));
    if w.halted.Some? {
      WokenRuns(Config(w.s, regs), w.reader, alarms);
    }
  }

  lemma {:induction false} ReadKeeps(w: World, spurious: bool, regs: SavedState)
    requires Handshake(w) && Possible(w, Read(spurious, regs))
    ensures Handshake(ReadStep(w, spurious, regs))
  {
    assert !Blocked(w) by {
      assert Places(w.s, w.reader) <= 1;
    }
    match w.phase
    case Popping => Q.StepKeepsDrained(w.q, Q.Consume(spurious));
    case MaskedPop =>
      Q.StepKeepsDrained(w.q, Q.Consume(spurious));
      Q.NoneMeansRoom(w.q, spurious);
    case Announced =>
      YieldConserves(Config(w.s, regs));
    case _ =>
  }

  lemma {:induction false} EventKeepsHandshake(w: World, e: Event)
    requires Handshake(w) && Possible(w, e)
    ensures Handshake(Next(w, e))
  {
    match e
    case Read(spurious, regs) => ReadKeeps(w, spurious, regs);
    case Key(full, code, alarms, regs) =>
      if full {
        KeyKeeps(w, code, alarms, regs);
      }
    case Sched(op, regs) => SchedKeeps(w, op, regs);
  }

  /** Only a scancode unblocks a blocked reader, and every scancode does. */
  lemma {:induction false} OnlyKeysWake(w: World, e: Event)
    requires Handshake(w) && Possible(w, e) && Blocked(w)
    ensures Blocked(Next(w, e)) <==> !(e.Key? && e.full)
  {
    assert Places(w.s, w.reader) <= 1;
    match e
    case Read(_, _) =>
    case Key(full, code, alarms, regs) =>
      if full {
        WokenRuns(Config(w.s, regs), w.reader, alarms);
      }
    case Sched(op, regs) => SchedKeeps(w, op, regs);
  }

  // --- and what clashes break ---

  /** Nothing that was accepted is out of the reader's sight when it gives up. */
  ghost predicate Protocol(w: World) {
    Handshake(w) && Q.Fifo(w.q) && (GivesUp(w) ==> Q.Stored(w.q) == 0)
  }

  /** A step of the pop under way. */
  lemma {:induction false} PopKeeps(q: Q.System<Scancode>, spurious: bool)
    requires Q.Fifo(q)
    ensures var q' := Q.Step(q, Q.Consume(spurious));
      && Q.Fifo(q')
      && (Finished(q, q') && q'.popped[|q.popped|].None? ==> Q.Stored(q') == 0)
  {
    var q' := Q.Step(q, Q.Consume(spurious));
    Q.ConsumeKeepsFifo(q, spurious);
    if Finished(q, q') && q'.popped[|q.popped|].None? {
      Q.EmptyAnswerIsTrue(q, spurious);
      Q.ValuesSnoc(q.popped, None);
    }
  }

  lemma {:induction false} ReadKeepsProtocol(w: World, spurious: bool, regs: SavedState)
    requires Protocol(w) && Possible(w, Read(spurious, regs))
    ensures Protocol(ReadStep(w, spurious, regs))
  {
    ReadKeeps(w, spurious, regs);
    assert !Blocked(w) by {
      assert Places(w.s, w.reader) <= 1;
    }
    if w.phase.Popping? || w.phase.MaskedPop? {
      PopKeeps(w.q, spurious);
    }
  }

  /** Every event keeps the protocol, except exactly a scancode accepted over a pop in flight on an otherwise full
      ring. */
  lemma {:induction false} EventKeeps(w: World, e: Event)
    requires Protocol(w) && Possible(w, e)
    ensures Protocol(Next(w, e)) <==> !(e.Key? && e.full && Q.Clashes(w.q))
  {
    EventKeepsHandshake(w, e);
    match e
    case Read(spurious, regs) => ReadKeepsProtocol(w, spurious, regs);
    case Key(full, code, alarms, regs) =>
      if full {
        Q.PushKeepsFifo(w.q, code);
        if Blocked(w) {
          WokenRuns(Config(w.s, regs), w.reader, alarms);
        }
      }
    case Sched(op, regs) => SchedKeeps(w, op, regs);
  }

  // --- whole runs ---

  ghost predicate AllPossible(w: World, es: seq<Event>)
    decreases |es|
  {
    es == [] || (Possible(w, es[0]) && AllPossible(Next(w, es[0]), es[1..]))
  }

  /** No scancode of the run arrives over a pop in flight on an otherwise full ring. */
  ghost predicate Safe(w: World, es: seq<Event>)
    requires AllPossible(w, es)
    decreases |es|
  {
    es == [] || (!(es[0].Key? && es[0].full && Q.Clashes(w.q)) && Safe(Next(w, es[0]), es[1..]))
  }

  ghost function After(w: World, es: seq<Event>): World
    requires AllPossible(w, es)
    decreases |es|
  {
    if es == [] then w else After(Next(w, es[0]), es[1..])
  }

  lemma {:induction false} HandshakeHolds(w: World, es: seq<Event>)
    requires Handshake(w) && AllPossible(w, es)
    ensures Handshake(After(w, es))
    decreases |es|
  {
    if es != [] {
      EventKeepsHandshake(w, es[0]);
      HandshakeHolds(Next(w, es[0]), es[1..]);
    }
  }

  ghost predicate AlwaysProtocol(w: World, es: seq<Event>)
    requires AllPossible(w, es)
    decreases |es|
  {
    Protocol(w) && (es == [] || AlwaysProtocol(Next(w, es[0]), es[1..]))
  }

  /** The protocol holds at every point of a run exactly if the run is safe. */
  lemma {:induction false} ProtocolThroughout(w: World, es: seq<Event>)
    requires Protocol(w) && AllPossible(w, es)
    ensures AlwaysProtocol(w, es) <==> Safe(w, es)
    ensures Safe(w, es) ==> Protocol(After(w, es))
    decreases |es|
  {
    if es != [] {
      EventKeeps(w, es[0]);
      if Protocol(Next(w, es[0])) {
        ProtocolThroughout(Next(w, es[0]), es[1..]);
      }
    }
  }

  /** A reader that has not started yet, on a fresh queue. */
  ghost predicate Initial(w: World, size: nat) {
    && size > 0 && w.q == Q.Fresh(size) && w.phase.Popping? && w.halted.None?
    && Orderly(w.s) && Places(w.s, w.reader) == 1 && !Blocked(w)
  }

  /** No lost wake-up: in every interleaving, a blocked reader is the one the keyboard will wake, and the ring has room
      for the scancode that does it. Unless scancodes clash, it has read everything that was accepted, in order. */
  lemma {:induction false} NoLostWakeUp(w: World, size: nat, es: seq<Event>)
    requires Initial(w, size) && AllPossible(w, es)
    ensures var w' := After(w, es);
      && Q.Enabled(w'.q) && Handshake(w')
      && (Blocked(w') ==> w'.halted == Some(w'.reader) && !Q.IsFull(w'.q.ring))
      && (Safe(w, es) ==>
           && Q.Values(w'.q.popped) <= w'.q.pushed
           && (Blocked(w') ==> Q.IsEmpty(w'.q.ring) && Q.Values(w'.q.popped) == w'.q.pushed))
  {
    HandshakeHolds(w, es);
    ProtocolThroughout(w, es);
    var w' := After(w, es);
    if Safe(w, es) {
      Q.FullMeansFull(w'.q);
      assert w'.q.pushed[..|w'.q.pushed|] == w'.q.pushed;
    }
  }

  /** And the next scancode is accepted and unblocks it; unless scancodes clashed, that is the one it reads next. */
  lemma {:induction false} NextKeyWakes(w: World, code: Scancode, alarms: nat, regs: SavedState)
    requires Handshake(w) && Blocked(w)
    ensures Possible(w, Key(true, code, alarms, regs))
    ensures var w' := Next(w, Key(true, code, alarms, regs));
      && !Blocked(w') && w'.halted.None? && w'.q.pushed == w.q.pushed + [code] && Places(w'.s, w.reader) == 1
      && (ReaderRuns(w') <==> alarms % (|w.s.queue| + One(w.s.current.Some?) + 1) == 0)
      && (Protocol(w) ==> Q.Stored(w'.q) == 1)
  {
    WokenRuns(Config(w.s, regs), w.reader, alarms);
    assert Places(w.s, w.reader) == 1;
  }

  // --- a reader that blocks with scancodes unread ---

  /** The reader runs on its own for `n` steps. */
  function Reads(w: World, n: nat, regs: SavedState): (w': World)
    requires Q.Enabled(w.q)
    ensures Q.Enabled(w'.q)
    decreases n
  {
    if n == 0 || !ReaderRuns(w) then w else Reads(Next(w, Read(false, regs)), n - 1, regs)
  }

  lemma {:induction false} ReadsSplit(w: World, a: nat, b: nat, regs: SavedState)
    requires Q.Enabled(w.q)
    ensures Reads(w, a + b, regs) == Reads(Reads(w, a, regs), b, regs)
    decreases a
  {
    if a > 0 && ReaderRuns(w) {
      ReadsSplit(Next(w, Read(false, regs)), a - 1, b, regs);
    }
  }

  /** Four steps of a pop find the ring empty, or get as far as the exchange. */
  lemma {:induction false} FourReads(w: World, regs: SavedState)
    requires Q.Enabled(w.q) && ReaderRuns(w) && w.q.pc.Ready? && (w.phase.Popping? || w.phase.MaskedPop?)
    ensures Reads(w, 4, regs) ==
      if Q.IsEmpty(w.q.ring) then w.(q := Q.Pop(w.q), phase := if w.phase.Popping? then SawNone else StillNone)
      else w.(q := w.q.(pc := Q.Trying(w.q.ring.head)))
  {
    var e := Read(false, regs);
    var w1 := Next(w, e);
    var w2 := Next(w1, e);
    var w3 := Next(w2, e);
    assert Reads(w, 4, regs) == Reads(w1, 3, regs) == Reads(w2, 2, regs) == Reads(w3, 1, regs) == Next(w3, e);
  }

  /** A nonempty pop takes seven steps. */
  lemma {:induction false} SevenReads(w: World, regs: SavedState)
    requires Q.Enabled(w.q) && ReaderRuns(w) && w.q.pc.Ready? && w.phase.Popping?
    requires !Q.IsEmpty(w.q.ring) && w.q.ring.buffer[w.q.ring.head].Some?
    ensures Reads(w, 7, regs) == w.(q := Q.Pop(w.q))
  {
    FourReads(w, regs);
    ReadsSplit(w, 4, 3, regs);
    var e := Read(false, regs);
    var w4 := Reads(w, 4, regs);
    var w5 := Next(w4, e);
    var w6 := Next(w5, e);
    assert Reads(w4, 3, regs) == Reads(w5, 2, regs) == Reads(w6, 1, regs) == Next(w6, e);
  }

  /** A reader that finds the ring empty twice blocks. */
  lemma {:induction false} EmptyBlocks(w: World, regs: SavedState)
    requires Q.Enabled(w.q) && ReaderRuns(w) && w.q.pc.Ready? && w.phase.Popping? && Q.IsEmpty(w.q.ring)
    requires Orderly(w.s)
    ensures var w' := Reads(w, 11, regs);
      w.reader in w'.s.blocked && w'.q == Q.Pop(Q.Pop(w.q))
  {
    var e := Read(false, regs);
    FourReads(w, regs);
    ReadsSplit(w, 4, 7, regs);
    var w4 := Reads(w, 4, regs);
    var w5 := Next(w4, e);
    assert Reads(w4, 7, regs) == Reads(w5, 6, regs);
    FourReads(w5, regs);
    ReadsSplit(w5, 4, 2, regs);
    var w9 := Reads(w5, 4, regs);
    var w10 := Next(w9, e);
    assert Reads(w9, 2, regs) == Reads(w10, 1, regs) == Next(w10, e);
  }

  /** A reader that is woken goes on, enables interrupts and gets the scancode that woke it. */
  lemma {:induction false} WokenReads(w: World, code: Scancode, regs: SavedState)
    requires Protocol(w) && Blocked(w)
    ensures var w' := Next(w, Key(true, code, 0, regs));
      && Q.Enabled(w'.q) && ReaderRuns(w') && Masked(w'.phase)
      && !Masked(Reads(w', 1, regs).phase)
      && Reads(w', 8, regs).q.popped == w.q.popped + [Some(code)] && Reads(w', 8, regs).phase.Popping?
  {
    NextKeyWakes(w, code, 0, regs);
    EventKeeps(w, Key(true, code, 0, regs));
    var w' := Next(w, Key(true, code, 0, regs));
    var w1 := Next(w', Read(false, regs));
    Q.FullMeansFull(w'.q);
    HeadIs(w'.q, code);
    ReadsSplit(w', 1, 7, regs);
    assert Reads(w', 1, regs) == w1;
    SevenReads(w1, regs);
  }

  lemma {:induction false} HeadIs(q: Q.System<Scancode>, code: Scancode)
    requires Q.Fifo(q) && q.pc.Ready? && Q.Stored(q) == 1 && q.pushed[|q.pushed| - 1] == code
    ensures q.ring.buffer[q.ring.head] == Some(code)
  {
    assert Q.At(q.ring.head, 0, q.ring.Size()) == q.ring.head;
    assert q.ring.buffer[Q.At(q.ring.head, 0, q.ring.Size())] == Some(q.pushed[|Q.Values(q.popped)| + 0]);
  }

  // The run that hides scancodes from the reader, on a ring of any size above one: fill it, let one more scancode come
  // while the first is being popped, pop the rest, and let the ring fill again up to the slot that was overwritten.

  /** The events of a run, one after the other. */
  lemma {:induction false} EventsConcat(w: World, a: seq<Event>, b: seq<Event>)
    requires AllPossible(w, a) && AllPossible(After(w, a), b)
    ensures AllPossible(w, a + b) && After(w, a + b) == After(After(w, a), b)
    decreases |a|
  {
    if a == [] {
      assert a + b == b;
    } else {
      assert (a + b)[0] == a[0] && (a + b)[1..] == a[1..] + b;
      EventsConcat(Next(w, a[0]), a[1..], b);
    }
  }

  lemma {:induction false} ReadEvents(w: World, n: nat, regs: SavedState) returns (es: seq<Event>)
    requires Q.Enabled(w.q)
    ensures AllPossible(w, es) && After(w, es) == Reads(w, n, regs)
    decreases n
  {
    es := [];
    if n > 0 && ReaderRuns(w) {
      var rest := ReadEvents(Next(w, Read(false, regs)), n - 1, regs);
      es := [Read(false, regs)] + rest;
      assert es[1..] == rest;
    }
  }

  lemma {:induction false} OneKey(w: World, code: Scancode, regs: SavedState)
    requires Q.Enabled(w.q) && w.phase.Popping? && w.halted.None?
    ensures Possible(w, Key(true, code, 0, regs))
    ensures Next(w, Key(true, code, 0, regs)) == w.(q := Q.Step(w.q, Q.Interrupt(code)))
    ensures AllPossible(w, [Key(true, code, 0, regs)])
    ensures After(w, [Key(true, code, 0, regs)]) == w.(q := Q.Step(w.q, Q.Interrupt(code)))
  {
    var e := Key(true, code, 0, regs);
    assert [e][1..] == [];
    assert Possible(w, e);
    assert After(Next(w, e), []) == Next(w, e);
  }

  lemma {:induction false} FillKeys(w: World, size: nat, n: nat, regs: SavedState) returns (es: seq<Event>)
    requires size > 0 && n <= size && w.q == Q.Fresh(size) && w.phase.Popping? && w.halted.None?
    ensures AllPossible(w, es) && After(w, es) == w.(q := Q.Filled(size, n))
    decreases n
  {
    if n == 0 {
      es := [];
      assert Q.Fresh<nat>(size).ring.buffer == Q.Filled(size, 0).ring.buffer;
    } else {
      es := FillKeys(w, size, n - 1, regs);
      var w1 := w.(q := Q.Filled(size, n - 1));
      Q.FillOne(size, n - 1);
      OneKey(w1, n - 1, regs);
      EventsConcat(w, es, [Key(true, n - 1, 0, regs)]);
      es := es + [Key(true, n - 1, 0, regs)];
    }
  }

  /** The reader pops the first slot of the full ring and is interrupted once it has moved the head. */
  lemma {:induction false} ClashKeys(w: World, size: nat, regs: SavedState) returns (es: seq<Event>)
    requires size > 1 && w.q == Q.Filled(size, size) && w.phase.Popping? && w.halted.None? && ReaderRuns(w)
    ensures AllPossible(w, es) && After(w, es) == w.(q := Q.Clashed(size))
  {
    var taking := w.(q := Q.Taking(size));
    Q.StartTaking(size);
    FiveReads(w, regs, taking);
    es := ReadEvents(w, 5, regs);
    Q.ClashRun(size);
    OneKey(taking, size, regs);
    EventsConcat(w, es, [Key(true, size, 0, regs)]);
    es := es + [Key(true, size, 0, regs)];
    var w1 := taking.(q := Q.Step(taking.q, Q.Interrupt(size)));
    TwoReads(w1, regs, w.(q := Q.Clashed(size)));
    var es2 := ReadEvents(w1, 2, regs);
    EventsConcat(w, es, es2);
    es := es + es2;
  }

  lemma {:induction false} FiveReads(w: World, regs: SavedState, last: World)
    requires Q.Enabled(w.q) && ReaderRuns(w) && w.q.pc.Ready? && w.phase.Popping? && !Q.IsEmpty(w.q.ring)
    requires last == w.(q := Q.Step(w.q.(pc := Q.Trying(w.q.ring.head)), Q.Consume(false)))
    ensures Reads(w, 5, regs) == last
  {
    FourReads(w, regs);
    ReadsSplit(w, 4, 1, regs);
    var w4 := Reads(w, 4, regs);
    assert Reads(w4, 1, regs) == Next(w4, Read(false, regs));
  }

  lemma {:induction false} TwoReads(w: World, regs: SavedState, last: World)
    requires Q.Enabled(w.q) && ReaderRuns(w) && w.q.pc.Taken? && w.phase.Popping? && w.q.ring.buffer[w.q.pc.slot].Some?
    requires last == w.(q := Q.Step(Q.Step(w.q, Q.Consume(false)), Q.Consume(false)))
    ensures Reads(w, 2, regs) == last
  {
    var e := Read(false, regs);
    var w1 := Next(w, e);
    assert Reads(w, 2, regs) == Reads(w1, 1, regs) == Next(w1, e);
  }

  /** After the clash and `n` more pops. */
  function Draining(size: nat, n: nat): Q.System<Scancode>
    requires n < size && size > 1
  {
    Q.System(Q.Ring(seq(size, i => if i <= n then None else Some(i)), if n + 1 == size then 0 else n + 1, 1), Q.Ready,
             seq(size + 1, i => i), [Some(size)] + seq(n, i => Some(i + 1)))
  }

  lemma {:induction false} DrainOne(size: nat, n: nat)
    requires size > 1 && n + 1 < size
    ensures var q := Draining(size, n);
      && Q.Enabled(q) && !Q.IsEmpty(q.ring) && q.ring.buffer[q.ring.head].Some? && Q.Pop(q) == Draining(size, n + 1)
  {
    var q, q' := Draining(size, n), Draining(size, n + 1);
    assert q.ring.buffer[n + 1 := None] == q'.ring.buffer;
    assert q.popped + [Some(n + 1)] == q'.popped;
  }

  lemma {:induction false} DrainReads(w: World, size: nat, n: nat, regs: SavedState) returns (es: seq<Event>)
    requires size > 1 && n < size && w.q == Q.Clashed(size) && w.phase.Popping? && ReaderRuns(w)
    ensures AllPossible(w, es) && After(w, es) == w.(q := Draining(size, n))
    decreases n
  {
    if n == 0 {
      es := [];
      assert Q.Clashed(size).ring.buffer == Draining(size, 0).ring.buffer;
      assert Q.Clashed(size).popped == Draining(size, 0).popped;
    } else {
      es := DrainReads(w, size, n - 1, regs);
      var w1 := w.(q := Draining(size, n - 1));
      DrainOne(size, n - 1);
      SevenReads(w1, regs);
      var es2 := ReadEvents(w1, 7, regs);
      EventsConcat(w, es, es2);
      es := es + es2;
    }
  }

  /** After `n` more scancodes on the drained ring, its head one slot behind the tail. */
  function Hiding(size: nat, n: nat): Q.System<Scancode>
    requires n < size && size > 1
  {
    Q.System(Q.Ring(seq(size, i => if 1 <= i <= n then Some(0) else None), 0, if n + 1 == size then 0 else n + 1),
             Q.Ready, seq(size + 1, i => i) + seq(n, i => 0), [Some(size)] + seq(size - 1, i => Some(i + 1)))
  }

  lemma {:induction false} HideOne(size: nat, n: nat)
    requires size > 1 && n + 1 < size
    ensures Q.Enabled(Hiding(size, n)) && Q.Step(Hiding(size, n), Q.Interrupt(0)) == Hiding(size, n + 1)
  {
    var q, q' := Hiding(size, n), Hiding(size, n + 1);
    assert q.ring.buffer[n + 1 := Some(0)] == q'.ring.buffer;
    assert q.pushed + [0] == q'.pushed;
  }

  lemma {:induction false} HideKeys(w: World, size: nat, n: nat, regs: SavedState) returns (es: seq<Event>)
    requires size > 1 && n < size && w.q == Draining(size, size - 1) && w.phase.Popping? && w.halted.None?
    ensures AllPossible(w, es) && After(w, es) == w.(q := Hiding(size, n))
    decreases n
  {
    if n == 0 {
      es := [];
      assert Draining(size, size - 1).ring.buffer == Hiding(size, 0).ring.buffer;
      assert Draining(size, size - 1).pushed == Hiding(size, 0).pushed;
    } else {
      es := HideKeys(w, size, n - 1, regs);
      var w1 := w.(q := Hiding(size, n - 1));
      HideOne(size, n - 1);
      OneKey(w1, 0, regs);
      EventsConcat(w, es, [Key(true, 0, 0, regs)]);
      es := es + [Key(true, 0, 0, regs)];
    }
  }

  /** On every ring of more than one slot there is a run from the start that ends with the reader blocked although
      scancodes it has not read were accepted. */
  lemma {:induction false} BlocksUnread(w: World, size: nat, regs: SavedState) returns (es: seq<Event>)
    requires Initial(w, size) && size > 1 && ReaderRuns(w)
    ensures AllPossible(w, es) && !Safe(w, es)
    ensures var w' := After(w, es);
      && w'.reader in w'.s.blocked && |w'.q.popped| == size + 2 && |w'.q.pushed| == 2 * size
      && Q.Values(w'.q.popped) != w'.q.pushed
  {
    es := HidingRun(w, size, regs);
    var w4 := w.(q := Hiding(size, size - 1));
    EmptyBlocks(w4, regs);
    var es4 := ReadEvents(w4, 11, regs);
    EventsConcat(w, es, es4);
    es := es + es4;
    var w' := After(w, es);
    assert w'.q == Q.Pop(Q.Pop(w4.q));
    FirstIsWrong(w'.q.popped, size);
    assert w'.q.pushed[0] == 0;
    if Safe(w, es) {
      NoLostWakeUp(w, size, es);
    }
  }

  lemma {:induction false} HidingRun(w: World, size: nat, regs: SavedState) returns (es: seq<Event>)
    requires size > 1 && w.q == Q.Fresh(size) && w.phase.Popping? && w.halted.None? && ReaderRuns(w)
    ensures AllPossible(w, es) && After(w, es) == w.(q := Hiding(size, size - 1))
  {
    es := FillKeys(w, size, size, regs);
    var es1 := ClashKeys(w.(q := Q.Filled(size, size)), size, regs);
    EventsConcat(w, es, es1);
    es := es + es1;
    var es2 := DrainReads(w.(q := Q.Clashed(size)), size, size - 1, regs);
    EventsConcat(w, es, es2);
    es := es + es2;
    var es3 := HideKeys(w.(q := Draining(size, size - 1)), size, size - 1, regs);
    EventsConcat(w, es, es3);
    es := es + es3;
  }

  lemma {:induction false} FirstIsWrong(popped: seq<Option<Scancode>>, code: Scancode)
    requires popped != [] && popped[0] == Some(code)
    ensures Q.Values(popped) != [] && Q.Values(popped)[0] == code
    decreases |popped|
  {
    if |popped| > 1 {
      FirstIsWrong(popped[..|popped| - 1], code);
    } else {
      assert popped[..0] == [];
    }
  }

  // --- the handler ---

  /** The driver's shared variables. */
  class Driver {
    const queue: Q.Queue<Scancode>
    const timer: Timers.Timer
    var halted: Option<TaskId>

    constructor (queue: Q.Queue<Scancode>, timer: Timers.Timer)
      ensures this.queue == queue && this.timer == timer && halted.None?
    {
      this.queue, this.timer, halted := queue, timer, None;
    }

    /** Accepts the controller's scancode if it has one and the queue has room; only then wakes the halted task, once.
        */
    method HandleInterrupt(status: nat, scancode: Scancode, failures: nat, now: Timers.Clock)
      requires queue.Valid() && timer.MayCall(now) && timer.processor.frames != []
      modifies this, queue, queue.buffer, timer, timer.processor
      ensures queue.Valid() && timer.Valid() && timer.Recorded()
      ensures var accepted := status % 2 == 1 && |old(queue.contents)| < queue.buffer.Length;
        && queue.contents == (if accepted then old(queue.contents) + [scancode] else old(queue.contents))
        && halted == (if accepted then None else old(halted))
        && if accepted && old(halted).Some?
           then timer.Did(WakeUp(old(halted).value), old(timer.processor.View()), |old(timer.fired)|)
           else timer.processor.View() == old(timer.processor.View()) && timer.fired == old(timer.fired)
    {
      if status % 2 == 1 {
        var ok := queue.Push(scancode, failures);
        if ok && halted.Some? {
          var id := halted.value;
          halted := None;
          timer.WakeUpNow(id, now);
        }
      }
    }
  }
}
