/** The scheduler of one processor and the register state its switches move between tasks and interrupt frames. */
module Scheduler {
  import opened Basics
  import opened Align

  datatype StackFrame = StackFrame(rip: nat, cs: nat, rflags: nat, rsp: nat, ss: nat)

  datatype SavedState = SavedState(
    rax: nat, rbx: nat, rcx: nat, rdx: nat, rsi: nat, rdi: nat, r8: nat, r9: nat, r10: nat, r11: nat, r12: nat,
    r13: nat, r14: nat, r15: nat, rbp: nat, frame: StackFrame)

  type TaskId = nat

  datatype Task = Task(id: TaskId, saved: SavedState, isBlocked: bool)

  datatype State = State(current: Option<Task>, queue: seq<Task>, blocked: map<TaskId, Task>, idle: Task, isIdle: bool)

  /** Scheduler state and the register frame that the running task will continue from. */
  datatype Config = Config(s: State, frame: SavedState)

  datatype Op = Add(task: Task) | Schedule | Yield | WakeUp(id: TaskId)

  // --- the operations ---

  /** Switches to `next`, which has just left the queue or is the idle task. */
  function ScheduleStep(c: Config): Config {
    var s := c.s;
    if s.isIdle then c
    else if s.current.Some? && s.current.value.isBlocked then
      // the outgoing task waits in the blocked map, with the interrupted registers
      var parked := s.current.value.(saved := c.frame);
      var blocked := s.blocked[parked.id := parked];
      if s.queue != [] then
        Config(s.(current := Some(s.queue[0]), queue := s.queue[1..], blocked := blocked), s.queue[0].saved)
      else
        Config(s.(current := None, blocked := blocked), s.idle.saved)
    else if s.queue != [] then
      var back := if s.current.Some? then [s.current.value.(saved := c.frame)] else [];
      Config(s.(current := Some(s.queue[0]), queue := s.queue[1..] + back), s.queue[0].saved)
    else if s.current.Some? then c
    else Config(s, s.idle.saved)
  }

  function YieldStep(c: Config): Config {
    if c.s.current.None? then c
    else ScheduleStep(c.(s := c.s.(current := Some(c.s.current.value.(isBlocked := true)))))
  }

  function WakeUpStep(c: Config, id: TaskId): Config {
    if id !in c.s.blocked then c
    else
      var task := c.s.blocked[id].(isBlocked := false);
      ScheduleStep(c.(s := c.s.(blocked := c.s.blocked - {id}, queue := [task] + c.s.queue)))
  }

  function Step(c: Config, op: Op): Config {
    match op
    case Add(t) => c.(s := c.s.(queue := c.s.queue + [t]))
    case Schedule => ScheduleStep(c)
    case Yield => YieldStep(c)
    case WakeUp(id) => WakeUpStep(c, id)
  }

  function Run(c: Config, ops: seq<Op>): Config
    decreases |ops|
  {
    if ops == [] then c else Run(Step(c, ops[0]), ops[1..])
  }

  // --- where the tasks are ---

  ghost function InQueue(q: seq<Task>, id: TaskId): nat {
    if q == [] then 0 else One(q[0].id == id) + InQueue(q[1..], id)
  }

  /** In how many places a task is: current, ready queue (with repetitions) and blocked map. */
  ghost function Places(s: State, id: TaskId): nat {
    One(s.current.Some? && s.current.value.id == id) + InQueue(s.queue, id) + One(id in s.blocked)
  }

  /** No id in two places, map keys are the ids of their tasks, and all tasks of the map but none of the queue are
      marked blocked. The current task may have been marked just now. */
  ghost predicate Schedulable(s: State) {
    && !s.isIdle
    && (forall id :: Places(s, id) <= 1)
    && (forall id :: id in s.blocked ==> s.blocked[id].id == id && s.blocked[id].isBlocked)
    && (forall i :: 0 <= i < |s.queue| ==> !s.queue[i].isBlocked)
  }

  /** Between operations the marked tasks are exactly those of the blocked map. */
  ghost predicate Orderly(s: State) {
    Schedulable(s) && (s.current.Some? ==> !s.current.value.isBlocked)
  }

  lemma {:induction false} InQueueConcat(a: seq<Task>, b: seq<Task>, id: TaskId)
    ensures InQueue(a + b, id) == InQueue(a, id) + InQueue(b, id)
  {
    if a == [] {
      assert a + b == b;
    } else {
      assert (a + b)[1..] == a[1..] + b;
      InQueueConcat(a[1..], b, id);
    }
  }

  lemma {:induction false} InQueueOne(t: Task, id: TaskId)
    ensures InQueue([t], id) == One(t.id == id)
  {
  }

  lemma {:induction false} QueueHas(q: seq<Task>, i: nat)
    requires i < |q|
    ensures InQueue(q, q[i].id) >= 1
  {
    if i > 0 {
      QueueHas(q[1..], i - 1);
    }
  }

  /** A schedule moves tasks between places but loses and duplicates none. */
  lemma {:induction false} ScheduleConserves(c: Config, id: TaskId)
    requires Schedulable(c.s)
    ensures Places(ScheduleStep(c).s, id) == Places(c.s, id)
  {
    var s := c.s;
    if s.queue != [] {
      assert s.queue == [s.queue[0]] + s.queue[1..];
      InQueueConcat([s.queue[0]], s.queue[1..], id);
      InQueueOne(s.queue[0], id);
    }
    if s.current.Some? {
      var parked := s.current.value;
      assert parked.id !in s.blocked by {
        assert Places(s, parked.id) <= 1;
      }
      InQueueConcat(s.queue[if s.queue == [] then 0 else 1..], [parked.(saved := c.frame)], id);
      InQueueOne(parked.(saved := c.frame), id);
    } else if s.queue != [] {
      assert s.queue[1..] + [] == s.queue[1..];
    }
  }

  lemma {:induction false} ScheduleOrderly(c: Config)
    requires Schedulable(c.s)
    ensures Orderly(ScheduleStep(c).s)
  {
    forall id ensures Places(ScheduleStep(c).s, id) <= 1 {
      ScheduleConserves(c, id);
      assert Places(c.s, id) <= 1;
    }
  }

  /** The idle task runs exactly when no task is ready and none may go on running. */
  lemma {:induction false} IdleOnlyWhenNothingReady(c: Config)
    requires !c.s.isIdle
    ensures ScheduleStep(c).s.current.None? <==>
      c.s.queue == [] && (c.s.current.None? || c.s.current.value.isBlocked)
    ensures ScheduleStep(c).s.current.None? ==> ScheduleStep(c).s.queue == [] && ScheduleStep(c).frame == c.s.idle.saved
  {
  }

  /** How often an operation introduces the id. */
  function Added(op: Op, id: TaskId): nat {
    One(op.Add? && op.task.id == id)
  }

  /** A new task is unblocked and its id is not in use. */
  ghost predicate Allowed(s: State, op: Op) {
    op.Add? ==> !op.task.isBlocked && Places(s, op.task.id) == 0
  }

  lemma {:induction false} AddConserves(c: Config, t: Task)
    requires Orderly(c.s) && Allowed(c.s, Add(t))
    ensures Orderly(Step(c, Add(t)).s)
    ensures forall id :: Places(Step(c, Add(t)).s, id) == Places(c.s, id) + Added(Add(t), id)
  {
    forall id ensures Places(Step(c, Add(t)).s, id) == Places(c.s, id) + Added(Add(t), id) {
      InQueueConcat(c.s.queue, [t], id);
      InQueueOne(t, id);
    }
    forall id ensures Places(Step(c, Add(t)).s, id) <= 1 {
      assert Places(c.s, id) <= 1;
    }
  }

  lemma {:induction false} YieldConserves(c: Config)
    requires Orderly(c.s)
    ensures Orderly(YieldStep(c).s) && forall id :: Places(YieldStep(c).s, id) == Places(c.s, id)
  {
    if c.s.current.Some? {
      var c1 := c.(s := c.s.(current := Some(c.s.current.value.(isBlocked := true))));
      assert forall id :: Places(c1.s, id) == Places(c.s, id);
      ScheduleOrderly(c1);
      forall id ensures Places(YieldStep(c).s, id) == Places(c.s, id) {
        ScheduleConserves(c1, id);
      }
    }
  }

  lemma {:induction false} WakeConserves(c: Config, id: TaskId)
    requires Orderly(c.s) && id in c.s.blocked
    ensures Orderly(WakeUpStep(c, id).s) && forall x :: Places(WakeUpStep(c, id).s, x) == Places(c.s, x)
  {
    var task := c.s.blocked[id].(isBlocked := false);
    var c1 := c.(s := c.s.(blocked := c.s.blocked - {id}, queue := [task] + c.s.queue));
    forall x ensures Places(c1.s, x) == Places(c.s, x) {
      InQueueConcat([task], c.s.queue, x);
      InQueueOne(task, x);
    }
    assert forall x :: Places(c.s, x) <= 1;
    ScheduleOrderly(c1);
    forall x ensures Places(WakeUpStep(c, id).s, x) == Places(c.s, x) {
      ScheduleConserves(c1, x);
    }
  }

  lemma {:induction false} StepConserves(c: Config, op: Op)
    requires Orderly(c.s) && Allowed(c.s, op)
    ensures Orderly(Step(c, op).s) && forall id :: Places(Step(c, op).s, id) == Places(c.s, id) + Added(op, id)
  {
    match op
    case Add(t) => AddConserves(c, t);
    case Schedule =>
      ScheduleOrderly(c);
      forall id ensures Places(Step(c, op).s, id) == Places(c.s, id) {
        ScheduleConserves(c, id);
      }
    case Yield => YieldConserves(c);
    case WakeUp(id) =>
      if id in c.s.blocked {
        WakeConserves(c, id);
      }
  }

  ghost predicate AllAllowed(c: Config, ops: seq<Op>)
    decreases |ops|
  {
    ops == [] || (Allowed(c.s, ops[0]) && AllAllowed(Step(c, ops[0]), ops[1..]))
  }

  function AllAdded(ops: seq<Op>, id: TaskId): nat {
    if ops == [] then 0 else Added(ops[0], id) + AllAdded(ops[1..], id)
  }

  /** Task conservation: over every run with fresh ids, a task that was there or was added is in exactly one of
      current, ready queue and blocked map, and no other task appears. */
  lemma {:induction false} RunConserves(c: Config, ops: seq<Op>)
    requires Orderly(c.s) && AllAllowed(c, ops)
    ensures Orderly(Run(c, ops).s)
    ensures forall id :: Places(Run(c, ops).s, id) == Places(c.s, id) + AllAdded(ops, id) <= 1
    decreases |ops|
  {
    if ops != [] {
      StepConserves(c, ops[0]);
      RunConserves(Step(c, ops[0]), ops[1..]);
    }
  }

  // --- blocking ---

  /** A yield blocks the task that was current, with its registers. */
  lemma {:induction false} YieldBlocks(c: Config)
    requires Orderly(c.s) && c.s.current.Some?
    ensures var s', task := YieldStep(c).s, c.s.current.value;
      && task.id in s'.blocked && s'.blocked[task.id] == task.(saved := c.frame, isBlocked := true)
      && InQueue(s'.queue, task.id) == 0 && !(s'.current.Some? && s'.current.value.id == task.id)
  {
    YieldConserves(c);
    assert Places(c.s, c.s.current.value.id) <= 1 && Places(YieldStep(c).s, c.s.current.value.id) <= 1;
  }

  predicate Wakes(ops: seq<Op>, id: TaskId) {
    exists op :: op in ops && op.WakeUp? && op.id == id
  }

  /** A blocked task stays as it is, whatever else happens, until it is woken. */
  lemma {:induction false} BlockedUntilWoken(c: Config, ops: seq<Op>, id: TaskId)
    requires Orderly(c.s) && AllAllowed(c, ops) && id in c.s.blocked && !Wakes(ops, id)
    ensures id in Run(c, ops).s.blocked && Run(c, ops).s.blocked[id] == c.s.blocked[id]
    decreases |ops|
  {
    if ops != [] {
      assert Places(c.s, id) <= 1;
      assert ops[0] in ops;
      StepConserves(c, ops[0]);
      assert Step(c, ops[0]).s.blocked[id] == c.s.blocked[id];
      BlockedUntilWoken(Step(c, ops[0]), ops[1..], id);
    }
  }

  // --- bounded waiting ---

  /** Whether the operation moves the ready queue on by one. */
  function Dispatches(s: State, op: Op): nat {
    if op.Schedule? || (op.Yield? && s.current.Some?) then 1 else 0
  }

  function Dispatched(c: Config, ops: seq<Op>): nat
    decreases |ops|
  {
    if ops == [] then 0 else Dispatches(c.s, ops[0]) + Dispatched(Step(c, ops[0]), ops[1..])
  }

  /** A ready task moves up by one on every schedule or effective yield and by nothing otherwise; a wake-up pushes the
      woken task in front and pops it again. The front task is the one dispatched. */
  lemma {:induction false} QueueMoves(c: Config, op: Op, i: nat)
    requires !c.s.isIdle && i < |c.s.queue|
    ensures var s' := Step(c, op).s;
      if i < Dispatches(c.s, op) then s'.current == Some(c.s.queue[0]) && Step(c, op).frame == c.s.queue[0].saved
      else i - Dispatches(c.s, op) < |s'.queue| && s'.queue[i - Dispatches(c.s, op)] == c.s.queue[i]
    ensures !Step(c, op).s.isIdle
  {
  }

  /** Bounded waiting: after operations that dispatched no more than its index, a ready task stands exactly that many
      places further up, unchanged. */
  lemma {:induction false} BoundedWaiting(c: Config, ops: seq<Op>, i: nat)
    requires !c.s.isIdle && i < |c.s.queue| && Dispatched(c, ops) <= i
    ensures var s' := Run(c, ops).s;
      i - Dispatched(c, ops) < |s'.queue| && s'.queue[i - Dispatched(c, ops)] == c.s.queue[i] && !s'.isIdle
    decreases |ops|
  {
    if ops != [] {
      QueueMoves(c, ops[0], i);
      BoundedWaiting(Step(c, ops[0]), ops[1..], i - Dispatches(c.s, ops[0]));
    }
  }

  /** And the dispatch after that runs it: a task waits for exactly its index many dispatches. */
  lemma {:induction false} RunsInTurn(c: Config, ops: seq<Op>, last: Op, i: nat)
    requires !c.s.isIdle && i < |c.s.queue| && Dispatched(c, ops) == i && Dispatches(Run(c, ops).s, last) == 1
    ensures Step(Run(c, ops), last).s.current == Some(c.s.queue[i])
    ensures Step(Run(c, ops), last).frame == c.s.queue[i].saved
  {
    BoundedWaiting(c, ops, i);
    QueueMoves(Run(c, ops), last, 0);
  }

  // --- calls repeated by alarms ---

  /** `k` more schedules, which alarms come due in a scheduler call add to it. */
  function Rescheduled(c: Config, k: nat): Config {
    if k == 0 then c else ScheduleStep(Rescheduled(c, k - 1))
  }

  lemma {:induction false} RescheduledConserves(c: Config, k: nat)
    requires Orderly(c.s)
    ensures var s' := Rescheduled(c, k).s;
      Orderly(s') && s'.blocked == c.s.blocked && forall id :: Places(s', id) == Places(c.s, id)
  {
    if k > 0 {
      RescheduledConserves(c, k - 1);
      StepConserves(Rescheduled(c, k - 1), Schedule);
    }
  }

  /** The current task and the ready ones behind it. */
  function Ready(s: State): seq<TaskId>
    requires s.current.Some?
  {
    [s.current.value.id] + seq(|s.queue|, i requires 0 <= i < |s.queue| => s.queue[i].id)
  }

  /** `i` places on, round the ring of `n`. */
  function Around(start: nat, i: nat, n: nat): nat
    requires start < n && i < n
  {
    if start + i < n then start + i else start + i - n
  }

  /** Where `k` steps round a ring of `n` end. */
  function Turn(k: nat, n: nat): (r: nat)
    requires n > 0
    ensures r < n
  {
    if k == 0 then 0 else var r := Turn(k - 1, n); if r + 1 == n then 0 else r + 1
  }

  lemma {:induction false} TurnIsRemainder(k: nat, n: nat)
    requires n > 0
    ensures Turn(k, n) == k % n
  {
    if k == 0 {
      DivUnique(0, n, 0, 0);
    } else {
      TurnIsRemainder(k - 1, n);
      var q, r := (k - 1) / n, (k - 1) % n;
      assert k - 1 == q * n + r;
      if r + 1 == n {
        assert k == (q + 1) * n;
        DivUnique(k, n, q + 1, 0);
      } else {
        DivUnique(k, n, q, r + 1);
      }
    }
  }

  /** Schedules turn the ready tasks round. */
  lemma {:induction false} ReadyTurns(c: Config, k: nat, i: nat)
    requires Orderly(c.s) && c.s.current.Some? && i <= |c.s.queue|
    ensures var s', n := Rescheduled(c, k).s, |c.s.queue| + 1;
      s'.current.Some? && |s'.queue| == |c.s.queue| && Ready(s')[i] == Ready(c.s)[Around(Turn(k, n), i, n)]
    decreases k
  {
    if k > 0 {
      var j := if i == |c.s.queue| then 0 else i + 1;
      var c1 := Rescheduled(c, k - 1);
      ReadyTurns(c, k - 1, j);
      RescheduledConserves(c, k - 1);
      TurnOne(c1, i);
      TurnAround(k, i, |c.s.queue| + 1, j);
    }
  }

  lemma {:induction false} TurnAround(k: nat, i: nat, n: nat, j: nat)
    requires k > 0 && i < n && j == if i + 1 == n then 0 else i + 1
    ensures Around(Turn(k - 1, n), j, n) == Around(Turn(k, n), i, n)
  {
  }

  lemma {:induction false} TurnOne(c: Config, i: nat)
    requires Orderly(c.s) && c.s.current.Some? && i <= |c.s.queue|
    ensures var s' := ScheduleStep(c).s;
      && s'.current.Some? && |s'.queue| == |c.s.queue|
      && Ready(s')[i] == Ready(c.s)[if i == |c.s.queue| then 0 else i + 1]
  {
  }

  lemma {:induction false} ReadyOnce(s: State, i: nat)
    requires Orderly(s) && s.current.Some? && 0 < i <= |s.queue|
    ensures Ready(s)[i] != Ready(s)[0]
  {
    assert Places(s, s.current.value.id) <= 1;
    QueueHas(s.queue, i - 1);
  }

  /** After `k` more schedules the task that was current is so again exactly if they went all the way round. */
  lemma {:induction false} CurrentAgain(c: Config, k: nat)
    requires Orderly(c.s) && c.s.current.Some?
    ensures var s' := Rescheduled(c, k).s;
      s'.current.Some? && (s'.current.value.id == c.s.current.value.id <==> k % (|c.s.queue| + 1) == 0)
  {
    var n := |c.s.queue| + 1;
    ReadyTurns(c, k, 0);
    TurnIsRemainder(k, n);
    if Turn(k, n) != 0 {
      ReadyOnce(c.s, Turn(k, n));
    }
  }

  /** Waking a blocked task makes it the current one, unless alarms schedule again: then it is current exactly if they
      went all the way round the ready tasks. */
  lemma {:induction false} WokenRuns(c: Config, id: TaskId, alarms: nat)
    requires Orderly(c.s) && id in c.s.blocked
    ensures var s' := Rescheduled(WakeUpStep(c, id), alarms).s;
      && Orderly(s') && id !in s'.blocked && s'.current.Some?
      && (forall x :: Places(s', x) == Places(c.s, x))
      && (s'.current.value.id == id <==> alarms % (|c.s.queue| + One(c.s.current.Some?) + 1) == 0)
  {
    WakeConserves(c, id);
    RescheduledConserves(WakeUpStep(c, id), alarms);
    CurrentAgain(WakeUpStep(c, id), alarms);
  }
}
