/** Interrupt frames and task switches from handlers and from tasks: whose registers are where, through nested
    interrupts and any number of switches. */
module Interrupts {
  import opened Basics
  import opened Scheduler

  /** A processor: its scheduler, the registers it runs with, and the saved frames of the interrupts being handled,
      outermost first. `outer` is the frame that switches write to. */
  datatype Machine = Machine(s: State, regs: SavedState, frames: seq<SavedState>, outer: nat)

  datatype Event =
    | TaskRuns(regs: SavedState)      // outside interrupts: the running task computes
    | Enter                           // an interrupt arrives; its registers are saved
    | HandlerRuns(regs: SavedState)   // inside a handler: registers change freely
    | Call(op: Op)                    // the handler calls the scheduler
    | TaskCalls(op: Op)               // outside interrupts: the running task calls the scheduler
    | Return                          // the innermost handler returns; its frame is restored

  predicate Possible(m: Machine, e: Event) {
    match e
    case TaskRuns(_) => m.frames == []
    case Enter => true
    case HandlerRuns(_) => m.frames != []
    case Call(_) => m.outer < |m.frames|
    case TaskCalls(_) => m.frames == []
    case Return => m.frames != []
  }

  function Next(m: Machine, e: Event): Machine
    requires Possible(m, e)
  {
    match e
    case TaskRuns(r) => m.(regs := r)
    case Enter => m.(frames := m.frames + [m.regs], outer := if m.frames == [] then 0 else m.outer)
    case HandlerRuns(r) => m.(regs := r)
    case Call(op) =>
      var c := Step(Config(m.s, m.frames[m.outer]), op);
      m.(s := c.s, frames := m.frames[m.outer := c.frame])
    case TaskCalls(op) => TaskCall(m, op)
    case Return => m.(regs := m.frames[|m.frames| - 1], frames := m.frames[..|m.frames| - 1])
  }

  // --- switches outside interrupts ---

  /** What the far-return switch saves of the registers: not rax and rcx, and not the segments. */
  function FarSave(saved: SavedState, regs: SavedState): SavedState {
    regs.(rax := saved.rax, rcx := saved.rcx, frame := regs.frame.(cs := saved.frame.cs, ss := saved.frame.ss))
  }

  /** What it loads: rcx, which addresses the saved state until the end, is loaded from the slot of rdx. */
  function FarLoad(saved: SavedState): SavedState {
    saved.(rcx := saved.rdx)
  }

  predicate Switches(s: State, op: Op) {
    !s.isIdle &&
    match op
    case Add(_) => false
    case Schedule => s.queue != [] || s.current.None? || s.current.value.isBlocked
    case Yield => s.current.Some?
    case WakeUp(id) => id in s.blocked
  }

  /** A scheduler call by the running task itself. */
  function TaskCall(m: Machine, op: Op): Machine {
    var captured := if m.s.current.Some? then FarSave(m.s.current.value.saved, m.regs) else m.regs;
    var c := Step(Config(m.s, captured), op);
    m.(s := c.s, regs := if Switches(m.s, op) then FarLoad(c.frame) else m.regs)
  }

  /** A scheduler call wherever it comes from. */
  function Called(m: Machine, op: Op): Machine
    requires m.frames != [] ==> m.outer < |m.frames|
  {
    if m.frames == [] then TaskCall(m, op) else Next(m, Call(op))
  }

  // --- the processor object ---

  datatype Outgoing = Nobody | InBlockedMap(id: TaskId) | AtQueueBack

  class Processor {
    var current: Option<Task>
    var queue: seq<Task>
    var blocked: map<TaskId, Task>
    var isIdle: bool
    const idle: Task
    var activeInterrupts: nat
    var outer: nat
    var frames: seq<SavedState>
    var regs: SavedState

    ghost predicate Valid()
      reads this
    {
      activeInterrupts == |frames| && (frames != [] ==> outer == 0)
    }

    ghost function View(): Machine
      reads this
    {
      Machine(State(current, queue, blocked, idle, isIdle), regs, frames, outer)
    }

    constructor (idle: Task, regs: SavedState)
      ensures Valid() && View() == Machine(State(None, [], map[], idle, false), regs, [], 0)
    {
      this.idle := idle;
      current, queue, blocked, isIdle := None, [], map[], false;
      activeInterrupts, outer, frames := 0, 0, [];
      this.regs := regs;
    }

    /** The prologue of the handler wrapper: count the interrupt and note the frame unless it is nested. */
    method EnterHandler()
      requires Valid()
      modifies this
      ensures Valid() && View() == Next(old(View()), Enter)
    {
      frames := frames + [regs];
      activeInterrupts := activeInterrupts + 1;
      if activeInterrupts == 1 {
        outer := |frames| - 1;
      }
    }

    /** The epilogue, and the registers popped off the frame. */
    method LeaveHandler()
      requires Valid() && activeInterrupts > 0
      modifies this
      ensures Valid() && View() == Next(old(View()), Return)
    {
      activeInterrupts := activeInterrupts - 1;
      regs := frames[|frames| - 1];
      frames := frames[..|frames| - 1];
    }

    method AddTask(task: Task)
      requires Valid()
      modifies this
      ensures Valid() && View() == old(View()).(s := Step(Config(old(View()).s, regs), Add(task)).s)
    {
      queue := queue + [task];
    }

    /** Saves the interrupted registers with the outgoing task and lets the interrupt return into the next one. */
    method SwitchFromInterrupt(outgoing: Outgoing, next: SavedState)
      requires Valid() && frames != []
      requires outgoing.InBlockedMap? ==> outgoing.id in blocked
      requires outgoing.AtQueueBack? ==> queue != []
      modifies `queue, `blocked, `frames
      ensures Valid() && frames == old(frames)[outer := next]
      ensures blocked == if outgoing.InBlockedMap?
        then old(blocked)[outgoing.id := old(blocked)[outgoing.id].(saved := old(frames)[outer])] else old(blocked)
      ensures queue == if outgoing.AtQueueBack?
        then old(queue)[..|old(queue)| - 1] + [old(queue)[|old(queue)| - 1].(saved := old(frames)[outer])]
        else old(queue)
    {
      match outgoing {
        case Nobody =>
        case InBlockedMap(id) =>
          blocked := blocked[id := blocked[id].(saved := frames[outer])];
        case AtQueueBack =>
          queue := queue[..|queue| - 1] + [queue[|queue| - 1].(saved := frames[outer])];
      }
      frames := frames[outer := next];
    }

    /** The same for a switch outside interrupts, by far return. */
    method SwitchFarReturn(outgoing: Outgoing, next: SavedState)
      requires Valid()
      requires outgoing.InBlockedMap? ==> outgoing.id in blocked
      requires outgoing.AtQueueBack? ==> queue != []
      modifies `queue, `blocked, `regs
      ensures Valid() && regs == FarLoad(next)
      ensures blocked == if outgoing.InBlockedMap?
        then old(blocked)[outgoing.id :=
               old(blocked)[outgoing.id].(saved := FarSave(old(blocked)[outgoing.id].saved, old(regs)))]
        else old(blocked)
      ensures queue == if outgoing.AtQueueBack?
        then old(queue)[..|old(queue)| - 1] +
             [old(queue)[|old(queue)| - 1].(saved := FarSave(old(queue)[|old(queue)| - 1].saved, old(regs)))]
        else old(queue)
    {
      match outgoing {
        case Nobody =>
        case InBlockedMap(id) =>
          blocked := blocked[id := blocked[id].(saved := FarSave(blocked[id].saved, regs))];
        case AtQueueBack =>
          var task := queue[|queue| - 1];
          queue := queue[..|queue| - 1] + [task.(saved := FarSave(task.saved, regs))];
      }
      regs := FarLoad(next);
    }

    /** The switch goes by whether an interrupt is being handled. */
    method Switch(outgoing: Outgoing, next: SavedState)
      requires Valid()
      requires outgoing.InBlockedMap? ==> outgoing.id in blocked
      requires outgoing.AtQueueBack? ==> queue != []
      modifies `queue, `blocked, `frames, `regs
      ensures Valid() && |frames| == |old(frames)|
      ensures if old(frames) == [] then regs == FarLoad(next)
        else regs == old(regs) && frames == old(frames)[outer := next]
      ensures blocked == if outgoing.InBlockedMap?
        then old(blocked)[outgoing.id := SavedBy(old(frames), outer, old(blocked)[outgoing.id], old(regs))]
        else old(blocked)
      ensures queue == if outgoing.AtQueueBack?
        then old(queue)[..|old(queue)| - 1] + [SavedBy(old(frames), outer, old(queue)[|old(queue)| - 1], old(regs))]
        else old(queue)
    {
      if activeInterrupts > 0 {
        SwitchFromInterrupt(outgoing, next);
      } else {
        SwitchFarReturn(outgoing, next);
      }
    }

    method ScheduleTasks()
      requires Valid()
      modifies this
      ensures Valid() && View() == Called(old(View()), Schedule)
    {
      if isIdle {
        assert frames != [] ==> frames[outer := frames[outer]] == frames;
        return;
      }
      var outgoing := Nobody;
      if current.Some? && current.value.isBlocked {
        var task := current.value;
        current := None;
        blocked := blocked[task.id := task];
        outgoing := InBlockedMap(task.id);
      }
      if queue != [] {
        var next := queue[0];
        queue := queue[1..];
        if current.Some? {
          queue := queue + [current.value];
          outgoing := AtQueueBack;
        }
        current := Some(next);
        Switch(outgoing, next.saved);
        assert blocked == Called(old(View()), Schedule).s.blocked;
        assert queue == Called(old(View()), Schedule).s.queue;
      } else {
        if current.Some? {
          assert frames != [] ==> frames[outer := frames[outer]] == frames;
          return;
        }
        Switch(outgoing, idle.saved);
        assert blocked == Called(old(View()), Schedule).s.blocked;
      }
    }

    /** What a yield does before it schedules. */
    method MarkBlocked()
      requires Valid() && current.Some?
      modifies `current
      ensures Valid() && View() == Marked(old(View()))
    {
      current := Some(current.value.(isBlocked := true));
    }

    /** What a wake-up does before it schedules. */
    method Unblock(id: TaskId)
      requires Valid() && id in blocked
      modifies `blocked, `queue
      ensures Valid() && View() == Unblocked(old(View()), id)
    {
      var task := blocked[id].(isBlocked := false);
      blocked := blocked - {id};
      queue := [task] + queue;
    }
  }

  function Marked(m: Machine): Machine
    requires m.s.current.Some?
  {
    m.(s := m.s.(current := Some(m.s.current.value.(isBlocked := true))))
  }

  function Unblocked(m: Machine, id: TaskId): Machine
    requires id in m.s.blocked
  {
    m.(s := m.s.(blocked := m.s.blocked - {id}, queue := [m.s.blocked[id].(isBlocked := false)] + m.s.queue))
  }

  lemma {:induction false} MarkedThenScheduled(m: Machine)
    requires m.s.current.Some? && (m.frames != [] ==> m.outer < |m.frames|)
    ensures Called(Marked(m), Schedule) == Called(m, Yield)
  {
  }

  lemma {:induction false} UnblockedThenScheduled(m: Machine, id: TaskId)
    requires id in m.s.blocked && (m.frames != [] ==> m.outer < |m.frames|)
    ensures Called(Unblocked(m, id), Schedule) == Called(m, WakeUp(id))
  {
  }

  /** The outgoing task with the registers a switch saves. */
  function SavedBy(frames: seq<SavedState>, outer: nat, task: Task, regs: SavedState): Task
    requires frames != [] ==> outer < |frames|
  {
    task.(saved := if frames == [] then FarSave(task.saved, regs) else frames[outer])
  }

  // --- register conservation ---

  /** How a task came to wait: by a switch in an interrupt, or by a far return, which keeps some registers as they were
      in its saved state before. New tasks count as saved by an interrupt, with every register. */
  datatype Parking = ByInterrupt | ByFarReturn(before: SavedState)

  /** The registers a task last ran with, or was created with, and how it came to wait if it does. */
  datatype Past = Past(ran: SavedState, parked: Parking)

  /** Of every task, and the registers the idle task runs with while no other does. */
  datatype History = History(tasks: map<TaskId, Past>, idle: SavedState) {
    function With(id: TaskId, p: Past): History { this.(tasks := tasks[id := p]) }
  }

  /** What is saved of a waiting task. */
  function Slot(p: Past): SavedState {
    if p.parked.ByInterrupt? then p.ran else FarSave(p.parked.before, p.ran)
  }

  /** What it resumes with, by a far return or by the return of an interrupt. */
  function Resumed(p: Past, far: bool): SavedState {
    if far then FarLoad(Slot(p)) else Slot(p)
  }

  ghost predicate SavedAs(h: History, t: Task) {
    t.id in h.tasks && t.saved == Slot(h.tasks[t.id])
  }

  ghost predicate Parked(h: History, s: State) {
    && (forall i :: 0 <= i < |s.queue| ==> SavedAs(h, s.queue[i]))
    && (forall id :: id in s.blocked ==> SavedAs(h, s.blocked[id]))
  }

  /** The registers the current task will go on with, wherever they are at the moment. */
  function Context(m: Machine): SavedState {
    if m.frames == [] then m.regs else m.frames[0]
  }

  /** Every waiting task is saved as its past says, and the context is the current task's, or the idle task's. */
  ghost predicate Conserved(h: History, m: Machine) {
    && Orderly(m.s) && (m.frames != [] ==> m.outer == 0)
    && Parked(h, m.s)
    && (if m.s.current.Some? then
          m.s.current.value.id in h.tasks && Context(m) == h.tasks[m.s.current.value.id].ran
        else Context(m) == h.idle)
  }

  /** What the idle task starts with when it is switched to: its own state is never saved. */
  function IdleState(s: State, far: bool): SavedState {
    if far then s.idle.saved.(rcx := s.idle.saved.rdx) else s.idle.saved
  }

  /** The task that a call switches to, unless it is the idle task or there is no switch. */
  function Chosen(s: State, op: Op): Option<TaskId> {
    if !Switches(s, op) then None
    else if op.WakeUp? then Some(op.id)
    else if s.queue != [] then Some(s.queue[0].id) else None
  }

  /** The task that runs gives up the processor. */
  ghost function Left(h: History, m: Machine, op: Op, far: bool): History {
    if Switches(m.s, op) && m.s.current.Some? then
      var task := m.s.current.value;
      h.With(task.id, Past(Context(m), if far then ByFarReturn(task.saved) else ByInterrupt))
    else h
  }

  /** And the chosen one goes on with what it resumes with. */
  ghost function Switched(h: History, m: Machine, op: Op, far: bool): History {
    match Chosen(m.s, op)
    case None =>
      if Switches(m.s, op) then Left(h, m, op, far).(idle := IdleState(m.s, far)) else h
    case Some(id) =>
      var left := Left(h, m, op, far);
      if id in h.tasks then left.With(id, Past(Resumed(h.tasks[id], far), ByInterrupt)) else left
  }

  ghost function Record(h: History, m: Machine, e: Event): History {
    match e
    case TaskRuns(r) => if m.s.current.Some? then h.With(m.s.current.value.id, Past(r, ByInterrupt)) else h.(idle := r)
    case Call(Add(t)) => h.With(t.id, Past(t.saved, ByInterrupt))
    case TaskCalls(Add(t)) => h.With(t.id, Past(t.saved, ByInterrupt))
    case Call(op) => Switched(h, m, op, false)
    case TaskCalls(op) => Switched(h, m, op, true)
    case _ => h
  }

  ghost predicate Acceptable(m: Machine, e: Event) {
    Possible(m, e) && (e.Call? || e.TaskCalls? ==> Allowed(m.s, e.op))
  }

  lemma {:induction false} ScheduleConservesRegisters(h: History, c: Config)
    requires Parked(h, c.s)
    requires c.s.current.Some? ==> c.s.current.value.id in h.tasks && c.frame == Slot(h.tasks[c.s.current.value.id])
    ensures var c' := ScheduleStep(c);
      && Parked(h, c'.s)
      && (c'.s.current.Some? ==> c'.s.current.value.id in h.tasks && c'.frame == Slot(h.tasks[c'.s.current.value.id]))
  {
  }

  lemma {:induction false} CallConservesRegisters(h: History, c: Config, op: Op)
    requires Parked(h, c.s) && !op.Add?
    requires c.s.current.Some? ==> c.s.current.value.id in h.tasks && c.frame == Slot(h.tasks[c.s.current.value.id])
    ensures var c' := Step(c, op);
      && Parked(h, c'.s)
      && (c'.s.current.Some? ==> c'.s.current.value.id in h.tasks && c'.frame == Slot(h.tasks[c'.s.current.value.id]))
  {
    match op
    case Schedule => ScheduleConservesRegisters(h, c);
    case Yield =>
      if c.s.current.Some? {
        ScheduleConservesRegisters(h, c.(s := c.s.(current := Some(c.s.current.value.(isBlocked := true)))));
      }
    case WakeUp(id) =>
      if id in c.s.blocked {
        var task := c.s.blocked[id].(isBlocked := false);
        var s1 := c.s.(blocked := c.s.blocked - {id}, queue := [task] + c.s.queue);
        assert Parked(h, s1) by {
          assert SavedAs(h, c.s.blocked[id]);
          forall i | 0 <= i < |s1.queue| ensures SavedAs(h, s1.queue[i]) {
            assert i > 0 ==> s1.queue[i] == c.s.queue[i - 1];
          }
        }
        ScheduleConservesRegisters(h, c.(s := s1));
      }
  }

  /** A history entry for an id that no waiting task has can change freely. */
  lemma {:induction false} ParkedElsewhere(h: History, s: State, id: TaskId, p: Past)
    requires Parked(h, s) && InQueue(s.queue, id) == 0
    requires forall k :: k in s.blocked ==> s.blocked[k].id == k
    requires id !in s.blocked
    ensures Parked(h.With(id, p), s)
  {
    forall i | 0 <= i < |s.queue| ensures SavedAs(h.With(id, p), s.queue[i]) {
      assert SavedAs(h, s.queue[i]);
      QueueHas(s.queue, i);
    }
    forall k | k in s.blocked ensures SavedAs(h.With(id, p), s.blocked[k]) {
      assert SavedAs(h, s.blocked[k]);
    }
  }

  /** A call that switches runs the task it chooses, which was not the current one. */
  lemma {:induction false} ChosenRuns(c: Config, op: Op)
    requires Orderly(c.s) && !op.Add?
    ensures !Switches(c.s, op) ==> Step(c, op) == c
    ensures var s' := Step(c, op).s;
      Switches(c.s, op) ==> Chosen(c.s, op) == if s'.current.Some? then Some(s'.current.value.id) else None
    ensures Chosen(c.s, op).Some? && c.s.current.Some? ==> Chosen(c.s, op).value != c.s.current.value.id
  {
    if c.s.current.Some? {
      assert Places(c.s, c.s.current.value.id) <= 1;
      if c.s.queue != [] {
        QueueHas(c.s.queue, 0);
      }
    }
  }

  /** The registers that a call saves of the current task. */
  function Captured(m: Machine, far: bool): SavedState {
    if far && m.s.current.Some? then FarSave(m.s.current.value.saved, Context(m)) else Context(m)
  }

  /** The tasks and registers after a call that switches. */
  lemma {:induction false} SwitchConserves(h: History, m: Machine, op: Op, far: bool)
    requires Conserved(h, m) && !op.Add? && Switches(m.s, op)
    ensures var c := Step(Config(m.s, Captured(m, far)), op);
      && Orderly(c.s) && Parked(Switched(h, m, op, far), c.s)
      && (c.s.current.Some? ==>
           && c.s.current.value.id in h.tasks && c.frame == Slot(h.tasks[c.s.current.value.id])
           && Chosen(m.s, op) == Some(c.s.current.value.id)
           && c.s.current.value.id in Switched(h, m, op, far).tasks
           && Switched(h, m, op, far).tasks[c.s.current.value.id].ran == Resumed(h.tasks[c.s.current.value.id], far))
  {
    var c0 := Config(m.s, Captured(m, far));
    var c := Step(c0, op);
    var h1 := Left(h, m, op, far);
    if m.s.current.Some? {
      var id := m.s.current.value.id;
      assert Places(m.s, id) <= 1;
      ParkedElsewhere(h, m.s, id, h1.tasks[id]);
    }
    CallConservesRegisters(h1, c0, op);
    ChosenRuns(c0, op);
    StepConserves(c0, op);
    if c.s.current.Some? {
      var id := c.s.current.value.id;
      assert Places(c.s, id) <= 1;
      ParkedElsewhere(h1, c.s, id, Past(Resumed(h.tasks[id], far), ByInterrupt));
    }
  }

  lemma {:induction false} CallConserves(h: History, m: Machine, op: Op, far: bool)
    requires Conserved(h, m) && !op.Add? && (far <==> m.frames == [])
    ensures Conserved(Switched(h, m, op, far), Called(m, op))
  {
    if Switches(m.s, op) {
      SwitchConserves(h, m, op, far);
    } else {
      ChosenRuns(Config(m.s, Captured(m, far)), op);
    }
  }

  lemma {:induction false} AddConservesRegisters(h: History, m: Machine, t: Task)
    requires Conserved(h, m) && Allowed(m.s, Add(t))
    ensures Conserved(h.With(t.id, Past(t.saved, ByInterrupt)), Called(m, Add(t)))
  {
    StepConserves(Config(m.s, Context(m)), Add(t));
    ParkedElsewhere(h, m.s, t.id, Past(t.saved, ByInterrupt));
  }

  /** Every event keeps waiting tasks saved as their past says and the current task's registers in the context: a task
      chosen goes on with `Resumed` of its past. */
  lemma {:induction false} EventConserves(h: History, m: Machine, e: Event)
    requires Conserved(h, m) && Acceptable(m, e)
    ensures Conserved(Record(h, m, e), Next(m, e))
  {
    match e
    case TaskRuns(r) =>
      if m.s.current.Some? {
        var id := m.s.current.value.id;
        assert Places(m.s, id) <= 1;
        ParkedElsewhere(h, m.s, id, Past(r, ByInterrupt));
      }
    case Enter =>
    case HandlerRuns(r) =>
    case Call(op) =>
      if op.Add? {
        AddConservesRegisters(h, m, op.task);
      } else {
        CallConserves(h, m, op, false);
      }
    case TaskCalls(op) =>
      if op.Add? {
        AddConservesRegisters(h, m, op.task);
      } else {
        CallConserves(h, m, op, true);
      }
    case Return =>
  }

  ghost predicate AllAcceptable(m: Machine, es: seq<Event>)
    decreases |es|
  {
    es == [] || (Acceptable(m, es[0]) && AllAcceptable(Next(m, es[0]), es[1..]))
  }

  ghost function After(m: Machine, es: seq<Event>): Machine
    requires AllAcceptable(m, es)
    decreases |es|
  {
    if es == [] then m else After(Next(m, es[0]), es[1..])
  }

  ghost function Recorded(h: History, m: Machine, es: seq<Event>): History
    requires AllAcceptable(m, es)
    decreases |es|
  {
    if es == [] then h else Recorded(Record(h, m, es[0]), Next(m, es[0]), es[1..])
  }

  /** A call that switches and chooses no task leaves the processor to the idle task: in the outermost frame within
      interrupts, in the registers, with rcx from the slot of rdx, outside. */
  lemma {:induction false} IdleTakesOver(h: History, m: Machine, op: Op)
    requires Conserved(h, m) && !op.Add? && Switches(m.s, op) && Chosen(m.s, op).None?
    ensures Called(m, op).s.current.None?
    ensures if m.frames == [] then Called(m, op).regs == m.s.idle.saved.(rcx := m.s.idle.saved.rdx)
      else |Called(m, op).frames| == |m.frames| && Called(m, op).frames[0] == m.s.idle.saved
  {
    CallConserves(h, m, op, m.frames == []);
    ChosenRuns(Config(m.s, Captured(m, m.frames == [])), op);
  }

  /** Register conservation over every run of interrupts, nested or not, and scheduler calls inside and outside
      them. */
  lemma {:induction false} RegistersConserved(h: History, m: Machine, es: seq<Event>)
    requires Conserved(h, m) && AllAcceptable(m, es)
    ensures Conserved(Recorded(h, m, es), After(m, es))
    decreases |es|
  {
    if es != [] {
      EventConserves(h, m, es[0]);
      RegistersConserved(Record(h, m, es[0]), Next(m, es[0]), es[1..]);
    }
  }

  // --- tasks that resume with their own registers ---

  /** The registers that tasks themselves last left, or were created with; switches do not change them. */
  type Registers = map<TaskId, SavedState>

  ghost function Ran(own: Registers, m: Machine, e: Event): Registers {
    match e
    case TaskRuns(r) => if m.s.current.Some? then own[m.s.current.value.id := r] else own
    case Call(Add(t)) => own[t.id := t.saved]
    case TaskCalls(Add(t)) => own[t.id := t.saved]
    case _ => own
  }

  ghost predicate HasOwn(own: Registers, m: Machine) {
    m.s.current.Some? ==> m.s.current.value.id in own && Context(m) == own[m.s.current.value.id]
  }

  /** At every point of the run, the current task has its own registers. */
  ghost predicate AlwaysOwn(own: Registers, m: Machine, es: seq<Event>)
    requires AllAcceptable(m, es)
    decreases |es|
  {
    HasOwn(own, m) && (es == [] || AlwaysOwn(Ran(own, m, es[0]), Next(m, es[0]), es[1..]))
  }

  /** Which registers survive: a far return loads rcx from the slot of rdx; the one that parked the task kept the rax,
      rcx and segments that were saved before. */
  predicate Survives(p: Past, far: bool) {
    && (far ==> p.ran.rcx == p.ran.rdx)
    && (p.parked.ByFarReturn? ==>
         && p.parked.before.rax == p.ran.rax && (far || p.parked.before.rcx == p.ran.rcx)
         && p.parked.before.frame.cs == p.ran.frame.cs && p.parked.before.frame.ss == p.ran.frame.ss)
  }

  lemma {:induction false} SurvivesExactly(p: Past, far: bool)
    ensures Resumed(p, far) == p.ran <==> Survives(p, far)
  {
    assert p.ran == p.ran.(rcx := p.ran.rcx);
  }

  /** If the event chooses a task, its registers survive that. */
  ghost predicate Unharmed(h: History, m: Machine, e: Event) {
    (e.Call? || e.TaskCalls?) && Chosen(m.s, e.op).Some? ==>
      Chosen(m.s, e.op).value in h.tasks && Survives(h.tasks[Chosen(m.s, e.op).value], e.TaskCalls?)
  }

  ghost predicate AllUnharmed(h: History, m: Machine, es: seq<Event>)
    requires AllAcceptable(m, es)
    decreases |es|
  {
    es == [] || (Unharmed(h, m, es[0]) && AllUnharmed(Record(h, m, es[0]), Next(m, es[0]), es[1..]))
  }

  ghost predicate Agree(h: History, own: Registers) {
    forall id :: id in h.tasks ==> id in own && h.tasks[id].ran == own[id]
  }

  lemma {:induction false} AgreeAfter(h: History, own: Registers, m: Machine, op: Op, far: bool)
    requires Conserved(h, m) && Agree(h, own)
    requires Chosen(m.s, op).Some? ==>
      && Chosen(m.s, op).value in h.tasks
      && Resumed(h.tasks[Chosen(m.s, op).value], far) == h.tasks[Chosen(m.s, op).value].ran
    ensures Agree(Switched(h, m, op, far), own)
  {
    assert Agree(Left(h, m, op, far), own);
  }

  lemma {:induction false} SwitchHarms(h: History, own: Registers, m: Machine, op: Op, far: bool)
    requires Conserved(h, m) && Agree(h, own) && !op.Add? && (far <==> m.frames == [])
    ensures Chosen(m.s, op).Some? ==> Chosen(m.s, op).value in h.tasks
    ensures var harmless := Chosen(m.s, op).Some? ==> Survives(h.tasks[Chosen(m.s, op).value], far);
      && (HasOwn(own, Called(m, op)) <==> harmless)
      && (harmless ==> Agree(Switched(h, m, op, far), own))
  {
    ChosenRuns(Config(m.s, Captured(m, far)), op);
    if Switches(m.s, op) {
      SwitchConserves(h, m, op, far);
    }
    if Chosen(m.s, op).Some? {
      var id := Chosen(m.s, op).value;
      SurvivesExactly(h.tasks[id], far);
      assert Called(m, op).s.current.value.id == id && Context(Called(m, op)) == Resumed(h.tasks[id], far);
      if Survives(h.tasks[id], far) {
        AgreeAfter(h, own, m, op, far);
      }
    }
  }

  lemma {:induction false} EventHarms(h: History, own: Registers, m: Machine, e: Event)
    requires Conserved(h, m) && Agree(h, own) && Acceptable(m, e)
    ensures HasOwn(Ran(own, m, e), Next(m, e)) <==> Unharmed(h, m, e)
    ensures Unharmed(h, m, e) ==> Agree(Record(h, m, e), Ran(own, m, e))
  {
    EventConserves(h, m, e);
    match e
    case Call(op) =>
      if !op.Add? {
        SwitchHarms(h, own, m, op, false);
      }
    case TaskCalls(op) =>
      if !op.Add? {
        SwitchHarms(h, own, m, op, true);
      }
    case _ =>
  }

  /** Over every run, tasks always go on with their own registers exactly if those of every task chosen survive. */
  lemma {:induction false} OwnThroughout(h: History, own: Registers, m: Machine, es: seq<Event>)
    requires Conserved(h, m) && Agree(h, own) && AllAcceptable(m, es)
    ensures AlwaysOwn(own, m, es) <==> AllUnharmed(h, m, es)
    decreases |es|
  {
    if es != [] {
      var m', own' := Next(m, es[0]), Ran(own, m, es[0]);
      EventConserves(h, m, es[0]);
      EventHarms(h, own, m, es[0]);
      if Unharmed(h, m, es[0]) {
        OwnThroughout(Record(h, m, es[0]), own', m', es[1..]);
      }
    }
  }

  /** No task calls the scheduler for a switch: all switches are those of interrupts. */
  predicate InterruptsOnly(es: seq<Event>) {
    forall e :: e in es && e.TaskCalls? ==> e.op.Add?
  }

  lemma {:induction false} InterruptsUnharmed(h: History, m: Machine, es: seq<Event>)
    requires Conserved(h, m) && AllAcceptable(m, es)
    requires InterruptsOnly(es) && forall id :: id in h.tasks ==> h.tasks[id].parked.ByInterrupt?
    ensures AllUnharmed(h, m, es)
    decreases |es|
  {
    if es != [] {
      assert es[0] in es;
      EventConserves(h, m, es[0]);
      InterruptsUnharmed(Record(h, m, es[0]), Next(m, es[0]), es[1..]);
    }
  }

  ghost function RanLast(own: Registers, m: Machine, es: seq<Event>): Registers
    requires AllAcceptable(m, es)
    decreases |es|
  {
    if es == [] then own else RanLast(Ran(own, m, es[0]), Next(m, es[0]), es[1..])
  }

  lemma {:induction false} OwnAtTheEnd(own: Registers, m: Machine, es: seq<Event>)
    requires AllAcceptable(m, es) && AlwaysOwn(own, m, es)
    ensures HasOwn(RanLast(own, m, es), After(m, es))
    decreases |es|
  {
    if es != [] {
      OwnAtTheEnd(Ran(own, m, es[0]), Next(m, es[0]), es[1..]);
    }
  }

  /** So whenever the last handler returns after switches in interrupts only, nested or not, the processor continues the
      current task with exactly the registers it last ran with. */
  lemma {:induction false} ResumesWithOwnRegisters(h: History, own: Registers, m: Machine, es: seq<Event>)
    requires Conserved(h, m) && Agree(h, own) && AllAcceptable(m, es)
    requires InterruptsOnly(es) && forall id :: id in h.tasks ==> h.tasks[id].parked.ByInterrupt?
    requires |After(m, es).frames| == 1 && After(m, es).s.current.Some?
    ensures var m' := After(m, es);
      && m'.s.current.value.id in RanLast(own, m, es)
      && Next(m', Return).regs == RanLast(own, m, es)[m'.s.current.value.id]
  {
    InterruptsUnharmed(h, m, es);
    OwnThroughout(h, own, m, es);
    OwnAtTheEnd(own, m, es);
  }

  // --- tasks that do not ---

  const ZERO := SavedState(0, 0, 0, 0, 0, 0, 0, 0, 0, 0, 0, 0, 0, 0, 0, StackFrame(0, 8, 0, 0, 16))

  /** A processor that has not run any task yet, and two new tasks. */
  function Booted(): Machine {
    Machine(State(None, [], map[], Task(0, ZERO, false), false), ZERO, [], 0)
  }

  function NewTask(id: TaskId): Task {
    Task(id, ZERO, false)
  }

  lemma {:induction false} FirstEvent(own: Registers, m: Machine, e: Event, es: seq<Event>)
    requires Acceptable(m, e) && AllAcceptable(Next(m, e), es)
    ensures AllAcceptable(m, [e] + es) && After(m, [e] + es) == After(Next(m, e), es)
    ensures AlwaysOwn(own, m, [e] + es) ==> AlwaysOwn(Ran(own, m, e), Next(m, e), es)
  {
    assert ([e] + es)[0] == e && ([e] + es)[1..] == es;
  }

  /** Both tasks are added, and the first one runs. */
  function FirstRuns(regs: SavedState): Machine {
    Machine(State(Some(NewTask(1)), [NewTask(2)], map[], Task(0, ZERO, false), false), regs, [], 0)
  }

  function Own(regs: SavedState): Registers {
    map[1 := regs, 2 := ZERO]
  }

  lemma {:induction false} Started(regs: SavedState, es: seq<Event>) returns (all: seq<Event>)
    requires AllAcceptable(FirstRuns(regs), es)
    ensures AllAcceptable(Booted(), all) && After(Booted(), all) == After(FirstRuns(regs), es)
    ensures AlwaysOwn(map[], Booted(), all) ==> AlwaysOwn(Own(regs), FirstRuns(regs), es)
  {
    var e1, e2, e3, e4 := TaskCalls(Add(NewTask(1))), TaskCalls(Add(NewTask(2))), TaskCalls(Schedule), TaskRuns(regs);
    var m0 := Booted();
    var m1 := Next(m0, e1);
    assert m1.s.queue == [NewTask(1)];
    var m2 := Next(m1, e2);
    assert m2.s.queue == [NewTask(1), NewTask(2)];
    var m3 := Next(m2, e3);
    assert m3.s.queue == [NewTask(2)] && m3.s == FirstRuns(regs).s;
    assert Next(m3, e4) == FirstRuns(regs);
    var own0: Registers := map[];
    var own1 := Ran(own0, m0, e1);
    var own2 := Ran(own1, m1, e2);
    var own3 := Ran(own2, m2, e3);
    assert own3 == map[1 := ZERO, 2 := ZERO] && Ran(own3, m3, e4) == Own(regs);
    FirstEvent(own3, m3, e4, es);
    FirstEvent(own2, m2, e3, [e4] + es);
    FirstEvent(own1, m1, e2, [e3] + ([e4] + es));
    FirstEvent(own0, m0, e1, [e2] + ([e3] + ([e4] + es)));
    all := [e1] + ([e2] + ([e3] + ([e4] + es)));
  }

  /** The second task runs, and calls the scheduler; the first one is saved as given. */
  lemma {:induction false} SecondCalls(own: Registers, saved: SavedState, second: SavedState, regs: SavedState)
    requires 1 in own && own[1] != saved.(rcx := saved.rdx)
    ensures var t1, t2 := NewTask(1).(saved := saved), NewTask(2).(saved := second);
      var m := Machine(State(Some(t2), [t1], map[], Task(0, ZERO, false), false), regs, [], 0);
      && AllAcceptable(m, [TaskCalls(Schedule)]) && !AlwaysOwn(own, m, [TaskCalls(Schedule)])
      && After(m, [TaskCalls(Schedule)]).s.current == Some(t1)
      && After(m, [TaskCalls(Schedule)]).regs == saved.(rcx := saved.rdx)
  {
    var t1, t2 := NewTask(1).(saved := saved), NewTask(2).(saved := second);
    var m := Machine(State(Some(t2), [t1], map[], Task(0, ZERO, false), false), regs, [], 0);
    var e := TaskCalls(Schedule);
    var m' := Next(m, e);
    assert m'.s.current == Some(t1) && m'.regs == FarLoad(saved);
    FirstEvent(own, m, e, []);
    assert [e] + [] == [e];
    assert !AlwaysOwn(own, m', []);
  }

  /** A run from boot in which a task is parked by an interrupt and resumed by a far return: with any registers of which
      rcx and rdx differ, it goes on with the wrong rcx. */
  lemma {:induction false} InterruptThenFarReturn(regs: SavedState) returns (es: seq<Event>)
    requires regs.rcx != regs.rdx
    ensures AllAcceptable(Booted(), es) && !AlwaysOwn(map[], Booted(), es)
    ensures After(Booted(), es).s.current.Some? && After(Booted(), es).s.current.value.id == 1
    ensures After(Booted(), es).regs == regs.(rcx := regs.rdx)
  {
    var own := Own(regs);
    var last := [TaskCalls(Schedule)];
    var m1 := FirstRuns(regs);
    var m2 := Next(m1, Enter);
    var m3 := Next(m2, Call(Schedule));
    var m4 := Next(m3, Return);
    assert m4.s.queue == [NewTask(1).(saved := regs)] && m4.s.current == Some(NewTask(2)) && m4.frames == [];
    SecondCalls(own, regs, ZERO, m4.regs);
    FirstEvent(own, m3, Return, last);
    FirstEvent(own, m2, Call(Schedule), [Return] + last);
    FirstEvent(own, m1, Enter, [Call(Schedule)] + ([Return] + last));
    es := Started(regs, [Enter] + ([Call(Schedule)] + ([Return] + last)));
  }

  /** And one in which it is parked and resumed by far returns: rax and the segments are those it was created with,
      whether or not rcx and rdx are the same. */
  lemma {:induction false} FarReturnTwice(regs: SavedState) returns (es: seq<Event>)
    requires regs.rax != ZERO.rax || regs.rcx != regs.rdx
    ensures AllAcceptable(Booted(), es) && !AlwaysOwn(map[], Booted(), es)
    ensures After(Booted(), es).s.current.Some? && After(Booted(), es).s.current.value.id == 1
    ensures After(Booted(), es).regs ==
      regs.(rax := ZERO.rax, rcx := regs.rdx, frame := regs.frame.(cs := ZERO.frame.cs, ss := ZERO.frame.ss))
  {
    var own := Own(regs);
    var last := [TaskCalls(Schedule)];
    var m1 := FirstRuns(regs);
    var m2 := Next(m1, TaskCalls(Schedule));
    assert m2.s.queue == [NewTask(1).(saved := FarSave(ZERO, regs))] && m2.s.current == Some(NewTask(2));
    SecondCalls(own, FarSave(ZERO, regs), ZERO, m2.regs);
    FirstEvent(own, m1, TaskCalls(Schedule), last);
    es := Started(regs, [TaskCalls(Schedule)] + last);
  }

  /** A switch inside a nested handler writes the outermost frame only. */
  lemma {:induction false} InnerFramesKept(h: History, m: Machine, op: Op)
    requires Conserved(h, m) && m.frames != []
    ensures |Next(m, Call(op)).frames| == |m.frames| && Next(m, Call(op)).frames[1..] == m.frames[1..]
  {
  }

  /** More than `n` interrupts are being handled all along. */
  ghost predicate Deeper(m: Machine, es: seq<Event>, n: nat)
    requires AllAcceptable(m, es)
    decreases |es|
  {
    |m.frames| > n && (es == [] || Deeper(Next(m, es[0]), es[1..], n))
  }

  /** Nothing that happens above them changes the frames of the inner handlers below. */
  lemma {:induction false} FramesBelow(m: Machine, es: seq<Event>, n: nat)
    requires AllAcceptable(m, es) && Deeper(m, es, n) && n > 0 && m.outer == 0
    ensures After(m, es).outer == 0 && |After(m, es).frames| > n
    ensures After(m, es).frames[1..n + 1] == m.frames[1..n + 1]
    decreases |es|
  {
    if es != [] {
      FramesBelow(Next(m, es[0]), es[1..], n);
    }
  }

  /** So a handler that is interrupted goes on with exactly its own registers, whatever the interrupt did, switches and
      further interrupts included. */
  lemma {:induction false} HandlerResumes(m: Machine, es: seq<Event>)
    requires m.frames != [] && m.outer == 0
    requires AllAcceptable(Next(m, Enter), es) && Deeper(Next(m, Enter), es, |m.frames|)
    requires |After(Next(m, Enter), es).frames| == |m.frames| + 1
    ensures var m' := Next(After(Next(m, Enter), es), Return);
      m'.regs == m.regs && |m'.frames| == |m.frames| && m'.frames[1..] == m.frames[1..]
  {
    var m1 := Next(m, Enter);
    FramesBelow(m1, es, |m.frames|);
    assert After(m1, es).frames[1..|m.frames| + 1] == m1.frames[1..|m.frames| + 1];
    assert m1.frames[1..|m.frames| + 1][|m.frames| - 1] == m.regs;
    assert After(m1, es).frames[1..|m.frames| + 1][|m.frames| - 1] == After(m1, es).frames[|m.frames|];
    assert m1.frames[1..|m.frames| + 1][..|m.frames| - 1] == m.frames[1..];
  }
}
