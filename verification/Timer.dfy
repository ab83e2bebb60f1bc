/** The processor's timer: pending alarms, the preemption alarm, and the interval the hardware is armed with. */
module Timers {
  import opened Basics
  import opened Time
  import opened Ticks
  import Interrupts
  import Scheduler

  const DEFAULT_FREQUENCY: Time := Time(1, 0, 0, 0)
  const PREEMPT_FREQUENCY: Time := Time(0, 100, 0, 0)

  /** What a due alarm does: set the flag of a waiting task, or call the scheduler. */
  datatype AlarmType = Wait(flag: nat) | Schedule

  datatype Alarm = Alarm(trigger: Time, kind: AlarmType)

  /** The periods in nanoseconds: one second, and a tenth of one. */
  lemma {:induction false} Periods()
    ensures Ns(DEFAULT_FREQUENCY) == 1_000_000_000 && Ns(PREEMPT_FREQUENCY) == 100_000_000
  {
  }

  // --- bags of alarms ---

  ghost function Count(s: seq<Alarm>, a: Alarm): nat {
    if s == [] then 0 else Count(s[..|s| - 1], a) + One(s[|s| - 1] == a)
  }

  lemma {:induction false} CountSnoc(s: seq<Alarm>, x: Alarm, a: Alarm)
    ensures Count(s + [x], a) == Count(s, a) + One(x == a)
  {
  }

  lemma {:induction false} CountWithout(s: seq<Alarm>, i: nat, a: Alarm)
    requires i < |s|
    ensures Count(s, a) == Count(Without(s, i), a) + One(s[i] == a)
  {
    var last := |s| - 1;
    if i == last {
      assert Without(s, i) == s[..last];
    } else {
      assert Without(s, i) == Without(s[..last], i) + [s[last]];
      CountWithout(s[..last], i, a);
      CountSnoc(Without(s[..last], i), s[last], a);
    }
  }

  lemma {:induction false} CountMember(s: seq<Alarm>, a: Alarm)
    ensures Count(s, a) > 0 <==> a in s
  {
    if s != [] {
      assert s == s[..|s| - 1] + [s[|s| - 1]];
      CountMember(s[..|s| - 1], a);
    }
  }

  predicate Due(a: Alarm, runtime: Time) {
    Ns(a.trigger) <= Ns(runtime)
  }

  /** The alarms fired and left are those that were there. */
  ghost predicate Accounts(fired: seq<Alarm>, left: seq<Alarm>, before: seq<Alarm>, extra: Option<Alarm>) {
    forall a :: Count(fired, a) + Count(left, a) == Count(before, a) + One(extra == Some(a))
  }

  /** Every due alarm fired exactly as often as it was there, no other fired, and the others are left. */
  ghost predicate FiredExactly(fired: seq<Alarm>, left: seq<Alarm>, before: seq<Alarm>, extra: Option<Alarm>,
                               runtime: Time) {
    forall a ::
      && Count(fired, a) == (if Due(a, runtime) then Count(before, a) + One(extra == Some(a)) else 0)
      && Count(left, a) == (if Due(a, runtime) then 0 else Count(before, a))
  }

  lemma {:induction false} FireOne(fired: seq<Alarm>, left: seq<Alarm>, before: seq<Alarm>, extra: Option<Alarm>,
                                   i: nat)
    requires Accounts(fired, left, before, extra) && i < |left|
    ensures Accounts(fired + [left[i]], Without(left, i), before, extra)
  {
    forall a
      ensures Count(fired + [left[i]], a) + Count(Without(left, i), a) == Count(before, a) + One(extra == Some(a))
    {
      CountSnoc(fired, left[i], a);
      CountWithout(left, i, a);
      assert Count(fired, a) + Count(left, a) == Count(before, a) + One(extra == Some(a));
    }
  }

  lemma {:induction false} AllFired(fired: seq<Alarm>, left: seq<Alarm>, before: seq<Alarm>, extra: Option<Alarm>,
                                    runtime: Time)
    requires Accounts(fired, left, before, extra)
    requires forall a :: a in fired ==> Due(a, runtime)
    requires forall a :: a in left ==> !Due(a, runtime)
    requires extra.Some? ==> Due(extra.value, runtime)
    ensures FiredExactly(fired, left, before, extra, runtime)
  {
    forall a
      ensures Count(fired, a) == (if Due(a, runtime) then Count(before, a) + One(extra == Some(a)) else 0)
      ensures Count(left, a) == (if Due(a, runtime) then 0 else Count(before, a))
    {
      assert Count(fired, a) + Count(left, a) == Count(before, a) + One(extra == Some(a));
      CountMember(fired, a);
      CountMember(left, a);
    }
  }

  /** Alarms in the order of their triggers, all of them before or with those left. */
  ghost predicate InTurn(fired: seq<Alarm>, left: seq<Alarm>) {
    && (forall i, j :: 0 <= i < j < |fired| ==> Ns(fired[i].trigger) <= Ns(fired[j].trigger))
    && (forall i, j :: 0 <= i < |fired| && 0 <= j < |left| ==> Ns(fired[i].trigger) <= Ns(left[j].trigger))
  }

  lemma {:induction false} NextInTurn(fired: seq<Alarm>, left: seq<Alarm>, i: nat)
    requires InTurn(fired, left) && i < |left| && forall a :: a in left ==> Ns(left[i].trigger) <= Ns(a.trigger)
    ensures InTurn(fired + [left[i]], Without(left, i))
  {
    var rest := Without(left, i);
    forall j | 0 <= j < |rest| ensures rest[j] in left && exists k :: 0 <= k < |left| && left[k] == rest[j] {
      assert rest[j] == left[if j < i then j else j + 1];
    }
  }

  // --- many updates ---

  /** One update: alarms added before it, the preemption alarm if it was due, and what was fired and left. */
  datatype Round = Round(runtime: Time, added: seq<Alarm>, extra: Option<Alarm>, fired: seq<Alarm>, left: seq<Alarm>)

  ghost predicate Rounds(before: seq<Alarm>, rs: seq<Round>)
    decreases |rs|
  {
    rs == [] ||
    (&& FiredExactly(rs[0].fired, rs[0].left, before + rs[0].added, rs[0].extra, rs[0].runtime)
     && Rounds(rs[0].left, rs[1..]))
  }

  ghost function TimesFired(rs: seq<Round>, a: Alarm): nat {
    if rs == [] then 0 else Count(rs[0].fired, a) + TimesFired(rs[1..], a)
  }

  ghost function TimesAdded(rs: seq<Round>, a: Alarm): nat {
    if rs == [] then 0 else Count(rs[0].added, a) + TimesAdded(rs[1..], a)
  }

  /** How often it was the preemption alarm come due. */
  ghost function TimesTaken(rs: seq<Round>, a: Alarm): nat {
    if rs == [] then 0 else One(rs[0].extra == Some(a)) + TimesTaken(rs[1..], a)
  }

  ghost function Pending(before: seq<Alarm>, rs: seq<Round>): seq<Alarm> {
    if rs == [] then before else rs[|rs| - 1].left
  }

  lemma {:induction false} CountConcat(s: seq<Alarm>, t: seq<Alarm>, a: Alarm)
    ensures Count(s + t, a) == Count(s, a) + Count(t, a)
  {
    if t == [] {
      assert s + t == s;
    } else {
      var init := t[..|t| - 1];
      assert s + t == (s + init) + [t[|t| - 1]];
      CountSnoc(s + init, t[|t| - 1], a);
      CountConcat(s, init, a);
    }
  }

  /** Over any number of updates an alarm fires as often as it was set, less what is still pending: never twice, never
      lost, and never before the runtime reaches its trigger. */
  lemma {:induction false} AlarmsConserved(before: seq<Alarm>, rs: seq<Round>, a: Alarm)
    requires Rounds(before, rs) && forall r :: r in rs && r.extra.Some? ==> Due(r.extra.value, r.runtime)
    ensures TimesFired(rs, a) + Count(Pending(before, rs), a) ==
      Count(before, a) + TimesAdded(rs, a) + TimesTaken(rs, a)
    ensures rs != [] && Due(a, rs[|rs| - 1].runtime) ==> Count(Pending(before, rs), a) == 0
    ensures (forall r :: r in rs ==> !Due(a, r.runtime)) ==> TimesFired(rs, a) == 0
    decreases |rs|
  {
    if rs != [] {
      var r := rs[0];
      CountConcat(before, r.added, a);
      assert r in rs;
      assert Count(r.fired, a) ==
        (if Due(a, r.runtime) then Count(before + r.added, a) + One(r.extra == Some(a)) else 0);
      assert Count(r.left, a) == (if Due(a, r.runtime) then 0 else Count(before + r.added, a));
      AlarmsConserved(r.left, rs[1..], a);
    }
  }

  ghost function FiredIn(rs: seq<Round>): seq<Alarm> {
    if rs == [] then [] else FiredIn(rs[..|rs| - 1]) + rs[|rs| - 1].fired
  }

  /** The preemption alarms that came due. */
  ghost function TakenIn(rs: seq<Round>): seq<Alarm> {
    if rs == [] then [] else TakenIn(rs[..|rs| - 1]) + Listed(rs[|rs| - 1].extra)
  }

  function Listed(a: Option<Alarm>): seq<Alarm> {
    if a.Some? then [a.value] else []
  }

  /** The log of a timer: its updates, each of which fired exactly what was due, and the alarms added since. */
  ghost predicate Logged(rs: seq<Round>, added: seq<Alarm>, alarms: seq<Alarm>, fired: seq<Alarm>, taken: seq<Alarm>,
                         runtime: Time) {
    && Rounds([], rs) && alarms == Pending([], rs) + added && fired == FiredIn(rs) && taken == TakenIn(rs)
    && (forall r :: r in rs ==> Ns(r.runtime) <= Ns(runtime) && (r.extra.Some? ==> Due(r.extra.value, r.runtime)))
  }

  lemma {:induction false} RoundsSnoc(before: seq<Alarm>, rs: seq<Round>, r: Round)
    requires Rounds(before, rs) && FiredExactly(r.fired, r.left, Pending(before, rs) + r.added, r.extra, r.runtime)
    ensures Rounds(before, rs + [r])
    decreases |rs|
  {
    if rs == [] {
      assert [r][1..] == [] && rs + [r] == [r];
    } else {
      assert (rs + [r])[1..] == rs[1..] + [r] && (rs + [r])[0] == rs[0];
      assert Pending(rs[0].left, rs[1..]) == Pending(before, rs);
      RoundsSnoc(rs[0].left, rs[1..], r);
    }
  }

  /** An update goes into the log. */
  lemma {:induction false} LogUpdate(rs: seq<Round>, added: seq<Alarm>, before: seq<Alarm>, fired: seq<Alarm>,
                                     taken: seq<Alarm>, runtime: Time, r: Round, now: seq<Alarm>)
    requires Logged(rs, added, before, fired, taken, runtime) && r.added == added && r.runtime == runtime
    requires FiredExactly(r.fired, r.left, before, r.extra, runtime) && (r.extra.Some? ==> Due(r.extra.value, runtime))
    requires now == fired + r.fired
    ensures Logged(rs + [r], [], r.left, now, taken + Listed(r.extra), runtime)
  {
    RoundsSnoc([], rs, r);
    assert (rs + [r])[..|rs|] == rs;
    assert r.left + [] == r.left;
  }

  lemma {:induction false} FiredCount(rs: seq<Round>, a: Alarm)
    ensures Count(FiredIn(rs), a) == TimesFired(rs, a)
    decreases |rs|
  {
    if rs != [] {
      var last := |rs| - 1;
      FiredCount(rs[..last], a);
      CountConcat(FiredIn(rs[..last]), rs[last].fired, a);
      TimesFiredSnoc(rs[..last], rs[last], a);
      assert rs[..last] + [rs[last]] == rs;
    }
  }

  lemma {:induction false} TimesFiredSnoc(rs: seq<Round>, r: Round, a: Alarm)
    ensures TimesFired(rs + [r], a) == TimesFired(rs, a) + Count(r.fired, a)
    decreases |rs|
  {
    if rs == [] {
      assert [r][1..] == [] && rs + [r] == [r];
    } else {
      assert (rs + [r])[1..] == rs[1..] + [r] && (rs + [r])[0] == rs[0];
      TimesFiredSnoc(rs[1..], r, a);
    }
  }

  lemma {:induction false} TakenCount(rs: seq<Round>, a: Alarm)
    ensures Count(TakenIn(rs), a) == TimesTaken(rs, a)
    decreases |rs|
  {
    if rs != [] {
      var last := |rs| - 1;
      TakenCount(rs[..last], a);
      CountConcat(TakenIn(rs[..last]), Listed(rs[last].extra), a);
      ListedCount(rs[last].extra, a);
      TimesTakenSnoc(rs[..last], rs[last], a);
      assert rs[..last] + [rs[last]] == rs;
    }
  }

  lemma {:induction false} ListedCount(x: Option<Alarm>, a: Alarm)
    ensures Count(Listed(x), a) == One(x == Some(a))
  {
    if x.Some? {
      CountSnoc([], x.value, a);
      assert [] + [x.value] == [x.value];
    }
  }

  lemma {:induction false} TimesTakenSnoc(rs: seq<Round>, r: Round, a: Alarm)
    ensures TimesTaken(rs + [r], a) == TimesTaken(rs, a) + One(r.extra == Some(a))
    decreases |rs|
  {
    if rs == [] {
      assert [r][1..] == [] && rs + [r] == [r];
    } else {
      assert (rs + [r])[1..] == rs[1..] + [r] && (rs + [r])[0] == rs[0];
      TimesTakenSnoc(rs[1..], r, a);
    }
  }

  // --- the preemption alarm ---

  function Preemption(scheduled: Option<Time>): Option<Alarm> {
    if scheduled.Some? then Some(Alarm(scheduled.value, Schedule)) else None
  }

  // --- the runtime ---

  /** What a run of interrupts of the local APIC adds to the runtime, and the ticks that it counts down meanwhile. */
  function TimeOf(intervals: seq<Time>): nat {
    if intervals == [] then 0 else Ns(intervals[0]) + TimeOf(intervals[1..])
  }

  function TicksOf(tms: nat, intervals: seq<Time>): nat {
    if intervals == [] then 0 else LapicCount(Calibrate(tms), intervals[0]) + TicksOf(tms, intervals[1..])
  }

  /** Over every run of interrupts whose intervals are credited exactly, the runtime added is the true time of the ticks
      that have passed. */
  lemma {:induction false} LapicKeepsTime(tms: nat, intervals: seq<Time>)
    requires forall t :: t in intervals ==> CreditsExactly(tms, t)
    ensures TicksOf(tms, intervals) * 1_000_000 == TimeOf(intervals) * tms
    decreases |intervals|
  {
    if intervals != [] {
      var t, rest := intervals[0], intervals[1..];
      assert t in intervals;
      LapicKeepsTime(tms, rest);
      assert (Ns(t) + TimeOf(rest)) * tms == Ns(t) * tms + TimeOf(rest) * tms;
    }
  }

  /** Converted ticks are near the true time, and at the generous rates no less. */
  lemma {:induction false} ElapsedIsTrue(tms: nat, ticks: nat)
    requires tms >= 1 && ticks <= MAX_U64
    ensures tms * 1000 <= MAX_U64 ==> Near(Ns(TicksToTime(Calibrate(tms), ticks)), ticks, tms)
    ensures tms * 1000 <= MAX_U64 && Generous(tms) ==>
      Ns(TicksToTime(Calibrate(tms), ticks)) >= TrueNs(ticks, tms)
  {
    if tms * 1000 <= MAX_U64 {
      TimeIsNear(tms, ticks);
      if Generous(tms) {
        GenerousNotSlow(tms, ticks);
      }
    }
  }

  // --- the preemption alarm ---

  /** What happened to the preemption alarm: it was set, replacing a pending one, stopped, or taken when it was due. */
  datatype Setting = Set(trigger: Time) | Stopped | Taken

  ghost function StillSet(log: seq<Setting>): Option<Alarm> {
    if log != [] && log[|log| - 1].Set? then Some(Alarm(log[|log| - 1].trigger, Schedule)) else None
  }

  ghost function TakenOf(log: seq<Setting>): seq<Alarm> {
    if log == [] then []
    else
      var init := log[..|log| - 1];
      TakenOf(init) + if log[|log| - 1].Taken? then Listed(StillSet(init)) else []
  }

  ghost function TimesPreset(log: seq<Setting>, a: Alarm): nat {
    if log == [] then 0 else TimesPreset(log[..|log| - 1], a) + One(StillSet(log) == Some(a))
  }

  /** How often it was replaced or stopped before it came due. */
  ghost function TimesDropped(log: seq<Setting>, a: Alarm): nat {
    if log == [] then 0
    else
      var init := log[..|log| - 1];
      TimesDropped(init, a) + One(!log[|log| - 1].Taken? && StillSet(init) == Some(a))
  }

  /** The log of the preemption alarm is up to date. */
  ghost predicate Tracked(log: seq<Setting>, taken: seq<Alarm>, scheduled: Option<Time>) {
    StillSet(log) == Preemption(scheduled) && taken == TakenOf(log)
  }

  lemma {:induction false} TrackNext(log: seq<Setting>, taken: seq<Alarm>, scheduled: Option<Time>, s: Setting)
    requires Tracked(log, taken, scheduled)
    ensures Tracked(log + [s], taken + (if s.Taken? then Listed(Preemption(scheduled)) else []),
      if s.Set? then Some(s.trigger) else None)
  {
    assert (log + [s])[..|log|] == log;
  }

  /** Every preemption alarm that was set has come due, was replaced or stopped before that, or is the one pending. */
  lemma {:induction false} PresetConserved(log: seq<Setting>, a: Alarm)
    ensures TimesPreset(log, a) == Count(TakenOf(log), a) + TimesDropped(log, a) + One(StillSet(log) == Some(a))
    decreases |log|
  {
    if log != [] {
      var init := log[..|log| - 1];
      PresetConserved(init, a);
      CountConcat(TakenOf(init), if log[|log| - 1].Taken? then Listed(StillSet(init)) else [], a);
      ListedCount(StillSet(init), a);
    }
  }

  /** So at any time every alarm, of the queue or for preemption, has fired, is pending or was dropped exactly as often
      as it was set, and none whose trigger is still to come has fired. */
  lemma {:induction false} LogConserves(rs: seq<Round>, added: seq<Alarm>, alarms: seq<Alarm>, fired: seq<Alarm>,
                                        log: seq<Setting>, taken: seq<Alarm>, scheduled: Option<Time>, runtime: Time,
                                        a: Alarm)
    requires Logged(rs, added, alarms, fired, taken, runtime) && Tracked(log, taken, scheduled)
    ensures Count(fired, a) + Count(alarms, a) + One(Preemption(scheduled) == Some(a)) + TimesDropped(log, a) ==
      TimesAdded(rs, a) + Count(added, a) + TimesPreset(log, a)
    ensures !Due(a, runtime) ==> Count(fired, a) == 0
  {
    AlarmsConserved([], rs, a);
    FiredCount(rs, a);
    TakenCount(rs, a);
    CountConcat(Pending([], rs), added, a);
    PresetConserved(log, a);
  }

  // --- scheduling by alarms ---

  /** How many of the alarms call the scheduler. */
  ghost function Schedules(fired: seq<Alarm>): nat {
    if fired == [] then 0 else Schedules(fired[..|fired| - 1]) + One(fired[|fired| - 1].kind.Schedule?)
  }

  lemma {:induction false} SchedulesSnoc(fired: seq<Alarm>, a: Alarm)
    ensures Schedules(fired + [a]) == Schedules(fired) + One(a.kind.Schedule?)
  {
  }

  ghost predicate InHandler(m: Interrupts.Machine) {
    m.outer < |m.frames|
  }

  /** The processor after `k` scheduler calls of an interrupt handler. */
  ghost function Scheduled(m: Interrupts.Machine, k: nat): (m': Interrupts.Machine)
    requires k > 0 ==> InHandler(m)
    ensures m'.outer == m.outer && |m'.frames| == |m.frames|
  {
    if k == 0 then m else Interrupts.Next(Scheduled(m, k - 1), Interrupts.Call(Scheduler.Schedule))
  }

  /** A scheduler call, and the `k` scheduler calls of the alarms that fire while it restarts the preemption alarm. */
  ghost function CalledWith(m: Interrupts.Machine, op: Scheduler.Op, k: nat): Interrupts.Machine
    requires (k > 0 ==> InHandler(m)) && (m.frames != [] ==> InHandler(m))
  {
    Scheduled(Interrupts.Called(m, op), k)
  }

  /** The alarms come first, but they schedule as the call does. */
  lemma {:induction false} AlarmsFirst(m: Interrupts.Machine, k: nat)
    requires (k > 0 ==> InHandler(m)) && (m.frames != [] ==> InHandler(m))
    ensures Interrupts.Called(Scheduled(m, k), Scheduler.Schedule) == CalledWith(m, Scheduler.Schedule, k)
  {
    if k > 0 {
      AlarmsFirst(m, k - 1);
    }
  }

  /** Scheduler calls in a handler are those of the scheduler model on the outermost frame. */
  lemma {:induction false} ScheduledIs(m: Interrupts.Machine, k: nat)
    requires InHandler(m)
    ensures var c := Scheduler.Rescheduled(Scheduler.Config(m.s, m.frames[m.outer]), k);
      Scheduled(m, k) == m.(s := c.s, frames := m.frames[m.outer := c.frame])
  {
    if k == 0 {
      assert m.frames[m.outer := m.frames[m.outer]] == m.frames;
    } else {
      ScheduledIs(m, k - 1);
    }
  }

  /** A task woken in a handler is current when the handler goes on, unless alarms schedule again: then exactly if they
      went all the way round. */
  lemma {:induction false} WokenAfterAlarms(m: Interrupts.Machine, id: Scheduler.TaskId, k: nat)
    requires InHandler(m) && Scheduler.Orderly(m.s) && id in m.s.blocked
    ensures var s' := CalledWith(m, Scheduler.WakeUp(id), k).s;
      && Scheduler.Orderly(s') && id !in s'.blocked && s'.current.Some?
      && (s'.current.value.id == id <==> k % (|m.s.queue| + One(m.s.current.Some?) + 1) == 0)
  {
    var c := Scheduler.Config(m.s, m.frames[m.outer]);
    ScheduledIs(Interrupts.Called(m, Scheduler.WakeUp(id)), k);
    Scheduler.WokenRuns(c, id, k);
  }

  /** Calls that find nothing to do. */
  lemma {:induction false} NotCalled(m: Interrupts.Machine, op: Scheduler.Op)
    requires m.frames != [] ==> InHandler(m)
    requires (op.Yield? && m.s.current.None?) || (op.WakeUp? && op.id !in m.s.blocked)
    ensures Interrupts.Called(m, op) == m
  {
    assert m.frames != [] ==> m.frames[m.outer := m.frames[m.outer]] == m.frames;
  }

  // --- intervals ---

  function Shorter(interval: Time, trigger: Time, runtime: Time): (r: Time)
    requires Normal(interval) && Normal(trigger) && Normal(runtime) && Ns(trigger) > Ns(runtime)
    ensures Normal(r) && Ns(r) == Min(Ns(interval), Ns(trigger) - Ns(runtime))
  {
    SubIsExact(trigger, runtime);
    var wait := Sub(trigger, runtime).value;
    OrderIsNumeric(wait, interval);
    if Less(wait, interval) then wait else interval
  }

  /** The source's comparison of a trigger with the runtime. */
  function IsDue(trigger: Time, runtime: Time): (due: bool)
    requires Normal(trigger) && Normal(runtime)
    ensures due <==> Ns(trigger) <= Ns(runtime)
  {
    OrderIsNumeric(runtime, trigger);
    !Less(runtime, trigger)
  }

  /** The interval ends no later than the time given. */
  predicate Reaches(interval: Time, runtime: Time, trigger: Time) {
    Ns(runtime) + Ns(interval) <= Ns(trigger)
  }

  /** Seconds are far enough from their maximum to add the wait. */
  predicate Unsaturated(runtime: Time, wait: Time) {
    Ns(runtime) + Ns(wait) < (MAX_U64 + 1) * NS_PER_SEC
  }

  /** The interval is positive, at most the default, and reaches no further than any pending alarm. */
  ghost predicate Covers(interval: Time, runtime: Time, alarms: seq<Alarm>, scheduled: Option<Time>) {
    && Normal(interval) && 0 < Ns(interval) <= NS_PER_SEC
    && (forall a :: a in alarms ==> Reaches(interval, runtime, a.trigger))
    && (scheduled.Some? ==> Reaches(interval, runtime, scheduled.value))
  }

  /** And it is not shorter than the default, a pending alarm or the preemption alarm that was set asks for. */
  ghost predicate GoodInterval(interval: Time, runtime: Time, alarms: seq<Alarm>, scheduled: Option<Time>,
                               was: Option<Time>) {
    && Covers(interval, runtime, alarms, scheduled)
    && (|| Ns(interval) == NS_PER_SEC
        || (exists a :: a in alarms && Ns(a.trigger) == Ns(runtime) + Ns(interval))
        || (scheduled.Some? && Ns(scheduled.value) == Ns(runtime) + Ns(interval))
        || (was.Some? && Ns(was.value) == Ns(runtime) + Ns(interval)))
  }

  /** An interval that still covers the preemption alarm when a scheduler call restarts it. */
  predicate Suits(interval: Time, runtime: Time, scheduled: Option<Time>, preemption: bool) {
    && Normal(interval) && 0 < Ns(interval) <= NS_PER_SEC
    && (scheduled.Some? ==> Reaches(interval, runtime, scheduled.value))
    && (preemption ==> Ns(interval) <= Ns(PREEMPT_FREQUENCY))
  }

  /** The preemption alarm is the same as it was or has just been restarted. */
  predicate KeptOrRestarted(scheduled: Option<Time>, was: Option<Time>, runtime: Time) {
    scheduled == was || (scheduled.Some? && Ns(scheduled.value) == Ns(runtime) + Ns(PREEMPT_FREQUENCY))
  }

  lemma {:induction false} UntilNearest(soFar: Time, wait: Time, runtime: Time, alarms: seq<Alarm>, i: nat,
                                        scheduled: Option<Time>)
    requires i < |alarms| && (forall a :: a in alarms ==> Ns(alarms[i].trigger) <= Ns(a.trigger))
    requires Normal(soFar) && 0 < Ns(soFar) <= NS_PER_SEC
    requires scheduled.Some? ==> Reaches(soFar, runtime, scheduled.value)
    requires Normal(wait) && Ns(wait) == Min(Ns(soFar), Ns(alarms[i].trigger) - Ns(runtime)) > 0
    ensures Covers(wait, runtime, alarms, scheduled) && (forall a :: a in alarms ==> !Due(a, runtime))
    ensures Ns(wait) == Ns(soFar) || exists a :: a in alarms && Ns(a.trigger) == Ns(runtime) + Ns(wait)
  {
  }

  lemma {:induction false} StillSuits(wait: Time, runtime: Time, was: Option<Time>, scheduled: Option<Time>,
                                      preemption: bool)
    requires Suits(wait, runtime, was, preemption) && KeptOrRestarted(scheduled, was, runtime)
    requires !preemption ==> scheduled == was
    ensures Suits(wait, runtime, scheduled, preemption)
  {
  }

  /** The interval of the first part is still asked for at the end. */
  lemma {:induction false} StillAsked(wait: Time, runtime: Time, alarms: seq<Alarm>, was: Option<Time>,
                                      mid: Option<Time>, scheduled: Option<Time>)
    requires Covers(wait, runtime, alarms, scheduled)
    requires KeptOrRestarted(scheduled, mid, runtime)
    requires mid == was || (mid.Some? ==> Ns(mid.value) == Ns(runtime) + Ns(PREEMPT_FREQUENCY))
    requires Ns(wait) == NS_PER_SEC || (mid.Some? && Ns(mid.value) == Ns(runtime) + Ns(wait))
      || exists a :: a in alarms && Ns(a.trigger) == Ns(runtime) + Ns(wait)
    ensures GoodInterval(wait, runtime, alarms, scheduled, was)
  {
  }

  // --- the hardware ---

  /** What the hardware is armed with for an interval: the local APIC counts down, the time stamp counter runs up to a
      deadline. */
  predicate Armed(armed: nat, isUsingTsc: bool, tms: nat, tsc: nat, interval: Time) {
    armed ==
      if isUsingTsc then TscDeadline(tsc, TimeToTicks(Calibrate(tms), interval))
      else LapicCount(Calibrate(tms), interval)
  }

  /** The interrupt comes no later than the trigger, by the true rate. */
  predicate InTimeFor(armed: nat, isUsingTsc: bool, tms: nat, tsc: nat, runtime: Time, trigger: Time) {
    Ns(runtime) <= Ns(trigger) &&
    armed <= (if isUsingTsc then tsc else 0) + TrueTicks(Ns(trigger) - Ns(runtime), tms)
  }

  ghost predicate InTime(armed: nat, isUsingTsc: bool, tms: nat, tsc: nat, runtime: Time, alarms: seq<Alarm>,
                         scheduled: Option<Time>)
  {
    && (forall a :: a in alarms ==> InTimeFor(armed, isUsingTsc, tms, tsc, runtime, a.trigger))
    && (scheduled.Some? ==> InTimeFor(armed, isUsingTsc, tms, tsc, runtime, scheduled.value))
  }

  lemma {:induction false} TrueTicksGrow(a: nat, b: nat, tms: nat)
    requires a <= b
    ensures TrueTicks(a, tms) <= TrueTicks(b, tms)
  {
    MulMono(a, b, tms);
  }

  lemma {:induction false} ReachedInTime(armed: nat, isUsingTsc: bool, tms: nat, tsc: nat, interval: Time,
                                         runtime: Time,
                                         trigger: Time)
    requires tms >= 1_000_000 && Normal(interval) && Armed(armed, isUsingTsc, tms, tsc, interval)
    requires Reaches(interval, runtime, trigger)
    ensures InTimeFor(armed, isUsingTsc, tms, tsc, runtime, trigger)
  {
    NotLong(tms, interval);
    TrueTicksGrow(Ns(interval), Ns(trigger) - Ns(runtime), tms);
  }

  /** From 10^6 ticks per millisecond on, an interval that covers the pending alarms arms the hardware in time for
      them. */
  lemma {:induction false} CoveredInTime(armed: nat, isUsingTsc: bool, tms: nat, tsc: nat, interval: Time,
                                         runtime: Time,
                                         alarms: seq<Alarm>, scheduled: Option<Time>)
    requires Armed(armed, isUsingTsc, tms, tsc, interval) && Covers(interval, runtime, alarms, scheduled)
    ensures tms >= 1_000_000 ==> InTime(armed, isUsingTsc, tms, tsc, runtime, alarms, scheduled)
  {
    if tms >= 1_000_000 {
      forall a | a in alarms ensures InTimeFor(armed, isUsingTsc, tms, tsc, runtime, a.trigger) {
        ReachedInTime(armed, isUsingTsc, tms, tsc, interval, runtime, a.trigger);
      }
      if scheduled.Some? {
        ReachedInTime(armed, isUsingTsc, tms, tsc, interval, runtime, scheduled.value);
      }
    }
  }

  /** Whatever is pending, an interval that covers it arms the hardware in time. */
  ghost predicate NeverLate(tms: nat) {
    forall armed, isUsingTsc, tsc, interval: Time, runtime: Time, alarms, scheduled ::
      Armed(armed, isUsingTsc, tms, tsc, interval) && Covers(interval, runtime, alarms, scheduled) ==>
        InTime(armed, isUsingTsc, tms, tsc, runtime, alarms, scheduled)
  }

  /** The hardware is armed in time exactly at those rates; below, even one alarm a nanosecond away is too soon. */
  lemma {:induction false} NeverLateExactly(tms: nat)
    requires tms >= 1
    ensures NeverLate(tms) <==> tms >= 1_000_000
  {
    if tms >= 1_000_000 {
      forall armed, isUsingTsc, tsc, interval: Time, runtime: Time, alarms, scheduled
        | Armed(armed, isUsingTsc, tms, tsc, interval) && Covers(interval, runtime, alarms, scheduled)
        ensures InTime(armed, isUsingTsc, tms, tsc, runtime, alarms, scheduled)
      {
        CoveredInTime(armed, isUsingTsc, tms, tsc, interval, runtime, alarms, scheduled);
      }
    } else {
      var soon, zero := Time(0, 0, 0, 1), Time(0, 0, 0, 0);
      OneTickLate(tms, soon, zero);
      OneAlarm(soon, zero, [Alarm(soon, Wait(0))]);
      TooLate(tms, 1, soon, zero, [Alarm(soon, Wait(0))]);
    }
  }

  lemma {:induction false} TooLate(tms: nat, armed: nat, soon: Time, zero: Time, alarms: seq<Alarm>)
    requires Armed(armed, false, tms, 0, soon) && Covers(soon, zero, alarms, None)
    requires alarms != [] && !InTimeFor(armed, false, tms, 0, zero, alarms[0].trigger)
    ensures !NeverLate(tms)
  {
    assert alarms[0] in alarms;
    assert !InTime(armed, false, tms, 0, zero, alarms, None);
  }

  lemma {:induction false} OneTickLate(tms: nat, soon: Time, zero: Time)
    requires 1 <= tms < 1_000_000 && soon == Time(0, 0, 0, 1) && zero == Time(0, 0, 0, 0)
    ensures Armed(1, false, tms, 0, soon) && !InTimeFor(1, false, tms, 0, zero, soon)
  {
    ArmedOnce(tms, soon);
    LateOnce(tms, soon, zero);
  }

  lemma {:induction false} ArmedOnce(tms: nat, soon: Time)
    requires 1 <= tms < 1_000_000 && soon == Time(0, 0, 0, soon.ns) && 0 < soon.ns < 1000
    ensures Armed(soon.ns, false, tms, 0, soon)
  {
    FewNanoseconds(tms, soon);
    CountIsTicks(tms, soon, soon.ns);
  }

  lemma {:induction false} LateOnce(tms: nat, soon: Time, zero: Time)
    requires tms < 1_000_000 && Ns(soon) == 1 && Ns(zero) == 0
    ensures !InTimeFor(1, false, tms, 0, zero, soon)
  {
    NoTrueTick(1, tms);
  }

  lemma {:induction false} CountIsTicks(tms: nat, wait: Time, ticks: nat)
    requires TimeToTicks(Calibrate(tms), wait) == ticks <= MAX_U32
    ensures Armed(ticks, false, tms, 0, wait)
  {
  }

  lemma {:induction false} NoTrueTick(ns: nat, tms: nat)
    requires ns == 1 && tms < 1_000_000
    ensures TrueTicks(ns, tms) == 0
  {
  }

  lemma {:induction false} OneAlarm(soon: Time, zero: Time, alarms: seq<Alarm>)
    requires soon == Time(0, 0, 0, 1) && zero == Time(0, 0, 0, 0) && alarms == [Alarm(soon, Wait(0))]
    ensures Covers(soon, zero, alarms, None)
  {
  }

  /** At 62500 ticks per millisecond the timer is armed for sixteen times the 99.999999 ms that are left. */
  lemma {:induction false} SlowTimerLate()
    ensures var wait := Time(0, 99, 999, 999);
      LapicCount(Calibrate(62_500), wait) == 99_999_999 && TrueTicks(Ns(wait), 62_500) == 6_249_999
  {
    TimestampsAreExact(Time(0, 99, 999, 999));
  }

  /** While preemption is enabled the preemption alarm is set, at most its period ahead. */
  predicate Prompt(preemption: bool, scheduled: Option<Time>, runtime: Time) {
    preemption ==> scheduled.Some? && Ns(scheduled.value) <= Ns(runtime) + Ns(PREEMPT_FREQUENCY)
  }

  /** How far an update has come: the alarms accounted for so far, and the scheduler calls made. */
  ghost predicate Updating(fired: seq<Alarm>, left: seq<Alarm>, before: seq<Alarm>, extra: Option<Alarm>, runtime: Time,
      m: Interrupts.Machine, m0: Interrupts.Machine)
  {
    && Accounts(fired, left, before, extra)
    && (forall a :: a in fired ==> Due(a, runtime))
    && (Schedules(fired) > 0 ==> InHandler(m0))
    && m == Scheduled(m0, Schedules(fired))
  }

  /** The update may call the scheduler, or need not. */
  ghost predicate MaySchedule(alarms: seq<Alarm>, runtime: Time, m: Interrupts.Machine) {
    InHandler(m) || forall a :: a in alarms && Due(a, runtime) ==> !a.kind.Schedule?
  }

  /** What an update amounts to: exactly the due alarms fired, in the processor as many scheduler calls. */
  ghost predicate Updated(fired: seq<Alarm>, left: seq<Alarm>, before: seq<Alarm>, extra: Option<Alarm>, runtime: Time,
      m: Interrupts.Machine, m0: Interrupts.Machine)
  {
    && FiredExactly(fired, left, before, extra, runtime)
    && (Schedules(fired) > 0 ==> InHandler(m0))
    && m == Scheduled(m0, Schedules(fired))
  }

  lemma {:induction false} UpdateDone(fired: seq<Alarm>, left: seq<Alarm>, before: seq<Alarm>, extra: Option<Alarm>,
      runtime: Time, m: Interrupts.Machine, m0: Interrupts.Machine)
    requires Updating(fired, left, before, extra, runtime, m, m0)
    requires forall a :: a in left ==> !Due(a, runtime)
    requires extra.Some? ==> Due(extra.value, runtime)
    ensures Updated(fired, left, before, extra, runtime, m, m0)
  {
    AllFired(fired, left, before, extra, runtime);
  }

  lemma {:induction false} UpdateOne(fired: seq<Alarm>, left: seq<Alarm>, before: seq<Alarm>, extra: Option<Alarm>,
      runtime: Time, m: Interrupts.Machine, m0: Interrupts.Machine, i: nat, m': Interrupts.Machine)
    requires Updating(fired, left, before, extra, runtime, m, m0) && i < |left| && Due(left[i], runtime)
    requires left[i].kind.Schedule? ==> InHandler(m)
    requires m' == Scheduled(m, One(left[i].kind.Schedule?)) && MaySchedule(left, runtime, m)
    ensures Updating(fired + [left[i]], Without(left, i), before, extra, runtime, m', m0)
    ensures MaySchedule(Without(left, i), runtime, m')
  {
    FireOne(fired, left, before, extra, i);
    SchedulesSnoc(fired, left[i]);
    var k := Schedules(fired);
    if left[i].kind.Schedule? {
      assert Scheduled(m, 0) == m;
      assert Scheduled(m, 1) == Interrupts.Next(m, Interrupts.Call(Scheduler.Schedule));
      assert Scheduled(m0, k + 1) == Interrupts.Next(Scheduled(m0, k), Interrupts.Call(Scheduler.Schedule));
    }
  }

  lemma {:induction false} UpdateStart(extra: Option<Alarm>, alarms: seq<Alarm>, runtime: Time, m: Interrupts.Machine,
                                       m0: Interrupts.Machine)
    requires extra.Some? ==> Due(extra.value, runtime) && extra.value.kind.Schedule? && InHandler(m0)
    requires m == Scheduled(m0, One(extra.Some?))
    ensures Updating(Listed(extra), alarms, alarms, extra, runtime, m, m0)
  {
    if extra.Some? {
      forall a ensures Count([extra.value], a) == One(extra == Some(a)) {
        CountSnoc([], extra.value, a);
        assert [] + [extra.value] == [extra.value];
      }
      SchedulesSnoc([], extra.value);
      assert [] + [extra.value] == [extra.value];
    }
  }

  /** No due alarm calls the scheduler. */
  ghost predicate NoneSchedules(alarms: seq<Alarm>, scheduled: Option<Time>, runtime: Time) {
    && (scheduled.Some? ==> Ns(scheduled.value) > Ns(runtime))
    && (forall a :: a in alarms && Due(a, runtime) ==> !a.kind.Schedule?)
  }

  /** No alarm that calls the scheduler is due at `ns` nanoseconds. */
  ghost predicate Quiet(alarms: seq<Alarm>, scheduled: Option<Time>, ns: nat) {
    && (scheduled.Some? ==> Ns(scheduled.value) > ns)
    && (forall a :: a in alarms && a.kind.Schedule? ==> Ns(a.trigger) > ns)
  }

  lemma {:induction false} QuietWith(alarms: seq<Alarm>, a: Alarm, scheduled: Option<Time>, runtime: Time)
    ensures Quiet(alarms, scheduled, Ns(runtime)) && (a.kind.Schedule? ==> !Due(a, runtime)) ==>
      NoneSchedules(alarms + [a], scheduled, runtime)
  {
  }

  /** The preemption alarm, when it is due. */
  function DueAlarm(scheduled: Option<Time>, runtime: Time): Option<Alarm> {
    if scheduled.Some? && Ns(scheduled.value) <= Ns(runtime) then Preemption(scheduled) else None
  }

  /** A preemption alarm set now is not due. */
  lemma {:induction false} PreemptionLater(runtime: Time)
    requires Normal(runtime) && Unsaturated(runtime, PREEMPT_FREQUENCY)
    ensures Ns(Add(runtime, PREEMPT_FREQUENCY)) == Ns(runtime) + Ns(PREEMPT_FREQUENCY) > Ns(runtime)
    ensures DueAlarm(Some(Add(runtime, PREEMPT_FREQUENCY)), runtime).None?
  {
    AddIsExact(runtime, PREEMPT_FREQUENCY);
  }

  /** Readings of the hardware: the time stamp counter and the count left in the local APIC when the timer is stopped,
      and the counter again when it is restarted. */
  datatype Clock = Clock(tsc: nat, lapicLeft: nat, tscAfter: nat)

  class Timer {
    const processor: Interrupts.Processor
    const tms: nat
    const isUsingTsc: bool
    var preemption: bool
    var alarms: seq<Alarm>
    var scheduled: Option<Time>
    var runtime: Time
    var interval: Time
    var isUpdating: bool
    var shouldIgnore: bool
    var lastLapicCount: nat
    var lastTsc: nat
    var armed: nat
    var fired: seq<Alarm>
    ghost var rounds: seq<Round>
    ghost var added: seq<Alarm>
    ghost var settings: seq<Setting>
    ghost var taken: seq<Alarm>
    ghost var ticked: nat

    /** The log is complete. */
    ghost predicate Recorded()
      reads this`rounds, this`added, this`alarms, this`fired, this`taken, this`runtime
    {
      Logged(rounds, added, alarms, fired, taken, runtime)
    }

    ghost predicate Valid()
      reads this, processor
    {
      && processor.Valid()
      && tms >= 1 && Normal(runtime) && Normal(interval)
      && (scheduled.Some? ==> Normal(scheduled.value))
      && (forall a :: a in alarms ==> Normal(a.trigger))
      && lastLapicCount <= MAX_U32 && lastTsc <= MAX_U64
      && Tracked(settings, taken, scheduled)
    }

    constructor (processor: Interrupts.Processor, tms: nat, isUsingTsc: bool)
      requires processor.Valid() && tms >= 1
      ensures Valid() && Recorded() && this.processor == processor && this.tms == tms && this.isUsingTsc == isUsingTsc
      ensures !preemption && alarms == [] && scheduled.None? && Ns(runtime) == 0 && !isUpdating && !shouldIgnore
      ensures fired == []
    {
      this.processor, this.tms, this.isUsingTsc := processor, tms, isUsingTsc;
      preemption, alarms, scheduled, fired := false, [], None, [];
      runtime, interval := Time(0, 0, 0, 0), DEFAULT_FREQUENCY;
      isUpdating, shouldIgnore := false, false;
      lastLapicCount, lastTsc, armed := 0, 0, 0;
      rounds, added, settings, taken, ticked := [], [], [], [], 0;
    }

    /** Runs the alarm's effect. The scheduler restarts the preemption alarm, which during an update only sets it. */
    method Notify(a: Alarm)
      requires Valid() && Unsaturated(runtime, PREEMPT_FREQUENCY)
      requires a.kind.Schedule? ==> InHandler(processor.View())
      modifies this`scheduled, this`fired, this`settings, processor
      ensures Valid() && fired == old(fired) + [a]
      ensures processor.View() == Scheduled(old(processor.View()), One(a.kind.Schedule?))
      ensures if a.kind.Schedule? && preemption
        then scheduled.Some? && Ns(scheduled.value) == Ns(runtime) + Ns(PREEMPT_FREQUENCY)
        else scheduled == old(scheduled)
      ensures KeptOrRestarted(scheduled, old(scheduled), runtime)
      ensures Prompt(preemption, old(scheduled), runtime) ==> Prompt(preemption, scheduled, runtime)
    {
      fired := fired + [a];
      match a.kind {
        case Wait(_) =>
        case Schedule =>
          if preemption {
            SetScheduleAlarm(PREEMPT_FREQUENCY);
          }
          processor.ScheduleTasks();
          assert Scheduled(old(processor.View()), 0) == old(processor.View());
          assert processor.View() == Scheduled(old(processor.View()), 1);
      }
    }

    method SetScheduleAlarm(wait: Time)
      requires Normal(runtime) && Normal(wait) && Unsaturated(runtime, wait)
      requires Tracked(settings, taken, scheduled)
      modifies this`scheduled, this`settings
      ensures scheduled == Some(Add(runtime, wait)) && Normal(scheduled.value)
      ensures Ns(scheduled.value) == Ns(runtime) + Ns(wait)
      ensures settings == old(settings) + [Set(scheduled.value)]
      ensures Tracked(settings, taken, scheduled)
    {
      AddIsExact(runtime, wait);
      TrackNext(settings, taken, scheduled, Set(Add(runtime, wait)));
      scheduled := Some(Add(runtime, wait));
      settings := settings + [Set(scheduled.value)];
    }

    /** Notifies the preemption alarm if it is due. It is taken first, so that it can be set again. */
    method FireScheduleAlarm()
      requires Valid() && Unsaturated(runtime, PREEMPT_FREQUENCY) && Prompt(preemption, scheduled, runtime)
      requires DueAlarm(scheduled, runtime).Some? ==> InHandler(processor.View())
      modifies this`scheduled, this`fired, this`settings, this`taken, processor
      ensures Valid() && Prompt(preemption, scheduled, runtime)
      ensures taken == old(taken) + Listed(DueAlarm(old(scheduled), runtime))
      ensures fired == old(fired) + Listed(DueAlarm(old(scheduled), runtime))
      ensures processor.View() == Scheduled(old(processor.View()), One(DueAlarm(old(scheduled), runtime).Some?))
      ensures scheduled.Some? ==> Ns(scheduled.value) > Ns(runtime)
      ensures if DueAlarm(old(scheduled), runtime).None? then scheduled == old(scheduled)
        else scheduled.Some? ==> Ns(scheduled.value) == Ns(runtime) + Ns(PREEMPT_FREQUENCY)
    {
      if scheduled.Some? && IsDue(scheduled.value, runtime) {
        var a := Alarm(scheduled.value, Schedule);
        TrackNext(settings, taken, scheduled, Taken);
        settings, taken := settings + [Taken], taken + [a];
        scheduled := None;
        Notify(a);
      }
    }

    /** How long to wait for the preemption alarm. */
    method ScheduleWait() returns (wait: Time)
      requires Valid() && (scheduled.Some? ==> Ns(scheduled.value) > Ns(runtime))
      ensures Normal(wait)
      ensures Ns(wait) == if scheduled.Some? then Min(NS_PER_SEC, Ns(scheduled.value) - Ns(runtime)) else NS_PER_SEC
    {
      wait := DEFAULT_FREQUENCY;
      if scheduled.Some? {
        wait := Shorter(wait, scheduled.value, runtime);
      }
    }

    /** The position of an alarm that triggers first. */
    method Nearest() returns (i: nat)
      requires Valid() && alarms != []
      ensures i < |alarms| && forall a :: a in alarms ==> Ns(alarms[i].trigger) <= Ns(a.trigger)
    {
      i := 0;
      var j := 1;
      while j < |alarms|
        invariant i < j <= |alarms|
        invariant forall k :: 0 <= k < j ==> Ns(alarms[i].trigger) <= Ns(alarms[k].trigger)
      {
        OrderIsNumeric(alarms[j].trigger, alarms[i].trigger);
        if Less(alarms[j].trigger, alarms[i].trigger) {
          i := j;
        }
        j := j + 1;
      }
    }
  
    /** How far an update that began with these values has come. */
    ghost predicate Progress(n: nat, before: seq<Alarm>, extra: Option<Alarm>, m0: Interrupts.Machine)
      reads this, processor
    {
      && Valid() && Unsaturated(runtime, PREEMPT_FREQUENCY) && Prompt(preemption, scheduled, runtime)
      && n <= |fired| && Updating(fired[n..], alarms, before, extra, runtime, processor.View(), m0)
      && MaySchedule(alarms, runtime, processor.View())
    }

    /** Notifies a due alarm of the queue, and only then removes it. */
    method FireAt(i: nat, ghost n: nat, ghost before: seq<Alarm>, ghost extra: Option<Alarm>,
                  ghost m0: Interrupts.Machine)
      requires Progress(n, before, extra, m0) && i < |alarms| && Due(alarms[i], runtime)
      modifies this`scheduled, this`fired, this`alarms, this`settings, processor
      ensures Progress(n, before, extra, m0) && alarms == Without(old(alarms), i)
      ensures fired == old(fired) + [old(alarms)[i]]
      ensures KeptOrRestarted(scheduled, old(scheduled), runtime)
      ensures !preemption ==> scheduled == old(scheduled)
    {
      ghost var m, done := processor.View(), fired[n..];
      var a := alarms[i];
      Notify(a);
      assert fired[n..] == done + [a];
      UpdateOne(done, alarms, before, extra, runtime, m, m0, i, processor.View());
      alarms := Without(alarms, i);
    }

    /** Notifies the nearest alarm, which is due, after those fired since `k`. */
    method FireNearest(i: nat, ghost n: nat, ghost before: seq<Alarm>, ghost extra: Option<Alarm>,
                       ghost m0: Interrupts.Machine, ghost k: nat)
      requires Progress(n, before, extra, m0) && i < |alarms| && Due(alarms[i], runtime)
      requires k <= |fired| && InTurn(fired[k..], alarms)
      requires forall a :: a in alarms ==> Ns(alarms[i].trigger) <= Ns(a.trigger)
      modifies this`scheduled, this`fired, this`alarms, this`settings, processor
      ensures Progress(n, before, extra, m0) && |alarms| == |old(alarms)| - 1
      ensures old(fired) <= fired && InTurn(fired[k..], alarms)
      ensures KeptOrRestarted(scheduled, old(scheduled), runtime) && (!preemption ==> scheduled == old(scheduled))
    {
      NextInTurn(fired[k..], alarms, i);
      FireAt(i, n, before, extra, m0);
      assert fired[k..] == old(fired)[k..] + [old(alarms)[i]];
    }

    /** Fires the due alarms of the queue, the nearest first, and answers where the nearest of the others is. */
    method FireDue(ghost n: nat, ghost before: seq<Alarm>, ghost extra: Option<Alarm>, ghost m0: Interrupts.Machine)
      returns (next: nat)
      requires Progress(n, before, extra, m0)
      modifies this`scheduled, this`fired, this`alarms, this`settings, processor
      ensures Progress(n, before, extra, m0) && old(fired) <= fired
      ensures KeptOrRestarted(scheduled, old(scheduled), runtime) && (!preemption ==> scheduled == old(scheduled))
      ensures InTurn(fired[|old(fired)|..], alarms)
      ensures alarms != [] ==> next < |alarms| && !Due(alarms[next], runtime)
      ensures alarms != [] ==> forall a :: a in alarms ==> Ns(alarms[next].trigger) <= Ns(a.trigger)
    {
      next := 0;
      while alarms != []
        invariant Progress(n, before, extra, m0) && old(fired) <= fired
        invariant InTurn(fired[|old(fired)|..], alarms)
        invariant KeptOrRestarted(scheduled, old(scheduled), runtime) && (!preemption ==> scheduled == old(scheduled))
        decreases |alarms|
      {
        next := Nearest();
        if !IsDue(alarms[next].trigger, runtime) {
          break;
        }
        FireNearest(next, n, before, extra, m0, |old(fired)|);
      }
    }

    /** The queue's turn, with the interval found so far. */
    method UpdateAlarms(soFar: Time, ghost n: nat, ghost before: seq<Alarm>, ghost extra: Option<Alarm>,
                        ghost m0: Interrupts.Machine)
      returns (wait: Time)
      requires Progress(n, before, extra, m0) && Suits(soFar, runtime, scheduled, preemption)
      modifies this`scheduled, this`fired, this`alarms, this`settings, processor
      ensures Progress(n, before, extra, m0) && old(fired) <= fired
      ensures forall a :: a in alarms ==> !Due(a, runtime)
      ensures InTurn(fired[|old(fired)|..], alarms)
      ensures Covers(wait, runtime, alarms, scheduled) && KeptOrRestarted(scheduled, old(scheduled), runtime)
      ensures Ns(wait) == Ns(soFar) || exists a :: a in alarms && Ns(a.trigger) == Ns(runtime) + Ns(wait)
    {
      var next := FireDue(n, before, extra, m0);
      StillSuits(soFar, runtime, old(scheduled), scheduled, preemption);
      wait := soFar;
      if alarms != [] {
        wait := Shorter(soFar, alarms[next].trigger, runtime);
        UntilNearest(soFar, wait, runtime, alarms, next, scheduled);
      }
    }

    /** The preemption alarm's turn. */
    method UpdatePreemption(ghost n: nat, ghost extra: Option<Alarm>, ghost m0: Interrupts.Machine)
      returns (wait: Time)
      requires Valid() && Unsaturated(runtime, PREEMPT_FREQUENCY) && Prompt(preemption, scheduled, runtime)
      requires InHandler(processor.View()) || NoneSchedules(alarms, scheduled, runtime)
      requires n == |fired| && extra == DueAlarm(scheduled, runtime) && m0 == processor.View()
      modifies this`scheduled, this`fired, this`settings, this`taken, processor
      ensures Progress(n, alarms, extra, m0) && Suits(wait, runtime, scheduled, preemption)
      ensures fired == old(fired) + Listed(extra) && taken == old(taken) + Listed(extra)
      ensures if extra.None? then scheduled == old(scheduled)
        else scheduled.Some? ==> Ns(scheduled.value) == Ns(runtime) + Ns(PREEMPT_FREQUENCY)
      ensures Ns(wait) == NS_PER_SEC || (scheduled.Some? && Ns(scheduled.value) == Ns(runtime) + Ns(wait))
    {
      FireScheduleAlarm();
      wait := ScheduleWait();
      UpdateStart(extra, alarms, runtime, processor.View(), m0);
      assert fired[n..] == Listed(extra);
    }

    method UpdateAll() returns (wait: Time)
      requires Valid() && Unsaturated(runtime, PREEMPT_FREQUENCY) && Prompt(preemption, scheduled, runtime)
      requires InHandler(processor.View()) || NoneSchedules(alarms, scheduled, runtime)
      modifies this`scheduled, this`fired, this`alarms, this`settings, this`taken, processor
      ensures Valid() && Prompt(preemption, scheduled, runtime)
      ensures taken == old(taken) + Listed(DueAlarm(old(scheduled), runtime))
      ensures old(fired) <= fired
      ensures Updated(fired[|old(fired)|..], alarms, old(alarms), DueAlarm(old(scheduled), runtime), runtime,
        processor.View(), old(processor.View()))
      ensures GoodInterval(wait, runtime, alarms, scheduled, old(scheduled))
      ensures DueAlarm(old(scheduled), runtime).None? ==> KeptOrRestarted(scheduled, old(scheduled), runtime)
      ensures |old(fired) + Listed(DueAlarm(old(scheduled), runtime))| <= |fired|
      ensures InTurn(fired[|old(fired) + Listed(DueAlarm(old(scheduled), runtime))|..], alarms)
    {
      ghost var m0, before, extra, n := processor.View(), alarms, DueAlarm(scheduled, runtime), |fired|;
      wait := UpdatePreemption(n, extra, m0);
      ghost var mid := scheduled;
      wait := UpdateAlarms(wait, n, before, extra, m0);
      StillAsked(wait, runtime, alarms, old(scheduled), mid, scheduled);
      UpdateDone(fired[n..], alarms, before, extra, runtime, processor.View(), m0);
    }

    /** Notifies what is due and answers how long to wait. */
    method UpdateQueue() returns (wait: Time)
      requires Valid() && Unsaturated(runtime, PREEMPT_FREQUENCY) && Prompt(preemption, scheduled, runtime)
      requires InHandler(processor.View()) || NoneSchedules(alarms, scheduled, runtime)
      requires Recorded()
      modifies this`scheduled, this`fired, this`alarms, this`isUpdating, this`rounds, this`added, processor
      modifies this`settings, this`taken
      ensures Recorded()
      ensures Valid() && !isUpdating && Prompt(preemption, scheduled, runtime)
      ensures old(fired) <= fired
      ensures Updated(fired[|old(fired)|..], alarms, old(alarms), DueAlarm(old(scheduled), runtime), runtime,
        processor.View(), old(processor.View()))
      ensures GoodInterval(wait, runtime, alarms, scheduled, old(scheduled))
      ensures DueAlarm(old(scheduled), runtime).None? ==> KeptOrRestarted(scheduled, old(scheduled), runtime)
      ensures |old(fired) + Listed(DueAlarm(old(scheduled), runtime))| <= |fired|
      ensures InTurn(fired[|old(fired) + Listed(DueAlarm(old(scheduled), runtime))|..], alarms)
    {
      isUpdating := true;
      ghost var before, past, due, was := alarms, fired, DueAlarm(scheduled, runtime), taken;
      wait := UpdateAll();
      Record(before, past, due, was);
      isUpdating := false;
    }

    /** Logs the update that has just fired what it fired. */
    ghost method Record(before: seq<Alarm>, past: seq<Alarm>, due: Option<Alarm>, was: seq<Alarm>)
      requires Logged(rounds, added, before, past, was, runtime) && past <= fired && taken == was + Listed(due)
      requires FiredExactly(fired[|past|..], alarms, before, due, runtime) && (due.Some? ==> Due(due.value, runtime))
      modifies this`rounds, this`added
      ensures Recorded()
    {
      var round := Round(runtime, added, due, fired[|past|..], alarms);
      assert fired == past + round.fired;
      LogUpdate(rounds, added, before, past, was, runtime, round, fired);
      rounds, added := rounds + [round], [];
    }

    // --- arming the hardware ---

    /** Arms the hardware, never with zero. */
    method StartTimer(wait: Time, tsc: nat)
      requires tms >= 1 && Normal(wait) && Ns(wait) > 0 && tsc <= MAX_U64
      modifies this`interval, this`lastTsc, this`lastLapicCount, this`armed
      ensures interval == wait && armed > 0
      ensures if isUsingTsc
        then lastTsc == tsc && armed == TscDeadline(tsc, TimeToTicks(Calibrate(tms), wait))
          && lastLapicCount == old(lastLapicCount)
        else lastTsc == old(lastTsc) && armed == lastLapicCount == LapicCount(Calibrate(tms), wait) <= MAX_U32
      ensures isUsingTsc && tsc + TimeToTicks(Calibrate(tms), wait) <= MAX_U64 ==>
        armed - tsc == TimeToTicks(Calibrate(tms), wait)
    {
      ArmedNonZero(tms, wait, tsc);
      DeadlineExactly(tsc, TimeToTicks(Calibrate(tms), wait));
      interval := wait;
      if isUsingTsc {
        lastTsc := tsc;
        armed := SatAdd(tsc, TimeToTicks(Calibrate(tms), wait));
      } else {
        lastLapicCount := Min(MAX_U32, TimeToTicks(Calibrate(tms), wait));
        armed := lastLapicCount;
      }
    }

    /** The alarms due are notified and the timer is restarted for the next one. */
    method UpdateAndRestart(tsc: nat)
      requires Valid() && Unsaturated(runtime, PREEMPT_FREQUENCY) && Prompt(preemption, scheduled, runtime)
      requires InHandler(processor.View()) || NoneSchedules(alarms, scheduled, runtime)
      requires tsc <= MAX_U64 && Recorded()
      modifies this`scheduled, this`fired, this`alarms, this`isUpdating, this`shouldIgnore, this`rounds, this`added
      modifies this`settings, this`taken, processor
      modifies this`interval, this`lastTsc, this`lastLapicCount, this`armed
      ensures Valid() && Recorded() && !isUpdating && !shouldIgnore && Prompt(preemption, scheduled, runtime)
      ensures old(fired) <= fired
      ensures Updated(fired[|old(fired)|..], alarms, old(alarms), DueAlarm(old(scheduled), runtime), runtime,
        processor.View(), old(processor.View()))
      ensures GoodInterval(interval, runtime, alarms, scheduled, old(scheduled)) && armed > 0
      ensures Armed(armed, isUsingTsc, tms, tsc, interval)
      ensures tms >= 1_000_000 ==> InTime(armed, isUsingTsc, tms, tsc, runtime, alarms, scheduled)
      ensures DueAlarm(old(scheduled), runtime).None? ==> KeptOrRestarted(scheduled, old(scheduled), runtime)
    {
      var wait := UpdateAndAllow();
      Restart(wait, tsc);
      CoveredInTime(armed, isUsingTsc, tms, tsc, interval, runtime, alarms, scheduled);
    }

    /** The update, after which interrupts count again. */
    method UpdateAndAllow() returns (wait: Time)
      requires Valid() && Unsaturated(runtime, PREEMPT_FREQUENCY) && Prompt(preemption, scheduled, runtime)
      requires InHandler(processor.View()) || NoneSchedules(alarms, scheduled, runtime)
      requires Recorded()
      modifies this`scheduled, this`fired, this`alarms, this`isUpdating, this`shouldIgnore, this`rounds, this`added
      modifies this`settings, this`taken, processor
      ensures Valid() && Recorded() && !isUpdating && !shouldIgnore && Prompt(preemption, scheduled, runtime)
      ensures old(fired) <= fired
      ensures Updated(fired[|old(fired)|..], alarms, old(alarms), DueAlarm(old(scheduled), runtime), runtime,
        processor.View(), old(processor.View()))
      ensures GoodInterval(wait, runtime, alarms, scheduled, old(scheduled))
      ensures DueAlarm(old(scheduled), runtime).None? ==> KeptOrRestarted(scheduled, old(scheduled), runtime)
    {
      wait := UpdateQueue();
      shouldIgnore := false;
    }

    /** Starts the timer for the interval, which is never above the default. */
    method Restart(wait: Time, tsc: nat)
      requires tms >= 1 && Normal(wait) && 0 < Ns(wait) <= NS_PER_SEC && tsc <= MAX_U64
      modifies this`interval, this`lastTsc, this`lastLapicCount, this`armed
      ensures (old(Recorded()) ==> Recorded()) && (old(Valid()) ==> Valid())
      ensures interval == wait && armed > 0 && Armed(armed, isUsingTsc, tms, tsc, interval)
      ensures lastTsc <= MAX_U64 || lastTsc == old(lastTsc)
      ensures lastLapicCount <= MAX_U32 || lastLapicCount == old(lastLapicCount)
    {
      OrderIsNumeric(wait, DEFAULT_FREQUENCY);
      if Less(wait, DEFAULT_FREQUENCY) {
        StartTimer(wait, tsc);
      } else {
        StartTimer(DEFAULT_FREQUENCY, tsc);
      }
    }

    // --- the timer interrupt ---

    /** What the interrupt adds to the runtime. */
    function TimeSinceArmed(tsc: nat): Time
      requires tms >= 1 && lastTsc <= tsc
      reads this
    {
      if isUsingTsc then TicksToTime(Calibrate(tms), tsc - lastTsc) else interval
    }

    /** That is the interval on the local APIC. By the time stamp counter it is near the true time of the cycles passed,
        and at the generous rates no less. */
    lemma {:induction false} SinceArmedIsTrue(tsc: nat)
      requires tms >= 1 && lastTsc <= tsc <= MAX_U64
      ensures !isUsingTsc ==> TimeSinceArmed(tsc) == interval
      ensures isUsingTsc && tms * 1000 <= MAX_U64 ==> Near(Ns(TimeSinceArmed(tsc)), tsc - lastTsc, tms)
      ensures isUsingTsc && tms * 1000 <= MAX_U64 && Generous(tms) ==>
        Ns(TimeSinceArmed(tsc)) >= TrueNs(tsc - lastTsc, tms)
    {
      ElapsedIsTrue(tms, tsc - lastTsc);
    }

    /** The timer interrupt: nothing while an update elsewhere has it disabled; otherwise the runtime moves on, exactly
        the alarms now due are notified, and the hardware is armed again in time for every alarm pending. */
    method HandleInterrupt(now: Clock)
      requires Valid() && Recorded() && Prompt(preemption, scheduled, runtime) && InHandler(processor.View())
      requires lastTsc <= now.tsc <= MAX_U64 && now.tscAfter <= MAX_U64
      requires Ns(runtime) + Ns(TimeSinceArmed(now.tsc)) + Ns(PREEMPT_FREQUENCY) < (MAX_U64 + 1) * NS_PER_SEC
      modifies this`runtime, this`scheduled, this`fired, this`alarms, this`isUpdating, this`shouldIgnore, this`interval
      modifies this`lastTsc, this`lastLapicCount, this`armed, this`rounds, this`added, this`settings, this`taken
      modifies this`ticked, processor
      ensures Valid() && Recorded() && Prompt(preemption, scheduled, runtime)
      ensures old(fired) <= fired
      ensures old(shouldIgnore) ==>
        && runtime == old(runtime) && alarms == old(alarms) && scheduled == old(scheduled) && fired == old(fired)
        && shouldIgnore && armed == old(armed) && processor.View() == old(processor.View())
      ensures !old(shouldIgnore) ==>
        && Ns(runtime) == old(Ns(runtime) + Ns(TimeSinceArmed(now.tsc)))
        && (!isUsingTsc ==> Ns(runtime) == old(Ns(runtime)) + old(Ns(interval)))
        && ticked == old(ticked) + (if isUsingTsc then now.tsc - old(lastTsc) else old(armed))
        && Updated(fired[|old(fired)|..], alarms, old(alarms), DueAlarm(old(scheduled), runtime), runtime,
             processor.View(), old(processor.View()))
        && GoodInterval(interval, runtime, alarms, scheduled, old(scheduled)) && armed > 0
        && Armed(armed, isUsingTsc, tms, now.tscAfter, interval)
        && (tms >= 1_000_000 ==> InTime(armed, isUsingTsc, tms, now.tscAfter, runtime, alarms, scheduled))
    {
      if shouldIgnore {
        return;
      }
      var elapsed := TimeSinceArmed(now.tsc);
      TicksToTimeNormal(tms, now.tsc - lastTsc);
      ticked := ticked + (if isUsingTsc then now.tsc - lastTsc else armed);
      Advance(elapsed);
      UpdateAndRestart(now.tscAfter);
    }

    method Advance(elapsed: Time)
      requires Normal(runtime) && Normal(elapsed) && Unsaturated(runtime, elapsed) && Recorded()
      modifies this`runtime
      ensures Recorded() && Normal(runtime) && Ns(runtime) == old(Ns(runtime)) + Ns(elapsed)
    {
      AddIsExact(runtime, elapsed);
      runtime := Add(runtime, elapsed);
    }

    // --- setting alarms ---

    /** The time since the timer was started. */
    function Elapsed(now: Clock): Time
      requires tms >= 1 && lastTsc <= now.tsc && now.lapicLeft <= lastLapicCount
      reads this`lastTsc, this`lastLapicCount
    {
      TicksToTime(Calibrate(tms), Passed(now))
    }

    /** The ticks since then. */
    function Passed(now: Clock): nat
      requires lastTsc <= now.tsc && now.lapicLeft <= lastLapicCount
      reads this`lastTsc, this`lastLapicCount
    {
      if isUsingTsc then now.tsc - lastTsc else lastLapicCount - now.lapicLeft
    }

    /** The time is that of the ticks since: cycles of the counter, or what the local APIC has counted down. */
    lemma {:induction false} ElapsedIsNear(now: Clock)
      requires 1 <= tms && tms * 1000 <= MAX_U64
      requires lastTsc <= now.tsc <= MAX_U64 && now.lapicLeft <= lastLapicCount <= MAX_U32
      ensures var ticks := if isUsingTsc then now.tsc - lastTsc else lastLapicCount - now.lapicLeft;
        Near(Ns(Elapsed(now)), ticks, tms) && (Generous(tms) ==> Ns(Elapsed(now)) >= TrueNs(ticks, tms))
    {
      ElapsedIsTrue(tms, Passed(now));
    }

    /** Readings that continue the last ones, and seconds far enough from their maximum. */
    predicate Plausible(now: Clock, wait: Time)
      reads this`lastTsc, this`lastLapicCount, this`runtime
    {
      && tms >= 1 && lastTsc <= now.tsc <= MAX_U64 && now.tscAfter <= MAX_U64
      && now.lapicLeft <= lastLapicCount <= MAX_U32
      && Normal(wait)
      && Ns(runtime) + Ns(Elapsed(now)) + Ns(wait) + Ns(PREEMPT_FREQUENCY) < (MAX_U64 + 1) * NS_PER_SEC
    }

    /** Seconds are far enough from their maximum for the time elapsed, the wait and a period. */
    predicate Room(elapsed: Time, wait: Time)
      reads this`runtime
    {
      && Normal(elapsed) && Normal(wait)
      && Ns(runtime) + Ns(elapsed) + Ns(wait) + Ns(PREEMPT_FREQUENCY) < (MAX_U64 + 1) * NS_PER_SEC
    }

    /** Disables the timer and brings the runtime up to date. */
    method StopAndAdvance(elapsed: Time, wait: Time)
      requires Valid() && Recorded() && Room(elapsed, wait)
      modifies this`runtime, this`shouldIgnore
      ensures Valid() && Recorded() && shouldIgnore && Ns(runtime) == old(Ns(runtime)) + Ns(elapsed)
      ensures Unsaturated(runtime, wait) && Unsaturated(runtime, PREEMPT_FREQUENCY)
    {
      shouldIgnore := true;
      Advance(elapsed);
    }

    /** Restarts the preemption alarm. During an update only the alarm is set, since the update goes on to look at it;
        otherwise what has become due is notified and the timer restarted. */
    method StartScheduleTimer(wait: Time, now: Clock)
      requires Valid() && Recorded() && Plausible(now, wait) && (preemption ==> Ns(wait) <= Ns(PREEMPT_FREQUENCY))
      requires InHandler(processor.View()) || (Ns(wait) > 0 && Quiet(alarms, None, Ns(runtime) + Ns(Elapsed(now))))
      modifies this`runtime, this`scheduled, this`fired, this`alarms, this`isUpdating, this`shouldIgnore, this`interval
      modifies this`lastTsc, this`lastLapicCount, this`armed, this`rounds, this`added, this`settings, this`taken
      modifies this`ticked, processor
      ensures Valid() && Recorded() && Prompt(preemption, scheduled, runtime)
      ensures isUpdating == old(isUpdating) && old(fired) <= fired
      ensures old(isUpdating) ==>
        && scheduled.Some? && Ns(scheduled.value) == Ns(runtime) + Ns(wait) && runtime == old(runtime)
        && alarms == old(alarms) && fired == old(fired) && processor.View() == old(processor.View())
        && armed == old(armed)
      ensures !old(isUpdating) ==>
        && Ns(runtime) == old(Ns(runtime) + Ns(Elapsed(now)))
        && ticked == old(ticked + Passed(now))
        && Updated(fired[|old(fired)|..], alarms, old(alarms), DueAlarm(Some(Add(runtime, wait)), runtime), runtime,
             processor.View(), old(processor.View()))
        && (Ns(wait) > 0 ==> KeptOrRestarted(scheduled, Some(Add(runtime, wait)), runtime))
        && GoodInterval(interval, runtime, alarms, scheduled, Some(Add(runtime, wait))) && armed > 0
        && Armed(armed, isUsingTsc, tms, now.tscAfter, interval)
        && (tms >= 1_000_000 ==> InTime(armed, isUsingTsc, tms, now.tscAfter, runtime, alarms, scheduled))
    {
      if isUpdating {
        SetScheduleAlarm(wait);
      } else {
        TicksToTimeNormal(tms, Passed(now));
        ticked := ticked + Passed(now);
        ResetScheduleAlarm(wait, Elapsed(now), now.tscAfter);
      }
    }

    method ResetScheduleAlarm(wait: Time, elapsed: Time, tscAfter: nat)
      requires Valid() && Recorded() && !isUpdating && Room(elapsed, wait)
      requires preemption ==> Ns(wait) <= Ns(PREEMPT_FREQUENCY)
      requires InHandler(processor.View()) || (Ns(wait) > 0 && Quiet(alarms, None, Ns(runtime) + Ns(elapsed)))
      requires tscAfter <= MAX_U64
      modifies this`runtime, this`scheduled, this`fired, this`alarms, this`isUpdating, this`shouldIgnore, this`interval
      modifies this`lastTsc, this`lastLapicCount, this`armed, this`rounds, this`added, this`settings, this`taken
      modifies processor
      ensures Valid() && Recorded() && !isUpdating && Prompt(preemption, scheduled, runtime)
      ensures old(fired) <= fired
      ensures Ns(runtime) == old(Ns(runtime) + Ns(elapsed))
      ensures Updated(fired[|old(fired)|..], alarms, old(alarms), DueAlarm(Some(Add(runtime, wait)), runtime), runtime,
        processor.View(), old(processor.View()))
      ensures GoodInterval(interval, runtime, alarms, scheduled, Some(Add(runtime, wait))) && armed > 0
      ensures Armed(armed, isUsingTsc, tms, tscAfter, interval)
      ensures Ns(wait) > 0 ==> KeptOrRestarted(scheduled, Some(Add(runtime, wait)), runtime)
      ensures tms >= 1_000_000 ==> InTime(armed, isUsingTsc, tms, tscAfter, runtime, alarms, scheduled)
    {
      StopAndSet(wait, elapsed);
      UpdateAndRestart(tscAfter);
    }

    method StopAndSet(wait: Time, elapsed: Time)
      requires Valid() && Recorded() && Room(elapsed, wait)
      modifies this`runtime, this`shouldIgnore, this`scheduled, this`settings
      ensures Valid() && Recorded() && Ns(runtime) == old(Ns(runtime) + Ns(elapsed))
      ensures scheduled == Some(Add(runtime, wait)) && Ns(scheduled.value) == Ns(runtime) + Ns(wait)
      ensures Unsaturated(runtime, PREEMPT_FREQUENCY)
    {
      StopAndAdvance(elapsed, wait);
      SetScheduleAlarm(wait);
    }

    method StopScheduleTimer()
      requires Tracked(settings, taken, scheduled)
      modifies this`scheduled, this`settings
      ensures scheduled.None? && settings == old(settings) + [Stopped]
      ensures Tracked(settings, taken, scheduled)
    {
      TrackNext(settings, taken, scheduled, Stopped);
      settings := settings + [Stopped];
      scheduled := None;
    }

    /** Adds an alarm, with everything brought up to date around it. */
    method AddToQueue(wait: Time, kind: AlarmType, now: Clock)
      requires Valid() && Recorded() && Plausible(now, wait) && Prompt(preemption, scheduled, runtime)
      requires InHandler(processor.View()) ||
        ((kind.Schedule? ==> Ns(wait) > 0) && Quiet(alarms, scheduled, Ns(runtime) + Ns(Elapsed(now))))
      modifies this`runtime, this`scheduled, this`fired, this`alarms, this`isUpdating, this`shouldIgnore, this`interval
      modifies this`lastTsc, this`lastLapicCount, this`armed, this`rounds, this`added, this`settings, this`taken
      modifies this`ticked, processor
      ensures Valid() && Recorded() && Prompt(preemption, scheduled, runtime)
      ensures isUpdating == old(isUpdating) && old(fired) <= fired
      ensures old(isUpdating) ==>
        && alarms == old(alarms) + [Alarm(Add(runtime, wait), kind)] && runtime == old(runtime)
        && scheduled == old(scheduled) && fired == old(fired) && processor.View() == old(processor.View())
      ensures !old(isUpdating) ==>
        && Ns(runtime) == old(Ns(runtime) + Ns(Elapsed(now)))
        && ticked == old(ticked + Passed(now))
        && Updated(fired[|old(fired)|..], alarms, old(alarms) + [Alarm(Add(runtime, wait), kind)],
             DueAlarm(old(scheduled), runtime), runtime, processor.View(), old(processor.View()))
        && GoodInterval(interval, runtime, alarms, scheduled, old(scheduled)) && armed > 0
        && Armed(armed, isUsingTsc, tms, now.tscAfter, interval)
        && (tms >= 1_000_000 ==> InTime(armed, isUsingTsc, tms, now.tscAfter, runtime, alarms, scheduled))
    {
      if isUpdating {
        PushAlarm(wait, kind);
      } else {
        TicksToTimeNormal(tms, Passed(now));
        ticked := ticked + Passed(now);
        AddAndRestart(wait, kind, Elapsed(now), now.tscAfter);
      }
    }

    method PushAlarm(wait: Time, kind: AlarmType)
      requires Valid() && Recorded() && Normal(wait) && Unsaturated(runtime, wait)
      modifies this`alarms, this`added
      ensures Valid() && Recorded() && alarms == old(alarms) + [Alarm(Add(runtime, wait), kind)]
      ensures Ns(Add(runtime, wait)) == Ns(runtime) + Ns(wait)
    {
      AddIsExact(runtime, wait);
      alarms := alarms + [Alarm(Add(runtime, wait), kind)];
      added := added + [Alarm(Add(runtime, wait), kind)];
    }

    method AddAndRestart(wait: Time, kind: AlarmType, elapsed: Time, tscAfter: nat)
      requires Valid() && Recorded() && !isUpdating && Room(elapsed, wait) && Prompt(preemption, scheduled, runtime)
      requires InHandler(processor.View()) ||
        ((kind.Schedule? ==> Ns(wait) > 0) && Quiet(alarms, scheduled, Ns(runtime) + Ns(elapsed)))
      requires tscAfter <= MAX_U64
      modifies this`runtime, this`scheduled, this`fired, this`alarms, this`isUpdating, this`shouldIgnore, this`interval
      modifies this`lastTsc, this`lastLapicCount, this`armed, this`rounds, this`added, this`settings, this`taken
      modifies processor
      ensures Valid() && Recorded() && !isUpdating && Prompt(preemption, scheduled, runtime)
      ensures old(fired) <= fired
      ensures Ns(runtime) == old(Ns(runtime) + Ns(elapsed))
      ensures Updated(fired[|old(fired)|..], alarms, old(alarms) + [Alarm(Add(runtime, wait), kind)],
        DueAlarm(old(scheduled), runtime), runtime, processor.View(), old(processor.View()))
      ensures GoodInterval(interval, runtime, alarms, scheduled, old(scheduled)) && armed > 0
      ensures Armed(armed, isUsingTsc, tms, tscAfter, interval)
      ensures tms >= 1_000_000 ==> InTime(armed, isUsingTsc, tms, tscAfter, runtime, alarms, scheduled)
    {
      StopAndPush(wait, kind, elapsed);
      QuietWith(old(alarms), Alarm(Add(runtime, wait), kind), scheduled, runtime);
      UpdateAndRestart(tscAfter);
    }

    method StopAndPush(wait: Time, kind: AlarmType, elapsed: Time)
      requires Valid() && Recorded() && Room(elapsed, wait)
      modifies this`runtime, this`shouldIgnore, this`alarms, this`added
      ensures Valid() && Recorded() && Ns(runtime) == old(Ns(runtime) + Ns(elapsed))
      ensures alarms == old(alarms) + [Alarm(Add(runtime, wait), kind)]
      ensures Ns(Add(runtime, wait)) == Ns(runtime) + Ns(wait) && Unsaturated(runtime, PREEMPT_FREQUENCY)
    {
      StopAndAdvance(elapsed, wait);
      PushAlarm(wait, kind);
    }

    method EnablePreemption(now: Clock)
      requires Valid() && Recorded() && !isUpdating && Plausible(now, PREEMPT_FREQUENCY)
      requires InHandler(processor.View()) || Quiet(alarms, None, Ns(runtime) + Ns(Elapsed(now)))
      modifies this, processor
      ensures Valid() && Recorded() && preemption && Prompt(preemption, scheduled, runtime) && !isUpdating && armed > 0
      ensures GoodInterval(interval, runtime, alarms, scheduled, Some(Add(runtime, PREEMPT_FREQUENCY)))
      ensures Armed(armed, isUsingTsc, tms, now.tscAfter, interval)
      ensures tms >= 1_000_000 ==> InTime(armed, isUsingTsc, tms, now.tscAfter, runtime, alarms, scheduled)
      ensures scheduled.Some? && Ns(scheduled.value) == Ns(runtime) + Ns(PREEMPT_FREQUENCY)
    {
      preemption := true;
      StartScheduleTimer(PREEMPT_FREQUENCY, now);
      PreemptionLater(runtime);
    }

    // --- the scheduler's calls ---

    /** What a scheduler call needs of the timer. */
    ghost predicate MayCall(now: Clock)
      reads this, processor
    {
      && Valid() && Recorded()
      && (preemption ==>
           && Plausible(now, PREEMPT_FREQUENCY)
           && (InHandler(processor.View()) || Quiet(alarms, None, Ns(runtime) + Ns(Elapsed(now)))))
    }

    /** What the restart of the preemption alarm amounts to. */
    ghost predicate Preempts(before: seq<Alarm>, n: nat, tsc: nat)
      reads this
    {
      && n <= |fired| && FiredExactly(fired[n..], alarms, before, None, runtime)
      && scheduled.Some? && Ns(scheduled.value) == Ns(runtime) + Ns(PREEMPT_FREQUENCY)
      && Covers(interval, runtime, alarms, scheduled) && Armed(armed, isUsingTsc, tms, tsc, interval)
    }

    /** Restarts the preemption alarm, if preemption is enabled. */
    method RestartPreemption(now: Clock)
      requires MayCall(now)
      modifies this, processor
      ensures Valid() && Recorded() && Prompt(preemption, scheduled, runtime)
      ensures preemption == old(preemption) && isUpdating == old(isUpdating) && old(fired) <= fired
      ensures !preemption || isUpdating ==>
        runtime == old(runtime) && alarms == old(alarms) && fired == old(fired) && armed == old(armed)
      ensures if preemption then scheduled.Some? && Ns(scheduled.value) == Ns(runtime) + Ns(PREEMPT_FREQUENCY)
        else scheduled == old(scheduled)
      ensures preemption && !isUpdating ==>
        && Ns(runtime) == old(Ns(runtime) + Ns(Elapsed(now)))
        && Preempts(old(alarms), |old(fired)|, now.tscAfter)
      ensures var k := Schedules(fired[|old(fired)|..]);
        && (k > 0 ==> InHandler(old(processor.View())))
        && processor.View() == Scheduled(old(processor.View()), k)
    {
      if preemption {
        StartScheduleTimer(PREEMPT_FREQUENCY, now);
        PreemptionLater(runtime);
      }
    }

    /** The processor after a scheduler call, if the alarms fired since `n` are those of its restart. */
    ghost predicate Did(op: Scheduler.Op, m: Interrupts.Machine, n: nat)
      reads this, processor
      requires m.frames != [] ==> InHandler(m)
    {
      && n <= |fired| && (Schedules(fired[n..]) > 0 ==> InHandler(m))
      && processor.View() == CalledWith(m, op, Schedules(fired[n..]))
    }

    method ScheduleNow(now: Clock)
      requires MayCall(now)
      modifies this, processor
      ensures Valid() && Recorded() && Prompt(preemption, scheduled, runtime)
      ensures preemption == old(preemption) && isUpdating == old(isUpdating)
      ensures !preemption || isUpdating ==>
        runtime == old(runtime) && alarms == old(alarms) && fired == old(fired) && armed == old(armed)
      ensures if preemption then scheduled.Some? && Ns(scheduled.value) == Ns(runtime) + Ns(PREEMPT_FREQUENCY)
        else scheduled == old(scheduled)
      ensures preemption && !isUpdating ==>
        && Ns(runtime) == old(Ns(runtime) + Ns(Elapsed(now)))
        && Preempts(old(alarms), |old(fired)|, now.tscAfter)
      ensures Did(Scheduler.Schedule, old(processor.View()), |old(fired)|)
    {
      RestartPreemption(now);
      AlarmsFirst(old(processor.View()), Schedules(fired[|old(fired)|..]));
      processor.ScheduleTasks();
    }

    method YieldNow(now: Clock)
      requires MayCall(now)
      modifies this, processor
      ensures Valid() && Recorded() && preemption == old(preemption) && isUpdating == old(isUpdating)
      ensures preemption && !isUpdating && old(processor.current).Some? ==>
        Preempts(old(alarms), |old(fired)|, now.tscAfter)
      ensures Did(Scheduler.Yield, old(processor.View()), |old(fired)|)
    {
      if processor.current.Some? {
        Interrupts.MarkedThenScheduled(processor.View());
        processor.MarkBlocked();
        ScheduleNow(now);
      } else {
        NotCalled(processor.View(), Scheduler.Yield);
      }
    }

    method WakeUpNow(id: Scheduler.TaskId, now: Clock)
      requires MayCall(now)
      modifies this, processor
      ensures Valid() && Recorded() && preemption == old(preemption) && isUpdating == old(isUpdating)
      ensures preemption && !isUpdating && id in old(processor.blocked) ==>
        Preempts(old(alarms), |old(fired)|, now.tscAfter)
      ensures Did(Scheduler.WakeUp(id), old(processor.View()), |old(fired)|)
    {
      if id in processor.blocked {
        Interrupts.UnblockedThenScheduled(processor.View(), id);
        processor.Unblock(id);
        ScheduleNow(now);
      } else {
        NotCalled(processor.View(), Scheduler.WakeUp(id));
      }
    }

    method DisablePreemption()
      requires Valid() && Recorded()
      modifies this`preemption, this`scheduled, this`settings
      ensures Valid() && Recorded() && !preemption && scheduled.None? && Prompt(preemption, scheduled, runtime)
    {
      preemption := false;
      StopScheduleTimer();
    }
  }
}
