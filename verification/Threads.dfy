/** The round-robin scheduler (src/threads/thread.c) and counting semaphores
    (src/threads/synch.c) as one state machine.

    A step is a section of kernel code that runs with interrupts off, so it is atomic.
    `sema_down` is not one step: a thread that finds the value zero goes to sleep, and when
    it is dispatched again it tests the value again. */
module Threads {
  import opened Common

  type Tid = nat
  type SemaId = nat

  datatype Status = Running | Ready | Blocked

  /** Where a thread is inside `sema_down`: not in it, asleep on the wait list, or woken by
      `sema_up` and not yet back at the loop test. */
  datatype Place = Outside | Sleeping(on: SemaId) | Woken(on: SemaId)

  datatype Thread = Thread(status: Status, place: Place)

  datatype Sema = Sema(value: nat, waiters: seq<Tid>)

  datatype State = State(
    current: Tid,
    idle: Tid,
    threads: map<Tid, Thread>,
    ready: seq<Tid>,
    semas: map<SemaId, Sema>)

  // ---------------------------------------------------------------- primitives

  function GetThread(st: State, t: Tid): Thread {
    if t in st.threads then st.threads[t] else Thread(Blocked, Outside)
  }

  function GetSema(st: State, s: SemaId): Sema {
    if s in st.semas then st.semas[s] else Sema(0, [])
  }

  function SetThread(st: State, t: Tid, th: Thread): State {
    st.(threads := st.threads[t := th])
  }

  function SetSema(st: State, s: SemaId, sema: Sema): State {
    st.(semas := st.semas[s := sema])
  }

  /** `schedule`: run the thread at the front of the ready list, or the idle thread. */
  function Schedule(st: State): State {
    var next := if st.ready == [] then st.idle else st.ready[0];
    var rest := if st.ready == [] then [] else st.ready[1..];
    SetThread(st, next, GetThread(st, next).(status := Running)).(current := next, ready := rest)
  }

  /** `thread_unblock`, with the reason for waking recorded. */
  function Unblock(st: State, t: Tid, place: Place): State {
    SetThread(st, t, Thread(Ready, place)).(ready := st.ready + [t])
  }

  // ---------------------------------------------------------------- invariants

  /** The ready list holds each ready thread other than the idle thread once. */
  ghost predicate ReadyInv(st: State) {
    && NoDup(st.ready)
    && (forall t | t in st.ready :: t in st.threads)
    && (forall t | t in st.threads :: t in st.ready <==> st.threads[t].status == Ready && t != st.idle)
  }

  /** The wait list of `s` holds each thread that sleeps on `s` once. */
  ghost predicate QueueInv(st: State, s: SemaId)
    requires s in st.semas
  {
    && NoDup(st.semas[s].waiters)
    && (forall t | t in st.semas[s].waiters :: t in st.threads)
    && (forall t | t in st.threads :: t in st.semas[s].waiters <==> st.threads[t].place == Sleeping(s))
  }

  /** Blocked means asleep on a semaphore; the idle thread alone blocks by itself. */
  ghost predicate ThreadInv(st: State, t: Tid)
    requires t in st.threads
  {
    var th := st.threads[t];
    && (t == st.idle ==> th.place == Outside)
    && (t != st.idle ==> (th.status == Blocked <==> th.place.Sleeping?))
    && (th.place != Outside ==> th.place.on in st.semas)
  }

  ghost function WokenOn(st: State, s: SemaId): set<Tid> {
    set t | t in st.threads && st.threads[t].place == Woken(s)
  }

  /** No wake-up is lost: while threads wait, every unit of the semaphore is matched by a thread
      that was woken and has yet to look. */
  ghost predicate SemaInv(st: State, s: SemaId)
    requires s in st.semas
  {
    st.semas[s].waiters != [] ==> st.semas[s].value <= |WokenOn(st, s)|
  }

  ghost predicate Consistent(st: State) {
    && ReadyInv(st)
    && st.idle in st.threads
    && (forall t {:trigger ThreadInv(st, t)} | t in st.threads :: ThreadInv(st, t))
    && (forall s {:trigger QueueInv(st, s)} | s in st.semas :: QueueInv(st, s))
    && (forall s {:trigger SemaInv(st, s)} | s in st.semas :: SemaInv(st, s))
  }

  /** What holds between a change of the running thread's status and `schedule`. */
  ghost predicate Switching(st: State) {
    && Consistent(st)
    && (forall t | t in st.threads :: st.threads[t].status != Running)
  }

  /** Exactly one thread is running. */
  ghost predicate Inv(st: State) {
    && Consistent(st)
    && st.current in st.threads
    && (forall t | t in st.threads :: st.threads[t].status == Running <==> t == st.current)
  }

  // ---------------------------------------------------------------- steps

  datatype Event =
    | Yield                            // thread_yield
    | Create(tid: Tid, memory: bool)   // thread_create; fails without memory
    | Exit                             // thread_exit
    | Idle                             // the loop of the idle thread
    | Init(sema: SemaId, value: nat)   // sema_init
    | Down(sema: SemaId)               // one iteration of the loop of sema_down
    | TryDown(sema: SemaId)            // sema_try_down
    | Up(sema: SemaId)                 // sema_up

  /** The running thread may take any step, except that a thread that wakes up inside
      `sema_down` goes back to the loop test first.  The idle thread never waits or exits. */
  predicate Enabled(st: State, e: Event) {
    var place := GetThread(st, st.current).place;
    if place.Woken? then e == Down(place.on) else
    match e
    case Yield => true
    case Create(t, _) => t !in st.threads
    case Exit => st.current != st.idle
    case Idle => st.current == st.idle
    case Init(s, _) => s !in st.semas
    case Down(s) => s in st.semas && st.current != st.idle
    case TryDown(s) => s in st.semas
    case Up(s) => s in st.semas
  }

  /** Whether the step calls `schedule`. */
  predicate Schedules(st: State, e: Event) {
    e.Yield? || e.Exit? || e.Idle? || (e.Down? && GetSema(st, e.sema).value == 0)
  }

  /** The state in which `schedule` is called. */
  function BeforeSchedule(st: State, e: Event): State {
    var me := GetThread(st, st.current);
    match e
    case Yield =>
      SetThread(st, st.current, me.(status := Ready))
        .(ready := if st.current == st.idle then st.ready else st.ready + [st.current])
    case Exit => st.(threads := st.threads - {st.current})
    case Idle => SetThread(st, st.current, me.(status := Blocked))
    case Down(s) =>
      var sema := GetSema(st, s);
      SetThread(SetSema(st, s, sema.(waiters := sema.waiters + [st.current])),
                st.current, Thread(Blocked, Sleeping(s)))
    case _ => st
  }

  function TakeUnit(sema: Sema): Sema
    requires sema.value > 0
  {
    sema.(value := sema.value - 1)
  }

  function GiveUnit(sema: Sema): Sema {
    sema.(value := sema.value + 1)
  }

  /** The state after a step that does not switch threads. */
  function Stay(st: State, e: Event): State {
    match e
    case Create(t, memory) => if memory then Unblock(st, t, Outside) else st
    case Init(s, v) => SetSema(st, s, Sema(v, []))
    case Down(s) =>
      if GetSema(st, s).value == 0 then st else
      SetSema(SetThread(st, st.current, Thread(Running, Outside)), s, TakeUnit(GetSema(st, s)))
    case TryDown(s) =>
      if GetSema(st, s).value == 0 then st else SetSema(st, s, TakeUnit(GetSema(st, s)))
    case Up(s) =>
      var sema := GetSema(st, s);
      if sema.waiters == [] then SetSema(st, s, GiveUnit(sema))
      else Unblock(SetSema(st, s, GiveUnit(sema).(waiters := sema.waiters[1..])),
                   sema.waiters[0], Woken(s))
    case _ => st
  }

  function Step(st: State, e: Event): State {
    if Schedules(st, e) then Schedule(BeforeSchedule(st, e)) else Stay(st, e)
  }

  // ---------------------------------------------------------------- preservation

  lemma OnceAppend(s: seq<Tid>, t: Tid)
    requires NoDup(s) && t !in s
    ensures NoDup(s + [t])
  {}

  lemma HeadTail(s: seq<Tid>)
    requires s != []
    ensures forall t :: t in s <==> t == s[0] || t in s[1..]
    ensures NoDup(s) ==> s[0] !in s[1..] && NoDup(s[1..])
  {
    assert s == [s[0]] + s[1..];
  }

  /** Semaphores do not notice a change of status between ready and running. */
  ghost predicate SameWaiting(st: State, st': State) {
    && st'.semas == st.semas && st'.idle == st.idle
    && st'.threads.Keys == st.threads.Keys
    && forall t | t in st.threads ::
         && st'.threads[t].place == st.threads[t].place
         && (t != st.idle ==> (st'.threads[t].status == Blocked <==> st.threads[t].status == Blocked))
  }

  /** Neither the semaphore `r` nor any thread's relation to it changes. */
  ghost predicate Untouched(st: State, st': State, r: SemaId) {
    && r in st.semas && r in st'.semas && st'.semas[r] == st.semas[r]
    && (forall t | t in st.threads && st.threads[t].place in {Sleeping(r), Woken(r)} ::
          t in st'.threads && st'.threads[t].place == st.threads[t].place)
    && (forall t | t in st'.threads && st'.threads[t].place in {Sleeping(r), Woken(r)} ::
          t in st.threads && st'.threads[t].place == st.threads[t].place)
  }

  lemma UntouchedSema(st: State, st': State, r: SemaId)
    requires Untouched(st, st', r) && QueueInv(st, r) && SemaInv(st, r)
    ensures QueueInv(st', r) && SemaInv(st', r)
  {
    assert WokenOn(st', r) == WokenOn(st, r);
  }

  lemma WaitingUnchanged(st: State, st': State)
    requires Consistent(st) && SameWaiting(st, st') && ReadyInv(st')
    ensures Consistent(st')
  {
    forall t | t in st'.threads ensures ThreadInv(st', t) {
      assert ThreadInv(st, t);
    }
    forall s | s in st'.semas ensures QueueInv(st', s) {
      assert QueueInv(st, s);
    }
    forall s | s in st'.semas ensures SemaInv(st', s) {
      assert SemaInv(st, s);
      assert WokenOn(st', s) == WokenOn(st, s);
    }
  }

  lemma SchedulePreserves(st: State)
    requires Switching(st)
    ensures Inv(Schedule(st))
  {
    var st' := Schedule(st);
    if st.ready != [] { HeadTail(st.ready); }
    assert ReadyInv(st');
    assert SameWaiting(st, st');
    WaitingUnchanged(st, st');
  }

  lemma YieldSwitches(st: State)
    requires Inv(st) && Enabled(st, Yield)
    ensures Switching(BeforeSchedule(st, Yield))
  {
    var st' := BeforeSchedule(st, Yield);
    if st.current != st.idle { OnceAppend(st.ready, st.current); }
    assert ReadyInv(st');
    WaitingUnchanged(st, st');
  }

  lemma IdleSwitches(st: State)
    requires Inv(st) && Enabled(st, Idle)
    ensures Switching(BeforeSchedule(st, Idle))
  {
    WaitingUnchanged(st, BeforeSchedule(st, Idle));
  }

  lemma ExitSwitches(st: State)
    requires Inv(st) && Enabled(st, Exit)
    ensures Switching(BeforeSchedule(st, Exit))
  {
    var st' := BeforeSchedule(st, Exit);
    assert ThreadInv(st, st.current);
    forall t | t in st'.threads ensures ThreadInv(st', t) {
      assert ThreadInv(st, t);
    }
    forall s | s in st'.semas ensures QueueInv(st', s) && SemaInv(st', s) {
      UntouchedSema(st, st', s);
    }
  }

  lemma SleepSwitches(st: State, s: SemaId)
    requires Inv(st) && Enabled(st, Down(s)) && GetSema(st, s).value == 0
    ensures Switching(BeforeSchedule(st, Down(s)))
  {
    var st' := BeforeSchedule(st, Down(s));
    assert ThreadInv(st, st.current);
    forall t | t in st'.threads ensures ThreadInv(st', t) {
      assert ThreadInv(st, t);
    }
    SleepQueue(st, s);
    forall r | r in st'.semas && r != s ensures QueueInv(st', r) && SemaInv(st', r) {
      UntouchedSema(st, st', r);
    }
  }

  lemma SleepQueue(st: State, s: SemaId)
    requires Inv(st) && Enabled(st, Down(s)) && GetSema(st, s).value == 0
    ensures var st' := BeforeSchedule(st, Down(s)); QueueInv(st', s) && SemaInv(st', s)
  {
    assert ThreadInv(st, st.current);
    assert QueueInv(st, s) && SemaInv(st, s);
    OnceAppend(st.semas[s].waiters, st.current);
  }

  lemma CreateStays(st: State, t: Tid)
    requires Inv(st) && Enabled(st, Create(t, true))
    ensures Inv(Stay(st, Create(t, true)))
  {
    var st' := Stay(st, Create(t, true));
    OnceAppend(st.ready, t);
    forall u | u in st'.threads ensures ThreadInv(st', u) {
      if u != t { assert ThreadInv(st, u); }
    }
    forall s | s in st'.semas ensures QueueInv(st', s) && SemaInv(st', s) {
      UntouchedSema(st, st', s);
    }
  }

  lemma InitStays(st: State, s: SemaId, v: nat)
    requires Inv(st) && Enabled(st, Init(s, v))
    ensures Inv(Stay(st, Init(s, v)))
  {
    var st' := Stay(st, Init(s, v));
    forall t | t in st'.threads ensures ThreadInv(st', t) && st.threads[t].place != Sleeping(s) {
      assert ThreadInv(st, t);
    }
    forall r | r in st'.semas && r != s ensures QueueInv(st', r) && SemaInv(st', r) {
      UntouchedSema(st, st', r);
    }
  }

  lemma DownStays(st: State, s: SemaId)
    requires Inv(st) && Enabled(st, Down(s)) && GetSema(st, s).value > 0
    ensures Inv(Stay(st, Down(s)))
  {
    var st' := Stay(st, Down(s));
    assert ThreadInv(st, st.current);
    assert forall t | t in st'.threads :: ThreadInv(st', t) by {
      forall t | t in st'.threads ensures ThreadInv(st', t) {
        assert ThreadInv(st, t);
      }
    }
    assert QueueInv(st', s) && SemaInv(st', s) by { DownTakes(st, s); }
    forall r | r in st'.semas && r != s ensures QueueInv(st', r) && SemaInv(st', r) {
      DownLeaves(st, s, r);
      UntouchedSema(st, st', r);
    }
  }

  lemma DownLeaves(st: State, s: SemaId, r: SemaId)
    requires Inv(st) && Enabled(st, Down(s)) && GetSema(st, s).value > 0
    requires r in st.semas && r != s
    ensures Untouched(st, Stay(st, Down(s)), r)
  {
    assert ThreadInv(st, st.current);
  }

  /** Taking a unit: a woken thread stops being counted exactly when it takes one. */
  lemma DownTakes(st: State, s: SemaId)
    requires Inv(st) && Enabled(st, Down(s)) && GetSema(st, s).value > 0
    ensures var st' := Stay(st, Down(s)); QueueInv(st', s) && SemaInv(st', s)
  {
    assert ThreadInv(st, st.current);
    assert QueueInv(st, s) && SemaInv(st, s);
    var st' := Stay(st, Down(s));
    assert QueueInv(st', s);
    WokenLeaves(st, st', s);
  }

  lemma WokenLeaves(st: State, st': State, s: SemaId)
    requires st.current in st.threads
    requires st'.threads == st.threads[st.current := Thread(Running, Outside)]
    ensures WokenOn(st', s) == WokenOn(st, s) - {st.current}
    ensures |WokenOn(st', s)| ==
              |WokenOn(st, s)| - (if st.threads[st.current].place == Woken(s) then 1 else 0)
  {
    assert WokenOn(st', s) == WokenOn(st, s) - {st.current};
  }

  lemma TryDownStays(st: State, s: SemaId)
    requires Inv(st) && Enabled(st, TryDown(s))
    ensures Inv(Stay(st, TryDown(s)))
  {
    var st' := Stay(st, TryDown(s));
    forall t | t in st'.threads ensures ThreadInv(st', t) {
      assert ThreadInv(st, t);
    }
    TryDownTakes(st, s);
    forall r | r in st'.semas && r != s ensures QueueInv(st', r) && SemaInv(st', r) {
      UntouchedSema(st, st', r);
    }
  }

  lemma TryDownTakes(st: State, s: SemaId)
    requires Inv(st) && Enabled(st, TryDown(s))
    ensures var st' := Stay(st, TryDown(s)); QueueInv(st', s) && SemaInv(st', s)
  {
    assert ThreadInv(st, st.current);
    assert QueueInv(st, s) && SemaInv(st, s);
    assert WokenOn(Stay(st, TryDown(s)), s) == WokenOn(st, s);
  }

  lemma UpStays(st: State, s: SemaId)
    requires Inv(st) && Enabled(st, Up(s))
    ensures Inv(Stay(st, Up(s)))
  {
    var st', waiters := Stay(st, Up(s)), st.semas[s].waiters;
    assert QueueInv(st, s);
    if waiters != [] {
      assert ThreadInv(st, waiters[0]);
      OnceAppend(st.ready, waiters[0]);
    }
    forall t | t in st'.threads ensures ThreadInv(st', t) {
      assert ThreadInv(st, t);
    }
    UpWakes(st, s);
    forall r | r in st'.semas && r != s ensures QueueInv(st', r) && SemaInv(st', r) {
      UntouchedSema(st, st', r);
    }
  }

  /** Giving a unit: either nobody waits or the longest waiter is woken to match it. */
  lemma UpWakes(st: State, s: SemaId)
    requires Inv(st) && Enabled(st, Up(s))
    ensures var st' := Stay(st, Up(s)); QueueInv(st', s) && SemaInv(st', s)
  {
    var st', waiters := Stay(st, Up(s)), st.semas[s].waiters;
    assert QueueInv(st, s) && SemaInv(st, s);
    if waiters != [] {
      HeadTail(waiters);
      assert WokenOn(st', s) == WokenOn(st, s) + {waiters[0]};
    }
  }

  // ---------------------------------------------------------------- runs

  /** Every step keeps the invariant: one running thread, an exact ready list, exact wait
      lists and no wake-up lost. */
  lemma StepPreserves(st: State, e: Event)
    requires Inv(st) && Enabled(st, e)
    ensures Inv(Step(st, e))
  {
    match e
    case Yield => YieldSwitches(st); SchedulePreserves(BeforeSchedule(st, e));
    case Exit => ExitSwitches(st); SchedulePreserves(BeforeSchedule(st, e));
    case Idle => IdleSwitches(st); SchedulePreserves(BeforeSchedule(st, e));
    case Create(t, memory) => if memory { CreateStays(st, t); }
    case Init(s, v) => InitStays(st, s, v);
    case Down(s) =>
      assert ThreadInv(st, st.current);
      if st.semas[s].value == 0 {
        SleepSwitches(st, s);
        SchedulePreserves(BeforeSchedule(st, e));
      } else {
        DownStays(st, s);
      }
    case TryDown(s) => TryDownStays(st, s);
    case Up(s) => UpStays(st, s);
  }

  predicate ValidRun(st: State, es: seq<Event>)
    decreases |es|
  {
    es == [] || (Enabled(st, es[0]) && ValidRun(Step(st, es[0]), es[1..]))
  }

  function Run(st: State, es: seq<Event>): State
    decreases |es|
  {
    if es == [] then st else Run(Step(st, es[0]), es[1..])
  }

  /** How often a run calls `schedule`. */
  function Switches(st: State, es: seq<Event>): nat
    decreases |es|
  {
    if es == [] then 0
    else (if Schedules(st, es[0]) then 1 else 0) + Switches(Step(st, es[0]), es[1..])
  }

  lemma {:induction false} RunPreserves(st: State, es: seq<Event>)
    requires Inv(st) && ValidRun(st, es)
    ensures Inv(Run(st, es))
    decreases |es|
  {
    if es != [] {
      StepPreserves(st, es[0]);
      RunPreserves(Step(st, es[0]), es[1..]);
    }
  }

  /** `thread_start` leaves the initial thread running and the idle thread blocked. */
  lemma Boot(main: Tid, idle: Tid)
    requires main != idle
    ensures Inv(State(main, idle, map[main := Thread(Running, Outside), idle := Thread(Blocked, Outside)],
                      [], map[]))
  {}

  // ---------------------------------------------------------------- what the steps do

  predicate IsUp(e: Event, s: SemaId) { e == Up(s) }

  /** The step is a down on `s`, or a try, that finds a unit. */
  predicate Takes(st: State, e: Event, s: SemaId) {
    (e == Down(s) || e == TryDown(s)) && GetSema(st, s).value > 0
  }

  function Ups(es: seq<Event>, s: SemaId): nat {
    if es == [] then 0 else (if IsUp(es[0], s) then 1 else 0) + Ups(es[1..], s)
  }

  function Taken(st: State, es: seq<Event>, s: SemaId): nat
    decreases |es|
  {
    if es == [] then 0 else (if Takes(st, es[0], s) then 1 else 0) + Taken(Step(st, es[0]), es[1..], s)
  }

  lemma StepUnits(st: State, e: Event, s: SemaId)
    requires Inv(st) && Enabled(st, e) && s in st.semas
    ensures var st' := Step(st, e);
            && s in st'.semas
            && st'.semas[s].value
               == st.semas[s].value + (if IsUp(e, s) then 1 else 0) - (if Takes(st, e, s) then 1 else 0)
  {}

  /** Units are neither made nor lost: over every run, a semaphore has the units it had, one more
      for every up and one less for every down or try that found one. */
  lemma {:induction false} UnitsConserved(st: State, es: seq<Event>, s: SemaId)
    requires Inv(st) && ValidRun(st, es) && s in st.semas
    ensures s in Run(st, es).semas
    ensures Run(st, es).semas[s].value + Taken(st, es, s) == st.semas[s].value + Ups(es, s)
    decreases |es|
  {
    if es != [] {
      StepUnits(st, es[0], s);
      StepPreserves(st, es[0]);
      UnitsConserved(Step(st, es[0]), es[1..], s);
    }
  }

  /** From its initialisation on, a semaphore completes no more downs than its initial value plus
      the ups, and has what is left over. */
  lemma DownsBounded(st: State, s: SemaId, v: nat, es: seq<Event>)
    requires Inv(st) && Enabled(st, Init(s, v)) && ValidRun(Step(st, Init(s, v)), es)
    ensures var st' := Step(st, Init(s, v)); s in st'.semas && st'.semas[s] == Sema(v, [])
    ensures var st' := Step(st, Init(s, v));
            && Taken(st', es, s) <= v + Ups(es, s)
            && s in Run(st', es).semas && Run(st', es).semas[s].value == v + Ups(es, s) - Taken(st', es, s)
  {
    StepPreserves(st, Init(s, v));
    UnitsConserved(Step(st, Init(s, v)), es, s);
  }

  /** The running thread gives up the processor: it yields, exits, idles or finds no unit. */
  predicate GivesUp(st: State, e: Event) {
    match e
    case Yield => true
    case Exit => true
    case Idle => true
    case Down(s) => s in st.semas && st.semas[s].value == 0
    case _ => false
  }

  /** A thread that does not come from a wait may do anything that makes sense: any thread may
      yield, create threads and initialise, try and raise semaphores; any but the idle thread may
      exit and wait.  One that comes from a wait looks at its semaphore again. */
  lemma MayAct(st: State, e: Event)
    requires Inv(st)
    ensures !st.threads[st.current].place.Woken? ==>
              match e
              case Yield => Enabled(st, e)
              case Create(t, _) => Enabled(st, e) <==> t !in st.threads
              case Exit => Enabled(st, e) <==> st.current != st.idle
              case Idle => Enabled(st, e) <==> st.current == st.idle
              case Init(s, _) => Enabled(st, e) <==> s !in st.semas
              case Down(s) => Enabled(st, e) <==> s in st.semas && st.current != st.idle
              case TryDown(s) => Enabled(st, e) <==> s in st.semas
              case Up(s) => Enabled(st, e) <==> s in st.semas
    ensures st.threads[st.current].place.Woken? ==>
              (Enabled(st, e) <==> e == Down(st.threads[st.current].place.on))
  {
    assert ThreadInv(st, st.current);
  }

  /** Which thread runs then: the first ready one; if there is none, the thread that yields
      goes on, and otherwise the idle thread runs. */
  lemma SwitchTo(st: State, e: Event)
    requires Inv(st) && Enabled(st, e) && GivesUp(st, e)
    ensures Step(st, e).current ==
              if st.ready != [] then st.ready[0] else if e.Yield? then st.current else st.idle
  {
    assert ThreadInv(st, st.current);
  }

  /** A thread is left alone by every step, except that it may start to run, and unless it is the
      running one, it is created, or it is the first waiter of an up. */
  lemma OthersLeft(st: State, e: Event, t: Tid)
    requires Inv(st) && Enabled(st, e) && t in st.threads && t != st.current
    requires e.Up? && st.semas[e.sema].waiters != [] ==> t != st.semas[e.sema].waiters[0]
    ensures var st' := Step(st, e);
            && t in st'.threads && st'.threads[t].place == st.threads[t].place
            && (t != st'.current ==> st'.threads[t] == st.threads[t])
  {}

  /** A semaphore is left alone by steps on others. */
  lemma SemaLeft(st: State, e: Event, s: SemaId)
    requires Enabled(st, e) && s in st.semas && ((e.Down? || e.TryDown? || e.Up?) ==> e.sema != s)
    ensures s in Step(st, e).semas && Step(st, e).semas[s] == st.semas[s]
  {}

  /** The thread that yields or goes to sleep keeps its place in line: it is the last one of the
      ready list, or of the wait list and blocked; one that exits is gone. */
  lemma LeavingThread(st: State, e: Event)
    requires Inv(st) && Enabled(st, e) && GivesUp(st, e)
    ensures var st', me := Step(st, e), st.current;
            match e
            case Yield => me in st'.threads && st'.threads[me].place == st.threads[me].place
                          && (me != st.idle && st.ready != [] ==> st'.ready == st.ready[1..] + [me])
            case Exit => st'.threads.Keys == st.threads.Keys - {me}
            case Idle => me in st'.threads && (st.ready != [] ==> st'.threads[me].status == Blocked)
            case Down(s) => s in st.semas && s in st'.semas && me in st'.threads
                            && st'.semas[s].waiters == st.semas[s].waiters + [me]
                            && st'.threads[me] == Thread(Blocked, Sleeping(s))
            case _ => true
  {
    assert ThreadInv(st, st.current);
    if st.ready != [] { HeadTail(st.ready); }
  }

  /** What a step does that does not switch threads. */
  lemma StayingThread(st: State, e: Event)
    requires Inv(st) && Enabled(st, e) && !GivesUp(st, e)
    ensures var st', me := Step(st, e), st.current;
            && st'.current == me
            && match e
               case Create(t, memory) =>
                 if memory then st'.ready == st.ready + [t] && st'.threads == st.threads[t := Thread(Ready, Outside)]
                 else st' == st
               case Down(_) => st'.ready == st.ready && st'.threads[me] == Thread(Running, Outside)
               case Up(s) => s in st.semas && s in st'.semas
                             && (st.semas[s].waiters == [] ==> st'.ready == st.ready && st'.threads == st.threads)
               case _ => st'.ready == st.ready && st'.threads == st.threads
  {
    assert ThreadInv(st, st.current);
  }

  /** In every interleaving no wake-up is lost: while threads wait, every unit is matched by a
      thread that was woken and has yet to look, even if another thread takes the unit first. */
  lemma NoLostWakeup(st: State, es: seq<Event>, s: SemaId)
    requires Inv(st) && ValidRun(st, es) && s in Run(st, es).semas
    ensures var end := Run(st, es); end.semas[s].waiters != [] ==> |WokenOn(end, s)| >= end.semas[s].value
  {
    RunPreserves(st, es);
    assert SemaInv(Run(st, es), s);
  }

  /** First come, first served: an up wakes the thread at the front of the wait list, which goes
      to the end of the ready list, and moves the others up by one; no other step takes a
      waiter off or changes the order. */
  lemma WaitersShift(st: State, e: Event, s: SemaId, k: nat)
    requires Inv(st) && Enabled(st, e) && s in st.semas && k < |st.semas[s].waiters|
    ensures var st', w := Step(st, e), st.semas[s].waiters;
            && s in st'.semas
            && if e != Up(s) then k < |st'.semas[s].waiters| && st'.semas[s].waiters[k] == w[k]
               else if k == 0 then st'.ready == st.ready + [w[0]] && st'.threads[w[0]] == Thread(Ready, Woken(s))
               else k - 1 < |st'.semas[s].waiters| && st'.semas[s].waiters[k - 1] == w[k]
  {
    assert QueueInv(st, s);
  }

  /** One step moves the ready list forward by one place if it switches threads and not at
      all otherwise; what a switch takes off the front starts to run. */
  lemma ReadyShifts(st: State, e: Event, k: nat)
    requires k < |st.ready|
    ensures var st' := Step(st, e);
            if !Schedules(st, e) then k < |st'.ready| && st'.ready[k] == st.ready[k]
            else if k == 0 then st'.current == st.ready[0]
            else k - 1 < |st'.ready| && st'.ready[k - 1] == st.ready[k]
  {}

  lemma {:induction false} ReadyPosition(st: State, es: seq<Event>, k: nat)
    requires k < |st.ready| && Switches(st, es) <= k
    ensures k - Switches(st, es) < |Run(st, es).ready|
    ensures Run(st, es).ready[k - Switches(st, es)] == st.ready[k]
    decreases |es|
  {
    if es != [] {
      ReadyShifts(st, es[0], k);
      ReadyPosition(Step(st, es[0]), es[1..], if Schedules(st, es[0]) then k - 1 else k);
    }
  }

  /** Round robin: the thread at position `k` runs after exactly `k + 1` switches, whatever
      the threads do in between. */
  lemma RoundRobin(st: State, es: seq<Event>, e: Event, k: nat)
    requires k < |st.ready| && Switches(st, es) == k && Schedules(Run(st, es), e)
    ensures Step(Run(st, es), e).current == st.ready[k]
  {
    ReadyPosition(st, es, k);
    ReadyShifts(Run(st, es), e, 0);
  }

  /** No lost wake-up: if a unit is available while threads wait for it, some woken thread is
      running or has a place on the ready list, so at most that many switches bring it back
      to the loop test of `sema_down`. */
  lemma WakeupPending(st: State, s: SemaId) returns (t: Tid, k: nat)
    requires Inv(st) && s in st.semas && st.semas[s].waiters != [] && st.semas[s].value > 0
    ensures t in st.threads && st.threads[t].place == Woken(s)
    ensures t == st.current || (k < |st.ready| && st.ready[k] == t)
  {
    assert SemaInv(st, s);
    assert WokenOn(st, s) != {};
    t :| t in WokenOn(st, s);
    assert ThreadInv(st, t);
    k := 0;
    if t != st.current {
      k :| 0 <= k < |st.ready| && st.ready[k] == t;
    }
  }
}
