/** The kernel's own code for scheduling and semaphores, updating its lists in place.  Each
    method is a section that runs with interrupts off; its contract ties it to the step of
    the state machine in `Threads`, so it keeps that machine's invariant. */
module Kernel {
  import opened Threads

  /** What `thread_unblock` asserts of the thread that `sema_up` gives it. */
  lemma WaiterBlocked(st: State, s: SemaId)
    requires Inv(st) && s in st.semas
    ensures var w := st.semas[s].waiters; w != [] ==> w[0] in st.threads && st.threads[w[0]].status == Blocked
  {
    var w := st.semas[s].waiters;
    assert QueueInv(st, s);
    if w != [] {
      assert w[0] in w;
      assert ThreadInv(st, w[0]);
    }
  }

  class Kernel {
    const idle: Tid
    var current: Tid
    var threads: map<Tid, Thread>
    var ready: seq<Tid>
    var semas: map<SemaId, Sema>

    ghost function View(): State
      reads this
    {
      State(current, idle, threads, ready, semas)
    }

    ghost predicate Valid()
      reads this
    {
      Inv(View())
    }

    /** `thread_start`, after the idle thread has blocked. */
    constructor (main: Tid, idle: Tid)
      requires main != idle
      ensures Valid() && current == main && this.idle == idle && ready == [] && semas == map[]
    {
      this.idle, current := idle, main;
      threads := map[main := Thread(Running, Outside), idle := Thread(Blocked, Outside)];
      ready, semas := [], map[];
      new;
      Boot(main, idle);
    }

    /** `schedule` with `next_thread_to_run` and `thread_schedule_tail`. */
    method SwitchThreads()
      requires Switching(View())
      modifies this
      ensures View() == Schedule(old(View()))
      ensures Valid()
    {
      SchedulePreserves(View());
      var next := idle;
      if ready != [] {
        next := ready[0];
        ready := ready[1..];
      }
      threads := threads[next := threads[next].(status := Running)];
      current := next;
    }

    method SetStatus(t: Tid, status: Status)
      requires t in threads
      modifies this`threads
      ensures threads == old(threads)[t := old(threads)[t].(status := status)]
    {
      threads := threads[t := threads[t].(status := status)];
    }

    method ThreadYield()
      requires Valid() && Enabled(View(), Yield)
      modifies this
      ensures View() == Step(old(View()), Yield)
      ensures Valid()
    {
      YieldSwitches(View());
      if current != idle {
        ready := ready + [current];
      }
      SetStatus(current, Ready);
      SwitchThreads();
    }

    /** One round of the endless loop of the idle thread: `thread_block`. */
    method IdleBlock()
      requires Valid() && Enabled(View(), Idle)
      modifies this
      ensures View() == Step(old(View()), Idle)
      ensures Valid()
    {
      IdleSwitches(View());
      SetStatus(current, Blocked);
      SwitchThreads();
    }

    method ThreadExit()
      requires Valid() && Enabled(View(), Exit)
      modifies this
      ensures View() == Step(old(View()), Exit)
      ensures Valid()
    {
      ExitSwitches(View());
      threads := threads - {current};
      SwitchThreads();
    }

    /** `thread_create`: the new thread enters blocked and is unblocked at once; without memory
        for it the result is `TID_ERROR` and nothing changes. */
    method ThreadCreate(t: Tid, memory: bool) returns (ok: bool)
      requires Valid() && Enabled(View(), Create(t, memory))
      modifies this
      ensures View() == Step(old(View()), Create(t, memory))
      ensures Valid() && ok == memory && (!ok ==> View() == old(View()))
    {
      StepPreserves(View(), Create(t, memory));
      if !memory {
        return false;
      }
      ghost var before := threads;
      threads := threads[t := Thread(Blocked, Outside)];
      ThreadUnblock(t, Outside);
      assert threads == before[t := Thread(Ready, Outside)];
      return true;
    }

    method SemaInit(s: SemaId, value: nat)
      requires Valid() && Enabled(View(), Init(s, value))
      modifies this
      ensures View() == Step(old(View()), Init(s, value))
      ensures Valid()
    {
      StepPreserves(View(), Init(s, value));
      semas := semas[s := Sema(value, [])];
    }

    /** One round of the loop of `sema_down`: the running thread takes a unit and leaves, or
        joins the wait list and blocks. */
    method SemaDown(s: SemaId) returns (done: bool)
      requires Valid() && Enabled(View(), Down(s))
      modifies this
      ensures View() == Step(old(View()), Down(s))
      ensures Valid()
      ensures done <==> GetSema(old(View()), s).value > 0
    {
      ghost var before := View();
      assert ThreadInv(before, current);
      if semas[s].value == 0 {
        SleepSwitches(before, s);
        semas := semas[s := semas[s].(waiters := semas[s].waiters + [current])];
        threads := threads[current := Thread(Blocked, Sleeping(s))];
        SwitchThreads();
        done := false;
      } else {
        DownStays(before, s);
        semas := semas[s := TakeUnit(semas[s])];
        threads := threads[current := Thread(Running, Outside)];
        done := true;
      }
    }

    method SemaTryDown(s: SemaId) returns (success: bool)
      requires Valid() && Enabled(View(), TryDown(s))
      modifies this
      ensures View() == Step(old(View()), TryDown(s))
      ensures Valid()
      ensures success <==> GetSema(old(View()), s).value > 0
    {
      StepPreserves(View(), TryDown(s));
      success := semas[s].value > 0;
      if success {
        semas := semas[s := TakeUnit(semas[s])];
      }
    }

    /** `sema_up`: wake the longest waiter, if any, and give the unit. */
    method SemaUp(s: SemaId)
      requires Valid() && Enabled(View(), Up(s))
      modifies this
      ensures View() == Step(old(View()), Up(s))
      ensures Valid()
    {
      StepPreserves(View(), Up(s));
      assert s in semas by { assert ThreadInv(View(), current); }
      WaiterBlocked(View(), s);
      WakeAndGive(s);
    }

    method WakeAndGive(s: SemaId)
      requires s in semas
      requires var w := semas[s].waiters; w != [] ==> w[0] in threads && threads[w[0]].status == Blocked
      modifies this
      ensures View() == Stay(old(View()), Up(s))
    {
      var sema := semas[s];
      if sema.waiters != [] {
        ThreadUnblock(sema.waiters[0], Woken(s));
        sema := sema.(waiters := sema.waiters[1..]);
      }
      semas := semas[s := GiveUnit(sema)];
    }

    /** `thread_unblock`; `place` records what the thread does when it runs next. */
    method ThreadUnblock(t: Tid, place: Place)
      requires t in threads && threads[t].status == Blocked
      modifies this`threads, this`ready
      ensures threads == old(threads)[t := Thread(Ready, place)] && ready == old(ready) + [t]
    {
      ready := ready + [t];
      threads := threads[t := Thread(Ready, place)];
    }
  }
}
