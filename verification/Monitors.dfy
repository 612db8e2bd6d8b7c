/** Locks and condition variables (src/threads/synch.c): any number of threads use one lock
    and any number of conditions tied to it.

    `lock_acquire` writes the holder after `sema_down` has returned, and `lock_release`
    clears it before `sema_up`, so program counters, not the holder, say who is inside.  The
    semaphores appear through their specification: a down passes when it takes a unit. */
module Monitors {
  import opened Common

  type Tid = nat
  type CondId = nat

  /** One wait: the `semaphore_elem` on the stack of a thread inside `cond_wait`. */
  type Ticket = nat

  datatype Pc =
    | Outside
    | Acquiring                      // in sema_down on the lock
    | Taken                          // the down has passed, the holder is not yet set
    | Inside                         // between acquire and release
    | Enqueued(ticket: Ticket)       // cond_wait: on the queue, lock still held
    | Signalling(ticket: Ticket)     // cond_signal: popped the ticket, sema_up to come
    | Leaving(wait: Option<Ticket>)  // holder cleared, sema_up on the lock to come
    | Waiting(ticket: Ticket)        // in sema_down on the ticket's own semaphore

  datatype State = State(
    value: nat,
    holder: Option<Tid>,
    pcs: map<Tid, Pc>,
    queues: map<CondId, seq<Ticket>>,
    units: map<Ticket, nat>,
    enqueued: map<CondId, seq<Ticket>>,   // history: every ticket that joined the queue
    signalled: map<CondId, seq<Ticket>>,  // history: every ticket a signal took off it
    owner: map<Ticket, Tid>,              // history: the thread whose wait the ticket is
    woken: set<Ticket>)                   // history: every ticket whose wait has ended

  datatype Event =
    | Acquire(t: Tid)
    | TryAcquire(t: Tid)
    | Pass(t: Tid)
    | SetHolder(t: Tid)
    | Release(t: Tid)
    | Enqueue(t: Tid, c: CondId, w: Ticket)
    | ReleaseToWait(t: Tid)
    | Post(t: Tid)
    | Wake(t: Tid)
    | PopSignal(t: Tid, c: CondId)
    | PostSignal(t: Tid)

  function PcOf(st: State, t: Tid): Pc {
    if t in st.pcs then st.pcs[t] else Outside
  }

  function Of(m: map<CondId, seq<Ticket>>, c: CondId): seq<Ticket> {
    if c in m then m[c] else []
  }

  function UnitsOf(st: State, w: Ticket): nat {
    if w in st.units then st.units[w] else 0
  }

  predicate Enabled(st: State, e: Event) {
    var pc := PcOf(st, e.t);
    match e
    case Acquire(_) => pc == Outside
    case TryAcquire(_) => pc == Outside
    case Pass(_) => pc == Acquiring && st.value > 0
    case SetHolder(_) => pc == Taken
    case Release(t) => pc == Inside && st.holder == Some(t)
    case Enqueue(t, _, w) => pc == Inside && st.holder == Some(t) && w !in st.units
    case ReleaseToWait(t) => pc.Enqueued? && st.holder == Some(t)
    case Post(_) => pc.Leaving?
    case Wake(_) => pc.Waiting? && UnitsOf(st, pc.ticket) > 0
    case PopSignal(t, c) => pc == Inside && st.holder == Some(t) && Of(st.queues, c) != []
    case PostSignal(_) => pc.Signalling?
  }

  function Go(st: State, t: Tid, pc: Pc): State {
    st.(pcs := st.pcs[t := pc])
  }

  function Step(st: State, e: Event): State {
    var pc := PcOf(st, e.t);
    match e
    case Acquire(t) => Go(st, t, Acquiring)
    case TryAcquire(t) => if st.value > 0 then Go(st, t, Taken).(value := st.value - 1) else st
    case Pass(t) => if st.value > 0 then Go(st, t, Taken).(value := st.value - 1) else st
    case SetHolder(t) => Go(st, t, Inside).(holder := Some(t))
    case Release(t) => Go(st, t, Leaving(None)).(holder := None)
    case Enqueue(t, c, w) =>
      Go(st, t, Enqueued(w)).(
        units := st.units[w := 0],
        queues := st.queues[c := Of(st.queues, c) + [w]],
        enqueued := st.enqueued[c := Of(st.enqueued, c) + [w]],
        owner := st.owner[w := t])
    case ReleaseToWait(t) =>
      if pc.Enqueued? then Go(st, t, Leaving(Some(pc.ticket))).(holder := None) else st
    case Post(t) =>
      if pc.Leaving? then
        Go(st, t, if pc.wait == None then Outside else Waiting(pc.wait.value)).(value := st.value + 1)
      else st
    case Wake(t) =>
      if pc.Waiting? && UnitsOf(st, pc.ticket) > 0 then
        Go(st, t, Acquiring).(
          units := st.units[pc.ticket := UnitsOf(st, pc.ticket) - 1],
          woken := st.woken + {pc.ticket})
      else st
    case PopSignal(t, c) =>
      var q := Of(st.queues, c);
      if q == [] then st else
      Go(st, t, Signalling(q[0])).(
        queues := st.queues[c := q[1..]],
        signalled := st.signalled[c := Of(st.signalled, c) + [q[0]]])
    case PostSignal(t) =>
      if pc.Signalling? then
        Go(st, t, Inside).(units := st.units[pc.ticket := UnitsOf(st, pc.ticket) + 1])
      else st
  }

  // ---------------------------------------------------------------- mutual exclusion

  /** Between passing the down and doing the up. */
  predicate Owns(pc: Pc) {
    pc == Taken || pc == Inside || pc.Enqueued? || pc.Signalling? || pc.Leaving?
  }

  /** Where `lock_held_by_current_thread` answers true. */
  predicate Holds(pc: Pc) {
    pc == Inside || pc.Enqueued? || pc.Signalling?
  }

  ghost function Owners(st: State): set<Tid> {
    set t | t in st.pcs && Owns(st.pcs[t])
  }

  /** The unit of the lock is either free or with exactly one thread. */
  ghost predicate LockInv(st: State) {
    st.value + |Owners(st)| == 1
  }

  ghost predicate HolderInv(st: State) {
    forall t: Tid :: st.holder == Some(t) <==> Holds(PcOf(st, t))
  }

  // ---------------------------------------------------------------- condition queues

  /** First in, first out: what was signalled, followed by what still waits, is everything
      that was enqueued, in the order it was. */
  ghost predicate FifoInv(st: State, c: CondId) {
    Of(st.enqueued, c) == Of(st.signalled, c) + Of(st.queues, c)
  }

  /** Tickets are used once: those of one condition differ and no two conditions share one. */
  ghost predicate TicketInv(st: State) {
    && (forall c: CondId :: NoDup(Of(st.enqueued, c)))
    && (forall c: CondId, w: Ticket :: w in Of(st.enqueued, c) ==> w in st.units)
    && (forall c: CondId, d: CondId, w: Ticket :: w in Of(st.enqueued, c) && w in Of(st.enqueued, d) ==> c == d)
  }

  /** Whether some condition has taken `w` off its queue. */
  ghost predicate Signalled(st: State, w: Ticket) {
    exists c: CondId :: w in Of(st.signalled, c)
  }

  /** The up of the ticket's semaphore is still to come. */
  ghost predicate InFlight(st: State, w: Ticket) {
    exists t: Tid :: PcOf(st, t) == Signalling(w)
  }

  /** A signalled ticket is one whose up is to come, has been done, or has woken its waiter. */
  ghost predicate PhaseInv(st: State, w: Ticket) {
    && UnitsOf(st, w) <= 1
    && (Signalled(st, w) <==> InFlight(st, w) || UnitsOf(st, w) == 1 || w in st.woken)
  }

  ghost predicate SignalInv(st: State, t: Tid) {
    PcOf(st, t).Signalling? ==>
      var w := PcOf(st, t).ticket; w in st.units && UnitsOf(st, w) == 0 && w !in st.woken
  }

  /** Whether a thread is in the wait of `w`. */
  predicate Carries(pc: Pc, w: Ticket) {
    pc == Enqueued(w) || pc == Leaving(Some(w)) || pc == Waiting(w)
  }

  /** Until its wait ends, a ticket is carried by the thread it belongs to. */
  ghost predicate OwnerInv(st: State, w: Ticket) {
    && (w in st.owner <==> w in st.units)
    && (w in st.owner && w !in st.woken ==> Carries(PcOf(st, st.owner[w]), w))
    && (w in st.woken ==> w in st.owner && UnitsOf(st, w) == 0)
  }

  /** A thread carries only a ticket of its own, and only until the wait ends. */
  ghost predicate CarrierInv(st: State, t: Tid) {
    forall w: Ticket | Carries(PcOf(st, t), w) :: w in st.owner && st.owner[w] == t && w !in st.woken
  }

  ghost predicate Inv(st: State) {
    && LockInv(st) && HolderInv(st) && TicketInv(st)
    && (forall c: CondId :: FifoInv(st, c))
    && (forall w: Ticket :: PhaseInv(st, w) && OwnerInv(st, w))
    && (forall t: Tid :: SignalInv(st, t) && CarrierInv(st, t))
  }

  // ---------------------------------------------------------------- preservation

  function Count(pc: Pc): nat { if Owns(pc) then 1 else 0 }

  /** How one program counter change moves the number of owners. */
  lemma OwnersChange(st: State, st': State, t: Tid, pc: Pc)
    requires st'.pcs == st.pcs[t := pc]
    ensures |Owners(st')| == |Owners(st)| - Count(PcOf(st, t)) + Count(pc)
  {
    var a, b := Owners(st), Owners(st');
    assert t in a <==> Owns(PcOf(st, t));
    assert b == if Owns(pc) then a + {t} else a - {t};
    SetCounts(a, t);
  }

  lemma SetCounts(a: set<Tid>, t: Tid)
    ensures |a + {t}| == |a| + (if t in a then 0 else 1)
    ensures |a - {t}| == |a| - (if t in a then 1 else 0)
  {
    assert t in a ==> a + {t} == a;
    assert t !in a ==> a - {t} == a;
  }

  lemma StepLock(st: State, e: Event)
    requires LockInv(st) && Enabled(st, e)
    ensures LockInv(Step(st, e))
  {
    var st' := Step(st, e);
    var pc' := PcOf(st', e.t);
    assert st' != st ==> st'.pcs == st.pcs[e.t := pc'];
    assert st'.value + Count(pc') == st.value + Count(PcOf(st, e.t));
    if st' != st { OwnersChange(st, st', e.t, pc'); }
  }

  /** At most one thread owns the lock. */
  lemma OneOwner(st: State, t: Tid, u: Tid)
    requires LockInv(st) && Owns(PcOf(st, t)) && Owns(PcOf(st, u))
    ensures t == u && st.value == 0
  {
    assert t in Owners(st) && u in Owners(st);
    if t != u {
      assert {t, u} <= Owners(st);
      assert |{t, u}| == 2;
      SubsetSize({t, u}, Owners(st));
    }
  }

  lemma SubsetSize(a: set<Tid>, b: set<Tid>)
    requires a <= b
    ensures |a| <= |b|
  {
    assert b == a + (b - a);
  }

  lemma StepHolder(st: State, e: Event)
    requires LockInv(st) && HolderInv(st) && Enabled(st, e)
    ensures HolderInv(Step(st, e))
  {
    var st' := Step(st, e);
    forall t: Tid ensures st'.holder == Some(t) <==> Holds(PcOf(st', t)) {
      if e.SetHolder? && Holds(PcOf(st, t)) { OneOwner(st, t, e.t); }
    }
  }

  lemma StepFifo(st: State, e: Event, c: CondId)
    requires FifoInv(st, c) && Enabled(st, e)
    ensures FifoInv(Step(st, e), c)
  {
    if e.PopSignal? && e.c == c {
      var q := Of(st.queues, c);
      assert q == [q[0]] + q[1..];
    }
  }

  lemma StepTickets(st: State, e: Event)
    requires TicketInv(st) && Enabled(st, e)
    ensures TicketInv(Step(st, e))
  {
    var st' := Step(st, e);
    if e.Enqueue? {
      assert forall c: CondId :: c != e.c ==> Of(st'.enqueued, c) == Of(st.enqueued, c);
      var before, after := Of(st.enqueued, e.c), Of(st'.enqueued, e.c);
      assert after == before + [e.w] && e.w !in before && NoDup(before);
      assert forall w: Ticket :: w in after <==> w in before || w == e.w;
      assert NoDup(after);
      forall c: CondId, d: CondId, w: Ticket | w in Of(st'.enqueued, c) && w in Of(st'.enqueued, d)
        ensures c == d
      {
        if w == e.w {
          assert w !in Of(st.enqueued, c) && w !in Of(st.enqueued, d);
        } else {
          assert w in Of(st.enqueued, c) && w in Of(st.enqueued, d);
        }
      }
    } else {
      assert st'.enqueued == st.enqueued;
    }
  }

  /** A ticket still on a queue has not been signalled. */
  lemma QueuedIsFresh(st: State, c: CondId, w: Ticket)
    requires TicketInv(st) && (forall d: CondId :: FifoInv(st, d)) && w in Of(st.queues, c)
    ensures !Signalled(st, w)
  {
    assert FifoInv(st, c);
    assert w in Of(st.enqueued, c);
    var q, g := Of(st.queues, c), Of(st.signalled, c);
    var j :| 0 <= j < |q| && q[j] == w;
    assert Of(st.enqueued, c)[|g| + j] == w;
    forall d: CondId ensures w !in Of(st.signalled, d) {
      assert FifoInv(st, d);
      forall i | 0 <= i < |Of(st.signalled, d)| ensures Of(st.signalled, d)[i] != w {
        assert Of(st.enqueued, d)[i] == Of(st.signalled, d)[i];
      }
    }
  }

  /** Whether this step is the signal of `w`. */
  predicate Pops(st: State, e: Event, w: Ticket) {
    e.PopSignal? && Of(st.queues, e.c) != [] && Of(st.queues, e.c)[0] == w
  }

  lemma SignalledStep(st: State, e: Event, w: Ticket)
    requires Enabled(st, e)
    ensures Signalled(Step(st, e), w) <==> Signalled(st, w) || Pops(st, e, w)
  {
    var st' := Step(st, e);
    assert forall c: CondId ::
        w in Of(st'.signalled, c) <==> w in Of(st.signalled, c) || (Pops(st, e, w) && c == e.c);
    if Pops(st, e, w) { assert w in Of(st'.signalled, e.c); }
  }

  /** A step moves one thread. */
  predicate OneMoved(st: State, st': State, t: Tid) {
    st'.pcs == st.pcs || st'.pcs == st.pcs[t := PcOf(st', t)]
  }

  lemma MovesOne(st: State, e: Event)
    ensures OneMoved(st, Step(st, e), e.t)
  {
    var st' := Step(st, e);
    if st' != st { assert st'.pcs == st.pcs[e.t := PcOf(st', e.t)]; }
  }

  lemma FlightChange(st: State, st': State, t: Tid, w: Ticket)
    requires OneMoved(st, st', t)
    ensures PcOf(st', t) == Signalling(w) ==> InFlight(st', w)
    ensures PcOf(st', t) != Signalling(w) && InFlight(st', w) ==> InFlight(st, w)
    ensures PcOf(st, t) != Signalling(w) && InFlight(st, w) ==> InFlight(st', w)
  {
    if InFlight(st', w) && PcOf(st', t) != Signalling(w) {
      var u: Tid :| PcOf(st', u) == Signalling(w);
      assert PcOf(st, u) == Signalling(w);
    }
    if InFlight(st, w) && PcOf(st, t) != Signalling(w) {
      var u: Tid :| PcOf(st, u) == Signalling(w);
      assert PcOf(st', u) == Signalling(w);
    }
  }

  lemma StepPhase(st: State, e: Event, w: Ticket)
    requires Enabled(st, e) && PhaseInv(st, w) && SignalInv(st, e.t)
    ensures PhaseInv(Step(st, e), w)
  {
    SignalledStep(st, e, w);
    MovesOne(st, e);
    FlightChange(st, Step(st, e), e.t, w);
    if PcOf(st, e.t) == Signalling(w) { assert InFlight(st, w); }
  }

  lemma StepSignals(st: State, e: Event, t: Tid)
    requires Inv(st) && Enabled(st, e)
    ensures SignalInv(Step(st, e), t)
  {
    var st' := Step(st, e);
    assert SignalInv(st, t);
    if PcOf(st, t).Signalling? && t != e.t {
      if Owns(PcOf(st, e.t)) { OneOwner(st, t, e.t); }
      if e.Wake? { assert CarrierInv(st, e.t) && SignalInv(st, t); }
    } else if e.PopSignal? && t == e.t {
      var w := Of(st.queues, e.c)[0];
      QueuedIsFresh(st, e.c, w);
      assert FifoInv(st, e.c) && w in Of(st.enqueued, e.c);
      assert PhaseInv(st, w);
    }
  }

  lemma StepOwner(st: State, e: Event, w: Ticket)
    requires Enabled(st, e) && OwnerInv(st, w) && PhaseInv(st, w) && SignalInv(st, e.t) && CarrierInv(st, e.t)
    ensures OwnerInv(Step(st, e), w)
  {
    if e.Wake? { assert Carries(PcOf(st, e.t), PcOf(st, e.t).ticket); }
  }

  lemma StepCarrier(st: State, e: Event, t: Tid)
    requires Enabled(st, e) && CarrierInv(st, t) && CarrierInv(st, e.t)
    requires e.Enqueue? ==> OwnerInv(st, e.w)
    ensures CarrierInv(Step(st, e), t)
  {
    var st' := Step(st, e);
    forall w: Ticket | Carries(PcOf(st', t), w)
      ensures w in st'.owner && st'.owner[w] == t && w !in st'.woken
    {
      if Carries(PcOf(st, t), w) { StillCarries(st, e, t, w); } else { NewCarrier(st, e, t, w); }
    }
  }

  lemma NewCarrier(st: State, e: Event, t: Tid, w: Ticket)
    requires Enabled(st, e) && !Carries(PcOf(st, t), w) && Carries(PcOf(Step(st, e), t), w)
    requires e.Enqueue? ==> OwnerInv(st, e.w)
    ensures var st' := Step(st, e); w in st'.owner && st'.owner[w] == t && w !in st'.woken
  {
    assert e.t == t && e.Enqueue? && e.w == w;
  }

  lemma StillCarries(st: State, e: Event, t: Tid, w: Ticket)
    requires Enabled(st, e) && Carries(PcOf(st, t), w) && Carries(PcOf(Step(st, e), t), w)
    requires w in st.owner && st.owner[w] == t && w !in st.woken && CarrierInv(st, e.t)
    requires e.Enqueue? ==> OwnerInv(st, e.w)
    ensures var st' := Step(st, e); w in st'.owner && st'.owner[w] == t && w !in st'.woken
  {
    if e.Wake? { assert Carries(PcOf(st, e.t), PcOf(st, e.t).ticket); }
  }

  /** Every step of every thread keeps the invariant. */
  lemma StepPreserves(st: State, e: Event)
    requires Inv(st) && Enabled(st, e)
    ensures Inv(Step(st, e))
  {
    assert SignalInv(st, e.t) && CarrierInv(st, e.t) && (e.Enqueue? ==> OwnerInv(st, e.w));
    StepLock(st, e);
    StepHolder(st, e);
    StepTickets(st, e);
    forall c: CondId ensures FifoInv(Step(st, e), c) { StepFifo(st, e, c); }
    forall w: Ticket ensures PhaseInv(Step(st, e), w) && OwnerInv(Step(st, e), w) {
      assert PhaseInv(st, w) && OwnerInv(st, w);
      StepPhase(st, e, w);
      StepOwner(st, e, w);
    }
    forall t: Tid ensures SignalInv(Step(st, e), t) && CarrierInv(Step(st, e), t) {
      StepSignals(st, e, t);
      StepCarrier(st, e, t);
    }
  }

  // ---------------------------------------------------------------- runs

  const FRESH: State := State(1, None, map[], map[], map[], map[], map[], map[], {})

  lemma FreshInv()
    ensures Inv(FRESH)
  {
    assert Owners(FRESH) == {};
  }

  predicate ValidRun(st: State, es: seq<Event>)
    decreases |es|
  {
    es == [] || (Enabled(st, es[0]) && ValidRun(Step(st, es[0]), es[1..]))
  }

  function Run(st: State, es: seq<Event>): State
    decreases |es|
  {
    if es == [] then st else Run(Step(st, es[0]), es[1..])
  }

  lemma {:induction false} RunPreserves(st: State, es: seq<Event>)
    requires Inv(st) && ValidRun(st, es)
    ensures Inv(Run(st, es))
    decreases |es|
  {
    if es != [] {
      StepPreserves(st, es[0]);
      RunPreserves(Step(st, es[0]), es[1..]);
    }
  }

  /** In every interleaving at most one thread is between its down and its up, and the
      holder field names exactly the thread for which `lock_release` would not panic. */
  lemma MutualExclusion(es: seq<Event>, t: Tid, u: Tid)
    requires ValidRun(FRESH, es)
    ensures var st := Run(FRESH, es);
            && (Owns(PcOf(st, t)) && Owns(PcOf(st, u)) ==> t == u && st.value == 0)
            && (st.holder == Some(t) <==> Holds(PcOf(st, t)))
  {
    FreshInv();
    RunPreserves(FRESH, es);
    var st := Run(FRESH, es);
    if Owns(PcOf(st, t)) && Owns(PcOf(st, u)) { OneOwner(st, t, u); }
  }

  /** In every interleaving the tickets signalled are the first ones enqueued, in order. */
  lemma SignalsInOrder(es: seq<Event>, c: CondId)
    requires ValidRun(FRESH, es)
    ensures var st := Run(FRESH, es); Of(st.signalled, c) <= Of(st.enqueued, c)
  {
    FreshInv();
    RunPreserves(FRESH, es);
    assert FifoInv(Run(FRESH, es), c);
  }

  ghost predicate EnqueuedBy(es: seq<Event>, t: Tid, w: Ticket) {
    exists c: CondId :: Enqueue(t, c, w) in es
  }

  lemma EnqueuedFirst(es: seq<Event>, t: Tid, w: Ticket)
    requires es != []
    ensures EnqueuedBy(es, t, w) <==> (es[0].Enqueue? && es[0].t == t && es[0].w == w) || EnqueuedBy(es[1..], t, w)
  {
    assert forall e :: e in es <==> e == es[0] || e in es[1..];
    if es[0].Enqueue? && es[0].t == t && es[0].w == w { assert es[0] == Enqueue(t, es[0].c, w); }
  }

  /** The owner of a ticket is the one thread that enqueued it, whatever came after. */
  lemma {:induction false} OwnerEnqueued(st: State, es: seq<Event>, w: Ticket, t: Tid)
    requires Inv(st) && ValidRun(st, es)
    ensures Owner(Run(st, es), w) == Some(t) <==> Owner(st, w) == Some(t) || EnqueuedBy(es, t, w)
    ensures w in st.owner ==> Owner(Run(st, es), w) == Owner(st, w)
    decreases |es|
  {
    if es != [] {
      StepPreserves(st, es[0]);
      assert OwnerInv(st, w);
      OwnerStep(st, es[0], w);
      EnqueuedFirst(es, t, w);
      OwnerEnqueued(Step(st, es[0]), es[1..], w, t);
    }
  }

  function Owner(st: State, w: Ticket): Option<Tid> {
    if w in st.owner then Some(st.owner[w]) else None
  }

  lemma OwnerStep(st: State, e: Event, w: Ticket)
    requires Enabled(st, e) && OwnerInv(st, w)
    ensures Owner(Step(st, e), w) == if e.Enqueue? && e.w == w then Some(e.t) else Owner(st, w)
    ensures w in st.owner ==> !(e.Enqueue? && e.w == w)
  {}

  /** A signal is with exactly one of three: the thread that makes it, the semaphore of the
      ticket, or the waiter it has woken. */
  ghost predicate Delivered(st: State, w: Ticket) {
    && w in st.owner
    && (  (InFlight(st, w) && UnitsOf(st, w) == 0 && w !in st.woken)
       || (!InFlight(st, w) && UnitsOf(st, w) == 1 && w !in st.woken)
       || (!InFlight(st, w) && UnitsOf(st, w) == 0 && w in st.woken))
  }

  /** Who can still wake on a signalled ticket, and when it can. */
  ghost predicate OnlyOwnerWakes(st: State, w: Ticket)
    requires w in st.owner
  {
    && (forall u: Tid :: Enabled(st, Wake(u)) && PcOf(st, u) == Waiting(w) ==> u == st.owner[w] && w !in st.woken)
    && (w !in st.woken ==> Carries(PcOf(st, st.owner[w]), w))
    && (UnitsOf(st, w) == 1 && PcOf(st, st.owner[w]) == Waiting(w) ==> Enabled(st, Wake(st.owner[w])))
  }

  lemma SignalDelivered(st: State, w: Ticket)
    requires Inv(st) && Signalled(st, w)
    ensures Delivered(st, w) && OnlyOwnerWakes(st, w)
  {
    var c: CondId :| w in Of(st.signalled, c);
    assert FifoInv(st, c) && w in Of(st.enqueued, c) && OwnerInv(st, w) && PhaseInv(st, w);
    if InFlight(st, w) {
      var t: Tid :| PcOf(st, t) == Signalling(w);
      assert SignalInv(st, t);
    }
    forall u: Tid | PcOf(st, u) == Waiting(w) ensures u == st.owner[w] && w !in st.woken {
      assert CarrierInv(st, u) && Carries(PcOf(st, u), w);
    }
  }

  lemma {:induction false} SignalledStays(st: State, es: seq<Event>, w: Ticket)
    requires ValidRun(st, es) && Signalled(st, w)
    ensures Signalled(Run(st, es), w)
    decreases |es|
  {
    if es != [] {
      SignalledStep(st, es[0], w);
      SignalledStays(Step(st, es[0]), es[1..], w);
    }
  }

  /** `cond_signal` wakes exactly the longest waiter.  Of all that were enqueued on the condition,
      those before `w` had their signals and those after it had none; from this signal on, in
      every run that follows, the signal is kept until the thread that enqueued `w` takes it, no
      other thread can wake on it, and that thread can as soon as it waits and the up is done. */
  lemma SignalWakesOldest(es: seq<Event>, t: Tid, c: CondId, fs: seq<Event>)
    requires ValidRun(FRESH, es) && Enabled(Run(FRESH, es), PopSignal(t, c))
    requires ValidRun(Step(Run(FRESH, es), PopSignal(t, c)), fs)
    ensures var st := Run(FRESH, es); var all, k := Of(st.enqueued, c), |Of(st.signalled, c)|;
            && k < |all|
            && (forall i | 0 <= i < |all| :: Signalled(st, all[i]) <==> i < k)
            && var end, w := Run(Step(st, PopSignal(t, c)), fs), all[k];
               && w in st.owner && EnqueuedBy(es, st.owner[w], w)
               && Delivered(end, w) && end.owner[w] == st.owner[w] && OnlyOwnerWakes(end, w)
  {
    var st := Run(FRESH, es);
    FreshInv();
    RunPreserves(FRESH, es);
    OldestInQueue(st, c);
    var st1, w := Step(st, PopSignal(t, c)), Of(st.queues, c)[0];
    StepPreserves(st, PopSignal(t, c));
    SignalledStep(st, PopSignal(t, c), w);
    SignalledStays(st1, fs, w);
    RunPreserves(st1, fs);
    SignalDelivered(st1, w);
    SignalDelivered(Run(st1, fs), w);
    OwnerEnqueued(FRESH, es, w, st.owner[w]);
    OwnerEnqueued(st1, fs, w, st.owner[w]);
  }

  /** The queue is what was enqueued and has not been signalled. */
  lemma OldestInQueue(st: State, c: CondId)
    requires Inv(st)
    ensures var all, k := Of(st.enqueued, c), |Of(st.signalled, c)|;
            && k <= |all| && all[k..] == Of(st.queues, c)
            && forall i | 0 <= i < |all| :: Signalled(st, all[i]) <==> i < k
  {
    assert FifoInv(st, c);
    var all, k := Of(st.enqueued, c), |Of(st.signalled, c)|;
    forall i | 0 <= i < |all| ensures Signalled(st, all[i]) <==> i < k {
      if i < k {
        assert all[i] in Of(st.signalled, c);
      } else {
        assert all[i] in Of(st.queues, c);
        QueuedIsFresh(st, c, all[i]);
      }
    }
  }

  /** A thread leaves the wait only after the signal of its own ticket, and once for each. */
  lemma WakeNeedsSignal(es: seq<Event>, t: Tid)
    requires ValidRun(FRESH, es) && Enabled(Run(FRESH, es), Wake(t))
    ensures var st := Run(FRESH, es); var w := PcOf(st, t).ticket;
            && Signalled(st, w) && w !in st.woken && EnqueuedBy(es, t, w)
  {
    FreshInv();
    RunPreserves(FRESH, es);
    var st := Run(FRESH, es);
    var w := PcOf(st, t).ticket;
    assert PhaseInv(st, w) && CarrierInv(st, t) && Carries(PcOf(st, t), w);
    OwnerEnqueued(FRESH, es, w, t);
  }

  predicate AwaitingLock(pc: Pc) {
    pc.Waiting? || pc == Acquiring || (pc.Leaving? && pc.wait.Some?)
  }

  /** `cond_wait` returns only after taking the lock again: from the moment the thread gives
      the lock up, it stays out until it passes the down on the lock. */
  lemma {:induction false} ReturnNeedsLock(st: State, es: seq<Event>, t: Tid)
    requires ValidRun(st, es) && AwaitingLock(PcOf(st, t)) && Pass(t) !in es
    ensures AwaitingLock(PcOf(Run(st, es), t))
    decreases |es|
  {
    if es != [] {
      StaysOut(st, es[0], t);
      ReturnNeedsLock(Step(st, es[0]), es[1..], t);
    }
  }

  lemma StaysOut(st: State, e: Event, t: Tid)
    requires Enabled(st, e) && AwaitingLock(PcOf(st, t)) && e != Pass(t)
    ensures AwaitingLock(PcOf(Step(st, e), t))
  {}

  // ---------------------------------------------------------------- what the steps do

  /** `lock_acquire` gets a free lock, and `lock_release` frees it. */
  lemma LockCycle(st: State, t: Tid)
    requires Inv(st) && PcOf(st, t) == Acquiring && st.value > 0
    ensures Enabled(st, Pass(t))
    ensures var st1 := Step(st, Pass(t)); Enabled(st1, SetHolder(t)) && st1.value == 0
    ensures var st2 := Step(Step(st, Pass(t)), SetHolder(t));
            PcOf(st2, t) == Inside && st2.value == 0 && st2.holder == Some(t) && Enabled(st2, Release(t))
    ensures var st3 := Step(Step(Step(st, Pass(t)), SetHolder(t)), Release(t));
            st3.holder == None && st3.value == 0 && Enabled(st3, Post(t))
    ensures var st4 := Step(Step(Step(Step(st, Pass(t)), SetHolder(t)), Release(t)), Post(t));
            PcOf(st4, t) == Outside && st4.value == 1 && st4.holder == None
  {
    assert LockInv(st);
  }

  /** A thread outside may ask for the lock and waits for it to be free; one that only tries gets it
      exactly if it is free. */
  lemma AskForLock(st: State, t: Tid)
    requires Inv(st) && PcOf(st, t) == Outside
    ensures Enabled(st, Acquire(t)) && PcOf(Step(st, Acquire(t)), t) == Acquiring
    ensures Step(st, Acquire(t)).value == st.value && Step(st, Acquire(t)).holder == st.holder
    ensures Enabled(st, TryAcquire(t))
    ensures var st' := Step(st, TryAcquire(t));
            if st.value > 0 then PcOf(st', t) == Taken && st'.value == 0 else st' == st
  {
    assert LockInv(st);
  }

  /** A thread that may take a step gets somewhere by it, unless it is a try for a lock that is not
      free: a down that has to block is no step, and neither is a release by a thread not at one. */
  lemma StepsMove(st: State, e: Event)
    requires Enabled(st, e)
    ensures PcOf(Step(st, e), e.t) == PcOf(st, e.t) <==> e.TryAcquire? && st.value == 0
  {
  }

  /** `cond_wait` up to the sleep: the thread's entry is the last on the queue, without a unit, and
      the lock is free. */
  lemma WaitCycle(st: State, t: Tid, c: CondId, w: Ticket)
    requires Inv(st) && PcOf(st, t) == Inside && w !in st.units
    ensures Enabled(st, Enqueue(t, c, w))
    ensures var st1 := Step(st, Enqueue(t, c, w));
            && Enabled(st1, ReleaseToWait(t)) && st1.holder == Some(t) && UnitsOf(st1, w) == 0
            && Of(st1.queues, c) == Of(st.queues, c) + [w] && Of(st1.enqueued, c) == Of(st.enqueued, c) + [w]
    ensures var st2 := Step(Step(st, Enqueue(t, c, w)), ReleaseToWait(t)); Enabled(st2, Post(t)) && st2.holder == None
    ensures var st3 := Step(Step(Step(st, Enqueue(t, c, w)), ReleaseToWait(t)), Post(t));
            && PcOf(st3, t) == Waiting(w) && st3.value == 1 && st3.holder == None && UnitsOf(st3, w) == 0
            && Of(st3.queues, c) == Of(st.queues, c) + [w]
  {
    assert HolderInv(st) && Holds(PcOf(st, t)) && Owns(PcOf(st, t));
    OneOwner(st, t, t);
  }

  /** `cond_signal` takes the first entry off the queue and gives it a unit. */
  lemma SignalCycle(st: State, t: Tid, c: CondId)
    requires Inv(st) && PcOf(st, t) == Inside && Of(st.queues, c) != []
    ensures Enabled(st, PopSignal(t, c))
    ensures var st1, q := Step(st, PopSignal(t, c)), Of(st.queues, c);
            && Enabled(st1, PostSignal(t)) && Of(st1.queues, c) == q[1..]
            && Of(st1.signalled, c) == Of(st.signalled, c) + [q[0]]
    ensures var st2, q := Step(Step(st, PopSignal(t, c)), PostSignal(t)), Of(st.queues, c);
            && PcOf(st2, t) == Inside && st2.holder == Some(t) && st2.value == 0
            && UnitsOf(st2, q[0]) == 1 && Of(st2.queues, c) == q[1..]
  {
    assert HolderInv(st) && Holds(PcOf(st, t)) && Owns(PcOf(st, t));
    OneOwner(st, t, t);
    var w := Of(st.queues, c)[0];
    QueuedIsFresh(st, c, w);
    assert PhaseInv(st, w);
  }

  /** A waiter with a unit takes it and asks for the lock again. */
  lemma WakeCycle(st: State, t: Tid)
    requires Inv(st) && PcOf(st, t).Waiting?
    ensures var w := PcOf(st, t).ticket;
            && (Enabled(st, Wake(t)) <==> UnitsOf(st, w) == 1)
            && (UnitsOf(st, w) == 1 ==>
                var st' := Step(st, Wake(t));
                PcOf(st', t) == Acquiring && UnitsOf(st', w) == 0 && w in st'.woken
                && st'.value == st.value && st'.holder == st.holder)
  {
    assert PhaseInv(st, PcOf(st, t).ticket);
  }

  /** No step moves another thread, or touches what is not its business. */
  lemma LeftAlone(st: State, e: Event, u: Tid, w: Ticket, c: CondId)
    requires Enabled(st, e)
    ensures var st' := Step(st, e);
            && (u != e.t ==> PcOf(st', u) == PcOf(st, u))
            && (!e.TryAcquire? && !e.Pass? && !e.Post? ==> st'.value == st.value)
            && (!((e.Enqueue? || e.PopSignal?) && e.c == c) ==> Of(st'.queues, c) == Of(st.queues, c))
            && (!e.Enqueue? && PcOf(st, e.t) != Waiting(w) && PcOf(st, e.t) != Signalling(w) ==>
                UnitsOf(st', w) == UnitsOf(st, w))
  {}

  // ---------------------------------------------------------------- broadcast

  /** In the loop of `cond_broadcast` thread `t` does nothing but signal `c`. */
  predicate OnlySignals(es: seq<Event>, t: Tid, c: CondId) {
    forall e | e in es && e.t == t :: e == PopSignal(t, c) || e == PostSignal(t)
  }

  function SignalsBy(es: seq<Event>, t: Tid, c: CondId): nat {
    if es == [] then 0 else (if es[0] == PopSignal(t, c) then 1 else 0) + SignalsBy(es[1..], t, c)
  }

  /** However the other threads run in between, each round signals the next waiter of those that
      were there at the start: nobody joins or leaves the queue in the meantime, so after as many
      rounds as there were waiters all of them have their signals, oldest first. */
  lemma BroadcastWakesAll(st: State, es: seq<Event>, t: Tid, c: CondId)
    requires Inv(st) && ValidRun(st, es) && Signaller(PcOf(st, t)) && OnlySignals(es, t, c)
    ensures var end, q, k := Run(st, es), Of(st.queues, c), SignalsBy(es, t, c);
            && k <= |q| && Of(end.queues, c) == q[k..] && Of(end.signalled, c) == Of(st.signalled, c) + q[..k]
            && (PcOf(end, t) == Inside ==> (Enabled(end, PopSignal(t, c)) <==> k < |q|))
            && forall w | w in q[..k] :: Delivered(end, w)
  {
    var end, q, k := Run(st, es), Of(st.queues, c), SignalsBy(es, t, c);
    BroadcastQueue(st, es, t, c);
    RunPreserves(st, es);
    assert HolderInv(end);
    forall w | w in q[..k] ensures Delivered(end, w) {
      assert w in Of(end.signalled, c);
      SignalDelivered(end, w);
    }
  }

  predicate Signaller(pc: Pc) { pc == Inside || pc.Signalling? }

  lemma {:induction false} BroadcastQueue(st: State, es: seq<Event>, t: Tid, c: CondId)
    requires Inv(st) && ValidRun(st, es) && Signaller(PcOf(st, t)) && OnlySignals(es, t, c)
    ensures var end, q, k := Run(st, es), Of(st.queues, c), SignalsBy(es, t, c);
            && k <= |q| && Of(end.queues, c) == q[k..] && Of(end.signalled, c) == Of(st.signalled, c) + q[..k]
            && Signaller(PcOf(end, t))
    decreases |es|
  {
    if es != [] {
      StepPreserves(st, es[0]);
      BroadcastStep(st, es[0], t, c);
      BroadcastQueue(Step(st, es[0]), es[1..], t, c);
      if es[0] == PopSignal(t, c) {
        NextSignal(Of(st.signalled, c), Of(st.queues, c), SignalsBy(es[1..], t, c));
      }
    }
  }

  lemma NextSignal(signalled: seq<Ticket>, q: seq<Ticket>, k: nat)
    requires k < |q|
    ensures q[1..][k..] == q[k + 1..] && signalled + [q[0]] + q[1..][..k] == signalled + q[..k + 1]
  {}

  lemma BroadcastStep(st: State, e: Event, t: Tid, c: CondId)
    requires HolderInv(st) && Enabled(st, e) && Signaller(PcOf(st, t))
    requires e.t == t ==> e == PopSignal(t, c) || e == PostSignal(t)
    ensures var st1, q := Step(st, e), Of(st.queues, c);
            && Signaller(PcOf(st1, t))
            && (e == PopSignal(t, c) ==> q != [] && Of(st1.queues, c) == q[1..]
                                         && Of(st1.signalled, c) == Of(st.signalled, c) + [q[0]])
            && (e != PopSignal(t, c) ==> st1.queues == st.queues && st1.signalled == st.signalled)
  {
    assert st.holder == Some(t);
  }
}
