/** Dispatch resumes only threads that wait for the event, and a sleeping thread wakes only for a
    reason. */
module Watchers {
  import opened Options
  import opened Scheduling
  import opened SchedulingInvariant
  import opened SchedulingTheorems
  import SJ = SchedulingJoins
  import opened SchedulingSleep
  import EQ = EventQueues
  import opened WaitProtocol
  import opened NoLostWakeups

  /** Whoever the registry has for the event waits for it, or is dead. */
  predicate WatcherWaits<T(==), E(==)>(s: Sys<T, E>, e: E)
    requires e in s.watcher
  {
    DeadIn(s.sched, s.watcher[e]) || (s.watcher[e] in s.waits && e in s.waits[s.watcher[e]].events)
  }

  predicate WatchersWait<T(==), E(==)>(s: Sys<T, E>) {
    forall e | e in s.watcher :: WatcherWaits(s, e)
  }

  /** A check that raises an error at line 876 while its thread watches events: they stay
      watched. */
  predicate LeavesWatchers<T(==), E(==)>(s: Sys<T, E>, op: WaitOp<T, E>)
    requires Can(s, op)
  {
    op == Raise && s.waits[Me(s)].events != []
  }

  /** What a step does to the scheduler. */
  function SchedAfter<T(==), E(==)>(s: Sys<T, E>, op: WaitOp<T, E>): Sched<T>
    requires Coherent(s) && Can(s, op)
  {
    match op
    case SchedOp(o) => Step(s.sched, o)
    case Block(deadline) => Suspend(s.sched, deadline)
    case Deliver => Wake(s).sched
    case _ => s.sched
  }

  lemma SchedAfterIs<T, E>(s: Sys<T, E>, op: WaitOp<T, E>)
    requires Coherent(s) && Can(s, op)
    ensures Next(s, op).sched == SchedAfter(s, op)
  {
  }

  lemma WakeExact<T, E>(s: Sys<T, E>, u: T)
    requires s.popped.Some? && u in s.sched.info
    ensures var e, r := s.popped.value, Wake(s).sched;
      && u in r.info
      && r.info[u] == if e in s.watcher && s.watcher[e] == u then SJ.Wake(s.sched, u) else s.sched.info[u]
  {
    var e := s.popped.value;
    if e in s.watcher && s.watcher[e] in s.sched.info { SJ.ResumeExact(s.sched, s.watcher[e]); }
  }

  lemma DeadStay<T, E>(s: Sys<T, E>, op: WaitOp<T, E>, t: T)
    requires SysInv(s) && Can(s, op) && DeadIn(s.sched, t)
    ensures DeadIn(Next(s, op).sched, t)
  {
    SchedAfterIs(s, op);
    match op
    case SchedOp(o) => DeadStaysDead(s.sched, o, t);
    case Deliver => WakeExact(s, t);
    case _ =>
  }

  lemma KilledIsDead<T>(s: Sched<T>, t: T, order: seq<T>)
    requires Inv(s) && Scheduling.Enabled(s, OpKill(t, order))
    ensures DeadIn(Step(s, OpKill(t, order)), t)
  {
    if s.info[t].state == Dead { DeadStaysDead(s, OpKill(t, order), t); } else { SJ.KillWakesJoiners(s, t, order); }
  }

  lemma WatcherStays<T, E>(s: Sys<T, E>, op: WaitOp<T, E>, e: E)
    requires SysInv(s) && Can(s, op) && !LeavesWatchers(s, op) && WatchersWait(s) && e in Next(s, op).watcher
    ensures WatcherWaits(Next(s, op), e)
  {
    if op == Watch && e == s.waits[Me(s)].events[s.waits[Me(s)].stage.watched] { return; }
    assert e in s.watcher && WatcherWaits(s, e) && Next(s, op).watcher[e] == s.watcher[e];
    if DeadIn(s.sched, s.watcher[e]) {
      DeadStay(s, op, s.watcher[e]);
    } else if op.SchedOp? && op.op.OpKill? && op.op.t == s.watcher[e] {
      KilledIsDead(s.sched, op.op.t, op.op.order);
    }
  }

  lemma RaiseLeavesWatcher<T, E>(s: Sys<T, E>)
    requires SysInv(s) && Can(s, Raise) && LeavesWatchers(s, Raise)
    ensures !WatchersWait(Next(s, Raise))
  {
    var t, r := Me(s), Next(s, Raise);
    var w := s.waits[t];
    assert InStage(ViewOf(s), t, w);
    assert s.watcher[w.events[0]] == t && s.sched.info[t].state == Active;
    assert w.events[0] in r.watcher && !WatcherWaits(r, w.events[0]);
  }

  /** A step leaves only waiting threads in the registry, exactly if it is not an error in a
      check of a thread that watches events. */
  lemma WatchersKeptIff<T, E>(s: Sys<T, E>, op: WaitOp<T, E>)
    requires SysInv(s) && Can(s, op) && WatchersWait(s)
    ensures SysInv(Next(s, op)) && (WatchersWait(Next(s, op)) <==> !LeavesWatchers(s, op))
  {
    NextInv(s, op);
    if LeavesWatchers(s, op) {
      RaiseLeavesWatcher(s);
    } else {
      forall e | e in Next(s, op).watcher ensures WatcherWaits(Next(s, op), e) { WatcherStays(s, op, e); }
    }
  }

  predicate Tidy<T(==), E(==)>(s: Sys<T, E>, ops: seq<WaitOp<T, E>>)
    requires NoLostWakeups.ValidRun(s, ops)
    decreases ops
  {
    ops == [] || (!LeavesWatchers(s, ops[0]) && Tidy(Next(s, ops[0]), ops[1..]))
  }

  lemma {:induction false} TidyRun<T, E>(s: Sys<T, E>, ops: seq<WaitOp<T, E>>)
    requires SysInv(s) && WatchersWait(s) && NoLostWakeups.ValidRun(s, ops) && Tidy(s, ops)
    ensures SysInv(NoLostWakeups.After(s, ops)) && WatchersWait(NoLostWakeups.After(s, ops))
    decreases ops
  {
    if ops != [] {
      WatchersKeptIff(s, ops[0]);
      TidyRun(Next(s, ops[0]), ops[1..]);
    }
  }

  predicate Asleep<T(==)>(s: Sched<T>, t: T) {
    t in s.info && (s.info[t].state == Suspended || s.info[t].state == Timer)
  }

  /** What may wake `t`: an event it waits for, or what spares no sleeping thread. */
  predicate Reason<T(==), E(==)>(s: Sys<T, E>, op: WaitOp<T, E>, t: T)
    requires t in s.sched.info
  {
    match op
    case Deliver => s.popped.Some? && t in s.waits && s.popped.value in s.waits[t].events
    case SchedOp(o) => !SchedulingSleep.Spares(o, t, WakeTime(s.sched.info[t]))
    case _ => false
  }

  lemma WakesForAReason<T, E>(s: Sys<T, E>, op: WaitOp<T, E>, t: T)
    requires SysInv(s) && WatchersWait(s) && Can(s, op) && Asleep(s.sched, t) && !Reason(s, op, t)
    ensures t in Next(s, op).sched.info && Next(s, op).sched.info[t] == s.sched.info[t]
  {
    SchedAfterIs(s, op);
    match op
    case SchedOp(o) => SparedStep(s.sched, o, t);
    case Deliver =>
      if s.popped.value in s.watcher { assert WatcherWaits(s, s.popped.value); }
      WakeExact(s, t);
    case _ =>
  }

  /** In every run from a state in which nobody waits, without such errors: the next step wakes a
      thread that sleeps or is suspended only if it delivers an event the thread waits for, comes
      no earlier than its deadline, resumes it, or ends a thread it has joined. */
  lemma NoSpuriousWakeup<T, E>(s: Sys<T, E>, ops: seq<WaitOp<T, E>>, op: WaitOp<T, E>, t: T)
    requires Coherent(s) && s.waits == map[] && s.popped == None && s.watcher == map[]
    requires NoLostWakeups.ValidRun(s, ops) && Tidy(s, ops)
    ensures Coherent(NoLostWakeups.After(s, ops))
    ensures var r := NoLostWakeups.After(s, ops);
      Can(r, op) && Asleep(r.sched, t) && !Reason(r, op, t) ==>
        t in Next(r, op).sched.info && Next(r, op).sched.info[t] == r.sched.info[t]
  {
    assert ViewInv(ViewOf(s));
    TidyRun(s, ops);
    var r := NoLostWakeups.After(s, ops);
    if Can(r, op) && Asleep(r.sched, t) && !Reason(r, op, t) { WakesForAReason(r, op, t); }
  }

  // ----- What a wait does to its thread -----

  /** A thread that blocks sleeps until its deadline if it has one, and is suspended otherwise. */
  lemma BlockOutcome<T, E>(s: Sys<T, E>, deadline: Option<nat>)
    requires SysInv(s) && Can(s, Block(deadline))
    ensures var t, r := Me(s), Next(s, Block(deadline));
      && Asleep(r.sched, t) && WakeTime(r.sched.info[t]) == deadline && !r.sched.inside
      && t in r.waits && r.waits[t] == s.waits[t].(stage := Parked)
  {
  }

  /** A thread that leaves a wait stays in control, and no event has it as its watcher. */
  lemma EndLeavesNothing<T, E>(s: Sys<T, E>)
    requires SysInv(s) && WatchersWait(s) && Can(s, EndWait)
    ensures var t, r := Me(s), Next(s, EndWait);
      && t !in r.waits && (forall e | e in r.watcher :: r.watcher[e] != t) && In(r, t) && r.sched == s.sched
      && (forall u | u in s.waits && u != t :: u in r.waits && r.waits[u] == s.waits[u])
      && (forall e | e in s.watcher && s.watcher[e] != t :: e in r.watcher && r.watcher[e] == s.watcher[e])
  {
    var t := Me(s);
    forall e | e in s.watcher ensures s.watcher[e] == t <==> e in s.waits[t].events {
      assert WatcherWaits(s, e);
      assert InStage(ViewOf(s), t, s.waits[t]);
    }
  }

  /** A thread whose condition does not hold is about to block again, and watches what it did. */
  lemma RecheckOutcome<T, E>(s: Sys<T, E>)
    requires SysInv(s) && Can(s, Recheck)
    ensures var t, r := Me(s), Next(s, Recheck);
      && Can(r, Block(None)) && t in r.waits && r.waits[t].events == s.waits[t].events
      && r.watcher == s.watcher && r.sched == s.sched && r.memory == s.memory && r.queue == s.queue
  {
  }

  lemma ParkedOutside<T, E>(s: Sys<T, E>, t: T)
    requires SysInv(s) && !s.sched.inside && t in s.waits
    ensures s.waits[t].stage == Parked
  {
    assert InStage(ViewOf(s), t, s.waits[t]);
  }

  lemma PassIs<T, E>(s: Sys<T, E>, ticks: nat)
    requires Coherent(s) && Can(s, SchedOp(OpPick(ticks)))
    ensures Next(s, SchedOp(OpPick(ticks))) == s.(sched := Pick(s.sched, ticks))
  {
  }

  /** The first pass that is no earlier than the deadline wakes a waiting thread. */
  lemma DeadlineEndsWait<T, E>(s: Sys<T, E>, ticks: nat, t: T)
    requires SysInv(s) && Can(s, SchedOp(OpPick(ticks))) && t in s.waits
    requires t in s.sched.info && s.sched.info[t].state == Timer && s.sched.info[t].deadline <= ticks
    ensures var r := Next(s, SchedOp(OpPick(ticks)));
      && t in r.sched.info && r.sched.info[t].state == Active && t in r.waits && r.waits[t].stage == Parked
      && (t in r.sched.active || r.sched.running == Some(t))
  {
    PassIs(s, ticks);
    PassWakesIff(s.sched, ticks, t);
    ParkedOutside(s, t);
  }

  // ----- What a watcher left behind does -----

  /** Dispatch takes an event and resumes its watcher, whoever that is. */
  lemma DispatchWakes<T, E>(s: Sys<T, E>, e: E)
    requires SysInv(s) && !s.sched.inside && s.popped == None && s.queue != [] && s.queue[0] == e
    requires e in s.watcher && Asleep(s.sched, s.watcher[e])
    ensures Can(s, TakeEvent) && SysInv(Next(s, TakeEvent)) && Can(Next(s, TakeEvent), Deliver)
    ensures var t, r := s.watcher[e], Next(Next(s, TakeEvent), Deliver).sched;
      t in r.info && r.info[t].state == Active
  {
    NextInv(s, TakeEvent);
    SchedAfterIs(s, TakeEvent);
    var a := Next(s, TakeEvent);
    SchedAfterIs(a, Deliver);
    WakeExact(a, s.watcher[e]);
  }

  lemma SleepsWatching<T, E>(s: Sys<T, E>, deadline: nat)
    requires SysInv(s) && Free(s.sched) && Can(s, Raise) && LeavesWatchers(s, Raise)
    ensures Can(Next(s, Raise), SchedOp(OpSleep(deadline))) && SysInv(Next(s, Raise))
    ensures var t, e, r := Me(s), s.waits[Me(s)].events[0], Next(Next(s, Raise), SchedOp(OpSleep(deadline)));
      && SysInv(r) && r.queue == s.queue && r.popped == None && !r.sched.inside && t !in r.waits
      && t in r.sched.info && WakeTime(r.sched.info[t]) == Some(deadline)
      && e in r.watcher && r.watcher[e] == t
  {
    var a := Next(s, Raise);
    assert InStage(ViewOf(s), Me(s), s.waits[Me(s)]);
    NextInv(s, Raise);
    NextInv(a, SchedOp(OpSleep(deadline)));
    SleepOutcome(a.sched, deadline);
  }

  /** A thread whose check raised an error, and which caught it and went to sleep until any
      deadline, is woken at once by the event it no longer waits for. */
  lemma StaleWatcherWakes<T, E>(s: Sys<T, E>, deadline: nat)
    requires SysInv(s) && Free(s.sched) && Can(s, Raise) && LeavesWatchers(s, Raise)
    requires s.queue != [] && s.queue[0] == s.waits[Me(s)].events[0]
    ensures Can(Next(s, Raise), SchedOp(OpSleep(deadline))) && SysInv(Next(s, Raise))
    ensures var t, r := Me(s), Next(Next(s, Raise), SchedOp(OpSleep(deadline)));
      && SysInv(r) && Can(r, TakeEvent) && SysInv(Next(r, TakeEvent)) && Can(Next(r, TakeEvent), Deliver)
      && Asleep(r.sched, t) && WakeTime(r.sched.info[t]) == Some(deadline) && t !in r.waits
      && var w := Next(Next(r, TakeEvent), Deliver).sched; t in w.info && w.info[t].state == Active
  {
    SleepsWatching(s, deadline);
    DispatchWakes(Next(Next(s, Raise), SchedOp(OpSleep(deadline))), s.queue[0]);
  }

  /** Thread 1 waits for event 7, which is pending, and its next check raises an error. */
  function Raising(): Sys<nat, nat> {
    Sys(Sched([], [], Some(1), true, map[1 := Info(Active, 0, 0)], 0, {1}, map[], map[]),
        EQ.Queue(Some(7), Some(7), map[7 := EQ.Pending(None)]), [7], None,
        map[7 := 1], map[1 := Wait([7], Parked)], {})
  }

  lemma RaisingCanHappen()
    ensures SysInv(Raising()) && WatchersWait(Raising()) && Free(Raising().sched)
    ensures Can(Raising(), Raise) && LeavesWatchers(Raising(), Raise)
    ensures Raising().queue[0] == Raising().waits[1].events[0]
  {
    var s := Raising();
    assert EQ.Fifo(s.memory, [7]) && Inv(s.sched);
    assert InStage(ViewOf(s), 1, s.waits[1]);
  }
}
