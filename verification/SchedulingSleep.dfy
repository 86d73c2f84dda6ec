/** What a thread that gives up control gets: how long it sleeps, and when a join lets it go. */
module SchedulingSleep {
  import opened Options
  import opened Scheduling
  import opened SchedulingInvariant
  import opened SchedulingTheorems
  import opened SchedulingJoins

  /** Nobody but `t` itself is another thread afterwards. */
  predicate OnlyChanges<T(==)>(s: Sched<T>, r: Sched<T>, t: T)
    requires t in s.info
  {
    && r.info.Keys == s.info.Keys && (forall u | u in s.info && u != t :: r.info[u] == s.info[u])
    && r.active == s.active && r.threads == s.threads
  }

  /** Control is back in the main loop, and `t` is not to run again by itself. */
  predicate GaveUp<T(==)>(r: Sched<T>, t: T) {
    !r.inside && r.running == None && t !in r.active && t in r.info && r.info[t].state != Active
  }

  lemma StartOutcome<T>(s: Sched<T>, t: T)
    requires Inv(s) && Enabled(s, OpStart(t))
    ensures var r := Step(s, OpStart(t));
      && t in r.info && r.info[t].state == Active && r.threads == s.threads + {t}
      && r.active == s.active + [t] && r.timers == s.timers
      && r.running == s.running && r.inside == s.inside
      && (forall u | u in s.info :: u in r.info && r.info[u] == s.info[u])
  {
  }

  lemma SuspendOutcome<T>(s: Sched<T>)
    requires Inv(s) && Enabled(s, OpSuspend)
    ensures var t, r := s.running.value, Step(s, OpSuspend);
      GaveUp(r, t) && r.info[t].state == Suspended && OnlyChanges(s, r, t) && r.timers == s.timers
  {
  }

  lemma SleepOutcome<T>(s: Sched<T>, deadline: nat)
    requires Inv(s) && Enabled(s, OpSleep(deadline))
    ensures var t, r := s.running.value, Step(s, OpSleep(deadline));
      && GaveUp(r, t) && r.info[t].state == Timer && r.info[t].deadline == deadline
      && OnlyChanges(s, r, t) && t in r.timers
  {
    StepInv(s, OpSleep(deadline));
  }

  // ----- Joining -----

  /** Joining a dead thread returns at once. Otherwise the caller is suspended, in the join. */
  lemma JoinOutcome<T>(s: Sched<T>, target: T)
    requires Inv(s) && Enabled(s, OpJoin(target))
    ensures var t, r := s.running.value, Step(s, OpJoin(target));
      if s.info[target].state == Dead then r == s && Free(r)
      else
        && GaveUp(r, t) && r.info[t].state == Suspended && OnlyChanges(s, r, t) && r.timers == s.timers
        && t in r.joining && r.joining[t] == target
  {
  }

  /** A thread that comes back to a join leaves it exactly if its target is dead, and is
      suspended again otherwise. */
  lemma RejoinOutcome<T>(s: Sched<T>)
    requires Inv(s) && Enabled(s, OpRejoin)
    ensures var t, r := s.running.value, Step(s, OpRejoin);
      if s.info[s.joining[t]].state == Dead then r == s.(joining := s.joining - {t}) && Free(r)
      else
        && GaveUp(r, t) && r.info[t].state == Suspended && OnlyChanges(s, r, t) && r.timers == s.timers
        && r.joining == s.joining
  {
  }

  predicate DeadIn<T(==)>(s: Sched<T>, t: T) {
    t in s.info && s.info[t].state == Dead
  }

  predicate Joining<T(==)>(s: Sched<T>, t: T, target: T) {
    t in s.joining && s.joining[t] == target
  }

  lemma DeadStaysDead<T>(s: Sched<T>, op: Op<T>, u: T)
    requires Inv(s) && Enabled(s, op) && DeadIn(s, u)
    ensures DeadIn(Step(s, op), u)
  {
    match op
    case OpResume(t) => ResumeExact(s, t);
    case OpKill(t, order) => if s.info[t].state != Dead { KillWakesJoiners(s, t, order); }
    case OpTerminate(order) => TerminateWakesJoiners(s, order);
    case OpPick(ticks) => SpliceExact(s, ticks); ChooseFrame(Splice(s, ticks));
    case _ =>
  }

  lemma StepKeepsJoining<T>(s: Sched<T>, op: Op<T>, t: T, target: T)
    requires Inv(s) && Enabled(s, op) && Joining(s, t, target)
    ensures Joining(Step(s, op), t, target) || DeadIn(Step(s, op), target)
  {
    match op
    case OpResume(u) => ResumeExact(s, u);
    case OpKill(u, order) =>
      RecordedKnown(s, u, order);
      if s.info[u].state != Dead { BuryWakes(Unlink(s, u), u, order); }
    case OpTerminate(order) =>
      RecordedKnown(s, s.running.value, order);
      BuryWakes(s.(running := None, inside := false), s.running.value, order);
    case OpPick(ticks) => SpliceExact(s, ticks); ChooseFrame(Splice(s, ticks));
    case _ =>
  }

  /** In no run does a thread leave a join before its target is dead. */
  lemma {:induction false} JoinOutlivesTarget<T>(s: Sched<T>, ops: seq<Op<T>>, t: T, target: T)
    requires Inv(s) && ValidRun(s, ops) && (Joining(s, t, target) || DeadIn(s, target))
    ensures Joining(After(s, ops), t, target) || DeadIn(After(s, ops), target)
    decreases ops
  {
    if ops != [] {
      StepInv(s, ops[0]);
      if DeadIn(s, target) { DeadStaysDead(s, ops[0], target); } else { StepKeepsJoining(s, ops[0], t, target); }
      JoinOutlivesTarget(Step(s, ops[0]), ops[1..], t, target);
    }
  }

  // ----- Sleeping -----

  /** Nobody resumes or kills `t`, and no pass comes as late as its deadline. */
  predicate Spares<T(==)>(op: Op<T>, t: T, deadline: Option<nat>) {
    match op
    case OpResume(u) => u != t
    case OpKill(u, order) => u != t && t !in order
    case OpTerminate(order) => t !in order
    case OpPick(ticks) => deadline.Some? ==> ticks < deadline.value
    case _ => true
  }

  function WakeTime(i: Info): Option<nat> { if i.state == Timer then Some(i.deadline) else None }

  lemma SparedStep<T>(s: Sched<T>, op: Op<T>, t: T)
    requires Inv(s) && Enabled(s, op) && t in s.info && Waiting(s, t) && Spares(op, t, WakeTime(s.info[t]))
    ensures t in Step(s, op).info && Step(s, op).info[t] == s.info[t]
  {
    match op
    case OpResume(u) => ResumeExact(s, u);
    case OpKill(u, order) =>
      if s.info[u].state != Dead {
        KillWakesJoiners(s, u, order);
        assert t in Recorded(s, u) ==> t in (set v | v in order);
      }
    case OpTerminate(order) =>
      TerminateWakesJoiners(s, order);
      assert t in Recorded(s, s.running.value) ==> t in (set v | v in order);
    case OpPick(ticks) => SpliceExact(s, ticks); ChooseFrame(Splice(s, ticks));
    case _ =>
  }

  /** In every run in which nobody resumes a thread that sleeps or is suspended, and no thread it
      has joined dies, it neither runs nor changes until a pass comes at its deadline. */
  lemma {:induction false} StaysAsleep<T>(s: Sched<T>, ops: seq<Op<T>>, t: T)
    requires Inv(s) && ValidRun(s, ops) && t in s.info && Waiting(s, t)
    requires forall op | op in ops :: Spares(op, t, WakeTime(s.info[t]))
    ensures var r := After(s, ops);
      Inv(r) && t in r.info && r.info[t] == s.info[t] && r.running != Some(t) && t !in r.active
    decreases ops
  {
    if ops != [] {
      assert ops[0] in ops;
      StepInv(s, ops[0]);
      SparedStep(s, ops[0], t);
      StaysAsleep(Step(s, ops[0]), ops[1..], t);
    }
  }

  /** A pass wakes a sleeping thread exactly if its deadline has come. */
  lemma PassWakesIff<T>(s: Sched<T>, ticks: nat, t: T)
    requires Inv(s) && t in s.info && s.info[t].state == Timer
    ensures var r := Pick(s, ticks);
      t in r.info && Inv(r) &&
      if s.info[t].deadline <= ticks then r.info[t].state == Active && (t in r.active || r.running == Some(t))
      else r.info[t] == s.info[t]
  {
    SpliceInv(s, ticks);
    SpliceExact(s, ticks);
    ChooseInv(Splice(s, ticks));
    ChooseFrame(Splice(s, ticks));
  }

  /** A thread that goes to sleep until a deadline sleeps until then, if nobody resumes it, in
      every run; and the first pass that comes no earlier wakes it. */
  lemma SleepsUntilDue<T>(s: Sched<T>, deadline: nat, ops: seq<Op<T>>, ticks: nat)
    requires Inv(s) && Enabled(s, OpSleep(deadline)) && ValidRun(Step(s, OpSleep(deadline)), ops)
    requires forall op | op in ops :: Spares(op, s.running.value, Some(deadline))
    ensures var t, r := s.running.value, After(Step(s, OpSleep(deadline)), ops);
      && Inv(r) && t in r.info && r.info[t].state == Timer && r.info[t].deadline == deadline && r.running != Some(t)
      && t in Pick(r, ticks).info
      && (Pick(r, ticks).info[t].state == Active <==> deadline <= ticks)
  {
    SleepOutcome(s, deadline);
    StepInv(s, OpSleep(deadline));
    StaysAsleep(Step(s, OpSleep(deadline)), ops, s.running.value);
    PassWakesIff(After(Step(s, OpSleep(deadline)), ops), ticks, s.running.value);
  }

  /** A thread that suspends stays suspended, if nobody resumes it, in every run. */
  lemma SuspendedUntilResumed<T>(s: Sched<T>, ops: seq<Op<T>>)
    requires Inv(s) && Enabled(s, OpSuspend) && ValidRun(Step(s, OpSuspend), ops)
    requires forall op | op in ops :: Spares(op, s.running.value, None)
    ensures var t, r := s.running.value, After(Step(s, OpSuspend), ops);
      t in r.info && r.info[t].state == Suspended && r.running != Some(t)
  {
    SuspendOutcome(s);
    StepInv(s, OpSuspend);
    StaysAsleep(Step(s, OpSuspend), ops, s.running.value);
  }

  /** With nothing on the active queue, event dispatch may sleep exactly until the first
      deadline of a sleeping thread, or for ever if nobody sleeps. */
  lemma DispatchSleepsUntilFirst<T>(s: Sched<T>)
    requires Inv(s) && s.running == None && s.active == []
    ensures if exists t | t in s.info :: s.info[t].state == Timer
      then exists t | t in s.info :: s.info[t].state == Timer && s.info[t].deadline == DispatchDeadline(s)
      else DispatchDeadline(s) == TICKS_MAX
  {
    if s.timers != [] { assert s.timers[0] in s.timers; }
  }
}
