/** Thread termination and Thread.join: which joiners are woken, and when the joiner
    table can be trusted. */
module SchedulingJoins {
  import opened Options
  import opened Scheduling
  import opened Sequences
  import opened SchedulingInvariant
  import opened SchedulingTheorems

  predicate Waiting<T(==)>(s: Sched<T>, t: T)
    requires t in s.info
  {
    s.info[t].state == Suspended || s.info[t].state == Timer
  }

  function WaitingOf<T(==)>(s: Sched<T>, order: seq<T>): seq<T>
    requires forall t | t in order :: t in s.info
  {
    if order == [] then []
    else (if Waiting(s, order[0]) then [order[0]] else []) + WaitingOf(s, order[1..])
  }

  lemma {:induction false} WaitingOfFrame<T>(s: Sched<T>, r: Sched<T>, order: seq<T>)
    requires forall t | t in order :: t in s.info && t in r.info && s.info[t] == r.info[t]
    ensures WaitingOf(s, order) == WaitingOf(r, order)
  {
    if order != [] { WaitingOfFrame(s, r, order[1..]); }
  }

  function Wake<T(==)>(s: Sched<T>, t: T): Info
    requires t in s.info
  {
    if Waiting(s, t) then s.info[t].(state := Active) else s.info[t]
  }

  lemma ResumeExact<T>(s: Sched<T>, t: T)
    requires t in s.info
    ensures var r := Resume(s, t);
      && r == s.(active := r.active, timers := r.timers, info := r.info)
      && r.active == s.active + WaitingOf(s, [t])
      && r.info == s.info[t := Wake(s, t)]
  {
    assert [t][1..] == [];
  }

  lemma WaitingOfFirst<T>(s: Sched<T>, order: seq<T>)
    requires order != [] && forall t | t in order :: t in s.info
    ensures s.active + WaitingOf(s, [order[0]]) + WaitingOf(s, order[1..]) == s.active + WaitingOf(s, order)
  {
    var first := if Waiting(s, order[0]) then [order[0]] else [];
    assert WaitingOf(s, [order[0]]) == first by {
      assert [order[0]][1..] == [] && WaitingOf(s, []) == [];
      assert first + [] == first;
    }
    Associates(s.active, first, WaitingOf(s, order[1..]));
  }

  lemma Associates<T>(a: seq<T>, b: seq<T>, c: seq<T>)
    ensures a + b + c == a + (b + c)
  {
  }

  /** Only the listed threads that are waiting change, and they join the active queue in
      the listed order. */
  lemma {:induction false} ResumeAllExact<T>(s: Sched<T>, order: seq<T>)
    requires Distinct(order) && forall t | t in order :: t in s.info
    ensures var r := ResumeAll(s, order);
      && r == s.(active := r.active, timers := r.timers, info := r.info)
      && r.active == s.active + WaitingOf(s, order)
      && r.info.Keys == s.info.Keys
      && (forall t | t in s.info :: r.info[t] == if t in order then Wake(s, t) else s.info[t])
    decreases order
  {
    if order != [] {
      var t, rest, m := order[0], order[1..], Resume(s, order[0]);
      assert t !in rest && forall u :: u in order <==> u == t || u in rest by {
        assert order == [t] + rest;
      }
      ResumeExact(s, t);
      ResumeAllExact(m, rest);
      WaitingOfFrame(s, m, rest);
      WaitingOfFirst(s, order);
    }
  }

  function Staying<T(==)>(q: seq<T>, gone: set<T>): seq<T> {
    if q == [] then [] else (if q[0] in gone then [] else [q[0]]) + Staying(q[1..], gone)
  }

  lemma {:induction false} StayingMembers<T>(q: seq<T>, gone: set<T>)
    requires Distinct(q)
    ensures Distinct(Staying(q, gone))
    ensures forall u :: u in Staying(q, gone) <==> u in q && u !in gone
  {
    if q != [] {
      StayingMembers(q[1..], gone);
      assert q == [q[0]] + q[1..];
    }
  }

  lemma {:induction false} NobodyGone<T>(q: seq<T>, gone: set<T>)
    requires forall u | u in q :: u !in gone
    ensures Staying(q, gone) == q
  {
    if q != [] { NobodyGone(q[1..], gone); }
  }

  lemma {:induction false} RemoveLeaves<T>(q: seq<T>, t: T)
    requires Distinct(q)
    ensures Remove(q, t) == Staying(q, {t})
  {
    if q != [] {
      if q[0] == t { NobodyGone(q[1..], {t}); } else { RemoveLeaves(q[1..], t); }
    }
  }

  lemma {:induction false} StayingTwice<T>(q: seq<T>, a: set<T>, b: set<T>)
    ensures Staying(Staying(q, a), b) == Staying(q, a + b)
  {
    if q != [] {
      StayingTwice(q[1..], a, b);
      var rest := Staying(q[1..], a);
      if q[0] in a {
        assert Staying(q, a) == rest;
      } else {
        assert Staying(q, a) == [q[0]] + rest && ([q[0]] + rest)[1..] == rest;
      }
    }
  }

  function Sleepers<T(==)>(s: Sched<T>, order: seq<T>): set<T>
    requires forall t | t in order :: t in s.info
  {
    set t | t in order && s.info[t].state == Timer
  }

  /** The listed threads that sleep are off the timer list, the others stay in their order. */
  lemma {:induction false} ResumeAllOffTimers<T>(s: Sched<T>, order: seq<T>)
    requires Distinct(order) && Distinct(s.timers) && forall t | t in order :: t in s.info
    ensures ResumeAll(s, order).timers == Staying(s.timers, Sleepers(s, order))
    decreases order
  {
    if order == [] {
      NobodyGone(s.timers, {});
      assert Sleepers(s, order) == {};
    } else {
      var t, rest, m := order[0], order[1..], Resume(s, order[0]);
      ResumeExact(s, t);
      var asleep := if s.info[t].state == Timer then {t} else {};
      assert t !in rest && order == [t] + rest;
      assert asleep + Sleepers(m, rest) == Sleepers(s, order);
      if s.info[t].state == Timer { RemoveLeaves(s.timers, t); } else { NobodyGone(s.timers, {}); }
      assert m.timers == Staying(s.timers, asleep);
      StayingMembers(s.timers, asleep);
      ResumeAllOffTimers(m, rest);
      StayingTwice(s.timers, asleep, Sleepers(m, rest));
    }
  }

  /** When a thread dies its joiners wake: after Bury the thread is dead and in no table,
      every recorded joiner that was waiting is active and queued behind the threads that
      already were, and no other thread changes state. */
  predicate Woken<T(==)>(s: Sched<T>, t: T, order: seq<T>, r: Sched<T>)
    requires t in s.info && forall u | u in order :: u in s.info
  {
    && r.info.Keys == s.info.Keys && r.info[t].state == Dead
    && t !in r.joiners && r.joiners == s.joiners - {t} && r.threads == s.threads - {t}
    && r.active == s.active + WaitingOf(s.(info := s.info[t := s.info[t].(state := Dead)]), order)
    && (forall u | u in s.info && u != t && u in Recorded(s, t) && Waiting(s, u) ::
          r.info[u].state == Active && u in r.active)
    && (forall u | u in s.info && u != t && !(u in Recorded(s, t) && Waiting(s, u)) ::
          r.info[u] == s.info[u])
  }

  lemma BuryWakes<T>(s: Sched<T>, t: T, order: seq<T>)
    requires t in s.info && IsOrder(s, t, order) && forall u | u in order :: u in s.info
    ensures Woken(s, t, order, Bury(s, t, order))
    ensures var r := Bury(s, t, order);
      r.joining == s.joining && r.running == s.running && r.inside == s.inside
  {
    var d, k := MarkDead(s, t), s.(info := s.info[t := s.info[t].(state := Dead)]);
    ResumeAllExact(d, order);
    WaitingOfFrame(d, k, order);
    forall u | u in s.info ensures u in order <==> u in Recorded(s, t) {
      assert u in order <==> u in (set v | v in order);
    }
    WaitingMembers(d, order);
  }

  lemma {:induction false} WaitingMembers<T>(s: Sched<T>, order: seq<T>)
    requires forall t | t in order :: t in s.info
    ensures forall t | t in order && Waiting(s, t) :: t in WaitingOf(s, order)
  {
    if order != [] {
      WaitingMembers(s, order[1..]);
      assert order == [order[0]] + order[1..];
    }
  }

  lemma KillWakesJoiners<T>(s: Sched<T>, t: T, order: seq<T>)
    requires Inv(s) && Enabled(s, OpKill(t, order)) && s.info[t].state != Dead
    ensures forall u | u in order :: u in s.info
    ensures Woken(Unlink(s, t), t, order, Step(s, OpKill(t, order)))
    ensures Step(s, OpKill(t, order)).running == s.running && Step(s, OpKill(t, order)).inside
    ensures Unlink(s, t).active == s.active
    ensures forall u | u in s.timers && u != t :: u in Unlink(s, t).timers
  {
    RecordedKnown(s, t, order);
    UnlinkInv(s, t);
    BuryWakes(Unlink(s, t), t, order);
    if s.info[t].state == Timer { RemoveFacts(s.timers, t); }
  }

  lemma TerminateWakesJoiners<T>(s: Sched<T>, order: seq<T>)
    requires Inv(s) && Enabled(s, OpTerminate(order))
    ensures forall u | u in order :: u in s.info
    ensures Woken(s, s.running.value, order, Step(s, OpTerminate(order)))
    ensures Step(s, OpTerminate(order)).running == None && !Step(s, OpTerminate(order)).inside
  {
    RecordedKnown(s, s.running.value, order);
    var m := s.(running := None, inside := false);
    BuryWakes(m, s.running.value, order);
    WaitingOfFrame(
      s.(info := s.info[s.running.value := s.info[s.running.value].(state := Dead)]),
      m.(info := m.info[s.running.value := m.info[s.running.value].(state := Dead)]), order);
  }

  // ----- Nobody is stranded in a join -----

  /** A live thread inside a join is recorded under its target while the target lives,
      and is active, so about to return, once the target is dead. */
  predicate JoinsKept<T(==)>(s: Sched<T>)
    requires Wf(s)
  {
    forall t | t in s.joining && s.info[t].state != Dead ::
      var target := s.joining[t];
      if s.info[target].state == Dead then s.info[t].state == Active else t in Recorded(s, target)
  }

  /** What a caller of join can check first: the third branch of Thread_join is not taken,
      or it happens to write a key that is right or already there. */
  predicate JoinIsRecorded<T(==)>(s: Sched<T>, target: T)
    requires s.running.Some?
  {
    || target !in s.joiners
    || s.joiners[target].One?
    || s.running.value in s.joiners[target].joiners
    || s.running.value == target
  }

  lemma RecordedJoinKeeps<T>(s: Sched<T>, target: T)
    requires Wf(s) && JoinsKept(s) && Free(s) && target in s.info && s.info[target].state != Dead
    requires s.running.value in s.info && s.info[s.running.value].state != Dead
    requires JoinIsRecorded(s, target) && Wf(Join(s, target))
    ensures JoinsKept(Join(s, target))
  {
    var t, r := s.running.value, Join(s, target);
    assert Recorded(s, target) + {t} <= Recorded(r, target);
    forall u | u in r.joining && r.info[u].state != Dead
      ensures if r.info[r.joining[u]].state == Dead then r.info[u].state == Active
              else u in Recorded(r, r.joining[u])
    {
      if u != t { assert s.joining[u] == r.joining[u]; }
    }
  }

  lemma UnrecordedJoinBreaks<T>(s: Sched<T>, target: T)
    requires Wf(s) && Free(s) && target in s.info && s.info[target].state != Dead
    requires s.running.value in s.info && s.info[s.running.value].state != Dead
    requires !JoinIsRecorded(s, target) && Wf(Join(s, target))
    ensures !JoinsKept(Join(s, target))
  {
    var t, r := s.running.value, Join(s, target);
    assert r.joining[t] == target && t !in Recorded(r, target);
    assert r.info[target].state != Dead && r.info[t].state != Dead;
  }

  /** Joining a live target keeps the guarantee exactly when the caller gets recorded. */
  lemma JoinKeptIff<T>(s: Sched<T>, target: T)
    requires Inv(s) && JoinsKept(s) && Free(s) && target in s.info && s.info[target].state != Dead
    ensures Inv(Join(s, target)) && (JoinsKept(Join(s, target)) <==> JoinIsRecorded(s, target))
  {
    JoinInv(s, target);
    if JoinIsRecorded(s, target) {
      RecordedJoinKeeps(s, target);
    } else {
      UnrecordedJoinBreaks(s, target);
    }
  }

  lemma BuryKeepsJoins<T>(s: Sched<T>, t: T, order: seq<T>)
    requires Wf(s) && JoinsKept(s) && t in s.info && s.info[t].state != Dead
    requires forall u | u in s.joiners :: s.info[u].state != Dead
    requires IsOrder(s, t, order) && forall u | u in order :: u in s.info
    requires Wf(Bury(s, t, order))
    ensures JoinsKept(Bury(s, t, order))
  {
    BuryWakes(s, t, order);
    var r := Bury(s, t, order);
    forall u | u in r.joining && r.info[u].state != Dead
      ensures if r.info[r.joining[u]].state == Dead then r.info[u].state == Active
              else u in Recorded(r, r.joining[u])
    {
      var target := s.joining[u];
      assert u != t && s.info[u].state != Dead;
    }
  }

  /** A step that kills nobody, records nobody and puts no thread to sleep that is in a
      join on a dead target. */
  lemma JoinsFrame<T>(s: Sched<T>, r: Sched<T>)
    requires Wf(s) && JoinsKept(s) && Wf(r)
    requires s.info.Keys <= r.info.Keys && r.joiners == s.joiners
    requires forall t | t in r.joining :: t in s.joining && r.joining[t] == s.joining[t]
    requires forall t | t in s.info :: s.info[t].state == Dead <==> r.info[t].state == Dead
    requires forall t | t in r.joining && s.info[t].state == Active ::
      r.info[t].state == Active || s.info[s.joining[t]].state != Dead
    ensures JoinsKept(r)
  {
  }

  lemma UnlinkKeepsJoins<T>(s: Sched<T>, t: T)
    requires Inv(s) && JoinsKept(s) && t in s.info && s.info[t].state != Dead
    ensures Wf(Unlink(s, t)) && JoinsKept(Unlink(s, t))
    ensures forall u | u in s.joiners :: u in s.info && s.info[u].state != Dead
  {
    UnlinkInv(s, t);
  }

  lemma KillKeepsJoins<T>(s: Sched<T>, t: T, order: seq<T>)
    requires Inv(s) && JoinsKept(s) && Enabled(s, OpKill(t, order))
    ensures Inv(Step(s, OpKill(t, order))) && JoinsKept(Step(s, OpKill(t, order)))
  {
    RecordedKnown(s, t, order);
    if s.info[t].state != Dead {
      UnlinkKeepsJoins(s, t);
      KillInv(s, t, order);
      BuryKeepsJoins(Unlink(s, t), t, order);
    }
  }

  lemma TerminateKeepsJoins<T>(s: Sched<T>, order: seq<T>)
    requires Inv(s) && JoinsKept(s) && Enabled(s, OpTerminate(order))
    ensures Inv(Step(s, OpTerminate(order))) && JoinsKept(Step(s, OpTerminate(order)))
  {
    RecordedKnown(s, s.running.value, order);
    TerminateInv(s, order);
    BuryKeepsJoins(s.(running := None, inside := false), s.running.value, order);
  }

  lemma ChooseFrame<T>(s: Sched<T>)
    requires Known(s)
    ensures var r := Choose(s);
      r.info == s.info && r.joiners == s.joiners && r.joining == s.joining
  {
  }

  lemma PickKeepsJoins<T>(s: Sched<T>, ticks: nat)
    requires Inv(s) && JoinsKept(s)
    ensures Inv(Pick(s, ticks)) && JoinsKept(Pick(s, ticks))
  {
    var m := Splice(s, ticks);
    SpliceInv(s, ticks);
    SpliceExact(s, ticks);
    JoinsFrame(s, m);
    ChooseInv(m);
    ChooseFrame(m);
  }

  lemma ResumeKeepsJoins<T>(s: Sched<T>, t: T)
    requires Inv(s) && JoinsKept(s) && t in s.info && Wf(Resume(s, t))
    ensures JoinsKept(Resume(s, t))
  {
    ResumeExact(s, t);
    JoinsFrame(s, Resume(s, t));
  }

  lemma RejoinKeepsJoins<T>(s: Sched<T>)
    requires Inv(s) && JoinsKept(s) && Enabled(s, OpRejoin) && Wf(Rejoin(s))
    ensures JoinsKept(Rejoin(s))
  {
    JoinsFrame(s, Rejoin(s));
  }

  lemma QuietStepKeepsJoins<T>(s: Sched<T>, op: Op<T>)
    requires Inv(s) && JoinsKept(s) && Enabled(s, op) && Wf(Step(s, op))
    requires op.OpStart? || op.OpYield? || op.OpSuspend? || op.OpSleep?
    ensures JoinsKept(Step(s, op))
  {
    JoinsFrame(s, Step(s, op));
  }

  lemma StepKeepsJoins<T>(s: Sched<T>, op: Op<T>)
    requires Inv(s) && JoinsKept(s) && Enabled(s, op)
    requires op.OpJoin? && s.info[op.target].state != Dead ==> JoinIsRecorded(s, op.target)
    ensures Inv(Step(s, op)) && JoinsKept(Step(s, op))
  {
    StepInv(s, op);
    match op
    case OpKill(t, order) => KillKeepsJoins(s, t, order);
    case OpTerminate(order) => TerminateKeepsJoins(s, order);
    case OpJoin(target) => if s.info[target].state != Dead { JoinKeptIff(s, target); }
    case OpPick(ticks) => PickKeepsJoins(s, ticks);
    case OpResume(t) => ResumeKeepsJoins(s, t);
    case OpRejoin => RejoinKeepsJoins(s);
    case _ => QuietStepKeepsJoins(s, op);
  }

  /** Every join in the run takes one of the branches that record the caller. */
  predicate JoinsRecorded<T(==)>(s: Sched<T>, ops: seq<Op<T>>)
    requires ValidRun(s, ops)
    decreases ops
  {
    ops == [] ||
    (&& (ops[0].OpJoin? && s.info[ops[0].target].state != Dead ==> JoinIsRecorded(s, ops[0].target))
     && JoinsRecorded(Step(s, ops[0]), ops[1..]))
  }

  /** In such a run no thread is ever left waiting in a join on a dead thread. */
  lemma {:induction false} NobodyStranded<T>(s: Sched<T>, ops: seq<Op<T>>)
    requires Inv(s) && JoinsKept(s) && ValidRun(s, ops) && JoinsRecorded(s, ops)
    ensures Inv(After(s, ops)) && JoinsKept(After(s, ops))
    decreases ops
  {
    if ops != [] {
      StepKeepsJoins(s, ops[0]);
      NobodyStranded(Step(s, ops[0]), ops[1..]);
    }
  }

  /** A thread asleep in a join that did not record it sleeps on when the target dies. */
  lemma UnrecordedStaysAsleep<T>(s: Sched<T>, t: T, target: T, order: seq<T>)
    requires Inv(s) && Enabled(s, OpKill(target, order)) && s.info[target].state != Dead
    requires t in s.info && t != target && s.info[t].state == Suspended && t !in Recorded(s, target)
    ensures var r := Step(s, OpKill(target, order));
      {t, target} <= r.info.Keys && r.info[target].state == Dead && r.info[t].state == Suspended
  {
    KillWakesJoiners(s, target, order);
  }

  /** Threads 1 and 2 have joined thread 0; thread 3 is about to. */
  function TwoJoined(): Sched<nat> {
    var asleep, awake := Info(Suspended, 0, 0), Info(Active, 0, 0);
    Sched([0], [], Some(3), true, map[0 := awake, 1 := asleep, 2 := asleep, 3 := awake], 0,
          {0, 1, 2, 3}, map[0 := Table({1, 2})], map[1 := 0, 2 := 0])
  }

  lemma ThirdJoinIsLost()
    ensures Inv(TwoJoined()) && JoinsKept(TwoJoined()) && Enabled(TwoJoined(), OpJoin(0))
    ensures Inv(Join(TwoJoined(), 0)) && !JoinsKept(Join(TwoJoined(), 0))
  {
    assert Inv(TwoJoined());
    JoinKeptIff(TwoJoined(), 0);
  }
}
