/** Properties of every run of the scheduler. */
module SchedulingTheorems {
  import opened Options
  import opened Scheduling
  import opened SchedulingInvariant

  // ----- Safety -----

  lemma StepInv<T>(s: Sched<T>, op: Op<T>)
    requires Inv(s) && Enabled(s, op)
    ensures Inv(Step(s, op))
  {
    match op
    case OpStart(t) => StartInv(s, t);
    case OpResume(t) => ResumeInv(s, t);
    case OpKill(t, order) => KillInv(s, t, order);
    case OpJoin(target) => JoinInv(s, target);
    case OpRejoin => RejoinInv(s);
    case OpYield => YieldInv(s);
    case OpSuspend => ParkInv(s);
    case OpSleep(deadline) => SleepInv(s, deadline);
    case OpTerminate(order) => TerminateInv(s, order);
    case OpPick(ticks) => SpliceInv(s, ticks); ChooseInv(Splice(s, ticks));
  }

  lemma YieldInv<T>(s: Sched<T>)
    requires Inv(s)
    ensures Inv(s.(inside := false))
  {
    SortedFrame(s.timers, s.info, s.info);
  }

  lemma {:induction false} RunInv<T>(s: Sched<T>, ops: seq<Op<T>>)
    requires Inv(s) && ValidRun(s, ops)
    ensures Inv(After(s, ops))
    decreases ops
  {
    if ops != [] {
      StepInv(s, ops[0]);
      RunInv(Step(s, ops[0]), ops[1..]);
    }
  }

  /** From the start of the program, whatever happens, the invariant holds. */
  lemma ReachableInv<T>(ops: seq<Op<T>>)
    requires ValidRun(Empty<T>(), ops)
    ensures Inv(After(Empty<T>(), ops))
  {
    InitInv<T>();
    RunInv(Empty<T>(), ops);
  }

  // ----- Timer expiry -----

  function Due<T(==)>(q: seq<T>, info: map<T, Info>, ticks: nat): seq<T>
    requires forall u | u in q :: u in info
  {
    if q == [] then []
    else (if info[q[0]].deadline <= ticks then [q[0]] else []) + Due(q[1..], info, ticks)
  }

  function NotDue<T(==)>(q: seq<T>, info: map<T, Info>, ticks: nat): seq<T>
    requires forall u | u in q :: u in info
  {
    if q == [] then []
    else (if info[q[0]].deadline <= ticks then [] else [q[0]]) + NotDue(q[1..], info, ticks)
  }

  lemma CutFirst<T>(q: seq<T>, n: nat)
    requires n < |q|
    ensures q[..n + 1] == [q[0]] + q[1..][..n] && q[n + 1..] == q[1..][n..]
  {
  }

  lemma {:induction false} NothingIsDue<T>(q: seq<T>, info: map<T, Info>, ticks: nat)
    requires forall u | u in q :: u in info && ticks < info[u].deadline
    ensures Due(q, info, ticks) == [] && NotDue(q, info, ticks) == q && ExpiredCount(q, info, ticks) == 0
  {
    if q != [] { NothingIsDue(q[1..], info, ticks); }
  }

  lemma {:induction false} DueIsPrefix<T>(q: seq<T>, info: map<T, Info>, ticks: nat)
    requires forall u | u in q :: u in info
    requires Sorted(q, info)
    ensures var n := ExpiredCount(q, info, ticks);
      Due(q, info, ticks) == q[..n] && NotDue(q, info, ticks) == q[n..]
  {
    if q != [] && info[q[0]].deadline <= ticks {
      DueIsPrefix(q[1..], info, ticks);
      CutFirst(q, ExpiredCount(q[1..], info, ticks));
    } else if q != [] {
      forall i | 0 < i < |q| ensures ticks < info[q[i]].deadline {
        assert TimerBefore(info[q[0]], info[q[i]]);
      }
      NothingIsDue(q, info, ticks);
    }
  }

  /** A pass moves exactly the threads whose deadline has elapsed, in timer order, behind
      the threads that are already active; nothing else changes. */
  lemma SpliceExact<T>(s: Sched<T>, ticks: nat)
    requires Inv(s)
    ensures var r := Splice(s, ticks);
      && r.active == s.active + Due(s.timers, s.info, ticks)
      && r.timers == NotDue(s.timers, s.info, ticks)
      && r.running == s.running && r.info.Keys == s.info.Keys
      && (forall t | t in s.info :: r.info[t] ==
            if s.info[t].state == Timer && s.info[t].deadline <= ticks
            then s.info[t].(state := Active) else s.info[t])
  {
    DueIsPrefix(s.timers, s.info, ticks);
    ExpiredFacts(s.timers, s.info, ticks);
    var n := ExpiredCount(s.timers, s.info, ticks);
    SplitMembers(s.timers, n);
  }

  lemma {:induction false} InsertExact<T>(q: seq<T>, info: map<T, Info>, t: T, deadline: nat)
    requires (forall u | u in q :: u in info) && Sorted(q, info)
    ensures Insert(q, info, t, deadline) ==
      Due(q, info, deadline) + [t] + NotDue(q, info, deadline)
  {
    DueIsPrefix(q, info, deadline);
    if q != [] && info[q[0]].deadline <= deadline {
      assert Sorted(q[1..], info);
      InsertExact(q[1..], info, t, deadline);
    }
  }

  /** A thread that goes to sleep is placed behind every deadline that is not later. */
  lemma SleepStable<T>(s: Sched<T>, deadline: nat)
    requires Inv(s) && s.running.Some?
    ensures Sleep(s, deadline).timers ==
      Due(s.timers, s.info, deadline) + [s.running.value] + NotDue(s.timers, s.info, deadline)
  {
    InsertExact(s.timers, s.info, s.running.value, deadline);
  }

  predicate Runnable<T(==)>(s: Sched<T>, t: T, ticks: nat)
    requires t in s.info
  {
    s.info[t].state == Active || (s.info[t].state == Timer && s.info[t].deadline <= ticks)
  }

  lemma ChooseRunsIffActive<T>(s: Sched<T>)
    requires Inv(s)
    ensures Choose(s).inside <==> exists t | t in s.info :: s.info[t].state == Active
    ensures Choose(s).inside ==> Choose(s).running.Some? && Known(Choose(s))
    ensures Choose(s).inside ==> s.info[Choose(s).running.value].state == Active
  {
    ChooseInv(s);
    if !Choose(s).inside {
      assert Choose(s).active == [] && Choose(s).running == None;
    }
  }

  /** A pass runs a thread exactly when some thread is active or has an elapsed deadline. */
  lemma PickRunsIffRunnable<T>(s: Sched<T>, ticks: nat)
    requires Inv(s)
    ensures Pick(s, ticks).inside <==> exists t | t in s.info :: Runnable(s, t, ticks)
    ensures Pick(s, ticks).inside ==>
      var running := Pick(s, ticks).running;
      running.Some? && running.value in s.info && Runnable(s, running.value, ticks)
  {
    var m := Splice(s, ticks);
    SpliceInv(s, ticks);
    SpliceExact(s, ticks);
    ChooseRunsIffActive(m);
    assert forall t | t in s.info :: Runnable(s, t, ticks) <==> m.info[t].state == Active;
  }

  lemma ChooseOrder<T>(s: Sched<T>) returns (n: nat)
    requires Known(s)
    ensures var r, q := Choose(s), Rotated(s);
      if s.active == [] then r.active == [] && r.running == s.running
      else
        && n <= |q| && (forall j :: 0 <= j < n ==> q[j] in s.info && s.info[q[j]].state == Dead)
        && (n == |q| ==> r.active == [] && r.running == None)
        && (n < |q| ==> r.running == Some(q[n]) && r.active == q[n + 1..])
        && (n < |q| ==> q[n] in s.info && s.info[q[n]].state != Dead)
  {
    var q := Rotated(s);
    n := DropDeadFacts(q, s.info);
    assert forall u | u in q :: u in s.info;
    assert n < |q| ==> q[n..][1..] == q[n + 1..];
  }

  /** The order of a pass: active threads first, then those whose deadline has elapsed, then
      the previous running thread. The first live one of them runs, the ones after it stay
      queued in this order, and only dead threads are dropped. */
  lemma PassOrder<T>(s: Sched<T>, ticks: nat) returns (n: nat)
    requires Inv(s)
    ensures var r, due := Pick(s, ticks), Due(s.timers, s.info, ticks);
      var q := s.active + due + (if s.running.Some? then [s.running.value] else []);
      if s.active + due == [] then
        r.active == [] && r.running == s.running
      else
        && n <= |q| && (forall j :: 0 <= j < n ==> q[j] in s.info && s.info[q[j]].state == Dead)
        && (n == |q| ==> r.active == [] && r.running == None)
        && (n < |q| ==> r.running == Some(q[n]) && r.active == q[n + 1..])
        && (n < |q| ==> q[n] in s.info && s.info[q[n]].state != Dead)
  {
    var m := Splice(s, ticks);
    SpliceInv(s, ticks);
    SpliceExact(s, ticks);
    n := ChooseOrder(m);
    assert forall t | t in s.info :: m.info[t].state == Dead <==> s.info[t].state == Dead;
  }

  const TICKS_MIN: nat := 0
  const TICKS_MAX: nat := 0x7fff_ffff_ffff_ffff

  /** Lines 542-548: how long event dispatch may sleep. */
  function DispatchDeadline<T(==)>(s: Sched<T>): nat
    requires Known(s)
  {
    if s.running.Some? || s.active != [] then TICKS_MIN
    else if s.timers != [] then s.info[s.timers[0]].deadline
    else TICKS_MAX
  }

  /** The main loop never sleeps while a thread is active, and never past the deadline
      of any sleeping thread. */
  lemma NeverOversleeps<T>(s: Sched<T>, t: T)
    requires Inv(s) && t in s.info
    ensures s.info[t].state == Active ==> DispatchDeadline(s) == TICKS_MIN
    ensures s.info[t].state == Timer ==> DispatchDeadline(s) <= s.info[t].deadline
  {
    if s.info[t].state == Timer {
      var i :| 0 <= i < |s.timers| && s.timers[i] == t;
      if i > 0 { assert TimerBefore(s.info[s.timers[0]], s.info[s.timers[i]]); }
    }
  }

  // ----- Bounded waiting -----

  predicate NeverKilled<T(==)>(ops: seq<Op<T>>, t: T) {
    forall i :: 0 <= i < |ops| ==> !(ops[i].OpKill? && ops[i].t == t)
  }

  function Passes<T>(ops: seq<Op<T>>): nat {
    if ops == [] then 0 else (if ops[0].OpPick? then 1 else 0) + Passes(ops[1..])
  }

  /** The run makes `t` the running thread by one of its first `passes` passes. */
  predicate RunsWithin<T(==)>(s: Sched<T>, ops: seq<Op<T>>, t: T, passes: nat)
    requires ValidRun(s, ops)
    decreases ops
  {
    ops != [] &&
    var r := Step(s, ops[0]);
    if ops[0].OpPick? then
      passes > 0 && (r.running == Some(t) || RunsWithin(r, ops[1..], t, passes - 1))
    else RunsWithin(r, ops[1..], t, passes)
  }

  /** `t` is alive and has `k` entries ahead of it on the active queue. */
  predicate Waits<T(==)>(s: Sched<T>, t: T, k: nat) {
    k < |s.active| && s.active[k] == t && t in s.info && s.info[t].state == Active
  }

  lemma {:induction false} ResumeAllWaits<T>(s: Sched<T>, order: seq<T>, t: T, k: nat)
    requires Waits(s, t, k) && forall u | u in order :: u in s.info
    ensures Waits(ResumeAll(s, order), t, k)
    decreases order
  {
    if order != [] {
      ResumeAllWaits(Resume(s, order[0]), order[1..], t, k);
    }
  }

  lemma OtherStepWaits<T>(s: Sched<T>, op: Op<T>, t: T, k: nat)
    requires Inv(s) && Enabled(s, op) && Waits(s, t, k)
    requires !op.OpPick? && !(op.OpKill? && op.t == t)
    ensures Waits(Step(s, op), t, k)
  {
    match op
    case OpKill(u, order) =>
      RecordedKnown(s, u, order);
      if s.info[u].state != Dead { ResumeAllWaits(MarkDead(Unlink(s, u), u), order, t, k); }
    case OpTerminate(order) =>
      RecordedKnown(s, s.running.value, order);
      ResumeAllWaits(MarkDead(s.(running := None, inside := false), s.running.value), order, t, k);
    case _ =>
  }

  /** A pass either runs `t` or moves it towards the head. */
  lemma PickAdvances<T>(s: Sched<T>, ticks: nat, t: T, k: nat) returns (j: nat)
    requires Inv(s) && Waits(s, t, k)
    ensures Pick(s, ticks).running == Some(t) || (j < k && Waits(Pick(s, ticks), t, j))
  {
    var m := Splice(s, ticks);
    SpliceInv(s, ticks);
    SpliceExact(s, ticks);
    assert Waits(m, t, k);
    var q := Rotated(m);
    var n := DropDeadFacts(q, m.info);
    assert q[k] == t;
    assert n <= k;
    if n < k {
      j := k - n - 1;
      assert q[n..][1..][j] == t;
    } else {
      j := 0;
    }
  }

  /** Whatever other threads, timers and events do, a live thread with `k` entries ahead
      of it runs within `k + 1` passes of the main loop unless it is killed. */
  lemma {:induction false} BoundedWaiting<T>(s: Sched<T>, ops: seq<Op<T>>, t: T, k: nat, passes: nat)
    requires Inv(s) && ValidRun(s, ops) && Waits(s, t, k)
    requires NeverKilled(ops, t) && Passes(ops) > k && passes > k
    ensures RunsWithin(s, ops, t, passes)
    decreases ops
  {
    var op, r := ops[0], Step(s, ops[0]);
    StepInv(s, op);
    assert NeverKilled(ops[1..], t);
    if op.OpPick? {
      var j := PickAdvances(s, op.ticks, t, k);
      if r.running != Some(t) { BoundedWaiting(r, ops[1..], t, j, passes - 1); }
    } else {
      OtherStepWaits(s, op, t, k);
      BoundedWaiting(r, ops[1..], t, k, passes);
    }
  }
}
