/** The scheduler as the source has it: threads linked through their NEXT slots, updated
    in place. `model` is the scheduler state as module Scheduling sees it; every operation
    is proved to change it as the function of the same name says. */
module MainLoops {
  import opened Options
  import opened Scheduling
  import opened Sequences
  import opened SchedulingInvariant
  import opened SchedulingTheorems

  class Thread {
    var next: Thread?
    var state: State
    var deadline: nat

    constructor ()
      ensures next == null && state == Active && deadline == 0
    {
      next, state, deadline := null, Active, 0;
    }
  }

  /** `q` is the NEXT chain that starts at `first` and ends with nil. */
  ghost predicate Chain(q: seq<Thread>, first: Thread?)
    reads q
  {
    && first == (if q == [] then null else q[0])
    && forall i {:trigger q[i].next} :: 0 <= i < |q| ==> q[i].next == if i + 1 < |q| then q[i + 1] else null
  }

  ghost predicate Ends(q: seq<Thread>, last: Thread?) {
    last == if q == [] then null else q[|q| - 1]
  }

  lemma {:induction false} RemoveAt<T>(q: seq<T>, k: nat)
    requires Distinct(q) && k < |q|
    ensures Remove(q, q[k]) == q[..k] + q[k + 1..]
  {
    if k > 0 {
      assert q[0] != q[k];
      RemoveAt(q[1..], k - 1);
    }
  }

  lemma TailOrFront<T>(q: seq<T>, n: nat)
    ensures forall t | t in q && (n >= |q| || t !in q[n + 1..]) :: exists j :: 0 <= j < |q| && j <= n && q[j] == t
  {
    if n < |q| {
      assert q == q[..n + 1] + q[n + 1..];
    }
  }

  lemma ActivateOverwrites<T>(s: Sched<T>, t: T)
    requires t in s.info
    ensures Activate(Unlink(s, t), t)
      == Activate(if s.info[t].state == Timer then s.(timers := Remove(s.timers, t)) else s, t)
  {
    assert Activate(Unlink(s, t), t).info == s.info[t := s.info[t].(state := Active)];
  }

  /** Two chains, the first of which leads to the second. */
  lemma ChainsMeet(a: seq<Thread>, b: seq<Thread>, first: Thread?)
    requires b != [] && first == (if a == [] then b[0] else a[0])
    requires forall i {:trigger a[i].next} :: 0 <= i < |a| ==> a[i].next == if i + 1 < |a| then a[i + 1] else b[0]
    requires forall i {:trigger b[i].next} :: 0 <= i < |b| ==> b[i].next == if i + 1 < |b| then b[i + 1] else null
    ensures Chain(a + b, first)
  {
    var r := a + b;
    forall j {:trigger r[j].next} | 0 <= j < |r|
      ensures r[j].next == if j + 1 < |r| then r[j + 1] else null
    {
    }
  }

  class MainLoop {
    var head: Thread?
    var tail: Thread?
    var timers: Thread?
    var running: Thread?
    var threads: set<Thread>
    var joiners: map<Thread, Joiners<Thread>>
    ghost var model: Sched<Thread>

    /** The links and states of the threads are those of `m`. */
    ghost predicate LinkedAs(m: Sched<Thread>)
      reads this`head, this`tail, this`timers, this`running, this`threads, this`joiners
      reads m.info.Keys, m.active, m.timers
    {
      && Chain(m.active, head) && Ends(m.active, tail) && Chain(m.timers, timers)
      && (forall t {:trigger t.next} | t in m.info ::
            t !in m.active && t !in m.timers ==> t.next == null)
      && (forall t {:trigger t.state} | t in m.info :: t.state == m.info[t].state)
      && (forall t {:trigger t.deadline} | t in m.info :: t.deadline == m.info[t].deadline)
      && m.running == (if running == null then None else Some(running))
      && threads == m.threads && joiners == m.joiners
    }

    ghost predicate Linked()
      reads this, model.info.Keys, model.active, model.timers
    {
      LinkedAs(model)
    }

    ghost predicate Valid()
      reads this, model.info.Keys, model.active, model.timers
    {
      Linked() && Inv(model)
    }

    constructor ()
      ensures Valid() && model == Empty<Thread>()
    {
      head, tail, timers, running := null, null, null, null;
      threads, joiners, model := {}, map[], Empty<Thread>();
    }

    /** The walk of remove_timer(), lines 176-186. */
    method FindBefore(thread: Thread, ghost q: seq<Thread>) returns (prev: Thread, ghost i: nat)
      requires Chain(q, timers) && thread in q && thread != timers
      ensures i + 1 < |q| && prev == q[i] && thread == q[i + 1]
    {
      ghost var k :| 0 <= k < |q| && q[k] == thread;
      prev, i := timers, 0;
      while prev.next != thread
        invariant i < k && prev == q[i]
        decreases k - i
      {
        prev, i := prev.next, i + 1;
      }
    }

    /** remove_timer() at line 167. */
    method RemoveTimer(thread: Thread, ghost q: seq<Thread>)
      requires Chain(q, timers) && Distinct(q) && thread in q
      modifies this`timers, (set t | t in q)`next
      ensures Chain(Remove(q, thread), timers) && thread.next == null
    {
      if thread == timers {
        assert q[0].next == thread.next;
        timers := thread.next;
        thread.next := null;
      } else {
        ghost var i;
        var prev;
        prev, i := FindBefore(thread, q);
        assert thread.next == if i + 2 < |q| then q[i + 2] else null;
        RemoveAt(q, i + 1);
        prev.next := thread.next;
        thread.next := null;
        ghost var r := Remove(q, thread);
        forall j {:trigger r[j].next} | 0 <= j < |r|
          ensures r[j].next == if j + 1 < |r| then r[j + 1] else null
        {
          var k := if j <= i then j else j + 1;
          assert r[j] == q[k] && q[k] != thread && (k != i ==> q[k] != prev);
          assert old(q[k].next) == if k + 1 < |q| then q[k + 1] else null;
        }
      }
    }

    /** activate() at line 189. */
    method Append(thread: Thread, ghost q: seq<Thread>)
      requires Chain(q, head) && Ends(q, tail) && thread !in q && thread.next == null
      modifies this`head, this`tail, (set t | t in q)`next
      ensures Chain(q + [thread], head) && Ends(q + [thread], tail)
    {
      if tail == null {
        head := thread;
      } else {
        tail.next := thread;
      }
      tail := thread;
    }

    lemma Whereabouts(t: Thread)
      requires Inv(model) && t in model.info
      ensures t in model.timers <==> model.info[t].state == Timer
      ensures t in model.active ==> model.info[t].state == Active || model.info[t].state == Dead
      ensures model.info[t].state == Active ==> t in model.active || model.running == Some(t)
      ensures Shape(model) && Known(model)
    {
    }

    method Unhook(thread: Thread)
      requires Linked() && Shape(model) && Known(model) && thread in model.timers
      modifies this`timers, this`model, model.info.Keys`next
      ensures Linked() && model == old(model).(timers := Remove(old(model.timers), thread))
      ensures Known(model) && Shape(model) && thread !in model.timers
    {
      ghost var q, rest := model.timers, Remove(model.timers, thread);
      RemoveFacts(q, thread);
      forall t | t in rest ensures t in model.info { assert t in q; }
      RemoveTimer(thread, q);
      model := model.(timers := rest);
    }

    /** Lines 210-211: mark the thread active and append it to the active queue. */
    method Raise(thread: Thread)
      requires Linked() && Known(model) && thread in model.info
      requires thread !in model.active && thread !in model.timers
      requires Shape(model)
      modifies this`head, this`tail, this`model, model.info.Keys`next, thread`state
      ensures Linked() && model == Activate(old(model), thread)
    {
      thread.state := Active;
      Append(thread, model.active);
      model := Activate(model, thread);
    }

    /** Lines 209-211. */
    method Wake(thread: Thread)
      requires Linked() && Shape(model) && Known(model)
      requires thread in model.info && thread !in model.active
      requires thread in model.timers <==> model.info[thread].state == Timer
      modifies this`head, this`tail, this`timers, this`model, model.info.Keys`next, thread`state
      ensures Linked() && model == Activate(Unlink(old(model), thread), thread)
    {
      ActivateOverwrites(model, thread);
      if thread.state == Timer { Unhook(thread); }
      Raise(thread);
    }

    /** resume() at line 206. */
    method Resume(thread: Thread) returns (resumed: bool)
      requires Valid() && thread in model.info
      modifies this, model.info.Keys
      ensures Valid() && model == Scheduling.Resume(old(model), thread)
      ensures resumed <==> old(thread.state) == Suspended || old(thread.state) == Timer
    {
      ResumeInv(model, thread);
      Whereabouts(thread);
      if thread.state == Active || thread.state == Dead { return false; }
      Wake(thread);
      return true;
    }

    method ResumeJoiners(order: seq<Thread>)
      requires Valid() && forall t | t in order :: t in model.info
      modifies this, model.info.Keys
      ensures Valid() && model == ResumeAll(old(model), order)
    {
      ResumeAllPrefixes(model, order);
      for i := 0 to |order|
        invariant Valid() && model == ResumeAll(old(model), order[..i])
      {
        var _ := Resume(order[i]);
      }
    }

    /** Thread_kill() at line 244. */
    method Kill(thread: Thread) returns (killed: bool, order: seq<Thread>)
      requires Valid() && thread in model.info && thread != running
      modifies this, model.info.Keys
      ensures old(thread.state) != Dead ==> IsOrder(old(model), thread, order)
      ensures forall t | t in order :: t in old(model).info
      ensures Valid() && model == Scheduling.Kill(old(model), thread, order)
      ensures killed <==> old(thread.state) != Dead
      ensures !killed ==> model == old(model)
    {
      order := [];
      killed := thread.state != Dead;
      if killed {
        UnlinkInv(model, thread);
        MarkDeadInv(Unlink(model, thread), thread);
        Whereabouts(thread);
        order := Bury(thread);
        RecordedKnown(old(model), thread, order);
        ResumeJoiners(order);
      }
    }

    /** Mark the thread dead and drop its table entries. The source clears THREADS after
        waking the joiners; nothing looks at it in between. */
    method Entomb(thread: Thread)
      requires Linked() && thread in model.info && thread != running
      requires thread !in model.timers
      modifies this`joiners, this`threads, this`model, thread`state
      ensures Linked() && model == MarkDead(old(model), thread)
    {
      thread.state := Dead;
      joiners, threads := joiners - {thread}, threads - {thread};
      model := MarkDead(model, thread);
    }

    method Bury(thread: Thread) returns (order: seq<Thread>)
      requires Linked() && Shape(model) && Known(model) && thread in model.info && thread != running
      requires thread in model.timers <==> model.info[thread].state == Timer
      modifies this, model.info.Keys
      ensures Linked() && model == MarkDead(Unlink(old(model), thread), thread)
      ensures IsOrder(old(model), thread, order)
    {
      order := TableOrder(if thread in joiners then joiners[thread].Threads() else {});
      MarkDeadUnlinked(model, thread);
      if thread.state == Timer { Unhook(thread); }
      Entomb(thread);
    }

    /** Lines 631-666: the running thread returned or raised an error. */
    method Terminate() returns (order: seq<Thread>)
      requires Valid() && running != null
      modifies this, model.info.Keys
      ensures IsOrder(old(model), old(running), order)
      ensures forall t | t in order :: t in old(model).info
      ensures Valid() && model == Scheduling.Terminate(old(model), order)
    {
      MarkRunningDeadInv(model);
      var thread := running;
      order := TableOrder(if thread in joiners then joiners[thread].Threads() else {});
      RecordedKnown(model, thread, order);
      running, model := null, model.(running := None, inside := false);
      Entomb(thread);
      ResumeJoiners(order);
    }

    /** mod_start() at line 392. */
    method Start() returns (thread: Thread)
      requires Valid()
      modifies this, model.info.Keys
      ensures fresh(thread) && Valid() && model == Scheduling.Start(old(model), thread)
      ensures thread.state == Active && tail == thread && running == old(running)
    {
      thread := new Thread();
      StartInv(model, thread);
      Enter(thread);
    }

    method Enter(thread: Thread)
      requires Linked() && Known(model) && Shape(model) && thread !in model.info
      requires thread.state == Active && thread.deadline == 0 && thread.next == null
      modifies this`head, this`tail, this`threads, this`model, model.info.Keys`next
      ensures Linked() && model == Scheduling.Start(old(model), thread)
    {
      threads := threads + {thread};
      Append(thread, model.active);
      model := Scheduling.Start(model, thread);
    }

    /** mod_yield() at line 364: the running thread stays in the local variable. */
    method Yield()
      requires Valid()
      modifies this`model
      ensures Valid() && model == old(model).(inside := false)
      ensures old(Free(model)) ==> model == Step(old(model), OpYield)
    {
      YieldInv(model);
      model := model.(inside := false);
    }

    /** Lines 688-695: suspend the running thread indefinitely. */
    method Park()
      requires Valid() && running != null
      modifies this`running, this`model, running`state
      ensures Valid() && model == Scheduling.Park(old(model))
      ensures running == null && old(running).state == Suspended
    {
      ParkInv(model);
      Halt();
    }

    method Halt()
      requires Linked() && running != null && running in model.info
      modifies this`running, this`model, running`state
      ensures Linked() && model == Scheduling.Park(old(model))
      ensures running == null && old(running).state == Suspended
    {
      running.state := Suspended;
      running, model := null, Scheduling.Park(model);
    }

    /** Thread_join() at line 303. */
    method Join(target: Thread)
      requires Valid() && running != null && target in model.info
      modifies this`running, this`joiners, this`model, running`state
      ensures Valid() && model == Scheduling.Join(old(model), target)
      ensures old(target.state) == Dead ==> running == old(running) && running.state == Active && model == old(model)
      ensures old(target.state) != Dead ==>
        running == null && old(running).state == Suspended && old(running) in model.joining
    {
      JoinInv(model, target);
      if target.state == Dead { return; }
      Register(target);
      Halt();
    }

    /** Lines 309-340. */
    method Register(target: Thread)
      requires Linked() && running != null && running in model.info
      modifies this`joiners, this`model
      ensures Linked() && model == old(model).(
        joiners := old(model.joiners)[target := Record(old(model), target, running)],
        joining := old(model.joining)[running := target])
    {
      ghost var after := Record(model, target, running);
      if target !in joiners {
        joiners := joiners[target := One(running)];
      } else {
        match joiners[target]
        case One(first) => joiners := joiners[target := Table({running, first})];
        case Table(all) => joiners := joiners[target := Table(all + {target})];
      }
      model := model.(joiners := model.joiners[target := after], joining := model.joining[running := target]);
    }

    /** Thread_join_1() at line 345. */
    method Rejoin(target: Thread) returns (done: bool)
      requires Valid() && running != null && running in model.joining
      requires target == model.joining[running]
      modifies this`running, this`model, running`state
      ensures Valid() && model == Scheduling.Rejoin(old(model))
      ensures done <==> old(target.state) == Dead
      ensures if done then running == old(running) && running.state == Active && running !in model.joining
              else running == null && old(running).state == Suspended && old(running) in model.joining
    {
      RejoinInv(model);
      done := target.state == Dead;
      if done {
        model := model.(joining := model.joining - {running});
      } else {
        Halt();
      }
    }

    /** The walk of lines 712-721: the last thread whose deadline is not later. */
    method FindSlot(deadline: nat, ghost q: seq<Thread>) returns (prev: Thread, ghost i: nat)
      requires Chain(q, timers) && timers != null && timers.deadline <= deadline
      ensures i < |q| && prev == q[i]
      ensures forall j :: 0 <= j <= i ==> q[j].deadline <= deadline
      ensures i + 1 < |q| ==> deadline < q[i + 1].deadline
    {
      prev, i := timers, 0;
      while prev.next != null && prev.next.deadline <= deadline
        invariant i < |q| && prev == q[i]
        invariant forall j :: 0 <= j <= i ==> q[j].deadline <= deadline
        decreases |q| - i
      {
        prev, i := prev.next, i + 1;
      }
    }

    method LinkAfter(prev: Thread, thread: Thread, ghost q: seq<Thread>, ghost i: nat)
      requires Chain(q, timers) && Distinct(q) && thread !in q && i < |q| && prev == q[i]
      modifies prev`next, thread`next
      ensures Chain(q[..i + 1] + [thread] + q[i + 1..], timers)
    {
      assert prev.next == if i + 1 < |q| then q[i + 1] else null;
      thread.next := prev.next;
      prev.next := thread;
      ghost var r := q[..i + 1] + [thread] + q[i + 1..];
      forall j {:trigger r[j].next} | 0 <= j < |r|
        ensures r[j].next == if j + 1 < |r| then r[j + 1] else null
      {
        if j != i && j != i + 1 {
          var k := if j < i then j else j - 1;
          assert r[j] == q[k] && q[k] != prev && q[k] != thread;
          assert old(q[k].next) == if k + 1 < |q| then q[k + 1] else null;
        }
      }
    }

    /** Lines 703-721. */
    method InsertTimer(thread: Thread, deadline: nat, ghost q: seq<Thread>, ghost info: map<Thread, Info>)
      requires Chain(q, timers) && Distinct(q) && thread !in q
      requires forall t | t in q :: t in info && info[t].deadline == t.deadline
      modifies this`timers, (set t | t in q)`next, thread`next
      ensures Chain(Insert(q, info, thread, deadline), timers)
    {
      if timers == null || deadline < timers.deadline {
        InsertAt(q, info, thread, deadline, 0);
        thread.next := timers;
        timers := thread;
        ChainCons(thread, q);
      } else {
        ghost var i;
        var prev;
        prev, i := FindSlot(deadline, q);
        InsertAt(q, info, thread, deadline, i + 1);
        LinkAfter(prev, thread, q, i);
      }
    }

    /** Lines 697-722: put the running thread on the timer list. */
    method Sleep(deadline: nat)
      requires Valid() && running != null
      modifies this, model.info.Keys
      ensures Valid() && model == Scheduling.Sleep(old(model), deadline)
      ensures running == null && old(running).state == Timer && old(running).deadline == deadline
    {
      SleepInv(model, deadline);
      Enqueue(deadline);
    }

    method Enqueue(deadline: nat)
      requires Linked() && Shape(model) && Known(model) && running != null
      modifies this`running, this`timers, this`model, running, model.info.Keys`next
      ensures Linked() && model == Scheduling.Sleep(old(model), deadline)
    {
      SleepIsDozeAndInsert(model, deadline);
      var thread := Doze(deadline);
      Hook(thread, deadline);
    }

    method Doze(deadline: nat) returns (thread: Thread)
      requires Linked() && running != null && running in model.info
      modifies this`running, this`model, running`state, running`deadline
      ensures Linked() && thread == old(running) && model == Dozing(old(model), deadline)
    {
      thread := running;
      thread.deadline, thread.state := deadline, Timer;
      running, model := null, Dozing(model, deadline);
    }

    method Hook(thread: Thread, deadline: nat)
      requires Linked() && Shape(model) && Known(model) && thread in model.info
      requires thread !in model.timers && thread !in model.active
      modifies this`timers, this`model, model.info.Keys`next
      ensures Linked()
      ensures model == old(model).(timers := Insert(old(model.timers), old(model.info), thread, deadline))
    {
      InsertMembers(model.timers, model.info, thread, deadline);
      InsertTimer(thread, deadline, model.timers, model.info);
      model := model.(timers := Insert(model.timers, model.info, thread, deadline));
    }

    /** Lines 542-548. */
    method WakeTime() returns (deadline: nat)
      requires Valid()
      ensures deadline == DispatchDeadline(model)
    {
      deadline := TICKS_MAX;
      if running != null || tail != null {
        deadline := TICKS_MIN;
      } else if timers != null {
        deadline := timers.deadline;
      }
    }

    /** The loop of lines 566-577: activate the threads whose deadline has elapsed. */
    method TakeExpired(ticks: nat, ghost q: seq<Thread>, ghost info: map<Thread, Info>)
      returns (last: Thread)
      requires Chain(q, timers) && Distinct(q) && timers != null && timers.deadline <= ticks
      requires forall t | t in q :: t in info && info[t].deadline == t.deadline
      modifies this`timers, (set t | t in q)`state
      ensures var n := ExpiredCount(q, info, ticks);
        && 0 < n && last == q[n - 1] && timers == (if n < |q| then q[n] else null)
        && (forall j :: 0 <= j < n ==> q[j].state == Active)
        && (forall j :: n <= j < |q| ==> q[j].state == old(q[j].state))
    {
      last := timers;
      last.state := Active;
      ghost var i := 0;
      while last.next != null && last.next.deadline <= ticks
        invariant i < |q| && last == q[i]
        invariant forall j :: 0 <= j <= i ==> q[j].deadline <= ticks && q[j].state == Active
        invariant forall j :: i < j < |q| ==> q[j].state == old(q[j].state)
        decreases |q| - i
      {
        last, i := last.next, i + 1;
        last.state := Active;
      }
      timers := last.next;
      assert last.next == if i + 1 < |q| then q[i + 1] else null;
      ExpiredAt(q, info, ticks, i + 1);
    }

    /** Lines 555-584 on the two chains. */
    method Link(ticks: nat, ghost a: seq<Thread>, ghost q: seq<Thread>, ghost info: map<Thread, Info>)
      requires Chain(a, head) && Ends(a, tail) && Chain(q, timers) && Distinct(a) && Distinct(q)
      requires forall t | t in a :: t !in q
      requires forall t | t in q :: t in info && info[t].deadline == t.deadline
      modifies this`head, this`tail, this`timers, (set t | t in a + q)`next, (set t | t in q)`state
      ensures var n := ExpiredCount(q, info, ticks);
        && Chain(a + q[..n], head) && Ends(a + q[..n], tail) && Chain(q[n..], timers)
        && (forall t | t in q[..n] :: t.state == Active)
        && (forall t | t in q[n..] :: t.state == old(t.state))
    {
      if timers != null && timers.deadline <= ticks {
        Concatenate(a);
        tail := TakeExpired(ticks, q, info);
        tail.next := null;
        ChainsMeet(a, q[..ExpiredCount(q, info, ticks)], head);
      } else {
        assert a + q[..0] == a && q[0..] == q;
      }
    }

    /** Lines 557-564: the whole timer list behind the active queue. */
    method Concatenate(ghost a: seq<Thread>)
      requires Chain(a, head) && Ends(a, tail) && Distinct(a) && timers != null
      modifies this`head, (set t | t in a)`next
      ensures head == (if a == [] then timers else a[0])
      ensures forall i {:trigger a[i].next} :: 0 <= i < |a| ==> a[i].next == if i + 1 < |a| then a[i + 1] else timers
    {
      if tail == null {
        head := timers;
      } else {
        tail.next := timers;
      }
    }

    method LinkChains(ticks: nat, ghost after: Sched<Thread>)
      requires Linked() && Shape(model) && Known(model)
      requires Spliced(model, ExpiredCount(model.timers, model.info, ticks), after)
      modifies this`head, this`tail, this`timers, model.info.Keys`next, model.info.Keys`state
      ensures LinkedAs(after)
    {
      Link(ticks, model.active, model.timers, model.info);
    }

    method Relink(ticks: nat, ghost after: Sched<Thread>)
      requires Linked() && Shape(model) && Known(model)
      requires Spliced(model, ExpiredCount(model.timers, model.info, ticks), after)
      modifies this`head, this`tail, this`timers, this`model, model.info.Keys
      ensures Linked() && model == after
    {
      LinkChains(ticks, after);
      model := after;
    }

    /** Lines 552-584: resume the threads whose deadline has elapsed. */
    method Splice(ticks: nat)
      requires Linked() && Shape(model) && Known(model)
      modifies this`head, this`tail, this`timers, this`model, model.info.Keys
      ensures Linked() && model == Scheduling.Splice(old(model), ticks)
    {
      ghost var n := ExpiredCount(model.timers, model.info, ticks);
      SplitMembers(model.timers, n);
      assert Spliced(model, n, Scheduling.Splice(model, ticks));
      Relink(ticks, Scheduling.Splice(model, ticks));
    }

    /** The loop of lines 599-610: skip dead threads at the head of the queue. */
    method SkipDead(ghost q: seq<Thread>) returns (first: Thread?, rest: Thread?, ghost n: nat)
      requires Chain(q, head) && head != null && Distinct(q)
      modifies (set t | t in q)`next
      ensures n <= |q| && (forall j :: 0 <= j < n ==> q[j].state == Dead && q[j].next == null)
      ensures n < |q| ==>
        first == q[n] && first.state != Dead && first.next == null && Chain(q[n + 1..], rest)
      ensures n == |q| ==> first == null && rest == null
    {
      first, rest, n := head, head.next, 0;
      while first.state == Dead && rest != null
        invariant n < |q| && first == q[n] && first.next == rest
        invariant Chain(q[n..], first)
        invariant forall j :: 0 <= j < n ==> q[j].next == null && q[j].state == Dead
        decreases |q| - n
      {
        assert q[n..][1] == q[n + 1] && q[n..][1..] == q[n + 1..];
        ChainTail(q[n..]);
        first.next := null;
        first, rest, n := rest, rest.next, n + 1;
      }
      ChainTail(q[n..]);
      assert q[n..][1..] == q[n + 1..];
      first.next := null;
      if first.state == Dead {
        first, n := null, n + 1;
      }
    }

    /** Lines 590-596: the previous running thread goes to the end of the queue. */
    method Requeue(ghost a: seq<Thread>, ghost q: seq<Thread>)
      requires Chain(a, head) && Ends(a, tail) && tail != null && Distinct(q)
      requires q == if running == null then a else a + [running]
      requires running != null ==> running.next == null
      modifies this`head, this`tail, (set t | t in q)`next
      ensures Chain(q, head) && Ends(q, tail) && head != null
    {
      if running != null {
        var thread: Thread := running;
        assert thread == q[|a|] && forall j :: 0 <= j < |a| ==> q[j] == a[j];
        Append(thread, a);
      }
    }

    /** Lines 590-622 on the queue `a`; `q` is `a` with the previous running thread. */
    method Advance(ghost a: seq<Thread>, ghost q: seq<Thread>) returns (ghost n: nat)
      requires Chain(a, head) && Ends(a, tail) && tail != null && Distinct(q)
      requires q == if running == null then a else a + [running]
      requires running != null ==> running.next == null
      modifies this`head, this`tail, this`running, (set t | t in q)`next
      ensures n <= |q| && (forall j :: 0 <= j < n ==> q[j].state == Dead && q[j].next == null)
      ensures n == |q| ==> head == null && tail == null && running == null
      ensures n < |q| ==> Chain(q[n + 1..], head) && Ends(q[n + 1..], tail)
      ensures n < |q| ==> running == q[n] && q[n].state != Dead && q[n].next == null
    {
      Requeue(a, q);
      running, head, n := SkipDead(q);
      if head == null { tail := null; }
    }

    /** The same, said of the threads that are off the queue now. */
    method AdvanceUnlinks(ghost a: seq<Thread>, ghost q: seq<Thread>) returns (ghost n: nat)
      requires Chain(a, head) && Ends(a, tail) && tail != null && Distinct(q)
      requires q == if running == null then a else a + [running]
      requires running != null ==> running.next == null
      modifies this`head, this`tail, this`running, (set t | t in q)`next
      ensures n <= |q| && (forall j :: 0 <= j < n ==> q[j].state == Dead)
      ensures n == |q| ==> head == null && tail == null && running == null
      ensures n < |q| ==> Chain(q[n + 1..], head) && Ends(q[n + 1..], tail)
      ensures n < |q| ==> running == q[n] && q[n].state != Dead
      ensures forall t {:trigger t.next} | t in q && (n == |q| || t !in q[n + 1..]) :: t.next == null
    {
      n := Advance(a, q);
      TailOrFront(q, n);
    }

    /** The same, said of the model, whose chains are now those after the n-th thread. */
    method AdvanceChains() returns (ghost n: nat)
      requires Linked() && Shape(model) && Known(model) && tail != null
      requires running != null ==> model.info[running].state == Active
      modifies this`head, this`tail, this`running, model.info.Keys`next
      ensures n <= |Rotated(model)| && var after := CutAt(model, n);
        && Chain(after.active, head) && Ends(after.active, tail) && Chain(model.timers, timers)
        && after.running == (if running == null then None else Some(running))
        && (forall t {:trigger t.next} | t in model.info ::
              t !in after.active && t !in model.timers ==> t.next == null)
      ensures forall j :: 0 <= j < n ==> Rotated(model)[j] in model.info && Rotated(model)[j].state == Dead
      ensures n < |Rotated(model)| ==> Rotated(model)[n] in model.info && Rotated(model)[n].state != Dead
    {
      ghost var q := Rotated(model);
      assert forall t | t in q :: t in model.info && t !in model.timers;
      n := AdvanceUnlinks(model.active, q);
    }

    method Settle()
      requires Linked() && Shape(model) && Known(model) && tail != null
      requires running != null ==> model.info[running].state == Active
      modifies this`head, this`tail, this`running, this`model, model.info.Keys`next
      ensures Linked() && model == Scheduling.Choose(old(model))
    {
      ghost var n := AdvanceChains();
      ChosenAt(model, n);
      model := CutAt(model, n);
    }

    /** Lines 586-623. */
    method Choose()
      requires Linked() && Shape(model) && Known(model)
      requires running != null ==> model.info[running].state == Active
      modifies this`head, this`tail, this`running, this`model, model.info.Keys`next
      ensures Linked() && model == Scheduling.Choose(old(model))
    {
      if tail != null {
        Settle();
      } else {
        model := Scheduling.Choose(model);
      }
    }

    /** One pass of the main loop, from line 552 to the choice of the thread to resume. */
    method Pick(ticks: nat)
      requires Valid()
      modifies this, model.info.Keys
      ensures Valid() && model == Scheduling.Pick(old(model), ticks)
    {
      SpliceInv(model, ticks);
      Splice(ticks);
      ChooseInv(model);
      Choose();
    }
  }

  lemma ChosenAt<T>(s: Sched<T>, n: nat)
    requires Known(s) && n <= |Rotated(s)| && s.active != []
    requires forall j :: 0 <= j < n ==> s.info[Rotated(s)[j]].state == Dead
    requires n < |Rotated(s)| ==> s.info[Rotated(s)[n]].state != Dead
    ensures Scheduling.Choose(s) == CutAt(s, n)
  {
    DropDeadAt(Rotated(s), s.info, n);
  }

  lemma {:induction false} DropDeadAt<T>(q: seq<T>, info: map<T, Info>, n: nat)
    requires n <= |q| && forall u | u in q :: u in info
    requires forall j :: 0 <= j < n ==> info[q[j]].state == Dead
    requires n < |q| ==> info[q[n]].state != Dead
    ensures DropDead(q, info) == q[n..]
  {
    if n > 0 { DropDeadAt(q[1..], info, n - 1); }
  }

  /** `after` is `s` with the first `n` timers appended to the active queue. */
  ghost predicate Spliced<T>(s: Sched<T>, n: nat, after: Sched<T>)
    requires n <= |s.timers| && Known(s)
  {
    && after.active == s.active + s.timers[..n] && after.timers == s.timers[n..]
    && after.running == s.running && after.threads == s.threads && after.joiners == s.joiners
    && after.info.Keys == s.info.Keys
    && (forall t | t in s.timers[..n] :: t in s.info && after.info[t] == s.info[t].(state := Active))
    && (forall t | t in s.timers[n..] :: t in s.info && after.info[t] == s.info[t])
    && (forall t | t in s.info && t !in s.timers :: after.info[t] == s.info[t])
    && (forall t | t in s.timers :: t in s.timers[..n] || t in s.timers[n..])
  }

  lemma ChainTail(q: seq<Thread>)
    requires q != [] && Chain(q, q[0])
    ensures Chain(q[1..], q[0].next)
  {
    var r := q[1..];
    forall j {:trigger r[j].next} | 0 <= j < |r|
      ensures r[j].next == if j + 1 < |r| then r[j + 1] else null
    {
      assert r[j] == q[j + 1] && q[j + 1].next == if j + 2 < |q| then q[j + 2] else null;
    }
  }

  /** The running thread with its deadline stored, but not on the timer list yet. */
  ghost function Dozing<T>(s: Sched<T>, deadline: nat): Sched<T>
    requires s.running.Some?
  {
    s.(info := s.info[s.running.value := Info(Timer, deadline, s.clock)],
       clock := s.clock + 1, running := None, inside := false)
  }

  lemma SleepIsDozeAndInsert<T>(s: Sched<T>, deadline: nat)
    requires Known(s) && Shape(s) && s.running.Some?
    ensures var d := Dozing(s, deadline);
      && Known(d) && Shape(d) && d.timers == s.timers && s.running.value in d.info
      && Scheduling.Sleep(s, deadline)
         == d.(timers := Insert(d.timers, d.info, s.running.value, deadline))
  {
    InsertFrame(s.timers, s.info, Dozing(s, deadline).info, s.running.value, deadline);
  }

  lemma {:induction false} InsertFrame<T>(q: seq<T>, info: map<T, Info>, after: map<T, Info>, t: T, deadline: nat)
    requires forall u | u in q :: u in info && u in after && info[u] == after[u]
    ensures Insert(q, info, t, deadline) == Insert(q, after, t, deadline)
  {
    if q != [] { InsertFrame(q[1..], info, after, t, deadline); }
  }

  lemma {:induction false} ExpiredAt<T>(q: seq<T>, info: map<T, Info>, ticks: nat, n: nat)
    requires n <= |q| && forall u | u in q :: u in info
    requires forall j :: 0 <= j < n ==> info[q[j]].deadline <= ticks
    requires n < |q| ==> info[q[n]].deadline > ticks
    ensures ExpiredCount(q, info, ticks) == n
  {
    if n > 0 { ExpiredAt(q[1..], info, ticks, n - 1); }
  }

  lemma {:induction false} InsertAt<T>(q: seq<T>, info: map<T, Info>, t: T, deadline: nat, n: nat)
    requires n <= |q| && forall u | u in q :: u in info
    requires forall j :: 0 <= j < n ==> info[q[j]].deadline <= deadline
    requires n < |q| ==> deadline < info[q[n]].deadline
    ensures Insert(q, info, t, deadline) == q[..n] + [t] + q[n..]
  {
    if n == 0 {
      assert q[..0] + [t] + q[0..] == [t] + q;
    } else {
      InsertAt(q[1..], info, t, deadline, n - 1);
      assert q[..n] == [q[0]] + q[1..][..n - 1];
    }
  }

  lemma {:induction false} InsertMembers<T>(q: seq<T>, info: map<T, Info>, t: T, deadline: nat)
    requires forall u | u in q :: u in info
    ensures t in Insert(q, info, t, deadline)
    ensures forall u | u in q :: u in Insert(q, info, t, deadline)
    ensures forall u | u in Insert(q, info, t, deadline) :: u == t || u in q
  {
    if q != [] && deadline >= info[q[0]].deadline {
      InsertMembers(q[1..], info, t, deadline);
      assert q == [q[0]] + q[1..];
    }
  }

  lemma ChainCons(t: Thread, q: seq<Thread>)
    requires Chain(q, t.next) && t !in q
    ensures Chain([t] + q, t) && [t] + q == q[..0] + [t] + q[0..]
  {
    var r := [t] + q;
    forall j {:trigger r[j].next} | 0 <= j < |r|
      ensures r[j].next == if j + 1 < |r| then r[j + 1] else null
    {
      if j > 0 { assert r[j] == q[j - 1] && q[j - 1].next == if j < |q| then q[j] else null; }
    }
  }

  /** The keys of a Lua table, in the arbitrary order in which lua_next() visits them. */
  method TableOrder(keys: set<Thread>) returns (order: seq<Thread>)
    ensures Distinct(order) && (set t | t in order) == keys
  {
    var rest := keys;
    order := [];
    while rest != {}
      invariant rest <= keys && Distinct(order) && (set t | t in order) == keys - rest
      decreases rest
    {
      var t :| t in rest;
      assert t !in (set u | u in order);
      assert (set u | u in order + [t]) == (set u | u in order) + {t};
      order, rest := order + [t], rest - {t};
    }
  }

  lemma MarkDeadUnlinked<T>(s: Sched<T>, t: T)
    requires t in s.info
    ensures s.info[t].state == Timer ==>
      MarkDead(Unlink(s, t), t) == MarkDead(s.(timers := Remove(s.timers, t)), t)
  {
    if s.info[t].state == Timer {
      assert MarkDead(Unlink(s, t), t).info == MarkDead(s.(timers := Remove(s.timers, t)), t).info;
    }
  }

  lemma {:induction false} ResumeAllSnoc<T>(s: Sched<T>, order: seq<T>, t: T)
    requires t in s.info && forall u | u in order :: u in s.info
    ensures ResumeAll(s, order + [t]) == Scheduling.Resume(ResumeAll(s, order), t)
    decreases order
  {
    if order == [] {
      assert [t][1..] == [];
    } else {
      ResumeAllSnoc(Scheduling.Resume(s, order[0]), order[1..], t);
      assert (order + [t])[1..] == order[1..] + [t];
    }
  }

  lemma ResumeAllNext<T>(s: Sched<T>, order: seq<T>, i: nat)
    requires i < |order| && forall u | u in order :: u in s.info
    ensures ResumeAll(s, order[..i + 1]) == Scheduling.Resume(ResumeAll(s, order[..i]), order[i])
  {
    assert order[..i] + [order[i]] == order[..i + 1];
    ResumeAllSnoc(s, order[..i], order[i]);
  }

  lemma ResumeAllPrefixes<T>(s: Sched<T>, order: seq<T>)
    requires forall u | u in order :: u in s.info
    ensures ResumeAll(s, order[..0]) == s && ResumeAll(s, order[..|order|]) == ResumeAll(s, order)
    ensures forall i | 0 <= i < |order| ::
      ResumeAll(s, order[..i + 1]) == Scheduling.Resume(ResumeAll(s, order[..i]), order[i])
  {
    assert order[..|order|] == order;
    forall i | 0 <= i < |order|
      ensures ResumeAll(s, order[..i + 1]) == Scheduling.Resume(ResumeAll(s, order[..i]), order[i])
    {
      ResumeAllNext(s, order, i);
    }
  }
}
