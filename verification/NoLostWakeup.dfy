/** In every interleaving no wakeup is lost. */
module NoLostWakeups {
  import opened Options
  import opened Scheduling
  import opened SchedulingInvariant
  import opened SchedulingTheorems
  import SJ = SchedulingJoins
  import EQ = EventQueues
  import opened WaitProtocol

  // ----- Steps seen by the protocol -----

  /** `w` has no more waits than `v`, and everything a wait relies on is still there. */
  ghost predicate Keeps<T, E>(v: View<T, E>, w: View<T, E>) {
    && (forall t | t in w.waits :: t in v.waits && w.waits[t] == v.waits[t] && t in w.alive)
    && (forall t | t in w.waits :: (t in w.ready ==> t in v.ready) && (t in v.awake ==> t in w.awake))
    && (forall t | t in w.waits && w.waits[t].stage.Checked? :: w.me == v.me)
    && (forall t | t in w.waits :: forall e | e in w.waits[t].events :: KeepsEvent(v, w, t, e))
    && (w.me.Some? ==> w.popped == None)
  }

  ghost predicate KeepsEvent<T, E>(v: View<T, E>, w: View<T, E>, t: T, e: E) {
    && (e in v.on ==> e in w.on)
    && (e in v.watcher && v.watcher[e] == t ==> e in w.watcher && w.watcher[e] == t)
    && (OnItsWay(v, e) ==> OnItsWay(w, e))
  }

  lemma KeepsInv<T, E>(v: View<T, E>, w: View<T, E>)
    requires ViewInv(v) && Keeps(v, w)
    ensures ViewInv(w)
  {
    forall t | t in w.waits ensures InStage(w, t, w.waits[t]) {
      assert InStage(v, t, v.waits[t]);
      assert forall i :: 0 <= i < |w.waits[t].events| ==> KeepsEvent(v, w, t, w.waits[t].events[i]);
    }
    forall t | t in w.waits && Coming(v, v.waits[t]) ensures Coming(w, w.waits[t]) {
      var e :| e in v.waits[t].events && OnItsWay(v, e);
      assert KeepsEvent(v, w, t, e);
    }
  }

  lemma FireView<T, E>(v: View<T, E>, e: E, t: T)
    requires ViewInv(v) && (t in v.waits ==> e in v.waits[t].events && OnItsWay(v, e))
    ensures ViewInv(v.(ready := v.ready + {t}))
  {
    var w := v.(ready := v.ready + {t});
    forall u | u in v.waits && Coming(v, v.waits[u]) ensures Coming(w, w.waits[u]) {
      var f :| f in v.waits[u].events && OnItsWay(v, f);
      assert OnItsWay(w, f);
    }
    if t in v.waits { assert OnItsWay(w, e); }
    forall u | u in w.waits ensures InStage(w, u, w.waits[u]) {
      assert InStage(v, u, v.waits[u]);
    }
  }

  lemma BeginView<T, E>(v: View<T, E>, t: T, events: seq<E>)
    requires ViewInv(v) && v.me == Some(t) && t in v.alive && t !in v.ready && t !in v.waits
    requires forall e | e in events :: e in v.on
    requires forall u | u in v.waits :: Disjoint(events, v.waits[u].events)
    ensures ViewInv(v.(waits := v.waits[t := Wait(events, Checked(0))]))
  {
    var w := v.(waits := v.waits[t := Wait(events, Checked(0))]);
    ComingSame(v, w);
    assert forall u | u in v.waits :: Disjoint(v.waits[u].events, events);
    forall u | u in w.waits ensures InStage(w, u, w.waits[u]) {
      if u != t { assert InStage(v, u, v.waits[u]); }
    }
  }

  lemma ComingSame<T, E>(v: View<T, E>, w: View<T, E>)
    requires w.queue == v.queue && w.popped == v.popped
    ensures forall x: Wait<E> :: Coming(v, x) == Coming(w, x)
  {
    forall x: Wait<E> ensures Coming(v, x) == Coming(w, x) {
      assert forall e: E :: OnItsWay(v, e) == OnItsWay(w, e);
    }
  }

  lemma WatchView<T, E>(v: View<T, E>, t: T, n: nat)
    requires ViewInv(v) && v.me == Some(t) && t in v.waits && v.waits[t].stage == Checked(n)
    requires n < |v.waits[t].events|
    ensures ViewInv(v.(waits := v.waits[t := v.waits[t].(stage := Checked(n + 1))],
                       watcher := v.watcher[v.waits[t].events[n] := t]))
  {
    var e := v.waits[t].events[n];
    var w := v.(waits := v.waits[t := v.waits[t].(stage := Checked(n + 1))],
                watcher := v.watcher[e := t]);
    ComingSame(v, w);
    assert InStage(v, t, v.waits[t]);
    forall u | u in w.waits ensures InStage(w, u, w.waits[u]) {
      assert InStage(v, u, v.waits[u]);
      if u != t {
        assert Disjoint(v.waits[t].events, v.waits[u].events) && e in v.waits[t].events;
        assert forall i :: 0 <= i < |v.waits[u].events| ==> v.waits[u].events[i] != e;
      }
    }
  }

  lemma BlockView<T, E>(v: View<T, E>, w: View<T, E>, t: T)
    requires ViewInv(v) && v.me == Some(t) && t in v.waits
    requires v.waits[t].stage == Checked(|v.waits[t].events|)
    requires w == v.(waits := v.waits[t := v.waits[t].(stage := Parked)], awake := w.awake, me := None)
    requires forall u | u in v.waits && u != t && u in v.awake :: u in w.awake
    ensures ViewInv(w)
  {
    ComingSame(v, w);
    forall u | u in w.waits ensures InStage(w, u, w.waits[u]) {
      assert InStage(v, u, v.waits[u]);
    }
  }

  lemma RecheckView<T, E>(v: View<T, E>, t: T)
    requires ViewInv(v) && v.me == Some(t) && t in v.waits && t !in v.ready
    requires v.waits[t].stage == Parked
    ensures ViewInv(v.(waits := v.waits[t := v.waits[t].(stage := Checked(|v.waits[t].events|))]))
  {
    var w := v.(waits := v.waits[t := v.waits[t].(stage := Checked(|v.waits[t].events|))]);
    ComingSame(v, w);
    forall u | u in w.waits ensures InStage(w, u, w.waits[u]) {
      assert InStage(v, u, v.waits[u]);
    }
  }

  /** Dispatch delivers the event it took: its watcher is awake afterwards. */
  lemma DeliverView<T, E>(v: View<T, E>, w: View<T, E>)
    requires ViewInv(v) && v.popped.Some? && w == v.(popped := None, awake := w.awake)
    requires v.awake <= w.awake
    requires v.popped.value in v.watcher && v.watcher[v.popped.value] in v.alive ==>
      v.watcher[v.popped.value] in w.awake
    ensures ViewInv(w)
  {
    var e := v.popped.value;
    forall u | u in w.waits ensures InStage(w, u, w.waits[u]) {
      assert InStage(v, u, v.waits[u]);
    }
    forall u | u in w.waits && u in w.ready
      ensures Coming(w, w.waits[u]) || (w.waits[u].stage == Parked && u in w.awake)
    {
      assert InStage(v, u, v.waits[u]);
      if Coming(v, v.waits[u]) {
        var f :| f in v.waits[u].events && OnItsWay(v, f);
        if f in v.queue {
          assert OnItsWay(w, f);
        } else {
          var i :| 0 <= i < |v.waits[u].events| && v.waits[u].events[i] == f;
          assert v.watcher[v.waits[u].events[i]] == u;
        }
      }
    }
  }

  // ----- Every step of the system -----

  lemma SetFrame<E>(m: EQ.Queue<E>, queue: seq<E>, e: E)
    requires EQ.Fifo(m, queue) && e in m.word
    ensures forall f | f in m.word && IsOn(m, f) :: IsOn(EQ.Set(m, e), f)
    ensures EQ.Fifo(EQ.Set(m, e), if m.word[e] == EQ.Idle then queue + [e] else queue)
  {
    EQ.SetAppends(m, queue, e);
  }

  lemma GrowView<T, E>(v: View<T, E>, on: set<E>, queue: seq<E>)
    requires ViewInv(v) && v.on <= on && forall e | e in v.queue :: e in queue
    ensures ViewInv(v.(on := on, queue := queue))
  {
    KeepsInv(v, v.(on := on, queue := queue));
  }

  lemma SetKeeps<T, E>(s: Sys<T, E>, e: E)
    requires ViewInv(ViewOf(s)) && EQ.Fifo(s.memory, s.queue) && e in s.memory.word
    ensures ViewInv(ViewOf(SetEvent(s, e)))
    ensures EQ.Fifo(SetEvent(s, e).memory, SetEvent(s, e).queue)
    ensures IsOn(s.memory, e) ==> e in SetEvent(s, e).queue
  {
    SetFrame(s.memory, s.queue, e);
    GrowView(ViewOf(s), ViewOf(SetEvent(s, e)).on, SetEvent(s, e).queue);
  }

  lemma SetEventView<T, E>(s: Sys<T, E>, e: E)
    requires SysInv(s) && e in s.memory.word
    ensures SysInv(SetEvent(s, e))
    ensures IsOn(s.memory, e) ==> e in SetEvent(s, e).queue
  {
    SetKeeps(s, e);
  }

  lemma FireInv<T, E>(s: Sys<T, E>, e: E, t: T)
    requires SysInv(s) && Can(s, Fire(e, t))
    ensures SysInv(Next(s, Fire(e, t)))
  {
    SetEventView(s, e);
    if t in s.waits { assert e in ViewOf(s).on; }
    FireView(ViewOf(SetEvent(s, e)), e, t);
  }

  lemma ConsumeView<T, E>(v: View<T, E>, t: T)
    requires ViewInv(v)
    ensures ViewInv(v.(ready := v.ready - {t}))
  {
    KeepsInv(v, v.(ready := v.ready - {t}));
  }

  lemma ConsumeInv<T, E>(s: Sys<T, E>, t: T)
    requires SysInv(s)
    ensures SysInv(s.(ready := s.ready - {t}))
  {
    ConsumeView(ViewOf(s), t);
    assert ViewOf(s.(ready := s.ready - {t})) == ViewOf(s).(ready := s.ready - {t});
  }

  lemma BeginWaitInv<T, E>(s: Sys<T, E>, events: seq<E>)
    requires SysInv(s) && Can(s, BeginWait(events))
    ensures SysInv(Next(s, BeginWait(events)))
  {
    var t := s.sched.running.value;
    forall u | u in s.waits ensures Disjoint(events, s.waits[u].events) {
      forall e | e in events ensures e !in s.waits[u].events {
        assert !Awaited(s, e);
      }
    }
    BeginView(ViewOf(s), t, events);
  }

  lemma WatchInv<T, E>(s: Sys<T, E>)
    requires SysInv(s) && Can(s, Watch)
    ensures SysInv(Next(s, Watch))
  {
    WatchView(ViewOf(s), Me(s), s.waits[Me(s)].stage.watched);
  }

  lemma BlockInv<T, E>(s: Sys<T, E>, deadline: Option<nat>)
    requires SysInv(s) && Can(s, Block(deadline))
    ensures SysInv(Next(s, Block(deadline)))
  {
    match deadline {
      case None => ParkInv(s.sched);
      case Some(d) => SleepInv(s.sched, d);
    }
    BlockView(ViewOf(s), ViewOf(Next(s, Block(deadline))), Me(s));
  }

  lemma LeaveInv<T, E>(s: Sys<T, E>, op: WaitOp<T, E>)
    requires SysInv(s) && Can(s, op) && (op == EndWait || op == Raise)
    ensures SysInv(Next(s, op))
  {
    var t, v, w := Me(s), ViewOf(s), ViewOf(Next(s, op));
    forall u, e | u in w.waits && e in w.waits[u].events ensures KeepsEvent(v, w, u, e) {
      assert Disjoint(v.waits[u].events, v.waits[t].events);
    }
    KeepsInv(v, w);
  }

  lemma EnableInv<T, E>(s: Sys<T, E>, e: E)
    requires SysInv(s) && Can(s, EnableEvent(e))
    ensures SysInv(Next(s, EnableEvent(e)))
  {
    var r := Next(s, EnableEvent(e));
    EQ.StepRefines(s.memory, s.queue, EQ.OpEnable(e));
    var v, w := ViewOf(s), ViewOf(r);
    assert v.on <= w.on && w == v.(on := w.on);
    GrowView(v, w.on, v.queue);
  }

  lemma DisableInv<T, E>(s: Sys<T, E>, e: E, word: EQ.Word<E>)
    requires SysInv(s) && Can(s, DisableEvent(e, word))
    ensures SysInv(Next(s, DisableEvent(e, word)))
  {
    var r := Next(s, DisableEvent(e, word));
    var v, w := ViewOf(s), ViewOf(r);
    EQ.DisableKeepsFifoIff(s.memory, s.queue, e, word);
    DisableFrame(s.memory, s.queue, e, word);
    forall u, f | u in w.waits && f in w.waits[u].events ensures KeepsEvent(v, w, u, f) {
      assert u in s.waits && Awaited(s, f);
    }
    KeepsInv(v, w);
  }

  /** Disabling one event leaves every other enabled event enabled and in the queue. */
  lemma DisableFrame<E>(m: EQ.Queue<E>, queue: seq<E>, e: E, word: EQ.Word<E>)
    requires EQ.Fifo(m, queue) && e in m.word && !word.Pending? && !EQ.LeavesTail(m, e)
    requires m.word[e].Pending? ==> e in queue
    ensures forall f | f in m.word && f != e && IsOn(m, f) :: IsOn(EQ.Disable(m, queue, e, word), f)
    ensures e in queue ==> forall f | f in queue && f != e :: f in EQ.RemoveAt(queue, EQ.Index(queue, e))
  {
    EQ.FifoMembers(m, queue);
    if e in queue { EQ.RemoveAtMembers(queue, EQ.Index(queue, e)); }
  }

  /** A scheduler step of somebody else leaves a live thread alive and an active one active. */
  lemma OthersStayAwake<T>(s: Sched<T>, op: Scheduling.Op<T>, t: T)
    requires Inv(s) && Scheduling.Enabled(s, op)
    requires t in s.info && s.info[t].state != Dead
    requires s.inside ==> s.running != Some(t)
    requires !(op.OpKill? && op.t == t)
    ensures t in Step(s, op).info && Step(s, op).info[t].state != Dead
    ensures s.info[t].state == Active ==> Step(s, op).info[t].state == Active
  {
    match op
    case OpKill(u, order) =>
      if s.info[u].state != Dead { SJ.KillWakesJoiners(s, u, order); UnlinkOther(s, u, t); }
    case OpTerminate(order) => SJ.TerminateWakesJoiners(s, order);
    case OpPick(ticks) => SpliceExact(s, ticks); SpliceInv(s, ticks); SJ.ChooseFrame(Splice(s, ticks));
    case OpResume(u) => SJ.ResumeExact(s, u);
    case _ =>
  }

  lemma UnlinkOther<T>(s: Sched<T>, u: T, t: T)
    requires u in s.info && t in s.info && t != u
    ensures Unlink(s, u).info[t] == s.info[t]
  {
  }

  /** No thread but the running one and those killed dies or falls asleep. */
  ghost predicate Undisturbed<T>(s: Sched<T>, next: Sched<T>, killed: set<T>) {
    forall t | t in s.info && t !in killed && s.info[t].state != Dead && (s.inside ==> s.running != Some(t)) ::
      && t in next.info && next.info[t].state != Dead
      && (s.info[t].state == Active ==> next.info[t].state == Active)
  }

  lemma OthersUndisturbed<T>(s: Sched<T>, op: Scheduling.Op<T>)
    requires Inv(s) && Scheduling.Enabled(s, op)
    ensures Undisturbed(s, Step(s, op), if op.OpKill? then {op.t} else {})
  {
    forall t | t in s.info && !(op.OpKill? && op.t == t) && s.info[t].state != Dead
        && (s.inside ==> s.running != Some(t))
      ensures t in Step(s, op).info && Step(s, op).info[t].state != Dead
      ensures s.info[t].state == Active ==> Step(s, op).info[t].state == Active
    {
      OthersStayAwake(s, op, t);
    }
  }

  /** The protocol survives a change of the scheduler by somebody else, in which `killed`
      may die. */
  lemma SchedView<T, E>(s: Sys<T, E>, next: Sched<T>, killed: set<T>)
    requires ViewInv(ViewOf(s)) && !InWait(s)
    requires next.inside ==> s.popped == None
    requires Undisturbed(s.sched, next, killed)
    ensures ViewInv(ViewOf(s.(sched := next, waits := s.waits - killed)))
  {
    var v, w := ViewOf(s), ViewOf(s.(sched := next, waits := s.waits - killed));
    forall u | u in w.waits
      ensures u in w.alive && (u in v.awake ==> u in w.awake) && w.waits[u].stage == Parked
    {
      assert InStage(v, u, v.waits[u]);
    }
    KeepsInv(v, w);
  }

  lemma OnlyPassesGiveControl<T>(s: Sched<T>, op: Scheduling.Op<T>)
    requires Inv(s) && Scheduling.Enabled(s, op) && !op.OpPick? && !s.inside
    ensures !Step(s, op).inside
  {
    if op.OpResume? { SJ.ResumeExact(s, op.t); }
  }

  lemma SchedCoherent<T, E>(s: Sys<T, E>, next: Sched<T>, killed: set<T>)
    requires SysInv(s) && Inv(next) && ViewInv(ViewOf(s.(sched := next, waits := s.waits - killed)))
    ensures SysInv(s.(sched := next, waits := s.waits - killed))
  {
    var r := s.(sched := next, waits := s.waits - killed);
    assert r.waits.Keys == ViewOf(r).waits.Keys <= ViewOf(r).alive;
  }

  function Killed<T(==)>(op: Scheduling.Op<T>): set<T> { if op.OpKill? then {op.t} else {} }

  lemma SchedNext<T, E>(s: Sys<T, E>, op: Scheduling.Op<T>)
    requires Coherent(s) && Can(s, SchedOp(op))
    ensures Next(s, SchedOp(op)) == s.(sched := Step(s.sched, op), waits := s.waits - Killed(op))
  {
    assert s.waits - {} == s.waits;
  }

  lemma SchedShows<T, E>(s: Sys<T, E>, op: Scheduling.Op<T>)
    requires Inv(s.sched) && ViewInv(ViewOf(s)) && Scheduling.Enabled(s.sched, op)
    requires (if op.OpPick? then s.popped == None else s.sched.inside ==> !InWait(s))
    ensures Inv(Step(s.sched, op))
    ensures ViewInv(ViewOf(s.(sched := Step(s.sched, op), waits := s.waits - Killed(op))))
  {
    StepInv(s.sched, op);
    OthersUndisturbed(s.sched, op);
    if !op.OpPick? && !s.sched.inside { OnlyPassesGiveControl(s.sched, op); }
    SchedView(s, Step(s.sched, op), Killed(op));
  }

  lemma SchedInv<T, E>(s: Sys<T, E>, op: Scheduling.Op<T>)
    requires SysInv(s) && Can(s, SchedOp(op))
    ensures SysInv(Next(s, SchedOp(op)))
  {
    SchedShows(s, op);
    SchedCoherent(s, Step(s.sched, op), Killed(op));
    SchedNext(s, op);
  }

  lemma TakeView<T, E>(v: View<T, E>, w: View<T, E>)
    requires ViewInv(v) && v.queue != [] && v.popped == None && v.me == None
    requires w == v.(queue := v.queue[1..], popped := Some(v.queue[0]))
    ensures ViewInv(w)
  {
    assert v.queue == [v.queue[0]] + v.queue[1..];
    assert forall e :: OnItsWay(v, e) ==> OnItsWay(w, e);
    KeepsInv(v, w);
  }

  lemma TakeShows<T, E>(s: Sys<T, E>)
    requires Coherent(s) && s.queue != []
    ensures ViewOf(Take(s)) == ViewOf(s).(queue := s.queue[1..], popped := Some(s.queue[0]))
    ensures EQ.Fifo(Take(s).memory, Take(s).queue)
  {
    EQ.PopTakesFirst(s.memory, s.queue);
    var v, w := ViewOf(s), ViewOf(Take(s));
    assert forall e | e in s.memory.word :: IsOn(Take(s).memory, e) == IsOn(s.memory, e);
    assert w.on == v.on;
  }

  lemma TakeInv<T, E>(s: Sys<T, E>)
    requires SysInv(s) && Can(s, TakeEvent)
    ensures SysInv(Next(s, TakeEvent))
  {
    TakeShows(s);
    TakeView(ViewOf(s), ViewOf(Take(s)));
  }

  lemma DeliverInv<T, E>(s: Sys<T, E>)
    requires SysInv(s) && Can(s, Deliver)
    ensures SysInv(Next(s, Deliver))
  {
    var e := s.popped.value;
    if e in s.watcher && s.watcher[e] in s.sched.info {
      ResumeInv(s.sched, s.watcher[e]);
      SJ.ResumeExact(s.sched, s.watcher[e]);
    }
    DeliverView(ViewOf(s), ViewOf(Next(s, Deliver)));
  }

  lemma NextInv<T, E>(s: Sys<T, E>, op: WaitOp<T, E>)
    requires SysInv(s) && Can(s, op)
    ensures SysInv(Next(s, op))
  {
    match op
    case Fire(e, t) => FireInv(s, e, t);
    case Signal(e) => SetEventView(s, e);
    case Consume(t) => ConsumeInv(s, t);
    case BeginWait(events) => BeginWaitInv(s, events);
    case Watch => WatchInv(s);
    case Block(deadline) => BlockInv(s, deadline);
    case Recheck => RecheckView(ViewOf(s), Me(s));
    case EndWait => LeaveInv(s, op);
    case Raise => LeaveInv(s, op);
    case EnableEvent(e) => EnableInv(s, e);
    case DisableEvent(e, word) => DisableInv(s, e, word);
    case SchedOp(o) => SchedInv(s, o);
    case TakeEvent => TakeInv(s);
    case Deliver => DeliverInv(s);
  }

  // ----- Runs -----

  /** Coherent is there for the steps to be defined; by NextInv it always holds. */
  predicate ValidRun<T(==), E(==)>(s: Sys<T, E>, ops: seq<WaitOp<T, E>>)
    decreases ops
  {
    ops == [] || (Coherent(s) && Can(s, ops[0]) && ValidRun(Next(s, ops[0]), ops[1..]))
  }

  function After<T(==), E(==)>(s: Sys<T, E>, ops: seq<WaitOp<T, E>>): Sys<T, E>
    requires ValidRun(s, ops)
    decreases ops
  {
    if ops == [] then s else After(Next(s, ops[0]), ops[1..])
  }

  lemma {:induction false} RunKeepsInv<T, E>(s: Sys<T, E>, ops: seq<WaitOp<T, E>>)
    requires SysInv(s) && ValidRun(s, ops)
    ensures SysInv(After(s, ops))
    decreases ops
  {
    if ops != [] {
      NextInv(s, ops[0]);
      RunKeepsInv(Next(s, ops[0]), ops[1..]);
    }
  }

  /** Whatever happens from a state in which nobody waits, no wakeup is ever lost. */
  lemma NoWakeupIsLost<T, E>(s: Sys<T, E>, ops: seq<WaitOp<T, E>>)
    requires Coherent(s) && s.waits == map[] && s.popped == None && ValidRun(s, ops)
    ensures NoLostWakeup(ViewOf(After(s, ops)))
  {
    assert ViewInv(ViewOf(s));
    RunKeepsInv(s, ops);
  }

  /** Once dispatch has emptied the queue, every suspended thread whose condition holds is
      on the active queue. */
  lemma DispatchWakesTheReady<T, E>(s: Sys<T, E>, t: T) returns (k: nat)
    requires SysInv(s) && s.queue == [] && s.popped == None
    requires t in s.waits && t in s.ready && s.sched.running != Some(t)
    ensures s.waits[t].stage == Parked && Waits(s.sched, t, k)
  {
    var v := ViewOf(s);
    assert InStage(v, t, v.waits[t]);
    assert t in v.awake by {
      assert forall e :: !OnItsWay(v, e);
    }
    k :| 0 <= k < |s.sched.active| && s.sched.active[k] == t;
  }

  predicate Spares<T(==), E>(ops: seq<WaitOp<T, E>>, t: T) {
    forall i :: 0 <= i < |ops| ==> !(ops[i].SchedOp? && ops[i].op.OpKill? && ops[i].op.t == t)
  }

  predicate IsPass<T, E>(op: WaitOp<T, E>) {
    op.SchedOp? && op.op.OpPick?
  }

  function PassCount<T, E>(ops: seq<WaitOp<T, E>>): nat {
    if ops == [] then 0 else (if IsPass(ops[0]) then 1 else 0) + PassCount(ops[1..])
  }

  /** One of the first `passes` passes of the run gives control to `t`. */
  predicate GetsControl<T(==), E(==)>(s: Sys<T, E>, ops: seq<WaitOp<T, E>>, t: T, passes: nat)
    requires ValidRun(s, ops)
    decreases ops
  {
    ops != [] &&
    var r := Next(s, ops[0]);
    if IsPass(ops[0]) then
      passes > 0 && (In(r, t) || GetsControl(r, ops[1..], t, passes - 1))
    else GetsControl(r, ops[1..], t, passes)
  }

  lemma BlockKeepsPlace<T, E>(s: Sys<T, E>, deadline: Option<nat>, t: T, k: nat)
    requires SysInv(s) && Can(s, Block(deadline)) && Waits(s.sched, t, k)
    ensures Waits(Next(s, Block(deadline)).sched, t, k)
  {
    assert s.sched.running != Some(t);
  }

  lemma DeliverKeepsPlace<T, E>(s: Sys<T, E>, t: T, k: nat)
    requires SysInv(s) && Can(s, Deliver) && Waits(s.sched, t, k)
    ensures Waits(Next(s, Deliver).sched, t, k)
  {
    var e := s.popped.value;
    if e in s.watcher && s.watcher[e] in s.sched.info {
      OtherStepWaits(s.sched.(inside := false), OpResume(s.watcher[e]), t, k);
    }
  }

  lemma NextKeepsPlace<T, E>(s: Sys<T, E>, op: WaitOp<T, E>, t: T, k: nat)
    requires SysInv(s) && Can(s, op) && Waits(s.sched, t, k) && !IsPass(op)
    requires !(op.SchedOp? && op.op.OpKill? && op.op.t == t)
    ensures Waits(Next(s, op).sched, t, k)
  {
    match op
    case SchedOp(o) => OtherStepWaits(s.sched, o, t, k);
    case Block(deadline) => BlockKeepsPlace(s, deadline, t, k);
    case Deliver => DeliverKeepsPlace(s, t, k);
    case _ => assert Next(s, op).sched == s.sched;
  }

  lemma PassAdvances<T, E>(s: Sys<T, E>, op: WaitOp<T, E>, t: T, k: nat) returns (j: nat)
    requires SysInv(s) && Can(s, op) && IsPass(op) && Waits(s.sched, t, k)
    ensures In(Next(s, op), t) || (j < k && Waits(Next(s, op).sched, t, j))
  {
    j := PickAdvances(s.sched, op.op.ticks, t, k);
    if Next(s, op).sched.running == Some(t) {
      PickRunsIffRunnable(s.sched, op.op.ticks);
      assert Runnable(s.sched, t, op.op.ticks);
    }
  }

  lemma NextPlace<T, E>(s: Sys<T, E>, op: WaitOp<T, E>, t: T, k: nat) returns (j: nat)
    requires SysInv(s) && Can(s, op) && Waits(s.sched, t, k)
    requires !(op.SchedOp? && op.op.OpKill? && op.op.t == t)
    ensures SysInv(Next(s, op))
    ensures (IsPass(op) && In(Next(s, op), t)) || Waits(Next(s, op).sched, t, j)
    ensures if IsPass(op) then In(Next(s, op), t) || j < k else j == k
  {
    NextInv(s, op);
    if IsPass(op) {
      j := PassAdvances(s, op, t, k);
    } else {
      j := k;
      NextKeepsPlace(s, op, t, k);
    }
  }

  lemma {:induction false} PlaceLeadsToControl<T, E>(
    s: Sys<T, E>, ops: seq<WaitOp<T, E>>, t: T, k: nat, passes: nat)
    requires SysInv(s) && ValidRun(s, ops) && Waits(s.sched, t, k)
    requires Spares(ops, t) && PassCount(ops) > k && passes > k
    ensures GetsControl(s, ops, t, passes)
    decreases ops
  {
    var op, rest := ops[0], ops[1..];
    var j := NextPlace(s, op, t, k);
    assert Spares(rest, t);
    var r := Next(s, op);
    if !(IsPass(op) && In(r, t)) {
      PlaceLeadsToControl(r, rest, t, j, if IsPass(op) then passes - 1 else passes);
    }
  }

  /** A suspended thread whose condition has become true gets control to check it again
      within as many passes as there are active threads when dispatch is done, whatever
      interrupts, timers and other threads do, unless it is killed. */
  lemma ReadyWaiterGetsControl<T, E>(s: Sys<T, E>, ops: seq<WaitOp<T, E>>, t: T)
    requires SysInv(s) && s.queue == [] && s.popped == None
    requires t in s.waits && t in s.ready && s.sched.running != Some(t)
    requires ValidRun(s, ops) && Spares(ops, t) && PassCount(ops) >= |s.sched.active|
    ensures GetsControl(s, ops, t, |s.sched.active|)
  {
    var k := DispatchWakesTheReady(s, t);
    PlaceLeadsToControl(s, ops, t, k, |s.sched.active|);
  }
}
