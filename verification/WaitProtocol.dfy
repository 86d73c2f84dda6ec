/** mlua_event_wait(): check, watch, suspend, and the interrupts, event dispatch and
    scheduling that happen in between. The steps are the stretches of code between which
    an interrupt can occur. */
module WaitProtocol {
  import opened Options
  import opened Scheduling
  import EQ = EventQueues

  /** Where a thread is in mlua_event_wait(): its last check failed and it has watched the
      first `watched` events, or it has suspended and not checked again yet. */
  datatype Stage = Checked(watched: nat) | Parked

  datatype Wait<E> = Wait(events: seq<E>, stage: Stage)

  /** `memory` and `queue` are the events and the pending queue, `popped` the event that
      dispatch has taken and not yet delivered, `watcher` the registry. `ready` holds the
      threads for which the next check of the condition succeeds: interrupts make conditions
      true, whoever takes what a thread waits for makes them false. */
  datatype Sys<T(==), E(==)> = Sys(
    sched: Sched<T>, memory: EQ.Queue<E>, queue: seq<E>, popped: Option<E>,
    watcher: map<E, T>, waits: map<T, Wait<E>>, ready: set<T>)

  datatype WaitOp<T, E> =
    | Fire(e: E, t: T)              // interrupt: make the condition of t true, set e
    | Signal(e: E)                  // interrupt: set e
    | Consume(t: T)                 // somebody makes the condition of t false again
    | BeginWait(events: seq<E>)     // the first check fails
    | Watch                         // watch_event() for the next event of the mask
    | Block(deadline: Option<nat>)  // mlua_thread_suspend()
    | Recheck                       // mlua_event_wait_2(): the condition does not hold
    | EndWait                       // mlua_event_wait_2(): it does, or the deadline passed
    | Raise                         // the check raised an error
    | EnableEvent(e: E)
    | DisableEvent(e: E, word: EQ.Word<E>)
    | SchedOp(op: Scheduling.Op<T>)   // anything else a thread does, or a pass
    | TakeEvent                     // dispatch: lines 140-146 of event.c
    | Deliver                       // dispatch: line 148

  predicate IsOn<E(==)>(m: EQ.Queue<E>, e: E) {
    e in m.word && (m.word[e].Idle? || m.word[e].Pending?)
  }

  predicate Awaited<T(==), E(==)>(s: Sys<T, E>, e: E) {
    exists t | t in s.waits :: e in s.waits[t].events
  }

  /** Control is inside thread t. */
  predicate In<T(==), E(==)>(s: Sys<T, E>, t: T) {
    s.sched.inside && s.sched.running == Some(t)
  }

  predicate InWait<T(==), E(==)>(s: Sys<T, E>) {
    s.sched.inside && s.sched.running.Some? && s.sched.running.value in s.waits
  }

  /** Inside a thread that is neither waiting for events nor joining. */
  predicate AtLarge<T(==), E(==)>(s: Sys<T, E>) {
    Free(s.sched) && s.sched.running.value !in s.waits
  }

  function Me<T(==), E(==)>(s: Sys<T, E>): T
    requires InWait(s)
  {
    s.sched.running.value
  }

  predicate Can<T(==), E(==)>(s: Sys<T, E>, op: WaitOp<T, E>) {
    match op
    case Fire(e, t) =>
      && e in s.memory.word && EQ.Sane(s.memory)
      && (t in s.waits ==> e in s.waits[t].events)
    case Signal(e) => e in s.memory.word && EQ.Sane(s.memory)
    case Consume(_) => true
    case BeginWait(events) =>
      && AtLarge(s) && s.sched.running.value !in s.ready
      && (forall e | e in events :: IsOn(s.memory, e) && !Awaited(s, e))
    case Watch =>
      && InWait(s) && s.waits[Me(s)].stage.Checked?
      && s.waits[Me(s)].stage.watched < |s.waits[Me(s)].events|
    case Block(_) => InWait(s) && s.waits[Me(s)].stage == Checked(|s.waits[Me(s)].events|)
    case Recheck => InWait(s) && s.waits[Me(s)].stage == Parked && Me(s) !in s.ready
    case EndWait => InWait(s) && s.waits[Me(s)].stage == Parked
    case Raise => InWait(s) && s.waits[Me(s)].stage == Parked
    case EnableEvent(e) => AtLarge(s) && e in s.memory.word
    case DisableEvent(e, word) =>
      && AtLarge(s) && e in s.memory.word && (word == EQ.Disabled || word == EQ.Abandoned)
      && !Awaited(s, e) && !EQ.LeavesTail(s.memory, e)
    case SchedOp(op) =>
      && Scheduling.Enabled(s.sched, op)
      && (if op.OpPick? then s.popped == None else s.sched.inside ==> !InWait(s))
    case TakeEvent => !s.sched.inside && s.popped == None && s.queue != []
    case Deliver => s.popped.Some?
  }

  function SetEvent<T(==), E(==)>(s: Sys<T, E>, e: E): Sys<T, E>
    requires e in s.memory.word && EQ.Sane(s.memory)
  {
    s.(memory := EQ.Set(s.memory, e),
       queue := if s.memory.word[e] == EQ.Idle then s.queue + [e] else s.queue)
  }

  predicate Coherent<T(==), E(==)>(s: Sys<T, E>) {
    && Scheduling.Inv(s.sched) && EQ.Fifo(s.memory, s.queue)
    && s.waits.Keys <= s.sched.info.Keys
  }

  function Suspend<T(==)>(s: Sched<T>, deadline: Option<nat>): Sched<T>
    requires Scheduling.Inv(s) && s.running.Some?
  {
    match deadline
    case None => Park(s)
    case Some(d) => Sleep(s, d)
  }

  function SetWait<T(==), E(==)>(s: Sys<T, E>, stage: Stage): Sys<T, E>
    requires InWait(s)
  {
    s.(waits := s.waits[Me(s) := s.waits[Me(s)].(stage := stage)])
  }

  function WatchOne<T(==), E(==)>(s: Sys<T, E>): Sys<T, E>
    requires InWait(s) && s.waits[Me(s)].stage.Checked?
    requires s.waits[Me(s)].stage.watched < |s.waits[Me(s)].events|
  {
    var w := s.waits[Me(s)];
    SetWait(s, Checked(w.stage.watched + 1))
      .(watcher := s.watcher[w.events[w.stage.watched] := Me(s)])
  }

  function LeaveWait<T(==), E(==)>(s: Sys<T, E>): Sys<T, E>
    requires InWait(s)
  {
    s.(watcher := s.watcher - (set e | e in s.waits[Me(s)].events),
       waits := s.waits - {Me(s)}, ready := s.ready - {Me(s)})
  }

  function Drop<T(==), E(==)>(s: Sys<T, E>, e: E, word: EQ.Word<E>): Sys<T, E>
    requires EQ.Fifo(s.memory, s.queue) && e in s.memory.word
  {
    EQ.FifoMembers(s.memory, s.queue);
    s.(memory := EQ.Disable(s.memory, s.queue, e, word),
       queue := if e in s.queue then EQ.RemoveAt(s.queue, EQ.Index(s.queue, e)) else s.queue,
       watcher := s.watcher - {e})
  }

  function Take<T(==), E(==)>(s: Sys<T, E>): Sys<T, E>
    requires EQ.Fifo(s.memory, s.queue) && s.queue != []
  {
    EQ.FifoMembers(s.memory, s.queue);
    s.(memory := EQ.Pop(s.memory), queue := s.queue[1..], popped := Some(s.queue[0]))
  }

  function Wake<T(==), E(==)>(s: Sys<T, E>): Sys<T, E>
    requires s.popped.Some?
  {
    var e := s.popped.value;
    s.(popped := None,
       sched := if e in s.watcher && s.watcher[e] in s.sched.info
                then Resume(s.sched, s.watcher[e]) else s.sched)
  }

  function Next<T(==), E(==)>(s: Sys<T, E>, op: WaitOp<T, E>): Sys<T, E>
    requires Coherent(s) && Can(s, op)
  {
    match op
    case Fire(e, t) => SetEvent(s, e).(ready := s.ready + {t})
    case Signal(e) => SetEvent(s, e)
    case Consume(t) => s.(ready := s.ready - {t})
    case BeginWait(events) =>
      s.(waits := s.waits[s.sched.running.value := Wait(events, Checked(0))])
    case Watch => WatchOne(s)
    case Block(deadline) => SetWait(s, Parked).(sched := Suspend(s.sched, deadline))
    case Recheck => SetWait(s, Checked(|s.waits[Me(s)].events|))
    case EndWait => LeaveWait(s)
    case Raise => s.(waits := s.waits - {Me(s)})
    case EnableEvent(e) => s.(memory := EQ.Enable(s.memory, e))
    case DisableEvent(e, word) => Drop(s, e, word)
    case SchedOp(op) =>
      s.(sched := Step(s.sched, op),
         waits := if op.OpKill? then s.waits - {op.t} else s.waits)
    case TakeEvent => Take(s)
    case Deliver => Wake(s)
  }

  // ----- The invariant -----

  /** What the waiting protocol depends on: the events that are enabled, the threads that
      are active and those that are not dead, the thread control is in. */
  datatype View<T(==), E(==)> = View(
    waits: map<T, Wait<E>>, ready: set<T>, watcher: map<E, T>, on: set<E>, queue: seq<E>,
    popped: Option<E>, awake: set<T>, alive: set<T>, me: Option<T>)

  function ViewOf<T(==), E(==)>(s: Sys<T, E>): View<T, E> {
    View(s.waits, s.ready, s.watcher, (set e | e in s.memory.word && IsOn(s.memory, e)), s.queue,
         s.popped, (set t | t in s.sched.info && s.sched.info[t].state == Active),
         (set t | t in s.sched.info && s.sched.info[t].state != Dead),
         if s.sched.inside then s.sched.running else None)
  }

  /** The event is pending, or dispatch has taken it and is about to deliver it. */
  predicate OnItsWay<T(==), E(==)>(v: View<T, E>, e: E) {
    e in v.queue || v.popped == Some(e)
  }

  predicate Coming<T(==), E(==)>(v: View<T, E>, w: Wait<E>) {
    exists e | e in w.events :: OnItsWay(v, e)
  }

  /** A waiting thread whose condition holds is active or about to be woken; until it has
      suspended, the wakeup is still on its way. */
  predicate NoLostWakeup<T(==), E(==)>(v: View<T, E>) {
    forall t | t in v.waits && t in v.ready ::
      Coming(v, v.waits[t]) || (v.waits[t].stage == Parked && t in v.awake)
  }

  predicate Watched<T(==), E(==)>(v: View<T, E>, t: T, w: Wait<E>, n: nat) {
    n <= |w.events| && forall i :: 0 <= i < n ==>
      w.events[i] in v.watcher && v.watcher[w.events[i]] == t
  }

  predicate InStage<T(==), E(==)>(v: View<T, E>, t: T, w: Wait<E>) {
    match w.stage
    case Checked(n) => v.me == Some(t) && Watched(v, t, w, n)
    case Parked => Watched(v, t, w, |w.events|)
  }

  predicate Disjoint<E(==)>(a: seq<E>, b: seq<E>) {
    forall e | e in a :: e !in b
  }

  predicate ViewInv<T(==), E(==)>(v: View<T, E>) {
    && v.waits.Keys <= v.alive
    && (forall t | t in v.waits :: InStage(v, t, v.waits[t]))
    && (forall t | t in v.waits :: forall e | e in v.waits[t].events :: e in v.on)
    && (forall t, u | t in v.waits && u in v.waits && t != u ::
          Disjoint(v.waits[t].events, v.waits[u].events))
    && (v.me.Some? ==> v.popped == None)
    && NoLostWakeup(v)
  }

  predicate SysInv<T(==), E(==)>(s: Sys<T, E>) {
    Coherent(s) && ViewInv(ViewOf(s))
  }
}
