/** The thread scheduler of lib/common/mlua.thread.c as a state machine on values.

    `active` is the HEAD..TAIL chain, `timers` the TIMERS chain, `running` the local
    variable of the same name in the main loop, `info` the per-thread data, `threads`
    and `joiners` the THREADS and JOINERS tables. `inside` says that control is inside
    the running thread rather than in the main loop. `stamp`, `clock` and `joining`
    are history: the order in which threads went to sleep, and which thread is inside
    a call to Thread.join on which target. */
module Scheduling {
  import opened Options
  import opened Sequences

  datatype State = Active | Suspended | Timer | Dead

  datatype Info = Info(state: State, deadline: nat, stamp: nat)

  datatype Joiners<T(==)> = One(joiner: T) | Table(joiners: set<T>) {
    function Threads(): set<T> { if One? then {joiner} else joiners }
  }

  datatype Sched<T(==)> = Sched(
    active: seq<T>, timers: seq<T>, running: Option<T>, inside: bool,
    info: map<T, Info>, clock: nat,
    threads: set<T>, joiners: map<T, Joiners<T>>, joining: map<T, T>)

  function Empty<T(==)>(): Sched<T> {
    Sched([], [], None, false, map[], 0, {}, map[], map[])
  }

  // ----- List operations -----

  function Remove<T(==)>(q: seq<T>, t: T): seq<T> {
    if q == [] then [] else if q[0] == t then q[1..] else [q[0]] + Remove(q[1..], t)
  }

  /** Where the walk over the timer list stops: before the first later deadline. */
  function Insert<T(==)>(q: seq<T>, info: map<T, Info>, t: T, deadline: nat): seq<T>
    requires forall u | u in q :: u in info
  {
    if q == [] || deadline < info[q[0]].deadline then [t] + q
    else [q[0]] + Insert(q[1..], info, t, deadline)
  }

  function ExpiredCount<T(==)>(q: seq<T>, info: map<T, Info>, ticks: nat): (n: nat)
    requires forall u | u in q :: u in info
    ensures n <= |q|
  {
    if q == [] || info[q[0]].deadline > ticks then 0
    else 1 + ExpiredCount(q[1..], info, ticks)
  }

  function DropDead<T(==)>(q: seq<T>, info: map<T, Info>): seq<T>
    requires forall u | u in q :: u in info
  {
    if q == [] || info[q[0]].state != Dead then q else DropDead(q[1..], info)
  }

  // ----- Scheduler operations -----

  predicate Known<T(==)>(s: Sched<T>) {
    && (forall t | t in s.active :: t in s.info)
    && (forall t | t in s.timers :: t in s.info)
    && (s.running.Some? ==> s.running.value in s.info)
  }

  function SetState<T(==)>(s: Sched<T>, t: T, state: State): Sched<T>
    requires t in s.info
  {
    s.(info := s.info[t := s.info[t].(state := state)])
  }

  /** Take a thread off the timer list if it is on it. */
  function Unlink<T(==)>(s: Sched<T>, t: T): Sched<T>
    requires t in s.info
  {
    if s.info[t].state == Timer then SetState(s, t, Suspended).(timers := Remove(s.timers, t))
    else s
  }

  function Activate<T(==)>(s: Sched<T>, t: T): Sched<T>
    requires t in s.info
  {
    SetState(s, t, Active).(active := s.active + [t])
  }

  /** resume() at line 206. */
  function Resume<T(==)>(s: Sched<T>, t: T): (r: Sched<T>)
    requires t in s.info
    ensures r.info.Keys == s.info.Keys
  {
    var state := s.info[t].state;
    if state == Active || state == Dead then s else Activate(Unlink(s, t), t)
  }

  function ResumeAll<T(==)>(s: Sched<T>, order: seq<T>): (r: Sched<T>)
    requires forall t | t in order :: t in s.info
    ensures r.info.Keys == s.info.Keys
    decreases order
  {
    if order == [] then s else ResumeAll(Resume(s, order[0]), order[1..])
  }

  function Recorded<T(==)>(s: Sched<T>, t: T): set<T> {
    if t in s.joiners then s.joiners[t].Threads() else {}
  }

  /** An order in which the joiners recorded under `t` may be visited: the iteration
      order of a Lua table is unspecified. */
  predicate IsOrder<T(==)>(s: Sched<T>, t: T, order: seq<T>) {
    Distinct(order) && (set u | u in order) == Recorded(s, t)
  }

  function MarkDead<T(==)>(s: Sched<T>, t: T): Sched<T>
    requires t in s.info
  {
    SetState(s, t, Dead).(joiners := s.joiners - {t}, threads := s.threads - {t})
  }

  /** The common end of kill and of termination: mark the thread dead, drop its JOINERS
      and THREADS entries, wake its joiners. */
  function Bury<T(==)>(s: Sched<T>, t: T, order: seq<T>): Sched<T>
    requires t in s.info && forall u | u in order :: u in s.info
  {
    ResumeAll(MarkDead(s, t), order)
  }

  /** Thread_kill at line 244. */
  function Kill<T(==)>(s: Sched<T>, t: T, order: seq<T>): Sched<T>
    requires t in s.info && forall u | u in order :: u in s.info
  {
    if s.info[t].state == Dead then s else Bury(Unlink(s, t), t, order)
  }

  /** mod_start at line 392. */
  function Start<T(==)>(s: Sched<T>, t: T): Sched<T> {
    s.(info := s.info[t := Info(Active, 0, 0)],
       threads := s.threads + {t},
       active := s.active + [t])
  }

  /** The three cases of Thread_join, lines 312-339. The third one stores the joined
      thread, not the joining one. */
  function Record<T(==)>(s: Sched<T>, target: T, joiner: T): Joiners<T> {
    if target !in s.joiners then One(joiner)
    else match s.joiners[target]
      case One(first) => Table({joiner, first})
      case Table(all) => Table(all + {target})
  }

  function Park<T(==)>(s: Sched<T>): Sched<T>
    requires s.running.Some? && s.running.value in s.info
  {
    SetState(s, s.running.value, Suspended).(running := None, inside := false)
  }

  function Join<T(==)>(s: Sched<T>, target: T): Sched<T>
    requires s.running.Some? && s.running.value in s.info && target in s.info
  {
    if s.info[target].state == Dead then s
    else Park(s.(joiners := s.joiners[target := Record(s, target, s.running.value)],
                 joining := s.joining[s.running.value := target]))
  }

  /** Thread_join_1: check the target again, leave or go back to sleep. */
  function Rejoin<T(==)>(s: Sched<T>): Sched<T>
    requires s.running.Some? && s.running.value in s.info
    requires s.running.value in s.joining && s.joining[s.running.value] in s.info
  {
    var t := s.running.value;
    if s.info[s.joining[t]].state == Dead then s.(joining := s.joining - {t}) else Park(s)
  }

  /** Lines 697-722: put the running thread on the timer list. */
  function Sleep<T(==)>(s: Sched<T>, deadline: nat): Sched<T>
    requires Known(s) && s.running.Some?
  {
    var t := s.running.value;
    s.(timers := Insert(s.timers, s.info, t, deadline),
       info := s.info[t := Info(Timer, deadline, s.clock)],
       clock := s.clock + 1, running := None, inside := false)
  }

  function Terminate<T(==)>(s: Sched<T>, order: seq<T>): Sched<T>
    requires s.running.Some? && s.running.value in s.info
    requires forall u | u in order :: u in s.info
  {
    Bury(s.(running := None, inside := false), s.running.value, order)
  }

  /** Lines 551-584: move the expired timers to the tail of the active queue. */
  function Splice<T(==)>(s: Sched<T>, ticks: nat): Sched<T>
    requires Known(s)
  {
    var n := ExpiredCount(s.timers, s.info, ticks);
    s.(active := s.active + s.timers[..n], timers := s.timers[n..],
       info := map t | t in s.info ::
         if t in s.timers[..n] then s.info[t].(state := Active) else s.info[t])
  }

  function Rotated<T(==)>(s: Sched<T>): seq<T> {
    s.active + (if s.running.Some? then [s.running.value] else [])
  }

  /** Lines 586-623: requeue the previous running thread, take the first live one. */
  function Choose<T(==)>(s: Sched<T>): Sched<T>
    requires Known(s)
  {
    if s.active == [] then s.(inside := s.running.Some?)
    else
      var live := DropDead(Rotated(s), s.info);
      if live == [] then s.(active := [], running := None, inside := false)
      else s.(active := live[1..], running := Some(live[0]), inside := true)
  }

  function Pick<T(==)>(s: Sched<T>, ticks: nat): Sched<T>
    requires Known(s)
  {
    Choose(Splice(s, ticks))
  }

  // ----- Runs -----

  datatype Op<T> =
    | OpStart(t: T)
    | OpResume(t: T)
    | OpKill(t: T, order: seq<T>)
    | OpJoin(target: T)
    | OpRejoin
    | OpYield
    | OpSuspend
    | OpSleep(deadline: nat)
    | OpTerminate(order: seq<T>)
    | OpPick(ticks: nat)

  /** Inside a thread that is not in the middle of a join. */
  predicate Free<T(==)>(s: Sched<T>) {
    s.inside && s.running.Some? && s.running.value !in s.joining
  }

  /** When an operation can happen. Threads are started before the main loop or by a
      running thread, resumed by a thread or by event dispatch; a thread cannot kill
      itself; a pass of the main loop starts when the running thread gave up control. */
  predicate Enabled<T(==)>(s: Sched<T>, op: Op<T>) {
    match op
    case OpStart(t) => t !in s.info && (s.inside ==> Free(s))
    case OpResume(t) => t in s.info && (s.inside ==> Free(s))
    case OpKill(t, order) =>
      && Free(s) && t in s.info && s.running != Some(t) && IsOrder(s, t, order)
    case OpJoin(target) => Free(s) && target in s.info
    case OpRejoin => s.inside && s.running.Some? && s.running.value in s.joining
    case OpYield => Free(s)
    case OpSuspend => Free(s)
    case OpSleep(_) => Free(s)
    case OpTerminate(order) => Free(s) && IsOrder(s, s.running.value, order)
    case OpPick(_) => !s.inside
  }

  predicate Wf<T(==)>(s: Sched<T>) {
    && Known(s)
    && (forall t | t in s.joiners :: t in s.info && s.joiners[t].Threads() <= s.info.Keys)
    && (forall t | t in s.joining :: t in s.info && s.joining[t] in s.info)
  }

  lemma RecordedKnown<T>(s: Sched<T>, t: T, order: seq<T>)
    requires Wf(s) && IsOrder(s, t, order)
    ensures forall u | u in order :: u in s.info
  {
    var recorded := Recorded(s, t);
    assert recorded <= s.info.Keys;
    forall u | u in order ensures u in s.info {
      assert u in recorded;
    }
  }

  function Step<T(==)>(s: Sched<T>, op: Op<T>): Sched<T>
    requires Wf(s) && Enabled(s, op)
  {
    match op
    case OpStart(t) => Start(s, t)
    case OpResume(t) => Resume(s, t)
    case OpKill(t, order) => RecordedKnown(s, t, order); Kill(s, t, order)
    case OpJoin(target) => Join(s, target)
    case OpRejoin => Rejoin(s)
    case OpYield => s.(inside := false)
    case OpSuspend => Park(s)
    case OpSleep(deadline) => Sleep(s, deadline)
    case OpTerminate(order) => RecordedKnown(s, s.running.value, order); Terminate(s, order)
    case OpPick(ticks) => Pick(s, ticks)
  }

  predicate ValidRun<T(==)>(s: Sched<T>, ops: seq<Op<T>>)
    decreases ops
  {
    ops == [] || (Wf(s) && Enabled(s, ops[0]) && ValidRun(Step(s, ops[0]), ops[1..]))
  }

  function After<T(==)>(s: Sched<T>, ops: seq<Op<T>>): Sched<T>
    requires ValidRun(s, ops)
    decreases ops
  {
    if ops == [] then s else After(Step(s, ops[0]), ops[1..])
  }

  // ----- The invariant -----

  predicate TimerBefore(a: Info, b: Info) {
    a.deadline < b.deadline || (a.deadline == b.deadline && a.stamp < b.stamp)
  }

  predicate Sorted<T(==)>(q: seq<T>, info: map<T, Info>)
    requires forall t | t in q :: t in info
  {
    forall i, j :: 0 <= i < j < |q| ==> TimerBefore(info[q[i]], info[q[j]])
  }

  /** Both chains are duplicate free, disjoint, and exclude the running thread. */
  predicate Shape<T(==)>(s: Sched<T>) {
    && Distinct(s.active) && Distinct(s.timers)
    && (forall t | t in s.active :: t !in s.timers)
    && (s.running.Some? ==> s.running.value !in s.active && s.running.value !in s.timers)
    && (s.inside ==> s.running.Some?)
  }

  /** The state of a thread says exactly which chain it is on, except that dead threads
      may linger on the active queue. */
  predicate States<T(==)>(s: Sched<T>)
    requires Known(s)
  {
    && (forall t | t in s.active :: s.info[t].state == Active || s.info[t].state == Dead)
    && (forall t | t in s.info :: t in s.timers <==> s.info[t].state == Timer)
    && (forall t | t in s.info ::
          s.info[t].state == Active ==> t in s.active || s.running == Some(t))
    && (s.running.Some? ==> s.info[s.running.value].state == Active)
  }

  /** TIMERS is sorted by deadline, first come first served among equal deadlines. */
  predicate TimersInOrder<T(==)>(s: Sched<T>)
    requires Known(s)
  {
    Sorted(s.timers, s.info) && forall t | t in s.timers :: s.info[t].stamp < s.clock
  }

  /** THREADS holds the threads that are not dead; no dead thread has joiners. */
  predicate Tables<T(==)>(s: Sched<T>) {
    && s.threads == (set t | t in s.info && s.info[t].state != Dead)
    && s.joiners.Keys <= s.threads
  }

  /** What every step keeps. */
  predicate Inv<T(==)>(s: Sched<T>) {
    Wf(s) && Shape(s) && States(s) && TimersInOrder(s) && Tables(s)
  }
}
