/** The pending event queue of lib/pico/event.c. The state word of an event is a tagged
    union: disabled, idle, pending with a pointer to the next pending event, abandoned.
    The functions work on a snapshot of memory and do what the source does to it, pointer
    by pointer; the lemmas say when that is a FIFO queue. */
module EventQueues {
  import opened Options
  import opened Sequences

  datatype Word<E> = Disabled | Idle | Pending(next: Option<E>) | Abandoned

  datatype Queue<E(==)> = Queue(head: Option<E>, tail: Option<E>, word: map<E, Word<E>>)

  /** Enough for the operations to be defined; it says nothing about order. */
  predicate Sane<E(==)>(q: Queue<E>) {
    && (q.head.Some? ==> q.tail.Some? && q.head.value in q.word)
    && (q.tail.Some? ==> q.tail.value in q.word)
  }

  /** mlua_event_enable() at line 72. */
  function Enable<E(==)>(q: Queue<E>, e: E): Queue<E>
    requires e in q.word
  {
    if q.word[e] == Disabled then q.(word := q.word[e := Idle]) else q
  }

  /** mlua_event_set_nolock() at line 106. */
  function Set<E(==)>(q: Queue<E>, e: E): Queue<E>
    requires Sane(q) && e in q.word
  {
    if q.word[e] != Idle then q
    else
      var word := q.word[e := Pending(None)];
      if q.head == None then Queue(Some(e), Some(e), word)
      else Queue(q.head, Some(e), word[q.tail.value := Pending(Some(e))])
  }

  /** The locked part of the dispatch loop, lines 140-146. */
  function Pop<E(==)>(q: Queue<E>): Queue<E>
    requires q.head.Some? && q.head.value in q.word && q.word[q.head.value].Pending?
  {
    Queue(q.word[q.head.value].next, q.tail, q.word[q.head.value := Idle])
  }

  /** remove_pending_nolock() at line 56 for the event at position `i` of the chain `s`:
      the walk from the head stops at its predecessor. */
  function Unlink<E(==)>(q: Queue<E>, s: seq<E>, i: nat): Queue<E>
    requires i < |s| && (forall e | e in s :: e in q.word) && q.word[s[i]].Pending?
  {
    if i == 0 then q.(head := q.word[s[0]].next)
    else q.(word := q.word[s[i - 1] := q.word[s[i]]])
  }

  function Index<E(==)>(s: seq<E>, e: E): (i: nat)
    requires e in s
    ensures i < |s| && s[i] == e
  {
    if s[0] == e then 0 else 1 + Index(s[1..], e)
  }

  /** disable_event() at line 84; `word` is Disabled to disable and Abandoned to abandon. */
  function Disable<E(==)>(q: Queue<E>, s: seq<E>, e: E, word: Word<E>): Queue<E>
    requires e in q.word && (forall u | u in s :: u in q.word) && (q.word[e].Pending? ==> e in s)
  {
    if q.word[e] == Disabled then q
    else
      var r := if q.word[e].Pending? then Unlink(q, s, Index(s, e)) else q;
      r.(word := r.word[e := word])
  }

  /** mlua_event_disable_abandoned() at line 119. */
  function DisableAbandoned<E(==)>(q: Queue<E>, e: E): Queue<E>
    requires e in q.word
  {
    if q.word[e] == Abandoned then q.(word := q.word[e := Disabled]) else q
  }

  // ----- FIFO -----

  function Link<E>(s: seq<E>, i: nat): Option<E> {
    if i < |s| then Some(s[i]) else None
  }

  /** `s` is what the head pointer leads to. */
  predicate Chained<E(==)>(q: Queue<E>, s: seq<E>) {
    && q.head == Link(s, 0) && Distinct(s)
    && (forall i :: 0 <= i < |s| ==> s[i] in q.word && q.word[s[i]] == Pending(Link(s, i + 1)))
  }

  /** The queue is the FIFO `s`: it is what the head leads to, it holds exactly the events
      tagged pending, and the tail pointer is at its end. */
  predicate Fifo<E(==)>(q: Queue<E>, s: seq<E>) {
    && Sane(q) && Chained(q, s)
    && (forall e | e in q.word :: q.word[e].Pending? ==> e in s)
    && (s != [] ==> q.tail == Some(s[|s| - 1]))
  }

  lemma FifoMembers<E>(q: Queue<E>, s: seq<E>)
    requires Fifo(q, s)
    ensures forall e | e in s :: e in q.word && q.word[e].Pending?
  {
  }

  lemma SetChained<E>(q: Queue<E>, s: seq<E>, e: E)
    requires Fifo(q, s) && e in q.word && q.word[e] == Idle
    ensures Chained(Set(q, e), s + [e])
  {
    var r, t := Set(q, e), s + [e];
    forall i | 0 <= i < |t| ensures t[i] in r.word && r.word[t[i]] == Pending(Link(t, i + 1)) {
      if i < |s| { assert t[i] == s[i] && q.word[s[i]] == Pending(Link(s, i + 1)); }
    }
  }

  /** Setting an event appends it if it is idle and does nothing otherwise. */
  lemma SetAppends<E>(q: Queue<E>, s: seq<E>, e: E)
    requires Fifo(q, s) && e in q.word
    ensures Fifo(Set(q, e), if q.word[e] == Idle then s + [e] else s)
    ensures forall u | u in q.word && u != e ::
      Set(q, e).word[u].Pending? == q.word[u].Pending?
      && (!q.word[u].Pending? ==> Set(q, e).word[u] == q.word[u])
  {
    if q.word[e] == Idle {
      FifoMembers(q, s);
      SetChained(q, s, e);
      var r, t := Set(q, e), s + [e];
      forall u | u in r.word && r.word[u].Pending? ensures u in t {
        assert u == e || u in s;
      }
    }
  }

  /** Dispatch takes the oldest event and leaves it idle. */
  lemma PopTakesFirst<E>(q: Queue<E>, s: seq<E>)
    requires Fifo(q, s) && s != []
    ensures q.head == Some(s[0]) && q.word[s[0]].Pending?
    ensures Fifo(Pop(q), s[1..]) && Pop(q).word == q.word[s[0] := Idle]
  {
    var t := s[1..];
    assert q.word[s[0]] == Pending(Link(s, 1));
    forall i | 0 <= i < |t| ensures t[i] in Pop(q).word && Pop(q).word[t[i]] == Pending(Link(t, i + 1)) {
      assert t[i] == s[i + 1];
    }
    assert forall e | e in s :: e == s[0] || e in t;
  }

  /** The memory after dispatch took every pending event. */
  function PopAll<E(==)>(q: Queue<E>, s: seq<E>): Queue<E>
    requires Fifo(q, s)
    decreases s
  {
    if s == [] then q else PopTakesFirst(q, s); PopAll(Pop(q), s[1..])
  }

  lemma {:induction false} PopAllLeavesIdle<E>(q: Queue<E>, s: seq<E>)
    requires Fifo(q, s)
    ensures Fifo(PopAll(q, s), []) && PopAll(q, s).word.Keys == q.word.Keys
    ensures forall e | e in q.word ::
      PopAll(q, s).word[e] == if e in s then Idle else q.word[e]
    decreases s
  {
    if s != [] {
      PopTakesFirst(q, s);
      PopAllLeavesIdle(Pop(q), s[1..]);
      assert s == [s[0]] + s[1..];
    }
  }

  function RemoveAt<E>(s: seq<E>, i: nat): seq<E>
    requires i < |s|
  {
    s[..i] + s[i + 1..]
  }

  /** The branch of remove_pending_nolock() that forgets the tail pointer. */
  predicate LeavesTail<E(==)>(q: Queue<E>, e: E)
    requires e in q.word
  {
    q.word[e].Pending? && q.head != Some(e) && q.tail == Some(e)
  }

  lemma RemoveAtMembers<E>(s: seq<E>, i: nat)
    requires Distinct(s) && i < |s|
    ensures Distinct(RemoveAt(s, i)) && Index(s, s[i]) == i
    ensures forall e | e in RemoveAt(s, i) :: e in s && e != s[i]
    ensures forall e | e in s && e != s[i] :: e in RemoveAt(s, i)
  {
    var t := RemoveAt(s, i);
    assert s == s[..i] + [s[i]] + s[i + 1..];
    forall j | 0 <= j < |t| ensures t[j] in s && t[j] != s[i] {
      assert t[j] == s[if j < i then j else j + 1];
    }
  }

  lemma ChainWithout<E>(q: Queue<E>, s: seq<E>, i: nat, word: Word<E>)
    requires Chained(q, s) && i < |s| && !word.Pending?
    ensures var r := Disable(q, s, s[i], word);
      Chained(r, RemoveAt(s, i)) && r.tail == q.tail
  {
    RemoveAtMembers(s, i);
    assert q.word[s[i]] == Pending(Link(s, i + 1));
    var r, t := Disable(q, s, s[i], word), RemoveAt(s, i);
    forall j | 0 <= j < |t| ensures t[j] in r.word && r.word[t[j]] == Pending(Link(t, j + 1)) {
      var k := if j < i then j else j + 1;
      assert t[j] == s[k] && s[k] != s[i] && q.word[s[k]] == Pending(Link(s, k + 1));
      if k + 1 == i {
        assert Link(t, j + 1) == Link(s, i + 1);
      } else {
        assert Link(t, j + 1) == Link(s, k + 1);
        assert i > 0 ==> s[k] != s[i - 1];
      }
    }
  }

  lemma RemovedChain<E>(q: Queue<E>, s: seq<E>, i: nat, word: Word<E>)
    requires Fifo(q, s) && i < |s| && !word.Pending?
    ensures var r := Disable(q, s, s[i], word);
      Chained(r, RemoveAt(s, i)) && r.tail == q.tail
  {
    ChainWithout(q, s, i, word);
  }

  lemma RemovedPending<E>(q: Queue<E>, s: seq<E>, i: nat, word: Word<E>)
    requires Fifo(q, s) && i < |s| && !word.Pending?
    ensures var r := Disable(q, s, s[i], word);
      forall e | e in r.word && r.word[e].Pending? :: e in RemoveAt(s, i)
  {
    RemoveAtMembers(s, i);
    FifoMembers(q, s);
  }

  /** Once the tail pointer is left behind nothing is a FIFO any more. */
  lemma LeftTailIsNoFifo<E>(q: Queue<E>, s: seq<E>, e: E, word: Word<E>, t: seq<E>)
    requires Fifo(q, s) && e in s && !word.Pending? && LeavesTail(q, e)
    ensures !Fifo(Disable(q, s, e, word), t)
  {
    var r := Disable(q, s, e, word);
    RemovedChain(q, s, Index(s, e), word);
    assert r.word[e] == word && r.tail == Some(e) && r.head.Some?;
    if Fifo(r, t) { FifoMembers(r, t); }
  }

  lemma DisableKeepsFifo<E>(q: Queue<E>, s: seq<E>, e: E, word: Word<E>)
    requires Fifo(q, s) && e in s && !word.Pending? && !LeavesTail(q, e)
    ensures Fifo(Disable(q, s, e, word), RemoveAt(s, Index(s, e)))
  {
    var i := Index(s, e);
    RemoveAtMembers(s, i);
    RemovedChain(q, s, i, word);
    RemovedPending(q, s, i, word);
    assert i < |s| - 1 || |s| == 1;
  }

  /** Disabling or abandoning an event takes it out of the queue and keeps the others in
      order, exactly when it is not the last of two or more pending events. */
  lemma DisableKeepsFifoIff<E>(q: Queue<E>, s: seq<E>, e: E, word: Word<E>)
    requires Fifo(q, s) && e in q.word && !word.Pending?
    ensures var r := Disable(q, s, e, word);
      && ((exists t :: Fifo(r, t)) <==> !LeavesTail(q, e))
      && (!LeavesTail(q, e) ==> Fifo(r, if e in s then RemoveAt(s, Index(s, e)) else s))
  {
    var r := Disable(q, s, e, word);
    if LeavesTail(q, e) {
      forall t ensures !Fifo(r, t) { LeftTailIsNoFifo(q, s, e, word, t); }
    } else if e in s {
      DisableKeepsFifo(q, s, e, word);
    } else {
      assert Fifo(r, s);
    }
  }

  /** After the unsafe removal the next event that is set is lost: it is tagged pending,
      so setting it again does nothing, but the head pointer does not lead to it; and the
      removed event is tagged pending again. */
  lemma NextEventIsLost<E>(q: Queue<E>, s: seq<E>, e: E, word: Word<E>, u: E)
    requires Fifo(q, s) && e in q.word && !word.Pending? && LeavesTail(q, e)
    requires u in q.word && u != e && q.word[u] == Idle
    ensures var r := Set(Disable(q, s, e, word), u);
      var t := RemoveAt(s, Index(s, e));
      && Chained(r, t) && u !in t && r.word[u] == Pending(None) && r.word[e] == Pending(Some(u))
      && Lost(r, t, e)
  {
    var i := Index(s, e);
    FifoMembers(q, s);
    RemoveAtMembers(s, i);
    RemovedChain(q, s, i, word);
    var d, t := Disable(q, s, e, word), RemoveAt(s, i);
    assert d.head.Some? && d.tail == Some(e);
    forall j | 0 <= j < |t|
      ensures t[j] in Set(d, u).word && Set(d, u).word[t[j]] == Pending(Link(t, j + 1))
    {
      assert t[j] in t && d.word[t[j]] == Pending(Link(t, j + 1));
    }
  }

  /** Events 0 and 1 are pending, event 1 is disabled, event 2 is set. */
  lemma ThirdEventIsLost()
    ensures var q := Queue(Some(0), Some(1), map[0 := Pending(Some(1)), 1 := Pending(None), 2 := Idle]);
      && Fifo(q, [0, 1]) && LeavesTail(q, 1)
      && !(exists t :: Fifo(Disable(q, [0, 1], 1, Disabled), t))
      && Chained(Set(Disable(q, [0, 1], 1, Disabled), 2), [0])
      && Set(Disable(q, [0, 1], 1, Disabled), 2).word[2] == Pending(None)
  {
    var q := Queue(Some(0), Some(1), map[0 := Pending(Some(1)), 1 := Pending(None), 2 := Idle]);
    assert Fifo(q, [0, 1]);
    DisableKeepsFifoIff(q, [0, 1], 1, Disabled);
    NextEventIsLost(q, [0, 1], 1, Disabled, 2);
    assert Index([0, 1], 1) == 1 && RemoveAt([0, 1], 1) == [0];
  }

  /** An event counts only while it is enabled: setting it before it was enabled or after it
      was disabled or abandoned does nothing, in between it makes it pending. */
  lemma EnabledBetween<E>(q: Queue<E>, s: seq<E>, e: E, word: Word<E>)
    requires Fifo(q, s) && e in q.word && q.word[e] == Disabled && (word == Disabled || word == Abandoned)
    ensures Set(q, e) == q && Fifo(Set(Enable(q, e), e), s + [e])
    ensures !LeavesTail(Enable(q, e), e)
    ensures e !in s && Set(Disable(Enable(q, e), s, e, word), e) == Disable(Enable(q, e), s, e, word)
  {
    FifoMembers(q, s);
    assert Fifo(Enable(q, e), s);
    SetAppends(Enable(q, e), s, e);
  }

  // ----- Runs -----

  datatype Op<E> =
    | OpEnable(e: E)
    | OpSet(e: E)
    | OpDisable(e: E, word: Word<E>)
    | OpDisableAbandoned(e: E)
    | OpPop

  /** An operation that can happen on the queue `s` and does not leave the tail behind. */
  predicate Allowed<E(==)>(q: Queue<E>, op: Op<E>) {
    match op
    case OpPop => q.head.Some?
    case OpDisable(e, word) =>
      e in q.word && (word == Disabled || word == Abandoned) && !LeavesTail(q, e)
    case _ => op.e in q.word
  }

  function Step<E(==)>(q: Queue<E>, s: seq<E>, op: Op<E>): Queue<E>
    requires Fifo(q, s) && Allowed(q, op)
  {
    match op
    case OpEnable(e) => Enable(q, e)
    case OpSet(e) => Set(q, e)
    case OpDisable(e, word) => FifoMembers(q, s); Disable(q, s, e, word)
    case OpDisableAbandoned(e) => DisableAbandoned(q, e)
    case OpPop => FifoMembers(q, s); Pop(q)
  }

  /** What the operation means for the list of pending events. */
  function Meaning<E(==)>(q: Queue<E>, s: seq<E>, op: Op<E>): seq<E>
    requires Fifo(q, s) && Allowed(q, op)
  {
    match op
    case OpSet(e) => if q.word[e] == Idle then s + [e] else s
    case OpDisable(e, _) => if e in s then RemoveAt(s, Index(s, e)) else s
    case OpPop => s[1..]
    case _ => s
  }

  lemma StepRefines<E>(q: Queue<E>, s: seq<E>, op: Op<E>)
    requires Fifo(q, s) && Allowed(q, op)
    ensures Fifo(Step(q, s, op), Meaning(q, s, op))
    ensures op.OpPop? ==> s != [] && q.head == Some(s[0])
  {
    FifoMembers(q, s);
    match op
    case OpSet(e) => SetAppends(q, s, e);
    case OpDisable(e, word) => DisableKeepsFifoIff(q, s, e, word);
    case OpPop => PopTakesFirst(q, s);
    case _ => assert Fifo(Step(q, s, op), s);
  }

  predicate SameTag<E(==)>(a: Word<E>, b: Word<E>) {
    a.Pending? == b.Pending? && (!a.Pending? ==> a == b)
  }

  /** An operation changes the tag of no event but its own. */
  lemma StepKeepsTags<E>(q: Queue<E>, s: seq<E>, op: Op<E>, u: E)
    requires Fifo(q, s) && Allowed(q, op) && u in q.word
    requires if op.OpPop? then Some(u) != q.head else u != op.e
    ensures u in Step(q, s, op).word && SameTag(Step(q, s, op).word[u], q.word[u])
  {
    match op
    case OpDisable(e, word) => DisableTags(q, s, e, word, u);
    case OpPop => PopTakesFirst(q, s);
    case _ =>
  }

  lemma DisableTags<E>(q: Queue<E>, s: seq<E>, e: E, word: Word<E>, u: E)
    requires Fifo(q, s) && e in q.word && u in q.word && u != e
    ensures (q.word[e].Pending? ==> e in s) && u in Disable(q, s, e, word).word
    ensures SameTag(Disable(q, s, e, word).word[u], q.word[u])
  {
    if q.word[e].Pending? && Index(s, e) > 0 {
      assert q.word[s[Index(s, e) - 1]] == Pending(Link(s, Index(s, e)));
    }
  }

  /** What an operation does to the tag of its own event: only a disabled event can be enabled,
      only an idle one set, any enabled or abandoned one disabled or abandoned. */
  lemma OwnTag<E>(q: Queue<E>, s: seq<E>, op: Op<E>)
    requires Fifo(q, s) && Allowed(q, op)
    ensures op.OpPop? ==> s != [] && s[0] in q.word
    ensures var e := if op.OpPop? then s[0] else op.e;
      e in Step(q, s, op).word &&
      var was, now := q.word[e], Step(q, s, op).word[e];
      match op
      case OpEnable(_) => now == if was == Disabled then Idle else was
      case OpSet(_) => if was == Idle then now == Pending(None) else now == was
      case OpDisable(_, word) => now == if was == Disabled then Disabled else word
      case OpDisableAbandoned(_) => now == if was == Abandoned then Disabled else was
      case OpPop => now == Idle
  {
    FifoMembers(q, s);
    if op.OpPop? { PopTakesFirst(q, s); }
  }

  ghost predicate ValidRun<E>(q: Queue<E>, s: seq<E>, ops: seq<Op<E>>)
    requires Fifo(q, s)
    decreases ops
  {
    ops == [] ||
    (&& Allowed(q, ops[0])
     && (StepRefines(q, s, ops[0]);
         ValidRun(Step(q, s, ops[0]), Meaning(q, s, ops[0]), ops[1..])))
  }

  /** `log` without the occurrences at the positions in `gone`. */
  function Delete<E>(log: seq<E>, gone: set<nat>): seq<E> {
    if log == [] then []
    else
      var n := |log| - 1;
      Delete(log[..n], gone) + (if n in gone then [] else [log[n]])
  }

  function Last<E(==)>(log: seq<E>, e: E): (n: nat)
    requires e in log
    ensures n < |log| && log[n] == e
    ensures forall k :: n < k < |log| ==> log[k] != e
  {
    if log[|log| - 1] == e then |log| - 1
    else
      assert log == log[..|log| - 1] + [log[|log| - 1]];
      Last(log[..|log| - 1], e)
  }

  lemma {:induction false} DeleteFrame<E>(log: seq<E>, gone: set<nat>, j: nat)
    requires |log| <= j
    ensures Delete(log, gone + {j}) == Delete(log, gone)
  {
    if log != [] { DeleteFrame(log[..|log| - 1], gone, j); }
  }

  lemma {:induction false} DeleteNothing<E>(log: seq<E>)
    ensures Delete(log, {}) == log
  {
    if log != [] {
      DeleteNothing(log[..|log| - 1]);
      assert log == log[..|log| - 1] + [log[|log| - 1]];
    }
  }

  /** Deleting one more occurrence, the last one of its event, takes one element out. */
  lemma {:induction false} DeleteAt<E>(log: seq<E>, gone: set<nat>, j: nat) returns (p: nat)
    requires j < |log| && j !in gone && forall k :: j < k < |log| ==> log[k] != log[j]
    ensures var d := Delete(log, gone);
      && p < |d| && d[p] == log[j] && Delete(log, gone + {j}) == RemoveAt(d, p)
      && forall k :: p < k < |d| ==> d[k] != log[j]
  {
    var n := |log| - 1;
    var d, front := Delete(log, gone), Delete(log[..n], gone);
    if j == n {
      DeleteFrame(log[..n], gone, n);
      p := |front|;
      assert d == front + [log[n]];
    } else {
      p := DeleteAt(log[..n], gone, j);
      assert Delete(log, gone + {j}) == RemoveAt(d, p);
    }
  }

  lemma LastInSuffix<E>(a: seq<E>, s: seq<E>, i: nat, p: nat)
    requires Distinct(s) && i < |s| && p < |a + s| && (a + s)[p] == s[i]
    requires forall k :: p < k < |a + s| ==> (a + s)[k] != s[i]
    ensures p == |a| + i && RemoveAt(a + s, p) == a + RemoveAt(s, i)
  {
    assert (a + s)[|a| + i] == s[i];
    assert p >= |a| + i && (a + s)[p] == s[p - |a|];
  }

  lemma DeleteOccurrence<E>(log: seq<E>, gone: set<nat>, taken: seq<E>, s: seq<E>, e: E)
    requires e in s && Distinct(s) && e in log && Last(log, e) !in gone
    requires Delete(log, gone) == taken + s
    ensures Delete(log, gone + {Last(log, e)}) == taken + RemoveAt(s, Index(s, e))
  {
    var p := DeleteAt(log, gone, Last(log, e));
    LastInSuffix(taken, s, Index(s, e), p);
  }

  /** A run so far: the events dispatch has taken, those that were idle when they were set,
      and which occurrences among the initially pending and the accepted ones were removed
      by disabling or abandoning the event. */
  datatype History<E> = History(queue: Queue<E>, pending: seq<E>, taken: seq<E>,
                                accepted: seq<E>, gone: set<nat>, removals: nat)

  ghost predicate Traced<E>(s: seq<E>, h: History<E>) {
    var log := s + h.accepted;
    && Fifo(h.queue, h.pending) && Delete(log, h.gone) == h.taken + h.pending
    && (forall e | e in h.pending :: e in log && Last(log, e) !in h.gone)
    && (forall i | i in h.gone :: i < |log|) && |h.gone| == h.removals
  }

  ghost function Advance<E>(s: seq<E>, h: History<E>, op: Op<E>): History<E>
    requires Traced(s, h) && Allowed(h.queue, op)
  {
    var r := h.(queue := Step(h.queue, h.pending, op), pending := Meaning(h.queue, h.pending, op));
    match op
    case OpPop => FifoMembers(h.queue, h.pending); r.(taken := h.taken + [h.queue.head.value])
    case OpSet(e) => if h.queue.word[e] == Idle then r.(accepted := h.accepted + [e]) else r
    case OpDisable(e, _) =>
      if e in h.pending then r.(gone := h.gone + {Last(s + h.accepted, e)}, removals := h.removals + 1)
      else r
    case _ => r
  }

  lemma LogGrows<E>(log: seq<E>, gone: set<nat>, e: E)
    requires forall i | i in gone :: i < |log|
    ensures Delete(log + [e], gone) == Delete(log, gone) + [e]
    ensures forall u | u in log :: u in log + [e] && (u != e ==> Last(log + [e], u) == Last(log, u))
    ensures e in log + [e] && Last(log + [e], e) == |log|
  {
    assert (log + [e])[..|log|] == log;
  }

  lemma SetTraced<E>(s: seq<E>, h: History<E>, e: E)
    requires Traced(s, h) && e in h.queue.word && h.queue.word[e] == Idle
    ensures Traced(s, Advance(s, h, OpSet(e)))
  {
    SetAppends(h.queue, h.pending, e);
    LogGrows(s + h.accepted, h.gone, e);
    BackMoves(s, h.accepted, e);
    BackMoves(h.taken, h.pending, e);
    FifoMembers(h.queue, h.pending);
  }

  lemma BackMoves<E>(a: seq<E>, b: seq<E>, e: E)
    ensures a + b + [e] == a + (b + [e])
  {
  }

  lemma DisableTraced<E>(s: seq<E>, h: History<E>, e: E, word: Word<E>)
    requires Traced(s, h) && Allowed(h.queue, OpDisable(e, word)) && e in h.pending
    ensures Traced(s, Advance(s, h, OpDisable(e, word)))
  {
    var log := s + h.accepted;
    DisableKeepsFifo(h.queue, h.pending, e, word);
    DeleteOccurrence(log, h.gone, h.taken, h.pending, e);
    RemoveAtMembers(h.pending, Index(h.pending, e));
  }

  lemma FrontMoves<E>(a: seq<E>, b: seq<E>)
    requires b != []
    ensures a + b == a + [b[0]] + b[1..]
    ensures forall e | e in b[1..] :: e in b
  {
  }

  lemma PopTraced<E>(s: seq<E>, h: History<E>)
    requires Traced(s, h) && Allowed(h.queue, OpPop)
    ensures Traced(s, Advance(s, h, OpPop))
  {
    PopTakesFirst(h.queue, h.pending);
    FrontMoves(h.taken, h.pending);
  }

  lemma AdvanceTraced<E>(s: seq<E>, h: History<E>, op: Op<E>)
    requires Traced(s, h) && Allowed(h.queue, op)
    ensures Traced(s, Advance(s, h, op))
  {
    StepRefines(h.queue, h.pending, op);
    match op
    case OpPop => PopTraced(s, h);
    case OpSet(e) => if h.queue.word[e] == Idle { SetTraced(s, h, e); }
    case OpDisable(e, word) => if e in h.pending { DisableTraced(s, h, e, word); }
    case _ =>
  }

  ghost function Outcome<E>(s: seq<E>, h: History<E>, ops: seq<Op<E>>): History<E>
    requires Traced(s, h) && ValidRun(h.queue, h.pending, ops)
    decreases ops
  {
    if ops == [] then h
    else
      AdvanceTraced(s, h, ops[0]);
      Outcome(s, Advance(s, h, ops[0]), ops[1..])
  }

  lemma {:induction false} OutcomeTraced<E>(s: seq<E>, h: History<E>, ops: seq<Op<E>>)
    requires Traced(s, h) && ValidRun(h.queue, h.pending, ops)
    ensures Traced(s, Outcome(s, h, ops))
    decreases ops
  {
    if ops != [] {
      AdvanceTraced(s, h, ops[0]);
      OutcomeTraced(s, Advance(s, h, ops[0]), ops[1..]);
    }
  }

  ghost function Begin<E>(q: Queue<E>, s: seq<E>): (h: History<E>)
    requires Fifo(q, s)
    ensures Traced(s, h)
  {
    DeleteNothing(s);
    assert s + [] == s && [] + s == s;
    History(q, s, [], [], {}, 0)
  }

  /** First set, first dispatched, in every run: what dispatch took, followed by what is still
      pending, is what was pending followed by what was accepted, in this order, without the
      occurrences that were removed, one for each removal of a pending event. */
  lemma RunIsFifo<E>(q: Queue<E>, s: seq<E>, ops: seq<Op<E>>)
    requires Fifo(q, s) && ValidRun(q, s, ops)
    ensures var h := Outcome(s, Begin(q, s), ops);
      && Fifo(h.queue, h.pending)
      && h.taken + h.pending == Delete(s + h.accepted, h.gone)
      && |h.gone| == h.removals && (forall i | i in h.gone :: i < |s + h.accepted|)
      && (h.removals == 0 ==> h.taken + h.pending == s + h.accepted)
  {
    OutcomeTraced(s, Begin(q, s), ops);
    DeleteNothing(s + Outcome(s, Begin(q, s), ops).accepted);
  }

  // ----- After an unsafe removal -----

  /** `e` is tagged pending, but neither the head nor the tail pointer leads to it; `s` is what
      the head leads to. */
  predicate Lost<E(==)>(q: Queue<E>, s: seq<E>, e: E) {
    && Sane(q) && Chained(q, s) && q.tail.Some?
    && (q.tail.value in s ==> q.tail.value == s[|s| - 1])
    && e in q.word && q.word[e].Pending? && e !in s && q.tail != Some(e)
  }

  /** Any operation except disabling `e`, or another event the head does not lead to. */
  predicate Spares<E(==)>(q: Queue<E>, s: seq<E>, e: E, op: Op<E>) {
    match op
    case OpPop => q.head.Some?
    case OpDisable(u, word) =>
      u in q.word && u != e && !word.Pending? && (q.word[u].Pending? ==> u in s)
    case _ => op.e in q.word
  }

  function LostStep<E(==)>(q: Queue<E>, s: seq<E>, e: E, op: Op<E>): (Queue<E>, seq<E>)
    requires Lost(q, s, e) && Spares(q, s, e, op)
  {
    match op
    case OpEnable(u) => (Enable(q, u), s)
    case OpSet(u) =>
      (Set(q, u), if q.word[u] == Idle && (s == [] || q.tail.value in s) then s + [u] else s)
    case OpDisable(u, word) => (Disable(q, s, u, word), if u in s then RemoveAt(s, Index(s, u)) else s)
    case OpDisableAbandoned(u) => (DisableAbandoned(q, u), s)
    case OpPop => (Pop(q), s[1..])
  }

  lemma LostSet<E>(q: Queue<E>, s: seq<E>, e: E, u: E)
    requires Lost(q, s, e) && u in q.word && q.word[u] == Idle
    ensures var (r, t) := LostStep(q, s, e, OpSet(u)); Lost(r, t, e)
  {
    var (r, t) := LostStep(q, s, e, OpSet(u));
    assert u !in s;
    forall i | 0 <= i < |t| ensures t[i] in r.word && r.word[t[i]] == Pending(Link(t, i + 1)) {
      if i < |s| { assert t[i] == s[i] && q.word[s[i]] == Pending(Link(s, i + 1)); }
    }
  }

  lemma LostDisable<E>(q: Queue<E>, s: seq<E>, e: E, u: E, word: Word<E>)
    requires Lost(q, s, e) && Spares(q, s, e, OpDisable(u, word)) && u in s
    ensures var (r, t) := LostStep(q, s, e, OpDisable(u, word)); Lost(r, t, e)
  {
    var i := Index(s, u);
    RemoveAtMembers(s, i);
    ChainWithout(q, s, i, word);
    assert q.tail.value in s ==> q.tail.value == s[|s| - 1];
    if q.tail.value in RemoveAt(s, i) {
      assert i < |s| - 1 && RemoveAt(s, i)[|s| - 2] == s[|s| - 1];
    }
  }

  lemma LostPop<E>(q: Queue<E>, s: seq<E>, e: E)
    requires Lost(q, s, e) && q.head.Some?
    ensures var (r, t) := LostStep(q, s, e, OpPop); Lost(r, t, e)
  {
    var r, t := Pop(q), s[1..];
    assert q.word[s[0]] == Pending(Link(s, 1));
    forall i | 0 <= i < |t| ensures t[i] in r.word && r.word[t[i]] == Pending(Link(t, i + 1)) {
      assert t[i] == s[i + 1];
    }
  }

  lemma LostStays<E>(q: Queue<E>, s: seq<E>, e: E, op: Op<E>)
    requires Lost(q, s, e) && Spares(q, s, e, op)
    ensures var (r, t) := LostStep(q, s, e, op); Lost(r, t, e)
  {
    match op
    case OpSet(u) => if q.word[u] == Idle { LostSet(q, s, e, u); }
    case OpDisable(u, word) => if u in s { LostDisable(q, s, e, u, word); }
    case OpPop => LostPop(q, s, e);
    case _ =>
  }

  ghost predicate SparingRun<E>(q: Queue<E>, s: seq<E>, e: E, ops: seq<Op<E>>)
    requires Lost(q, s, e)
    decreases ops
  {
    ops == [] ||
    (&& Spares(q, s, e, ops[0])
     && (LostStays(q, s, e, ops[0]);
         var (r, t) := LostStep(q, s, e, ops[0]); SparingRun(r, t, e, ops[1..])))
  }

  ghost function LostAfter<E>(q: Queue<E>, s: seq<E>, e: E, ops: seq<Op<E>>): Queue<E>
    requires Lost(q, s, e) && SparingRun(q, s, e, ops)
    decreases ops
  {
    if ops == [] then q
    else
      LostStays(q, s, e, ops[0]);
      var (r, t) := LostStep(q, s, e, ops[0]); LostAfter(r, t, e, ops[1..])
  }

  /** Once lost an event stays lost, whatever happens to others: no dispatch reaches it, and
      enabling it is refused for ever. */
  lemma {:induction false} LostForEver<E>(q: Queue<E>, s: seq<E>, e: E, ops: seq<Op<E>>)
    requires Lost(q, s, e) && SparingRun(q, s, e, ops)
    ensures var r := LostAfter(q, s, e, ops);
      e in r.word && r.word[e].Pending? && Enable(r, e) == r
    decreases ops
  {
    if ops != [] {
      LostStays(q, s, e, ops[0]);
      var (r, t) := LostStep(q, s, e, ops[0]);
      LostForEver(r, t, e, ops[1..]);
    }
  }
}
