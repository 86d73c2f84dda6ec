/** Host name lookups, lib/pico/lwip.dns.c: a fixed table of slots shared between requests
    and the callbacks of lwIP, which may come after the request has given up. The events of
    the slots are on the pending queue together with all others. */
module DnsSlots {
  import opened Options
  import EQ = EventQueues
  import Events

  datatype Status = Waiting | Found | NotFound

  /** What dns_gethostbyname_addrtype() returned. */
  datatype Answer<A> = Known(addr: A) | InProgress | Error

  /** What a request is told: the address, that there is none, that it has to wait; and the
      errors. */
  datatype Reply<A> = Address(addr: A) | NoAddress | Wait | TimedOut | LookupFailed | NoSlot

  datatype Owner = Nobody | Acquired(r: nat) | Called(r: nat)

  /** A slot, and three history fields: the request that owns it and whether it has called
      lwIP, the request for which lwIP still holds a callback, and the request for which
      the address was written. */
  datatype Slot<A, E> = Slot(event: E, status: Status, addr: A,
                             owner: Owner, callback: Option<nat>, answered: Option<nat>)

  /** Line 117: the slot was enabled for a request. */
  function Acquire<A, E>(s: Slot<A, E>, r: nat): Slot<A, E> {
    s.(status := Waiting, owner := Acquired(r))
  }

  /** Lines 121-133: the lookup is started. */
  function Call<A, E>(s: Slot<A, E>, answer: Answer<A>): Slot<A, E>
    requires s.owner.Acquired?
  {
    var t := s.(owner := Called(s.owner.r));
    match answer
    case Known(addr) => t.(status := Found, addr := addr, answered := Some(s.owner.r))
    case InProgress => t.(callback := Some(s.owner.r))
    case Error => t.(status := NotFound)
  }

  /** handle_dns_found() at line 57, on the slot and the events. */
  function Callback<A, E(==)>(s: Slot<A, E>, m: EQ.Queue<E>, found: Option<A>): (Slot<A, E>, EQ.Queue<E>)
    requires s.callback.Some? && EQ.Sane(m) && s.event in m.word
  {
    var t := s.(callback := None);
    if m.word[s.event] == EQ.Abandoned then (t, EQ.DisableAbandoned(m, s.event))
    else
      match found
      case Some(addr) => (t.(status := Found, addr := addr, answered := s.callback), EQ.Set(m, s.event))
      case None => (t.(status := NotFound), EQ.Set(m, s.event))
  }

  /** The word gethostbyname_done() gives the event, lines 92-96. */
  function LeftWord<A, E>(s: Slot<A, E>): EQ.Word<E> {
    if s.status == Waiting then EQ.Abandoned else EQ.Disabled
  }

  /** gethostbyname_done() at line 89: when the request returns, fails or is killed. */
  function Done<A, E(==)>(s: Slot<A, E>, m: EQ.Queue<E>, queue: seq<E>): (Slot<A, E>, EQ.Queue<E>)
    requires EQ.Fifo(m, queue) && s.event in m.word
  {
    (s.(owner := Nobody), EQ.Disable(m, queue, s.event, LeftWord(s)))
  }

  /** What every step keeps for every slot. */
  predicate SlotInv<A(==), E(==)>(s: Slot<A, E>, word: EQ.Word<E>) {
    match s.owner
    case Nobody =>
      (s.callback == None && word == EQ.Disabled) || (s.callback.Some? && word == EQ.Abandoned)
    case Acquired(r) => s.callback == None && word == EQ.Idle && s.status == Waiting
    case Called(r) =>
      && (s.callback == if s.status == Waiting then Some(r) else None)
      && (word == EQ.Idle || (word.Pending? && s.status != Waiting))
      && (s.status == Found ==> s.answered == Some(r))
  }

  // ----- The table and the pending queue -----

  datatype Table<A, E(==)> = Table(slots: seq<Slot<A, E>>, memory: EQ.Queue<E>, queue: seq<E>)

  datatype Op<A, E> =
    | OpAcquire(r: nat)
    | OpCall(i: nat, answer: Answer<A>)
    | OpCallback(i: nat, found: Option<A>)
    | OpDone(i: nat)
    | OpEvent(op: EQ.Op<E>)  // dispatch, or whatever others do with their events

  predicate Known<A, E(==)>(slots: seq<Slot<A, E>>, m: EQ.Queue<E>) {
    forall i :: 0 <= i < |slots| ==> slots[i].event in m.word
  }

  /** The first slot that is not in use, or the number of slots. */
  function FirstFree<A, E(==)>(slots: seq<Slot<A, E>>, m: EQ.Queue<E>): (n: nat)
    requires Known(slots, m)
    ensures n <= |slots|
    ensures forall i :: 0 <= i < n ==> m.word[slots[i].event] != EQ.Disabled
    ensures n < |slots| ==> m.word[slots[n].event] == EQ.Disabled
  {
    if slots == [] || m.word[slots[0].event] == EQ.Disabled then 0 else 1 + FirstFree(slots[1..], m)
  }

  predicate OwnEvents<A, E(==)>(slots: seq<Slot<A, E>>) {
    forall i, j :: 0 <= i < j < |slots| ==> slots[i].event != slots[j].event
  }

  predicate IsSlotEvent<A, E(==)>(slots: seq<Slot<A, E>>, e: E) {
    exists i :: 0 <= i < |slots| && slots[i].event == e
  }

  predicate TableInv<A(==), E(==)>(t: Table<A, E>) {
    && EQ.Fifo(t.memory, t.queue) && OwnEvents(t.slots) && Known(t.slots, t.memory)
    && (forall i :: 0 <= i < |t.slots| ==> SlotInv(t.slots[i], t.memory.word[t.slots[i].event]))
  }

  /** No request ends, and no other event is disabled, while its event is the last of several
      pending ones. */
  predicate Can<A(==), E(==)>(t: Table<A, E>, op: Op<A, E>)
    requires TableInv(t)
  {
    match op
    case OpAcquire(_) => true
    case OpCall(i, _) => i < |t.slots| && t.slots[i].owner.Acquired?
    case OpCallback(i, _) => i < |t.slots| && t.slots[i].callback.Some?
    case OpDone(i) =>
      i < |t.slots| && t.slots[i].owner.Called? && !EQ.LeavesTail(t.memory, t.slots[i].event)
    case OpEvent(op) => EQ.Allowed(t.memory, op) && (op.OpPop? || !IsSlotEvent(t.slots, op.e))
  }

  /** The end of the request of slot i, wherever its event is on the pending queue. */
  function EndRequest<A, E(==)>(t: Table<A, E>, i: nat): Table<A, E>
    requires TableInv(t) && i < |t.slots|
  {
    var (s, m) := Done(t.slots[i], t.memory, t.queue);
    var e := t.slots[i].event;
    Table(t.slots[i := s], m,
          if e in t.queue then EQ.RemoveAt(t.queue, EQ.Index(t.queue, e)) else t.queue)
  }

  /** A request that finds no free slot leaves the table alone and fails. */
  function Step<A, E(==)>(t: Table<A, E>, op: Op<A, E>): Table<A, E>
    requires TableInv(t) && Can(t, op)
  {
    match op
    case OpAcquire(r) =>
      var n := FirstFree(t.slots, t.memory);
      if n == |t.slots| then t
      else t.(slots := t.slots[n := Acquire(t.slots[n], r)],
              memory := EQ.Enable(t.memory, t.slots[n].event))
    case OpCall(i, answer) => t.(slots := t.slots[i := Call(t.slots[i], answer)])
    case OpCallback(i, found) =>
      var (s, m) := Callback(t.slots[i], t.memory, found);
      var e := t.slots[i].event;
      Table(t.slots[i := s], m, if t.memory.word[e] == EQ.Idle then t.queue + [e] else t.queue)
    case OpDone(i) => EndRequest(t, i)
    case OpEvent(op) =>
      t.(memory := EQ.Step(t.memory, t.queue, op), queue := EQ.Meaning(t.memory, t.queue, op))
  }

  // ----- The invariant -----

  /** A step changes one slot and the tag of its event. */
  predicate OneSlot<A(==), E(==)>(t: Table<A, E>, r: Table<A, E>, i: nat)
    requires OwnEvents(t.slots) && Known(t.slots, t.memory)
  {
    && i < |t.slots| == |r.slots| && r.slots == t.slots[i := r.slots[i]]
    && r.slots[i].event == t.slots[i].event
    && (forall u | u in t.memory.word && u != t.slots[i].event ::
          u in r.memory.word && EQ.SameTag(r.memory.word[u], t.memory.word[u]))
    && r.slots[i].event in r.memory.word && SlotInv(r.slots[i], r.memory.word[r.slots[i].event])
  }

  lemma OneSlotInv<A, E>(t: Table<A, E>, r: Table<A, E>, i: nat)
    requires TableInv(t) && OneSlot(t, r, i) && EQ.Fifo(r.memory, r.queue)
    ensures TableInv(r)
  {
    forall j | 0 <= j < |r.slots|
      ensures r.slots[j].event in r.memory.word && SlotInv(r.slots[j], r.memory.word[r.slots[j].event])
    {
      if j != i {
        assert r.slots[j] == t.slots[j] && t.slots[j].event != t.slots[i].event;
      }
    }
  }

  lemma AcquireInv<A, E>(t: Table<A, E>, r: nat)
    requires TableInv(t)
    ensures TableInv(Step(t, OpAcquire(r)))
  {
    var n := FirstFree(t.slots, t.memory);
    if n < |t.slots| {
      EQ.StepRefines(t.memory, t.queue, EQ.OpEnable(t.slots[n].event));
      assert SlotInv(t.slots[n], EQ.Disabled);
      OneSlotInv(t, Step(t, OpAcquire(r)), n);
    }
  }

  lemma CallbackInv<A, E>(t: Table<A, E>, i: nat, found: Option<A>)
    requires TableInv(t) && i < |t.slots| && t.slots[i].callback.Some?
    ensures TableInv(Step(t, OpCallback(i, found)))
  {
    var e := t.slots[i].event;
    var op := if t.memory.word[e] == EQ.Abandoned then EQ.OpDisableAbandoned(e) else EQ.OpSet(e);
    EQ.StepRefines(t.memory, t.queue, op);
    forall u | u in t.memory.word && u != e
      ensures u in EQ.Step(t.memory, t.queue, op).word
      ensures EQ.SameTag(EQ.Step(t.memory, t.queue, op).word[u], t.memory.word[u])
    {
      EQ.StepKeepsTags(t.memory, t.queue, op, u);
    }
    assert SlotInv(t.slots[i], t.memory.word[e]);
    OneSlotInv(t, Step(t, OpCallback(i, found)), i);
  }

  lemma DoneInv<A, E>(t: Table<A, E>, i: nat)
    requires TableInv(t) && Can(t, OpDone(i))
    ensures TableInv(EndRequest(t, i))
  {
    var e, word := t.slots[i].event, LeftWord(t.slots[i]);
    EQ.DisableKeepsFifoIff(t.memory, t.queue, e, word);
    forall u | u in t.memory.word && u != e
      ensures u in EQ.Disable(t.memory, t.queue, e, word).word
      ensures EQ.SameTag(EQ.Disable(t.memory, t.queue, e, word).word[u], t.memory.word[u])
    {
      EQ.DisableTags(t.memory, t.queue, e, word, u);
    }
    assert SlotInv(t.slots[i], t.memory.word[e]);
    OneSlotInv(t, EndRequest(t, i), i);
  }

  lemma EventInv<A, E>(t: Table<A, E>, op: EQ.Op<E>)
    requires TableInv(t) && Can(t, OpEvent(op))
    ensures TableInv(Step(t, OpEvent(op)))
  {
    EQ.StepRefines(t.memory, t.queue, op);
    var r := Step(t, OpEvent(op));
    forall j | 0 <= j < |r.slots|
      ensures r.slots[j].event in r.memory.word && SlotInv(r.slots[j], r.memory.word[r.slots[j].event])
    {
      var e := t.slots[j].event;
      assert SlotInv(t.slots[j], t.memory.word[e]);
      if op.OpPop? && t.memory.head == Some(e) {
        EQ.PopTakesFirst(t.memory, t.queue);
      } else {
        EQ.StepKeepsTags(t.memory, t.queue, op, e);
      }
    }
  }

  lemma StepInv<A, E>(t: Table<A, E>, op: Op<A, E>)
    requires TableInv(t) && Can(t, op)
    ensures TableInv(Step(t, op)) && |Step(t, op).slots| == |t.slots|
  {
    match op
    case OpAcquire(r) => AcquireInv(t, r);
    case OpCall(i, answer) =>
      assert SlotInv(t.slots[i], t.memory.word[t.slots[i].event]);
      OneSlotInv(t, Step(t, op), i);
    case OpCallback(i, found) => CallbackInv(t, i, found);
    case OpDone(i) => DoneInv(t, i);
    case OpEvent(op) => EventInv(t, op);
  }

  ghost predicate ValidRun<A, E>(t: Table<A, E>, ops: seq<Op<A, E>>)
    requires TableInv(t)
    decreases ops
  {
    ops == [] || (Can(t, ops[0]) && (StepInv(t, ops[0]); ValidRun(Step(t, ops[0]), ops[1..])))
  }

  ghost function Outcome<A, E>(t: Table<A, E>, ops: seq<Op<A, E>>): Table<A, E>
    requires TableInv(t) && ValidRun(t, ops)
    decreases ops
  {
    if ops == [] then t else StepInv(t, ops[0]); Outcome(Step(t, ops[0]), ops[1..])
  }

  lemma {:induction false} RunInv<A, E>(t: Table<A, E>, ops: seq<Op<A, E>>)
    requires TableInv(t) && ValidRun(t, ops)
    ensures TableInv(Outcome(t, ops)) && |Outcome(t, ops).slots| == |t.slots|
    decreases ops
  {
    if ops != [] {
      StepInv(t, ops[0]);
      RunInv(Step(t, ops[0]), ops[1..]);
    }
  }

  /** Slot reuse is safe: in every interleaving of requests, timeouts, kills, late callbacks,
      dispatch and other users of the pending queue, a slot is free exactly when no request
      owns it and lwIP holds no callback for it, and an address is only ever seen by the
      request it was looked up for. */
  lemma SlotReuseIsSafe<A, E>(t: Table<A, E>, ops: seq<Op<A, E>>, i: nat)
    requires TableInv(t) && ValidRun(t, ops) && i < |t.slots|
    ensures |Outcome(t, ops).slots| == |t.slots| && Known(Outcome(t, ops).slots, Outcome(t, ops).memory)
    ensures var r := Outcome(t, ops); var s := r.slots[i];
      && (r.memory.word[s.event] == EQ.Disabled <==> s.owner == Nobody && s.callback == None)
      && (s.owner.Called? && s.status == Found ==> s.answered == Some(s.owner.r))
      && (s.owner.Called? && s.callback.Some? ==> s.callback == Some(s.owner.r))
  {
    RunInv(t, ops);
    var r := Outcome(t, ops);
    assert SlotInv(r.slots[i], r.memory.word[r.slots[i].event]);
  }

  /** Nothing is requested and the events of all slots are disabled, as at the start. */
  predicate AllFree<A, E(==)>(t: Table<A, E>) {
    && OwnEvents(t.slots) && Known(t.slots, t.memory)
    && (forall i :: 0 <= i < |t.slots| ==>
          && t.slots[i].owner == Nobody && t.slots[i].callback == None
          && t.memory.word[t.slots[i].event] == EQ.Disabled)
  }

  lemma StartInv<A, E>(t: Table<A, E>)
    requires AllFree(t) && EQ.Fifo(t.memory, t.queue)
    ensures TableInv(t)
  {
    assert forall j :: 0 <= j < |t.slots| ==> SlotInv(t.slots[j], t.memory.word[t.slots[j].event]);
  }

  ghost predicate RunFromStart<A, E>(t: Table<A, E>, ops: seq<Op<A, E>>)
    requires AllFree(t) && EQ.Fifo(t.memory, t.queue)
  {
    StartInv(t);
    ValidRun(t, ops)
  }

  /** So it is in every run from the start, whatever others have on the pending queue. */
  lemma SafeFromStart<A, E>(t: Table<A, E>, ops: seq<Op<A, E>>, i: nat)
    requires AllFree(t) && EQ.Fifo(t.memory, t.queue) && RunFromStart(t, ops) && i < |t.slots|
    ensures TableInv(t) && |Outcome(t, ops).slots| == |t.slots|
    ensures Known(Outcome(t, ops).slots, Outcome(t, ops).memory)
    ensures var r := Outcome(t, ops); var s := r.slots[i];
      && (r.memory.word[s.event] == EQ.Disabled <==> s.owner == Nobody && s.callback == None)
      && (s.owner.Called? && s.status == Found ==> s.answered == Some(s.owner.r))
  {
    StartInv(t);
    SlotReuseIsSafe(t, ops, i);
  }

  /** A callback for a request that gave up writes no result, and frees the slot. */
  lemma LateCallbackWritesNothing<A, E>(t: Table<A, E>, i: nat, found: Option<A>)
    requires TableInv(t) && i < |t.slots| && t.slots[i].owner == Nobody && t.slots[i].callback.Some?
    ensures var r := Step(t, OpCallback(i, found));
      && r.slots == t.slots[i := t.slots[i].(callback := None)]
      && r.queue == t.queue && r.memory == t.memory.(word := t.memory.word[t.slots[i].event := EQ.Disabled])
  {
    assert SlotInv(t.slots[i], t.memory.word[t.slots[i].event]);
  }

  /** A callback in time delivers the answer to the owner and leaves its event pending, so
      the waiting thread is woken. */
  lemma TimelyCallbackDelivers<A, E>(t: Table<A, E>, i: nat, found: Option<A>)
    requires TableInv(t) && i < |t.slots| && t.slots[i].owner != Nobody && t.slots[i].callback.Some?
    ensures var s, r := t.slots[i], Step(t, OpCallback(i, found));
      && TableInv(r) && r.queue == t.queue + [s.event] && r.slots[i].owner == s.owner
      && s.callback == Some(s.owner.r)
      && r.slots[i].status == (if found.Some? then Found else NotFound)
      && (found.Some? ==> r.slots[i].addr == found.value && r.slots[i].answered == Some(s.owner.r))
  {
    assert SlotInv(t.slots[i], t.memory.word[t.slots[i].event]);
    CallbackInv(t, i, found);
  }

  // ----- The answer reaches the owner -----

  /** What the owner of the slot is told when it checks. */
  function Told<A, E>(s: Slot<A, E>, timeout: bool): Reply<A> {
    match s.status
    case Found => Address(s.addr)
    case NotFound => NoAddress
    case Waiting => if timeout then TimedOut else Wait
  }

  /** The slot is owned, and lwIP will not call back. */
  predicate Settled<A, E>(s: Slot<A, E>) {
    s.owner.Called? && s.callback == None
  }

  lemma StepKeepsSettled<A, E>(t: Table<A, E>, op: Op<A, E>, i: nat)
    requires TableInv(t) && Can(t, op) && i < |t.slots| && Settled(t.slots[i]) && op != OpDone(i)
    ensures i < |Step(t, op).slots| && Step(t, op).slots[i] == t.slots[i]
  {
    assert SlotInv(t.slots[i], t.memory.word[t.slots[i].event]);
  }

  /** Nothing but the end of its request changes a settled slot, in any run. */
  lemma {:induction false} SettledStays<A, E>(t: Table<A, E>, ops: seq<Op<A, E>>, i: nat)
    requires TableInv(t) && ValidRun(t, ops) && i < |t.slots| && Settled(t.slots[i]) && OpDone(i) !in ops
    ensures i < |Outcome(t, ops).slots| && Outcome(t, ops).slots[i] == t.slots[i]
    decreases ops
  {
    if ops != [] {
      assert ops[0] in ops;
      StepInv(t, ops[0]);
      StepKeepsSettled(t, ops[0], i);
      SettledStays(Step(t, ops[0]), ops[1..], i);
    }
  }

  /** What a request must be told in the end: the answer of the callback, or the address that
      lwIP knew. */
  function Answered<A>(found: Option<A>): Reply<A> {
    match found
    case Some(addr) => Address(addr)
    case None => NoAddress
  }

  /** When lwIP calls back in time, the request is told exactly that answer, whenever it checks
      and whatever happens until it ends. */
  lemma CallbackReachesOwner<A, E>(t: Table<A, E>, i: nat, found: Option<A>, ops: seq<Op<A, E>>, timeout: bool)
    requires TableInv(t) && i < |t.slots| && t.slots[i].owner != Nobody && Can(t, OpCallback(i, found))
    ensures TableInv(Step(t, OpCallback(i, found)))
    ensures ValidRun(Step(t, OpCallback(i, found)), ops) && OpDone(i) !in ops ==>
      var r := Outcome(Step(t, OpCallback(i, found)), ops);
      i < |r.slots| && r.slots[i].owner == t.slots[i].owner && Told(r.slots[i], timeout) == Answered(found)
  {
    assert SlotInv(t.slots[i], t.memory.word[t.slots[i].event]);
    TimelyCallbackDelivers(t, i, found);
    var r := Step(t, OpCallback(i, found));
    if ValidRun(r, ops) && OpDone(i) !in ops { SettledStays(r, ops, i); }
  }

  /** Until then it is told to wait, or that its time is up. */
  lemma WaitsForCallback<A, E>(t: Table<A, E>, i: nat, timeout: bool)
    requires TableInv(t) && i < |t.slots| && t.slots[i].owner.Called?
    ensures t.slots[i].callback.Some? <==> Told(t.slots[i], timeout) == if timeout then TimedOut else Wait
  {
    assert SlotInv(t.slots[i], t.memory.word[t.slots[i].event]);
  }

  /** When lwIP knows the address, or fails, at once, the slot says so, and keeps saying so. */
  lemma KnownReachesOwner<A, E>(t: Table<A, E>, i: nat, answer: Answer<A>, ops: seq<Op<A, E>>, timeout: bool)
    requires TableInv(t) && Can(t, OpCall(i, answer)) && !answer.InProgress?
    ensures TableInv(Step(t, OpCall(i, answer)))
    ensures ValidRun(Step(t, OpCall(i, answer)), ops) && OpDone(i) !in ops ==>
      var r := Outcome(Step(t, OpCall(i, answer)), ops);
      && i < |r.slots| && r.slots[i].owner == Called(t.slots[i].owner.r)
      && Told(r.slots[i], timeout) == if answer.Known? then Address(answer.addr) else NoAddress
  {
    assert SlotInv(t.slots[i], t.memory.word[t.slots[i].event]);
    StepInv(t, OpCall(i, answer));
    var r := Step(t, OpCall(i, answer));
    if ValidRun(r, ops) && OpDone(i) !in ops { SettledStays(r, ops, i); }
  }

  /** A new request fails exactly when every slot is owned or waits for a callback. */
  lemma RequestFailsIff<A, E>(t: Table<A, E>)
    requires TableInv(t)
    ensures FirstFree(t.slots, t.memory) == |t.slots| <==>
      forall i :: 0 <= i < |t.slots| ==> t.slots[i].owner != Nobody || t.slots[i].callback.Some?
  {
    forall i | 0 <= i < |t.slots|
      ensures t.memory.word[t.slots[i].event] == EQ.Disabled
        <==> t.slots[i].owner == Nobody && t.slots[i].callback == None
    {
      assert SlotInv(t.slots[i], t.memory.word[t.slots[i].event]);
    }
  }

  // ----- The end of a request whose event is the last of several pending ones -----

  /** The end of a request keeps the guarantee exactly when its event is not the last of two
      or more pending events. */
  lemma DoneIsSafeIff<A, E>(t: Table<A, E>, i: nat)
    requires TableInv(t) && i < |t.slots| && t.slots[i].owner.Called?
    ensures (exists queue :: TableInv(EndRequest(t, i).(queue := queue)))
      <==> !EQ.LeavesTail(t.memory, t.slots[i].event)
  {
    var r := EndRequest(t, i);
    EQ.DisableKeepsFifoIff(t.memory, t.queue, t.slots[i].event, LeftWord(t.slots[i]));
    if EQ.LeavesTail(t.memory, t.slots[i].event) {
      forall queue ensures !TableInv(r.(queue := queue)) {
        assert !EQ.Fifo(r.memory, queue);
      }
    } else {
      DoneInv(t, i);
      assert TableInv(r.(queue := r.queue));
    }
  }

  /** What goes wrong: the next event that is set, by anybody, takes the freed slot away. It
      has no owner and no callback, and yet is never free again, whatever happens to other
      events. */
  lemma SlotIsLeaked<A, E>(t: Table<A, E>, i: nat, u: E, ops: seq<EQ.Op<E>>)
    requires TableInv(t) && i < |t.slots| && t.slots[i].owner.Called?
    requires EQ.LeavesTail(t.memory, t.slots[i].event)
    requires u in t.memory.word && u != t.slots[i].event && t.memory.word[u] == EQ.Idle
    ensures var e, r := t.slots[i].event, EndRequest(t, i);
      && r.slots[i].owner == Nobody && r.slots[i].callback == None
      && EQ.Sane(r.memory) && e in r.memory.word && r.memory.word[e] == EQ.Disabled
      && u in r.memory.word && EQ.Lost(EQ.Set(r.memory, u), r.queue, e)
      && (EQ.SparingRun(EQ.Set(r.memory, u), r.queue, e, ops) ==>
            var m := EQ.LostAfter(EQ.Set(r.memory, u), r.queue, e, ops);
            e in m.word && m.word[e] != EQ.Disabled && EQ.Enable(m, e) == m)
  {
    var e, r := t.slots[i].event, EndRequest(t, i);
    assert SlotInv(t.slots[i], t.memory.word[e]);
    EQ.NextEventIsLost(t.memory, t.queue, e, EQ.Disabled, u);
    EQ.DisableTags(t.memory, t.queue, e, EQ.Disabled, u);
    if EQ.SparingRun(EQ.Set(r.memory, u), r.queue, e, ops) {
      EQ.LostForEver(EQ.Set(r.memory, u), r.queue, e, ops);
    }
  }

  /** Slot 0 has its answer, and its event 1 is pending behind event 0, when the request is
      killed. Then event 2 is set: the only slot is nobody's, and the next request fails. */
  lemma FreedSlotIsLost()
    ensures var m := EQ.Queue(Some(0), Some(1), map[0 := EQ.Pending(Some(1)), 1 := EQ.Pending(None), 2 := EQ.Idle]);
      var t := Table([Slot(1, Found, 'a', Called(5), None, Some(5))], m, [0, 1]);
      && TableInv(t) && EQ.LeavesTail(m, 1)
      && var r := EndRequest(t, 0);
      && r.slots == [Slot(1, Found, 'a', Nobody, None, Some(5))]
      && EQ.Sane(r.memory) && 2 in r.memory.word && Known(r.slots, EQ.Set(r.memory, 2))
      && FirstFree(r.slots, r.memory) == 0 && FirstFree(r.slots, EQ.Set(r.memory, 2)) == |r.slots|
  {
    EQ.ThirdEventIsLost();
    var m := EQ.Queue(Some(0), Some(1), map[0 := EQ.Pending(Some(1)), 1 := EQ.Pending(None), 2 := EQ.Idle]);
    var t := Table([Slot(1, Found, 'a', Called(5), None, Some(5))], m, [0, 1]);
    assert EQ.Index([0, 1], 1) == 1;
    var r := EndRequest(t, 0);
    assert EQ.Set(r.memory, 2).word[1] == EQ.Pending(Some(2));
  }

  // ----- The slots in memory -----

  class GHBNState<A> {
    const event: Events.Event
    var status: Status
    var addr: A
    ghost var owner: Owner
    ghost var callback: Option<nat>
    ghost var answered: Option<nat>

    ghost function Value(): Slot<A, Events.Event>
      reads this
    {
      Slot(event, status, addr, owner, callback, answered)
    }

    constructor (event: Events.Event, addr: A)
      ensures Value() == Slot(event, Waiting, addr, Nobody, None, None)
    {
      this.event, status, this.addr := event, Waiting, addr;
      owner, callback, answered := Nobody, None, None;
    }

    /** Lines 117-133: starting the lookup of request `r`. */
    method Lookup(ghost r: nat, answer: Answer<A>) returns (reply: Reply<A>)
      modifies this
      ensures Value() == Call(Acquire(old(Value()), r), answer)
      ensures reply == match answer case Known(a) => Address(a) case InProgress => Wait case Error => LookupFailed
      ensures reply.Address? ==> addr == reply.addr && answered == Some(r)
    {
      status, owner := Waiting, Called(r);
      match answer {
        case Known(found) =>
          addr, status, answered := found, Found, Some(r);
          reply := Address(addr);
        case InProgress =>
          callback := Some(r);
          reply := Wait;
        case Error =>
          status := NotFound;
          reply := LookupFailed;
      }
    }

    /** handle_dns_found() at line 57. */
    method HandleDnsFound(q: Events.EventQueue, found: Option<A>)
      requires q.Holds() && EQ.Sane(q.model) && event in q.model.word && callback.Some?
      modifies this, q, q.model.word.Keys
      ensures q.Holds() && (Value(), q.model) == Callback(old(Value()), old(q.model), found)
    {
      var abandoned := q.DisableIfAbandoned(event);
      if abandoned {
        callback := None;
        return;
      }
      if found.Some? {
        addr, status := found.value, Found;
        answered := callback;
      } else {
        status := NotFound;
      }
      callback := None;
      q.SetNoLock(event);
    }

    /** gethostbyname_done() at line 89. */
    method GetHostByNameDone(q: Events.EventQueue, ghost queue: seq<Events.Event>)
      requires q.Holds() && EQ.Fifo(q.model, queue) && event in q.model.word
      modifies this, q, q.model.word.Keys
      ensures EQ.Fifo(old(q.model), queue)
      ensures q.Holds() && (Value(), q.model) == Done(old(Value()), old(q.model), queue)
    {
      q.DisableEvent(event, if status == Waiting then EQ.Abandoned else EQ.Disabled, queue);
      owner := Nobody;
    }

    /** gethostbyname_loop() at line 75, for the request that owns the slot. An address was
        looked up for this request, and it waits only while lwIP still owes it a callback. */
    method Check(ghost q: Events.EventQueue, timeout: bool) returns (reply: Reply<A>)
      requires event in q.model.word && SlotInv(Value(), q.model.word[event]) && owner.Called?
      ensures reply == Told(Value(), timeout)
      ensures reply == Wait || reply == TimedOut <==> callback == Some(owner.r)
      ensures reply == TimedOut ==> timeout
      ensures reply == Wait ==> !timeout
      ensures status == Found ==> reply == Address(addr) && answered == Some(owner.r)
      ensures status == NotFound ==> reply == NoAddress
    {
      match status
      case Found => reply := Address(addr);
      case NotFound => reply := NoAddress;
      case Waiting => reply := if timeout then TimedOut else Wait;
    }
  }

  ghost function Values<A>(slots: seq<GHBNState<A>>): seq<Slot<A, Events.Event>>
    reads slots
  {
    seq(|slots|, i requires 0 <= i < |slots| reads slots => slots[i].Value())
  }

  /** Lines 106-113: enable the event of the first slot where that works. */
  method TakeSlot<A>(slots: seq<GHBNState<A>>, q: Events.EventQueue) returns (found: bool, slot: nat)
    requires q.Holds() && Known(Values(slots), q.model)
    modifies q`model, q.model.word.Keys
    ensures slot == FirstFree(Values(slots), old(q.model)) && found == (slot < |slots|)
    ensures q.Holds()
    ensures q.model == if found then EQ.Enable(old(q.model), slots[slot].event) else old(q.model)
  {
    slot, found := 0, false;
    ghost var values, m := Values(slots), q.model;
    while slot < |slots|
      invariant slot <= |slots| == |values| && Known(values, m)
      invariant q.Holds() && q.model == m && Values(slots) == values
      invariant forall i :: 0 <= i < slot ==> m.word[values[i].event] != EQ.Disabled
    {
      assert values[slot].event in m.word;
      found := q.Enable(slots[slot].event);
      if found {
        FirstFreeIs(values, m, slot);
        return;
      }
      slot := slot + 1;
    }
    FirstFreeIs(values, m, slot);
  }

  /** mod_gethostbyname() at line 101: take the first free slot and start the lookup, whose
      answer is `answer`. */
  method GetHostByName<A>(slots: seq<GHBNState<A>>, q: Events.EventQueue, ghost r: nat, answer: Answer<A>)
    returns (reply: Reply<A>, slot: nat)
    requires forall i, j :: 0 <= i < j < |slots| ==> slots[i] != slots[j]
    requires q.Holds() && Known(Values(slots), q.model)
    modifies slots, q`model, q.model.word.Keys
    ensures q.Holds()
    ensures slot == FirstFree(old(Values(slots)), old(q.model))
    ensures reply == NoSlot <==> slot == |slots|
    ensures slot < |slots| ==>
      && reply == (match answer case Known(a) => Address(a) case InProgress => Wait case Error => LookupFailed)
      && q.model == EQ.Enable(old(q.model), slots[slot].event)
      && Values(slots) == old(Values(slots))[slot := Call(Acquire(old(Values(slots))[slot], r), answer)]
    ensures reply == NoSlot ==> q.model == old(q.model) && Values(slots) == old(Values(slots))
  {
    var found;
    found, slot := TakeSlot(slots, q);
    if !found { return NoSlot, slot; }
    reply := slots[slot].Lookup(r, answer);
  }

  lemma {:induction false} FirstFreeIs<A, E>(slots: seq<Slot<A, E>>, m: EQ.Queue<E>, n: nat)
    requires Known(slots, m) && n <= |slots|
    requires n < |slots| ==> m.word[slots[n].event] == EQ.Disabled
    requires forall i :: 0 <= i < n ==> m.word[slots[i].event] != EQ.Disabled
    ensures FirstFree(slots, m) == n
  {
    if n > 0 {
      assert slots[0].event in m.word;
      FirstFreeIs(slots[1..], m, n - 1);
    }
  }
}
