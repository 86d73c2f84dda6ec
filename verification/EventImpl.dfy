/** Events and their queue as the source has them, updated in place. */
module Events {
  import opened Options
  import opened EQ = EventQueues

  class Event {
    var word: Word<Event>

    constructor ()
      ensures word == Disabled
    {
      word := Disabled;
    }
  }

  class EventQueue {
    var head: Option<Event>
    var tail: Option<Event>
    ghost var model: Queue<Event>

    /** Memory is the snapshot `model`. */
    ghost predicate Holds()
      reads this, model.word.Keys
    {
      && head == model.head && tail == model.tail
      && forall e {:trigger e.word} | e in model.word :: e.word == model.word[e]
    }

    constructor (events: set<Event>)
      requires forall e | e in events :: e.word == Disabled
      ensures Holds() && model.word.Keys == events && Fifo(model, [])
    {
      head, tail := None, None;
      model := Queue(None, None, map e | e in events :: Disabled);
    }

    /** mlua_event_enable() at line 72. */
    method Enable(e: Event) returns (enabled: bool)
      requires Holds() && e in model.word
      modifies this`model, e
      ensures Holds() && model == EQ.Enable(old(model), e)
      ensures enabled <==> old(e.word) == Disabled
    {
      enabled := e.word == Disabled;
      if enabled {
        e.word := Idle;
        model := EQ.Enable(model, e);
      }
    }

    /** mlua_event_set_nolock() at line 106. */
    method SetNoLock(e: Event)
      requires Holds() && Sane(model) && e in model.word
      modifies this, model.word.Keys
      ensures Holds() && model == EQ.Set(old(model), e)
    {
      if e.word != Idle { return; }
      ghost var after := EQ.Set(model, e);
      e.word := Pending(None);
      if head == None {
        head, tail := Some(e), Some(e);
      } else {
        tail.value.word := Pending(Some(e));
        tail := Some(e);
      }
      model := after;
    }

    /** remove_pending_nolock() at line 56. */
    method RemovePending(e: Event, ghost s: seq<Event>)
      requires Holds() && Fifo(model, s) && e in s
      modifies this`head, this`model, model.word.Keys
      ensures Holds() && model == Unlink(old(model), s, Index(s, e))
    {
      ghost var i := Index(s, e);
      IndexFirst(s, e);
      if head == Some(e) {
        assert i == 0;
        head := e.word.next;
        model := Unlink(model, s, i);
        return;
      }
      var cur := head.value;
      ghost var k := 0;
      while cur.word.next != Some(e)
        invariant k < i && cur == s[k] && cur.word == Pending(EQ.Link(s, k + 1))
        invariant Holds() && model == old(model)
        decreases i - k
      {
        cur, k := cur.word.next.value, k + 1;
        assert model.word[s[k]] == Pending(EQ.Link(s, k + 1));
      }
      assert k + 1 == i;
      cur.word := e.word;
      model := Unlink(model, s, i);
    }

    /** disable_event() at line 84. */
    method DisableEvent(e: Event, word: Word<Event>, ghost s: seq<Event>)
      requires Holds() && Fifo(model, s) && e in model.word
      modifies this`head, this`model, model.word.Keys
      ensures Fifo(old(model), s) && (old(model).word[e].Pending? ==> e in s)
      ensures Holds() && model == Disable(old(model), s, e, word)
    {
      if e.word == Disabled { return; }
      FifoMembers(model, s);
      ghost var after := Disable(model, s, e, word);
      if e.word.Pending? { RemovePending(e, s); }
      e.word := word;
      model := after;
    }

    /** mlua_event_disable_abandoned() at line 119. */
    method DisableIfAbandoned(e: Event) returns (abandoned: bool)
      requires Holds() && e in model.word
      modifies this`model, e
      ensures Holds() && model == DisableAbandoned(old(model), e)
      ensures abandoned <==> old(e.word) == Abandoned
    {
      abandoned := e.word == Abandoned;
      if abandoned {
        e.word := Disabled;
        model := DisableAbandoned(model, e);
      }
    }

    /** The locked section of lines 140-146. */
    method Take(ghost s: seq<Event>) returns (e: Event)
      requires Holds() && Fifo(model, s) && s != []
      modifies this`head, this`model, model.word.Keys
      ensures e == s[0] && Holds() && Fifo(model, s[1..])
      ensures old(model).head == Some(e) && e in old(model).word && old(model).word[e].Pending?
      ensures model == Pop(old(model)) && model.word.Keys == old(model.word.Keys)
    {
      PopTakesFirst(model, s);
      e := head.value;
      head := e.word.next;
      e.word := Idle;
      model := Pop(model);
    }

    method Interrupt(e: Event, ghost s: seq<Event>) returns (ghost t: seq<Event>)
      requires Holds() && Fifo(model, s) && e in model.word
      modifies this, model.word.Keys
      ensures Holds() && Fifo(model, t) && (t == s || t == s + [e]) && SameModes(old(model), model)
    {
      SetAppends(model, s, e);
      t := if e.word == Idle then s + [e] else s;
      SetNoLock(e);
    }

    /** Interrupts between two locked sections: they set any of `sources`, at most `budget`
        times from here on. */
    method Interrupts(sources: set<Event>, budget: nat, ghost s: seq<Event>)
      returns (left: nat, ghost came: seq<Event>)
      requires Holds() && Fifo(model, s) && sources <= model.word.Keys
      modifies this, model.word.Keys
      ensures Holds() && Fifo(model, s + came) && left + |came| <= budget
      ensures SameModes(old(model), model) && forall e | e in came :: e in sources
    {
      left, came := budget, [];
      assert s + [] == s;
      var more: bool := *;
      while more && left > 0 && sources != {}
        invariant Holds() && Fifo(model, s + came) && left + |came| <= budget
        invariant SameModes(old(model), model) && forall e | e in came :: e in sources
        decreases left
      {
        var e :| e in sources;
        ghost var t := Interrupt(e, s + came);
        AppendAssociates(s, came, [e]);
        came := if t == s + came then came else came + [e];
        left := left - 1;
        more := *;
      }
    }

    method TakeOne(sources: set<Event>, budget: nat, ghost s: seq<Event>)
      returns (e: Event, left: nat, ghost came: seq<Event>)
      requires Holds() && Fifo(model, s) && s != [] && sources <= model.word.Keys
      modifies this, model.word.Keys
      ensures e == s[0] && Holds() && Fifo(model, s[1..] + came) && left + |came| <= budget
      ensures SameModes(old(model), model) && forall e | e in came :: e in sources
    {
      e := Take(s);
      left, came := Interrupts(sources, budget, s[1..]);
    }

    /** A round of the loop, after `all` the events that were pending or came: `rest` is pending
        and `taken` was taken. */
    method Round(sources: set<Event>, budget: nat, ghost all: seq<Event>, ghost taken: seq<Event>,
                 ghost rest: seq<Event>)
      returns (e: Event, left: nat, ghost came: seq<Event>, ghost after: seq<Event>)
      requires Holds() && Fifo(model, rest) && rest != [] && sources <= model.word.Keys && all == taken + rest
      modifies this, model.word.Keys
      ensures Holds() && Fifo(model, after) && all + came == taken + [e] + after
      ensures left + |came| <= budget && left + |after| < budget + |rest|
      ensures SameModes(old(model), model) && forall e | e in came :: e in sources
    {
      e, left, came := TakeOne(sources, budget, rest);
      MoveFirst(all, taken, rest, came);
      after := rest[1..] + came;
    }

    /** The inner loop of mlua_event_dispatch(), lines 139-149: every event that is pending, or
        becomes pending on the way, is taken once, in the order in which they were set. */
    method DispatchAll(sources: set<Event>, budget: nat, ghost s: seq<Event>)
      returns (taken: seq<Event>, ghost came: seq<Event>)
      requires Holds() && Fifo(model, s) && sources <= model.word.Keys
      modifies this, model.word.Keys
      ensures taken == s + came && |came| <= budget && forall e | e in came :: e in sources
      ensures Holds() && Fifo(model, []) && SameModes(old(model), model)
    {
      taken, came := [], [];
      ghost var rest := s;
      var left: nat := budget;
      assert s + [] == s && [] + s == s;
      while head != None
        invariant s + came == taken + rest && Holds() && Fifo(model, rest)
        invariant left + |came| <= budget && forall e | e in came :: e in sources
        invariant SameModes(old(model), model)
        decreases left + |rest|
      {
        var e;
        ghost var more, after;
        e, left, more, after := Round(sources, left, s + came, taken, rest);
        AppendAssociates(s, came, more);
        taken, came, rest := taken + [e], came + more, after;
      }
      assert rest == [];
    }
  }

  /** Events stay enabled, disabled or abandoned as they were. */
  predicate SameModes<E(==)>(q: Queue<E>, r: Queue<E>) {
    && r.word.Keys == q.word.Keys
    && (forall e | e in q.word ::
          if q.word[e] == Disabled || q.word[e] == Abandoned then r.word[e] == q.word[e]
          else r.word[e] == Idle || r.word[e].Pending?)
  }

  lemma AppendAssociates<E>(a: seq<E>, b: seq<E>, c: seq<E>)
    ensures a + b + c == a + (b + c)
  {
  }

  lemma MoveFirst<E>(all: seq<E>, taken: seq<E>, rest: seq<E>, came: seq<E>)
    requires all == taken + rest && rest != []
    ensures all + came == taken + [rest[0]] + (rest[1..] + came)
  {
    assert taken + rest + came == taken + [rest[0]] + rest[1..] + came;
  }

  lemma {:induction false} IndexFirst<E>(s: seq<E>, e: E)
    requires e in s
    ensures forall j :: 0 <= j < Index(s, e) ==> s[j] != e
  {
    if s[0] != e { IndexFirst(s[1..], e); }
  }
}
