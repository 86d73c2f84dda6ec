/** The two bounded queues as the source has them, in arrays updated in place. */
module RingBuffers {
  import opened Options
  import opened Rings
  import opened Words

  class RingBuffer<P> {
    var head: u8
    var len: u8
    const cap: u8
    var dropped: u8
    const items: array<P>

    ghost predicate Ok()
      reads this, items
    {
      Valid(Value())
    }

    ghost function Value(): Ring<P>
      reads this, items
    {
      Ring(head, len, cap, dropped, items[..])
    }

    constructor (cap: u8, blank: P)
      requires cap > 0
      ensures Ok() && Value().len == 0 && Value().dropped == 0 && this.cap == cap && fresh(items)
    {
      head, len, this.cap, dropped := 0, 0, cap, 0;
      items := new P[cap](_ => blank);
    }

    /** handle_recv() at line 29 of lwip.udp.c, and lines 117-131 of pico.cyw43.wifi.c:
        true if the item was stored and the event has to be set. */
    method Arrive(p: P) returns (stored: bool)
      requires Ok()
      modifies this, items
      ensures Ok() && Value() == Push(old(Value()), p)
      ensures stored <==> old(len) < cap
      ensures Queue(Value()) == if stored then old(Queue(Value())) + [p] else old(Queue(Value()))
      ensures old(len) > 0 ==> items[head] == old(items[head])
    {
      PushAppends(Value(), p);
      if len < cap {
        var i := head as nat + len;
        if i >= cap { i := i - cap; }
        len := len + 1;
        items[i] := p;
        stored := true;
      } else {
        dropped := (dropped + 1) % 256;
        stored := false;
      }
    }

    /** Line 160 of lwip.udp.c, outside the lock. */
    method First() returns (p: P)
      requires Ok() && len > 0
      ensures p == Queue(Value())[0]
    {
      DropRemovesFirst(Value());
      p := items[head];
    }

    /** Lines 167-168 of lwip.udp.c. */
    method Advance()
      requires Ok() && len > 0
      modifies this
      ensures Ok() && Value() == Drop(old(Value())) && Queue(Value()) == old(Queue(Value()))[1..]
    {
      DropRemovesFirst(Value());
      head := head + 1;
      if head == cap { head := 0; }
      len := len - 1;
    }

    /** The locked part of scan_next_loop(), lines 141-150 of pico.cyw43.wifi.c. */
    method TakeResult() returns (result: Option<P>, drops: u8)
      requires Ok()
      modifies this
      ensures Ok() && (result.Some? <==> old(len) > 0)
      ensures result.Some? ==> result.value == old(Queue(Value()))[0] && drops == old(dropped)
      ensures result.Some? ==> Value() == Drop(old(Value())).(dropped := 0)
      ensures result.None? ==> drops == 0 && Value() == old(Value())
    {
      drops := 0;
      if len > 0 {
        DropRemovesFirst(Value());
        var p := items[head];
        head := head + 1;
        if head == cap { head := 0; }
        len := len - 1;
        result, drops := Some(p), dropped;
        dropped := 0;
      } else {
        result := None;
      }
    }

    /** UDP_close() at line 57 of lwip.udp.c: free the queued datagrams. */
    method FreeAll() returns (freed: seq<P>)
      requires Ok()
      modifies this
      ensures Ok() && len == 0 && freed == old(Queue(Value())) && Value() == DropAll(old(Value()))
    {
      freed := [];
      while len > 0
        invariant Ok() && freed + Queue(Value()) == old(Queue(Value()))
        invariant DropAll(Value()) == DropAll(old(Value()))
        decreases len
      {
        MoveFirst(freed, Queue(Value()));
        var p := First();
        Advance();
        freed := freed + [p];
      }
    }
  }
}
