/** The bounded queues between network callbacks and threads: received datagrams in
    lib/pico/lwip.udp.c and scan results in lib/pico/pico.cyw43.wifi.c. Head, length,
    capacity and drop counter are 8-bit. */
module Rings {
  import opened Options
  import opened Words

  datatype Ring<P> = Ring(head: u8, len: u8, cap: u8, dropped: u8, items: seq<P>)

  predicate Valid<P>(r: Ring<P>) {
    0 < r.cap && |r.items| == r.cap && r.head < r.cap && r.len <= r.cap
  }

  /** The position of entry `i` of the queue. */
  function Slot(head: nat, i: nat, cap: nat): (k: nat)
    requires head < cap && i < cap
    ensures k < cap
  {
    if head + i >= cap then head + i - cap else head + i
  }

  /** The queue that the ring stands for. */
  function Queue<P>(r: Ring<P>): (q: seq<P>)
    requires Valid(r)
    ensures |q| == r.len && forall i :: 0 <= i < r.len ==> q[i] == r.items[Slot(r.head, i, r.cap)]
  {
    seq(r.len, i requires 0 <= i < r.len => r.items[Slot(r.head, i, r.cap)])
  }

  /** The accepting and the dropping branch of handle_recv() and handle_scan_result(). */
  function Push<P>(r: Ring<P>, p: P): Ring<P>
    requires Valid(r)
  {
    if r.len < r.cap then
      r.(len := r.len + 1, items := r.items[Slot(r.head, r.len, r.cap) := p])
    else r.(dropped := (r.dropped + 1) % 256)
  }

  /** Lines 167-168 of lwip.udp.c, 145-146 of pico.cyw43.wifi.c. */
  function Drop<P>(r: Ring<P>): Ring<P>
    requires Valid(r) && r.len > 0
  {
    r.(head := if r.head + 1 == r.cap then 0 else r.head + 1, len := r.len - 1)
  }

  lemma PushAppends<P>(r: Ring<P>, p: P)
    requires Valid(r)
    ensures Valid(Push(r, p))
    ensures Queue(Push(r, p)) == if r.len < r.cap then Queue(r) + [p] else Queue(r)
    ensures r.len > 0 ==> Push(r, p).items[r.head] == r.items[r.head]
  {
    var t := Push(r, p);
    if r.len < r.cap {
      assert forall i :: 0 <= i < r.len ==> Slot(r.head, i, r.cap) != Slot(r.head, r.len, r.cap);
      assert Queue(t) == Queue(r) + [p];
    } else {
      assert Queue(t) == Queue(r);
    }
  }

  lemma DropRemovesFirst<P>(r: Ring<P>)
    requires Valid(r) && r.len > 0
    ensures Valid(Drop(r)) && Queue(Drop(r)) == Queue(r)[1..] && Queue(r)[0] == r.items[r.head]
  {
    assert forall i :: 0 <= i < r.len - 1 ==>
      Slot(Drop(r).head, i, r.cap) == Slot(r.head, i + 1, r.cap);
  }

  // ----- Datagrams: the consumer reads the head slot outside the lock -----

  /** Where recv_loop() is: not running, past the check that the queue is not empty, or
      holding a copy of the head slot. */
  datatype Stage<P> = Out | Checked | Copied(p: P)

  /** The socket and its history: what was accepted, what was handed to threads, what was
      freed because the queue was full, and what was freed when the socket was closed. */
  datatype Socket<P> = Socket(ring: Ring<P>, stage: Stage<P>, open: bool,
                              accepted: seq<P>, delivered: seq<P>, refused: seq<P>, drained: seq<P>)

  datatype Op<P> = Arrive(p: P) | Check | Copy | Advance | Close

  /** lwIP calls the handler until the socket is closed, between any two steps of a reader. */
  predicate Can<P>(s: Socket<P>, op: Op<P>) {
    Valid(s.ring) &&
    match op
    case Arrive(_) => s.open
    case Check => s.open && s.stage == Out && s.ring.len > 0
    case Copy => s.stage == Checked
    case Advance => s.stage.Copied? && s.ring.len > 0
    case Close => s.open && s.stage == Out
  }

  function Step<P>(s: Socket<P>, op: Op<P>): Socket<P>
    requires Can(s, op)
  {
    match op
    case Arrive(p) =>
      var t := s.(ring := Push(s.ring, p));
      if s.ring.len < s.ring.cap then t.(accepted := s.accepted + [p])
      else t.(refused := s.refused + [p])
    case Check => s.(stage := Checked)
    case Copy => s.(stage := Copied(s.ring.items[s.ring.head]))
    case Advance => s.(ring := Drop(s.ring), stage := Out, delivered := s.delivered + [s.stage.p])
    case Close => s.(ring := DropAll(s.ring), open := false, drained := Queue(s.ring))
  }

  function DropAll<P>(r: Ring<P>): Ring<P>
    requires Valid(r)
    decreases r.len
  {
    if r.len == 0 then r else DropRemovesFirst(r); DropAll(Drop(r))
  }

  lemma {:induction false} DropAllEmpties<P>(r: Ring<P>)
    requires Valid(r)
    ensures Valid(DropAll(r)) && Queue(DropAll(r)) == [] && DropAll(r).dropped == r.dropped
    decreases r.len
  {
    if r.len > 0 {
      DropRemovesFirst(r);
      DropAllEmpties(Drop(r));
    }
  }

  /** Accepted datagrams are the delivered ones, then the ones freed on closing, then the
      queued ones, in order; the drop counter counts the refused ones modulo 256; and a
      reader that is between its steps still looks at the oldest datagram. */
  predicate SocketInv<P(==)>(s: Socket<P>) {
    && Valid(s.ring)
    && s.accepted == s.delivered + s.drained + Queue(s.ring)
    && s.ring.dropped == |s.refused| % 256
    && (s.stage != Out ==> s.ring.len > 0 && s.open)
    && (s.stage.Copied? ==> s.stage.p == Queue(s.ring)[0])
    && (s.open ==> s.drained == [])
    && (!s.open ==> s.ring.len == 0)
  }

  lemma AppendLast<P>(a: seq<P>, b: seq<P>, q: seq<P>, p: P)
    ensures a + b + q + [p] == a + b + (q + [p])
  {
  }

  lemma DeliverFirst<P>(a: seq<P>, q: seq<P>)
    requires q != []
    ensures a + [] + q == a + [q[0]] + [] + q[1..]
  {
  }

  lemma FreeRest<P>(a: seq<P>, q: seq<P>)
    ensures a + [] + q == a + q + []
  {
  }

  lemma ArriveInv<P>(s: Socket<P>, p: P)
    requires SocketInv(s) && Can(s, Arrive(p))
    ensures SocketInv(Step(s, Arrive(p)))
  {
    PushAppends(s.ring, p);
    AppendLast(s.delivered, s.drained, Queue(s.ring), p);
  }

  lemma AdvanceInv<P>(s: Socket<P>)
    requires SocketInv(s) && Can(s, Advance)
    ensures SocketInv(Step(s, Advance))
  {
    DropRemovesFirst(s.ring);
    DeliverFirst(s.delivered, Queue(s.ring));
  }

  lemma CloseInv<P>(s: Socket<P>)
    requires SocketInv(s) && Can(s, Close)
    ensures SocketInv(Step(s, Close))
  {
    DropAllEmpties(s.ring);
    FreeRest(s.delivered, Queue(s.ring));
  }

  lemma StepInv<P>(s: Socket<P>, op: Op<P>)
    requires SocketInv(s) && Can(s, op)
    ensures SocketInv(Step(s, op))
  {
    match op
    case Arrive(p) => ArriveInv(s, p);
    case Advance => AdvanceInv(s);
    case Close => CloseInv(s);
    case _ =>
  }

  predicate ValidRun<P>(s: Socket<P>, ops: seq<Op<P>>)
    decreases ops
  {
    ops == [] || (Can(s, ops[0]) && ValidRun(Step(s, ops[0]), ops[1..]))
  }

  function After<P>(s: Socket<P>, ops: seq<Op<P>>): Socket<P>
    requires ValidRun(s, ops)
    decreases ops
  {
    if ops == [] then s else After(Step(s, ops[0]), ops[1..])
  }

  function Arrivals<P>(ops: seq<Op<P>>): nat {
    if ops == [] then 0 else (if ops[0].Arrive? then 1 else 0) + Arrivals(ops[1..])
  }

  lemma {:induction false} RunInv<P>(s: Socket<P>, ops: seq<Op<P>>)
    requires SocketInv(s) && ValidRun(s, ops)
    ensures var t := After(s, ops);
      && SocketInv(t)
      && |t.accepted| + |t.refused| == |s.accepted| + |s.refused| + Arrivals(ops)
    decreases ops
  {
    if ops != [] {
      StepInv(s, ops[0]);
      RunInv(Step(s, ops[0]), ops[1..]);
    }
  }

  predicate Fresh<P>(s: Socket<P>) {
    && Valid(s.ring) && s.ring.len == 0 && s.ring.dropped == 0 && s.stage == Out && s.open
    && s.accepted == [] && s.delivered == [] && s.refused == [] && s.drained == []
  }

  /** In every interleaving of arrivals and reader steps no datagram is lost, duplicated or
      reordered: each arrival is either refused and freed, or accepted, and the accepted
      ones are delivered in order, or freed when the socket is closed. */
  lemma DatagramsAreConserved<P>(s: Socket<P>, ops: seq<Op<P>>)
    requires Fresh(s) && ValidRun(s, ops)
    ensures var t := After(s, ops);
      && Valid(t.ring) && t.accepted == t.delivered + t.drained + Queue(t.ring)
      && |t.accepted| + |t.refused| == Arrivals(ops)
      && t.ring.dropped == |t.refused| % 256
      && (!t.open ==> t.accepted == t.delivered + t.drained)
  {
    assert SocketInv(s);
    RunInv(s, ops);
  }

  // ----- Scan results: taken under the lock, with the number dropped since the last one -----

  /** The scan queue and its history: accepted and delivered results, the drop counts that
      were reported, all drops, the drops since the last report, and how often the counter
      wrapped. */
  datatype Scan<P> = Scan(ring: Ring<P>, accepted: seq<P>, delivered: seq<P>, reported: seq<nat>,
                          drops: nat, burst: nat, wraps: nat)

  function Sum(s: seq<nat>): nat {
    if s == [] then 0 else Sum(s[..|s| - 1]) + s[|s| - 1]
  }

  /** handle_scan_result() at line 113. */
  function Result<P>(s: Scan<P>, p: P): Scan<P>
    requires Valid(s.ring)
  {
    var t := s.(ring := Push(s.ring, p));
    if s.ring.len < s.ring.cap then t.(accepted := s.accepted + [p])
    else t.(drops := s.drops + 1, burst := s.burst + 1,
            wraps := s.wraps + (if s.ring.dropped == 255 then 1 else 0))
  }

  /** scan_next_loop() at line 137: a result and the drop count, or nothing. */
  function Take<P>(s: Scan<P>): (Scan<P>, Option<(P, nat)>)
    requires Valid(s.ring)
  {
    if s.ring.len == 0 then (s, None)
    else
      var p := s.ring.items[s.ring.head];
      (s.(ring := Drop(s.ring).(dropped := 0), delivered := s.delivered + [p],
          reported := s.reported + [s.ring.dropped], burst := 0),
       Some((p, s.ring.dropped as nat)))
  }

  predicate ScanInv<P(==)>(s: Scan<P>) {
    && Valid(s.ring)
    && s.accepted == s.delivered + Queue(s.ring)
    && s.drops == Sum(s.reported) + s.ring.dropped + 256 * s.wraps
    && s.ring.dropped == s.burst % 256
  }

  lemma ResultInv<P>(s: Scan<P>, p: P)
    requires ScanInv(s)
    ensures ScanInv(Result(s, p))
    ensures s.ring.len == s.ring.cap && s.wraps == 0 ==>
      (Result(s, p).wraps == 0 <==> s.burst % 256 != 255)
  {
    PushAppends(s.ring, p);
    if s.ring.len < s.ring.cap {
      assert s.delivered + Queue(s.ring) + [p] == s.delivered + (Queue(s.ring) + [p]);
    } else {
      CounterStep(s.ring.dropped, s.burst);
    }
  }

  /** The 8-bit counter follows the number it counts, and loses 256 when it wraps. */
  lemma CounterStep(dropped: u8, burst: nat)
    requires dropped == burst % 256
    ensures (dropped + 1) % 256 == (burst + 1) % 256
    ensures (dropped + 1) % 256 == if dropped == 255 then 0 else dropped + 1
  {
  }

  lemma CounterIrrelevant<P>(r: Ring<P>)
    requires Valid(r)
    ensures Queue(r.(dropped := 0)) == Queue(r)
  {
  }

  lemma SumAppend(s: seq<nat>, n: nat)
    ensures Sum(s + [n]) == Sum(s) + n
  {
    assert (s + [n])[..|s|] == s;
  }

  lemma MoveFirst<P>(a: seq<P>, q: seq<P>)
    requires q != []
    ensures a + q == a + [q[0]] + q[1..]
  {
  }

  lemma TakeInv<P>(s: Scan<P>)
    requires ScanInv(s)
    ensures ScanInv(Take(s).0)
    ensures s.ring.len > 0 ==> Take(s).1 == Some((Queue(s.ring)[0], s.burst % 256))
  {
    if s.ring.len > 0 {
      DropRemovesFirst(s.ring);
      CounterIrrelevant(Drop(s.ring));
      MoveFirst(s.delivered, Queue(s.ring));
      SumAppend(s.reported, s.ring.dropped);
    }
  }

  datatype ScanOp<P> = Found(p: P) | Next

  function ScanStep<P>(s: Scan<P>, op: ScanOp<P>): Scan<P>
    requires Valid(s.ring)
  {
    match op
    case Found(p) => Result(s, p)
    case Next => Take(s).0
  }

  function ScanRun<P>(s: Scan<P>, ops: seq<ScanOp<P>>): Scan<P>
    requires ScanInv(s)
    decreases ops
  {
    if ops == [] then s
    else
      ScanStepInv(s, ops[0]);
      ScanRun(ScanStep(s, ops[0]), ops[1..])
  }

  lemma ScanStepInv<P>(s: Scan<P>, op: ScanOp<P>)
    requires ScanInv(s)
    ensures ScanInv(ScanStep(s, op))
  {
    match op
    case Found(p) => ResultInv(s, p);
    case Next => TakeInv(s);
  }

  /** No more than 255 results are dropped between two reads. */
  predicate ShortBursts<P>(s: Scan<P>, ops: seq<ScanOp<P>>)
    requires ScanInv(s)
    decreases ops
  {
    s.burst < 256 &&
    (ops == [] || (ScanStepInv(s, ops[0]); ShortBursts(ScanStep(s, ops[0]), ops[1..])))
  }

  function Results<P>(ops: seq<ScanOp<P>>): nat {
    if ops == [] then 0 else (if ops[0].Found? then 1 else 0) + Results(ops[1..])
  }

  /** Accepted results are delivered in order, and every result is accepted or counted as
      dropped, up to a multiple of 256. */
  lemma {:induction false} ScanIsConserved<P>(s: Scan<P>, ops: seq<ScanOp<P>>)
    requires ScanInv(s)
    ensures var t := ScanRun(s, ops);
      && ScanInv(t) && |t.accepted| + t.drops == |s.accepted| + s.drops + Results(ops)
      && s.wraps <= t.wraps
    decreases ops
  {
    if ops != [] {
      ScanStepInv(s, ops[0]);
      ScanIsConserved(ScanStep(s, ops[0]), ops[1..]);
    }
  }

  /** The reported counts add up to the number of dropped results exactly when no burst of
      drops between two reads exceeds 255. */
  lemma {:induction false} DropCountsExactIff<P>(s: Scan<P>, ops: seq<ScanOp<P>>)
    requires ScanInv(s) && s.wraps == 0 && s.burst < 256
    ensures var t := ScanRun(s, ops);
      Valid(t.ring) && (t.drops == Sum(t.reported) + t.ring.dropped <==> ShortBursts(s, ops))
    decreases ops
  {
    ScanIsConserved(s, ops);
    if ops != [] {
      var t := ScanStep(s, ops[0]);
      ScanStepInv(s, ops[0]);
      if t.wraps == 0 {
        DropCountsExactIff(t, ops[1..]);
      } else {
        assert t.burst == 256;
        ScanIsConserved(t, ops[1..]);
      }
    }
  }

  function Flood<P>(p: P, n: nat): seq<ScanOp<P>> {
    if n == 0 then [] else [Found(p)] + Flood(p, n - 1)
  }

  /** Results that find the queue full are all dropped, and counted modulo 256. */
  lemma {:induction false} FloodIsDropped<P>(s: Scan<P>, p: P, n: nat)
    requires ScanInv(s) && s.ring.len == s.ring.cap
    ensures var t := ScanRun(s, Flood(p, n));
      && t.drops == s.drops + n && t.reported == s.reported && t.accepted == s.accepted
      && t.ring.dropped == (s.ring.dropped + n) % 256
    decreases n
  {
    if n > 0 {
      var t := ScanStep(s, Found(p));
      ScanStepInv(s, Found(p));
      FloodIsDropped(t, p, n - 1);
      assert Flood(p, n)[1..] == Flood(p, n - 1);
    }
  }

  /** 257 results for a queue of one: 256 are dropped, and none is ever reported. */
  lemma DropsGoUncounted<P>(p: P)
    ensures var s := Scan(Ring(0, 0, 1, 0, [p]), [], [], [], 0, 0, 0);
      var t := ScanRun(s, Flood(p, 257));
      && ScanInv(s) && !ShortBursts(s, Flood(p, 257)) && t.accepted == [p]
      && t.drops == 256 && t.reported == [] && t.ring.dropped == 0
  {
    var s := Scan(Ring(0, 0, 1, 0, [p]), [], [], [], 0, 0, 0);
    var n := 256;
    var first := ScanStep(s, Found(p));
    assert Flood(p, n + 1)[1..] == Flood(p, n);
    ScanStepInv(s, Found(p));
    FloodIsDropped(first, p, n);
    DropCountsExactIff(s, Flood(p, n + 1));
  }
}
