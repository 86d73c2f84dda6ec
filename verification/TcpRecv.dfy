/** The receive side of a TCP connection, lib/pico/lwip.tcp.c: lwIP hands over chains of
    packet buffers, a thread takes any number of bytes from the front. */
module TcpRecv {
  import opened Options
  import opened Sequences
  import opened Numbers
  import opened Words

  // ----- What it means: a stream of bytes -----

  /** What lwIP knows about the owner of the connection: closed, not accepted yet, known. */
  datatype Arg = Closed | NotAccepted | Known

  datatype Err = Ok | Mem | Abort

  /** The outcome of recv_loop(): data, the empty string at the end of the stream, the error
      of the connection, a timeout, nothing yet; or it never returns. */
  datatype Outcome = Bytes_(bytes: seq<u8>) | End | Failed | TimedOut | Again | Stuck

  /** A connection: the bytes received and not delivered, whether it has a pcb, an error, its
      peer has finished; and its history: all bytes received, delivered to threads, and the
      number acknowledged through tcp_recved(). */
  datatype Conn = Conn(rest: seq<u8>, live: bool, failed: bool, rxClosed: bool,
                       received: seq<u8>, delivered: seq<u8>, acknowledged: nat)

  /** lwIP delivers data, or None for the end of the stream; a thread reads; the connection
      fails. */
  datatype Op = Recv(arg: Arg, data: Option<seq<u8>>) | Read(n: nat) | Fail

  /** What a read of `n` bytes delivers when `rest` has been received and not read. */
  function Taken(rest: seq<u8>, n: nat): seq<u8> { rest[..Min(n, |rest|)] }

  function Left(rest: seq<u8>, n: nat): seq<u8> { rest[Min(n, |rest|)..] }

  function Step(c: Conn, op: Op): Conn {
    match op
    case Recv(Known, Some(bytes)) => c.(rest := c.rest + bytes, received := c.received + bytes)
    case Recv(Known, None) => c.(rxClosed := true)
    case Recv(_, _) => c
    case Read(n) =>
      var bytes := Taken(c.rest, n);
      c.(rest := Left(c.rest, n), delivered := c.delivered + bytes,
         acknowledged := c.acknowledged + if c.live then |bytes| else 0)
    case Fail => c.(failed := true, live := false)
  }

  function Answer(c: Conn, n: nat, timeout: bool): Outcome {
    if Taken(c.rest, n) != [] then Bytes_(Taken(c.rest, n)) else if c.rxClosed then End
    else if c.failed then Failed else if timeout then TimedOut else Again
  }

  /** No byte is lost, duplicated or reordered, and as long as the connection lives exactly
      the delivered bytes are acknowledged. */
  predicate Sound(c: Conn) {
    && c.received == c.delivered + c.rest
    && c.acknowledged <= |c.delivered|
    && (c.live ==> c.acknowledged == |c.delivered|)
    && (c.live || c.failed)
  }

  /** The data a step adds to the stream, and the data it returns from it. */
  function Accepted(op: Op): seq<u8> {
    if op.Recv? && op.arg == Known && op.data.Some? then op.data.value else []
  }

  function Returned(c: Conn, op: Op): seq<u8> {
    if op.Read? then Taken(c.rest, op.n) else []
  }

  lemma StepSound(c: Conn, op: Op)
    requires Sound(c)
    ensures var r := Step(c, op);
      Sound(r) && r.received == c.received + Accepted(op) && r.delivered == c.delivered + Returned(c, op)
  {
    match op
    case Recv(Known, Some(bytes)) => Reassociate(c.delivered, c.rest, bytes);
    case Read(n) =>
      assert c.rest == Taken(c.rest, n) + Left(c.rest, n);
      Reassociate(c.delivered, Taken(c.rest, n), Left(c.rest, n));
    case _ =>
  }

  lemma Reassociate(a: seq<u8>, b: seq<u8>, c: seq<u8>)
    ensures a + b + c == a + (b + c)
  {
  }

  function Run(c: Conn, ops: seq<Op>): Conn
    decreases ops
  {
    if ops == [] then c else Run(Step(c, ops[0]), ops[1..])
  }

  /** The data that was not refused. */
  function Data(ops: seq<Op>): seq<u8>
    decreases ops
  {
    if ops == [] then [] else Accepted(ops[0]) + Data(ops[1..])
  }

  /** What the reads of a run return, one after the other. */
  function Delivered(c: Conn, ops: seq<Op>): seq<u8>
    decreases ops
  {
    if ops == [] then [] else Returned(c, ops[0]) + Delivered(Step(c, ops[0]), ops[1..])
  }

  function Fresh(): Conn { Conn([], true, false, false, [], [], 0) }

  lemma {:induction false} RunSound(c: Conn, ops: seq<Op>)
    requires Sound(c)
    ensures var r := Run(c, ops);
      Sound(r) && r.received == c.received + Data(ops) && r.delivered == c.delivered + Delivered(c, ops)
    decreases ops
  {
    if ops != [] {
      StepSound(c, ops[0]);
      RunSound(Step(c, ops[0]), ops[1..]);
      Reassociate(c.received, Accepted(ops[0]), Data(ops[1..]));
      Reassociate(c.delivered, Returned(c, ops[0]), Delivered(Step(c, ops[0]), ops[1..]));
    }
  }

  /** For every interleaving of data, refused data, the end of the stream, reads and the
      failure of the connection: what the reads returned, followed by what is left, is the
      data that was not refused; and while the connection lives, as many bytes have been
      acknowledged as were returned. */
  lemma StreamIsConserved(ops: seq<Op>)
    ensures var r := Run(Fresh(), ops);
      && Delivered(Fresh(), ops) + r.rest == Data(ops)
      && r.acknowledged <= |Delivered(Fresh(), ops)|
      && (r.live ==> r.acknowledged == |Delivered(Fresh(), ops)|)
  {
    RunSound(Fresh(), ops);
    assert [] + Data(ops) == Data(ops) && [] + Delivered(Fresh(), ops) == Delivered(Fresh(), ops);
  }

  /** The end of the stream, an error and a timeout are only reported once everything has been
      delivered. */
  lemma DataComesFirst(c: Conn, n: nat, timeout: bool)
    requires Sound(c) && n > 0 && !Answer(c, n, timeout).Bytes_?
    ensures c.delivered == c.received && Step(c, Read(n)) == c
  {
    assert |Taken(c.rest, n)| == Min(n, |c.rest|);
    assert c.delivered + [] == c.delivered;
  }

  // ----- What a read is told -----

  /** The peer has finished. */
  const FINISH: Op := Recv(Known, None)

  lemma {:induction false} RunFlags(c: Conn, ops: seq<Op>)
    ensures var r := Run(c, ops);
      && (r.rxClosed <==> c.rxClosed || FINISH in ops) && (r.failed <==> c.failed || Fail in ops)
      && (r.live <==> c.live && Fail !in ops)
    decreases ops
  {
    if ops != [] {
      RunFlags(Step(c, ops[0]), ops[1..]);
      assert ops == [ops[0]] + ops[1..];
    }
  }

  /** In every run: a read gets the next bytes of the stream, as many as it asks for or there
      are. */
  lemma ReadGetsNext(ops: seq<Op>, n: nat, timeout: bool)
    requires n > 0 && Delivered(Fresh(), ops) != Data(ops)
    ensures var from := |Delivered(Fresh(), ops)|; var to := from + n;
      && from < |Data(ops)|
      && Answer(Run(Fresh(), ops), n, timeout)
         == Bytes_(if to < |Data(ops)| then Data(ops)[from..to] else Data(ops)[from..])
  {
    StreamIsConserved(ops);
    var d, rest := Delivered(Fresh(), ops), Run(Fresh(), ops).rest;
    assert Data(ops) == d + rest;
    assert rest == [] ==> d + rest == d;
    assert Data(ops)[|d|..] == rest;
    if n < |rest| { assert Data(ops)[|d|..|d| + n] == rest[..n]; }
  }

  /** And if there are none: the end of the stream exactly if the peer has finished, else the
      error exactly if the connection has failed, else a timeout or nothing yet. */
  lemma OutcomeWithoutData(ops: seq<Op>, n: nat, timeout: bool)
    requires n > 0 && Delivered(Fresh(), ops) == Data(ops)
    ensures var a := Answer(Run(Fresh(), ops), n, timeout);
      && (a == End <==> FINISH in ops)
      && (a == Failed <==> FINISH !in ops && Fail in ops)
      && (a == TimedOut <==> FINISH !in ops && Fail !in ops && timeout)
      && (a == Again <==> FINISH !in ops && Fail !in ops && !timeout)
  {
    StreamIsConserved(ops);
    RunFlags(Fresh(), ops);
    var d, rest := Delivered(Fresh(), ops), Run(Fresh(), ops).rest;
    assert |d + rest| == |d| + |rest|;
  }

  /** The part of a run before the connection fails. */
  function UntilFail(ops: seq<Op>): seq<Op>
    decreases ops
  {
    if ops == [] || ops[0] == Fail then [] else [ops[0]] + UntilFail(ops[1..])
  }

  /** Exactly what was delivered before the connection failed is acknowledged. */
  lemma {:induction false} AcknowledgedUntilFailure(c: Conn, ops: seq<Op>)
    ensures Run(c, ops).acknowledged == c.acknowledged + if c.live then |Delivered(c, UntilFail(ops))| else 0
    decreases ops
  {
    if ops != [] {
      var op, rest := ops[0], ops[1..];
      AcknowledgedUntilFailure(Step(c, op), rest);
      if op != Fail {
        assert UntilFail(ops)[0] == op && UntilFail(ops)[1..] == UntilFail(rest);
      }
    }
  }

  // ----- Packet buffers -----

  class Pbuf {
    const payload: seq<u8>
    var next: Pbuf?

    constructor (payload: seq<u8>)
      ensures this.payload == payload && next == null
    {
      this.payload, next := payload, null;
    }
  }

  ghost predicate Chain(q: seq<Pbuf>, first: Pbuf?)
    reads q
  {
    && first == (if q == [] then null else q[0])
    && forall i {:trigger q[i].next} :: 0 <= i < |q| ==> q[i].next == if i + 1 < |q| then q[i + 1] else null
  }

  function Bytes(q: seq<Pbuf>): seq<u8> {
    if q == [] then [] else q[0].payload + Bytes(q[1..])
  }

  lemma {:induction false} BytesAppend(a: seq<Pbuf>, b: seq<Pbuf>)
    ensures Bytes(a + b) == Bytes(a) + Bytes(b)
  {
    if a == [] {
      assert a + b == b;
    } else {
      assert (a + b)[1..] == a[1..] + b;
      BytesAppend(a[1..], b);
    }
  }

  lemma ChainJoin(a: seq<Pbuf>, b: seq<Pbuf>, first: Pbuf)
    requires a != [] && b != [] && Chain(b, b[0]) && first == a[0]
    requires forall i {:trigger a[i].next} :: 0 <= i < |a| ==>
      a[i].next == if i + 1 < |a| then a[i + 1] else b[0]
    ensures Chain(a + b, first)
  {
    var q := a + b;
    forall i {:trigger q[i].next} | 0 <= i < |q|
      ensures q[i].next == if i + 1 < |q| then q[i + 1] else null
    {
      if i < |a| { assert q[i] == a[i]; } else { assert q[i] == b[i - |a|]; }
    }
  }

  /** Whether recv_loop() for `len` bytes comes to an empty buffer: it then frees nothing and
      looks at the same buffer again. */
  function Hangs(c: seq<Pbuf>, off: nat, len: nat): bool
    requires c != [] ==> off <= |c[0].payload|
  {
    c != [] && len > 0 &&
    var sz := |c[0].payload| - off;
    c[0].payload == [] || (len > sz && Hangs(c[1..], 0, len - sz))
  }

  lemma HangsLater(c: seq<Pbuf>, off: nat, len: nat, sz: nat)
    requires c != [] && 0 < sz <= len && off + sz <= |c[0].payload|
    requires sz == len || off + sz == |c[0].payload|
    ensures off + sz == |c[0].payload| ==> (Hangs(c, off, len) <==> Hangs(c[1..], 0, len - sz))
    ensures off + sz < |c[0].payload| ==> !Hangs(c, off, len) && !Hangs(c, off + sz, len - sz)
  {
  }

  /** That is so exactly when there is an empty buffer before the last byte asked for. */
  lemma {:induction false} HangsIff(c: seq<Pbuf>, off: nat, len: nat)
    requires c != [] ==> off <= |c[0].payload|
    requires len > 0
    ensures Hangs(c, off, len)
      <==> exists k :: 0 <= k < |c| && c[k].payload == [] && |Bytes(c[..k])| < off + len
  {
    if c != [] {
      var n := |c[0].payload|;
      assert c[..0] == [];
      forall k | 0 < k < |c| ensures c[k] == c[1..][k - 1] && |Bytes(c[..k])| == n + |Bytes(c[1..][..k - 1])| {
        assert c[..k][1..] == c[1..][..k - 1];
      }
      if n > 0 && len > n - off {
        HangsIff(c[1..], 0, len - (n - off));
        if k :| 0 <= k < |c| - 1 && c[1..][k].payload == [] && |Bytes(c[1..][..k])| < len - (n - off) {
          assert c[k + 1].payload == [] && |Bytes(c[..k + 1])| < off + len;
        }
      }
    }
  }

  /** A read of two bytes from a chain of one byte, nothing and another byte. */
  lemma EmptyBufferHangs(c: seq<Pbuf>)
    requires |c| == 3 && |c[0].payload| == 1 && c[1].payload == [] && |c[2].payload| == 1
    ensures Hangs(c, 0, 2) && !Hangs(c, 0, 1) && |Bytes(c)| == 2
  {
    assert c[1..][0] == c[1] && c[1..][1..] == [c[2]] && [c[2]][1..] == [];
    assert Bytes([c[2]]) == c[2].payload + [] && Bytes(c[1..]) == [] + Bytes([c[2]]);
    assert Bytes(c) == c[0].payload + Bytes(c[1..]);
  }

  // ----- The connection -----

  class Tcp {
    var recvHead: Pbuf?
    var recvTail: Pbuf?
    var recvOff: nat
    var live: bool       // pcb != NULL
    var failed: bool     // err != ERR_OK
    var rxClosed: bool
    ghost var chain: seq<Pbuf>
    ghost var received: seq<u8>
    ghost var delivered: seq<u8>
    ghost var acknowledged: nat

    ghost function Value(): Conn
      requires recvOff <= |Bytes(chain)|
      reads this
    {
      Conn(Bytes(chain)[recvOff..], live, failed, rxClosed, received, delivered, acknowledged)
    }

    ghost predicate Valid()
      reads this, chain
    {
      && Chain(chain, recvHead) && Distinct(chain)
      && recvTail == (if chain == [] then null else chain[|chain| - 1])
      && (if chain == [] then recvOff == 0 else recvOff == 0 || recvOff < |chain[0].payload|)
      && recvOff <= |Bytes(chain)|
    }

    constructor ()
      ensures Valid() && Value() == Fresh()
    {
      recvHead, recvTail, recvOff, live, failed, rxClosed := null, null, 0, true, false, false;
      chain, received, delivered, acknowledged := [], [], [], 0;
      new;
      assert Bytes(chain) == [];
    }

    /** handle_recv() at line 360; `p` starts the chain `q`, of `totLen` bytes in all. The
        receive event is set iff there is something new for a reader. */
    method HandleRecv(arg: Arg, p: Pbuf?, totLen: nat, ghost q: seq<Pbuf>) returns (err: Err, signalled: bool)
      requires Valid() && Chain(q, p) && Distinct(q) && totLen == |Bytes(q)|
      requires forall i, j :: 0 <= i < |q| && 0 <= j < |chain| ==> q[i] != chain[j]
      modifies this, chain
      ensures Valid() && chain == old(chain) + (if arg == Known && totLen > 0 then q else [])
      ensures Value() == Step(old(Value()), Recv(arg, if p == null then None else Some(Bytes(q))))
      ensures err == match arg case Closed => Abort case NotAccepted => Mem case Known => Ok
      ensures signalled <==> arg == Known && (p == null || totLen > 0)
    {
      match arg
      case Closed => return Abort, false;
      case NotAccepted => return Mem, false;
      case Known =>
        if p == null {
          rxClosed := true;
        } else if totLen == 0 {
          return Ok, false;
        } else {
          Attach(p, q);
        }
        return Ok, true;
    }

    /** Lines 375-378, on the chain `c`. */
    method Join(p: Pbuf, ghost q: seq<Pbuf>, ghost c: seq<Pbuf>)
      requires Chain(c, recvHead) && Chain(q, p) && q != [] && Distinct(c)
      requires recvTail == (if c == [] then null else c[|c| - 1])
      requires forall i, j :: 0 <= i < |q| && 0 <= j < |c| ==> q[i] != c[j]
      modifies this`recvHead, this`recvTail, c
      ensures Chain(c + q, recvHead) && recvTail == q[|q| - 1]
    {
      if recvTail != null {
        recvTail.next := p;
        ChainJoin(c, q, c[0]);
      } else {
        recvHead := p;
        assert c + q == q;
      }
      recvTail := FindLast(p, q);
    }

    method Extend(p: Pbuf, ghost q: seq<Pbuf>)
      requires Valid() && Chain(q, p) && Distinct(q) && q != []
      requires forall i, j :: 0 <= i < |q| && 0 <= j < |chain| ==> q[i] != chain[j]
      modifies this`recvHead, this`recvTail, this`chain, chain
      ensures Valid() && chain == old(chain) + q
    {
      AppendRest(chain, q, recvOff);
      Join(p, q, chain);
      chain := chain + q;
    }

    method Attach(p: Pbuf, ghost q: seq<Pbuf>)
      requires Valid() && Chain(q, p) && Distinct(q) && q != []
      requires forall i, j :: 0 <= i < |q| && 0 <= j < |chain| ==> q[i] != chain[j]
      modifies this`recvHead, this`recvTail, this`chain, this`received, chain
      ensures Valid() && chain == old(chain) + q && Value() == Step(old(Value()), Recv(Known, Some(Bytes(q))))
    {
      AppendRest(chain, q, recvOff);
      Extend(p, q);
      received := received + Bytes(q);
    }

    /** The loop of lines 398-413 from the front of the chain `c`: the bytes copied, where
        it stops, and the bytes acknowledged through tcp_recved() if there is a pcb; or it
        does not stop. */
    method CopyOut(len: nat, ghost c: seq<Pbuf>)
      returns (stuck: bool, buf: seq<u8>, h: Pbuf?, off: nat, ghost k: nat, ghost acked: nat)
      requires Chain(c, recvHead) && recvOff <= |Bytes(c)|
      requires if c == [] then recvOff == 0 else recvOff == 0 || recvOff < |c[0].payload|
      ensures stuck <==> Hangs(c, recvOff, len)
      ensures !stuck ==>
        && k <= |c| && h == (if k < |c| then c[k] else null)
        && (if k == |c| then off == 0 else off == 0 || off < |c[k].payload|)
        && off <= |Bytes(c[k..])| && Bytes(c[k..])[off..] == Left(Bytes(c)[recvOff..], len)
        && buf == Taken(Bytes(c)[recvOff..], len) && acked == |buf|
    {
      h, off, buf, k, acked, stuck := recvHead, recvOff, [], 0, 0, false;
      var left: nat := len;
      ghost var rest, tail := Bytes(c)[recvOff..], c;
      assert [] + rest == rest;
      while h != null && left > 0
        invariant k <= |c| && h == (if k < |c| then c[k] else null) && tail == c[k..]
        invariant if tail == [] then off == 0 else off == 0 || off < |tail[0].payload|
        invariant off <= |Bytes(tail)| && buf + Bytes(tail)[off..] == rest
        invariant |buf| + left == len && acked == |buf| && !stuck
        invariant Hangs(c, recvOff, len) <==> Hangs(tail, off, left)
        decreases left
      {
        var sz := |h.payload| - off;
        if left < sz { sz := left; }
        if sz == 0 {
          stuck := true;  // pbuf_free_header() of no bytes gives the same buffer
          return;
        }
        StepBytes(buf, tail, off, sz);
        HangsLater(tail, off, left, sz);
        buf := buf + h.payload[off..off + sz];
        left := left - sz;
        acked := acked + sz;
        if off + sz == |h.payload| {
          h, off, k, tail := h.next, 0, k + 1, tail[1..];
        } else {
          off := off + sz;
        }
      }
      TakenIs(rest, buf, Bytes(tail)[off..], len);
    }

    /** Lines 414-416 after `buf` was copied up to offset `off` of the k-th buffer. */
    method Consume(h: Pbuf?, off: nat, buf: seq<u8>, ghost k: nat)
      requires Valid() && k <= |chain| && h == (if k < |chain| then chain[k] else null)
      requires if k == |chain| then off == 0 else off == 0 || off < |chain[k].payload|
      requires off <= |Bytes(chain[k..])|
      modifies this`recvHead, this`recvTail, this`recvOff, this`chain, this`delivered
      ensures Valid()
      ensures Value() == old(Value()).(rest := Bytes(old(chain)[k..])[off..], delivered := old(delivered) + buf)
    {
      ChainSuffix(chain, k);
      recvHead, recvOff := h, off;
      if h == null { recvTail := null; }
      chain, delivered := chain[k..], delivered + buf;
      assert Chain(chain, recvHead);
    }

    method Deliver(h: Pbuf?, off: nat, buf: seq<u8>, ghost k: nat, ghost acked: nat, ghost len: nat)
      requires Valid() && k <= |chain| && h == (if k < |chain| then chain[k] else null)
      requires if k == |chain| then off == 0 else off == 0 || off < |chain[k].payload|
      requires off <= |Bytes(chain[k..])| && Bytes(chain[k..])[off..] == Left(Value().rest, len)
      requires buf == Taken(Value().rest, len) && acked == |buf|
      modifies this`recvHead, this`recvTail, this`recvOff, this`chain, this`delivered, this`acknowledged
      ensures Valid() && Value() == Step(old(Value()), Read(len))
    {
      Consume(h, off, buf, k);
      if live { acknowledged := acknowledged + acked; }
    }

    /** recv_loop() at line 391; TCP_recv() answers non-positive lengths itself. */
    method RecvLoop(len: nat, timeout: bool) returns (outcome: Outcome)
      requires Valid() && len > 0
      modifies this
      ensures outcome == Stuck <==> Hangs(old(chain), old(recvOff), len)
      ensures outcome != Stuck ==>
        && Valid() && Value() == Step(old(Value()), Read(len))
        && outcome == Answer(old(Value()), len, timeout)
    {
      ghost var k, acked;
      var stuck, buf, h, off;
      stuck, buf, h, off, k, acked := CopyOut(len, chain);
      if stuck { return Stuck; }
      Deliver(h, off, buf, k, acked, len);
      outcome := if buf != [] then Bytes_(buf) else if rxClosed then End
                 else if failed then Failed else if timeout then TimedOut else Again;
    }

    /** handle_err() at line 46. */
    method HandleErr()
      requires Valid()
      modifies this`failed, this`live
      ensures Valid() && Value() == Step(old(Value()), Fail)
    {
      failed, live := true, false;
    }
  }

  /** Moving `sz` bytes from the front of the chain to the buffer. */
  lemma StepBytes(buf: seq<u8>, c: seq<Pbuf>, off: nat, sz: nat)
    requires c != [] && off + sz <= |c[0].payload|
    ensures off + sz <= |Bytes(c)|
    ensures buf + Bytes(c)[off..] == buf + c[0].payload[off..off + sz] + Bytes(c)[off + sz..]
    ensures off + sz == |c[0].payload| ==> Bytes(c)[off + sz..] == Bytes(c[1..])[0..]
  {
    assert Bytes(c)[off..off + sz] == c[0].payload[off..off + sz];
    assert Bytes(c)[off..] == Bytes(c)[off..off + sz] + Bytes(c)[off + sz..];
  }

  lemma TakenIs(rest: seq<u8>, buf: seq<u8>, tail: seq<u8>, len: nat)
    requires buf + tail == rest && |buf| <= len && (tail == [] || |buf| == len)
    ensures buf == Taken(rest, len) && tail == Left(rest, len)
  {
  }

  lemma ChainSuffix(c: seq<Pbuf>, k: nat)
    requires k <= |c| && Chain(c, if c == [] then null else c[0]) && Distinct(c)
    ensures Chain(c[k..], if k < |c| then c[k] else null) && Distinct(c[k..])
  {
    var r := c[k..];
    forall j {:trigger r[j].next} | 0 <= j < |r|
      ensures r[j].next == if j + 1 < |r| then r[j + 1] else null
    {
      assert r[j] == c[j + k];
    }
  }

  lemma AppendRest(c: seq<Pbuf>, q: seq<Pbuf>, off: nat)
    requires off <= |Bytes(c)|
    ensures off <= |Bytes(c + q)| && Bytes(c + q)[off..] == Bytes(c)[off..] + Bytes(q)
  {
    BytesAppend(c, q);
  }

  method FindLast(p: Pbuf, ghost q: seq<Pbuf>) returns (last: Pbuf)
    requires Chain(q, p) && q != []
    ensures last == q[|q| - 1]
  {
    last := p;
    ghost var i := 0;
    while last.next != null
      invariant i < |q| && last == q[i]
      decreases |q| - i
    {
      last, i := last.next, i + 1;
    }
  }
}
