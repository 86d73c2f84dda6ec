/** SPI transfers, lib/pico/hardware.spi.c: a loop that polls the hardware, and one that
    suspends the thread whenever there is nothing to do. */
module Spi {
  import opened Options
  import opened Pieces
  import opened MachineWords = Words

  const WR_FIFO_DEPTH := 8

  // ----- What a transfer is -----

  /** `src` holds the bytes to send; without it the word `value` is sent every time. */
  datatype Request = Request(src: Option<seq<u8>>, value: u16, len: nat, read: bool, b16: bool)

  predicate Fits(r: Request) {
    r.src.Some? ==> |r.src.value| == if r.b16 then 2 * r.len else r.len
  }

  /** A 16-bit word travels low byte first. */
  function Pair(low: u8, high: u8): u16 {
    var h: int := high;
    low + 256 * h
  }

  /** The k-th word to send. */
  function Word(r: Request, k: nat): u16
    requires Fits(r) && k < r.len
  {
    match r.src
    case None => r.value
    case Some(s) => if r.b16 then Pair(s[2 * k], s[2 * k + 1]) else s[k]
  }

  function Words(r: Request, n: nat): seq<u16>
    requires Fits(r) && n <= r.len
  {
    seq(n, k requires 0 <= k < n => Word(r, k))
  }

  function WordBytes(w: u16, b16: bool): seq<u8> {
    if b16 then [w % 256, w / 256] else [w % 256]
  }

  function Bytes(words: seq<u16>, b16: bool): seq<u8> {
    if words == [] then []
    else Bytes(words[..|words| - 1], b16) + WordBytes(words[|words| - 1], b16)
  }

  lemma BytesNext(words: seq<u16>, n: nat, b16: bool)
    requires n < |words|
    ensures Bytes(words[..n + 1], b16) == Bytes(words[..n], b16) + WordBytes(words[n], b16)
  {
    assert words[..n + 1][..n] == words[..n];
  }

  lemma WordsNext(r: Request, n: nat)
    requires Fits(r) && n < r.len
    ensures Words(r, n + 1) == Words(r, n) + [Word(r, n)]
  {
  }

  /** The byte at the lower address is the low one, of the words sent ... */
  lemma LowByteFirst(r: Request, k: nat)
    requires Fits(r) && k < r.len
    ensures r.src.Some? && r.b16 ==>
      Words(r, r.len)[k] % 256 == r.src.value[2 * k] && Words(r, r.len)[k] / 256 == r.src.value[2 * k + 1]
    ensures r.src.Some? && !r.b16 ==> Words(r, r.len)[k] == r.src.value[k]
    ensures r.src == None ==> Words(r, r.len)[k] == r.value
  {
  }

  /** ... and of the words received. */
  lemma {:induction false} BytesLaidOut(words: seq<u16>, b16: bool, k: nat)
    requires k < |words|
    ensures |Bytes(words, b16)| == if b16 then 2 * |words| else |words|
    ensures if b16 then Bytes(words, b16)[2 * k] == words[k] % 256 && Bytes(words, b16)[2 * k + 1] == words[k] / 256
            else Bytes(words, b16)[k] == words[k] % 256
  {
    var n := |words| - 1;
    if n == 0 {
      assert words[..n] == [] && Bytes(words[..n], b16) == [];
    } else {
      BytesLaidOut(words[..n], b16, if k < n then k else 0);
    }
  }

  /** How many bytes so many words take. */
  function Laid(r: Request, words: nat): nat { if r.b16 then 2 * words else words }

  lemma WordIsSource(r: Request, k: nat, from: nat)
    requires Fits(r) && r.src.Some? && k < r.len && from == Laid(r, k)
    ensures from + Laid(r, 1) <= |r.src.value|
    ensures WordBytes(Word(r, k), r.b16) == r.src.value[from..from + Laid(r, 1)]
  {
  }

  lemma TakeMore(s: seq<u8>, from: nat, to: nat)
    requires from <= to <= |s|
    ensures s[..to] == s[..from] + s[from..to]
  {
  }

  /** The words of a transfer are the bytes of its source. */
  lemma {:induction false} WordsAreSource(r: Request, n: nat)
    requires Fits(r) && r.src.Some? && n <= r.len
    ensures Laid(r, n) <= |r.src.value| && Bytes(Words(r, n), r.b16) == r.src.value[..Laid(r, n)]
    ensures n == r.len ==> Bytes(Words(r, n), r.b16) == r.src.value
    decreases n
  {
    if n > 0 {
      var from := Laid(r, n - 1);
      WordsAreSource(r, n - 1);
      WordsNext(r, n - 1);
      assert Words(r, n)[..n - 1] == Words(r, n - 1);
      WordIsSource(r, n - 1, from);
      TakeMore(r.src.value, from, from + Laid(r, 1));
    }
  }

  // ----- The hardware -----

  /** The port exchanges words at its own pace: after a word is sent some word arrives,
      sooner or later. `patience` bounds how long it can take, and is unknown. A word that
      arrives while the receive FIFO is full is lost. */
  class Port {
    var sent: seq<u16>
    var arrived: seq<u16>
    var taken: nat
    var lost: bool
    var patience: nat

    predicate Valid()
      reads this
    {
      taken <= |arrived| <= |sent|
    }

    constructor ()
      ensures Valid() && sent == [] && taken == 0 && !lost
    {
      sent, arrived, taken, lost := [], [], 0, false;
      patience := *;
    }

    /** Any number of exchanges may complete between two accesses. */
    method Tick()
      requires Valid()
      modifies this`arrived, this`lost
      ensures Valid() && old(arrived) <= arrived && arrived[..taken] == old(arrived[..taken])
      ensures |sent| - taken <= WR_FIFO_DEPTH ==> lost == old(lost)
    {
      var more: bool := *;
      while more && |arrived| < |sent|
        invariant Valid() && old(arrived) <= arrived
        invariant |sent| - taken <= WR_FIFO_DEPTH ==> lost == old(lost)
        decreases |sent| - |arrived|
      {
        if |arrived| - taken >= WR_FIFO_DEPTH { lost := true; }
        var w: u16 := *;
        arrived := arrived + [w];
        more := *;
      }
    }

    /** spi_is_writable() */
    method IsWritable() returns (b: bool)
      requires Valid()
      modifies this`arrived, this`lost, this`patience
      ensures Valid() && old(arrived) <= arrived && arrived[..taken] == old(arrived[..taken])
      ensures |sent| - taken <= WR_FIFO_DEPTH ==> lost == old(lost)
      ensures if b then patience == old(patience) else patience < old(patience)
    {
      Tick();
      b := *;
      if !b {
        if patience == 0 { b := true; } else { patience := patience - 1; }
      }
    }

    /** spi_is_readable() */
    method IsReadable() returns (b: bool)
      requires Valid()
      modifies this`arrived, this`lost, this`patience
      ensures Valid() && old(arrived) <= arrived && arrived[..taken] == old(arrived[..taken])
      ensures |sent| - taken <= WR_FIFO_DEPTH ==> lost == old(lost)
      ensures b <==> taken < |arrived|
      ensures patience <= old(patience) && (!b && taken < |sent| ==> patience < old(patience))
    {
      Tick();
      if taken == |arrived| && |arrived| < |sent| {
        if patience == 0 {
          var w: u16 := *;
          arrived := arrived + [w];
        } else {
          patience := patience - 1;
        }
      }
      b := taken < |arrived|;
    }

    /** Writing the data register. */
    method Write(w: u16)
      requires Valid()
      modifies this`sent, this`patience
      ensures Valid() && sent == old(sent) + [w]
    {
      sent := sent + [w];
      patience := *;
    }

    /** Reading the data register. */
    method Read() returns (w: u16)
      requires Valid() && taken < |arrived|
      modifies this`taken, this`patience
      ensures Valid() && taken == old(taken) + 1 && w == arrived[old(taken)]
    {
      w := arrived[taken];
      taken := taken + 1;
      patience := *;
    }
  }

  /** After `len - tx` words were sent and `len - rx` were received. The receive FIFO never
      holds more than it can, so nothing is lost. */
  ghost predicate Progress(p: Port, r: Request, tx: nat, rx: nat)
    reads p
  {
    && p.Valid() && Fits(r) && tx <= rx <= r.len
    && p.sent == Words(r, r.len - tx)
    && p.taken == r.len - rx
    && rx - tx <= WR_FIFO_DEPTH && !p.lost
  }

  /** The transfer is complete: the words of the request were sent in order and as many
      words were received, in order, none lost. */
  ghost predicate Complete(p: Port, r: Request)
    reads p
  {
    Fits(r) && p.sent == Words(r, r.len) && p.taken == |p.arrived| == r.len && !p.lost
  }

  lemma ProgressCompletes(p: Port, r: Request)
    requires Progress(p, r, 0, 0)
    ensures Complete(p, r)
  {
  }

  /** Where the source pointer stands when `tx` words are still to be sent. */
  function Offset(r: Request, tx: nat): nat
    requires tx <= r.len
  {
    if r.b16 then 2 * (r.len - tx) else r.len - tx
  }

  /** The bytes received so far. */
  ghost function Got(p: Port, r: Request): seq<u8>
    requires p.Valid()
    reads p
  {
    Bytes(p.arrived[..p.taken], r.b16)
  }

  /** What a finished transfer gives back; `empty` is what it gives when asked for nothing. */
  ghost function Outcome(p: Port, r: Request, empty: Option<seq<u8>>): Option<seq<u8>>
    reads p
  {
    if !r.read then None else if r.len == 0 then empty else Some(Bytes(p.arrived, r.b16))
  }

  /** Sending the next word, from the bytes at the source pointer. */
  method Feed(p: Port, r: Request, tx: nat, rx: nat, src: nat) returns (next: nat)
    requires Progress(p, r, tx, rx) && tx > 0 && rx < tx + WR_FIFO_DEPTH && src == Offset(r, tx)
    modifies p`sent, p`patience
    ensures Progress(p, r, tx - 1, rx) && next == Offset(r, tx - 1)
  {
    WordsNext(r, r.len - tx);
    var data := r.value;
    next := src + (if r.b16 then 2 else 1);
    if r.src.Some? {
      var s := r.src.value;
      data := if r.b16 then Pair(s[src], s[src + 1]) else s[src];
    }
    p.Write(data);
  }

  /** The initial size of a Lua buffer on this platform, from platform_luaconf.h, and the room
      it has when it was asked for `n` bytes: it grows by half at least. */
  const LUAL_BUFFERSIZE: nat := 32

  function Capacity(n: nat): (c: nat)
    ensures n <= c && LUAL_BUFFERSIZE <= c
  {
    if n <= LUAL_BUFFERSIZE then LUAL_BUFFERSIZE
    else if n < LUAL_BUFFERSIZE + LUAL_BUFFERSIZE / 2 then LUAL_BUFFERSIZE + LUAL_BUFFERSIZE / 2
    else n
  }

  /** Taking a word and laying out its bytes. */
  method Drain(p: Port, r: Request, tx: nat, rx: nat) returns (bytes: seq<u8>)
    requires Progress(p, r, tx, rx) && rx > 0 && p.taken < |p.arrived|
    modifies p`taken, p`patience
    ensures rx > tx && Progress(p, r, tx, rx - 1)
    ensures Got(p, r) == old(Got(p, r)) + bytes && |bytes| == Laid(r, 1)
  {
    BytesNext(p.arrived, p.taken, r.b16);
    var data := p.Read();
    bytes := WordBytes(data, r.b16);
  }

  // ----- The polling loop -----

  /** Lines 117-124: sending a word if the port takes one. */
  method FeedOne(p: Port, r: Request, tx: nat, rx: nat, src: nat) returns (left: nat, next: nat)
    requires Progress(p, r, tx, rx) && src == Offset(r, tx)
    modifies p`sent, p`arrived, p`lost, p`patience
    ensures left <= tx && Progress(p, r, left, rx) && next == Offset(r, left)
    ensures Got(p, r) == old(Got(p, r))
    ensures left == tx ==>
      p.patience <= old(p.patience) && (tx > 0 && rx < tx + WR_FIFO_DEPTH ==> p.patience < old(p.patience))
  {
    left, next := tx, src;
    if tx > 0 && rx < tx + WR_FIFO_DEPTH {
      var writable := p.IsWritable();
      if writable {
        next := Feed(p, r, tx, rx, src);
        left := tx - 1;
      }
    }
  }

  /** Lines 127-134: taking a word if there is one. */
  method DrainOne(p: Port, r: Request, tx: nat, rx: nat) returns (left: nat, bytes: seq<u8>)
    requires Progress(p, r, tx, rx)
    modifies p`taken, p`arrived, p`lost, p`patience
    ensures left <= rx && Progress(p, r, tx, left)
    ensures Got(p, r) == old(Got(p, r)) + bytes && |bytes| == Laid(r, rx - left)
    ensures left == rx ==> p.patience <= old(p.patience) && (rx > tx ==> p.patience < old(p.patience))
  {
    left, bytes := rx, [];
    if rx > 0 {
      var readable := p.IsReadable();
      if readable {
        bytes := Drain(p, r, tx, rx);
        left := rx - 1;
      }
    }
  }

  /** write_read_blocking() at line 103. Its buffer has room for all bytes. */
  method WriteReadBlocking(p: Port, r: Request) returns (result: Option<seq<u8>>)
    requires Progress(p, r, r.len, r.len)
    modifies p
    ensures Complete(p, r) && result == Outcome(p, r, Some([]))
    ensures if r.read then result == Some(Bytes(p.arrived, r.b16)) else result == None
    ensures result.Some? ==> |result.value| == Laid(r, r.len) <= Capacity(Laid(r, r.len))
  {
    var tx: nat, rx: nat, src: nat := r.len, r.len, 0;
    var dst: seq<u8> := [];
    while tx > 0 || rx > 0
      invariant Progress(p, r, tx, rx) && src == Offset(r, tx)
      invariant r.read ==> dst == Got(p, r) && |dst| + Laid(r, rx) == Laid(r, r.len)
      decreases tx + rx, p.patience
    {
      tx, src := FeedOne(p, r, tx, rx, src);
      var bytes;
      rx, bytes := DrainOne(p, r, tx, rx);
      if r.read { dst := dst + bytes; }
    }
    ProgressCompletes(p, r);
    assert p.arrived[..p.taken] == p.arrived;
    result := if r.read then Some(dst) else None;
  }

  // ----- The suspending loop -----

  /** The interrupts that may end the wait. */
  datatype Mask = Mask(tx: bool, rx: bool)

  /** Lines 168-176: the inner loop that feeds the port. */
  method FeedAll(p: Port, r: Request, tx: nat, rx: nat, src: nat) returns (left: nat, next: nat)
    requires Progress(p, r, tx, rx) && src == Offset(r, tx)
    modifies p`sent, p`arrived, p`lost, p`patience
    ensures left <= tx && Progress(p, r, left, rx) && next == Offset(r, left)
    ensures Got(p, r) == old(Got(p, r))
    ensures left == tx ==> p.patience <= old(p.patience)
    ensures left == tx && tx > 0 && rx < tx + WR_FIFO_DEPTH ==> p.patience < old(p.patience)
  {
    left, next := tx, src;
    var writable := false;
    if left > 0 && rx < left + WR_FIFO_DEPTH { writable := p.IsWritable(); }
    while writable
      invariant left <= tx && Progress(p, r, left, rx) && next == Offset(r, left)
      invariant writable ==> left > 0 && rx < left + WR_FIFO_DEPTH
      invariant Got(p, r) == old(Got(p, r))
      invariant left == tx ==> p.patience <= old(p.patience)
      invariant left == tx && tx > 0 && rx < tx + WR_FIFO_DEPTH ==> writable || p.patience < old(p.patience)
      decreases left, writable
    {
      next := Feed(p, r, left, rx, next);
      left := left - 1;
      writable := false;
      if left > 0 && rx < left + WR_FIFO_DEPTH { writable := p.IsWritable(); }
    }
  }

  /** Lines 179-191: the inner loop that drains it, into a buffer with room for `cap` bytes.
      The bytes fit, or the loop comes to write past the end of the buffer. */
  method DrainAll(p: Port, r: Request, tx: nat, rx: nat, ghost got: seq<u8>, buf: seq<u8>, cap: nat)
    returns (left: nat, filled: seq<u8>, overrun: bool)
    requires Progress(p, r, tx, rx)
    requires r.read ==> Got(p, r) == got + buf && |buf| <= cap
    requires !r.read ==> buf == []
    modifies p`taken, p`arrived, p`lost, p`patience
    ensures overrun ==> r.read && cap < |buf| + Laid(r, rx)
    ensures !overrun ==>
      && left <= rx && Progress(p, r, tx, left)
      && (if r.read then Got(p, r) == got + filled else filled == [])
      && (r.read ==> |filled| <= cap && |filled| + Laid(r, left) == |buf| + Laid(r, rx))
      && (left == rx ==> p.patience <= old(p.patience))
      && (left == rx > tx ==> p.patience < old(p.patience))
  {
    left, filled, overrun := rx, buf, false;
    var readable := false;
    if left > 0 { readable := p.IsReadable(); }
    while readable
      invariant left <= rx && Progress(p, r, tx, left) && !overrun
      invariant readable ==> left > 0 && p.taken < |p.arrived|
      invariant if r.read then Got(p, r) == got + filled else filled == []
      invariant r.read ==> |filled| <= cap && |filled| + Laid(r, left) == |buf| + Laid(r, rx)
      invariant left == rx ==> p.patience <= old(p.patience)
      invariant left == rx > tx ==> readable || p.patience < old(p.patience)
      decreases left, readable
    {
      var bytes := Drain(p, r, tx, left);
      if r.read {
        if |filled| + |bytes| > cap {
          overrun := true;
          return;
        }
        filled := filled + bytes;
      }
      left := left - 1;
      readable := false;
      if left > 0 { readable := p.IsReadable(); }
    }
  }

  /** A round of the loop: feed, then drain. A round that does nothing has used up patience. */
  method Round(p: Port, r: Request, tx: nat, rx: nat, src: nat, ghost got: seq<u8>, buf: seq<u8>, cap: nat)
    returns (t: nat, x: nat, next: nat, filled: seq<u8>, overrun: bool)
    requires Progress(p, r, tx, rx) && src == Offset(r, tx)
    requires if r.read then Got(p, r) == got + buf && |buf| <= cap else buf == []
    modifies p
    ensures overrun ==> r.read && cap < |buf| + Laid(r, rx)
    ensures !overrun ==>
      && t <= tx && x <= rx && Progress(p, r, t, x) && next == Offset(r, t)
      && (if r.read then Got(p, r) == got + filled else filled == [])
      && (r.read ==> |filled| <= cap && |filled| + Laid(r, x) == |buf| + Laid(r, rx))
      && (t == tx && x == rx > 0 ==> p.patience < old(p.patience))
  {
    t, next := FeedAll(p, r, tx, rx, src);
    x, filled, overrun := DrainAll(p, r, t, rx, got, buf, cap);
  }

  /** How a turn of the suspending loop ends. */
  datatype Turn = Finished(result: Option<seq<u8>>) | Suspended(mask: Mask) | Overrun

  /** What a caller can check: a turn cannot fill more than the buffer has room for. */
  predicate BufferIsEnough(r: Request) {
    !r.read || !r.b16 || 2 * r.len <= LUAL_BUFFERSIZE
  }

  /** What write_read_loop() keeps on the Lua stack while its thread is suspended. */
  class Transfer {
    var tx: nat
    var rx: nat
    var pieces: seq<seq<u8>>

    /** The transfer can go on from what was kept. */
    ghost predicate Ready(p: Port, r: Request)
      reads this, p
    {
      && Progress(p, r, tx, rx)
      && (r.len > 0 ==> rx > 0)
      && (if r.read then Concat(pieces) == Got(p, r) else pieces == [])
    }

    constructor (p: Port, r: Request)
      requires Progress(p, r, r.len, r.len)
      ensures Ready(p, r)
    {
      tx, rx, pieces := r.len, r.len, [];
    }

    /** Keeping the bytes of this turn. */
    method Keep(buf: seq<u8>)
      modifies this`pieces
      ensures Concat(pieces) == old(Concat(pieces)) + buf
      ensures buf == [] ==> pieces == old(pieces)
      ensures old(|pieces|) <= LUA_MINSTACK - 7 ==> |pieces| <= LUA_MINSTACK - 7
    {
      if |buf| > 0 {
        ConcatPush(pieces, buf);
        pieces := pieces + [buf];
        if 5 + |pieces| >= LUA_MINSTACK - 1 {
          ConcatPush([], Concat(pieces));
          pieces := [Concat(pieces)];
        }
      }
    }

    /** Lines 199-208. */
    method Store(p: Port, r: Request, t: nat, x: nat, buf: seq<u8>)
      requires Progress(p, r, t, x) && x > 0
      requires if r.read then Got(p, r) == Concat(pieces) + buf else buf == [] && pieces == []
      modifies this
      ensures Ready(p, r) && tx == t && rx == x
    {
      if r.read { Keep(buf); }
      tx, rx := t, x;
    }

    /** Lines 212-215. */
    method Finish(p: Port, r: Request, dst: bool, buf: seq<u8>) returns (result: Option<seq<u8>>)
      requires Progress(p, r, 0, 0) && dst == (r.read && r.len > 0)
      requires r.read ==> Got(p, r) == Concat(pieces) + buf
      ensures Complete(p, r) && result == Outcome(p, r, None)
    {
      ProgressCompletes(p, r);
      assert p.arrived[..p.taken] == p.arrived;
      ConcatPush(pieces, buf);
      var all := pieces + [buf];
      result := if dst then Some(Concat(all)) else None;
    }

    /** write_read_loop() at line 141. A turn ends with the whole transfer done, or with
        nothing left to do for now: then some enabled interrupt is bound to come. The buffer
        for the bytes of the turn is sized by the number of words that are left. */
    method WriteReadLoop(p: Port, r: Request) returns (turn: Turn)
      requires Ready(p, r)
      modifies this, p
      ensures match turn
        case Finished(result) => Complete(p, r) && result == Outcome(p, r, None)
        case Suspended(mask) =>
          && Ready(p, r) && mask == Mask(tx > 0 && rx < tx + WR_FIFO_DEPTH, true)
          && (tx + rx < old(tx + rx) || (tx + rx == old(tx + rx) && p.patience < old(p.patience)))
          && (mask.tx || p.taken < |p.sent|)
        case Overrun => !BufferIsEnough(r) && 2 * old(rx) > LUAL_BUFFERSIZE
    {
      var t: nat, x: nat := tx, rx;
      var size := if r.src.Some? then |r.src.value| else if r.b16 then 2 * r.len else r.len;
      var src := size - t;
      if r.b16 { src := src - t; }
      var dst := r.read && x > 0;
      var buf: seq<u8> := [];
      var cap := if dst then Capacity(x) else 0;
      ghost var got := Concat(pieces);
      while true
        invariant Progress(p, r, t, x) && src == Offset(r, t)
        invariant pieces == old(pieces) && tx == old(tx) && rx == old(rx)
        invariant if r.read then Got(p, r) == got + buf else buf == []
        invariant r.read ==> |buf| <= cap && |buf| + Laid(r, x) == Laid(r, rx)
        invariant dst == (r.read && r.len > 0)
        invariant r.len > 0 ==> x > 0
        invariant t + x <= tx + rx
        invariant t + x == tx + rx ==> p.patience <= old(p.patience)
        decreases t + x
      {
        var t', x', next, filled, overrun := Round(p, r, t, x, src, got, buf, cap);
        if overrun { return Overrun; }
        var suspend := t' == t && x' == x;
        t, src, x, buf := t', next, x', filled;
        if t == 0 && x == 0 { break; }
        if suspend {
          Store(p, r, t, x, buf);
          return Suspended(Mask(t > 0 && x < t + WR_FIFO_DEPTH, x > 0));
        }
      }
      var result := Finish(p, r, dst, buf);
      return Finished(result);
    }
  }

  /** The suspending form: a turn of the loop each time an interrupt wakes the thread. Under
      every schedule it ends with the same transfer as the polling form, unless a turn can
      overrun its buffer. */
  method WriteRead(p: Port, r: Request) returns (result: Option<seq<u8>>, overrun: bool)
    requires Progress(p, r, r.len, r.len)
    modifies p
    ensures !overrun ==> Complete(p, r) && result == Outcome(p, r, None)
    ensures !overrun ==> if r.read && r.len > 0 then result == Some(Bytes(p.arrived, r.b16)) else result == None
    ensures BufferIsEnough(r) ==> !overrun
  {
    var transfer := new Transfer(p, r);
    var turn := Suspended(Mask(true, true));
    while turn.Suspended?
      invariant fresh(transfer)
      invariant match turn
        case Finished(result) => Complete(p, r) && result == Outcome(p, r, None)
        case Suspended(_) => transfer.Ready(p, r)
        case Overrun => !BufferIsEnough(r)
      decreases turn.Suspended?, transfer.tx + transfer.rx, p.patience
    {
      turn := transfer.WriteReadLoop(p, r);
    }
    result := if turn.Finished? then turn.result else None;
    overrun := turn.Overrun?;
  }

  // ----- When the buffer of a turn is overrun -----

  /** The transfer without its data: what is left to send and to receive, how many received
      words can be read, and the bytes in the buffer of this turn and its capacity. */
  datatype Load = Load(tx: nat, rx: nat, ready: nat, fill: nat, cap: nat)

  datatype Move = Send | Arrive | Take | Resume

  predicate Can(s: Load, move: Move) {
    match move
    case Send => s.tx > 0 && s.rx < s.tx + WR_FIFO_DEPTH
    case Arrive => s.tx + s.ready < s.rx
    case Take => s.rx > 0 && s.ready > 0
    case Resume => s.rx > 0
  }

  function Next(r: Request, s: Load, move: Move): Load
    requires Can(s, move)
  {
    match move
    case Send => s.(tx := s.tx - 1)
    case Arrive => s.(ready := s.ready + 1)
    case Take =>
      s.(rx := s.rx - 1, ready := s.ready - 1, fill := s.fill + if r.read then Laid(r, 1) else 0)
    case Resume => s.(fill := 0, cap := Capacity(s.rx))
  }

  predicate Schedule(r: Request, s: Load, moves: seq<Move>)
    decreases moves
  {
    moves == [] || (Can(s, moves[0]) && Schedule(r, Next(r, s, moves[0]), moves[1..]))
  }

  function After(r: Request, s: Load, moves: seq<Move>): Load
    requires Schedule(r, s, moves)
    decreases moves
  {
    if moves == [] then s else After(r, Next(r, s, moves[0]), moves[1..])
  }

  function Start(r: Request): Load { Load(r.len, r.len, 0, 0, Capacity(r.len)) }

  lemma {:induction false} StaysWithin(r: Request, s: Load, moves: seq<Move>)
    requires Schedule(r, s, moves) && BufferIsEnough(r) && s.rx <= r.len
    requires r.read ==> s.fill + Laid(r, s.rx) <= s.cap
    requires !r.read ==> s.fill == 0
    ensures After(r, s, moves).fill <= After(r, s, moves).cap
    decreases moves
  {
    if moves != [] { StaysWithin(r, Next(r, s, moves[0]), moves[1..]); }
  }

  /** A schedule in which every word is received as soon as it was sent. */
  function Prompt(n: nat): seq<Move> {
    if n == 0 then [] else [Send, Arrive, Take] + Prompt(n - 1)
  }

  lemma {:induction false} PromptFills(r: Request, s: Load)
    requires r.read && s.tx == s.rx && s.ready == 0
    ensures Schedule(r, s, Prompt(s.rx))
    ensures After(r, s, Prompt(s.rx)) == Load(0, 0, 0, s.fill + Laid(r, s.rx), s.cap)
    decreases s.rx
  {
    if s.rx > 0 {
      var moves, rest := Prompt(s.rx), Prompt(s.rx - 1);
      var a := Next(r, s, Send);
      var b := Next(r, a, Arrive);
      var c := Next(r, b, Take);
      assert moves[1..] == [Arrive, Take] + rest && moves[1..][1..] == [Take] + rest && moves[1..][1..][1..] == rest;
      PromptFills(r, c);
      assert Schedule(r, b, [Take] + rest) && After(r, b, [Take] + rest) == After(r, c, rest);
      assert Schedule(r, a, moves[1..]) && After(r, a, moves[1..]) == After(r, b, [Take] + rest);
    }
  }

  /** No schedule overruns the buffer of a turn exactly when 16-bit reads are short enough: two
      bytes for each word of the transfer must fit the initial buffer. */
  lemma NoOverrunIff(r: Request)
    ensures (forall moves | Schedule(r, Start(r), moves) ::
               After(r, Start(r), moves).fill <= After(r, Start(r), moves).cap)
      <==> BufferIsEnough(r)
  {
    if BufferIsEnough(r) {
      forall moves | Schedule(r, Start(r), moves)
        ensures After(r, Start(r), moves).fill <= After(r, Start(r), moves).cap
      {
        StaysWithin(r, Start(r), moves);
      }
    } else {
      PromptFills(r, Start(r));
      assert After(r, Start(r), Prompt(r.len)).fill > After(r, Start(r), Prompt(r.len)).cap;
    }
  }

  /** A 16-bit read of 17 words, all received in one turn. */
  lemma SeventeenWordsOverrun()
    ensures var r := Request(None, 0xf123, 17, true, true);
      && Schedule(r, Start(r), Prompt(17))
      && After(r, Start(r), Prompt(17)).fill == 34 && After(r, Start(r), Prompt(17)).cap == 32
  {
    var r := Request(None, 0xf123, 17, true, true);
    PromptFills(r, Start(r));
  }
}
