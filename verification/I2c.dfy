/** I2C transfers that suspend their thread, lib/pico/hardware.i2c.c. */
module I2c {
  import opened Options
  import opened Numbers
  import opened Pieces
  import opened Words

  // ----- What goes over the bus -----

  datatype Op = Put(data: u8) | Get

  /** A word written to the data command register. */
  datatype Command = Command(restart: bool, stop: bool, op: Op)

  datatype Job = Job(ops: seq<Op>, nostop: bool)

  function WriteJob(src: seq<u8>, nostop: bool): (job: Job)
    ensures |job.ops| == |src|
  {
    Job(seq(|src|, k requires 0 <= k < |src| => Put(src[k])), nostop)
  }

  function ReadJob(len: nat, nostop: bool): (job: Job)
    ensures |job.ops| == len
  {
    Job(seq(len, k => Get), nostop)
  }

  /** The first `n` commands of a job. RESTART belongs on the first one only, STOP on the
      last one only. */
  function Commands(job: Job, restart: bool, n: nat): (c: seq<Command>)
    requires n <= |job.ops|
    ensures |c| == n
  {
    seq(n, k requires 0 <= k < n =>
      Command(k == 0 && restart, k == |job.ops| - 1 && !job.nostop, job.ops[k]))
  }

  lemma CommandsNext(job: Job, restart: bool, n: nat)
    requires n < |job.ops|
    ensures Commands(job, restart, n + 1) == Commands(job, restart, n)
              + [Command(n == 0 && restart, n == |job.ops| - 1 && !job.nostop, job.ops[n])]
  {
  }

  /** The k-th command of a write carries the k-th byte, that of a read asks for one. */
  lemma WriteCommands(src: seq<u8>, nostop: bool, restart: bool, n: nat, k: nat)
    requires k < n <= |src|
    ensures Commands(WriteJob(src, nostop), restart, n)[k]
      == Command(k == 0 && restart, k == |src| - 1 && !nostop, Put(src[k]))
  {
  }

  lemma ReadCommands(len: nat, nostop: bool, restart: bool, n: nat, k: nat)
    requires k < n <= len
    ensures Commands(ReadJob(len, nostop), restart, n)[k]
      == Command(k == 0 && restart, k == len - 1 && !nostop, Get)
  {
  }

  /** A transfer on the bus: `n` commands of its job were issued. It was aborted or not, and
      it finished, noticing the abort if there was one, or ran out of time. */
  datatype Transfer = Transfer(job: Job, n: nat, aborted: bool, finished: bool)

  predicate Possible(t: Transfer) {
    t.n <= |t.job.ops| && (t.finished && !t.aborted ==> t.n == |t.job.ops|)
  }

  predicate AllPossible(ts: seq<Transfer>) {
    forall i :: 0 <= i < |ts| ==> Possible(ts[i])
  }

  /** A transfer that went as it should. */
  function Completed(job: Job): (t: Transfer)
    ensures Possible(t)
  {
    Transfer(job, |job.ops|, false, true)
  }

  /** Its commands; on an abort the controller sends STOP after the last one. */
  function Issued(t: Transfer, restart: bool): (c: seq<Command>)
    requires Possible(t)
    ensures |c| == t.n
  {
    var c := Commands(t.job, restart, t.n);
    if t.aborted && t.n > 0 then c[t.n - 1 := c[t.n - 1].(stop := true)] else c
  }

  /** Whether no STOP came after its last command, and what it leaves in `restart_on_next`. */
  predicate LeavesOpen(t: Transfer) {
    !t.aborted && (t.n == |t.job.ops| ==> t.job.nostop)
  }

  function Flag(t: Transfer, restart: bool): bool {
    if t.finished then t.job.nostop else restart
  }

  /** The commands of a series of transfers. */
  function Log(ts: seq<Transfer>, restart: bool): seq<Command>
    requires AllPossible(ts)
  {
    if ts == [] then [] else Issued(ts[0], restart) + Log(ts[1..], Flag(ts[0], restart))
  }

  /** Whether the i-th command of the log is the first one of a transfer. */
  predicate Begins(ts: seq<Transfer>, i: nat) {
    ts != [] && (i == 0 || (i >= ts[0].n && Begins(ts[1..], i - ts[0].n)))
  }

  /** Around the i-th command the transfers can be told apart on the bus: it begins one iff the
      command before it has STOP or it has RESTART itself, and never both. */
  predicate FramedAt(ts: seq<Transfer>, restart: bool, i: nat)
    requires AllPossible(ts)
    requires 0 < i < |Log(ts, restart)|
  {
    var log := Log(ts, restart);
    && (Begins(ts, i) <==> log[i - 1].stop || log[i].restart)
    && !(log[i - 1].stop && log[i].restart)
  }

  predicate Framed(ts: seq<Transfer>, restart: bool)
    requires AllPossible(ts)
  {
    forall i :: 0 < i < |Log(ts, restart)| ==> FramedAt(ts, restart, i)
  }

  /** What callers can check: when a transfer issues its first command, `restart_on_next` says
      whether the last one before it that issued any left the bus open. */
  predicate FlagsAgree(ts: seq<Transfer>, open: Option<bool>, restart: bool) {
    ts == [] ||
    var flag := Flag(ts[0], restart);
    if ts[0].n == 0 then FlagsAgree(ts[1..], open, flag)
    else (open == None || open.value == restart) && FlagsAgree(ts[1..], Some(LeavesOpen(ts[0])), flag)
  }

  lemma IssuedFlags(t: Transfer, restart: bool)
    requires Possible(t) && t.n > 0
    ensures var c := Issued(t, restart);
      && c[0].restart == restart && c[t.n - 1].stop == !LeavesOpen(t)
      && (forall i :: 0 < i < t.n ==> !c[i].restart) && (forall i :: 0 <= i < t.n - 1 ==> !c[i].stop)
  {
  }

  lemma LogSplits(ts: seq<Transfer>, restart: bool, i: nat)
    requires AllPossible(ts) && ts != [] && 0 < i < |Log(ts, restart)|
    ensures var log, first, n := Log(ts, restart), Issued(ts[0], restart), ts[0].n;
      var rest := Log(ts[1..], Flag(ts[0], restart));
      && |log| == n + |rest|
      && (i < n ==> log[i] == first[i] && log[i - 1] == first[i - 1])
      && (i == n ==> log[i] == rest[0] && log[i - 1] == first[n - 1])
      && (i > n ==> log[i] == rest[i - n] && log[i - 1] == rest[i - n - 1])
  {
    AroundJoint(Issued(ts[0], restart), Log(ts[1..], Flag(ts[0], restart)), i);
  }

  lemma AroundJoint(a: seq<Command>, b: seq<Command>, i: nat)
    requires 0 < i < |a + b|
    ensures i < |a| ==> (a + b)[i] == a[i] && (a + b)[i - 1] == a[i - 1]
    ensures i == |a| ==> (a + b)[i] == b[0] && (a + b)[i - 1] == a[i - 1]
    ensures i > |a| ==> (a + b)[i] == b[i - |a|] && (a + b)[i - 1] == b[i - |a| - 1]
  {
  }

  lemma FramedAtStep(ts: seq<Transfer>, restart: bool, i: nat)
    requires AllPossible(ts) && ts != [] && ts[0].n > 0 && 0 < i < |Log(ts, restart)|
    ensures var n, flag := ts[0].n, Flag(ts[0], restart); var rest := Log(ts[1..], flag);
      && (i < n ==> FramedAt(ts, restart, i))
      && (i == n ==> rest != [] && (FramedAt(ts, restart, i) <==> rest[0].restart == LeavesOpen(ts[0])))
      && (i > n ==> i - n < |rest| && (FramedAt(ts, restart, i) <==> FramedAt(ts[1..], flag, i - n)))
  {
    IssuedFlags(ts[0], restart);
    LogSplits(ts, restart, i);
    if i == ts[0].n { assert Begins(ts[1..], 0); }
    assert Begins(ts, i) <==> i >= ts[0].n && Begins(ts[1..], i - ts[0].n);
  }

  lemma FramedTail(ts: seq<Transfer>, restart: bool)
    requires AllPossible(ts)
    requires ts != [] && ts[0].n > 0 && Framed(ts, restart)
    ensures var flag := Flag(ts[0], restart); var rest := Log(ts[1..], flag);
      Framed(ts[1..], flag) && (rest != [] ==> rest[0].restart == LeavesOpen(ts[0]))
  {
    var n, flag := ts[0].n, Flag(ts[0], restart);
    var rest := Log(ts[1..], flag);
    assert |Log(ts, restart)| == n + |rest|;
    forall i | 0 < i < |rest| ensures FramedAt(ts[1..], flag, i) {
      assert FramedAt(ts, restart, n + i);
      FramedAtStep(ts, restart, n + i);
    }
    if rest != [] {
      assert FramedAt(ts, restart, n);
      FramedAtStep(ts, restart, n);
    }
  }

  lemma FramedStep(ts: seq<Transfer>, restart: bool)
    requires AllPossible(ts)
    requires ts != [] && ts[0].n > 0
    ensures Log(ts, restart) != [] && Log(ts, restart)[0].restart == restart
    ensures var flag := Flag(ts[0], restart); var rest := Log(ts[1..], flag);
      Framed(ts, restart) <==> Framed(ts[1..], flag) && (rest != [] ==> rest[0].restart == LeavesOpen(ts[0]))
  {
    var flag := Flag(ts[0], restart);
    var rest := Log(ts[1..], flag);
    IssuedFlags(ts[0], restart);
    if Framed(ts, restart) {
      FramedTail(ts, restart);
    } else if Framed(ts[1..], flag) && (rest != [] ==> rest[0].restart == LeavesOpen(ts[0])) {
      forall i | 0 < i < |Log(ts, restart)| ensures FramedAt(ts, restart, i) {
        FramedAtStep(ts, restart, i);
      }
    }
  }

  lemma SkipEmpty(ts: seq<Transfer>, restart: bool)
    requires AllPossible(ts)
    requires ts != [] && ts[0].n == 0
    ensures Log(ts, restart) == Log(ts[1..], Flag(ts[0], restart))
    ensures Framed(ts, restart) <==> Framed(ts[1..], Flag(ts[0], restart))
  {
    var flag := Flag(ts[0], restart);
    assert Log(ts, restart) == [] + Log(ts[1..], flag);
    forall i | 0 < i < |Log(ts, restart)|
      ensures FramedAt(ts, restart, i) <==> FramedAt(ts[1..], flag, i)
    {
      assert Begins(ts, i) == Begins(ts[1..], i);
    }
  }

  lemma {:induction false} FramedAfterIff(ts: seq<Transfer>, open: Option<bool>, restart: bool)
    requires AllPossible(ts)
    ensures FlagsAgree(ts, open, restart) <==>
      && Framed(ts, restart)
      && (open.Some? && Log(ts, restart) != [] ==> Log(ts, restart)[0].restart == open.value)
    decreases ts
  {
    if ts != [] {
      var flag := Flag(ts[0], restart);
      if ts[0].n == 0 {
        FramedAfterIff(ts[1..], open, flag);
        SkipEmpty(ts, restart);
      } else {
        FramedAfterIff(ts[1..], Some(LeavesOpen(ts[0])), flag);
        FramedStep(ts, restart);
      }
    }
  }

  /** All transfers of a series can be told apart on the bus exactly when the flags agree. That
      is so in particular if all are completed and none is empty. */
  lemma TransfersAreFramedIff(ts: seq<Transfer>, restart: bool)
    requires AllPossible(ts)
    ensures Framed(ts, restart) <==> FlagsAgree(ts, None, restart)
    ensures (forall t | t in ts :: t.n > 0 && t == Completed(t.job)) ==> Framed(ts, restart)
  {
    FramedAfterIff(ts, None, restart);
    if forall t | t in ts :: t.n > 0 && t == Completed(t.job) { AllCompleted(ts, None, restart); }
  }

  lemma {:induction false} AllCompleted(ts: seq<Transfer>, open: Option<bool>, restart: bool)
    requires forall t | t in ts :: t.n > 0 && t == Completed(t.job)
    requires open.Some? ==> open.value == restart
    ensures FlagsAgree(ts, open, restart)
    decreases ts
  {
    if ts != [] {
      assert ts[0] in ts;
      AllCompleted(ts[1..], Some(ts[0].job.nostop), ts[0].job.nostop);
    }
  }

  /** A write of one byte that keeps the bus, a read of nothing that does not, and another
      write: the second byte follows the first without STOP or RESTART. */
  lemma EmptyReadHidesWrite()
    ensures var ts :=
        [Completed(WriteJob([1], true)), Completed(ReadJob(0, false)), Completed(WriteJob([2], false))];
      && Log(ts, false) == [Command(false, false, Put(1)), Command(false, true, Put(2))]
      && Begins(ts, 1) && !Framed(ts, false)
  {
    var first, second := Completed(WriteJob([1], true)), Completed(ReadJob(0, false));
    var third := Completed(WriteJob([2], false));
    var ts := [first, second, third];
    assert ts[1..] == [second, third] && ts[1..][1..] == [third];
    assert Log(ts[1..][1..], false) == [Command(false, true, Put(2))];
    assert Log(ts[1..], true) == Log(ts[1..][1..], false);
    assert Log(ts, false) == [Command(false, false, Put(1)), Command(false, true, Put(2))];
    assert Begins(ts[1..], 0) && Begins(ts, 1);
    assert !FramedAt(ts, false, 1);
  }

  /** A write that runs out of time after one of its two bytes, and another write: again there
      is no boundary. After an abort instead, a write that keeps the bus leads to a RESTART on a
      bus that was released. */
  lemma EarlyEndBreaksFraming(aborted: bool)
    ensures var ts := [Transfer(WriteJob([1, 2], aborted), 1, aborted, aborted), Completed(WriteJob([3], false))];
      && Log(ts, false) == [Command(false, aborted, Put(1)), Command(aborted, true, Put(3))]
      && Begins(ts, 1) && !Framed(ts, false)
  {
    var first, second := Transfer(WriteJob([1, 2], aborted), 1, aborted, aborted), Completed(WriteJob([3], false));
    var ts := [first, second];
    assert ts[1..] == [second];
    assert Log(ts[1..], aborted) == [Command(aborted, true, Put(3))];
    assert Log(ts, false) == [Command(false, aborted, Put(1)), Command(aborted, true, Put(3))];
    assert Begins(ts[1..], 0) && Begins(ts, 1);
    assert !FramedAt(ts, false, 1);
  }

  // ----- The controller -----

  /** What the abort source register says, as far as the loops tell values apart. */
  datatype Reason = NoReason | NoAck | Other

  /** The abort source register; and after how many commands of this transfer an abort came, and
      why. */
  datatype Aborts = Aborts(source: Reason, at: Option<nat>, cause: Reason)

  /** An abort comes at most once in a transfer, after its first command, and stays until it is
      cleared. */
  predicate AbortStep(a: Aborts, b: Aborts, n: nat) {
    b == a || (n > 0 && a.source == NoReason && a.at == None && b.source != NoReason
               && b == Aborts(b.source, Some(n), b.source))
  }

  /** The depth of the transmit and the receive FIFO. */
  const DEPTH: nat := 16

  /** The controller works at its own pace: `patience` bounds how often it can have nothing
      to offer, and is unknown. A byte that arrives while the receive FIFO is full is lost,
      unless the controller holds the bus until there is room. */
  class Bus {
    var restartOnNext: bool       // inst->restart_on_next
    var target: nat
    var commands: seq<Command>    // of this transfer
    var arrived: seq<u8>
    var taken: nat
    var lost: nat
    var abortSource: Reason
    var patience: nat
    var abortedAt: Option<nat>    // how many commands had been issued then
    var cause: Reason             // why, also after the register was cleared

    predicate Valid()
      reads this
    {
      && taken <= |arrived| <= taken + DEPTH && |arrived| + lost <= |commands|
      && (abortSource != NoReason ==> abortSource == cause) && (abortedAt.Some? <==> cause != NoReason)
      && (abortedAt.Some? ==> abortedAt.value <= |commands|)
    }

    /** Whether a STOP condition is on its way: one for a command that has it, or on an abort of
        this transfer. */
    ghost predicate StopDue()
      reads this
    {
      commands != [] && (abortedAt.Some? || commands[|commands| - 1].stop)
    }

    function AbortState(): Aborts
      reads this
    {
      Aborts(abortSource, abortedAt, cause)
    }

    /** Whether the controller has yet to answer a read command. */
    predicate Owes()
      reads this
    {
      |arrived| + lost < |commands| && commands[|arrived| + lost].op == Get
    }

    /** Whether a byte is there to be collected, or can still come. */
    predicate More()
      reads this
    {
      taken < |arrived| || Owes()
    }

    /** Read commands are carried out, and their bytes come in. */
    method Answer()
      requires Valid()
      modifies this`arrived, this`lost
      ensures Valid() && old(arrived) <= arrived && arrived[..taken] == old(arrived[..taken])
      ensures old(lost) <= lost && (lost == old(lost) || |arrived| == taken + DEPTH)
      ensures !old(More()) ==> !More()
    {
      var more: bool := *;
      while more && Owes()
        invariant Valid() && old(arrived) <= arrived && arrived[..taken] == old(arrived[..taken])
        invariant old(lost) <= lost && (lost == old(lost) || |arrived| == taken + DEPTH)
        invariant !old(More()) ==> !More()
        decreases |commands| - |arrived| - lost
      {
        if |arrived| - taken < DEPTH {
          var data: u8 := *;
          arrived := arrived + [data];
        } else {
          lost := lost + 1;
        }
        more := *;
      }
    }

    /** Between two accesses: commands are carried out, or it all aborts. */
    method Tick()
      requires Valid()
      modifies this`arrived, this`lost, this`abortSource, this`abortedAt, this`cause
      ensures Valid() && old(arrived) <= arrived && arrived[..taken] == old(arrived[..taken])
      ensures AbortStep(old(AbortState()), AbortState(), |commands|)
      ensures old(lost) <= lost && (lost == old(lost) || |arrived| == taken + DEPTH)
      ensures !old(More()) ==> !More()
    {
      Answer();
      var abort: Reason := *;
      if abort != NoReason && abortedAt == None && commands != [] {
        abortSource, abortedAt, cause := abort, Some(|commands|), abort;
      }
    }

    /** hw->tx_abrt_source */
    method AbortSource() returns (reason: Reason)
      requires Valid()
      modifies this`arrived, this`lost, this`abortSource, this`abortedAt, this`cause
      ensures Valid() && old(arrived) <= arrived && arrived[..taken] == old(arrived[..taken])
      ensures AbortStep(old(AbortState()), AbortState(), |commands|)
      ensures old(lost) <= lost && (lost == old(lost) || |arrived| == taken + DEPTH)
      ensures !old(More()) ==> !More()
      ensures reason == abortSource
    {
      Tick();
      reason := abortSource;
    }

    /** Reading hw->clr_tx_abrt. */
    method ClearAbort()
      requires Valid()
      modifies this`abortSource
      ensures Valid() && abortSource == NoReason
    {
      abortSource := NoReason;
    }

    /** i2c_get_write_available() */
    method WriteAvailable() returns (n: nat)
      requires Valid()
      modifies this`arrived, this`lost, this`abortSource, this`abortedAt, this`cause, this`patience
      ensures Valid() && old(arrived) <= arrived && arrived[..taken] == old(arrived[..taken])
      ensures AbortStep(old(AbortState()), AbortState(), |commands|)
      ensures old(lost) <= lost && (lost == old(lost) || |arrived| == taken + DEPTH)
      ensures !old(More()) ==> !More()
      ensures patience <= old(patience) && (n == 0 ==> patience < old(patience))
    {
      Tick();
      n := *;
      if n == 0 {
        if patience == 0 { n := 1; } else { patience := patience - 1; }
      }
    }

    /** i2c_get_read_available() */
    method ReadAvailable() returns (n: nat)
      requires Valid()
      modifies this`arrived, this`lost, this`abortSource, this`abortedAt, this`cause, this`patience
      ensures Valid() && old(arrived) <= arrived && arrived[..taken] == old(arrived[..taken])
      ensures AbortStep(old(AbortState()), AbortState(), |commands|)
      ensures old(lost) <= lost && (lost == old(lost) || |arrived| == taken + DEPTH)
      ensures !old(More()) ==> !More()
      ensures n == |arrived| - taken && patience <= old(patience)
      ensures n == 0 && More() ==> abortedAt.Some? || patience < old(patience)
    {
      Tick();
      if taken == |arrived| && Owes() && abortedAt == None {
        if patience == 0 {
          var data: u8 := *;
          arrived := arrived + [data];
        } else {
          patience := patience - 1;
        }
      }
      n := |arrived| - taken;
    }

    /** The STOP_DET bit of hw->raw_intr_stat. */
    method StopDetected() returns (b: bool)
      requires Valid()
      modifies this`arrived, this`lost, this`abortSource, this`abortedAt, this`cause, this`patience
      ensures Valid() && old(arrived) <= arrived && arrived[..taken] == old(arrived[..taken])
      ensures AbortStep(old(AbortState()), AbortState(), |commands|)
      ensures old(lost) <= lost && (lost == old(lost) || |arrived| == taken + DEPTH)
      ensures !old(More()) ==> !More()
      ensures patience <= old(patience)
      ensures !b && StopDue() ==> patience < old(patience)
    {
      Tick();
      b := *;
      if !b && commands != [] && (abortedAt.Some? || commands[|commands| - 1].stop) {
        if patience == 0 { b := true; } else { patience := patience - 1; }
      }
    }

    /** Selecting the target disables the controller for a moment, which empties its FIFOs.
        An abort nobody cleared is still there. */
    method Select(addr: nat)
      modifies this`target, this`commands, this`arrived, this`taken, this`lost, this`abortedAt, this`cause
      ensures Valid() && target == addr && commands == [] && taken == 0 && lost == 0
      ensures abortedAt == if abortSource == NoReason then None else Some(0)
      ensures cause == abortSource
    {
      target, commands, arrived, taken, lost := addr, [], [], 0, 0;
      abortedAt, cause := if abortSource == NoReason then None else Some(0), abortSource;
    }

    /** Writing hw->data_cmd. */
    method Write(c: Command)
      requires Valid()
      modifies this`commands, this`patience
      ensures Valid() && commands == old(commands) + [c]
    {
      commands := commands + [c];
      patience := *;
    }

    /** Reading hw->data_cmd. */
    method Read() returns (data: u8)
      requires Valid() && taken < |arrived|
      modifies this`taken, this`patience
      ensures Valid() && taken == old(taken) + 1 && data == arrived[old(taken)]
    {
      data := arrived[taken];
      taken := taken + 1;
      patience := *;
    }
  }

  /** Lines 107-111 and 245-249: the n-th command. */
  method Issue(bus: Bus, job: Job, n: nat)
    requires bus.Valid() && n < |job.ops| && bus.commands == Commands(job, bus.restartOnNext, n)
    modifies bus`commands, bus`patience
    ensures bus.Valid() && bus.commands == Commands(job, bus.restartOnNext, n + 1)
  {
    CommandsNext(job, bus.restartOnNext, n);
    var op := job.ops[n];
    bus.Write(Command(n == 0 && bus.restartOnNext, n == |job.ops| - 1 && !job.nostop, op));
  }

  // ----- Writing -----

  datatype Error = Timeout | Generic

  /** The interrupts a suspended thread waits for: an abort always, then room for commands,
      received data, a STOP condition. */
  datatype Mask = Space | Data(space: bool) | Stop

  datatype Outcome = Suspended(mask: Mask) | Failed(error: Error) | Written(n: nat) | Received(data: seq<u8>)

  /** `n` commands of the job are out. As long as no abort was noticed, none can have come
      before the last command but one; a noticed one came before the last command. */
  ghost predicate Sent(bus: Bus, job: Job, n: nat, reason: Reason)
    reads bus
  {
    && bus.Valid() && n <= |job.ops| && bus.commands == Commands(job, bus.restartOnNext, n)
    && (if reason == NoReason
        then bus.abortedAt.Some? ==> bus.abortSource != NoReason && n <= bus.abortedAt.value + 1
        else bus.abortedAt.Some? && bus.abortedAt.value <= n < |job.ops| && bus.cause == reason)
  }

  /** The order in which turns make progress: work done, an abort, the patience of the bus. */
  predicate Less(m0: (nat, nat, nat), m1: (nat, nat, nat)) {
    m0.0 < m1.0 || (m0.0 == m1.0 && (m0.1 < m1.1 || (m0.1 == m1.1 && m0.2 < m1.2)))
  }

  /** No progress only if the bus owes nothing. */
  predicate Falls(m0: (nat, nat, nat), m1: (nat, nat, nat), owed: bool) {
    Less(m0, m1) || (m0 == m1 && !owed)
  }

  function Calm(aborted: Option<nat>): nat { if aborted == None then 1 else 0 }

  /** Lines 93-113: sending until done, aborted or out of room. */
  method Send(bus: Bus, job: Job, from: nat) returns (n: nat, reason: Reason, full: bool)
    requires Sent(bus, job, from, NoReason)
    modifies bus`commands, bus`arrived, bus`lost, bus`abortSource, bus`abortedAt, bus`cause, bus`patience
    ensures bus.abortedAt == Some(0) ==> old(bus.abortedAt) == Some(0)
    ensures from <= n && Sent(bus, job, n, reason)
    ensures if full then reason == NoReason && n < |job.ops| else reason != NoReason || n == |job.ops|
    ensures n == from && !full && reason == NoReason ==>
      bus.patience == old(bus.patience) && bus.abortedAt == old(bus.abortedAt)
    ensures full && n == from ==>
      Less((0, Calm(bus.abortedAt), bus.patience), (0, Calm(old(bus.abortedAt)), old(bus.patience)))
  {
    n, reason, full := from, NoReason, false;
    while n < |job.ops|
      invariant from <= n && Sent(bus, job, n, NoReason) && reason == NoReason && !full
      invariant bus.abortedAt == Some(0) ==> old(bus.abortedAt) == Some(0)
      invariant n == from ==> bus.patience == old(bus.patience) && bus.abortedAt == old(bus.abortedAt)
      decreases |job.ops| - n
    {
      reason := bus.AbortSource();
      if reason != NoReason {
        bus.ClearAbort();
        return;
      }
      var room := bus.WriteAvailable();
      if room == 0 {
        full := true;
        return;
      }
      Issue(bus, job, n);
      n := n + 1;
    }
  }

  /** How a write of `len` bytes may end that is not out of time, with `n` commands out and an
      abort after `at` of them: all bytes are written; or those before an abort that was noticed,
      and that is an error exactly if it was a missing acknowledgement. Exactly an abort after the
      last command but one may go unnoticed. */
  predicate Ends(len: nat, n: nat, at: Option<nat>, cause: Reason, outcome: Outcome) {
    && n <= len && (n < len ==> at.Some? && at.value <= n)
    && (n == len && at.Some? ==> n <= at.value + 1)
    && outcome == if n < len && cause == NoAck then Failed(Generic) else Written(n)
  }

  ghost predicate WriteDone(bus: Bus, addr: nat, job: Job, restart: bool, outcome: Outcome)
    reads bus
  {
    if outcome == Failed(Timeout) then bus.restartOnNext == restart
    else
      && Ends(|job.ops|, |bus.commands|, bus.abortedAt, bus.cause, outcome)
      && bus.target == addr && bus.restartOnNext == job.nostop
      && |bus.commands| <= |job.ops| && bus.commands == Commands(job, restart, |bus.commands|)
  }

  /** What write_loop() keeps on the Lua stack. */
  class Writer {
    const addr: nat
    const job: Job
    var abortReason: Reason
    var offset: Option<nat>

    /** Whether the thread can go on from here: not started, sending, or waiting for STOP. */
    ghost predicate Ready(bus: Bus)
      reads this, bus
    {
      bus.Valid() &&
      match offset
      case None => abortReason == NoReason
      case Some(n) => bus.target == addr && Sent(bus, job, n, abortReason)
    }

    /** How much is left to do. */
    function Left(cause: Reason, at: Option<nat>): nat
      requires at.Some? ==> at.value <= |job.ops|
    {
      match at
      case None => |job.ops| + 1
      case Some(n) => if cause == NoReason then |job.ops| - n else 0
    }

    ghost function Measure(bus: Bus): (nat, nat, nat)
      requires offset.Some? ==> offset.value <= |job.ops|
      reads this, bus
    {
      (Left(abortReason, offset), Calm(bus.abortedAt), bus.patience)
    }

    constructor (addr: nat, job: Job)
      ensures this.addr == addr && this.job == job && offset == None && abortReason == NoReason
    {
      this.addr, this.job, abortReason, offset := addr, job, NoReason, None;
    }

    /** Lines 75-87: starting, or going on from where it was suspended. */
    method Open(bus: Bus) returns (sent: nat)
      requires Ready(bus)
      modifies bus`target, bus`commands, bus`arrived, bus`taken, bus`lost, bus`abortedAt, bus`cause
      ensures bus.target == addr && Sent(bus, job, sent, abortReason)
      ensures offset.Some? ==> sent == offset.value && bus.abortedAt == old(bus.abortedAt)
      ensures offset == None ==> sent == 0 && (bus.abortedAt == None <==> bus.abortSource == NoReason)
    {
      sent := 0;
      if offset == None { bus.Select(addr); } else { sent := offset.value; }
    }

    /** Lines 116-138, with everything sent or an abort noticed. */
    method Finish(bus: Bus, sent: nat, cause: Reason) returns (outcome: Outcome)
      requires Sent(bus, job, sent, cause) && bus.target == addr && (cause != NoReason || sent == |job.ops|)
      modifies this, bus`restartOnNext, bus`arrived, bus`lost, bus`abortSource, bus`abortedAt, bus`cause, bus`patience
      ensures AbortStep(old(bus.AbortState()), bus.AbortState(), |bus.commands|)
      ensures outcome.Suspended? ==>
        && outcome.mask == Stop && (cause != NoReason || !job.nostop) && bus.restartOnNext == old(bus.restartOnNext)
        && abortReason == cause && offset == Some(sent) && Sent(bus, job, sent, cause)
        && bus.patience <= old(bus.patience) && (bus.StopDue() ==> bus.patience < old(bus.patience))
      ensures !outcome.Suspended? ==>
        && bus.restartOnNext == job.nostop
        && outcome == if cause == NoAck then Failed(Generic) else Written(sent)
    {
      if cause != NoReason || !job.nostop {
        var stopped := bus.StopDetected();
        if !stopped {
          abortReason, offset := cause, Some(sent);
          return Suspended(Stop);
        }
      }
      bus.restartOnNext := job.nostop;
      outcome := if cause == NoAck then Failed(Generic) else Written(sent);
    }

    /** Lines 90-138, after `from` bytes. */
    method Advance(bus: Bus, from: nat) returns (outcome: Outcome)
      requires Sent(bus, job, from, abortReason) && bus.target == addr
      modifies this, bus`restartOnNext, bus`commands, bus`arrived, bus`lost, bus`abortSource, bus`abortedAt, bus`cause,
        bus`patience
      ensures outcome.Suspended? ==>
        && Ready(bus) && offset.Some? && bus.restartOnNext == old(bus.restartOnNext)
        && outcome.mask == (if abortReason == NoReason && offset.value < |job.ops| then Space else Stop)
        && (outcome.mask == Stop ==> abortReason != NoReason || !job.nostop)
        && (outcome.mask == Stop ==> (bus.StopDue() <==> bus.commands != []))
        && (outcome.mask == Stop && bus.commands == [] && job.ops != [] ==> bus.abortedAt == Some(0))
        && Falls(Measure(bus),
             (Left(old(abortReason), Some(from)), Calm(old(bus.abortedAt)), old(bus.patience)),
             outcome.mask == Stop ==> bus.StopDue())
      ensures bus.abortedAt == Some(0) ==> old(bus.abortedAt) == Some(0)
      ensures outcome != Failed(Timeout)
      ensures !outcome.Suspended? ==> WriteDone(bus, addr, job, old(bus.restartOnNext), outcome)
    {
      var sent, cause := from, abortReason;
      if cause == NoReason {
        var full;
        sent, cause, full := Send(bus, job, sent);
        if full {
          offset := Some(sent);
          return Suspended(Space);
        }
      }
      outcome := Finish(bus, sent, cause);
    }

    /** write_loop() at line 68. While it waits for STOP, one is on its way, or nothing was sent
        and it may wait for ever. */
    method WriteLoop(bus: Bus, timeout: bool) returns (outcome: Outcome)
      requires Ready(bus)
      modifies this, bus
      ensures outcome == Failed(Timeout) <==> timeout
      ensures timeout ==> bus.restartOnNext == old(bus.restartOnNext)
      ensures !timeout && outcome.Suspended? ==>
        && Ready(bus) && offset.Some? && bus.restartOnNext == old(bus.restartOnNext)
        && outcome.mask == (if abortReason == NoReason && offset.value < |job.ops| then Space else Stop)
        && (outcome.mask == Stop ==> abortReason != NoReason || !job.nostop)
        && (outcome.mask == Stop ==> (bus.StopDue() <==> bus.commands != []))
        && (outcome.mask == Stop && bus.commands == [] && job.ops != [] ==> bus.abortedAt == Some(0))
        && Falls(Measure(bus), old(Measure(bus)), outcome.mask == Stop ==> bus.StopDue())
      ensures !timeout && bus.abortedAt == Some(0) ==>
        if old(offset) == None then old(bus.abortSource) != NoReason else old(bus.abortedAt) == Some(0)
      ensures !timeout && !outcome.Suspended? ==> WriteDone(bus, addr, job, old(bus.restartOnNext), outcome)
    {
      if timeout { return Failed(Timeout); }
      var from := Open(bus);
      outcome := Advance(bus, from);
    }
  }

  /** A whole write: a turn of the loop for every interrupt, until the deadline, here a number
      of turns, if there is one. Without one it may be left waiting for a STOP that nobody
      sends: after it sent nothing, because there was nothing to send or it found the abort of
      an earlier transfer. */
  method Write(bus: Bus, addr: nat, src: seq<u8>, nostop: bool, deadline: Option<nat>) returns (outcome: Outcome)
    requires bus.Valid()
    modifies bus
    ensures outcome.Suspended? ==>
      && outcome.mask == Stop && deadline == None && bus.commands == []
      && (if src == [] then !nostop else old(bus.abortSource) != NoReason)
    ensures outcome == Failed(Timeout) ==> deadline.Some?
    ensures !outcome.Suspended? ==> WriteDone(bus, addr, WriteJob(src, nostop), old(bus.restartOnNext), outcome)
  {
    var job := WriteJob(src, nostop);
    var writer := new Writer(addr, job);
    ghost var restart, stale := bus.restartOnNext, bus.abortSource;
    var turns: nat := 0;
    outcome := Suspended(Space);
    while outcome.Suspended?
      invariant fresh(writer) && writer.addr == addr && writer.job == job
      invariant deadline.Some? && outcome.Suspended? ==> turns <= deadline.value
      invariant outcome.Suspended? ==> writer.Ready(bus) && bus.restartOnNext == restart
      invariant outcome.Suspended? ==>
        if writer.offset == None then bus.abortSource == stale
        else bus.abortedAt == Some(0) ==> stale != NoReason
      invariant outcome == Failed(Timeout) ==> deadline.Some?
      invariant !outcome.Suspended? ==> WriteDone(bus, addr, job, restart, outcome)
      decreases outcome.Suspended?, if outcome.Suspended? then writer.Left(writer.abortReason, writer.offset) else 0,
        Calm(bus.abortedAt), bus.patience,
        if outcome.Suspended? && deadline.Some? then deadline.value - turns else 0
    {
      outcome := writer.WriteLoop(bus, deadline == Some(turns));
      turns := turns + 1;
      if outcome == Suspended(Stop) && bus.commands == [] && deadline == None { return; }
    }
  }

  // ----- Reading -----

  predicate Reads(job: Job) {
    forall i :: 0 <= i < |job.ops| ==> job.ops[i] == Get
  }

  /** `w` read commands are out and `n` bytes were collected, and no abort was noticed. A read
      of no more bytes than the receive FIFO holds has lost none. */
  ghost predicate Fetched(bus: Bus, job: Job, w: nat, n: nat)
    reads bus
  {
    && Reads(job) && (|job.ops| <= DEPTH ==> bus.lost == 0)
    && bus.Valid() && n <= w <= |job.ops| && bus.commands == Commands(job, bus.restartOnNext, w)
    && bus.taken == n && (bus.abortedAt.Some? ==> bus.abortSource != NoReason)
  }

  /** Lines 234-239: collecting bytes that are there. */
  method Collect(bus: Bus, cnt: nat) returns (data: seq<u8>)
    requires bus.Valid() && bus.taken + cnt <= |bus.arrived|
    modifies bus`taken, bus`patience
    ensures bus.Valid() && bus.taken == old(bus.taken) + cnt
    ensures bus.arrived[..bus.taken] == old(bus.arrived[..bus.taken]) + data && |data| == cnt
  {
    data := [];
    while |data| < cnt
      invariant |data| <= cnt && bus.Valid() && bus.taken == old(bus.taken) + |data|
      invariant bus.arrived[..bus.taken] == old(bus.arrived[..bus.taken]) + data
    {
      var b := bus.Read();
      data := data + [b];
    }
  }

  /** Lines 244-251: asking for more. */
  method Fill(bus: Bus, job: Job, w: nat, wend: nat)
    requires bus.Valid() && w <= wend <= |job.ops| && bus.commands == Commands(job, bus.restartOnNext, w)
    modifies bus`commands, bus`patience
    ensures bus.Valid() && bus.commands == Commands(job, bus.restartOnNext, wend)
    ensures w == wend ==> bus.patience == old(bus.patience)
  {
    var k := w;
    while k < wend
      invariant w <= k <= wend && bus.Valid() && bus.commands == Commands(job, bus.restartOnNext, k)
      invariant k == w ==> bus.patience == old(bus.patience)
    {
      Issue(bus, job, k);
      k := k + 1;
    }
  }

  /** How a read may end. The bytes are those that got into the receive FIFO, in order: one for
      each of the read commands, and then none was lost, or those collected before an abort was
      noticed; and that is an error exactly if it was a missing acknowledgement. */
  ghost predicate ReadDone(bus: Bus, addr: nat, job: Job, restart: bool, outcome: Outcome)
    reads bus
  {
    if outcome == Failed(Timeout) then bus.restartOnNext == restart
    else
      && bus.Valid() && bus.target == addr && bus.restartOnNext == job.nostop
      && bus.taken <= |bus.commands| <= |job.ops| && bus.commands == Commands(job, restart, |bus.commands|)
      && (bus.taken < |job.ops| ==> bus.abortedAt.Some?)
      && (bus.taken == |job.ops| || |job.ops| <= DEPTH ==> bus.lost == 0)
      && outcome == if bus.taken < |job.ops| && bus.cause == NoAck then Failed(Generic)
                    else Received(bus.arrived[..bus.taken])
  }

  /** What read_loop() keeps on the Lua stack. */
  class Reader {
    const addr: nat
    const job: Job
    var wcnt: nat
    var offset: Option<nat>
    var pieces: seq<seq<u8>>

    ghost predicate Ready(bus: Bus)
      reads this, bus
    {
      bus.Valid() && Reads(job) &&
      match offset
      case None => wcnt == 0 && pieces == []
      case Some(n) => bus.target == addr && Fetched(bus, job, wcnt, n) && Concat(pieces) == bus.arrived[..n]
    }

    /** How much is left to do. */
    function Left(w: nat, at: Option<nat>): nat
      requires at.Some? ==> at.value <= w <= |job.ops|
    {
      match at
      case None => 2 * |job.ops| + 1
      case Some(n) => (|job.ops| - n) + (|job.ops| - w)
    }

    ghost function Measure(bus: Bus): (nat, nat, nat)
      requires offset.Some? ==> offset.value <= wcnt <= |job.ops|
      reads this, bus
    {
      (Left(wcnt, offset), Calm(bus.abortedAt), bus.patience)
    }

    constructor (addr: nat, job: Job)
      ensures this.addr == addr && this.job == job && offset == None && wcnt == 0 && pieces == []
    {
      this.addr, this.job, wcnt, offset, pieces := addr, job, 0, None, [];
    }

    /** Keeping the bytes just collected. */
    method Keep(data: seq<u8>)
      modifies this`pieces
      ensures Concat(pieces) == old(Concat(pieces)) + data
      ensures old(|pieces|) <= LUA_MINSTACK - 9 ==> |pieces| <= LUA_MINSTACK - 9
    {
      if 7 + |pieces| >= LUA_MINSTACK - 2 {
        ConcatPush([], Concat(pieces));
        pieces := [Concat(pieces)];
      }
      ConcatPush(pieces, data);
      pieces := pieces + [data];
    }

    /** Lines 229-252: taking what is there and asking for more. */
    method Work(bus: Bus, n: nat, w: nat, rend: nat, wend: nat)
      requires Fetched(bus, job, w, n) && Concat(pieces) == bus.arrived[..n]
      requires n <= rend <= |bus.arrived| && w <= wend <= |job.ops|
      modifies this`pieces, bus`commands, bus`taken, bus`patience
      ensures Fetched(bus, job, wend, rend) && Concat(pieces) == bus.arrived[..rend]
    {
      if n < rend {
        var data := Collect(bus, rend - n);
        Keep(data);
      }
      Fill(bus, job, w, wend);
    }

    /** Lines 187-200: starting, or going on from where it was suspended. */
    method Open(bus: Bus) returns (n: nat)
      requires Ready(bus)
      modifies bus`target, bus`commands, bus`arrived, bus`taken, bus`lost, bus`abortedAt, bus`cause
      ensures bus.target == addr && Fetched(bus, job, wcnt, n) && Concat(pieces) == bus.arrived[..n]
      ensures offset.Some? ==> n == offset.value && bus.abortedAt == old(bus.abortedAt)
      ensures offset == None ==> n == 0
    {
      n := 0;
      if offset == None { bus.Select(addr); } else { n := offset.value; }
    }

    /** Lines 206-215: an abort, or how far the FIFOs let the loop go. */
    method Look(bus: Bus, n: nat, w: nat) returns (reason: Reason, rend: nat, wend: nat)
      requires Fetched(bus, job, w, n) && n < |job.ops| && Concat(pieces) == bus.arrived[..n]
      modifies bus`arrived, bus`lost, bus`abortSource, bus`abortedAt, bus`cause, bus`patience
      ensures bus.Valid() && Concat(pieces) == bus.arrived[..n] && (|job.ops| <= DEPTH ==> bus.lost == 0)
      ensures reason != NoReason ==> bus.cause == reason
      ensures reason == NoReason ==>
        && Fetched(bus, job, w, n) && n <= rend <= |bus.arrived| && rend <= |job.ops| && w <= wend <= |job.ops|
        && old(bus.abortedAt) == None && bus.patience <= old(bus.patience)
        && (n == rend && w == wend && (w < |job.ops| || bus.More()) ==>
              bus.abortedAt.Some? || bus.patience < old(bus.patience))
    {
      rend, wend := n, w;
      reason := bus.AbortSource();
      if reason != NoReason {
        bus.ClearAbort();
        return;
      }
      var readable := bus.ReadAvailable();
      rend := Min(n + readable, |job.ops|);
      var writable := bus.WriteAvailable();
      wend := Min(w + writable, |job.ops|);
    }

    /** Lines 204-252. Every round that does not suspend has done something. */
    method Receive(bus: Bus, n0: nat, w0: nat) returns (n: nat, w: nat, reason: Reason, idle: bool)
      requires Fetched(bus, job, w0, n0) && Concat(pieces) == bus.arrived[..n0]
      modifies this`pieces, bus`commands, bus`arrived, bus`lost, bus`taken,
        bus`abortSource, bus`abortedAt, bus`cause, bus`patience
      ensures n0 <= n && w0 <= w && bus.Valid() && n <= w <= |job.ops|
      ensures bus.commands == Commands(job, bus.restartOnNext, w)
      ensures bus.taken == n && Concat(pieces) == bus.arrived[..n]
      ensures if reason == NoReason then Fetched(bus, job, w, n) else bus.cause == reason && n < |job.ops| && !idle
      ensures reason == NoReason ==> (idle <==> n < |job.ops|)
      ensures |job.ops| <= DEPTH ==> bus.lost == 0
      ensures idle && n == n0 && w == w0 ==>
        Falls((0, Calm(bus.abortedAt), bus.patience), (0, Calm(old(bus.abortedAt)), old(bus.patience)),
          w < |job.ops| || bus.More() || bus.abortedAt.Some?)
    {
      n, w, reason, idle := n0, w0, NoReason, false;
      while n < |job.ops|
        invariant n0 <= n && w0 <= w && Fetched(bus, job, w, n) && Concat(pieces) == bus.arrived[..n]
        invariant reason == NoReason && !idle
        invariant n == n0 && w == w0 ==> bus.patience == old(bus.patience) && bus.abortedAt == old(bus.abortedAt)
        decreases (|job.ops| - n) + (|job.ops| - w)
      {
        var rend, wend;
        reason, rend, wend := Look(bus, n, w);
        if reason != NoReason { return; }
        if n >= rend && w >= wend {
          idle := true;
          return;
        }
        Work(bus, n, w, rend, wend);
        n, w := rend, wend;
      }
    }

    /** Lines 203-267, after `from` bytes. */
    method Advance(bus: Bus, from: nat) returns (outcome: Outcome)
      requires Fetched(bus, job, wcnt, from) && bus.target == addr && Concat(pieces) == bus.arrived[..from]
      modifies this, bus`restartOnNext, bus`commands, bus`arrived, bus`lost, bus`taken,
        bus`abortSource, bus`abortedAt, bus`cause, bus`patience
      ensures outcome.Suspended? ==>
        && Ready(bus) && offset.Some? && bus.restartOnNext == old(bus.restartOnNext)
        && outcome.mask == Data(wcnt < |job.ops|) && bus.taken < |job.ops|
        && Falls(Measure(bus),
             (Left(old(wcnt), Some(from)), Calm(old(bus.abortedAt)), old(bus.patience)),
             wcnt < |job.ops| || bus.More() || bus.abortedAt.Some?)
      ensures outcome != Failed(Timeout)
      ensures !outcome.Suspended? ==> ReadDone(bus, addr, job, old(bus.restartOnNext), outcome)
    {
      var n, w, cause, idle := Receive(bus, from, wcnt);
      if idle {
        wcnt, offset := w, Some(n);
        return Suspended(Data(w < |job.ops|));
      }
      bus.restartOnNext := job.nostop;
      outcome := if cause == NoAck then Failed(Generic) else Received(Concat(pieces));
    }

    /** read_loop() at line 180. */
    method ReadLoop(bus: Bus, timeout: bool) returns (outcome: Outcome)
      requires Ready(bus)
      modifies this, bus
      ensures outcome == Failed(Timeout) <==> timeout
      ensures timeout ==> bus.restartOnNext == old(bus.restartOnNext)
      ensures !timeout && outcome.Suspended? ==>
        && Ready(bus) && offset.Some? && bus.restartOnNext == old(bus.restartOnNext)
        && outcome.mask == Data(wcnt < |job.ops|) && bus.taken < |job.ops|
        && Falls(Measure(bus), old(Measure(bus)), wcnt < |job.ops| || bus.More() || bus.abortedAt.Some?)
      ensures !timeout && !outcome.Suspended? ==> ReadDone(bus, addr, job, old(bus.restartOnNext), outcome)
    {
      if timeout { return Failed(Timeout); }
      var from := Open(bus);
      outcome := Advance(bus, from);
    }
  }

  /** All commands are out and no byte is to come: the missing ones are lost. */
  lemma Starved(bus: Bus, job: Job, n: nat)
    requires Fetched(bus, job, |job.ops|, n) && n < |job.ops| && !bus.More()
    ensures |bus.commands| == bus.taken + bus.lost == |job.ops| && bus.lost > 0 && |job.ops| > DEPTH
  {
  }

  /** A whole read, until the deadline, here a number of turns, if there is one. Without one it
      may be left waiting for bytes that were lost, if it reads more than the receive FIFO holds. */
  method Read(bus: Bus, addr: nat, len: nat, nostop: bool, deadline: Option<nat>) returns (outcome: Outcome)
    requires bus.Valid()
    modifies bus
    ensures outcome.Suspended? ==>
      && deadline == None && bus.abortedAt == None
      && len > DEPTH && bus.lost > 0 && |bus.commands| == bus.taken + bus.lost == len
    ensures outcome == Failed(Timeout) ==> deadline.Some?
    ensures !outcome.Suspended? ==> ReadDone(bus, addr, ReadJob(len, nostop), old(bus.restartOnNext), outcome)
  {
    var job := ReadJob(len, nostop);
    var reader := new Reader(addr, job);
    ghost var restart := bus.restartOnNext;
    var turns: nat := 0;
    outcome := Suspended(Space);
    while outcome.Suspended?
      invariant fresh(reader) && reader.addr == addr && reader.job == job
      invariant deadline.Some? && outcome.Suspended? ==> turns <= deadline.value
      invariant outcome.Suspended? ==> reader.Ready(bus) && bus.restartOnNext == restart
      invariant outcome == Failed(Timeout) ==> deadline.Some?
      invariant !outcome.Suspended? ==> ReadDone(bus, addr, job, restart, outcome)
      decreases outcome.Suspended?, if outcome.Suspended? then reader.Left(reader.wcnt, reader.offset) else 0,
        Calm(bus.abortedAt), bus.patience,
        if outcome.Suspended? && deadline.Some? then deadline.value - turns else 0
    {
      outcome := reader.ReadLoop(bus, deadline == Some(turns));
      turns := turns + 1;
      if outcome.Suspended? && deadline == None && !bus.More() && reader.wcnt == len && bus.abortedAt == None {
        Starved(bus, job, reader.offset.value);
        return;
      }
    }
  }
}
