/** Whether a byte can get lost during a read, lib/pico/hardware.i2c.c lines 204-252, when the
    controller does not hold the bus while its receive FIFO is full. */
module I2cReads {
  import opened Numbers
  import I2c

  const DEPTH: nat := I2c.DEPTH

  /** Where the loop is: at line 204, past the look at the receive FIFO at line 213, or with
      `r` bytes to collect and then `k` commands to issue. */
  datatype Phase = Top | Looked(r: nat) | Working(r: nat, k: nat)

  /** `w` commands were issued and `n` bytes collected; `queued` commands and `ready` bytes are
      in the FIFOs, and `lost` bytes found the receive FIFO full. */
  datatype Flow = Flow(w: nat, n: nat, queued: nat, ready: nat, lost: nat, phase: Phase)

  /** The controller carries out a command, at any time; the loop looks at the receive FIFO and
      then at the transmit FIFO, collects, issues, and starts again, at once or when it was
      suspended and resumed. */
  datatype Move = Execute | Look | Size | Collect | Issue | Again

  predicate Can(len: nat, s: Flow, move: Move) {
    match move
    case Execute => s.queued > 0
    case Look => s.phase.Top? && s.n < len
    case Size => s.phase.Looked? && s.queued <= DEPTH && s.w <= len
    case Collect => s.phase.Working? && s.phase.r > 0 && s.ready > 0
    case Issue => s.phase.Working? && s.phase.r == 0 && s.phase.k > 0
    case Again => s.phase == Working(0, 0)
  }

  function Next(len: nat, s: Flow, move: Move): Flow
    requires Can(len, s, move)
  {
    match move
    case Execute =>
      if s.ready < DEPTH then s.(queued := s.queued - 1, ready := s.ready + 1)
      else s.(queued := s.queued - 1, lost := s.lost + 1)
    case Look => s.(phase := Looked(Min(s.ready, len - s.n)))
    case Size => s.(phase := Working(s.phase.r, Min(DEPTH - s.queued, len - s.w)))
    case Collect => s.(n := s.n + 1, ready := s.ready - 1, phase := Working(s.phase.r - 1, s.phase.k))
    case Issue => s.(w := s.w + 1, queued := s.queued + 1, phase := Working(0, s.phase.k - 1))
    case Again => s.(phase := Top)
  }

  predicate Schedule(len: nat, s: Flow, moves: seq<Move>)
    decreases moves
  {
    moves == [] || (Can(len, s, moves[0]) && Schedule(len, Next(len, s, moves[0]), moves[1..]))
  }

  function After(len: nat, s: Flow, moves: seq<Move>): Flow
    requires Schedule(len, s, moves)
    decreases moves
  {
    if moves == [] then s else After(len, Next(len, s, moves[0]), moves[1..])
  }

  const START: Flow := Flow(0, 0, 0, 0, 0, Top)

  /** Every command is queued, or its byte is ready, collected or lost. No more commands than
      fit are issued, and no more bytes collected than there are. */
  predicate Inv(len: nat, s: Flow) {
    && s.w == s.n + s.ready + s.queued + s.lost <= len
    && s.queued <= DEPTH && s.ready <= DEPTH
    && match s.phase
       case Top => true
       case Looked(r) => r <= s.ready
       case Working(r, k) => r <= s.ready && k + s.w <= len && k + s.queued <= DEPTH
  }

  lemma StepInv(len: nat, s: Flow, move: Move)
    requires Inv(len, s) && Can(len, s, move)
    ensures Inv(len, Next(len, s, move))
  {
  }

  /** At most two FIFOs full of bytes are ever outstanding. */
  lemma {:induction false} OutstandingIsBounded(len: nat, s: Flow, moves: seq<Move>)
    requires Inv(len, s) && Schedule(len, s, moves)
    ensures var r := After(len, s, moves);
      Inv(len, r) && r.w - r.n - r.lost <= 2 * DEPTH && (len <= DEPTH && s.lost == 0 ==> r.lost == 0)
    decreases moves
  {
    if moves != [] {
      StepInv(len, s, moves[0]);
      OutstandingIsBounded(len, Next(len, s, moves[0]), moves[1..]);
    }
  }

  // ----- When the controller does nothing between the two looks -----

  predicate Steady(len: nat, s: Flow, moves: seq<Move>)
    requires Schedule(len, s, moves)
    decreases moves
  {
    moves == [] ||
    (!(s.phase.Looked? && moves[0] == Execute) && Steady(len, Next(len, s, moves[0]), moves[1..]))
  }

  /** What is outstanding, with what the loop is about to issue, fits one FIFO. */
  predicate Fits(len: nat, s: Flow) {
    && s.lost == 0 && s.queued + s.ready <= DEPTH
    && match s.phase
       case Top => true
       case Looked(r) => r == s.ready
       case Working(r, k) => s.queued + s.ready + k <= DEPTH + r
  }

  lemma {:induction false} SteadyLosesNothing(len: nat, s: Flow, moves: seq<Move>)
    requires Inv(len, s) && Fits(len, s) && Schedule(len, s, moves) && Steady(len, s, moves)
    ensures After(len, s, moves).lost == 0
    decreases moves
  {
    if moves != [] {
      StepInv(len, s, moves[0]);
      SteadyLosesNothing(len, Next(len, s, moves[0]), moves[1..]);
    }
  }

  // ----- When it may do something between them -----

  lemma RunThen(len: nat, s: Flow, move: Move, rest: seq<Move>)
    requires Can(len, s, move) && Schedule(len, Next(len, s, move), rest)
    ensures Schedule(len, s, [move] + rest)
    ensures After(len, s, [move] + rest) == After(len, Next(len, s, move), rest)
  {
    assert ([move] + rest)[1..] == rest;
  }

  function Times(n: nat, move: Move): seq<Move> {
    if n == 0 then [] else [move] + Times(n - 1, move)
  }

  lemma {:induction false} IssueAll(len: nat, s: Flow, rest: seq<Move>)
    requires s.phase.Working? && s.phase.r == 0
    requires Schedule(len, s.(w := s.w + s.phase.k, queued := s.queued + s.phase.k, phase := Working(0, 0)), rest)
    ensures var all := s.(w := s.w + s.phase.k, queued := s.queued + s.phase.k, phase := Working(0, 0));
      && Schedule(len, s, Times(s.phase.k, Issue) + rest)
      && After(len, s, Times(s.phase.k, Issue) + rest) == After(len, all, rest)
    decreases s.phase.k
  {
    var k := s.phase.k;
    if k == 0 {
      assert Times(0, Issue) + rest == rest;
    } else {
      var moves := Times(k - 1, Issue) + rest;
      IssueAll(len, Next(len, s, Issue), rest);
      RunThen(len, s, Issue, moves);
      assert Times(k, Issue) + rest == [Issue] + moves;
    }
  }

  lemma {:induction false} ExecuteAll(len: nat, s: Flow, rest: seq<Move>)
    requires s.ready + s.queued <= DEPTH
    requires Schedule(len, s.(queued := 0, ready := s.ready + s.queued), rest)
    ensures Schedule(len, s, Times(s.queued, Execute) + rest)
    ensures After(len, s, Times(s.queued, Execute) + rest)
      == After(len, s.(queued := 0, ready := s.ready + s.queued), rest)
    decreases s.queued
  {
    var q := s.queued;
    if q == 0 {
      assert Times(0, Execute) + rest == rest;
    } else {
      var moves := Times(q - 1, Execute) + rest;
      ExecuteAll(len, Next(len, s, Execute), rest);
      RunThen(len, s, Execute, moves);
      assert Times(q, Execute) + rest == [Execute] + moves;
    }
  }

  /** A full FIFO of commands is carried out between the two looks. The loop has seen no byte,
      finds room for commands, and the byte of the next one is lost. */
  lemma LosingRun(len: nat) returns (moves: seq<Move>)
    requires len > DEPTH
    ensures Schedule(len, START, moves)
    ensures After(len, START, moves).lost == 1 && After(len, START, moves).w == DEPTH + 1
  {
    var a := Flow(0, 0, 0, 0, 0, Working(0, DEPTH));
    var b := Flow(DEPTH, 0, DEPTH, 0, 0, Looked(0));
    var c := Flow(DEPTH, 0, 0, DEPTH, 0, Looked(0));
    var d := Next(len, c, Size);
    var e := Next(len, d, Issue);
    RunThen(len, e, Execute, []);
    RunThen(len, d, Issue, [Execute] + []);
    RunThen(len, c, Size, [Issue] + ([Execute] + []));
    var last := [Size] + ([Issue] + ([Execute] + []));
    ExecuteAll(len, b, last);
    var third := Times(DEPTH, Execute) + last;
    RunThen(len, b.(phase := Top), Look, third);
    RunThen(len, b.(phase := Working(0, 0)), Again, [Look] + third);
    var second := [Again] + ([Look] + third);
    IssueAll(len, a, second);
    var first := Times(DEPTH, Issue) + second;
    RunThen(len, START.(phase := Looked(0)), Size, first);
    RunThen(len, START, Look, [Size] + first);
    moves := [Look] + ([Size] + first);
  }

  /** A schedule can lose a byte exactly if more bytes are read than the receive FIFO holds. */
  lemma NoByteIsLostIff(len: nat)
    ensures (forall moves | Schedule(len, START, moves) :: After(len, START, moves).lost == 0) <==> len <= DEPTH
  {
    if len <= DEPTH {
      forall moves | Schedule(len, START, moves) ensures After(len, START, moves).lost == 0 {
        OutstandingIsBounded(len, START, moves);
      }
    } else {
      var moves := LosingRun(len);
      assert After(len, START, moves).lost != 0;
    }
  }

  /** And no read of any length loses one if no command is carried out between the two looks. */
  lemma SteadyReadLosesNothing(len: nat, moves: seq<Move>)
    requires Schedule(len, START, moves) && Steady(len, START, moves)
    ensures After(len, START, moves).lost == 0
  {
    SteadyLosesNothing(len, START, moves);
  }

  lemma SeventeenthByteIsLost() returns (moves: seq<Move>)
    ensures Schedule(17, START, moves)
    ensures After(17, START, moves).lost == 1 && After(17, START, moves).w == 17
  {
    moves := LosingRun(17);
  }

  // ----- The registers that the loop of module I2c looks at -----

  /** What fits is ready, and the rest is lost. */
  lemma {:induction false} ExecuteSome(len: nat, s: Flow, k: nat)
    requires k <= s.queued && s.ready <= DEPTH
    ensures Schedule(len, s, Times(k, Execute))
    ensures var fit := Min(k, DEPTH - s.ready);
      After(len, s, Times(k, Execute)) == s.(queued := s.queued - k, ready := s.ready + fit, lost := s.lost + k - fit)
    decreases k
  {
    if k > 0 { ExecuteSome(len, Next(len, s, Execute), k - 1); }
  }

  ghost function View(bus: I2c.Bus, phase: Phase): Flow
    requires bus.Valid()
    reads bus
  {
    Flow(|bus.commands|, bus.taken, |bus.commands| - |bus.arrived| - bus.lost, |bus.arrived| - bus.taken,
         bus.lost, phase)
  }

  /** What `I2c.Bus.Tick` promises of a bus is that `k` commands were carried out. */
  twostate lemma TickExecutes(len: nat, bus: I2c.Bus, phase: Phase) returns (k: nat)
    requires old(bus.Valid()) && bus.Valid() && unchanged(bus`commands, bus`taken)
    requires old(bus.arrived) <= bus.arrived && old(bus.lost) <= bus.lost
    requires bus.lost == old(bus.lost) || |bus.arrived| == bus.taken + DEPTH
    ensures Schedule(len, old(View(bus, phase)), Times(k, Execute))
    ensures After(len, old(View(bus, phase)), Times(k, Execute)) == View(bus, phase)
  {
    k := |bus.arrived| + bus.lost - |old(bus.arrived)| - old(bus.lost);
    ExecuteSome(len, old(View(bus, phase)), k);
  }
}
