/** What can happen during a write, lib/pico/hardware.i2c.c lines 68-139, as runs of single
    steps of the loop and of the controller: which aborts go unnoticed, and which writes never
    end. */
module I2cWrites {
  import opened Options
  import opened I2c

  /** Where the loop is: at line 93, past the abort check at line 98, waiting for STOP at line
      117 with the abort it has noticed, or done. */
  datatype Phase = Top | Clear | Ending(reason: Reason) | Over(outcome: Outcome)

  /** `n` bytes are out; the abort source, after how many bytes it was set and to what, and
      whether a STOP condition was detected. */
  datatype Line = Line(n: nat, phase: Phase, abort: Reason, at: Option<nat>, cause: Reason, stop: bool)

  /** Once it has been given a byte, the controller may abort, or detect the STOP that it sends
      on an abort or with the last byte; the loop takes a step, and finds room for a byte or
      not; or the deadline passes. */
  datatype Move = Abort(reason: Reason) | StopSeen | Go(room: bool) | TimeOut

  predicate Can(len: nat, nostop: bool, s: Line, move: Move) {
    !s.phase.Over? &&
    match move
    case Abort(reason) => reason != NoReason && s.at == None && s.n > 0
    case StopSeen => s.n > 0 && (s.at.Some? || (s.n == len && !nostop))
    case _ => true
  }

  function Next(len: nat, nostop: bool, s: Line, move: Move): Line
    requires Can(len, nostop, s, move)
  {
    match move
    case Abort(reason) => s.(abort := reason, at := Some(s.n), cause := reason)
    case StopSeen => s.(stop := true)
    case TimeOut => s.(phase := Over(Failed(Timeout)))
    case Go(room) =>
      match s.phase
      case Top =>
        if s.n >= len then s.(phase := Ending(NoReason))
        else if s.abort != NoReason then s.(phase := Ending(s.abort), abort := NoReason)
        else s.(phase := Clear)
      case Clear => if room then s.(n := s.n + 1, phase := Top) else s.(phase := Top)
      case Ending(reason) =>
        var waits := reason != NoReason || !nostop;
        if waits && !s.stop then s
        else s.(phase := Over(if reason == NoAck then Failed(Generic) else Written(s.n)), stop := s.stop && !waits)
  }

  predicate Schedule(len: nat, nostop: bool, s: Line, moves: seq<Move>)
    decreases moves
  {
    moves == [] || (Can(len, nostop, s, moves[0]) && Schedule(len, nostop, Next(len, nostop, s, moves[0]), moves[1..]))
  }

  function After(len: nat, nostop: bool, s: Line, moves: seq<Move>): Line
    requires Schedule(len, nostop, s, moves)
    decreases moves
  {
    if moves == [] then s else After(len, nostop, Next(len, nostop, s, moves[0]), moves[1..])
  }

  /** An abort of an earlier transfer may still be there, and so may a STOP: a read never clears
      the one it ends with. */
  function Start(stale: Reason, stop: bool): Line {
    Line(0, Top, stale, if stale == NoReason then None else Some(0), stale, stop)
  }

  predicate Inv(len: nat, s: Line) {
    && s.n <= len && (s.at.Some? ==> s.at.value <= s.n) && (s.abort != NoReason ==> s.abort == s.cause)
    && match s.phase
       case Top => s.at.Some? <==> s.abort != NoReason
       case Clear => s.n < len && (s.at.Some? <==> s.abort != NoReason)
       case Ending(reason) =>
         if reason == NoReason then s.n == len else s.at.Some? && s.n < len && reason == s.cause
       case Over(outcome) => outcome == Failed(Timeout) || Ends(len, s.n, s.at, s.cause, outcome)
  }

  /** An abort not noticed yet came after the last byte but one. */
  predicate Recent(s: Line) {
    && (s.phase == Clear && s.at.Some? ==> s.at.value == s.n)
    && ((s.phase == Top || s.phase == Ending(NoReason)) && s.at.Some? ==> s.n <= s.at.value + 1)
  }

  lemma {:induction false} RunInv(len: nat, nostop: bool, s: Line, moves: seq<Move>)
    requires Schedule(len, nostop, s, moves) && Inv(len, s) && Recent(s)
    ensures Inv(len, After(len, nostop, s, moves)) && Recent(After(len, nostop, s, moves))
    decreases moves
  {
    if moves != [] { RunInv(len, nostop, Next(len, nostop, s, moves[0]), moves[1..]); }
  }

  /** Every run that ends does so as `I2c.Write` promises. */
  lemma WriteEnds(len: nat, nostop: bool, stale: Reason, stop: bool, moves: seq<Move>)
    requires Schedule(len, nostop, Start(stale, stop), moves)
    ensures var s := After(len, nostop, Start(stale, stop), moves);
      s.phase.Over? ==>
        if TimeOut in moves then s.phase.outcome == Failed(Timeout)
        else Ends(len, s.n, s.at, s.cause, s.phase.outcome)
  {
    RunInv(len, nostop, Start(stale, stop), moves);
    TimeOutEnds(len, nostop, Start(stale, stop), moves);
  }

  lemma {:induction false} TimeOutEnds(len: nat, nostop: bool, s: Line, moves: seq<Move>)
    requires Schedule(len, nostop, s, moves) && s.phase != Over(Failed(Timeout))
    ensures TimeOut in moves <==> After(len, nostop, s, moves).phase == Over(Failed(Timeout))
    decreases moves
  {
    if moves != [] {
      assert moves == [moves[0]] + moves[1..];
      if moves[0] == TimeOut {
        assert moves[1..] == [];
      } else {
        TimeOutEnds(len, nostop, Next(len, nostop, s, moves[0]), moves[1..]);
      }
    }
  }

  function Issue(n: nat): seq<Move> {
    if n == 0 then [] else [Go(true), Go(true)] + Issue(n - 1)
  }

  /** `n` bytes go out without a hitch, and then the rest of the run. */
  lemma {:induction false} IssueThen(len: nat, nostop: bool, s: Line, n: nat, rest: seq<Move>)
    requires s.phase == Top && s.abort == NoReason && s.n + n <= len
    requires Schedule(len, nostop, s.(n := s.n + n), rest)
    ensures Schedule(len, nostop, s, Issue(n) + rest)
    ensures After(len, nostop, s, Issue(n) + rest) == After(len, nostop, s.(n := s.n + n), rest)
    decreases n
  {
    if n == 0 {
      assert Issue(0) + rest == rest;
    } else {
      var later := Issue(n - 1) + rest;
      var a := Next(len, nostop, s, Go(true));
      var b := Next(len, nostop, a, Go(true));
      IssueThen(len, nostop, b, n - 1, rest);
      RunThen(len, nostop, a, Go(true), later);
      RunThen(len, nostop, s, Go(true), [Go(true)] + later);
      assert Issue(n) + rest == [Go(true)] + ([Go(true)] + later);
    }
  }

  /** The last steps of a write whose bytes are all out. */
  function Finish(wait: bool): seq<Move> {
    if wait then [Go(true), StopSeen, Go(true)] else [Go(true), Go(true)]
  }

  lemma FinishEnds(len: nat, nostop: bool, s: Line)
    requires s.phase == Top && s.n == len && (nostop || s.stop || len > 0)
    ensures Schedule(len, nostop, s, Finish(!nostop && !s.stop))
    ensures var r := After(len, nostop, s, Finish(!nostop && !s.stop));
      r.phase == Over(Written(len)) && r.at == s.at && r.abort == s.abort && (r.stop <==> nostop && s.stop)
  {
    var a := Next(len, nostop, s, Go(true));
    if nostop || s.stop {
      RunOne(len, nostop, a, Go(true));
      RunThen(len, nostop, s, Go(true), [Go(true)]);
      assert [Go(true)] + [Go(true)] == Finish(false);
    } else {
      var b := Next(len, nostop, a, StopSeen);
      RunOne(len, nostop, b, Go(true));
      RunThen(len, nostop, a, StopSeen, [Go(true)]);
      RunThen(len, nostop, s, Go(true), [StopSeen] + [Go(true)]);
      assert [Go(true)] + ([StopSeen] + [Go(true)]) == Finish(true);
    }
  }

  lemma RunOne(len: nat, nostop: bool, s: Line, move: Move)
    requires Can(len, nostop, s, move)
    ensures Schedule(len, nostop, s, [move]) && After(len, nostop, s, [move]) == Next(len, nostop, s, move)
  {
    assert [move][1..] == [];
  }

  lemma RunThen(len: nat, nostop: bool, s: Line, move: Move, rest: seq<Move>)
    requires Can(len, nostop, s, move) && Schedule(len, nostop, Next(len, nostop, s, move), rest)
    ensures Schedule(len, nostop, s, [move] + rest)
    ensures After(len, nostop, s, [move] + rest) == After(len, nostop, Next(len, nostop, s, move), rest)
  {
    assert ([move] + rest)[1..] == rest;
  }

  /** A run in which an abort after `c` bytes comes too late to be noticed. */
  lemma MissedRun(len: nat, nostop: bool, stop: bool, c: nat, reason: Reason) returns (moves: seq<Move>)
    requires 0 < c <= len <= c + 1 && reason != NoReason
    ensures Schedule(len, nostop, Start(NoReason, stop), moves)
    ensures var s := After(len, nostop, Start(NoReason, stop), moves);
      && s.phase == Over(Written(len)) && s.at == Some(c) && s.abort == reason
      && (s.stop <==> nostop && stop)
  {
    var start := Start(NoReason, stop);
    var s, fin, abort := start.(n := c), Finish(!nostop && !stop), Abort(reason);
    if c == len {
      var a := Next(len, nostop, s, abort);
      FinishEnds(len, nostop, a);
      RunThen(len, nostop, s, abort, fin);
      moves := Issue(c) + ([abort] + fin);
      IssueThen(len, nostop, start, c, [abort] + fin);
    } else {
      var a := Next(len, nostop, s, Go(true));
      var b := Next(len, nostop, a, abort);
      var d := Next(len, nostop, b, Go(true));
      FinishEnds(len, nostop, d);
      RunThen(len, nostop, b, Go(true), fin);
      RunThen(len, nostop, a, abort, [Go(true)] + fin);
      RunThen(len, nostop, s, Go(true), [abort] + ([Go(true)] + fin));
      var rest := [Go(true)] + ([abort] + ([Go(true)] + fin));
      moves := Issue(c) + rest;
      IssueThen(len, nostop, start, c, rest);
    }
  }

  /** The run ends with all bytes reported written, and an abort after `c` of them, for this
      reason, that nobody has looked at. */
  predicate Misses(len: nat, nostop: bool, stop: bool, c: nat, reason: Reason, moves: seq<Move>) {
    Schedule(len, nostop, Start(NoReason, stop), moves) &&
    var s := After(len, nostop, Start(NoReason, stop), moves);
    s.phase == Over(Written(len)) && s.at == Some(c) && s.abort == reason
  }

  /** An abort that comes when `c` bytes are out can be missed, so that the write reports
      success, exactly when all other bytes but one are out by then. */
  lemma AbortIsMissedIff(len: nat, nostop: bool, stop: bool, c: nat, reason: Reason)
    requires reason != NoReason
    ensures (exists moves :: Misses(len, nostop, stop, c, reason, moves)) <==> 0 < c <= len <= c + 1
  {
    if 0 < c <= len <= c + 1 {
      var moves := MissedRun(len, nostop, stop, c, reason);
      assert Misses(len, nostop, stop, c, reason, moves);
    }
    forall moves | Misses(len, nostop, stop, c, reason, moves) ensures 0 < c <= len <= c + 1 {
      RunInv(len, nostop, Start(NoReason, stop), moves);
      AbortNeedsByte(len, nostop, Start(NoReason, stop), moves);
    }
  }

  lemma {:induction false} AbortNeedsByte(len: nat, nostop: bool, s: Line, moves: seq<Move>)
    requires Schedule(len, nostop, s, moves) && (s.at.Some? ==> s.at.value > 0)
    ensures After(len, nostop, s, moves).at.Some? ==> After(len, nostop, s, moves).at.value > 0
    decreases moves
  {
    if moves != [] { AbortNeedsByte(len, nostop, Next(len, nostop, s, moves[0]), moves[1..]); }
  }

  /** A write of one byte to a device that does not acknowledge its address reports one byte
      written. */
  lemma OneByteToNobody()
    ensures exists moves :: Misses(1, false, false, 1, NoAck, moves)
  {
    AbortIsMissedIff(1, false, false, 1, NoAck);
  }

  /** Neither aborted nor timed out. */
  predicate Undisturbed(moves: seq<Move>) {
    forall move | move in moves :: !move.Abort? && move != TimeOut
  }

  lemma {:induction false} WaitsForStop(len: nat, s: Line, moves: seq<Move>)
    requires Schedule(len, false, s, moves) && !s.phase.Over? && !s.stop
    requires StopSeen !in moves && TimeOut !in moves
    ensures !After(len, false, s, moves).phase.Over?
    decreases moves
  {
    if moves != [] {
      assert moves[0] in moves;
      WaitsForStop(len, Next(len, false, s, moves[0]), moves[1..]);
    }
  }

  /** What keeps a write waiting: nothing to send, or the abort of an earlier transfer. */
  predicate Stuck(len: nat, nostop: bool, s: Line) {
    && s.n == 0 && !s.stop
    && match s.phase
       case Top => if len == 0 then !nostop else s.abort != NoReason
       case Ending(reason) => reason != NoReason || !nostop
       case _ => false
  }

  lemma {:induction false} StaysStuck(len: nat, nostop: bool, s: Line, moves: seq<Move>)
    requires Schedule(len, nostop, s, moves) && Stuck(len, nostop, s) && TimeOut !in moves
    ensures Stuck(len, nostop, After(len, nostop, s, moves)) && StopSeen !in moves
    decreases moves
  {
    if moves != [] {
      assert moves[0] in moves;
      StaysStuck(len, nostop, Next(len, nostop, s, moves[0]), moves[1..]);
    }
  }

  /** The run ends. */
  predicate GetsOver(len: nat, nostop: bool, stale: Reason, stop: bool, moves: seq<Move>) {
    && Schedule(len, nostop, Start(stale, stop), moves)
    && After(len, nostop, Start(stale, stop), moves).phase.Over?
  }

  lemma PlainRun(len: nat, nostop: bool, stale: Reason, stop: bool) returns (moves: seq<Move>)
    requires stop || if len == 0 then nostop else stale == NoReason
    ensures GetsOver(len, nostop, stale, stop, moves) && Undisturbed(moves)
    ensures nostop || stop ==> StopSeen !in moves
  {
    var start, fin := Start(stale, stop), Finish(!nostop && !stop);
    if len > 0 && stale != NoReason {
      var a := Next(len, nostop, start, Go(true));
      RunOne(len, nostop, a, Go(true));
      RunThen(len, nostop, start, Go(true), [Go(true)]);
      moves := [Go(true)] + [Go(true)];
    } else if len == 0 {
      FinishEnds(len, nostop, start);
      moves := fin;
    } else {
      FinishEnds(len, nostop, start.(n := len));
      IssueThen(len, nostop, start, len, fin);
      IssueIsPlain(len);
      moves := Issue(len) + fin;
    }
  }

  lemma {:induction false} IssueIsPlain(n: nat)
    ensures forall move | move in Issue(n) :: move == Go(true)
  {
    if n > 0 { IssueIsPlain(n - 1); }
  }

  /** No run that is neither aborted nor out of time ever ends, exactly if no STOP was left
      behind by an earlier transfer, and the write is empty and to end with STOP, or it is not
      empty and an earlier transfer left its abort behind. */
  lemma NeverEndsIff(len: nat, nostop: bool, stale: Reason, stop: bool)
    ensures (forall moves | Undisturbed(moves) :: !GetsOver(len, nostop, stale, stop, moves))
      <==> !stop && if len == 0 then !nostop else stale != NoReason
  {
    if !stop && if len == 0 then !nostop else stale != NoReason {
      forall moves | Undisturbed(moves) ensures !GetsOver(len, nostop, stale, stop, moves) {
        if Schedule(len, nostop, Start(stale, stop), moves) {
          StaysStuck(len, nostop, Start(stale, stop), moves);
        }
      }
    } else {
      var moves := PlainRun(len, nostop, stale, stop);
    }
  }

  /** The run misses the abort of a write of one byte that nobody acknowledged, and ends with the
      STOP that came with it. */
  predicate LeavesAbort(moves: seq<Move>) {
    Misses(1, false, false, 1, NoAck, moves) && !After(1, false, Start(NoReason, false), moves).stop
  }

  /** After such a write, every write of at least one byte waits for ever with no byte out,
      unless it times out. */
  lemma NextWriteHangs()
    ensures exists moves :: LeavesAbort(moves)
    ensures forall len: nat, nostop, moves |
      len > 0 && TimeOut !in moves && Schedule(len, nostop, Start(NoAck, false), moves) ::
      !After(len, nostop, Start(NoAck, false), moves).phase.Over?
      && After(len, nostop, Start(NoAck, false), moves).n == 0
  {
    var run := MissedRun(1, false, false, 1, NoAck);
    assert LeavesAbort(run);
    forall len: nat, nostop, moves |
      len > 0 && TimeOut !in moves && Schedule(len, nostop, Start(NoAck, false), moves)
      ensures !After(len, nostop, Start(NoAck, false), moves).phase.Over?
      ensures After(len, nostop, Start(NoAck, false), moves).n == 0
    {
      StaysStuck(len, nostop, Start(NoAck, false), moves);
    }
  }

  /** A write that is to end with STOP returns only after a STOP of its own, unless it times
      out, exactly if none was left behind. */
  lemma WaitsForOwnStopIff(len: nat, stale: Reason, stop: bool)
    ensures (forall moves | GetsOver(len, false, stale, stop, moves) :: StopSeen in moves || TimeOut in moves)
      <==> !stop
  {
    if stop {
      var moves := PlainRun(len, false, stale, stop);
      assert TimeOut !in moves;
    } else {
      forall moves | GetsOver(len, false, stale, stop, moves) ensures StopSeen in moves || TimeOut in moves {
        if StopSeen !in moves && TimeOut !in moves {
          WaitsForStop(len, Start(stale, stop), moves);
        }
      }
    }
  }
}
