/** Rescheduling of alarms and repeating timers, lib/pico/pico.time.c. */
module Alarms {
  import opened Ticks
  import opened Words

  const MIN64: int := -TWO63

  /** What the callback returned. */
  datatype Result = Nil | Bool(b: bool) | Delay(delay: i64)

  /** The time and delay upvalues of an alarm thread. */
  datatype Alarm = Alarm(time: Time, delay: i64)

  /** `Again` sleeps until the new time, `Done` ends the thread, `Fails` raises an error. */
  datatype Outcome = Again(alarm: Alarm) | Done | Fails

  /** delayed_by_us() of the Pico SDK: the sum, limited to the end of time. */
  function DelayedBy(time: u64, us: u64): u64 {
    if time + us <= TICKS_MAX then time + us else TICKS_MAX
  }

  /** The choice of representation in lines 131-136. */
  function Encode(next: u64, now: u64): Time {
    if -TWO31 <= next - now <= MAXINTEGER then Integer(next % TWO32) else Int64(next)
  }

  /** Lines 125-138, at time `now`. */
  function Reschedule(a: Alarm, delay: i64, now: u64): Outcome
    requires delay != MIN64
  {
    if delay == 0 then Done
    else
      var next := if delay < 0 then DelayedBy(ToTime(a.time, now), -delay) else DelayedBy(now, delay);
      Again(Alarm(Encode(next, now), a.delay))
  }

  /** alarm_thread_2() at line 112, when the callback returned `result` at time `now`. */
  function Fire(a: Alarm, result: Result, now: u64): Outcome
    requires a.delay != MIN64 && result != Delay(MIN64)
  {
    if a.delay == 0 then
      match result
      case Nil => Done
      case Bool(_) => Fails
      case Delay(d) => Reschedule(a, d, now)
    else
      match result
      case Bool(false) => Done
      case Delay(d) => Reschedule(a.(delay := d), d, now)
      case _ => Reschedule(a, a.delay, now)
  }

  /** Read at any time from `since` up to 2^31 ticks past `t`, the value is `t`. */
  ghost predicate Means(time: Time, t: u64, since: u64) {
    forall later: u64 :: since <= later <= t + TWO31 ==> ToTime(time, later) == t
  }

  /** The chosen representation decodes to the new time, from now on until 2^31 ticks past
      it. */
  lemma EncodeIsFaithful(next: u64, now: u64)
    requires next <= TICKS_MAX
    ensures Means(Encode(next, now), next, now)
  {
    forall later: u64 | now <= later <= next + TWO31 ensures ToTime(Encode(next, now), later) == next {
      LowBitsDecodeIff(next, later);
    }
  }

  predicate Repeats(result: Result) {
    result == Nil || result == Bool(true)
  }

  /** A timer with a negative delay is rescheduled relative to the time it was scheduled for, and
      not to the return of the callback, while that time can be read: at least until 2^31 ticks
      past it. PhaseKeptIff says exactly when. */
  lemma RepeatKeepsPhase(a: Alarm, t: u64, since: u64, result: Result, now: u64)
    requires MIN64 < a.delay < 0 && Repeats(result) && Means(a.time, t, since)
    requires since <= now <= t + TWO31 && t - a.delay <= TICKS_MAX
    ensures Fire(a, result, now).Again? && Fire(a, result, now).alarm.delay == a.delay
    ensures Means(Fire(a, result, now).alarm.time, t - a.delay, now)
  {
    EncodeIsFaithful(t - a.delay, now);
  }

  /** The alarm after the callback returned the given results at the given times. */
  function Repeat(a: Alarm, answers: seq<(Result, u64)>): Outcome
    requires a.delay != MIN64 && forall i :: 0 <= i < |answers| ==> Repeats(answers[i].0)
    decreases answers
  {
    if answers == [] then Again(a)
    else
      assert Repeats(answers[0].0);
      match Fire(a, answers[0].0, answers[0].1)
      case Again(b) => if b.delay == MIN64 then Fails else Repeat(b, answers[1..])
      case other => other
  }

  /** Each callback asks for another repeat, and the one for t + k*d returns no earlier than
      the one before it and at most 2^31 ticks late. */
  predicate OnTime(t: int, since: int, d: int, answers: seq<(Result, u64)>)
    decreases answers
  {
    answers == [] ||
    (&& Repeats(answers[0].0) && since <= answers[0].1 <= t + TWO31
     && OnTime(t + d, answers[0].1, d, answers[1..]))
  }

  function Last(since: u64, answers: seq<(Result, u64)>): u64 {
    if answers == [] then since else answers[|answers| - 1].1
  }

  lemma {:induction false} OnTimeRepeats(t: int, since: int, d: int, answers: seq<(Result, u64)>)
    requires OnTime(t, since, d, answers)
    ensures forall i :: 0 <= i < |answers| ==> Repeats(answers[i].0)
    decreases answers
  {
    if answers != [] { OnTimeRepeats(t + d, answers[0].1, d, answers[1..]); }
  }

  /** When the k-th repeat of a timer with period `d` is due. */
  function Due(t: int, d: nat, k: nat): (r: int)
    ensures r >= t
    decreases k
  {
    if k == 0 then t else Due(t + d, d, k - 1)
  }

  lemma {:induction false} DueIsMultiple(t: int, d: nat, k: nat)
    ensures Due(t, d, k) == t + k * d
    decreases k
  {
    if k > 0 { DueIsMultiple(t + d, d, k - 1); }
  }

  lemma {:induction false} RepeatsAreDue(a: Alarm, t: u64, since: u64, answers: seq<(Result, u64)>)
    requires MIN64 < a.delay < 0 && Means(a.time, t, since)
    requires OnTime(t, since, -a.delay, answers) && Due(t, -a.delay, |answers|) <= TICKS_MAX
    requires forall i :: 0 <= i < |answers| ==> Repeats(answers[i].0)
    ensures var r := Repeat(a, answers);
      r.Again? && Means(r.alarm.time, Due(t, -a.delay, |answers|), Last(since, answers))
    decreases answers
  {
    if answers != [] {
      var (result, now) := answers[0];
      RepeatKeepsPhase(a, t, since, result, now);
      RepeatsAreDue(Fire(a, result, now).alarm, t - a.delay, now, answers[1..]);
    }
  }

  // ----- The first time -----

  datatype Delta = Unknown | Short | Long

  /** The choice of representation in lines 152-159, at time `now`. */
  function First(time: u64, now: u64, delta: Delta): Time {
    if delta == Short || (delta == Unknown && time - now <= MAXINTEGER) then Integer(time % TWO32)
    else Int64(time)
  }

  /** An alarm at an absolute time (line 170) keeps its time exactly if that is not further in
      the past than 2^31 ticks. */
  lemma AlarmAtKeepsTimeIff(time: u64, now: u64)
    requires time <= TICKS_MAX && now <= TICKS_MAX
    ensures ToTime(First(time, now, Unknown), now) == time <==> now <= time + TWO31
    ensures now <= time + TWO31 ==> Means(First(time, now, Unknown), time, now)
  {
    LowBitsDecodeIff(time, now);
    forall later: u64 | now <= later <= time + TWO31 ensures ToTime(First(time, now, Unknown), later) == time {
      LowBitsDecodeIff(time, later);
    }
  }

  /** An alarm 2^31 + 1 ticks in the past would ring 2^32 ticks after its time. */
  lemma FarPastIsFuture()
    ensures ToTime(First(0, TWO31 + 1, Unknown), TWO31 + 1) == TWO32
  {
    LowBitsDecodeIff(TWO32, TWO31 + 1);
  }

  /** The delta of lines 177 and 199; lines 184 and 207 choose Short for fewer delays. */
  predicate Fits(delta: Delta, delay: nat) {
    match delta
    case Unknown => false
    case Short => delay <= MAXINTEGER
    case Long => true
  }

  /** A time that is a delay from `start` keeps its meaning, when it is stored at `now`. */
  lemma DelayKeepsTime(start: u64, now: u64, delay: nat, delta: Delta)
    requires start <= now && start + delay <= TICKS_MAX && Fits(delta, delay)
    ensures Means(First(start + delay, now, delta), start + delay, now)
  {
    var time: u64 := start + delay;
    forall later: u64 | now <= later <= time + TWO31 ensures ToTime(First(time, now, delta), later) == time {
      LowBitsDecodeIff(time, later);
    }
  }

  /** No drift: for a timer with delay -d started at `start`, the k-th repeat is scheduled for
      exactly d + k*d later, whichever way the callbacks ask to go on, if none returns more than
      2^31 ticks late. */
  lemma NoDrift(start: u64, now: u64, delay: i64, delta: Delta, answers: seq<(Result, u64)>)
    requires MIN64 < delay < 0 && start <= now && Fits(delta, -delay)
    requires OnTime(start - delay, now, -delay, answers)
    requires start - delay + |answers| * -delay <= TICKS_MAX
    ensures 0 <= start - delay + |answers| * -delay
    ensures start - delay <= TICKS_MAX && forall i :: 0 <= i < |answers| ==> Repeats(answers[i].0)
    ensures var r := Repeat(Alarm(First(start - delay, now, delta), delay), answers);
      r.Again? && Means(r.alarm.time, start - delay + |answers| * -delay, Last(now, answers))
  {
    var t: int := start - delay;
    DueIsMultiple(t, -delay, |answers|);
    OnTimeRepeats(t, now, -delay, answers);
    DelayKeepsTime(start, now, -delay, delta);
    RepeatsAreDue(Alarm(First(t, now, delta), delay), t, now, answers);
  }

  // ----- Exactly when -----

  /** A stored time stands for `t`. */
  predicate Stored(time: Time, t: u64) {
    time == Integer(t % TWO32) || time == Int64(t)
  }

  /** What decides whether it can still be read at `now`: 64 bits always, 32 bits within half
      their range. */
  predicate KeepsTime(time: Time, t: int, now: u64) {
    time.Int64? || now - TWO31 <= t < now + TWO31
  }

  lemma ReadsBackIff(time: Time, t: u64, now: u64)
    requires Stored(time, t) && t <= TICKS_MAX && now <= TICKS_MAX
    ensures ToTime(time, now) == t <==> KeepsTime(time, t, now)
  {
    LowBitsDecodeIff(t, now);
  }

  /** A repeat is scheduled for the time after the one before it exactly if that one could
      still be read. */
  lemma PhaseKeptIff(a: Alarm, t: u64, result: Result, now: u64)
    requires MIN64 < a.delay < 0 && Repeats(result) && Stored(a.time, t)
    requires now <= TICKS_MAX && t - a.delay < TICKS_MAX
    ensures Fire(a, result, now).Again? && Fire(a, result, now).alarm.delay == a.delay
    ensures ToTime(Fire(a, result, now).alarm.time, now) == t - a.delay <==> KeepsTime(a.time, t, now)
    ensures KeepsTime(a.time, t, now) ==> Fire(a, result, now).alarm.time == Encode(t - a.delay, now)
  {
    ReadsBackIff(a.time, t, now);
    var next := DelayedBy(ToTime(a.time, now), -a.delay);
    ReadsBackIff(Encode(next, now), next, now);
  }

  /** Every repeat of the run is scheduled for its multiple of the period. */
  ghost predicate OnSchedule(a: Alarm, t: int, answers: seq<(Result, u64)>)
    requires a.delay != MIN64 && forall i :: 0 <= i < |answers| ==> Repeats(answers[i].0)
    decreases answers
  {
    answers == [] ||
    (assert Repeats(answers[0].0);
     match Fire(a, answers[0].0, answers[0].1)
     case Again(b) =>
       && ToTime(b.time, answers[0].1) == t - a.delay && b.delay == a.delay
       && OnSchedule(b, t - a.delay, answers[1..])
     case _ => false)
  }

  /** Each callback returns while the time it was scheduled for can still be read. */
  predicate InTime(time: Time, t: int, d: nat, answers: seq<(Result, u64)>)
    requires t >= 0 && Due(t, d, |answers|) < TICKS_MAX
    decreases answers
  {
    answers == [] ||
    (var now := answers[0].1;
     KeepsTime(time, t, now) && InTime(Encode(t + d, now), t + d, d, answers[1..]))
  }

  lemma {:induction false} ScheduleKeptIff(a: Alarm, t: u64, answers: seq<(Result, u64)>)
    requires MIN64 < a.delay < 0 && Stored(a.time, t) && Due(t, -a.delay, |answers|) < TICKS_MAX
    requires forall i :: 0 <= i < |answers| ==> Repeats(answers[i].0) && answers[i].1 <= TICKS_MAX
    ensures OnSchedule(a, t, answers) <==> InTime(a.time, t, -a.delay, answers)
    decreases answers
  {
    if answers != [] {
      var (result, now) := answers[0];
      assert Repeats(answers[0].0) && answers[0].1 <= TICKS_MAX;
      PhaseKeptIff(a, t, result, now);
      if KeepsTime(a.time, t, now) {
        ScheduleKeptIff(Fire(a, result, now).alarm, t - a.delay, answers[1..]);
      }
    }
  }

  /** A repeating timer with delay -d never drifts, in any run of callbacks that return nil or
      true, exactly if each of them returns while its time can still be read. */
  lemma NoDriftIff(a: Alarm, t: u64, answers: seq<(Result, u64)>)
    requires MIN64 < a.delay < 0 && Stored(a.time, t) && t + |answers| * -a.delay < TICKS_MAX
    requires forall i :: 0 <= i < |answers| ==> Repeats(answers[i].0) && answers[i].1 <= TICKS_MAX
    ensures Due(t, -a.delay, |answers|) == t + |answers| * -a.delay < TICKS_MAX
    ensures OnSchedule(a, t, answers) <==> InTime(a.time, t, -a.delay, answers)
  {
    DueIsMultiple(t, -a.delay, |answers|);
    ScheduleKeptIff(a, t, answers);
  }

  /** A timer of 1000 ticks due at time 0 whose callback returns 2^31 + 1 ticks late. */
  lemma OneTickTooLate()
    ensures var r := Fire(Alarm(Integer(0), -1000), Nil, TWO31 + 1);
      r.Again? && ToTime(r.alarm.time, TWO31 + 1) == TWO32 + 1000
  {
    LateCallbackSkips(0, -1000, 1, TWO31 + 1);
  }

  /** A callback that returns later than that, while the k-th round of the 32-bit counter after
      `t` is the nearest, makes a timer whose time has 32 bits skip `k` rounds. */
  lemma LateCallbackSkips(t: u64, delay: i64, k: nat, now: u64)
    requires MIN64 < delay < 0 && k > 0
    requires t + k * TWO32 - TWO31 < now <= t + k * TWO32 + TWO31 && t + k * TWO32 - delay <= TICKS_MAX
    ensures !KeepsTime(Integer(t % TWO32), t, now)
    ensures var r := Fire(Alarm(Integer(t % TWO32), delay), Nil, now);
      r.Again? && ToTime(r.alarm.time, now) == t + k * TWO32 - delay
  {
    var missed: u64, next: u64 := t + k * TWO32, t + k * TWO32 - delay;
    LaterRoundSameLowBits(t, k);
    LowBitsDecodeIff(missed, now);
    assert ToTime(Integer(t % TWO32), now) == missed;
    EncodeIsFaithful(next, now);
    assert ToTime(Encode(next, now), now) == next;
  }

  /** A positive delay counts from the return of the callback, as far as the end of time. */
  lemma PositiveDelayFollowsCallback(a: Alarm, result: Result, now: u64)
    requires a.delay > 0 && Repeats(result) && now <= TICKS_MAX
    ensures Fire(a, result, now).Again? && Fire(a, result, now).alarm.delay == a.delay
    ensures Means(Fire(a, result, now).alarm.time, if now + a.delay <= TICKS_MAX then now + a.delay else TICKS_MAX, now)
  {
    EncodeIsFaithful(DelayedBy(now, a.delay), now);
  }

  // ----- The other results -----

  /** An alarm ends with nil, a repeating timer with false, and both with a delay of zero; only an
      alarm whose callback returns a boolean fails; in all other cases the callback is due again. */
  lemma EndsIff(a: Alarm, result: Result, now: u64)
    requires a.delay != MIN64 && result != Delay(MIN64)
    ensures Fire(a, result, now) == Done
      <==> result == Delay(0) || (if a.delay == 0 then result == Nil else result == Bool(false))
    ensures Fire(a, result, now) == Fails <==> a.delay == 0 && result.Bool?
  {
  }

  /** A callback that returns a delay is due again that much later than it returned, or than it was
      scheduled for if the delay is negative; it becomes the delay of a repeating timer, and an
      alarm stays one. */
  lemma NewDelayCounts(a: Alarm, d: i64, t: u64, now: u64)
    requires a.delay != MIN64 && MIN64 < d && d != 0 && now <= TICKS_MAX && ToTime(a.time, now) == t
    requires (if d > 0 then now + d else t - d) <= TICKS_MAX
    ensures var r := Fire(a, Delay(d), now);
      && r.Again? && r.alarm.delay == (if a.delay == 0 then 0 else d)
      && Means(r.alarm.time, if d > 0 then now + d else t - d, now)
  {
    EncodeIsFaithful(if d > 0 then now + d else t - d, now);
  }

  /** The alarm thread as the source has it: a closure whose upvalues are replaced. */
  class AlarmThread {
    var time: Time
    var delay: i64

    constructor (time: Time, delay: i64)
      ensures this.time == time && this.delay == delay
    {
      this.time, this.delay := time, delay;
    }

    /** alarm_thread_2(): true to sleep until the new time, false to end; `failed` when the
        result of the callback has the wrong type. */
    method Returned(result: Result, now: u64) returns (again: bool, failed: bool)
      requires delay != MIN64 && result != Delay(MIN64)
      modifies this
      ensures match Fire(Alarm(old(time), old(delay)), result, now)
        case Again(alarm) => again && !failed && alarm == Alarm(time, delay)
        case Done => !again && !failed
        case Fails => !again && failed
    {
      again, failed := false, false;
      var d := delay;
      if d == 0 {
        if result.Nil? { return; }
        if result.Bool? { return false, true; }
        d := result.delay;
      } else if result.Bool? {
        if !result.b { return; }
      } else if !result.Nil? {
        d := result.delay;
        delay := d;
      }
      if d == 0 { return; }
      var next := if d < 0 then DelayedBy(ToTime(time, now), -d) else DelayedBy(now, d);
      time := Encode(next, now);
      again := true;
    }
  }
}
