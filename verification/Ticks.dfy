/** Absolute times. The clock counts microseconds in 64 bits; a Lua integer holds only its
    low 32 bits, and the full value is reconstructed around the current time. */
module Ticks {
  import opened Words

  const MAXINTEGER: int := TWO31 - 1
  const TICKS_MAX: int := TWO63 - 1

  /** mlua_timeout_deadline() of platform_common.h. */
  function TimeoutDeadline(time: u64, timeout: u64): u64 {
    var t: u64 := (time + timeout) % TWO64;
    if t <= TICKS_MAX then t else TICKS_MAX
  }

  /** mlua_to_ticks64() of platform_common.h for 32-bit integers. */
  function ToTicks64(ticks: u32, now: u64): u64 {
    var res: u64 := now - now % TWO32 + ticks;
    var t: u32 := now % TWO32;
    if t < ticks && ticks - t > MAXINTEGER then (res - TWO32) % TWO64
    else if ticks < t && t - ticks > TWO31 then (res + TWO32) % TWO64
    else res
  }

  /** mlua_ticks_reached() of platform.h, at time `now`. */
  predicate TicksReached(ticks: u32, now: u64) {
    (now % TWO32 - ticks) % TWO32 <= MAXINTEGER
  }

  /** mlua_ticks64_reached() of platform.h, at time `now`. */
  predicate Ticks64Reached(ticks: u64, now: u64) {
    now >= ticks
  }

  /** The deadline is the sum limited to the end of time, exactly when the 64-bit addition
      does not wrap, or wraps to the end of time or later. */
  lemma TimeoutDeadlineIff(time: u64, timeout: u64)
    ensures TimeoutDeadline(time, timeout) ==
              (if time + timeout <= TICKS_MAX then time + timeout else TICKS_MAX)
      <==> time + timeout < TWO64 || time + timeout - TWO64 >= TICKS_MAX
  {
    if time + timeout >= TWO64 {
      assert (time + timeout) % TWO64 == time + timeout - TWO64;
    }
  }

  /** A timeout that wraps gives a deadline in the past. */
  lemma WrappedTimeoutIsInThePast()
    ensures TimeoutDeadline(1000, TWO64 - 500) == 500
  {
  }

  /** `v` is the time near `now` whose low 32 bits are `ticks`. */
  predicate Near(v: int, ticks: u32, now: u64) {
    && (v - ticks) % TWO32 == 0
    && now - TWO31 <= v <= now + TWO31 - 1
  }

  lemma NearUnique(v: int, w: int, ticks: u32, now: u64)
    requires Near(v, ticks, now) && Near(w, ticks, now)
    ensures v == w
  {
    assert (v - w) % TWO32 == 0;
  }

  /** The signed distance from now to the time that `ticks` stands for. */
  function Ahead(ticks: u32, now: u64): int {
    var d := ticks - now % TWO32;
    if d >= TWO31 then d - TWO32 else if d < -TWO31 then d + TWO32 else d
  }

  lemma AheadIsNear(ticks: u32, now: u64)
    ensures Near(now + Ahead(ticks, now), ticks, now)
  {
    var q, t := now / TWO32, now % TWO32;
    assert now == q * TWO32 + t;
    var d := ticks - t;
    assert now + d - ticks == q * TWO32;
    assert Ahead(ticks, now) == d || Ahead(ticks, now) == d - TWO32 || Ahead(ticks, now) == d + TWO32;
  }

  /** The reconstructed value is, modulo 2^64, the one time near now with these low bits. */
  lemma ToTicks64IsNearest(ticks: u32, now: u64)
    ensures exists v :: Near(v, ticks, now) && ToTicks64(ticks, now) == v % TWO64
    ensures forall v :: Near(v, ticks, now) ==> ToTicks64(ticks, now) == v % TWO64
  {
    AheadIsNear(ticks, now);
    var v := now + Ahead(ticks, now);
    assert ToTicks64(ticks, now) == v % TWO64;
    forall w | Near(w, ticks, now) ensures ToTicks64(ticks, now) == w % TWO64 {
      NearUnique(v, w, ticks, now);
    }
  }

  /** The 32-bit test agrees with reconstructing the time and comparing, exactly when the
      reconstruction does not wrap around 64 bits and the time is not 2^31 ticks ago; at
      that distance they agree only by wrapping. */
  lemma ReachedAgreesIff(ticks: u32, now: u64)
    ensures var d := Ahead(ticks, now);
      (TicksReached(ticks, now) <==> Ticks64Reached(ToTicks64(ticks, now), now))
      <==> if d == -TWO31 then now < TWO31 else 0 <= now + d < TWO64
  {
    ToTicks64Wraps(ticks, now);
    var d, t := Ahead(ticks, now), now % TWO32;
    assert TicksReached(ticks, now) <==> -TWO31 < d <= 0 by {
      var x := t - ticks;
      assert x % TWO32 == if x < 0 then x + TWO32 else x;
    }
  }

  /** The one disagreement within the first 2^63 ticks and away from the first 2^31. */
  lemma ReachedDisagreesAtHalfRange()
    ensures !TicksReached(0, TWO31) && Ticks64Reached(ToTicks64(0, TWO31), TWO31)
  {
  }

  // ----- Times as Lua values -----

  datatype Time = Integer(low: u32) | Int64(value: u64)

  /** mlua_to_time() of int64.h, at time `now`. */
  function ToTime(time: Time, now: u64): u64 {
    match time
    case Integer(low) => ToTicks64(low, now)
    case Int64(value) => value
  }

  /** mlua_push_deadline() of mlua.int64.c, at time `now`. */
  function PushDeadline(now: u64, timeout: u64): Time {
    if timeout <= MAXINTEGER then Integer((now % TWO32 + timeout) % TWO32)
    else Int64(TimeoutDeadline(now, timeout))
  }

  lemma AheadHitsIff(x: int, ticks: u32, now: u64)
    requires (x - ticks) % TWO32 == 0
    ensures now + Ahead(ticks, now) == x <==> now - TWO31 <= x < now + TWO31
  {
    AheadIsNear(ticks, now);
    if now - TWO31 <= x < now + TWO31 { NearUnique(now + Ahead(ticks, now), x, ticks, now); }
  }

  lemma SameLowBits(time: u64)
    ensures (time - time % TWO32) % TWO32 == 0
    ensures (time - TWO64 - time % TWO32) % TWO32 == 0 && (time + TWO64 - time % TWO32) % TWO32 == 0
  {
  }

  lemma {:induction false} LaterRoundSameLowBits(time: nat, k: nat)
    ensures (time + k * TWO32) % TWO32 == time % TWO32
    decreases k
  {
    if k > 0 {
      assert time + k * TWO32 == (time + TWO32) + (k - 1) * TWO32;
      LaterRoundSameLowBits(time + TWO32, k - 1);
    }
  }

  lemma ToTicks64Wraps(ticks: u32, now: u64)
    ensures var v := now + Ahead(ticks, now);
      ToTicks64(ticks, now) == if v < 0 then v + TWO64 else if v < TWO64 then v else v - TWO64
  {
    AheadIsNear(ticks, now);
    ToTicks64IsNearest(ticks, now);
  }

  /** A time encoded in 32 bits decodes to itself exactly while the clock is near it. */
  lemma LowBitsDecodeIff(time: u64, later: u64)
    ensures ToTime(Integer(time % TWO32), later) == time <==>
      later - TWO31 <= time < later + TWO31 || later - TWO31 <= time - TWO64 || time + TWO64 < later + TWO31
  {
    var low: u32 := time % TWO32;
    ToTicks64Wraps(low, later);
    SameLowBits(time);
    AheadHitsIff(time, low, later);
    AheadHitsIff(time - TWO64, low, later);
    AheadHitsIff(time + TWO64, low, later);
  }

  lemma LowBitsOfSum(now: u64, timeout: nat)
    ensures (now % TWO32 + timeout) % TWO32 == (now + timeout) % TWO32
  {
    var q := now / TWO32;
    assert now + timeout == now % TWO32 + timeout + q * TWO32;
    DropRounds(now % TWO32 + timeout, q);
  }

  lemma DropRounds(x: int, q: int)
    ensures (x + q * TWO32) % TWO32 == x % TWO32
  {
  }

  /** A deadline is faithful: read back at any later time up to 2^31 ticks past it, it is
      now + timeout. */
  lemma DeadlineIsFaithful(now: u64, timeout: u64, later: u64)
    requires now + timeout <= TICKS_MAX
    requires now <= later <= now + timeout + TWO31
    ensures ToTime(PushDeadline(now, timeout), later) == now + timeout
  {
    if timeout <= MAXINTEGER {
      var time: u64 := now + timeout;
      LowBitsOfSum(now, timeout);
      LowBitsDecodeIff(time, later);
    }
  }

  /** Past that it reads as a time in the future again. */
  lemma StaleDeadlineIsMisread(now: u64, timeout: u64)
    requires timeout <= MAXINTEGER && now + timeout <= TICKS_MAX - TWO32
    ensures ToTime(PushDeadline(now, timeout), now + timeout + TWO31 + 1) > now + timeout + TWO31 + 1
  {
    var later: u64, time: u64 := now + timeout + TWO31 + 1, now + timeout + TWO32;
    LowBitsOfSum(now, timeout);
    DropRounds(now + timeout, 1);
    LowBitsDecodeIff(time, later);
  }
}
