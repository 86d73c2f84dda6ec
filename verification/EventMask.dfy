/** Waiting for several events at once: a mask says which events of an array are meant,
    and the multi-event operations step from one set bit to the next. */
module EventMask {
  import opened Bits

  predicate Bit(mask: nat, i: nat) {
    if i == 0 then mask % 2 == 1 else Bit(mask / 2, i - 1)
  }

  /** The positions of the set bits of `mask`, counted from `base`, in ascending order. */
  function Positions(mask: nat, base: nat): seq<nat> {
    if mask == 0 then []
    else (if mask % 2 == 1 then [base] else []) + Positions(mask / 2, base + 1)
  }

  lemma {:induction false} PositionsAreSetBits(mask: nat, base: nat)
    ensures forall i | i in Positions(mask, base) :: i >= base && Bit(mask, i - base)
    ensures forall i: nat :: Bit(mask, i) ==> base + i in Positions(mask, base)
  {
    if mask == 0 {
      forall i: nat ensures !Bit(0, i) { ZeroHasNoBits(i); }
    } else {
      PositionsAreSetBits(mask / 2, base + 1);
      forall i: nat | Bit(mask, i) ensures base + i in Positions(mask, base) {
        if i > 0 {
          assert Bit(mask / 2, i - 1);
          assert (base + 1) + (i - 1) in Positions(mask / 2, base + 1);
        }
      }
    }
  }

  lemma {:induction false} ZeroHasNoBits(i: nat)
    ensures !Bit(0, i)
  {
    if i > 0 { ZeroHasNoBits(i - 1); }
  }

  lemma {:induction false} PositionsAscend(mask: nat, base: nat)
    ensures forall i, j :: 0 <= i < j < |Positions(mask, base)| ==>
      Positions(mask, base)[i] < Positions(mask, base)[j]
  {
    if mask != 0 {
      PositionsAscend(mask / 2, base + 1);
      PositionsAreSetBits(mask / 2, base + 1);
      var rest := Positions(mask / 2, base + 1);
      forall i | 0 <= i < |rest| ensures rest[i] > base { assert rest[i] in rest; }
    }
  }

  /** The number of trailing zero bits. */
  function Ctz(mask: nat): nat
    requires mask != 0
  {
    if mask % 2 == 1 then 0 else 1 + Ctz(mask / 2)
  }

  function Shift(mask: nat, n: nat): nat {
    if n == 0 then mask else Shift(mask / 2, n - 1)
  }

  lemma {:induction false} FirstPosition(mask: nat, base: nat)
    requires mask != 0
    ensures Positions(mask, base) ==
      [base + Ctz(mask)] + Positions(Shift(mask, Ctz(mask) + 1), base + Ctz(mask) + 1)
  {
    if mask % 2 == 0 {
      FirstPosition(mask / 2, base + 1);
    } else {
      assert Shift(mask, 1) == mask / 2;
    }
  }

  lemma {:induction false} ShiftShrinks(mask: nat, n: nat)
    ensures Shift(mask, n) <= mask && (mask > 0 && n > 0 ==> Shift(mask, n) < mask)
  {
    if n > 0 { ShiftShrinks(mask / 2, n - 1); }
  }

  lemma {:induction false} CtzBelow(mask: nat, n: nat)
    requires 0 < mask < Pow2(n)
    ensures Ctz(mask) < n && Shift(mask, Ctz(mask) + 1) < Pow2(n - 1 - Ctz(mask))
  {
    if mask % 2 == 0 {
      CtzBelow(mask / 2, n - 1);
    } else {
      assert Shift(mask, 1) == mask / 2;
    }
  }

  /** mlua_event_multi(): the first event and the mask of the ones after it. A mask with
      only bit 31 set would be shifted by the width of its type. */
  method Multi(mask: nat) returns (first: nat, rest: nat)
    requires 0 < mask < Pow2(32) && mask != Pow2(31)
    ensures rest < Pow2(31)
    ensures [first] + Positions(rest, first + 1) == Positions(mask, 0)
  {
    var bit := Ctz(mask);
    FirstPosition(mask, 0);
    CtzBelow(mask, 32);
    first, rest := bit, Shift(mask, bit + 1);
    if bit == 0 {
      assert Pow2(31 - bit) == Pow2(31);
    } else {
      Pow2Monotone(31 - bit, 31);
    }
  }

  lemma {:induction false} Pow2Monotone(m: nat, n: nat)
    requires m <= n
    ensures Pow2(m) <= Pow2(n)
    decreases n - m
  {
    if m < n { Pow2Monotone(m, n - 1); }
  }

  lemma MoveOver(a: seq<nat>, x: nat, b: seq<nat>)
    ensures a + ([x] + b) == (a + [x]) + b
  {
  }

  /** watch_events(), unwatch_events() and mlua_event_can_wait() visit the first event and
      then exactly the events whose bit is set, in order, each once. */
  method Visit(first: nat, mask: nat) returns (visited: seq<nat>)
    requires mask < Pow2(31)
    ensures visited == [first] + Positions(mask, first + 1)
  {
    var ev: nat, m: nat := first, mask;
    visited := [ev];
    while m != 0
      invariant m < Pow2(31)
      invariant visited + Positions(m, ev + 1) == [first] + Positions(mask, first + 1)
      decreases m
    {
      var bit := Ctz(m) + 1;
      FirstPosition(m, ev + 1);
      CtzBelow(m, 31);
      ShiftShrinks(m, bit);
      ghost var rest := Positions(Shift(m, bit), ev + bit + 1);
      MoveOver(visited, ev + bit, rest);
      ev, m := ev + bit, Shift(m, bit);
      visited := visited + [ev];
    }
    assert visited + Positions(0, ev + 1) == visited;
  }

  /** Together: waiting on a mask watches the events whose bit is set, no other, each once. */
  method VisitMask(mask: nat) returns (visited: seq<nat>)
    requires 0 < mask < Pow2(32) && mask != Pow2(31)
    ensures forall i: nat :: i in visited <==> Bit(mask, i)
    ensures forall i, j :: 0 <= i < j < |visited| ==> visited[i] < visited[j]
  {
    var first, rest := Multi(mask);
    visited := Visit(first, rest);
    PositionsAreSetBits(mask, 0);
    PositionsAscend(mask, 0);
    assert forall i: nat :: Bit(mask, i) ==> 0 + i in visited;
  }
}
