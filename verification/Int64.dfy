/** 64-bit integer arithmetic of lib/common/mlua.int64.c. */
module Int64Arith {
  import opened Bits
  import opened Words

  const MIN: int := -TWO63

  /** The casts between int64_t and uint64_t. */
  function Unsigned(x: i64): u64 { if x < 0 then x + TWO64 else x }

  function Signed(x: u64): i64 { if x < TWO63 then x else x - TWO64 }

  /** Unsigned arithmetic, read as signed. */
  function Wrap(x: int): i64 { Signed(x % TWO64) }

  /** C division and remainder, which truncate towards zero. */
  function Abs(x: int): nat { if x < 0 then -x else x }

  function CDiv(a: int, b: int): int
    requires b != 0
  {
    var q := Abs(a) / Abs(b);
    if (a < 0) == (b < 0) then q else -q
  }

  function CRem(a: int, b: int): int
    requires b != 0
  {
    var r := Abs(a) % Abs(b);
    if a < 0 then -r else r
  }

  lemma DivBounds(a: nat, b: nat)
    requires b > 0
    ensures a / b >= 0 && a % b < b && (a / b) * b + a % b == a
    ensures b == 1 ==> a / b == a && a % b == 0
    ensures b > 1 ==> (a / b) * 2 <= a
  {
    var q: nat := a / b;
    if b > 1 { assert q * 2 <= q * b by { MulMonotone(q, 2, b); } }
  }

  lemma MulMonotone(q: nat, m: int, n: int)
    requires m <= n
    ensures q * m <= q * n
  {
  }

  lemma WrapSmall(x: int)
    requires -TWO63 <= x < TWO63
    ensures Wrap(x) == x
  {
  }

  /** The condition (lhs ^ rhs) < 0. */
  predicate SignsDiffer(a: i64, b: i64) { (a < 0) != (b < 0) }

  datatype Result = Value(value: i64) | DivisionByZero

  /** The operands of the C operators, with the one case that overflows left out. */
  lemma CDivFits(lhs: i64, rhs: i64)
    requires rhs != 0 && rhs != -1
    ensures -TWO63 <= CDiv(lhs, rhs) < TWO63 && Abs(CRem(lhs, rhs)) < Abs(rhs)
    ensures CRem(lhs, rhs) != 0 ==> -TWO63 < CDiv(lhs, rhs)
  {
    DivBounds(Abs(lhs), Abs(rhs));
  }

  /** int64___idiv() at line 308. */
  function FloorDivide(lhs: i64, rhs: i64): Result {
    if rhs == 0 then DivisionByZero
    else if rhs == -1 then Value(Wrap(0 - lhs))
    else
      CDivFits(lhs, rhs);
      if SignsDiffer(lhs, rhs) && CRem(lhs, rhs) != 0 then Value(CDiv(lhs, rhs) - 1)
      else Value(CDiv(lhs, rhs))
  }

  /** int64___mod() at line 324. */
  function FloorModulo(lhs: i64, rhs: i64): Result {
    if rhs == 0 then DivisionByZero
    else if rhs == -1 then Value(0)
    else
      CDivFits(lhs, rhs);
      var res := CRem(lhs, rhs);
      if res != 0 && SignsDiffer(lhs, rhs) then Value(res + rhs) else Value(res)
  }

  /** `q` and `r` are the quotient rounded down and its remainder. */
  predicate IsFloor(a: int, b: int, q: int, r: int) {
    a == q * b + r && if b > 0 then 0 <= r < b else b < r <= 0
  }

  lemma FloorUnique(a: int, b: int, q: int, r: int, p: int, s: int)
    requires b != 0 && IsFloor(a, b, q, r) && IsFloor(a, b, p, s)
    ensures q == p && r == s
  {
    assert (q - p) * b == s - r;
    if q > p { MulAtLeast(q - p, b); }
    if p > q {
      assert (p - q) * b == r - s;
      MulAtLeast(p - q, b);
    }
  }

  lemma MulAtLeast(n: int, b: int)
    requires n >= 1
    ensures if b >= 0 then n * b >= b else n * b <= b
  {
  }

  /** The rounding fixes turn the truncated quotient into the rounded down one. */
  lemma FloorFromTruncation(lhs: int, rhs: int) returns (q: int, r: int)
    requires rhs != 0
    ensures IsFloor(lhs, rhs, q, r)
    ensures q == if (lhs < 0) != (rhs < 0) && CRem(lhs, rhs) != 0 then CDiv(lhs, rhs) - 1 else CDiv(lhs, rhs)
    ensures r == if CRem(lhs, rhs) != 0 && (lhs < 0) != (rhs < 0) then CRem(lhs, rhs) + rhs else CRem(lhs, rhs)
  {
    var a, b := Abs(lhs), Abs(rhs);
    DivBounds(a, b);
    var d: int, m: int := a / b, a % b;
    var fix := m != 0 && (lhs < 0) != (rhs < 0);
    q, r := CDiv(lhs, rhs) - (if fix then 1 else 0), CRem(lhs, rhs) + (if fix then rhs else 0);
    assert CDiv(lhs, rhs) * rhs + CRem(lhs, rhs) == lhs by { SignedProduct(d, b, lhs, rhs); }
    if fix { assert (CDiv(lhs, rhs) - 1) * rhs == CDiv(lhs, rhs) * rhs - rhs; }
  }

  /** d * |rhs| with the signs put back. */
  lemma SignedProduct(d: int, b: nat, lhs: int, rhs: int)
    requires b == Abs(rhs)
    ensures (if (lhs < 0) == (rhs < 0) then d else -d) * rhs == if lhs < 0 then -(d * b) else d * b
  {
    if rhs < 0 { assert d * rhs == -(d * b) && -d * rhs == d * b; } else { assert -d * rhs == -(d * b); }
  }

  /** Floor division and modulo are the quotient rounded down and its remainder; only the
      quotient of the smallest value by -1 does not fit, and wraps. */
  lemma QuotientIsFloor(lhs: i64, rhs: i64) returns (q: int, r: int)
    requires rhs != 0
    ensures IsFloor(lhs, rhs, q, r)
    ensures FloorDivide(lhs, rhs) == Value(Wrap(q)) && FloorModulo(lhs, rhs) == Value(r)
    ensures -TWO63 <= q < TWO63 || (lhs == MIN && rhs == -1 && q == TWO63)
  {
    q, r := FloorFromTruncation(lhs, rhs);
    if rhs == -1 {
      FloorUnique(lhs, rhs, q, r, 0 - lhs, 0);
    } else {
      CDivFits(lhs, rhs);
      WrapSmall(q);
    }
  }

  /** For all operands: an error for zero, the smallest value for the one quotient that does
      not fit, and otherwise the quotient rounded down, with its remainder. */
  lemma DivideIsFloor(lhs: i64, rhs: i64)
    ensures rhs == 0 <==> FloorDivide(lhs, rhs) == DivisionByZero
    ensures rhs == 0 <==> FloorModulo(lhs, rhs) == DivisionByZero
    ensures rhs != 0 && !(lhs == MIN && rhs == -1) ==>
      IsFloor(lhs, rhs, FloorDivide(lhs, rhs).value, FloorModulo(lhs, rhs).value)
    ensures lhs == MIN && rhs == -1 ==> FloorDivide(lhs, rhs) == Value(MIN) && FloorModulo(lhs, rhs) == Value(0)
  {
    if rhs != 0 {
      var q, r := QuotientIsFloor(lhs, rhs);
      if q < TWO63 { WrapSmall(q); }
    }
  }

  /** (a // b) * b + a % b is a, modulo 2^64, and the remainder is zero or has the sign of b and
      is smaller; modulo 2^64 counts only for the smallest value divided by -1. */
  lemma DivModIdentity(lhs: i64, rhs: i64)
    requires rhs != 0
    ensures FloorDivide(lhs, rhs).Value? && FloorModulo(lhs, rhs).Value?
    ensures var q, r := FloorDivide(lhs, rhs).value, FloorModulo(lhs, rhs).value;
      && Wrap(q * rhs + r) == lhs
      && (r == 0 || (r < 0) == (rhs < 0)) && Abs(r) < Abs(rhs)
      && (q * rhs + r == lhs <==> !(lhs == MIN && rhs == -1))
  {
    DivideIsFloor(lhs, rhs);
    WrapSmall(lhs);
  }

  // ----- Shifts -----

  /** One bit positions: left, right filling with zero, right filling with the sign bit. */
  function Left(x: u64): u64 { (x * 2) % TWO64 }

  function Right(x: u64): u64 { x / 2 }

  function RightSigned(x: u64): u64 { x / 2 + (if x >= TWO63 then TWO63 else 0) }

  function LeftBy(x: u64, n: nat): u64
    decreases n
  {
    if n == 0 then x else LeftBy(Left(x), n - 1)
  }

  function RightBy(x: u64, n: nat): u64
    decreases n
  {
    if n == 0 then x else RightBy(Right(x), n - 1)
  }

  function RightSignedBy(x: u64, n: nat): u64
    decreases n
  {
    if n == 0 then x else RightSignedBy(RightSigned(x), n - 1)
  }

  /** shift_left() at line 207. The count -2^63 cannot be negated. */
  function ShiftLeft(lhs: i64, rhs: i64, arith: bool): i64
    requires rhs != MIN
  {
    if rhs >= 64 then 0
    else if rhs >= 0 then Signed(LeftBy(Unsigned(lhs), rhs))
    else if 0 - rhs >= 64 then (if arith && lhs < 0 then -1 else 0)
    else if arith then Signed(RightSignedBy(Unsigned(lhs), 0 - rhs))
    else Signed(RightBy(Unsigned(lhs), 0 - rhs))
  }

  lemma {:induction false} ArithmeticRight(x: u64, n: nat)
    ensures Signed(RightSignedBy(x, n)) == Signed(x) / Pow2(n)
    decreases n
  {
    if n > 0 {
      ArithmeticRight(RightSigned(x), n - 1);
      assert Signed(RightSigned(x)) == Signed(x) / 2;
      HalfThenDiv(Signed(x), Pow2(n - 1));
    }
  }

  lemma {:induction false} LogicalRight(x: u64, n: nat)
    ensures RightBy(x, n) == x / Pow2(n)
    decreases n
  {
    if n > 0 {
      LogicalRight(Right(x), n - 1);
      HalfThenDiv(x, Pow2(n - 1));
    }
  }

  lemma {:induction false} LeftMultiplies(x: u64, n: nat)
    ensures LeftBy(x, n) == (x * Pow2(n)) % TWO64
    decreases n
  {
    if n > 0 {
      LeftMultiplies(Left(x), n - 1);
      ModMul(x * 2, Pow2(n - 1));
      DoubleFirst(x, Pow2(n - 1));
    }
  }

  lemma DoubleFirst(x: int, p: int)
    ensures x * 2 * p == x * (2 * p)
  {
  }

  lemma HalfThenDiv(x: int, b: int)
    requires b > 0
    ensures (x / 2) / b == x / (2 * b)
  {
    var y, q, t := x / 2, (x / 2) / b, (x / 2) % b;
    assert y == q * b + t && x == 2 * y + x % 2;
    assert x == q * (2 * b) + (2 * t + x % 2);
    DivUnique(x, 2 * b, q, 2 * t + x % 2);
  }

  lemma DivUnique(x: int, d: int, q: int, r: int)
    requires d > 0 && x == q * d + r && 0 <= r < d
    ensures x / d == q
  {
    FloorUnique(x, d, x / d, x % d, q, r);
  }

  lemma ModMul(x: int, k: nat)
    ensures ((x % TWO64) * k) % TWO64 == (x * k) % TWO64
  {
    var q, r := x / TWO64, x % TWO64;
    assert x * k == r * k + (q * k) * TWO64;
    ModAdd(r * k, q * k);
  }

  lemma ModAdd(x: int, n: int)
    ensures (x + n * TWO64) % TWO64 == x % TWO64
  {
  }

  lemma Pow2Add(m: nat, n: nat)
    ensures Pow2(m + n) == Pow2(m) * Pow2(n)
  {
    if m > 0 { Pow2Add(m - 1, n); }
  }

  lemma Pow2Square(n: nat, v: nat)
    requires Pow2(n) == v
    ensures Pow2(n + n) == v * v
  {
    Pow2Add(n, n);
  }

  lemma Pow2Is64()
    ensures Pow2(64) == TWO64
  {
    Pow2Square(0, 1);
    var two := 1;
    assert Pow2(two) == 2 * Pow2(two - 1);
    Pow2Square(two, 2);
    Pow2Square(2 * two, 4);
    Pow2Square(4 * two, 16);
    Pow2Square(8 * two, 256);
    Pow2Square(16 * two, 65536);
    Pow2Square(32 * two, 0x1_0000_0000);
  }

  lemma BeyondWidth(n: nat) returns (m: nat)
    requires n >= 64
    ensures m > 0 && Pow2(n) == TWO64 * m
  {
    Pow2Is64();
    Pow2Add(64, n - 64);
    m := Pow2(n - 64);
  }

  lemma DivByMore(x: int, d: int)
    requires -d <= x < d && d > 0
    ensures x / d == if x < 0 then -1 else 0
  {
    DivUnique(x, d, if x < 0 then -1 else 0, if x < 0 then x + d else x);
  }

  lemma UnsignedIsMod(x: i64)
    ensures Unsigned(x) == x % TWO64
  {
  }

  /** For every count the shift means what multiplying or dividing by a power of two means:
      left shifts wrap, arithmetic right shifts round down, logical right shifts divide
      the unsigned value. */
  lemma ShiftMeaning(lhs: i64, rhs: i64, arith: bool)
    requires rhs != MIN
    ensures rhs >= 0 ==> ShiftLeft(lhs, rhs, arith) == Wrap(lhs * Pow2(rhs))
    ensures rhs < 0 && arith ==> ShiftLeft(lhs, rhs, arith) == lhs / Pow2(0 - rhs)
    ensures rhs < 0 && !arith ==>
      Unsigned(ShiftLeft(lhs, rhs, arith)) == Unsigned(lhs) / Pow2(0 - rhs)
  {
    var n: nat := Abs(rhs);
    if n >= 64 {
      var m := BeyondWidth(n);
      assert TWO64 * m >= TWO64;
      if rhs >= 0 {
        assert lhs * (TWO64 * m) == 0 + (lhs * m) * TWO64;
        ModAdd(0, lhs * m);
      } else {
        DivByMore(lhs, TWO64 * m);
        DivByMore(Unsigned(lhs), TWO64 * m);
      }
    } else if rhs >= 0 {
      LeftMultiplies(Unsigned(lhs), n);
      UnsignedIsMod(lhs);
      ModMul(lhs, Pow2(n));
    } else {
      ArithmeticRight(Unsigned(lhs), n);
      LogicalRight(Unsigned(lhs), n);
    }
  }
}
