/** Packing the labels of a table, pack_hash() of tools/gen/gen.lua: what the lookup of the
    program reads is what was packed. */
module HashPacking {
  import opened Bits
  import opened Int64Arith
  import opened PerfectHash
  import opened Words

  // ----- The number of a table -----

  lemma {:induction false} NumberAt(s: seq<u8>, k: nat, b: u8)
    requires k < |s|
    ensures Number(s[k := b]) == Number(s) + (b - s[k]) * Pow2(8 * k)
    decreases k
  {
    if k == 0 {
      assert s[0 := b][1..] == s[1..];
    } else {
      NumberAt(s[1..], k - 1, b);
      assert s[k := b][1..] == s[1..][k - 1 := b];
      Pow2Is256();
      Pow2Add(8, 8 * (k - 1));
      TimesByte(b - s[k], Pow2(8 * (k - 1)));
    }
  }

  lemma TimesByte(x: int, p: nat)
    ensures x * (256 * p) == 256 * (x * p)
  {
  }

  lemma Pow2Monotone(m: nat, n: nat)
    requires m <= n
    ensures Pow2(m) <= Pow2(n)
  {
    Pow2Add(m, n - m);
    MulMonotone(Pow2(m), 1, Pow2(n - m));
  }

  lemma QuotientBelow(x: nat, p: nat, q: nat)
    requires p > 0 && x < q * p
    ensures 0 <= x / p < q
  {
    var d := x / p;
    assert d * p <= x;
    if d >= q { MulMonotone(p, q, d); }
  }

  /** A number below 2^m leaves the bytes above bit m zero, and fills the one at bit m only up
      to it. */
  lemma HighBytes(s: seq<u8>, m: nat, j: nat)
    requires Number(s) < Pow2(m) && j < |s| && m <= 8 * j + 8
    ensures if m <= 8 * j then s[j] == 0 else s[j] < Pow2(m - 8 * j)
  {
    DropBytes(s, j);
    if m <= 8 * j {
      Pow2Monotone(m, 8 * j);
      QuotientBelow(Number(s), Pow2(8 * j), 1);
    } else {
      Pow2Add(m - 8 * j, 8 * j);
      QuotientBelow(Number(s), Pow2(8 * j), Pow2(m - 8 * j));
    }
  }

  // ----- One label -----

  /** The low byte of a number shifted left. */
  lemma ShiftedByte(x: nat, shift: nat) returns (y: nat)
    requires shift < 8
    ensures (x * Pow2(shift)) % 256 == y * Pow2(shift) && y < Pow2(8 - shift)
  {
    Halves(shift);
    y := LowByte(x, Pow2(shift), Pow2(8 - shift));
  }

  lemma LowByte(x: nat, p: nat, q: nat) returns (y: nat)
    requires p > 0 && q > 0 && p * q == 256
    ensures (x * p) % 256 == y * p && y < q
  {
    var k: nat := x / q;
    y := x - k * q;
    Distribute(k, q, y, p);
    StepBelow(y, q, p);
    Unique(x * p, 256, k, y * p);
  }

  lemma Distribute(k: nat, q: nat, y: nat, p: nat)
    requires p * q == 256
    ensures (k * q + y) * p == y * p + k * 256
  {
    assert (k * q) * p == k * (p * q);
  }

  lemma StepBelow(y: nat, q: nat, p: nat)
    requires y < q
    ensures y * p + p <= q * p
  {
    MulMonotone(p, y + 1, q);
    assert (y + 1) * p == y * p + p;
  }

  /** Putting a byte that is empty below bit `shift` into one that is empty from there on. */
  lemma OrMultiple(low: u8, y: nat, shift: nat, b: nat)
    requires shift < 8 && low < Pow2(shift) && y < Pow2(8 - shift) && b == y * Pow2(shift)
    ensures Or(low, b) == low + b < 256
  {
    OrAdds(low, y, shift);
    Halves(shift);
    FitsByte(low, y, Pow2(shift), Pow2(8 - shift));
  }

  lemma FitsByte(low: nat, y: nat, p: nat, q: nat)
    requires low < p && y < q && p * q == 256
    ensures low + y * p < 256
  {
    StepBelow(y, q, p);
  }

  lemma Halves(shift: nat)
    requires shift < 8
    ensures Pow2(shift) * Pow2(8 - shift) == 256
  {
    Pow2Is256();
    Pow2Add(shift, 8 - shift);
  }

  lemma OrByte(low: u8, x: nat, shift: nat)
    requires shift < 8 && low < Pow2(shift)
    ensures Or(low, (x * Pow2(shift)) % 256) == low + (x * Pow2(shift)) % 256 < 256
  {
    var y := ShiftedByte(x, shift);
    OrMultiple(low, y, shift, (x * Pow2(shift)) % 256);
  }

  lemma ByteFits(v: nat, index: nat, len: nat, total: nat)
    requires 0 < v && v * Pow2(8 * index) <= total < Pow2(8 * len)
    ensures index < len
  {
    if index >= len {
      Pow2Monotone(8 * len, 8 * index);
      MulMonotone(Pow2(8 * index), 1, v);
    }
  }

  lemma TotalFits(n: nat, value: nat, bi: nat, bits: nat, len: nat)
    requires n < Pow2(bi) && value < Pow2(bits) && bi + bits <= 8 * len
    ensures n + value * Pow2(bi) < Pow2(bi + bits) <= Pow2(8 * len)
  {
    Pow2Add(bits, bi);
    Pow2Monotone(bi + bits, 8 * len);
    MulMonotone(Pow2(bi), value + 1, Pow2(bits));
    assert (value + 1) * Pow2(bi) == value * Pow2(bi) + Pow2(bi);
  }

  lemma ShiftedStart(value: nat, bi: nat)
    ensures (value * Pow2(bi % 8)) * Pow2(8 * (bi / 8)) == value * Pow2(bi)
  {
    Pow2Add(bi % 8, 8 * (bi / 8));
    assert (value * Pow2(bi % 8)) * Pow2(8 * (bi / 8)) == value * (Pow2(bi % 8) * Pow2(8 * (bi / 8)));
  }

  lemma ByteMoves(v: nat, index: nat)
    ensures (v % 256) * Pow2(8 * index) + (v / 256) * Pow2(8 * (index + 1)) == v * Pow2(8 * index)
  {
    Pow2Is256();
    Pow2Add(8, 8 * index);
    var p := Pow2(8 * index);
    assert (v / 256) * (256 * p) == ((v / 256) * 256) * p;
    assert v == v % 256 + (v / 256) * 256;
  }

  /** What the byte at `index` is before the rest `v` of a label goes there. */
  predicate Room(b: u8, v: nat, value: nat, bi: nat, index: nat) {
    if index == bi / 8 then b < Pow2(bi % 8) && v == value * Pow2(bi % 8) else b == 0
  }

  lemma RoomOr(b: u8, v: nat, value: nat, bi: nat, index: nat)
    requires Room(b, v, value, bi, index)
    ensures Or(b, v % 256) == b + v % 256 < 256
  {
    if index == bi / 8 { OrByte(b, value, bi % 8); } else { OrZero(v % 256); }
  }

  lemma RoomBefore(s: seq<u8>, bi: nat, index: nat)
    requires Number(s) < Pow2(bi) && bi / 8 <= index < |s|
    ensures if index == bi / 8 then s[index] < Pow2(bi % 8) else s[index] == 0
  {
    HighBytes(s, bi, index);
  }

  /** Lines 243-250. */
  method PutLabel(data: array<u8>, value: nat, bi: nat, ghost bits: nat)
    requires Number(data[..]) < Pow2(bi) && value < Pow2(bits) && bi + bits <= 8 * data.Length
    modifies data
    ensures Number(data[..]) == old(Number(data[..])) + value * Pow2(bi)
  {
    ghost var was := data[..];
    ghost var total: nat := Number(was) + value * Pow2(bi);
    var v: nat, index: nat := value * Pow2(bi % 8), bi / 8;
    ShiftedStart(value, bi);
    TotalFits(Number(was), value, bi, bits, data.Length);
    while v != 0
      invariant bi / 8 <= index && data.Length == |was|
      invariant Number(data[..]) + v * Pow2(8 * index) == total
      invariant forall j :: index <= j < data.Length ==> data[j] == was[j]
      invariant index == bi / 8 ==> v == value * Pow2(bi % 8)
      decreases v
    {
      v, index := PutByte(data, v, index, value, bi, was, total);
    }
  }

  method PutByte(data: array<u8>, v: nat, index: nat,
                 ghost value: nat, ghost bi: nat, ghost was: seq<u8>, ghost total: nat)
    returns (rest: nat, next: nat)
    requires bi / 8 <= index && data.Length == |was| && Number(was) < Pow2(bi) && v != 0
    requires Number(data[..]) + v * Pow2(8 * index) == total < Pow2(8 * data.Length)
    requires forall j :: index <= j < data.Length ==> data[j] == was[j]
    requires index == bi / 8 ==> v == value * Pow2(bi % 8)
    modifies data
    ensures rest == v / 256 && next == index + 1 && rest < v
    ensures Number(data[..]) + rest * Pow2(8 * next) == total
    ensures forall j :: next <= j < data.Length ==> data[j] == was[j]
  {
    ByteFits(v, index, data.Length, total);
    RoomBefore(was, bi, index);
    RoomOr(data[index], v, value, bi, index);
    NumberAt(data[..], index, data[index] + v % 256);
    ghost var before := data[..];
    data[index] := Or(data[index], v % 256);
    assert data[..] == before[index := before[index] + v % 256];
    ByteMoves(v, index);
    rest, next := v / 256, index + 1;
  }

  // ----- The table -----

  lemma {:induction false} PackedNext(labels: seq<nat>, bits: nat, i: nat)
    requires i < |labels|
    ensures Packed(labels[..i + 1], bits) == Packed(labels[..i], bits) + labels[i] * Pow2(i * bits)
    decreases i
  {
    if i == 0 {
      assert labels[..1][1..] == [] && labels[..1][0] == labels[0] && labels[..0] == [];
    } else {
      PackedNext(labels[1..], bits, i - 1);
      assert labels[..i + 1][1..] == labels[1..][..i] && labels[..i][1..] == labels[1..][..i - 1];
      assert i * bits == bits + (i - 1) * bits;
      Pow2Add(bits, (i - 1) * bits);
      Spread(Pow2(bits), Packed(labels[1..][..i - 1], bits), labels[i], Pow2((i - 1) * bits));
    }
  }

  lemma Spread(p: int, a: int, b: int, q: int)
    ensures p * (a + b * q) == p * a + b * (p * q)
  {
    assert p * (b * q) == b * (p * q);
  }

  lemma {:induction false} PackedFits(labels: seq<nat>, bits: nat, i: nat)
    requires Labels(labels, bits) && i <= |labels|
    ensures Packed(labels[..i], bits) < Pow2(i * bits)
    decreases i
  {
    if i > 0 {
      PackedFits(labels, bits, i - 1);
      PackedNext(labels, bits, i - 1);
      assert i * bits == (i - 1) * bits + bits;
      TotalFits(Packed(labels[..i - 1], bits), labels[i - 1], (i - 1) * bits, bits, i * bits);
    }
  }

  lemma {:induction false} ZerosAreZero(s: seq<u8>)
    requires forall i :: 0 <= i < |s| ==> s[i] == 0
    ensures Number(s) == 0
  {
    if s != [] { ZerosAreZero(s[1..]); }
  }

  /** pack_hash() at line 237, for the labels of a table: the bytes hold them all. */
  method PackHash(labels: seq<nat>, bits: nat) returns (data: array<u8>)
    requires bits > 0 && Labels(labels, bits)
    ensures fresh(data) && Holds(data[..], labels, bits)
  {
    data := new u8[(|labels| * bits + 7) / 8](_ => 0);
    ZerosAreZero(data[..]);
    assert labels[..0] == [];
    for i := 0 to |labels|
      invariant Number(data[..]) == Packed(labels[..i], bits)
      invariant |labels| * bits <= 8 * data.Length
    {
      PackedFits(labels, bits, i);
      PackedNext(labels, bits, i);
      EntryFits(i, |labels|, bits);
      PutLabel(data, labels[i], i * bits, bits);
    }
    assert labels[..|labels|] == labels;
  }
}
