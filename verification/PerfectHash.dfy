/** Symbol lookup by perfect hashing, core/module.c. The table of labels is packed, `bits`
    bits per label, in little-endian order. */
module PerfectHash {
  import opened Bits
  import opened Hashing
  import opened Int64Arith
  import opened Words

  /** The number that the bytes of a table form, least significant byte first. */
  function Number(g: seq<u8>): nat {
    if g == [] then 0 else g[0] + 256 * Number(g[1..])
  }

  /** Entry `index` of the number `n` cut into pieces of `bits` bits. */
  function Entry(n: nat, index: nat, bits: nat): nat {
    (n / Pow2(index * bits)) % Pow2(bits)
  }

  /** lookup_g() at line 271. */
  function Lookup(g: seq<u8>, index: nat, bits: nat): nat
    requires bits <= 17 && index * bits + bits <= 8 * |g|
  {
    if bits == 0 then 0
    else
      var bi := index * bits;
      var t, shift := g[bi / 8..], bi % 8;
      And(Shr(Joined(t, bits + shift), shift), Pow2(bits) - 1)
  }

  /** The bytes that hold the bits below `be`, put together with shifts and |. */
  function Joined(t: seq<u8>, be: nat): nat
    requires be <= 24 && be <= 8 * |t| && t != []
  {
    if be <= 8 then t[0]
    else if be <= 16 then Or(t[0], t[1] * Pow2(8))
    else Or(Or(t[0], t[1] * Pow2(8)), t[2] * Pow2(16))
  }

  lemma {:induction false} ShiftTwice(x: int, m: nat, n: nat)
    ensures x / Pow2(m + n) == (x / Pow2(m)) / Pow2(n)
    decreases m
  {
    if m > 0 {
      ShiftTwice(x / 2, m - 1, n);
      HalfThenDiv(x, Pow2(m - 1 + n));
      HalfThenDiv(x, Pow2(m - 1));
    }
  }

  lemma Pow2Is256()
    ensures Pow2(8) == 256 && Pow2(16) == 65536 && Pow2(24) == 0x100_0000
  {
    assert Pow2(4) == 16;
    Pow2Add(4, 4);
    Pow2Add(8, 8);
    Pow2Add(8, 16);
  }

  /** Dropping bytes is shifting by whole bytes. */
  lemma {:induction false} DropBytes(g: seq<u8>, k: nat)
    requires k <= |g|
    ensures Number(g) / Pow2(8 * k) == Number(g[k..])
    decreases k
  {
    if k == 0 {
      assert g[0..] == g;
    } else {
      Pow2Is256();
      ShiftTwice(Number(g), 8, 8 * (k - 1));
      assert Number(g) / 256 == Number(g[1..]);
      DropBytes(g[1..], k - 1);
      assert g[1..][k - 1..] == g[k..];
    }
  }

  /** Bits above the ones asked for do not matter. */
  lemma HighBitsIgnored(n: nat, low: nat, high: nat, width: nat, shift: nat, bits: nat)
    requires shift + bits <= width && n == low + high * Pow2(width)
    ensures (n / Pow2(shift)) % Pow2(bits) == (low / Pow2(shift)) % Pow2(bits)
  {
    SplitWidth(width, shift, bits);
    HighPartIgnored(low, high, Pow2(shift), Pow2(bits), Pow2(width - shift - bits));
  }

  lemma SplitWidth(width: nat, shift: nat, bits: nat)
    requires shift + bits <= width
    ensures Pow2(width) == Pow2(shift) * (Pow2(bits) * Pow2(width - shift - bits))
  {
    Pow2Add(shift, width - shift);
    Pow2Add(bits, width - shift - bits);
  }

  lemma HighPartIgnored(low: int, high: int, p: int, q: int, r: int)
    requires p > 0 && q > 0
    ensures ((low + high * (p * (q * r))) / p) % q == (low / p) % q
  {
    ScaleUp(high, p, q, r);
    AddMultiple(low, (high * r) * q, p);
    ModMultiple(low / p, high * r, q);
  }

  lemma ScaleUp(h: int, p: int, q: int, r: int)
    ensures h * (p * (q * r)) == ((h * r) * q) * p
  {
    calc {
      h * (p * (q * r));
      (h * (q * r)) * p;
      { assert h * (q * r) == (h * r) * q; }
      ((h * r) * q) * p;
    }
  }

  lemma AddMultiple(x: int, k: int, p: int)
    requires p > 0
    ensures (x + k * p) / p == x / p + k
  {
    assert x + k * p == (x / p + k) * p + x % p;
    DivUnique(x + k * p, p, x / p + k, x % p);
  }

  lemma ModMultiple(x: int, k: int, q: int)
    requires q > 0
    ensures (x + k * q) % q == x % q
  {
    AddMultiple(x, k, q);
    assert (x + k * q) == ((x + k * q) / q) * q + (x + k * q) % q;
    assert (x / q + k) * q == (x / q) * q + k * q;
  }

  /** The number those bytes form. */
  function FirstBytes(t: seq<u8>, be: nat): nat
    requires be <= 24 && be <= 8 * |t| && t != []
  {
    t[0] + (if be > 8 then (t[1] as int) * 256 else 0) + (if be > 16 then (t[2] as int) * 65536 else 0)
  }

  lemma JoinedIsNumber(t: seq<u8>, be: nat)
    requires be <= 24 && be <= 8 * |t| && t != []
    ensures Joined(t, be) == FirstBytes(t, be)
  {
    Pow2Is256();
    if be > 8 {
      OrAdds(t[0], t[1], 8);
      var low: nat := t[0] + t[1] * Pow2(8);
      if be > 16 { OrAdds(low, t[2], 16); }
    }
  }

  /** The first bytes of a table and the rest of it, as numbers. */
  lemma SplitNumber(t: seq<u8>, be: nat) returns (high: nat, width: nat)
    requires be <= 24 && be <= 8 * |t| && t != []
    ensures be <= width && Number(t) == FirstBytes(t, be) + high * Pow2(width)
  {
    Pow2Is256();
    assert Number(t) == t[0] + 256 * Number(t[1..]);
    if be <= 8 {
      high, width := Number(t[1..]), 8;
    } else {
      assert t[1..][1..] == t[2..] && Number(t[1..]) == t[1] + 256 * Number(t[2..]);
      if be <= 16 {
        high, width := Number(t[2..]), 16;
      } else {
        assert t[2..][1..] == t[3..] && Number(t[2..]) == t[2] + 256 * Number(t[3..]);
        high, width := Number(t[3..]), 24;
      }
    }
  }

  /** The bytes that the lookup reads hold all the bits that count. */
  lemma FewBytesSuffice(t: seq<u8>, shift: nat, bits: nat)
    requires shift < 8 && 1 <= bits <= 17 && shift + bits <= 8 * |t|
    ensures (Number(t) / Pow2(shift)) % Pow2(bits) == (FirstBytes(t, shift + bits) / Pow2(shift)) % Pow2(bits)
  {
    var high, width := SplitNumber(t, shift + bits);
    HighBitsIgnored(Number(t), FirstBytes(t, shift + bits), high, width, shift, bits);
  }

  /** The lookup in the bytes `t` that start with the one that holds the first bit. */
  lemma LookupReads(t: seq<u8>, shift: nat, bits: nat)
    requires shift < 8 && 1 <= bits <= 17 && shift + bits <= 8 * |t|
    ensures And(Shr(Joined(t, bits + shift), shift), Pow2(bits) - 1) == (Number(t) / Pow2(shift)) % Pow2(bits)
  {
    FewBytesSuffice(t, shift, bits);
    JoinedIsNumber(t, shift + bits);
    AndMask(Shr(Joined(t, bits + shift), shift), bits);
  }

  /** The packed lookup reads the entry of the number, whatever its alignment. */
  lemma LookupIsEntry(g: seq<u8>, index: nat, bits: nat)
    requires 1 <= bits <= 17 && index * bits + bits <= 8 * |g|
    ensures Lookup(g, index, bits) == Entry(Number(g), index, bits)
  {
    var bi := index * bits;
    var off, shift := bi / 8, bi % 8;
    ShiftTwice(Number(g), 8 * off, shift);
    DropBytes(g, off);
    LookupReads(g[off..], shift, bits);
  }

  // ----- Packed labels -----

  predicate Labels(labels: seq<nat>, bits: nat) {
    forall i :: 0 <= i < |labels| ==> labels[i] < Pow2(bits)
  }

  /** The number whose entries are the labels. */
  function Packed(labels: seq<nat>, bits: nat): nat {
    if labels == [] then 0 else labels[0] + Pow2(bits) * Packed(labels[1..], bits)
  }

  lemma {:induction false} PackedEntry(labels: seq<nat>, bits: nat, i: nat)
    requires Labels(labels, bits) && i < |labels|
    ensures Entry(Packed(labels, bits), i, bits) == labels[i]
    decreases i
  {
    var p, rest := Pow2(bits), Packed(labels[1..], bits);
    AddMultiple(labels[0], rest, p);
    DivUnique(labels[0], p, 0, labels[0]);
    if i == 0 {
      ModMultiple(labels[0], rest, p);
    } else {
      assert i * bits == bits + (i - 1) * bits;
      ShiftTwice(Packed(labels, bits), bits, (i - 1) * bits);
      assert Labels(labels[1..], bits);
      PackedEntry(labels[1..], bits, i - 1);
    }
  }

  /** `g` holds the labels, `bits` bits each. */
  predicate Holds(g: seq<u8>, labels: seq<nat>, bits: nat) {
    Labels(labels, bits) && Number(g) == Packed(labels, bits) && |labels| * bits <= 8 * |g|
  }

  lemma EntryFits(i: nat, n: nat, bits: nat)
    requires i < n
    ensures i * bits + bits <= n * bits
  {
    assert (n - 1 - i) * bits >= 0;
    assert n * bits == i * bits + bits + (n - 1 - i) * bits;
  }

  lemma LookupIsLabel(g: seq<u8>, labels: seq<nat>, i: nat, bits: nat)
    requires bits <= 17 && Holds(g, labels, bits) && i < |labels|
    ensures i * bits + bits <= 8 * |g| && Lookup(g, i, bits) == labels[i]
  {
    EntryFits(i, |labels|, bits);
    if bits == 0 {
      assert labels[i] < Pow2(0);
    } else {
      LookupIsEntry(g, i, bits);
      PackedEntry(labels, bits, i);
    }
  }

  // ----- The hash -----

  datatype SymHash = SymHash(g: seq<u8>, seed1: bv32, seed2: bv32, nkeys: nat, ng: nat, bits: nat)

  predicate Ready(h: SymHash) {
    h.nkeys > 0 && h.ng > 0 && h.bits <= 17 && h.ng * h.bits <= 8 * |h.g|
  }

  /** perfect_hash() at line 285. */
  method ComputePerfectHash(text: seq<bv32>, h: SymHash) returns (k: nat)
    requires Ready(h) && 0 in text
    ensures k < h.nkeys
    ensures forall labels :: |labels| == h.ng && Holds(h.g, labels, h.bits) ==>
      k == (labels[Hash(Key(text), h.seed1) % h.ng] + labels[Hash(Key(text), h.seed2) % h.ng]) % h.nkeys
  {
    var h1 := ComputeHash(text, h.seed1);
    var h2 := ComputeHash(text, h.seed2);
    EntryFits(h1 % h.ng, h.ng, h.bits);
    EntryFits(h2 % h.ng, h.ng, h.bits);
    k := (Lookup(h.g, h1 % h.ng, h.bits) + Lookup(h.g, h2 % h.ng, h.bits)) % h.nkeys;
    forall labels | |labels| == h.ng && Holds(h.g, labels, h.bits)
      ensures k == (labels[h1 % h.ng] + labels[h2 % h.ng]) % h.nkeys
    {
      LookupIsLabel(h.g, labels, h1 % h.ng, h.bits);
      LookupIsLabel(h.g, labels, h2 % h.ng, h.bits);
    }
  }
}
