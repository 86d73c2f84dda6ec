/** The hash of tools/gen/gen.lua, which builds the tables: it is computed on 64-bit integers. */
module HashGenerator {
  import opened Hashing

  /** Line 164. */
  function WideStir(seed: bv64, c: bv32): bv64 { (seed ^ (c as bv64)) * 0x13 }

  function WideMix(key: seq<bv32>, i: nat, seed: bv64): bv64
    requires i <= |key|
    decreases |key| - i
  {
    if i == |key| then seed else WideMix(key, i + 1, WideStir(seed, key[i]))
  }

  function WideLow31(x: bv64): nat { ((x & 0x7fff_ffff) as bv32) as int }

  /** hash() at line 162. */
  function WideHash(key: seq<bv32>, seed: bv64): nat { WideLow31(WideMix(key, 0, seed)) }

  /** The low halves agree. */
  predicate Low(x: bv64, n: bv32) { n as bv64 == x & 0xffff_ffff }

  lemma WideStep(x: bv64, c: bv64)
    ensures ((x ^ c) * 0x13) & 0xffff_ffff == (((x & 0xffff_ffff) ^ c) * 0x13) & 0xffff_ffff
  {
  }

  lemma NarrowStep(x: bv64, n: bv32, c: bv32)
    requires n as bv64 == x & 0xffff_ffff
    ensures (((n ^ c) * 0x13) as bv64) == (((x & 0xffff_ffff) ^ (c as bv64)) * 0x13) & 0xffff_ffff
  {
  }

  lemma LowStir(x: bv64, n: bv32, c: bv32)
    requires Low(x, n)
    ensures Low(WideStir(x, c), Stir(n, c))
  {
    WideStep(x, c as bv64);
    NarrowStep(x, n, c);
  }

  lemma {:induction false} LowMix(key: seq<bv32>, i: nat, x: bv64, n: bv32)
    requires i <= |key| && Low(x, n)
    ensures Low(WideMix(key, i, x), Mix(key, i, n))
    decreases |key| - i
  {
    if i < |key| {
      LowStir(x, n, key[i]);
      LowMix(key, i + 1, WideStir(x, key[i]), Stir(n, key[i]));
    }
  }

  lemma LowAgrees(x: bv64, n: bv32)
    requires Low(x, n)
    ensures WideLow31(x) == Low31(n)
  {
    assert (x & 0x7fff_ffff) as bv32 == n & 0x7fff_ffff;
  }

  /** The program looks for a symbol where the generator put it: both give a key the same hash. */
  lemma GeneratorAgrees(key: seq<bv32>, seed: bv32)
    ensures WideHash(key, seed as bv64) == Hash(key, seed)
  {
    LowMix(key, 0, seed as bv64, seed);
    LowAgrees(WideMix(key, 0, seed as bv64), Mix(key, 0, seed));
  }
}
