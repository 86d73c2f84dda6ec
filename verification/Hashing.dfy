/** The hash function of core/module.c. */
module Hashing {
  /** Multiplication by HASH_MULT. */
  function Times(x: bv32): bv32 { x * 0x13 }

  function Stir(seed: bv32, c: bv32): bv32 { Times(seed ^ c) }

  /** The seed after the characters of a key from position `i` on. */
  function Mix(key: seq<bv32>, i: nat, seed: bv32): bv32
    requires i <= |key|
    decreases |key| - i
  {
    if i == |key| then seed else Mix(key, i + 1, Stir(seed, key[i]))
  }

  function Low31(x: bv32): nat { (x & 0x7fff_ffff) as int }

  function Hash(key: seq<bv32>, seed: bv32): nat { Low31(Mix(key, 0, seed)) }

  /** The key in a buffer: what comes before the first zero. */
  function Key(text: seq<bv32>): seq<bv32>
    requires 0 in text
  {
    if text[0] == 0 then [] else [text[0]] + Key(text[1..])
  }

  lemma {:induction false} KeyIs(text: seq<bv32>, n: nat)
    requires n < |text| && text[n] == 0 && forall i :: 0 <= i < n ==> text[i] != 0
    ensures 0 in text && Key(text) == text[..n]
  {
    if n > 0 {
      KeyIs(text[1..], n - 1);
      assert text[..n] == [text[0]] + text[1..][..n - 1];
    }
  }

  lemma {:induction false} MixSnoc(key: seq<bv32>, i: nat, c: bv32, seed: bv32)
    requires i <= |key|
    ensures Mix(key + [c], i, seed) == Stir(Mix(key, i, seed), c)
    decreases |key| - i
  {
    if i < |key| { MixSnoc(key, i + 1, c, Stir(seed, key[i])); }
  }

  /** hash() at line 262, on a buffer that holds a terminated key: it reads no further than the
      terminator, and its result fits 31 bits. */
  method ComputeHash(text: seq<bv32>, seed: bv32) returns (h: nat)
    requires 0 in text
    ensures h == Hash(Key(text), seed) && h < 0x8000_0000
  {
    var s, n := seed, 0;
    while text[n] != 0
      invariant n < |text| && (forall i :: 0 <= i < n ==> text[i] != 0)
      invariant s == Mix(text[..n], 0, seed)
      decreases |text| - n
    {
      MixSnoc(text[..n], 0, text[n], seed);
      assert text[..n + 1] == text[..n] + [text[n]];
      s := Stir(s, text[n]);
      n := n + 1;
    }
    KeyIs(text, n);
    h := Low31(s);
  }

  /** The factor is odd, so multiplying by it can be undone. */
  lemma Undo(x: bv32)
    ensures x * 0x13 * 0x286b_ca1b == x
  {
  }

  lemma FactorCancels(x: bv32, y: bv32)
    requires x * 0x13 == y * 0x13
    ensures x == y
  {
    Undo(x);
    Undo(y);
  }

  lemma TimesIsInjective(x: bv32, y: bv32)
    requires Times(x) == Times(y)
    ensures x == y
  {
    FactorCancels(x, y);
  }

  lemma XorCancels(a: bv32, b: bv32, c: bv32)
    ensures (a ^ c == b ^ c ==> a == b) && (c ^ a == c ^ b ==> a == b)
  {
  }

  /** Stirring in a character loses nothing. */
  lemma StirIsInjective(a: bv32, b: bv32, c: bv32, d: bv32)
    ensures Stir(a, c) == Stir(b, c) ==> a == b
    ensures Stir(a, c) == Stir(a, d) ==> c == d
  {
    if Stir(a, c) == Stir(b, c) {
      TimesIsInjective(a ^ c, b ^ c);
      XorCancels(a, b, c);
    }
    if Stir(a, c) == Stir(a, d) {
      TimesIsInjective(a ^ c, a ^ d);
      XorCancels(c, d, a);
    }
  }

  /** So two seeds never give the same 32 bits for a key, and neither do two keys that differ
      in one character. */
  lemma {:induction false} MixIsInjective(key: seq<bv32>, i: nat, a: bv32, b: bv32)
    requires i <= |key| && Mix(key, i, a) == Mix(key, i, b)
    ensures a == b
    decreases |key| - i
  {
    if i < |key| {
      MixIsInjective(key, i + 1, Stir(a, key[i]), Stir(b, key[i]));
      StirIsInjective(a, b, key[i], key[i]);
    }
  }
}
