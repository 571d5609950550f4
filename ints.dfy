/** The fixed-width integer types of the Rust source, as bounded subsets of `int`. */
module Ints {

  const TWO_32: int := 0x1_0000_0000
  const TWO_31: int := 0x8000_0000

  type u32 = x: int | 0 <= x < TWO_32
  type u64 = x: int | 0 <= x < 0x1_0000_0000_0000_0000
  type i32 = x: int | -TWO_31 <= x < TWO_31

  predicate IsI32(x: int) {
    -TWO_31 <= x < TWO_31
  }

  function Pow2(n: nat): nat {
    if n == 0 then 1 else 2 * Pow2(n - 1)
  }

  /** The low `n` bits of `p`, each one inverted. */
  function FlipBits(p: nat, n: nat): nat {
    if n == 0 then 0 else (1 - p % 2) + 2 * FlipBits(p / 2, n - 1)
  }

  /** Inverting all `n` bits of an `n`-bit pattern subtracts it from the all-ones pattern. */
  lemma {:induction false} FlipBitsValue(p: nat, n: nat)
    requires p < Pow2(n)
    ensures FlipBits(p, n) == Pow2(n) - 1 - p
  {
    if n > 0 {
      FlipBitsValue(p / 2, n - 1);
    }
  }

  lemma {:induction false} Pow2Add(a: nat, b: nat)
    ensures Pow2(a + b) == Pow2(a) * Pow2(b)
  {
    if a > 0 {
      Pow2Add(a - 1, b);
    }
  }

  lemma Pow2Of32()
    ensures Pow2(32) == TWO_32
  {
    assert Pow2(2) == 4;
    assert Pow2(4) == 16 by { Pow2Add(2, 2); }
    assert Pow2(8) == 256 by { Pow2Add(4, 4); }
    assert Pow2(16) == 0x1_0000 by { Pow2Add(8, 8); }
    Pow2Add(16, 16);
  }

  /** The two's-complement bit pattern of an `i32`, read as an unsigned number. */
  function Pattern(x: i32): (p: nat)
    ensures p < TWO_32
  {
    if x >= 0 then x else x + TWO_32
  }

  /** The `i32` whose two's-complement bit pattern is `p`. */
  function FromPattern(p: nat): i32
    requires p < TWO_32
  {
    if p < TWO_31 then p else p - TWO_32
  }

  /** Rust's `!` on an `i32`: invert all 32 bits. */
  function BitNot(x: i32): (r: i32)
    ensures r as int == -(x as int) - 1
  {
    Pow2Of32();
    FlipBitsValue(Pattern(x), 32);
    FromPattern(FlipBits(Pattern(x), 32))
  }
}
