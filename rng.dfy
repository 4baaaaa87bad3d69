/** The seed-step generator `regen_random`, identical in src/main.rs and
    cppcode.cpp. */
module Rng {

  const U32: nat := 0x1_0000_0000
  const U64: nat := 0x1_0000_0000_0000_0000

  /** The next seed as unbounded arithmetic: square, divide by 100000,
      reduce modulo 10^10, keep the low 32 bits. */
  function NextSeed(r: nat): nat
  {
    (r * r / 100_000 % 10_000_000_000) % U32
  }

  lemma MulMonotone(a: nat, b: nat, c: nat, d: nat)
    requires a <= c && b <= d
    ensures a * b <= c * d
  {
    assert a * b <= c * b;
    assert c * b <= c * d;
  }

  lemma BelowModulus(x: nat, m: nat)
    requires x < m
    ensures x % m == x
  {
  }

  /** Two values below 2^32 multiply to less than 2^64. */
  lemma ProductFitsU64(a: nat, b: nat)
    requires a < U32 && b < U32
    ensures a * b < U64
  {
    MulMonotone(a, b, U32 - 1, U32 - 1);
    assert (U32 - 1) * (U32 - 1) < U64;
  }

  /** `regen_random` on a `u32` seed, step by step in `u64` arithmetic:
      each `u64` operation is written with its wrap-around, and the mask
      `0xFFFF_FFFF & product` as the remainder modulo 2^32. The contract
      says the 64-bit steps never wrap, so they agree with `NextSeed`,
      and that the new seed is again a `u32`. */
  method RegenRandom(rand: nat) returns (next: nat)
    requires rand < U32
    ensures next == NextSeed(rand)
    ensures next < U32
  {
    var product := rand % U64;
    BelowModulus(rand, U64);
    var masked := product % U32;
    BelowModulus(product, U32);
    var square := masked * masked;
    ProductFitsU64(masked, masked);
    BelowModulus(square, U64);
    product := square % U64;
    product := product / 100_000;
    product := product % 10_000_000_000;
    next := product % U32;
  }

  /** Zero is a fixed point of the generator. */
  lemma ZeroIsFixed()
    ensures NextSeed(0) == 0
  {
  }

  /** The seed after `n` passes of the draw loop of `generate_mines`, each
      pass stepping the generator twice (once for x, once for y). */
  function SeedAfter(seed: nat, n: nat): nat
  {
    if n == 0 then seed else NextSeed(NextSeed(SeedAfter(seed, n - 1)))
  }

  /** A seed below 2^32 stays below 2^32 however many passes are made. */
  lemma {:induction false} SeedAfterBounded(seed: nat, n: nat)
    requires seed < U32
    ensures SeedAfter(seed, n) < U32
  {
    if n > 0 {
      SeedAfterBounded(seed, n - 1);
    }
  }

  /** From seed 0 the seed never moves, so every draw is the same. */
  lemma {:induction false} ZeroSeedStays(n: nat)
    ensures SeedAfter(0, n) == 0
  {
    if n > 0 {
      ZeroSeedStays(n - 1);
      ZeroIsFixed();
    }
  }
}
