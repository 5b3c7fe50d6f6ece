/** The size literals `_KiB`, `_MiB` and `_GiB` of aids.hpp. Each one is a
    multiplication on `unsigned long long`, which wraps modulo 2^64; the
    wrap-around is written out here. */
module Units {

  /** 2^64, the modulus of `unsigned long long` arithmetic. */
  const U64_MODULUS: nat := 0x1_0000_0000_0000_0000

  /** The values an `unsigned long long` can hold. */
  type U64 = n: nat | n < U64_MODULUS

  /** Multiplication of two `unsigned long long` values. */
  function MulU64(a: U64, b: U64): U64 {
    (a * b) % U64_MODULUS
  }

  /** `s_KiB`: `s * 1024`. */
  function KiB(s: U64): U64 {
    MulU64(s, 1024)
  }

  /** `s_MiB`: `s * 1024_KiB`. */
  function MiB(s: U64): U64 {
    MulU64(s, KiB(1024))
  }

  /** `s_GiB`: `s * 1024_MiB`. */
  function GiB(s: U64): U64 {
    MulU64(s, MiB(1024))
  }

  /** A kibibyte is 1024 bytes, and every unit is 1024 of the unit below. */
  lemma UnitSteps()
    ensures KiB(1) == 1024
    ensures MiB(1) == 1024 * KiB(1)
    ensures GiB(1) == 1024 * MiB(1)
  {
  }

  /** Without overflow, each literal is the exact product. */
  lemma ExactUnits(n: U64)
    ensures n < 0x40_0000_0000_0000 ==> KiB(n) == n * 1024
    ensures n < 0x1000_0000_0000 ==> MiB(n) == n * 1024 * 1024
    ensures n < 0x4_0000_0000 ==> GiB(n) == n * 1024 * 1024 * 1024
  {
  }

  /** Past the bound the literal wraps around: 2^54 KiB is 0 bytes. */
  lemma KiBWraps()
    ensures KiB(0x40_0000_0000_0000) == 0
  {
  }
}
