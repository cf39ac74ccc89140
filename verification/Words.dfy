/** Machine words of the source, as bounded naturals with their wrap-around written out. */
module Words {

  const U32_SIZE: nat := 0x1_0000_0000
  const U64_SIZE: nat := 0x1_0000_0000_0000_0000
  const U32_MAX: nat := 0xffff_ffff
  const U64_MAX: nat := 0xffff_ffff_ffff_ffff

  type Byte = x: nat | x < 0x100
  type U32 = x: nat | x < 0x1_0000_0000
  type U64 = x: nat | x < 0x1_0000_0000_0000_0000

  datatype Option<+T> = None | Some(value: T)

  datatype Result<+E> = Ok | Err(error: E)

  /** `n as u32`: the low 32 bits. */
  function AsU32(n: nat): (r: U32)
    ensures r <= n && (n < U32_SIZE ==> r == n)
  {
    n % U32_SIZE
  }

  /** The cast forgets multiples of 2^32 and nothing else. */
  lemma AsU32Wraps(n: nat, k: nat)
    ensures AsU32(n + k * 0x1_0000_0000) == AsU32(n) < 0x1_0000_0000
  {
  }

  /** `x.wrapping_add(1)` on a u64. */
  function WrappingSucc(x: U64): (r: U64)
    ensures x < U64_MAX ==> r == x + 1
    ensures x == U64_MAX ==> r == 0
  {
    (x + 1) % U64_SIZE
  }

  /** `a.saturating_mul(b)` on u32s. */
  function SaturatingMul(a: U32, b: U32): (r: U32)
    ensures r == Min(a * b, 0xffff_ffff)
    ensures a >= 1 && b >= 1 ==> r >= 1
  {
    Positive(a, b);
    if a * b > U32_MAX then U32_MAX else a * b
  }

  lemma Positive(a: nat, b: nat)
    ensures a >= 1 && b >= 1 ==> a * b >= 1
  {
  }

  function Min(a: nat, b: nat): nat {
    if a <= b then a else b
  }

  /** `1 << n`, unbounded. */
  function Pow2(n: nat): (r: nat)
    ensures r >= 1
  {
    if n == 0 then 1 else 2 * Pow2(n - 1)
  }

  lemma {:induction false} Pow2Adds(a: nat, b: nat)
    ensures Pow2(a + b) == Pow2(a) * Pow2(b)
    decreases b
  {
    if b != 0 {
      Pow2Adds(a, b - 1);
    }
  }

  lemma {:induction false} Pow2Monotone(a: nat, b: nat)
    requires a <= b
    ensures Pow2(a) <= Pow2(b)
    decreases b
  {
    if a != b {
      Pow2Monotone(a, b - 1);
    }
  }

  lemma Pow2Byte(n: nat)
    ensures Pow2(n + 8) == 0x100 * Pow2(n)
  {
    assert Pow2(n + 8) == 2 * Pow2(n + 7) == 4 * Pow2(n + 6) == 8 * Pow2(n + 5) == 16 * Pow2(n + 4);
    assert Pow2(n + 4) == 2 * Pow2(n + 3) == 4 * Pow2(n + 2) == 8 * Pow2(n + 1) == 16 * Pow2(n);
  }

  lemma Pow2Of32()
    ensures Pow2(32) == U32_SIZE
  {
    Pow2Byte(8);
    Pow2Byte(16);
    Pow2Byte(24);
  }

  lemma Pow2Of64()
    ensures Pow2(64) == U64_SIZE
  {
    Pow2Of32();
    Pow2Byte(32);
    Pow2Byte(40);
    Pow2Byte(48);
    Pow2Byte(56);
  }
}
