/** Fixed-width integers, word-addressed memory and the bit operations of the C sources.

    Shifts and masks by constants are written with division and remainder, which is exact on
    unsigned values.  A value of type `u32` or `u64` carries its own bound, so every assignment
    to one is a proof that the C expression did not wrap; where C may wrap, the remainder is
    written out. */
module Words {
  const TWO32: int := 0x1_0000_0000
  const TWO64: int := 0x1_0000_0000_0000_0000
  const PAGE: int := 0x1000

  type u8 = x: int | 0 <= x < 0x100
  type u32 = x: int | 0 <= x < 0x1_0000_0000
  type u64 = x: int | 0 <= x < 0x1_0000_0000_0000_0000

  const U64_MAX: u64 := 0xffff_ffff_ffff_ffff

  function Zeros(n: nat): (s: seq<u8>)
    ensures |s| == n && forall k :: 0 <= k < n ==> s[k] == 0
  {
    seq<u8>(n, k => 0)
  }

  /** Memory as 32-bit words keyed by byte address; absent words read as zero. */
  type Memory = map<int, u32>

  function Rd32(m: Memory, a: int): u32 {
    if a in m then m[a] else 0
  }

  function Rd64(m: Memory, a: int): u64 {
    Rd32(m, a) + TWO32 * Rd32(m, a + 4)
  }

  function Wr64(m: Memory, a: int, v: u64): Memory {
    m[a := v % TWO32][a + 4 := v / TWO32]
  }

  /** `count` consecutive words starting at `a` set to `v`. */
  function Fill(m: Memory, a: int, count: nat, v: u32): Memory {
    if count == 0 then m else Fill(m, a, count - 1, v)[a + 4 * (count - 1) := v]
  }

  /** Setting one bit (`x | 1 << k` with `bit == 1 << k`). */
  function SetBit(x: u64, bit: int): (r: int)
    requires bit in {1, 2, 0x20, 0x40}
  {
    if x / bit % 2 == 1 then x else x + bit
  }

  lemma {:induction false} FillReads(m: Memory, a: int, count: nat, v: u32)
    ensures forall k :: 0 <= k < count ==> Rd32(Fill(m, a, count, v), a + 4 * k) == v
    ensures forall b :: b < a || a + 4 * count <= b ==> Rd32(Fill(m, a, count, v), b) == Rd32(m, b)
  {
    if count > 0 {
      FillReads(m, a, count - 1, v);
    }
  }

  lemma Wr64Reads(m: Memory, a: int, v: u64, b: int)
    requires a % 8 == 0 && b % 8 == 0
    ensures Rd64(Wr64(m, a, v), b) == if a == b then v else Rd64(m, b)
  {
  }
}
