/** Bytes inside 32-bit words: reading one, and replacing one as read-modify-write does. */
module Bytes {
  import opened Words

  function WordOf(a: int): int { a - a % 4 }

  /** Byte `i` of a word, little-endian. */
  function Pick(w: u32, i: int): u8 {
    if i == 0 then w % 0x100 else if i == 1 then w / 0x100 % 0x100
    else if i == 2 then w / 0x1_0000 % 0x100 else w / 0x100_0000
  }

  /** The word with byte `i` replaced: `(w & ~(0xff << 8 i)) | v << 8 i`. */
  function Put(w: u32, i: int, v: u8): u32
    requires 0 <= i < 4
  {
    if i == 0 then w / 0x100 * 0x100 + v
    else if i == 1 then w / 0x1_0000 * 0x1_0000 + v * 0x100 + w % 0x100
    else if i == 2 then w / 0x100_0000 * 0x100_0000 + v * 0x1_0000 + w % 0x1_0000
    else v * 0x100_0000 + w % 0x100_0000
  }

  function Join(b0: u8, b1: u8, b2: u8, b3: u8): u32 {
    b0 + b1 * 0x100 + b2 * 0x1_0000 + b3 * 0x100_0000
  }

  function Byte(m: Memory, a: int): u8 { Pick(Rd32(m, WordOf(a)), a % 4) }

  function SetByte(m: Memory, a: int, v: u8): Memory { m[WordOf(a) := Put(Rd32(m, WordOf(a)), a % 4, v)] }

  lemma Split(w: u32)
    ensures w == Join(Pick(w, 0), Pick(w, 1), Pick(w, 2), Pick(w, 3))
  {
    var q := w / 0x100;
    var r := q / 0x100;
    assert w / 0x1_0000 == r;
    assert w / 0x100_0000 == r / 0x100;
  }

  lemma JoinParts(b0: u8, b1: u8, b2: u8, b3: u8)
    ensures var w := Join(b0, b1, b2, b3);
            w / 0x100 == b1 + b2 * 0x100 + b3 * 0x1_0000 && w / 0x1_0000 == b2 + b3 * 0x100 && w / 0x100_0000 == b3
    ensures var w := Join(b0, b1, b2, b3);
            w % 0x100 == b0 && w % 0x1_0000 == b0 + b1 * 0x100 && w % 0x100_0000 == b0 + b1 * 0x100 + b2 * 0x1_0000
  {
  }

  lemma JoinPicks(b0: u8, b1: u8, b2: u8, b3: u8)
    ensures var w := Join(b0, b1, b2, b3); Pick(w, 0) == b0 && Pick(w, 1) == b1 && Pick(w, 2) == b2 && Pick(w, 3) == b3
  {
    JoinParts(b0, b1, b2, b3);
    assert (b1 + b2 * 0x100 + b3 * 0x1_0000) % 0x100 == b1;
    assert (b2 + b3 * 0x100) % 0x100 == b2;
  }

  lemma PutJoin(b0: u8, b1: u8, b2: u8, b3: u8, v: u8)
    ensures var w := Join(b0, b1, b2, b3);
            Put(w, 0, v) == Join(v, b1, b2, b3) && Put(w, 1, v) == Join(b0, v, b2, b3)
            && Put(w, 2, v) == Join(b0, b1, v, b3) && Put(w, 3, v) == Join(b0, b1, b2, v)
  {
    JoinParts(b0, b1, b2, b3);
  }

  lemma PutPicks(w: u32, i: int, v: u8, j: int)
    requires 0 <= i < 4 && 0 <= j < 4
    ensures Pick(Put(w, i, v), j) == if i == j then v else Pick(w, j)
  {
    hide Pick, Put, Join;
    var b0, b1, b2, b3 := Pick(w, 0), Pick(w, 1), Pick(w, 2), Pick(w, 3);
    Split(w);
    PutJoin(b0, b1, b2, b3, v);
    JoinPicks(if i == 0 then v else b0, if i == 1 then v else b1, if i == 2 then v else b2, if i == 3 then v else b3);
  }

  lemma SetByteReads(m: Memory, a: int, v: u8, b: int)
    ensures Byte(SetByte(m, a, v), b) == if a == b then v else Byte(m, b)
    ensures forall w :: w != WordOf(a) ==> Rd32(SetByte(m, a, v), w) == Rd32(m, w)
  {
    hide Pick, Put;
    if WordOf(a) == WordOf(b) {
      PutPicks(Rd32(m, WordOf(a)), a % 4, v, b % 4);
    }
  }

  // ----- Memories compared byte by byte -----

  predicate SameByte(before: Memory, after: Memory, a: int) { Byte(after, a) == Byte(before, a) }

  /** Byte `a` after `bytes` bytes have been copied from `src` to `dst`. */
  predicate ByteCopied(before: Memory, after: Memory, src: int, dst: int, bytes: int, a: int) {
    Byte(after, a) == if 0 <= a - dst < bytes then Byte(before, src + (a - dst)) else Byte(before, a)
  }
}
