/** Exclusive or on unsigned values. */
module ExclusiveOr {
  import opened Words

  function Xor(x: nat, y: nat): nat
    decreases x + y
  {
    if x == 0 && y == 0 then 0 else (x + y) % 2 + 2 * Xor(x / 2, y / 2)
  }

  lemma {:induction false} Commutes(x: nat, y: nat)
    ensures Xor(x, y) == Xor(y, x)
    decreases x + y
  {
    if x + y > 0 { Commutes(x / 2, y / 2); }
  }

  lemma {:induction false} WithZero(x: nat)
    ensures Xor(x, 0) == x && Xor(0, x) == x
  {
    if x > 0 { WithZero(x / 2); }
  }

  lemma {:induction false} WithSelf(x: nat)
    ensures Xor(x, x) == 0
  {
    if x > 0 {
      assert (x + x) % 2 == 0;
      WithSelf(x / 2);
    }
  }

  lemma {:induction false} Step(x: nat, y: nat)
    ensures Xor(x, y) % 2 == (x + y) % 2 && Xor(x, y) / 2 == Xor(x / 2, y / 2)
  {
    hide Xor;
    Unfold(x, y);
    Recombine((x + y) % 2, Xor(x / 2, y / 2));
  }

  lemma {:induction false} Unfold(x: nat, y: nat)
    ensures Xor(x, y) == (x + y) % 2 + 2 * Xor(x / 2, y / 2)
  {
  }

  lemma Recombine(r: int, t: int)
    requires 0 <= r < 2
    ensures (r + 2 * t) % 2 == r && (r + 2 * t) / 2 == t
  {
  }

  lemma Parity(x: nat, y: nat, z: nat)
    ensures ((x + y) % 2 + z) % 2 == (x + (y + z) % 2) % 2
  {
  }

  lemma {:induction false} Associates(x: nat, y: nat, z: nat)
    ensures Xor(Xor(x, y), z) == Xor(x, Xor(y, z))
    decreases x + y + z
  {
    hide Xor;
    if x + y + z == 0 {
      WithZero(0);
    } else {
      Associates(x / 2, y / 2, z / 2);
      Step(x, y);
      Step(y, z);
      Step(Xor(x, y), z);
      Step(x, Xor(y, z));
      Parity(x, y, z);
      ParityLeft(Xor(x, y), x + y, z);
      ParityRight(x, Xor(y, z), y + z);
      Binary(Xor(Xor(x, y), z));
      Binary(Xor(x, Xor(y, z)));
    }
  }

  lemma ParityLeft(a: nat, b: nat, z: nat)
    requires a % 2 == b % 2
    ensures (a + z) % 2 == (b % 2 + z) % 2
  {
  }

  lemma ParityRight(x: nat, a: nat, b: nat)
    requires a % 2 == b % 2
    ensures (x + a) % 2 == (x + b % 2) % 2
  {
  }

  lemma Binary(x: nat)
    ensures x == x % 2 + 2 * (x / 2)
  {
  }

  function Pow2(k: nat): (p: int)
    ensures p > 0
  {
    if k == 0 then 1 else 2 * Pow2(k - 1)
  }

  /** The low `k` bits and the rest are combined separately. */
  lemma {:induction false} SplitAt(k: nat, a: nat, b: nat, c: nat, d: nat)
    requires a < Pow2(k) && c < Pow2(k)
    ensures Xor(a + Pow2(k) * b, c + Pow2(k) * d) == Xor(a, c) + Pow2(k) * Xor(b, d)
    ensures Xor(a, c) < Pow2(k)
  {
    hide Xor;
    if k == 0 {
      WithZero(0);
    } else {
      var h := Pow2(k - 1);
      SplitAt(k - 1, a / 2, b, c / 2, d);
      var p, q, r := h * b, h * d, h * Xor(b, d);
      Doubled(h, b);
      Doubled(h, d);
      Doubled(h, Xor(b, d));
      Step(a + 2 * p, c + 2 * q);
      Step(a, c);
      ParitySum(a, c, p, q);
      HalfOf(a, p);
      HalfOf(c, q);
      Binary(Xor(a + 2 * p, c + 2 * q));
      Binary(Xor(a, c));
    }
  }

  lemma HalfOf(a: nat, p: nat)
    ensures (a + 2 * p) / 2 == a / 2 + p
  {
  }

  lemma Doubled(h: nat, b: nat)
    ensures 2 * h * b == 2 * (h * b) && h * b >= 0
  {
  }

  lemma ParitySum(a: nat, c: nat, p: int, q: int)
    ensures (a + 2 * p + (c + 2 * q)) % 2 == (a + c) % 2
  {
  }

  lemma Pow2Of32()
    ensures Pow2(32) == TWO32
  {
    assert Pow2(8) == 0x100;
    assert Pow2(16) == 0x100 * Pow2(8);
    assert Pow2(24) == 0x100 * Pow2(16);
    assert Pow2(32) == 0x100 * Pow2(24);
  }

  /** 64-bit values, half by half. */
  lemma HalfByHalf(a: u32, b: u32, c: u32, d: u32)
    ensures Xor(a + TWO32 * b, c + TWO32 * d) == Xor(a, c) + TWO32 * Xor(b, d)
    ensures Xor(a, c) < TWO32
  {
    Pow2Of32();
    SplitAt(32, a, b, c, d);
  }

  // ----- Folding -----

  function XorAll(s: seq<nat>): nat {
    if s == [] then 0 else Xor(XorAll(s[..|s| - 1]), s[|s| - 1])
  }

  /** Changing one word by `c` changes the fold by `c`. */
  lemma {:induction false} OneWord(s: seq<nat>, i: nat, c: nat)
    requires i < |s|
    ensures XorAll(s[i := Xor(s[i], c)]) == Xor(XorAll(s), c)
  {
    hide Xor;
    var n := |s| - 1;
    var init, t := s[..n], s[i := Xor(s[i], c)];
    if i == n {
      assert t[..n] == init;
      Associates(XorAll(init), s[n], c);
    } else {
      OneWord(init, i, c);
      assert t[..n] == init[i := Xor(init[i], c)];
      Rotate(XorAll(init), c, s[n]);
    }
  }

  lemma {:induction false} Rotate(a: nat, b: nat, c: nat)
    ensures Xor(Xor(a, b), c) == Xor(Xor(a, c), b)
  {
    hide Xor;
    Associates(a, b, c);
    Commutes(b, c);
    Associates(a, c, b);
  }

  /** The two halves of a 64-bit value combined. */
  function Folded(x: u64): u32
  {
    HalfByHalf(x / TWO32, 0, x % TWO32, 0);
    Xor(x / TWO32, x % TWO32)
  }

  lemma {:induction false} XorAllBound(s: seq<nat>)
    requires forall i :: 0 <= i < |s| ==> s[i] < TWO64
    ensures XorAll(s) < TWO64
  {
    hide Xor;
    if s != [] {
      var x, y := XorAll(s[..|s| - 1]), s[|s| - 1];
      XorAllBound(s[..|s| - 1]);
      HalfByHalf(x % TWO32, x / TWO32, y % TWO32, y / TWO32);
      HalfByHalf(x / TWO32, 0, y / TWO32, 0);
    }
  }

  /** Adding its own fold to the low half makes the fold vanish. */
  lemma {:induction false} FoldVanishes(x: u64)
    ensures var y := Xor(x, Folded(x)); y < TWO64 && Xor(y / 0x1_0000_0000, y % 0x1_0000_0000) == 0
  {
    hide Xor;
    var lo, hi := x % TWO32, x / TWO32;
    var f := Folded(x);
    HalfByHalf(lo, hi, f, 0);
    WithZero(hi);
    Commutes(hi, lo);
    Associates(lo, lo, hi);
    WithSelf(lo);
    WithSelf(hi);
    assert Xor(x, f) == Xor(lo, f) + TWO32 * hi;
    assert Xor(lo, f) == hi;
  }
}
