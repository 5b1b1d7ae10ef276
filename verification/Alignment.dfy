/** Power-of-two alignment as the C code computes it (driver/gsp/vram.c, lines 7-15). */
module Alignment {
  import opened Words

  /** Bitwise and of two unsigned values. */
  function And(x: nat, y: nat): (r: nat)
    ensures r <= x && r <= y
  {
    if x == 0 || y == 0 then 0
    else (if x % 2 == 1 && y % 2 == 1 then 1 else 0) + 2 * And(x / 2, y / 2)
  }

  predicate IsPow2(n: nat) {
    n == 1 || (n > 0 && n % 2 == 0 && IsPow2(n / 2))
  }

  lemma {:induction false} AndSelf(x: nat)
    ensures And(x, x) == x
  {
    if x > 0 { AndSelf(x / 2); }
  }

  /** The usual test: a positive value shares no bit with its predecessor exactly when it is a power of two. */
  lemma {:induction false} PowerTest(x: nat)
    requires x > 0
    ensures And(x, x - 1) == 0 <==> IsPow2(x)
  {
    if x % 2 == 0 {
      PowerTest(x / 2);
      assert (x - 1) / 2 == x / 2 - 1;
    } else if x > 1 {
      AndSelf(x / 2);
      assert (x - 1) / 2 == x / 2;
    }
  }

  lemma AndStep(x: nat, h: nat)
    requires h > 0
    ensures And(x, 2 * h - 1) == x % 2 + 2 * And(x / 2, h - 1)
  {
    assert (2 * h - 1) % 2 == 1 && (2 * h - 1) / 2 == h - 1;
  }

  /** Masking with a power of two less one is the remainder. */
  lemma {:induction false} MaskIsRemainder(x: nat, a: nat)
    requires IsPow2(a)
    ensures And(x, a - 1) == x % a
  {
    hide And;
    if a == 1 {
      assert And(x, 0) <= 0;
    } else {
      var h := a / 2;
      MaskIsRemainder(x / 2, h);
      AndStep(x, h);
      RemainderByHalves(x, h);
    }
  }

  lemma RemainderByHalves(x: nat, h: nat)
    requires h > 0
    ensures x % (2 * h) == x % 2 + 2 * (x / 2 % h)
  {
    var q, r := x / 2 / h, x / 2 % h;
    assert x / 2 == h * q + r;
    assert x == (2 * h) * q + (2 * r + x % 2);
    DivModUnique(2 * h, q, 2 * r + x % 2);
  }

  lemma DivModUnique(d: int, q: int, r: int)
    requires 0 <= r < d
    ensures (d * q + r) / d == q && (d * q + r) % d == r
  {
    var x := d * q + r;
    SameQuotient(d, x / d, x % d, q, r);
  }

  lemma SameQuotient(d: int, q: int, r: int, q': int, r': int)
    requires 0 <= r < d && 0 <= r' < d && d * q + r == d * q' + r'
    ensures q == q' && r == r'
  {
    if q < q' {
      AtLeastOne(d, q' - q);
    } else if q' < q {
      AtLeastOne(d, q - q');
    }
  }

  lemma AtLeastOne(d: int, n: int)
    requires 0 <= d && 1 <= n
    ensures d * n >= d
  {
  }

  // ----- Multiples -----

  predicate Multiple(x: int, a: int) requires a > 0 { x % a == 0 }

  lemma MultipleOf(a: int, q: int)
    requires a > 0
    ensures Multiple(a * q, a)
  {
    DivModUnique(a, q, 0);
  }

  lemma MultiplesApart(a: int, x: int, y: int)
    requires a > 0 && Multiple(x, a) && Multiple(y, a) && x < y
    ensures x + a <= y
  {
    assert x == a * (x / a) && y == a * (y / a);
    if x / a < y / a {
      AtLeastOne(a, y / a - x / a);
    } else {
      NonNegative(a, x / a - y / a);
    }
  }

  lemma NonNegative(d: int, n: int)
    requires 0 <= d && 0 <= n
    ensures d * n >= 0
  {
  }

  lemma MultipleTransitive(x: int, a: int, b: int)
    requires b > 0 && a > 0 && Multiple(x, a) && Multiple(a, b)
    ensures Multiple(x, b)
  {
    assert x == a * (x / a) && a == b * (a / b);
    assert x == b * ((a / b) * (x / a));
    MultipleOf(b, (a / b) * (x / a));
  }

  lemma {:induction false} Pow2Divides(a: nat, b: nat)
    requires IsPow2(a) && IsPow2(b) && b <= a
    ensures Multiple(a, b)
  {
    if b > 1 {
      Pow2Divides(a / 2, b / 2);
      assert a / 2 == (b / 2) * (a / 2 / (b / 2));
      assert a == b * (a / 2 / (b / 2));
      MultipleOf(b, a / 2 / (b / 2));
    }
  }

  // ----- alignment_valid and align_up -----

  predicate AlignmentValid(alignment: u64) {
    alignment >= PAGE && And(alignment, alignment - 1) == 0
  }

  function RoundDown(x: nat, a: nat): int
    requires a > 0
  {
    x - And(x, a - 1)
  }

  /** The least multiple of `a` not below `x`. */
  predicate IsCeiling(x: int, a: int, c: int)
    requires a > 0
  {
    Multiple(c, a) && x <= c < x + a
  }

  datatype Aligned = Overflow | At(value: u64)

  /** `align_up`: fails only when no aligned 64-bit value is left above. */
  function AlignUp(value: u64, alignment: u64): (r: Aligned)
    requires alignment > 0 && IsPow2(alignment)
    ensures r.At? ==> IsCeiling(value, alignment, r.value) && r.value == RoundDown(value + alignment - 1, alignment)
    ensures r.At? <==> value + alignment - 1 < TWO64
    ensures r.Overflow? ==> forall c: u64 :: value <= c ==> !Multiple(c, alignment)
  {
    if value > U64_MAX - (alignment - 1) then
      NothingAbove(value, alignment);
      Overflow
    else
      CeilingByMask(value, alignment);
      At(RoundDown(value + alignment - 1, alignment))
  }

  lemma FloorIsMultiple(x: nat, a: nat)
    requires a > 0
    ensures Multiple(x - x % a, a) && 0 <= x % a < a
  {
    assert x == a * (x / a) + x % a;
    MultipleOf(a, x / a);
  }

  lemma {:induction false} CeilingByMask(value: u64, a: u64)
    requires a > 0 && IsPow2(a)
    ensures 0 <= RoundDown(value + a - 1, a) <= value + a - 1
    ensures IsCeiling(value, a, RoundDown(value + a - 1, a))
  {
    hide And, IsPow2, Multiple;
    MaskIsRemainder(value + a - 1, a);
    FloorIsMultiple(value + a - 1, a);
  }

  lemma {:induction false} NothingAbove(value: u64, a: u64)
    requires a > 0 && IsPow2(a) && value > U64_MAX - (a - 1)
    ensures forall c: u64 :: value <= c ==> !Multiple(c, a)
  {
    TopIsPow2();
    Pow2Divides(TWO64, a);
    forall c: u64 | value <= c ensures !Multiple(c, a) {
      if Multiple(c, a) {
        MultiplesApart(a, c, TWO64);
      }
    }
  }

  lemma {:induction false} ProductIsPow2(a: nat, b: nat)
    requires IsPow2(a) && IsPow2(b)
    ensures IsPow2(a * b)
  {
    if a > 1 {
      ProductIsPow2(a / 2, b);
      assert a * b == 2 * (a / 2 * b);
    }
  }

  lemma TopIsPow2()
    ensures IsPow2(0x1_0000_0000_0000_0000)
  {
    assert IsPow2(0x100);
    ProductIsPow2(0x100, 0x100);
    ProductIsPow2(0x1_0000, 0x1_0000);
    ProductIsPow2(0x1_0000_0000, 0x1_0000_0000);
  }

  lemma PageIsPow2()
    ensures IsPow2(0x1000)
  {
    assert IsPow2(0x100);
  }

  /** Nothing aligned lies strictly between a value and its ceiling. */
  lemma CeilingIsLeast(x: int, a: int, c: int, d: int)
    requires a > 0 && IsCeiling(x, a, c) && Multiple(d, a) && x <= d
    ensures c <= d
  {
    if d < c {
      MultiplesApart(a, d, c);
    }
  }
}
