/** Placement of the protected firmware region below the FRTS area, in wrapping 64-bit arithmetic
    (driver/gsp/gsp_fw.c, lines 60-109). */
module FwLayout {
  import opened Words

  const MEGABYTE: int := 0x10_0000
  const HEAP_OS_CARVEOUT: int := 20 * 0x10_0000
  const HEAP_BASE: int := 8 * 0x10_0000
  const HEAP_MIN: int := 84 * 0x10_0000
  const HEAP_PER_GB: int := 96 * 0x400
  const HEAP_CLIENT_ALLOC: int := 48 * 0x400 * 2048
  const META_SIZE: int := 256

  datatype FbLayout = FbLayout(
    frtsAddr: int, frtsSize: int, wpr2End: int, bootAddr: int, bootSize: int, elfAddr: int, elfSize: int,
    heapAddr: int, heapSize: int, wpr2Addr: int, wpr2Size: int, nonWprAddr: int, nonWprSize: int)

  datatype Outcome = BadArgument | OutOfBounds | Placed(layout: FbLayout)

  function Wrap(x: int): u64 { x % TWO64 }

  /** `v & ~(a - 1)` for a power of two `a`. */
  function Down(v: int, a: int): int
    requires a > 0
  {
    v - v % a
  }

  /** Heap demand for a framebuffer of `gb` gigabytes. */
  function HeapFor(gb: int): int {
    var h := HEAP_OS_CARVEOUT + HEAP_BASE + Down(HEAP_PER_GB * gb + (MEGABYTE - 1), MEGABYTE)
             + Down(HEAP_CLIENT_ALLOC + (MEGABYTE - 1), MEGABYTE);
    if h < HEAP_MIN then HEAP_MIN else h
  }

  /** A sum or difference: wrapped, as in C, or not. */
  function Value(c: bool, x: int): int { if c then Wrap(x) else x }

  function Layout(c: bool, fb: u64, frtsAddr: u64, frtsSize: u64, boot: u64, elf: u64): FbLayout {
    var bootAddr := Down(Value(c, frtsAddr - boot), 0x1000);
    var elfAddr := Down(Value(c, bootAddr - elf), 0x1_0000);
    var heap := HeapFor(Value(c, fb + 0x3fff_ffff) / 0x4000_0000);
    var heapAddr := Down(Value(c, elfAddr - heap), MEGABYTE);
    var wpr2Addr := Down(Value(c, heapAddr - META_SIZE), MEGABYTE);
    var wpr2End := Value(c, frtsAddr + frtsSize);
    FbLayout(frtsAddr, frtsSize, wpr2End, bootAddr, boot, elfAddr, elf,
             heapAddr, Down(Value(c, elfAddr - heapAddr), MEGABYTE), wpr2Addr, Value(c, wpr2End - wpr2Addr),
             Value(c, wpr2Addr - MEGABYTE), MEGABYTE)
  }

  /** What the code computes, in 64-bit arithmetic. */
  function Computed(fb: u64, frtsAddr: u64, frtsSize: u64, boot: u64, elf: u64): FbLayout {
    Layout(true, fb, frtsAddr, frtsSize, boot, elf)
  }

  /** The same placement in unbounded integers. */
  function Ideal(fb: u64, frtsAddr: u64, frtsSize: u64, boot: u64, elf: u64): FbLayout {
    Layout(false, fb, frtsAddr, frtsSize, boot, elf)
  }

  predicate StartsOrdered(l: FbLayout) {
    l.nonWprAddr < l.wpr2Addr <= l.heapAddr < l.elfAddr < l.bootAddr < l.frtsAddr
  }

  function Place(fb: u64, frtsAddr: u64, frtsSize: u64, boot: u64, elf: u64): Outcome {
    if fb == 0 || frtsSize == 0 || boot == 0 || elf == 0 then BadArgument
    else
      var l := Computed(fb, frtsAddr, frtsSize, boot, elf);
      if l.wpr2End > fb || !StartsOrdered(l) then OutOfBounds else Placed(l)
  }

  /** The least whole number of megabytes that holds 20 + 8 + 96 of them and 96 KiB for each gigabyte begun,
      and 84 MiB in any case. */
  predicate LeastHeap(heap: int, fb: int) {
    var gigabytes := fb / 0x4000_0000 + if fb % 0x4000_0000 == 0 then 0 else 1;
    var need := (20 + 8 + 96) * 0x10_0000 + 96 * 0x400 * gigabytes;
    heap % 0x10_0000 == 0 && need <= heap < need + 0x10_0000 && 84 * 0x10_0000 <= heap
  }

  /** Every region in its full size, in order, without overlap, inside the framebuffer, and as high as
      its alignment allows. */
  predicate Sound(l: FbLayout, fb: int) {
    && 0 <= l.nonWprAddr && l.nonWprSize == 0x10_0000 && l.nonWprAddr + l.nonWprSize == l.wpr2Addr
    && l.wpr2Addr + 256 <= l.heapAddr < l.wpr2Addr + 256 + 0x10_0000
    && l.heapAddr + l.heapSize <= l.elfAddr < l.heapAddr + l.heapSize + 0x10_0000
    && l.elfAddr + l.elfSize <= l.bootAddr < l.elfAddr + l.elfSize + 0x1_0000
    && l.bootAddr + l.bootSize <= l.frtsAddr < l.bootAddr + l.bootSize + 0x1000
    && l.frtsAddr + l.frtsSize == l.wpr2End <= fb && l.wpr2Addr + l.wpr2Size == l.wpr2End
    && LeastHeap(l.heapSize, fb)
  }

  /** What a caller has to check for the start-address comparison to be enough. */
  predicate Bounded(fb: u64, frtsAddr: u64, frtsSize: u64, boot: u64, elf: u64) {
    fb <= TWO64 - 0x4000_0000 && frtsAddr + frtsSize < TWO64 && boot <= TWO64 - 0x1000 && elf <= TWO64 - 0x1_0000
  }

  function Demand(fb: u64): int { HeapFor((fb + 0x3fff_ffff) / 0x4000_0000) }

  /** It fits in unbounded integers. */
  predicate Fits(fb: u64, frtsAddr: u64, frtsSize: u64, boot: u64, elf: u64) {
    var l := Ideal(fb, frtsAddr, frtsSize, boot, elf);
    l.nonWprAddr >= 0 && l.wpr2End <= fb
  }

  lemma DownFacts(v: int, a: int)
    requires a > 0
    ensures v - a < Down(v, a) <= v && (0 <= v ==> 0 <= Down(v, a)) && (v < 0 ==> Down(v, a) < 0)
  {
    if 0 <= v < a { SmallRemainder(v, a); }
  }

  lemma SmallRemainder(v: int, a: int)
    requires 0 <= v < a
    ensures v % a == v
  {
  }

  lemma WrapFacts(x: int)
    ensures 0 <= x < TWO64 ==> Wrap(x) == x
    ensures -TWO64 <= x < 0 ==> Wrap(x) == x + TWO64
    ensures TWO64 <= x < 2 * TWO64 ==> Wrap(x) == x - TWO64
  {
  }

  /** Taking `s` below `p`: either it is there, or the wrapped start shows above `p`. */
  lemma Below(p: u64, s: int, a: int)
    requires 0 < a && 0 <= s <= TWO64 - a
    ensures s <= p ==> Wrap(p - s) == p - s && 0 <= Down(p - s, a) <= p - s
    ensures s > p ==> Down(Wrap(p - s), a) > p && Down(p - s, a) < 0
  {
    hide Wrap, Down;
    WrapFacts(p - s);
    DownFacts(p - s, a);
    DownFacts(Wrap(p - s), a);
  }

  lemma HeapFacts(gb: int)
    requires 0 <= gb <= 0x4_0000_0000
    ensures HeapFor(gb) % MEGABYTE == 0 && HEAP_MIN <= HeapFor(gb) < 0x10_0000_0000_0000
  {
    var d := Down(HEAP_PER_GB * gb + (MEGABYTE - 1), MEGABYTE);
    DownFacts(HEAP_PER_GB * gb + (MEGABYTE - 1), MEGABYTE);
    assert d % MEGABYTE == 0;
  }

  lemma Gigabytes(fb: u64)
    ensures 0 <= Wrap(fb + 0x3fff_ffff) / 0x4000_0000 < 0x4_0000_0000
    ensures 0 <= (fb + 0x3fff_ffff) / 0x4000_0000 <= 0x4_0000_0000
  {
  }

  /** On bounded inputs the comparison of start addresses decides exactly whether everything fits, and
      nothing that is accepted has wrapped. */
  lemma ComputedIsIdeal(fb: u64, frtsAddr: u64, frtsSize: u64, boot: u64, elf: u64)
    requires Bounded(fb, frtsAddr, frtsSize, boot, elf) && boot != 0 && elf != 0
    ensures var c := Computed(fb, frtsAddr, frtsSize, boot, elf);
            (Fits(fb, frtsAddr, frtsSize, boot, elf) <==> c.wpr2End <= fb && StartsOrdered(c))
            && (Fits(fb, frtsAddr, frtsSize, boot, elf) ==> c == Ideal(fb, frtsAddr, frtsSize, boot, elf))
  {
    hide Wrap, Down, HeapFor;
    var c, i := Computed(fb, frtsAddr, frtsSize, boot, elf), Ideal(fb, frtsAddr, frtsSize, boot, elf);
    WrapFacts(fb + 0x3fff_ffff);
    WrapFacts(frtsAddr + frtsSize);
    Gigabytes(fb);
    var heap := Demand(fb);
    HeapFacts((fb + 0x3fff_ffff) / 0x4000_0000);
    DownFacts(i.bootAddr - elf, 0x1_0000);
    DownFacts(i.elfAddr - heap, MEGABYTE);
    DownFacts(i.heapAddr - META_SIZE, MEGABYTE);
    Below(frtsAddr, boot, 0x1000);
    if boot <= frtsAddr {
      Below(c.bootAddr, elf, 0x1_0000);
      if elf <= c.bootAddr {
        Below(c.elfAddr, heap, MEGABYTE);
        if heap <= c.elfAddr {
          WrapFacts(c.elfAddr - c.heapAddr);
          Below(c.heapAddr, META_SIZE, MEGABYTE);
          if META_SIZE <= c.heapAddr {
            WrapFacts(c.wpr2Addr - MEGABYTE);
            WrapFacts(c.wpr2End - c.wpr2Addr);
          }
        }
      }
    }
  }

  /** Both ends are whole megabytes apart, so nothing is lost in rounding the heap size. */
  lemma HeapExact(top: int, heap: int)
    requires heap % MEGABYTE == 0
    ensures Down(top - Down(top - heap, MEGABYTE), MEGABYTE) == heap
  {
    var r := (top - heap) % MEGABYTE;
    assert top - Down(top - heap, MEGABYTE) == heap + r;
    assert (heap + r) % MEGABYTE == r;
  }

  lemma IdealIsSound(fb: u64, frtsAddr: u64, frtsSize: u64, boot: u64, elf: u64)
    requires Fits(fb, frtsAddr, frtsSize, boot, elf)
    ensures Sound(Ideal(fb, frtsAddr, frtsSize, boot, elf), fb)
  {
    hide Down, HeapFor, LeastHeap;
    var i, heap := Ideal(fb, frtsAddr, frtsSize, boot, elf), Demand(fb);
    Gigabytes(fb);
    DownFacts(frtsAddr - boot, 0x1000);
    DownFacts(i.bootAddr - elf, 0x1_0000);
    DownFacts(i.elfAddr - heap, MEGABYTE);
    DownFacts(i.heapAddr - META_SIZE, MEGABYTE);
    HeapFacts((fb + 0x3fff_ffff) / 0x4000_0000);
    HeapExact(i.elfAddr, heap);
    DemandIsLeast(fb);
  }

  /** An accepted layout is the intended one, with every region in its full size and place, exactly when
      the inputs are bounded. */
  lemma PlacedIsSound(fb: u64, frtsAddr: u64, frtsSize: u64, boot: u64, elf: u64)
    requires Place(fb, frtsAddr, frtsSize, boot, elf).Placed?
    ensures var l := Place(fb, frtsAddr, frtsSize, boot, elf).layout;
            Bounded(fb, frtsAddr, frtsSize, boot, elf) <==> Sound(l, fb)
  {
    hide Wrap, Down, HeapFor, LeastHeap;
    if Bounded(fb, frtsAddr, frtsSize, boot, elf) {
      ComputedIsIdeal(fb, frtsAddr, frtsSize, boot, elf);
      IdealIsSound(fb, frtsAddr, frtsSize, boot, elf);
    } else if fb > TWO64 - 0x4000_0000 {
      HeapTooSmall(fb, frtsAddr, frtsSize, boot, elf);
    }
  }

  /** With the gigabyte count wrapped to nothing, the heap falls short. */
  lemma HeapTooSmall(fb: u64, frtsAddr: u64, frtsSize: u64, boot: u64, elf: u64)
    requires fb > TWO64 - 0x4000_0000 && StartsOrdered(Computed(fb, frtsAddr, frtsSize, boot, elf))
    ensures !LeastHeap(Computed(fb, frtsAddr, frtsSize, boot, elf).heapSize, fb)
  {
    hide Wrap, Down, HeapFor;
    var c := Computed(fb, frtsAddr, frtsSize, boot, elf);
    WrapFacts(fb + 0x3fff_ffff);
    HeapLow();
    DownFacts(Wrap(frtsAddr - boot), 0x1000);
    DownFacts(Wrap(c.bootAddr - elf), 0x1_0000);
    Below(c.elfAddr, HeapFor(0), MEGABYTE);
    DownFacts(c.elfAddr - HeapFor(0), MEGABYTE);
    WrapFacts(c.elfAddr - c.heapAddr);
    DownFacts(c.elfAddr - c.heapAddr, MEGABYTE);
  }

  lemma DemandIsLeast(fb: u64)
    ensures LeastHeap(Demand(fb), fb)
  {
    hide HeapFor;
    Begun(fb);
    Gigabytes(fb);
    HeapRounded((fb + 0x3fff_ffff) / 0x4000_0000);
  }

  lemma Begun(fb: nat)
    ensures (fb + 0x3fff_ffff) / 0x4000_0000 == fb / 0x4000_0000 + if fb % 0x4000_0000 == 0 then 0 else 1
  {
  }

  lemma HeapRounded(gb: nat)
    requires gb <= 0x4_0000_0000
    ensures var need := (20 + 8 + 96) * 0x10_0000 + 96 * 0x400 * gb;
            HeapFor(gb) % 0x10_0000 == 0 && need <= HeapFor(gb) < need + 0x10_0000 && 84 * 0x10_0000 <= HeapFor(gb)
  {
    HeapFacts(gb);
    Ceiling(HEAP_PER_GB * gb);
  }

  lemma Ceiling(x: nat)
    ensures x <= Down(x + (MEGABYTE - 1), MEGABYTE) < x + 0x10_0000
  {
  }

  lemma HeapLow()
    ensures HeapFor(0) == 124 * MEGABYTE
  {
  }

  /** Bounded inputs are accepted exactly when the layout fits. */
  lemma PlacedExactly(fb: u64, frtsAddr: u64, frtsSize: u64, boot: u64, elf: u64)
    requires Bounded(fb, frtsAddr, frtsSize, boot, elf)
    ensures Place(fb, frtsAddr, frtsSize, boot, elf).Placed?
            <==> fb != 0 && frtsSize != 0 && boot != 0 && elf != 0 && Fits(fb, frtsAddr, frtsSize, boot, elf)
    ensures Place(fb, frtsAddr, frtsSize, boot, elf).BadArgument?
            <==> fb == 0 || frtsSize == 0 || boot == 0 || elf == 0
  {
    hide Layout;
    if boot != 0 && elf != 0 { ComputedIsIdeal(fb, frtsAddr, frtsSize, boot, elf); }
  }

  /** Not so without the bounds: a bootloader of 2^64 - 1 bytes is given a place below FRTS. */
  lemma WrapAccepted()
    ensures var o := Place(0x2_0000_0000, 0x1_0000_0800, 0x10_0000, 0xffff_ffff_ffff_ffff, 0x1000);
            o.Placed? && o.layout.bootAddr + o.layout.bootSize > o.layout.frtsAddr
  {
    hide Wrap, Down, HeapFor;
    var c := Computed(0x2_0000_0000, 0x1_0000_0800, 0x10_0000, 0xffff_ffff_ffff_ffff, 0x1000);
    WrapFacts(0x1_0000_0800 - 0xffff_ffff_ffff_ffff);
    WrapFacts(0x1_0000_0800 + 0x10_0000);
    WrapFacts(0x2_0000_0000 + 0x3fff_ffff);
    assert c.bootAddr == 0x1_0000_0000 by { ExampleBoot(); }
    Below(c.bootAddr, 0x1000, 0x1_0000);
    DownFacts(c.bootAddr - 0x1000, 0x1_0000);
    HeapEight();
    Below(c.elfAddr, HeapFor(8), MEGABYTE);
    DownFacts(c.elfAddr - HeapFor(8), MEGABYTE);
    Below(c.heapAddr, META_SIZE, MEGABYTE);
    DownFacts(c.heapAddr - META_SIZE, MEGABYTE);
    WrapFacts(c.wpr2Addr - MEGABYTE);
  }

  lemma ExampleBoot()
    ensures Down(0x1_0000_0801, 0x1000) == 0x1_0000_0000
  {
  }

  lemma HeapEight()
    ensures HeapFor(8) == 125 * MEGABYTE
  {
  }
}
