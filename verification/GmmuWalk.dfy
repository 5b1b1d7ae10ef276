/** The page walk, and what table contents make it translate one range (driver/gsp/gmmu.h,
    lines 53-104; tools/gmmu_test.c, lines 222-244). */
module GmmuWalk {
  import opened Words

  const VA_END: int := 0x2_0000_0000_0000
  const LEVELS: nat := 5

  datatype Option<T> = None | Some(value: T)

  // ----- The hardware walker: its own shifts, masks and entry decoding -----

  function WalkIndex(level: nat, a: int): int {
    if level == 0 then a / 0x8000_0000_0000 % 4
    else if level == 1 then a / 0x40_0000_0000 % 512
    else if level == 2 then a / 0x2000_0000 % 512
    else if level == 3 then a / 0x20_0000 % 256
    else a / 0x1000 % 512
  }

  /** Address field of an entry: bits 47:8 hold the page frame. */
  function Frame(entry: u64): int { entry / 0x100 % 0x100_0000_0000 * PAGE }

  function Fetch(m: Memory, table: int, a: int, level: nat): u64 {
    Rd64(m, table + WalkIndex(level, a) * (if level == 3 then 16 else 8) + (if level == 3 then 8 else 0))
  }

  function FetchLarge(m: Memory, table: int, a: int): u64 {
    Rd64(m, table + WalkIndex(3, a) * 16)
  }

  /** A page of video memory that every client may read and write: no other aperture, neither privileged nor
      read-only. */
  predicate Accessible(pte: u64) { pte / 2 % 4 == 0 && pte / 0x20 % 2 == 0 && pte / 0x40 % 2 == 0 }

  /** Follows the entries from `table`.  PD0 entries are 16 bytes: the walk goes on through the
      small-page half at +8, and only when the large-page half at +0 is empty. */
  function Walk(m: Memory, table: int, a: int, level: nat): Option<int>
    requires level < LEVELS
    decreases LEVELS - level
  {
    var entry := Fetch(m, table, a, level);
    if level == 4 then
      if entry % 2 == 0 || !Accessible(entry) then None else Some(Frame(entry) + a % PAGE)
    else
      if entry / 2 % 4 != 1 || (level == 3 && FetchLarge(m, table, a) != 0) then None
        else Walk(m, Frame(entry), a, level + 1)
  }

  // ----- Entry encodings -----

  const PTE_VALID := 1
  const PDE_APERTURE_VIDMEM := 2
  const PTE_PRIV := 0x20
  const PTE_RO := 0x40

  function MakePte(phys: u64, readOnly: bool, priv: bool): u64 {
    var data := SetBit(phys / 16, PTE_VALID);
    var data := if priv then SetBit(data, PTE_PRIV) else data;
    if readOnly then SetBit(data, PTE_RO) else data
  }

  function MakePde(table: u64): u64 { SetBit(table / 16, PDE_APERTURE_VIDMEM) }

  lemma PteDecodes(t: u64, readOnly: bool, priv: bool)
    requires t % PAGE == 0 && t < 0x10_0000_0000_0000
    ensures var pte := MakePte(t, readOnly, priv);
            pte % 2 == 1 && pte / 2 % 4 == 0 && Frame(pte) == t
            && (pte / 0x20 % 2 == 1 <==> priv) && (pte / 0x40 % 2 == 1 <==> readOnly)
            && pte == t / 16 + 1 + (if priv then 0x20 else 0) + if readOnly then 0x40 else 0
  {
    hide MakePte, Frame;
    var k := t / PAGE;
    EntryFields(k, readOnly, priv);
    FrameOf(k, PteFlags(readOnly, priv));
    PteBits(k, readOnly, priv);
  }

  lemma PteBits(k: nat, readOnly: bool, priv: bool)
    ensures var x := 256 * k + PteFlags(readOnly, priv);
            x % 2 == 1 && x / 2 % 4 == 0 && (x / 0x20 % 2 == 1 <==> priv) && (x / 0x40 % 2 == 1 <==> readOnly)
  {
    var flags := PteFlags(readOnly, priv);
    LowBits(k, flags);
    MiddleBits(k, flags);
    DropMultiple(4, flags / 2, 32 * k);
    DropMultiple(2, flags / 0x20, 4 * k);
    DropMultiple(2, flags / 0x40, 2 * k);
  }

  lemma PdeDecodes(t: u64)
    requires t % PAGE == 0 && t < 0x10_0000_0000_0000
    ensures MakePde(t) / 2 % 4 == 1 && Frame(MakePde(t)) == t && MakePde(t) == t / 16 + 2
  {
    var k := t / PAGE;
    EntryFields(k, false, false);
    FrameOf(k, 2);
    LowBits(k, 2);
    DropMultiple(4, 1, 32 * k);
  }

  function PteFlags(readOnly: bool, priv: bool): int {
    1 + (if priv then 0x20 else 0) + if readOnly then 0x40 else 0
  }

  lemma EntryFields(k: nat, readOnly: bool, priv: bool)
    requires k * PAGE < 0x10_0000_0000_0000
    ensures MakePte(k * PAGE, readOnly, priv) == 256 * k + PteFlags(readOnly, priv)
    ensures MakePde(k * PAGE) == 256 * k + 2
  {
    assert k * PAGE / 16 == 256 * k;
    SetsFreeBit(k, 0, 1);
    SetsFreeBit(k, 0, 2);
    SetsFreeBit(k, 1, 0x20);
    SetsFreeBit(k, if priv then 0x21 else 1, 0x40);
  }

  lemma SetsFreeBit(k: nat, flags: int, bit: int)
    requires (flags, bit) in {(0, 1), (0, 2), (1, 0x20), (1, 0x40), (0x21, 0x40)} && 256 * k < TWO64
    ensures SetBit(256 * k + flags, bit) == 256 * k + flags + bit
  {
    LowBits(k, flags);
    MiddleBits(k, flags);
    var q := if bit == 1 then 128 * k else if bit == 2 then 64 * k else if bit == 0x20 then 4 * k else 2 * k;
    DropMultiple(2, flags / bit, q);
  }

  lemma FrameOf(k: int, flags: int)
    requires 0 <= k < 0x100_0000_0000 && 0 <= flags < 0x100
    ensures Frame(256 * k + flags) == k * PAGE
  {
    assert (256 * k + flags) / 0x100 == k;
  }

  lemma LowBits(k: int, flags: int)
    requires 0 <= k && 0 <= flags < 0x100
    ensures (256 * k + flags) % 2 == flags % 2
    ensures (256 * k + flags) / 2 == 4 * (32 * k) + flags / 2
  {
  }

  lemma MiddleBits(k: int, flags: int)
    requires 0 <= k && 0 <= flags < 0x100
    ensures (256 * k + flags) / 0x20 == 2 * (4 * k) + flags / 0x20
    ensures (256 * k + flags) / 0x40 == 2 * (2 * k) + flags / 0x40
  {
  }

  lemma DropMultiple(d: int, x: int, q: int)
    requires d in {2, 4}
    ensures (d * q + x) % d == x % d
  {
  }

  // ----- Prefixes: which table of a level serves an address -----

  /** VA prefix of `a` at a level: the number, over the whole space, of the table that serves it;
      level 5 numbers the data pages. */
  function Prefix(a: int, level: nat): int {
    if level == 0 then a / 0x2_0000_0000_0000
    else if level == 1 then a / 0x8000_0000_0000
    else if level == 2 then a / 0x40_0000_0000
    else if level == 3 then a / 0x2000_0000
    else if level == 4 then a / 0x20_0000
    else a / 0x1000
  }

  /** The parent, at `level`, of prefix `p` at `level + 1`. */
  function Up(level: nat, p: int): int {
    if level == 0 then p / 4 else if level == 3 then p / 256 else p / 512
  }

  function Digit(level: nat, p: int): int {
    if level == 0 then p % 4 else if level == 3 then p % 256 else p % 512
  }

  lemma PrefixSplits(a: int, level: nat)
    requires level < LEVELS && 0 <= a
    ensures Up(level, Prefix(a, level + 1)) == Prefix(a, level)
    ensures Digit(level, Prefix(a, level + 1)) == WalkIndex(level, a)
  {
  }

  lemma PrefixMonotone(a: int, b: int, level: nat)
    requires a <= b
    ensures Prefix(a, level) <= Prefix(b, level)
  {
  }

  // ----- A range and its tables -----

  datatype Range = Range(va: u64, bytes: u64, tablePhys: u64, tableBytes: u64,
                         levelPhys: seq<u64>, levelCount: seq<u32>)
  {
    function First(level: nat): int { Prefix(va, level) }

    /** How many tables of a level, or data pages at level 5, the range touches. */
    function Count(level: nat): int {
      Prefix(va + bytes - 1, level) - Prefix(va, level) + 1
    }

    predicate Has(level: nat, q: int) { First(level) <= q < First(level) + Count(level) }

    predicate Shaped() {
      && |levelPhys| == |levelCount| == LEVELS
      && va % PAGE == 0 && bytes % PAGE == 0 && 0 < bytes && va + bytes <= VA_END
    }

    function Table(level: nat, q: int): int
      requires level < |levelPhys|
    {
      levelPhys[level] + (q - First(level)) * PAGE
    }

    /** Where the parent at `level` keeps the entry for prefix `p` of the next level. */
    function Slot(level: nat, p: int): int
      requires level < |levelPhys|
    {
      Table(level, Up(level, p)) + Digit(level, p) * (if level == 3 then 16 else 8) + (if level == 3 then 8 else 0)
    }

    /** The large-page half of the PD0 entry for prefix `p`. */
    function Large(p: int): int
      requires |levelPhys| == LEVELS
    {
      Table(3, Up(3, p)) + Digit(3, p) * 16
    }

    /** Base of the child: a lower table, or a data page of the region at `phys`. */
    function Child(phys: int, level: nat, p: int): int
      requires level < |levelPhys| == LEVELS
    {
      if level == 4 then phys + (p - First(5)) * PAGE else Table(level + 1, p)
    }

    predicate Addressable(phys: int)
      requires Shaped()
    {
      && 0 <= phys && phys % PAGE == 0 && phys + bytes <= 0x10_0000_0000_0000
      && forall level :: 0 <= level < LEVELS ==>
           levelPhys[level] % PAGE == 0 && levelPhys[level] + Count(level) * PAGE <= 0x100_0000_0000
    }

    function Entry(phys: int, level: nat, p: int): u64
      requires level < LEVELS && Shaped() && Addressable(phys) && Has(level + 1, p)
    {
      if level == 4 then
        assert Child(phys, level, p) < 0x10_0000_0000_0000;
        MakePte(Child(phys, level, p), false, false)
      else MakePde(Child(phys, level, p))
    }
  }

  /** Whether child number `k` of level `c` comes before the point (level, n) of the build. */
  predicate Before(c: nat, k: int, level: nat, n: int) { c < level || (c == level && k < n) }

  /** Tables built as far as child `n` of `upTo`: every entry of every table holds what its child
      needs if that child was reached, and zero otherwise; large-page halves are empty. */
  ghost predicate BuiltTo(m: Memory, r: Range, phys: int, upTo: nat, n: int)
    requires r.Shaped() && r.Addressable(phys)
  {
    && (forall level: nat, p: int :: level < LEVELS && r.Has(level, Up(level, p)) ==>
          Rd64(m, r.Slot(level, p)) ==
          if r.Has(level + 1, p) && Before(level + 1, p - r.First(level + 1), upTo, n)
          then r.Entry(phys, level, p) else 0)
    && forall p: int :: r.Has(3, Up(3, p)) ==> Rd64(m, r.Large(p)) == 0
  }

  /** Every entry of every table of the range is the one its child needs, and all others are zero. */
  ghost predicate Translates(m: Memory, r: Range, phys: int)
    requires r.Shaped() && r.Addressable(phys)
  {
    BuiltTo(m, r, phys, LEVELS, r.Count(LEVELS))
  }

  lemma InsideIsPresent(r: Range, a: int, level: nat)
    requires r.Shaped() && 0 <= a && level <= LEVELS
    ensures r.va <= a < r.va + r.bytes ==> r.Has(level, Prefix(a, level))
  {
    if r.va <= a < r.va + r.bytes {
      PrefixMonotone(r.va, a, level);
      PrefixMonotone(a, r.va + r.bytes - 1, level);
    }
  }

  lemma PageIsPresent(r: Range, a: int, pages: int)
    requires r.Shaped() && 0 <= a && 0 <= pages <= r.Count(LEVELS)
    ensures r.va <= a < r.va + pages * PAGE <==>
              r.Has(LEVELS, Prefix(a, LEVELS)) && Prefix(a, LEVELS) - r.First(LEVELS) < pages
    ensures r.Count(LEVELS) * PAGE == r.bytes
    ensures (Prefix(a, LEVELS) - r.First(LEVELS)) * PAGE + a % PAGE == a - r.va
  {
  }

  lemma ChildFits(r: Range, phys: int, level: nat, p: int)
    requires r.Shaped() && r.Addressable(phys) && level < LEVELS && r.Has(level + 1, p)
    ensures 0 <= r.Child(phys, level, p) < 0x10_0000_0000_0000 && r.Child(phys, level, p) % PAGE == 0
    ensures level < 4 ==> r.Child(phys, level, p) < 0x100_0000_0000
  {
    if level == 4 {
      assert r.Count(5) * PAGE == r.bytes;
    }
  }

  /** Whether the child for prefix `p` of `level + 1` is in place once `pages` leaf entries are written. */
  predicate InPlace(r: Range, level: nat, p: int, pages: int) {
    r.Has(level + 1, p) && (level == 4 ==> p - r.First(5) < pages)
  }

  /** What one step of the walk finds at a table of the range. */
  lemma WalkReads(m: Memory, r: Range, phys: int, pages: int, a: int, level: nat)
    requires r.Shaped() && r.Addressable(phys) && BuiltTo(m, r, phys, LEVELS, pages)
    requires 0 <= a && level < LEVELS && r.Has(level, Prefix(a, level))
    ensures var p := Prefix(a, level + 1);
            Fetch(m, r.Table(level, Prefix(a, level)), a, level)
            == if InPlace(r, level, p, pages) then r.Entry(phys, level, p) else 0
    ensures level == 3 ==> FetchLarge(m, r.Table(level, Prefix(a, level)), a) == 0
  {
    hide Prefix, Up, Digit, WalkIndex;
    var p := Prefix(a, level + 1);
    PrefixSplits(a, level);
    assert Before(level + 1, p - r.First(level + 1), LEVELS, pages) == (level == 4 ==> p - r.First(5) < pages);
    assert level == 3 ==> Rd64(m, r.Large(p)) == 0;
  }

  lemma WalkStops(m: Memory, r: Range, phys: int, pages: int, a: int, level: nat)
    requires r.Shaped() && r.Addressable(phys) && BuiltTo(m, r, phys, LEVELS, pages)
    requires 0 <= a && level < LEVELS && r.Has(level, Prefix(a, level))
    requires !InPlace(r, level, Prefix(a, level + 1), pages)
    ensures Walk(m, r.Table(level, Prefix(a, level)), a, level) == None
  {
    hide Prefix, BuiltTo, Fetch;
    WalkReads(m, r, phys, pages, a, level);
  }

  lemma WalkDescends(m: Memory, r: Range, phys: int, pages: int, a: int, level: nat)
    requires r.Shaped() && r.Addressable(phys) && BuiltTo(m, r, phys, LEVELS, pages)
    requires 0 <= a && level < LEVELS && r.Has(level, Prefix(a, level))
    requires InPlace(r, level, Prefix(a, level + 1), pages)
    ensures var child := r.Child(phys, level, Prefix(a, level + 1));
            Walk(m, r.Table(level, Prefix(a, level)), a, level)
            == if level == 4 then Some(child + a % PAGE) else Walk(m, child, a, level + 1)
  {
    hide Prefix, BuiltTo, Fetch, FetchLarge, MakePte, MakePde, Frame;
    WalkReads(m, r, phys, pages, a, level);
    ChildFits(r, phys, level, Prefix(a, level + 1));
    if level == 4 {
      PteDecodes(r.Child(phys, level, Prefix(a, level + 1)), false, false);
    } else {
      PdeDecodes(r.Child(phys, level, Prefix(a, level + 1)));
    }
  }

  /** With the first `pages` leaf entries in place, exactly their addresses translate. */
  lemma {:induction false} WalkFrom(m: Memory, r: Range, phys: int, pages: int, a: int, level: nat)
    requires r.Shaped() && r.Addressable(phys) && BuiltTo(m, r, phys, LEVELS, pages) && 0 <= pages <= r.Count(LEVELS)
    requires 0 <= a && level < LEVELS && r.Has(level, Prefix(a, level))
    ensures Walk(m, r.Table(level, Prefix(a, level)), a, level)
            == if r.va <= a < r.va + pages * PAGE then Some(phys + (a - r.va)) else None
    decreases LEVELS - level
  {
    hide Prefix, BuiltTo, Walk;
    InsideIsPresent(r, a, level + 1);
    PageIsPresent(r, a, pages);
    if InPlace(r, level, Prefix(a, level + 1), pages) {
      WalkDescends(m, r, phys, pages, a, level);
      if level < 4 {
        WalkFrom(m, r, phys, pages, a, level + 1);
      }
    } else {
      WalkStops(m, r, phys, pages, a, level);
    }
  }

  lemma {:induction false} WalkFromRoot(m: Memory, r: Range, phys: int, pages: int, a: int)
    requires r.Shaped() && r.Addressable(phys) && BuiltTo(m, r, phys, LEVELS, pages) && 0 <= pages <= r.Count(LEVELS)
    requires 0 <= a < VA_END
    ensures Walk(m, r.levelPhys[0], a, 0)
            == if r.va <= a < r.va + pages * PAGE then Some(phys + (a - r.va)) else None
  {
    assert Prefix(a, 0) == 0 && r.First(0) == 0;
    WalkFrom(m, r, phys, pages, a, 0);
  }

  /** The translation theorem: from the root, exactly the addresses of the range translate, each to
      its own byte. */
  lemma {:induction false} WalkTranslates(m: Memory, r: Range, phys: int, a: int)
    requires r.Shaped() && r.Addressable(phys) && Translates(m, r, phys) && 0 <= a < VA_END
    ensures Walk(m, r.levelPhys[0], a, 0)
            == if r.va <= a < r.va + r.bytes then Some(phys + (a - r.va)) else None
  {
    PageIsPresent(r, a, 0);
    WalkFromRoot(m, r, phys, r.Count(LEVELS), a);
  }
}
