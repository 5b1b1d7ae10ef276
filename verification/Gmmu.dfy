/** Planning and writing page tables through PRAMIN (driver/gsp/gmmu.c, lines 76-249). */
module Gmmu {
  import opened Words
  import opened PraminWindow
  import opened GmmuWalk

  // ----- Planning -----

  /** Pages of tables above `level`. */
  function PagesAbove(r: Range, level: nat): int
    requires level <= LEVELS
  {
    if level == 0 then 0 else PagesAbove(r, level - 1) + r.Count(level - 1)
  }

  /** The tables follow one another from `tablePhys`, level after level. */
  ghost predicate Tiled(r: Range) {
    && |r.levelPhys| == |r.levelCount| == LEVELS
    && (forall level :: 0 <= level < LEVELS ==>
          r.levelPhys[level] == r.tablePhys + PagesAbove(r, level) * PAGE && r.levelCount[level] == r.Count(level))
    && r.tableBytes == PagesAbove(r, LEVELS) * PAGE
  }

  const EMPTY_RANGE := Range(0, 0, 0, 0, [0, 0, 0, 0, 0], [0, 0, 0, 0, 0])

  predicate ArgumentsOk(va: u64, bytes: u64, tablePhys: u64) {
    && bytes != 0 && va % PAGE == 0 && bytes % PAGE == 0 && tablePhys % PAGE == 0
    && va + bytes <= 0x2_0000_0000_0000 && bytes <= 0x100_0000_0000 && tablePhys < 0x100_0000_0000
  }

  predicate TablesFit(va: u64, bytes: u64, tablePhys: u64)
    requires ArgumentsOk(va, bytes, tablePhys)
  {
    tablePhys + PagesAbove(Range(va, bytes, 0, 0, [], []), LEVELS) * PAGE <= 0x100_0000_0000
  }

  lemma CountBounds(r: Range, level: nat)
    requires 0 < r.bytes <= PHYS_END && level <= LEVELS
    ensures 1 <= r.Count(level) <= r.bytes / PAGE + 2
    ensures r.bytes <= PHYS_END ==> r.Count(level) < 0x2000_0000
  {
    PrefixMonotone(r.va, r.va + r.bytes - 1, level);
  }

  lemma {:induction false} PagesAboveBounds(r: Range, level: nat)
    requires 0 < r.bytes <= PHYS_END && level <= LEVELS
    ensures level <= PagesAbove(r, level) <= level * 0x2000_0000
  {
    if level > 0 {
      PagesAboveBounds(r, level - 1);
      CountBounds(r, level - 1);
    }
  }

  lemma {:induction false} PagesAboveDepends(r: Range, s: Range, level: nat)
    requires r.va == s.va && r.bytes == s.bytes && level <= LEVELS
    ensures PagesAbove(r, level) == PagesAbove(s, level)
  {
    if level > 0 {
      PagesAboveDepends(r, s, level - 1);
    }
  }

  lemma {:induction false} PlanIsTiled(r: Range, g: Range)
    requires r.va == g.va && r.bytes == g.bytes && |r.levelPhys| == |r.levelCount| == LEVELS
    requires r.tableBytes == PagesAbove(g, LEVELS) * PAGE
    requires forall i :: 0 <= i < LEVELS ==>
               r.levelPhys[i] == r.tablePhys + PagesAbove(g, i) * PAGE && r.levelCount[i] == g.Count(i)
    ensures Tiled(r)
  {
    forall level | 0 <= level <= LEVELS ensures PagesAbove(r, level) == PagesAbove(g, level) {
      PagesAboveDepends(r, g, level);
    }
  }

  lemma TiledIsUnique(r: Range, s: Range)
    requires Tiled(r) && Tiled(s) && r.va == s.va && r.bytes == s.bytes && r.tablePhys == s.tablePhys
    ensures r == s
  {
    hide Prefix;
    forall level | 0 <= level <= LEVELS ensures PagesAbove(r, level) == PagesAbove(s, level) {
      PagesAboveDepends(r, s, level);
    }
  }

  /** Only computes: -1 leaves an empty plan, -2 (not enough capacity) still reports the size needed. */
  method RangePlan(va: u64, bytes: u64, tablePhys: u64, capacity: u64) returns (rc: int, out: Range)
    ensures rc == -1 <==> !ArgumentsOk(va, bytes, tablePhys) || !TablesFit(va, bytes, tablePhys)
    ensures rc == -1 ==> out == EMPTY_RANGE
    ensures rc != -1 ==> out.va == va && out.bytes == bytes && out.tablePhys == tablePhys && Tiled(out)
    ensures rc != -1 ==> rc == if capacity < out.tableBytes then -2 else 0
  {
    hide Prefix;
    out := EMPTY_RANGE;
    if bytes == 0 || va % PAGE != 0 || bytes % PAGE != 0 || tablePhys % PAGE != 0
       || va >= VA_END || bytes > VA_END - va || bytes > PHYS_END || tablePhys >= PHYS_END {
      return -1, out;
    }
    var last: u64 := va + bytes - 1;
    var tableBytes: u64, levelPhys: seq<u64>, levelCount: seq<u32> := 0, [], [];
    ghost var g := Range(va, bytes, 0, 0, [], []);
    for level := 0 to LEVELS
      invariant |levelPhys| == |levelCount| == level
      invariant tableBytes == PagesAbove(g, level) * PAGE
      invariant forall i :: 0 <= i < level ==>
                  levelPhys[i] == tablePhys + PagesAbove(g, i) * PAGE && levelCount[i] == g.Count(i)
    {
      PagesAboveBounds(g, level);
      CountBounds(g, level);
      var count: u64 := Prefix(last, level) - Prefix(va, level) + 1;
      assert count == g.Count(level);
      levelCount := levelCount + [count % TWO32];
      levelPhys := levelPhys + [tablePhys + tableBytes];
      tableBytes := tableBytes + count * PAGE;
    }
    if tableBytes > PHYS_END - tablePhys { return -1, out; }
    out := Range(va, bytes, tablePhys, tableBytes, levelPhys, levelCount);
    PlanIsTiled(out, g);
    rc := if capacity < tableBytes then -2 else 0;
  }

  // ----- Where entries lie -----

  /** Tables of different levels share no page. */
  ghost predicate Separate(r: Range)
    requires r.Shaped()
  {
    forall i, j :: 0 <= i < LEVELS && 0 <= j < LEVELS && i != j ==>
      r.levelPhys[i] + r.Count(i) * PAGE <= r.levelPhys[j] || r.levelPhys[j] + r.Count(j) * PAGE <= r.levelPhys[i]
  }

  lemma {:induction false} PagesAboveGrows(r: Range, i: nat, j: nat)
    requires 0 < r.bytes <= PHYS_END && i < j <= LEVELS
    ensures PagesAbove(r, i) + r.Count(i) <= PagesAbove(r, j)
  {
    hide Prefix;
    if i + 1 < j {
      PagesAboveGrows(r, i, j - 1);
      CountBounds(r, j - 1);
    }
  }

  lemma TiledIsSeparate(r: Range)
    requires r.Shaped() && Tiled(r) && r.bytes <= PHYS_END
    ensures Separate(r)
    ensures forall level :: 0 <= level < LEVELS ==>
              r.tablePhys <= r.levelPhys[level]
              && r.levelPhys[level] + r.Count(level) * PAGE <= r.tablePhys + r.tableBytes
  {
    hide Prefix;
    forall i, j | 0 <= i < j <= LEVELS
      ensures PagesAbove(r, i) + r.Count(i) <= PagesAbove(r, j)
    {
      PagesAboveGrows(r, i, j);
    }
    forall i | 0 <= i < LEVELS ensures 0 <= PagesAbove(r, i) {
      PagesAboveBounds(r, i);
    }
  }

  /** Place of an entry inside its table page. */
  function Place(level: nat, p: int): int {
    Digit(level, p) * (if level == 3 then 16 else 8) + (if level == 3 then 8 else 0)
  }

  lemma PlaceFits(level: nat, p: int)
    requires level < LEVELS
    ensures 0 <= Place(level, p) <= PAGE - 8 && Place(level, p) % 8 == 0
    ensures level == 3 ==> 0 <= Digit(3, p) * 16 <= PAGE - 16 && Place(3, p) % 16 == 8
  {
  }

  lemma PlaceDiffers(level: nat, p: int, q: int)
    requires level < LEVELS && Up(level, p) == Up(level, q) && p != q
    ensures Place(level, p) != Place(level, q)
  {
  }

  /** Different entries of a range never share a word. */
  lemma SlotsDiffer(r: Range, i: nat, p: int, j: nat, q: int)
    requires r.Shaped() && Separate(r) && i < LEVELS && j < LEVELS
    requires r.Has(i, Up(i, p)) && r.Has(j, Up(j, q)) && (i, p) != (j, q)
    ensures r.Slot(i, p) != r.Slot(j, q)
  {
    hide Prefix, Up, Digit;
    PlaceFits(i, p);
    PlaceFits(j, q);
    if i == j {
      if Up(i, p) == Up(j, q) {
        PlaceDiffers(i, p, q);
      }
      PagesDiffer(Up(i, p) - r.First(i), Up(j, q) - r.First(i), Place(i, p), Place(i, q));
    }
    assert r.Slot(i, p) == r.Table(i, Up(i, p)) + Place(i, p);
    assert r.Slot(j, q) == r.Table(j, Up(j, q)) + Place(j, q);
  }

  lemma PagesDiffer(m: int, n: int, a: int, b: int)
    requires 0 <= a < PAGE && 0 <= b < PAGE && (m != n || a != b)
    ensures m * PAGE + a != n * PAGE + b
  {
  }

  lemma SlotMissesLarge(r: Range, i: nat, p: int, q: int)
    requires r.Shaped() && Separate(r) && i < LEVELS && r.Has(i, Up(i, p)) && r.Has(3, Up(3, q))
    ensures r.Slot(i, p) != r.Large(q)
  {
    hide Prefix, Up, Digit;
    PlaceFits(i, p);
    PlaceFits(3, q);
    if i == 3 {
      HalvesDiffer(p, q);
      PagesDiffer(Up(3, p) - r.First(3), Up(3, q) - r.First(3), Place(3, p), Digit(3, q) * 16);
    }
    assert r.Slot(i, p) == r.Table(i, Up(i, p)) + Place(i, p);
    assert r.Large(q) == r.Table(3, Up(3, q)) + Digit(3, q) * 16;
  }

  lemma HalvesDiffer(p: int, q: int)
    ensures Place(3, p) != Digit(3, q) * 16
  {
  }

  lemma LargeAligned(r: Range, q: int)
    requires r.Shaped() && r.levelPhys[3] % PAGE == 0
    ensures r.Large(q) % 8 == 0
  {
    hide Prefix, Up, Digit;
    PlaceAligned(r.levelPhys[3], Up(3, q) - r.First(3), Digit(3, q) * 16);
  }

  lemma SlotInArena(r: Range, level: nat, p: int)
    requires r.Shaped() && Tiled(r) && r.bytes <= PHYS_END && level < LEVELS && r.Has(level, Up(level, p))
    ensures r.tablePhys <= r.Slot(level, p) && r.Slot(level, p) + 8 <= r.tablePhys + r.tableBytes
  {
    hide Prefix, Up, Digit;
    TiledIsSeparate(r);
    PlaceFits(level, p);
    assert r.Slot(level, p) == r.Table(level, Up(level, p)) + Place(level, p);
  }

  // ----- One entry at a time -----

  /** Writing the entry of the next child moves the build one child on. */
  lemma EntryAdvances(m: Memory, r: Range, phys: int, level: nat, n: int)
    requires r.Shaped() && r.Addressable(phys) && Separate(r) && level < LEVELS
    requires 0 <= n < r.Count(level + 1) && BuiltTo(m, r, phys, level + 1, n)
    ensures var p := r.First(level + 1) + n;
            r.Has(level, Up(level, p)) && Rd64(m, r.Slot(level, p)) == 0
            && BuiltTo(Wr64(m, r.Slot(level, p), r.Entry(phys, level, p)), r, phys, level + 1, n + 1)
  {
    hide Prefix, Up, Digit;
    var p := r.First(level + 1) + n;
    ParentIsPresent(r, level, p);
    var slot := r.Slot(level, p);
    var m' := Wr64(m, slot, r.Entry(phys, level, p));
    SlotAligned(r, level, p);
    forall i: nat, q: int | i < LEVELS && r.Has(i, Up(i, q))
      ensures Rd64(m', r.Slot(i, q)) ==
              if r.Has(i + 1, q) && Before(i + 1, q - r.First(i + 1), level + 1, n + 1) then r.Entry(phys, i, q) else 0
    {
      if (i, q) != (level, p) {
        SlotsDiffer(r, i, q, level, p);
      }
      SlotAligned(r, i, q);
      Wr64Reads(m, slot, r.Entry(phys, level, p), r.Slot(i, q));
    }
    LargeStaysEmpty(m, r, level, p, r.Entry(phys, level, p));
  }

  lemma LargeStaysEmpty(m: Memory, r: Range, level: nat, p: int, entry: u64)
    requires r.Shaped() && Separate(r) && level < LEVELS && r.Has(level, Up(level, p))
    requires forall l :: 0 <= l < LEVELS ==> r.levelPhys[l] % PAGE == 0
    requires forall q: int :: r.Has(3, Up(3, q)) ==> Rd64(m, r.Large(q)) == 0
    ensures forall q: int :: r.Has(3, Up(3, q)) ==> Rd64(Wr64(m, r.Slot(level, p), entry), r.Large(q)) == 0
  {
    hide Prefix, Up, Digit;
    forall q: int | r.Has(3, Up(3, q)) ensures Rd64(Wr64(m, r.Slot(level, p), entry), r.Large(q)) == 0 {
      SlotMissesLarge(r, level, p, q);
      SlotAligned(r, level, p);
      LargeAligned(r, q);
      Wr64Reads(m, r.Slot(level, p), entry, r.Large(q));
    }
  }

  lemma SlotAligned(r: Range, level: nat, p: int)
    requires r.Shaped() && level < LEVELS && r.levelPhys[level] % PAGE == 0
    ensures r.Slot(level, p) % 8 == 0
  {
    hide Prefix, Up, Digit;
    PlaceFits(level, p);
    PlaceAligned(r.levelPhys[level], Up(level, p) - r.First(level), Place(level, p));
  }

  lemma PlaceAligned(base: int, page: int, place: int)
    requires base % PAGE == 0 && place % 8 == 0
    ensures (base + page * PAGE + place) % 8 == 0
  {
  }

  lemma ParentIsPresent(r: Range, level: nat, p: int)
    requires r.Shaped() && level < LEVELS && r.Has(level + 1, p)
    ensures r.Has(level, Up(level, p))
  {
    PrefixSplits(r.va, level);
    PrefixSplits(r.va + r.bytes - 1, level);
    UpMonotone(level, r.First(level + 1), p);
    UpMonotone(level, p, r.First(level + 1) + r.Count(level + 1) - 1);
  }

  lemma UpMonotone(level: nat, p: int, q: int)
    requires p <= q
    ensures Up(level, p) <= Up(level, q)
  {
  }

  lemma LevelDone(m: Memory, r: Range, phys: int, level: nat)
    requires r.Shaped() && r.Addressable(phys) && level < LEVELS
    requires BuiltTo(m, r, phys, level, r.Count(level))
    ensures BuiltTo(m, r, phys, level + 1, 0)
  {
    hide Prefix, Up, Digit;
  }

  // ----- Building -----

  predicate InArena(r: Range, a: int) { r.tablePhys <= a < r.tablePhys + r.tableBytes }

  ghost predicate SameOutside(m: Memory, m0: Memory, r: Range) {
    forall a :: !InArena(r, a) ==> Rd32(m, a) == Rd32(m0, a)
  }

  /** The stores recorded from `start` on lie in the arena, and those from `cleared` on hit zero words. */
  ghost predicate StoresIn(log: seq<Stored>, start: nat, cleared: nat, r: Range) {
    && (forall k :: start <= k < |log| ==> InArena(r, log[k].addr))
    && forall k :: cleared <= k < |log| ==> log[k].was == 0
  }

  ghost predicate Cleared(m: Memory, base: int, bytes: int) {
    forall k :: 0 <= k < bytes / 4 ==> Rd32(m, base + 4 * k) == 0
  }

  /** What the builder accepts: a plan as `RangePlan` makes it, and data that fits below 2^40 beside the tables. */
  ghost predicate Buildable(r: Range, phys: u64) {
    && ArgumentsOk(r.va, r.bytes, r.tablePhys) && TablesFit(r.va, r.bytes, r.tablePhys) && Tiled(r)
    && phys % PAGE == 0 && phys + r.bytes <= PHYS_END
    && (phys + r.bytes <= r.tablePhys || r.tablePhys + r.tableBytes <= phys)
  }

  lemma BuildableIsAddressable(r: Range, phys: u64)
    requires Buildable(r, phys)
    ensures r.Shaped() && Tiled(r) && r.bytes <= PHYS_END && r.Addressable(phys) && Separate(r)
    ensures r.tablePhys % PAGE == 0 && r.tableBytes % PAGE == 0 && r.tablePhys + r.tableBytes <= PHYS_END
    ensures r.levelPhys[0] == r.tablePhys
  {
    hide Prefix, Separate;
    var g := Range(r.va, r.bytes, 0, 0, [], []);
    PagesAboveDepends(r, g, LEVELS);
    TiledIsSeparate(r);
    TiledIsAligned(r);
  }

  lemma TiledIsAligned(r: Range)
    requires Tiled(r) && r.tablePhys % PAGE == 0
    ensures forall level :: 0 <= level < LEVELS ==> r.levelPhys[level] % PAGE == 0
    ensures r.tableBytes % PAGE == 0
  {
    hide Prefix, PagesAbove;
    forall level | 0 <= level < LEVELS ensures r.levelPhys[level] % PAGE == 0 {
      PageMultiple(r.tablePhys, PagesAbove(r, level));
    }
    PageMultiple(0, PagesAbove(r, LEVELS));
  }

  lemma PageMultiple(base: int, n: int)
    requires base % PAGE == 0
    ensures (base + n * PAGE) % PAGE == 0
  {
  }

  lemma {:induction false} RecordFillIn(m: Memory, a: int, count: nat, v: u32)
    ensures |RecordFill(m, a, count, v)| == count
    ensures forall k :: 0 <= k < count ==> a <= RecordFill(m, a, count, v)[k].addr < a + 4 * count
  {
    if count > 0 {
      RecordFillIn(m, a, count - 1, v);
    }
  }

  lemma PageClears(m: Memory, base: int, done: int, bytes: int)
    requires Cleared(m, base, done) && 0 <= done && done % 4 == 0 && 0 <= bytes && bytes % 4 == 0
    ensures Cleared(Fill(m, base + done, bytes / 4, 0), base, done + bytes)
    ensures forall a :: !(base + done <= a < base + done + bytes) ==>
              Rd32(Fill(m, base + done, bytes / 4, 0), a) == Rd32(m, a)
  {
    var words, count := done / 4, bytes / 4;
    FillReads(m, base + done, count, 0);
    forall k | 0 <= k < words + count ensures Rd32(Fill(m, base + done, count, 0), base + 4 * k) == 0 {
      if words <= k {
        assert base + 4 * k == base + done + 4 * (k - words);
      }
    }
  }

  lemma ClearedIsUnbuilt(m: Memory, r: Range, phys: u64)
    requires Buildable(r, phys) && Cleared(m, r.tablePhys, r.tableBytes)
    ensures r.Shaped() && r.Addressable(phys) && BuiltTo(m, r, phys, 1, 0)
  {
    hide Prefix, Up, Digit, BuiltTo, Cleared, Separate, Tiled, Buildable;
    BuildableIsAddressable(r, phys);
    forall level: nat, p: int | level < LEVELS && r.Has(level, Up(level, p)) ensures Rd64(m, r.Slot(level, p)) == 0 {
      SlotIsCleared(m, r, level, p);
    }
    forall p: int | r.Has(3, Up(3, p)) ensures Rd64(m, r.Large(p)) == 0 {
      LargeIsCleared(m, r, p);
    }
    NothingBuilt(m, r, phys);
  }

  lemma SlotIsCleared(m: Memory, r: Range, level: nat, p: int)
    requires r.Shaped() && Tiled(r) && r.bytes <= PHYS_END && level < LEVELS && r.Has(level, Up(level, p))
    requires Cleared(m, r.tablePhys, r.tableBytes) && r.tablePhys % PAGE == 0 && r.levelPhys[level] % PAGE == 0
    ensures Rd64(m, r.Slot(level, p)) == 0
  {
    hide Prefix, Up, Digit, Cleared, Tiled;
    SlotInArena(r, level, p);
    SlotAligned(r, level, p);
    PlaceAligned(r.tablePhys, 0, 0);
    ClearedReads(m, r, r.Slot(level, p));
  }

  lemma LargeIsCleared(m: Memory, r: Range, p: int)
    requires r.Shaped() && Tiled(r) && r.bytes <= PHYS_END && r.Has(3, Up(3, p))
    requires Cleared(m, r.tablePhys, r.tableBytes) && r.tablePhys % PAGE == 0 && r.levelPhys[3] % PAGE == 0
    ensures Rd64(m, r.Large(p)) == 0
  {
    hide Prefix, Up, Digit, Cleared, Tiled;
    LargeInArena(r, p);
    PlaceAligned(r.tablePhys, 0, 0);
    ClearedReads(m, r, r.Large(p));
  }

  lemma NothingBuilt(m: Memory, r: Range, phys: u64)
    requires r.Shaped() && r.Addressable(phys)
    requires forall level: nat, p: int :: level < LEVELS && r.Has(level, Up(level, p)) ==>
               Rd64(m, r.Slot(level, p)) == 0
    requires forall p: int :: r.Has(3, Up(3, p)) ==> Rd64(m, r.Large(p)) == 0
    ensures BuiltTo(m, r, phys, 1, 0)
  {
    hide Prefix, Up, Digit;
  }

  lemma ClearedReads(m: Memory, r: Range, a: int)
    requires Cleared(m, r.tablePhys, r.tableBytes) && r.tablePhys % 8 == 0 && a % 8 == 0
    requires r.tablePhys <= a && a + 8 <= r.tablePhys + r.tableBytes
    ensures Rd64(m, a) == 0
  {
    var k := (a - r.tablePhys) / 4;
    assert a == r.tablePhys + 4 * k && a + 4 == r.tablePhys + 4 * (k + 1);
  }

  lemma LargeInArena(r: Range, p: int)
    requires r.Shaped() && Tiled(r) && r.bytes <= PHYS_END && r.Has(3, Up(3, p)) && r.levelPhys[3] % PAGE == 0
    ensures r.tablePhys <= r.Large(p) && r.Large(p) + 8 <= r.tablePhys + r.tableBytes && r.Large(p) % 8 == 0
  {
    hide Prefix, Up, Digit;
    TiledIsSeparate(r);
    PlaceFits(3, p);
    LargeAligned(r, p);
  }

  /** `x << range_shift[level]` of a prefix. */
  function AddressOf(level: nat, q: int): int {
    if level == 1 then q * 0x8000_0000_0000
    else if level == 2 then q * 0x40_0000_0000
    else if level == 3 then q * 0x2000_0000
    else q * 0x20_0000
  }

  lemma AddressPrefix(level: nat, q: int)
    requires level < 4
    ensures Prefix(AddressOf(level + 1, q), level) == Up(level, q)
  {
  }

  /** One store of the build: it fills the next entry, inside the arena, over zero words. */
  lemma StoreAdvances(m: Memory, r: Range, phys: u64, level: nat, n: int)
    requires Buildable(r, phys) && r.Shaped() && r.Addressable(phys) && level < LEVELS
    requires 0 <= n < r.Count(level + 1) && BuiltTo(m, r, phys, level + 1, n)
    ensures var p := r.First(level + 1) + n;
            r.Has(level, Up(level, p))
            && BuiltTo(Wr64(m, r.Slot(level, p), r.Entry(phys, level, p)), r, phys, level + 1, n + 1)
    ensures var s := r.Slot(level, r.First(level + 1) + n);
            Rd32(m, s) == 0 && Rd32(m, s + 4) == 0 && r.tablePhys <= s && s + 8 <= r.tablePhys + r.tableBytes
            && s + 8 <= PHYS_END && s % 8 == 0
  {
    hide Prefix, Up, Digit, BuiltTo, Separate, Buildable, Tiled;
    BuildableIsAddressable(r, phys);
    EntryAdvances(m, r, phys, level, n);
    SlotInArena(r, level, r.First(level + 1) + n);
    SlotAligned(r, level, r.First(level + 1) + n);
  }

  function Entries(r: Range, upTo: nat): int
    requires upTo <= LEVELS
  {
    if upTo == 0 then 0 else Entries(r, upTo - 1) + r.Count(upTo)
  }

  method RangeBuild(w: Pramin, r: Range, phys: u64) returns (rc: int)
    requires w.Valid() && |r.levelPhys| == |r.levelCount| == LEVELS
    modifies w`winBase, w.io
    ensures rc == if Buildable(r, phys) then 0 else -1
    ensures rc == -1 ==> w.io.writes == old(w.io.writes) && w.io.dev == old(w.io.dev) && w.winBase == old(w.winBase)
    ensures rc == 0 ==> w.Valid() && w.io.dev.sys == old(w.io.dev.sys)
    ensures rc == 0 ==> r.Shaped() && r.Addressable(phys) && Translates(w.io.dev.vram, r, phys)
    ensures rc == 0 ==> forall a :: 0 <= a < VA_END ==>
                          Walk(w.io.dev.vram, r.tablePhys, a, 0)
                          == if r.va <= a < r.va + r.bytes then Some(phys + (a - r.va)) else None
    ensures rc == 0 ==> SameOutside(w.io.dev.vram, old(w.io.dev.vram), r)
    ensures rc == 0 ==> |w.io.log| == |old(w.io.log)| + r.tableBytes / 4 + 2 * Entries(r, LEVELS)
                        && StoresIn(w.io.log, |old(w.io.log)|, |old(w.io.log)| + r.tableBytes / 4, r)
  {
    hide Prefix, Up, Digit, BuiltTo, PagesAbove, Separate, Walk;
    var planned, checked := RangePlan(r.va, r.bytes, r.tablePhys, r.tableBytes);
    if planned != 0 || r.tableBytes != checked.tableBytes || phys % PAGE != 0
       || phys >= PHYS_END || r.bytes > PHYS_END - phys {
      if Tiled(r) && planned != -1 { TiledIsUnique(r, checked); }
      return -1;
    }
    if Tiled(r) { TiledIsUnique(r, checked); }
    for level := 0 to LEVELS
      invariant forall i :: 0 <= i < level ==>
                  r.levelPhys[i] == checked.levelPhys[i] && r.levelCount[i] == checked.levelCount[i]
    {
      if r.levelPhys[level] != checked.levelPhys[level] || r.levelCount[level] != checked.levelCount[level] {
        return -1;
      }
    }
    assert r == checked;
    if phys < r.tablePhys + r.tableBytes && r.tablePhys < phys + r.bytes { return -1; }
    BuildableIsAddressable(r, phys);

    ClearTables(w, r);
    ClearedIsUnbuilt(w.io.dev.vram, r, phys);
    WriteDirectories(w, r, phys);
    WritePages(w, r, phys);
    forall a | 0 <= a < VA_END
      ensures Walk(w.io.dev.vram, r.tablePhys, a, 0) == if r.va <= a < r.va + r.bytes then Some(phys + (a - r.va))
              else None
    {
      WalkTranslates(w.io.dev.vram, r, phys, a);
    }
    rc := 0;
  }

  method ClearTables(w: Pramin, r: Range)
    requires w.Valid() && r.tablePhys % PAGE == 0 && r.tableBytes % PAGE == 0 && r.tablePhys + r.tableBytes <= PHYS_END
    modifies w`winBase, w.io
    ensures w.Valid() && w.io.dev.sys == old(w.io.dev.sys)
    ensures Cleared(w.io.dev.vram, r.tablePhys, r.tableBytes) && SameOutside(w.io.dev.vram, old(w.io.dev.vram), r)
    ensures |w.io.log| == |old(w.io.log)| + r.tableBytes / 4 && StoresIn(w.io.log, |old(w.io.log)|, |w.io.log|, r)
  {
    var offset: u64 := 0;
    ghost var pages := 0;
    while offset < r.tableBytes
      invariant 0 <= offset == pages * PAGE <= r.tableBytes && w.Valid() && w.io.dev.sys == old(w.io.dev.sys)
      invariant Cleared(w.io.dev.vram, r.tablePhys, offset) && SameOutside(w.io.dev.vram, old(w.io.dev.vram), r)
      invariant |w.io.log| == |old(w.io.log)| + 1024 * pages && StoresIn(w.io.log, |old(w.io.log)|, |w.io.log|, r)
    {
      ClearPage(w, r, offset);
      offset := offset + PAGE;
      pages := pages + 1;
    }
  }

  method ClearPage(w: Pramin, r: Range, offset: u64)
    requires w.Valid() && offset % PAGE == 0 && offset + PAGE <= r.tableBytes && r.tablePhys + r.tableBytes <= PHYS_END
    requires Cleared(w.io.dev.vram, r.tablePhys, offset)
    modifies w`winBase, w.io
    ensures w.Valid() && w.io.dev.sys == old(w.io.dev.sys)
    ensures Cleared(w.io.dev.vram, r.tablePhys, offset + PAGE) && SameOutside(w.io.dev.vram, old(w.io.dev.vram), r)
    ensures old(w.io.log) <= w.io.log && |w.io.log| == |old(w.io.log)| + 1024
    ensures StoresIn(w.io.log, |old(w.io.log)|, |w.io.log|, r)
  {
    var page: u32 := PAGE;
    PageClears(w.io.dev.vram, r.tablePhys, offset, page);
    RecordFillIn(w.io.dev.vram, r.tablePhys + offset, page / 4, 0);
    w.Fill(r.tablePhys + offset, page, 0);
  }

  /** The entry at `entry` for child `n` of `level + 1`. */
  method StoreEntry(w: Pramin, r: Range, ghost phys: u64, ghost level: nat, ghost n: int, entry: u64, value: u64)
    requires w.Valid() && Buildable(r, phys) && r.Shaped() && r.Addressable(phys) && level < LEVELS
    requires 0 <= n < r.Count(level + 1) && BuiltTo(w.io.dev.vram, r, phys, level + 1, n)
    requires entry == r.Slot(level, r.First(level + 1) + n) && value == r.Entry(phys, level, r.First(level + 1) + n)
    modifies w`winBase, w.io
    ensures w.Valid() && w.io.dev.sys == old(w.io.dev.sys) && BuiltTo(w.io.dev.vram, r, phys, level + 1, n + 1)
    ensures SameOutside(w.io.dev.vram, old(w.io.dev.vram), r)
    ensures old(w.io.log) <= w.io.log && |w.io.log| == |old(w.io.log)| + 2
    ensures StoresIn(w.io.log, |old(w.io.log)|, |old(w.io.log)|, r)
  {
    hide Prefix, Up, Digit;
    StoreAdvances(w.io.dev.vram, r, phys, level, n);
    w.Wr64(entry, value);
  }

  /** Every entry that points from one table level to the next. */
  method WriteDirectories(w: Pramin, r: Range, ghost phys: u64)
    requires w.Valid() && Buildable(r, phys) && r.Shaped() && r.Addressable(phys)
    requires BuiltTo(w.io.dev.vram, r, phys, 1, 0)
    modifies w`winBase, w.io
    ensures w.Valid() && w.io.dev.sys == old(w.io.dev.sys) && BuiltTo(w.io.dev.vram, r, phys, 5, 0)
    ensures SameOutside(w.io.dev.vram, old(w.io.dev.vram), r)
    ensures old(w.io.log) <= w.io.log && |w.io.log| == |old(w.io.log)| + 2 * Entries(r, 4)
    ensures StoresIn(w.io.log, |old(w.io.log)|, |old(w.io.log)|, r)
  {
    hide Prefix, Up, Digit, BuiltTo, Buildable;
    for child := 1 to LEVELS
      invariant w.Valid() && w.io.dev.sys == old(w.io.dev.sys) && BuiltTo(w.io.dev.vram, r, phys, child, 0)
      invariant SameOutside(w.io.dev.vram, old(w.io.dev.vram), r)
      invariant old(w.io.log) <= w.io.log && |w.io.log| == |old(w.io.log)| + 2 * Entries(r, child - 1)
      invariant StoresIn(w.io.log, |old(w.io.log)|, |old(w.io.log)|, r)
    {
      var n: u32 := 0;
      CountIsCount(r, phys, child);
      while n < r.levelCount[child]
        invariant 0 <= n <= r.Count(child)
        invariant w.Valid() && w.io.dev.sys == old(w.io.dev.sys) && BuiltTo(w.io.dev.vram, r, phys, child, n)
        invariant SameOutside(w.io.dev.vram, old(w.io.dev.vram), r)
        invariant old(w.io.log) <= w.io.log && |w.io.log| == |old(w.io.log)| + 2 * Entries(r, child - 1) + 2 * n
        invariant StoresIn(w.io.log, |old(w.io.log)|, |old(w.io.log)|, r)
      {
        var entry, value := DirectoryEntry(r, phys, child, n);
        StoreEntry(w, r, phys, child - 1, n, entry, value);
        n := n + 1;
      }
      LevelDone(w.io.dev.vram, r, phys, child);
    }
  }

  /** The address arithmetic of the directory loop: the child's first address gives its parent by the
      parent's shift, and its index by the parent's mask. */
  method DirectoryEntry(r: Range, ghost phys: u64, child: nat, n: u32) returns (entry: u64, value: u64)
    requires Buildable(r, phys) && r.Shaped() && r.Addressable(phys) && 1 <= child < LEVELS && n < r.Count(child)
    ensures entry == r.Slot(child - 1, r.First(child) + n) && value == r.Entry(phys, child - 1, r.First(child) + n)
  {
    hide Prefix, Up, Digit, Buildable;
    var parent := child - 1;
    ghost var p := r.First(child) + n;
    DirectoryFacts(r, phys, child, n);
    var first: u64 := Prefix(r.va, child);
    var address: u64 := AddressOf(child, first + n);
    var parentNum: int := Prefix(address, parent) - Prefix(r.va, parent);
    var index: int := Digit(parent, first + n);
    var stride := if parent == 3 then 16 else 8;
    var pd: int := r.levelPhys[parent] + parentNum * PAGE + index * stride;
    entry := if parent == 3 then pd + 8 else pd;
    value := MakePde(r.levelPhys[child] + n * PAGE);
  }

  lemma DirectoryFacts(r: Range, phys: u64, child: nat, n: u32)
    requires Buildable(r, phys) && r.Shaped() && r.Addressable(phys) && 1 <= child < LEVELS && n < r.Count(child)
    ensures var p := r.First(child) + n;
            0 <= r.First(child) < TWO64 && 0 <= AddressOf(child, p) < TWO64
            && Prefix(AddressOf(child, p), child - 1) == Up(child - 1, p)
            && 0 <= r.Slot(child - 1, p) < TWO64 && r.Has(child - 1, Up(child - 1, p))
            && 0 <= r.levelPhys[child] + n * PAGE < PHYS_END
  {
    hide Prefix, Up, Digit, Separate, Buildable, Tiled;
    var p := r.First(child) + n;
    BuildableIsAddressable(r, phys);
    ParentIsPresent(r, child - 1, p);
    SlotInArena(r, child - 1, p);
    AddressPrefix(child - 1, p);
    AddressBound(r, child, p);
    ChildFits(r, phys, child - 1, p);
  }

  lemma AddressBound(r: Range, level: nat, p: int)
    requires r.Shaped() && 1 <= level < LEVELS && r.Has(level, p)
    ensures 0 <= Prefix(r.va, level) && 0 <= AddressOf(level, p) < VA_END
    ensures level > 0 ==> 0 <= Prefix(r.va, level - 1)
  {
  }

  lemma CountIsCount(r: Range, phys: u64, level: nat)
    requires Buildable(r, phys) && level < LEVELS
    ensures r.levelCount[level] == r.Count(level)
  {
  }

  /** Every leaf entry. */
  method WritePages(w: Pramin, r: Range, phys: u64)
    requires w.Valid() && Buildable(r, phys) && r.Shaped() && r.Addressable(phys)
    requires BuiltTo(w.io.dev.vram, r, phys, 5, 0)
    modifies w`winBase, w.io
    ensures w.Valid() && w.io.dev.sys == old(w.io.dev.sys) && Translates(w.io.dev.vram, r, phys)
    ensures SameOutside(w.io.dev.vram, old(w.io.dev.vram), r)
    ensures old(w.io.log) <= w.io.log && |w.io.log| == |old(w.io.log)| + 2 * r.Count(5)
    ensures StoresIn(w.io.log, |old(w.io.log)|, |old(w.io.log)|, r)
  {
    hide Prefix, Up, Digit, BuiltTo, Buildable;
    var offset: u64 := 0;
    PageCount(r);
    while offset < r.bytes
      invariant offset <= r.bytes && offset % PAGE == 0
      invariant w.Valid() && w.io.dev.sys == old(w.io.dev.sys) && BuiltTo(w.io.dev.vram, r, phys, 5, offset / PAGE)
      invariant SameOutside(w.io.dev.vram, old(w.io.dev.vram), r)
      invariant old(w.io.log) <= w.io.log && |w.io.log| == |old(w.io.log)| + 2 * (offset / PAGE)
      invariant StoresIn(w.io.log, |old(w.io.log)|, |old(w.io.log)|, r)
    {
      var entry, value := LeafEntry(r, phys, offset);
      StoreEntry(w, r, phys, 4, offset / PAGE, entry, value);
      offset := offset + PAGE;
    }
  }

  /** The address arithmetic of the leaf loop. */
  method LeafEntry(r: Range, phys: u64, offset: u64) returns (entry: u64, value: u64)
    requires Buildable(r, phys) && r.Shaped() && r.Addressable(phys) && offset % PAGE == 0 && offset < r.bytes
    ensures offset / PAGE < r.Count(5)
    ensures entry == r.Slot(4, r.First(5) + offset / PAGE) && value == r.Entry(phys, 4, r.First(5) + offset / PAGE)
  {
    hide Prefix, Up, Digit, Separate, Buildable, Tiled;
    ghost var p := r.First(5) + offset / PAGE;
    PageCount(r);
    BuildableIsAddressable(r, phys);
    ParentIsPresent(r, 4, p);
    SlotInArena(r, 4, p);
    PagePrefix(r.va, offset / PAGE);
    PrefixSplits(r.va + offset, 4);
    PlaceFits(4, p);
    var address: u64 := r.va + offset;
    var leaf: int := Prefix(address, 4) - Prefix(r.va, 4);
    var index: int := WalkIndex(4, address);
    entry := r.levelPhys[4] + leaf * PAGE + index * 8;
    value := MakePte(phys + offset, false, false);
  }

  lemma PageCount(r: Range)
    requires r.Shaped()
    ensures r.Count(5) == r.bytes / PAGE
  {
  }

  lemma PagePrefix(va: int, n: int)
    ensures Prefix(va + n * PAGE, 5) == Prefix(va, 5) + n
  {
  }
}
