/** The older single-branch builder (driver/gsp/gmmu.c, lines 78-155) and its agreement with the
    multi-branch one. */
module GmmuBranch {
  import opened Words
  import opened Alignment
  import opened PraminWindow
  import opened GmmuWalk
  import opened Gmmu

  /** Physical addresses of the five tables, root first. */
  datatype Tables = Tables(phys: seq<u64>) {
    /** Five different pages below 2^40, as the owner of video memory hands them out. */
    ghost predicate Valid() {
      && |phys| == LEVELS
      && (forall i :: 0 <= i < LEVELS ==> phys[i] % PAGE == 0 && phys[i] + PAGE <= PHYS_END)
      && forall i, j :: 0 <= i < j < LEVELS ==> phys[i] != phys[j]
    }

    predicate Holds(a: int)
    {
      exists i :: 0 <= i < |phys| && phys[i] <= a < phys[i] + PAGE
    }
  }

  ghost predicate SameElsewhere(m: Memory, m0: Memory, t: Tables) {
    forall a :: !t.Holds(a) ==> Rd32(m, a) == Rd32(m0, a)
  }

  /** Where the address field of an entry ends. */
  const DATA_END: int := 0x10_0000_0000_0000

  /** The page that the indices of an address select: its offset in the page and what lies beyond 49 bits
      play no part. */
  function PageOf(va: u64): (p: u64)
    ensures p % PAGE == 0 && p < VA_END && (va % PAGE == 0 && va < VA_END ==> p == va)
  {
    va / PAGE % 0x20_0000_0000 * PAGE
  }

  lemma IndexOfPage(va: u64, level: nat)
    requires level < LEVELS
    ensures WalkIndex(level, PageOf(va)) == WalkIndex(level, va) && 0 <= WalkIndex(level, va) < 512
  {
    var n := va / PAGE;
    var k := n % 0x20_0000_0000;
    IndexOfNumber(va, level);
    IndexOfNumber(k * PAGE, level);
    SameDigits(n, k, level);
  }

  /** The digit of a page number at a level. */
  function NumberDigit(n: nat, level: nat): int {
    if level == 0 then n / 0x8_0000_0000 % 4 else if level == 1 then n / 0x400_0000 % 512
    else if level == 2 then n / 0x2_0000 % 512 else if level == 3 then n / 0x200 % 256 else n % 512
  }

  lemma IndexOfNumber(va: u64, level: nat)
    requires level < LEVELS
    ensures WalkIndex(level, va) == NumberDigit(va / PAGE, level) && 0 <= WalkIndex(level, va) < 512
  {
    if level == 0 { NestedDivision(va, 0x8_0000_0000); }
    else if level == 1 { NestedDivision(va, 0x400_0000); }
    else if level == 2 { NestedDivision(va, 0x2_0000); }
    else if level == 3 { NestedDivision(va, 0x200); }
  }

  lemma NestedDivision(x: nat, d: nat)
    requires d > 0
    ensures x / PAGE / d == x / (PAGE * d)
  {
    var n, r := x / PAGE, x % PAGE;
    var q, s := n / d, n % d;
    assert x == PAGE * n + r && n == d * q + s;
    assert x == PAGE * d * q + (PAGE * s + r);
    DivModUnique(PAGE * d, q, PAGE * s + r);
  }

  lemma DropFour(q: int, x: int)
    ensures (4 * q + x) % 4 == x % 4
  {
  }

  lemma Drop256(q: int, x: int)
    ensures (256 * q + x) % 256 == x % 256
  {
  }

  lemma Drop512(q: int, x: int)
    ensures (512 * q + x) % 512 == x % 512
  {
  }

  lemma SameDigit0(q: int, k: int)
    ensures (0x20_0000_0000 * q + k) / 0x8_0000_0000 % 4 == k / 0x8_0000_0000 % 4
  {
    assert (0x20_0000_0000 * q + k) / 0x8_0000_0000 == 4 * (1 * q) + k / 0x8_0000_0000;
    DropFour(1 * q, k / 0x8_0000_0000);
  }

  lemma SameDigit1(q: int, k: int)
    ensures (0x20_0000_0000 * q + k) / 0x400_0000 % 512 == k / 0x400_0000 % 512
  {
    assert (0x20_0000_0000 * q + k) / 0x400_0000 == 512 * (4 * q) + k / 0x400_0000;
    Drop512(4 * q, k / 0x400_0000);
  }

  lemma SameDigit2(q: int, k: int)
    ensures (0x20_0000_0000 * q + k) / 0x2_0000 % 512 == k / 0x2_0000 % 512
  {
    assert (0x20_0000_0000 * q + k) / 0x2_0000 == 512 * (0x800 * q) + k / 0x2_0000;
    Drop512(0x800 * q, k / 0x2_0000);
  }

  lemma SameDigit3(q: int, k: int)
    ensures (0x20_0000_0000 * q + k) / 0x200 % 256 == k / 0x200 % 256
  {
    assert (0x20_0000_0000 * q + k) / 0x200 == 256 * (0x10_0000 * q) + k / 0x200;
    Drop256(0x10_0000 * q, k / 0x200);
  }

  lemma SameDigits(n: nat, k: nat, level: nat)
    requires k == n % 0x20_0000_0000 && level < LEVELS
    ensures NumberDigit(n, level) == NumberDigit(k, level)
  {
    hide NumberDigit;
    var q := n / 0x20_0000_0000;
    assert n == 0x20_0000_0000 * q + k;
    SameDigit0(q, k);
    SameDigit1(q, k);
    SameDigit2(q, k);
    SameDigit3(q, k);
    Drop512(0x1000_0000 * q, k);
    Digits(n);
    Digits(k);
  }

  lemma Digits(n: nat)
    ensures NumberDigit(n, 0) == n / 0x8_0000_0000 % 4 && NumberDigit(n, 1) == n / 0x400_0000 % 512
    ensures NumberDigit(n, 2) == n / 0x2_0000 % 512 && NumberDigit(n, 3) == n / 0x200 % 256
            && NumberDigit(n, 4) == n % 512
  {
  }

  /** Bytes of a table that the builder clears: the root has four entries only. */
  function TableBytes(level: nat): int { if level == 0 then 32 else PAGE }

  /** The branch as a range: at least one page, so that its tables are those of the address even
      when no page is mapped. */
  function Branch(t: Tables, va: u64, npages: u32): Range
    requires |t.phys| == LEVELS && npages <= 512 && va < VA_END
  {
    Range(va, (if npages == 0 then 1 else npages) * PAGE, t.phys[0], 0, t.phys, [1, 1, 1, 1, 1])
  }

  lemma BranchShape(t: Tables, va: u64, npages: u32, phys: u64)
    requires t.Valid() && va < VA_END && va % PAGE == 0 && WalkIndex(4, va) + npages <= 512
    requires phys % PAGE == 0 && phys + (if npages == 0 then 1 else npages) * PAGE <= DATA_END
    ensures var r := Branch(t, va, npages);
            r.Shaped() && r.Addressable(phys) && Separate(r) && forall level :: 0 <= level < LEVELS ==>
              r.Count(level) == 1
    ensures var r := Branch(t, va, npages); r.Count(LEVELS) == if npages == 0 then 1 else npages
  {
    var r := Branch(t, va, npages);
    SameLeaf(va, r.bytes / PAGE);
    forall level | 0 <= level < LEVELS ensures r.Count(level) == 1 {
      SharedAncestor(va, va + r.bytes - 1, level);
    }
    PagesApart(t);
  }

  lemma PagesApart(t: Tables)
    requires t.Valid()
    ensures forall i, j :: 0 <= i < LEVELS && 0 <= j < LEVELS && i != j ==>
              t.phys[i] + PAGE <= t.phys[j] || t.phys[j] + PAGE <= t.phys[i]
  {
    forall i, j | 0 <= i < LEVELS && 0 <= j < LEVELS && i != j
      ensures t.phys[i] + PAGE <= t.phys[j] || t.phys[j] + PAGE <= t.phys[i]
    {
      assert t.phys[i] != t.phys[j];
      assert t.phys[i] == t.phys[i] / PAGE * PAGE && t.phys[j] == t.phys[j] / PAGE * PAGE;
    }
  }

  /** A run of pages stays in one leaf table exactly when its indices stay below 512. */
  lemma SameLeaf(va: u64, n: int)
    requires va % PAGE == 0 && 0 < n
    ensures WalkIndex(4, va) + n <= 512 <==> Prefix(va, 4) == Prefix(va + n * PAGE - 1, 4)
    ensures WalkIndex(4, va) + n <= 512 && va < VA_END ==> va + n * PAGE <= VA_END
  {
    var q, i := va / 0x20_0000, WalkIndex(4, va);
    assert va == q * 0x20_0000 + i * PAGE;
  }

  lemma {:induction false} SharedAncestor(a: int, b: int, level: nat)
    requires 0 <= a && 0 <= b && Prefix(a, 4) == Prefix(b, 4) && level < LEVELS
    ensures Prefix(a, level) == Prefix(b, level)
    decreases LEVELS - level
  {
    hide Prefix, Up;
    if level < 4 {
      SharedAncestor(a, b, level + 1);
      PrefixSplits(a, level);
      PrefixSplits(b, level);
    }
  }

  // ----- Clearing -----

  ghost predicate ClearedTo(m: Memory, t: Tables, n: int)
    requires |t.phys| == LEVELS && n <= LEVELS
  {
    forall level :: 0 <= level < n ==> Cleared(m, t.phys[level], TableBytes(level))
  }

  lemma {:induction false} FillClears(m: Memory, t: Tables, level: nat, bytes: int)
    requires t.Valid() && level < LEVELS && ClearedTo(m, t, level) && bytes == TableBytes(level)
    ensures var m' := Fill(m, t.phys[level], bytes / 4, 0);
            ClearedTo(m', t, level + 1) && SameElsewhere(m', m, t)
  {
    PagesApart(t);
    FillReads(m, t.phys[level], bytes / 4, 0);
  }

  method ZeroTable(w: Pramin, t: Tables, level: nat, bytes: u32)
    requires w.Valid() && t.Valid() && level < LEVELS && ClearedTo(w.io.dev.vram, t, level)
             && bytes == TableBytes(level)
    modifies w`winBase, w.io
    ensures w.Valid() && w.io.dev.sys == old(w.io.dev.sys)
    ensures ClearedTo(w.io.dev.vram, t, level + 1) && SameElsewhere(w.io.dev.vram, old(w.io.dev.vram), t)
  {
    hide Cleared, Tables.Holds;
    FillClears(w.io.dev.vram, t, level, bytes);
    w.Fill(t.phys[level], bytes, 0);
  }

  method ZeroTables(w: Pramin, t: Tables)
    requires w.Valid() && t.Valid()
    modifies w`winBase, w.io
    ensures w.Valid() && w.io.dev.sys == old(w.io.dev.sys)
    ensures ClearedTo(w.io.dev.vram, t, LEVELS) && SameElsewhere(w.io.dev.vram, old(w.io.dev.vram), t)
  {
    hide Cleared, Tables.Holds;
    ZeroTable(w, t, 0, 4 * 8);
    ZeroTable(w, t, 1, 512 * 8);
    ZeroTable(w, t, 2, 512 * 8);
    ZeroTable(w, t, 3, 256 * 16);
    ZeroTable(w, t, 4, 512 * 8);
  }

  lemma BranchSlot(t: Tables, va: u64, npages: u32, level: nat, p: int)
    requires t.Valid() && va < VA_END && npages <= 512 && level < LEVELS
    requires var r := Branch(t, va, npages); r.Count(level) == 1 && r.Has(level, Up(level, p))
    ensures var r := Branch(t, va, npages); r.Slot(level, p) == t.phys[level] + Place(level, p)
    ensures Branch(t, va, npages).Large(p) == Branch(t, va, npages).Slot(3, p) - 8
    ensures 0 <= Place(level, p) <= TableBytes(level) - 8 && Place(level, p) % 8 == 0
    ensures level == 3 ==> 8 <= Place(3, p)
  {
    hide Prefix, Up, Digit;
    PlaceFits(level, p);
    PlaceInTable(level, p);
  }

  lemma PlaceInTable(level: nat, p: int)
    requires level < LEVELS
    ensures Place(level, p) <= TableBytes(level) - 8 && Place(3, p) == Digit(3, p) * 16 + 8
  {
  }

  lemma ClearedBranch(m: Memory, t: Tables, va: u64, npages: u32, phys: u64)
    requires t.Valid() && va < VA_END && npages <= 512 && ClearedTo(m, t, LEVELS)
    requires var r := Branch(t, va, npages);
             r.Shaped() && r.Addressable(phys) && forall level :: 0 <= level < LEVELS ==> r.Count(level) == 1
    ensures BuiltTo(m, Branch(t, va, npages), phys, 1, 0)
  {
    hide Prefix, Up, Digit, Place, BuiltTo, Cleared;
    var r := Branch(t, va, npages);
    forall level: nat, p: int | level < LEVELS && r.Has(level, Up(level, p)) ensures Rd64(m, r.Slot(level, p)) == 0 {
      BranchSlot(t, va, npages, level, p);
      ClearedPlace(m, t.phys[level], TableBytes(level), Place(level, p));
    }
    forall p: int | r.Has(3, Up(3, p)) ensures Rd64(m, r.Large(p)) == 0 {
      BranchSlot(t, va, npages, 3, p);
      ClearedPlace(m, t.phys[3], PAGE, Place(3, p) - 8);
    }
    NothingBuilt(m, r, phys);
  }

  lemma ClearedPlace(m: Memory, base: int, bytes: int, place: int)
    requires Cleared(m, base, bytes) && 0 <= place <= bytes - 8 && place % 8 == 0
    ensures Rd64(m, base + place) == 0
  {
    var k := place / 4;
    assert base + place == base + 4 * k && base + place + 4 == base + 4 * (k + 1);
  }

  // ----- Writing -----

  /** The entry for child `n` of `level + 1` along the branch. */
  method StoreOnBranch(w: Pramin, ghost t: Tables, ghost va: u64, ghost npages: u32, ghost phys: u64,
                       ghost level: nat, ghost n: int, entry: u64, value: u64)
    requires w.Valid() && t.Valid() && va < VA_END && npages <= 512 && level < LEVELS
    requires var r := Branch(t, va, npages);
             r.Shaped() && r.Addressable(phys) && Separate(r) && (forall i :: 0 <= i < LEVELS ==> r.Count(i) == 1)
             && 0 <= n < r.Count(level + 1) && BuiltTo(w.io.dev.vram, r, phys, level + 1, n)
             && entry == r.Slot(level, r.First(level + 1) + n) && value == r.Entry(phys, level, r.First(level + 1) + n)
    modifies w`winBase, w.io
    ensures w.Valid() && w.io.dev.sys == old(w.io.dev.sys) && SameElsewhere(w.io.dev.vram, old(w.io.dev.vram), t)
    ensures BuiltTo(w.io.dev.vram, Branch(t, va, npages), phys, level + 1, n + 1)
  {
    hide Prefix, Up, Digit, Place, BuiltTo, Separate;
    ghost var r := Branch(t, va, npages);
    EntryAdvances(w.io.dev.vram, r, phys, level, n);
    BranchSlot(t, va, npages, level, r.First(level + 1) + n);
    w.Wr64(entry, value);
    assert t.phys[level] <= entry && entry + 8 <= t.phys[level] + PAGE;
  }

  /** Clearing the large-page half changes nothing, for it is empty already. */
  lemma LargeClearKeeps(m: Memory, r: Range, phys: int, upTo: nat, n: int, p: int)
    requires r.Shaped() && r.Addressable(phys) && Separate(r) && r.Has(3, Up(3, p)) && BuiltTo(m, r, phys, upTo, n)
    ensures BuiltTo(Wr64(m, r.Large(p), 0), r, phys, upTo, n)
  {
    hide Prefix, Up, Digit;
    var m' := Wr64(m, r.Large(p), 0);
    LargeAligned(r, p);
    forall i: nat, q: int | i < LEVELS && r.Has(i, Up(i, q)) ensures Rd64(m', r.Slot(i, q)) == Rd64(m, r.Slot(i, q)) {
      SlotMissesLarge(r, i, q, p);
      SlotAligned(r, i, q);
      Wr64Reads(m, r.Large(p), 0, r.Slot(i, q));
    }
    forall q: int | r.Has(3, Up(3, q)) ensures Rd64(m', r.Large(q)) == 0 {
      LargeAligned(r, q);
      Wr64Reads(m, r.Large(p), 0, r.Large(q));
    }
  }

  lemma LinkFacts(t: Tables, va: u64, npages: u32, phys: u64, level: nat)
    requires t.Valid() && va < VA_END && npages <= 512 && level < 4
    requires var r := Branch(t, va, npages);
             r.Shaped() && r.Addressable(phys) && forall i :: 0 <= i < LEVELS ==> r.Count(i) == 1
    ensures var r := Branch(t, va, npages);
            var p := r.First(level + 1);
            r.Has(level + 1, p) && r.Has(level, Up(level, p))
            && r.Slot(level, p) == t.phys[level] + WalkIndex(level, va) * (if level == 3 then 16 else 8)
              + (if level == 3 then 8 else 0)
            && r.Large(p) == r.Slot(3, p) - 8
            && r.Entry(phys, level, p) == MakePde(t.phys[level + 1])
            && t.phys[level] <= r.Slot(level, p) && r.Slot(level, p) + 8 <= t.phys[level] + PAGE
            && (level == 3 ==> t.phys[level] <= r.Large(p))
  {
    hide Prefix, Up, Digit, WalkIndex;
    var r := Branch(t, va, npages);
    PrefixSplits(va, level);
    BranchSlot(t, va, npages, level, r.First(level + 1));
  }

  method WritePdeChain(w: Pramin, t: Tables, va: u64, ghost npages: u32, ghost phys: u64)
    requires w.Valid() && t.Valid() && npages <= 512
    requires var r := Branch(t, PageOf(va), npages);
             r.Shaped() && r.Addressable(phys) && Separate(r) && (forall i :: 0 <= i < LEVELS ==> r.Count(i) == 1)
             && BuiltTo(w.io.dev.vram, r, phys, 1, 0)
    modifies w`winBase, w.io
    ensures w.Valid() && w.io.dev.sys == old(w.io.dev.sys) && SameElsewhere(w.io.dev.vram, old(w.io.dev.vram), t)
    ensures BuiltTo(w.io.dev.vram, Branch(t, PageOf(va), npages), phys, 5, 0)
  {
    hide Prefix, Up, Digit, Place, BuiltTo, Separate, WalkIndex, Tables.Holds;
    WriteLink(w, t, va, npages, phys, 0);
    WriteLink(w, t, va, npages, phys, 1);
    WriteLink(w, t, va, npages, phys, 2);
    WriteLink(w, t, va, npages, phys, 3);
  }

  /** One pointer of the chain; the PD0 entry has its large-page half cleared first. */
  method WriteLink(w: Pramin, t: Tables, va: u64, ghost npages: u32, ghost phys: u64, level: nat)
    requires w.Valid() && t.Valid() && npages <= 512 && level < 4
    requires var r := Branch(t, PageOf(va), npages);
             r.Shaped() && r.Addressable(phys) && Separate(r) && (forall i :: 0 <= i < LEVELS ==> r.Count(i) == 1)
             && BuiltTo(w.io.dev.vram, r, phys, level + 1, 0)
    modifies w`winBase, w.io
    ensures w.Valid() && w.io.dev.sys == old(w.io.dev.sys) && SameElsewhere(w.io.dev.vram, old(w.io.dev.vram), t)
    ensures BuiltTo(w.io.dev.vram, Branch(t, PageOf(va), npages), phys, level + 2, 0)
  {
    hide Prefix, Up, Digit, Place, BuiltTo, Separate, WalkIndex;
    ghost var base := PageOf(va);
    ghost var r := Branch(t, base, npages);
    LinkFacts(t, base, npages, phys, level);
    IndexOfPage(va, level);
    var index: u32 := WalkIndex(level, va);
    var entry: u64 := t.phys[level] + index * (if level == 3 then 16 else 8);
    if level == 3 {
      LargeClearKeeps(w.io.dev.vram, r, phys, 4, 0, r.First(4));
      w.Wr64(entry, 0);
      entry := entry + 8;
    }
    StoreOnBranch(w, t, base, npages, phys, level, 0, entry, MakePde(t.phys[level + 1]));
    LevelDone(w.io.dev.vram, r, phys, level + 1);
  }

  // ----- The builder -----

  /** Maps `npages` pages from the page of `va` on, all served by one leaf table, or refuses before any
      store. */
  method MapRange(w: Pramin, t: Tables, va: u64, pagePhys: u64, npages: u32) returns (rc: int)
    requires w.Valid() && t.Valid() && pagePhys % PAGE == 0 && pagePhys + npages * PAGE <= DATA_END
    modifies w`winBase, w.io
    ensures rc == if WalkIndex(4, va) + npages > 512 then -1 else 0
    ensures rc == -1 ==> w.io.writes == old(w.io.writes) && w.io.dev == old(w.io.dev) && w.winBase == old(w.winBase)
    ensures rc == 0 ==>
              w.Valid() && w.io.dev.sys == old(w.io.dev.sys) && SameElsewhere(w.io.dev.vram, old(w.io.dev.vram), t)
    ensures rc == 0 ==> forall a :: 0 <= a < VA_END ==>
                          Walk(w.io.dev.vram, t.phys[0], a, 0)
                          == if PageOf(va) <= a < PageOf(va) + npages * PAGE then Some(pagePhys + (a - PageOf(va)))
                            else None
  {
    hide Prefix, Up, Digit, Place, BuiltTo, Separate, WalkIndex, Walk, Tables.Holds, PageOf;
    ghost var base := PageOf(va);
    IndexOfPage(va, 4);
    var is0: u32 := WalkIndex(4, va);
    if is0 + npages > 512 { return -1; }
    ghost var phys: u64 := if npages == 0 then 0 else pagePhys;
    ghost var r := Branch(t, base, npages);
    BranchShape(t, base, npages, phys);
    ZeroTables(w, t);
    ClearedBranch(w.io.dev.vram, t, base, npages, phys);
    WritePdeChain(w, t, va, npages, phys);
    var k: u32 := 0;
    while k < npages
      invariant k <= npages && w.Valid() && w.io.dev.sys == old(w.io.dev.sys)
      invariant SameElsewhere(w.io.dev.vram, old(w.io.dev.vram), t)
      invariant BuiltTo(w.io.dev.vram, r, phys, 5, k)
    {
      LeafFacts(t, base, npages, phys, k);
      var pte := MakePte(pagePhys + k * PAGE, false, false);
      StoreOnBranch(w, t, base, npages, phys, 4, k, t.phys[4] + (is0 + k) * 8, pte);
      k := k + 1;
    }
    forall a | 0 <= a < VA_END
      ensures Walk(w.io.dev.vram, t.phys[0], a, 0) == if base <= a < base + npages * PAGE
              then Some(pagePhys + (a - base)) else None
    {
      WalkFromRoot(w.io.dev.vram, r, phys, npages, a);
    }
    rc := 0;
  }

  lemma LeafFacts(t: Tables, va: u64, npages: u32, phys: u64, k: int)
    requires t.Valid() && va < VA_END && va % PAGE == 0 && 0 <= k < npages <= 512 && WalkIndex(4, va) + npages <= 512
    requires var r := Branch(t, va, npages);
             r.Shaped() && r.Addressable(phys) && (forall i :: 0 <= i < LEVELS ==> r.Count(i) == 1)
             && r.Count(5) == npages
    ensures var r := Branch(t, va, npages);
            var p := r.First(5) + k;
            r.Slot(4, p) == t.phys[4] + (WalkIndex(4, va) + k) * 8
            && r.Entry(phys, 4, p) == MakePte(phys + k * PAGE, false, false)
  {
    hide Prefix, Up, Digit, WalkIndex, Place, MakePte;
    var r := Branch(t, va, npages);
    var p := r.First(5) + k;
    ParentIsPresent(r, 4, p);
    BranchSlot(t, va, npages, 4, p);
    LeafIndex(va, k);
  }

  lemma LeafIndex(va: u64, k: int)
    requires va % PAGE == 0 && 0 <= k && WalkIndex(4, va) + k < 512
    ensures Place(4, Prefix(va, 5) + k) == (WalkIndex(4, va) + k) * 8
  {
    var q, i := va / 0x20_0000, WalkIndex(4, va);
    assert va == q * 0x20_0000 + i * PAGE;
    assert Prefix(va, 5) == q * 512 + i;
  }

  // ----- Agreement -----

  /** A page range is accepted here exactly when the multi-branch plan for it is five table pages. */
  lemma AcceptsSingleBranches(va: u64, n: u32, tablePhys: u64)
    requires 0 < n && ArgumentsOk(va, n * PAGE, tablePhys)
    ensures WalkIndex(4, va) + n <= 512 <==> PagesAbove(Range(va, n * PAGE, 0, 0, [], []), LEVELS) == LEVELS
  {
    hide Prefix, WalkIndex;
    var r := Range(va, n * PAGE, 0, 0, [], []);
    SameLeaf(va, n);
    forall level | 0 <= level <= LEVELS ensures r.Count(level) >= 1 {
      CountBounds(r, level);
    }
    if Prefix(va, 4) == Prefix(va + n * PAGE - 1, 4) {
      forall level | 0 <= level < LEVELS ensures r.Count(level) == 1 {
        SharedAncestor(va, va + n * PAGE - 1, level);
      }
    }
    SumOfCounts(r);
  }

  lemma {:induction false} SumOfCounts(r: Range)
    ensures PagesAbove(r, LEVELS) == r.Count(0) + r.Count(1) + r.Count(2) + r.Count(3) + r.Count(4)
  {
    hide Prefix;
    assert PagesAbove(r, 1) == r.Count(0);
    assert PagesAbove(r, 2) == PagesAbove(r, 1) + r.Count(1);
    assert PagesAbove(r, 3) == PagesAbove(r, 2) + r.Count(2);
    assert PagesAbove(r, 4) == PagesAbove(r, 3) + r.Count(3);
  }

  /** Both builders, on five consecutive pages from `base`, give every address the same translation. */
  method BuildersAgree(one: Pramin, many: Pramin, va: u64, n: u32, base: u64, phys: u64)
    returns (rcOne: int, rcMany: int)
    requires one.io != many.io && one != many && one.Valid() && many.Valid()
    requires 0 < n && ArgumentsOk(va, n * PAGE, base) && base + 5 * PAGE <= PHYS_END && phys % PAGE == 0
    requires phys + n * PAGE <= PHYS_END && (phys + n * PAGE <= base || base + 5 * PAGE <= phys)
    requires WalkIndex(4, va) + n <= 512
    modifies one`winBase, one.io, many`winBase, many.io
    ensures rcOne == 0 && rcMany == 0
    ensures forall a :: 0 <= a < VA_END ==> Walk(one.io.dev.vram, base, a, 0) == Walk(many.io.dev.vram, base, a, 0)
  {
    hide Prefix, Walk, WalkIndex, Tables.Holds, Translates;
    AcceptsSingleBranches(va, n, base);
    var t := Tables(seq(5, i requires 0 <= i < 5 => base + i * PAGE));
    forall i | 0 <= i < 5 ensures t.phys[i] % PAGE == 0 {
      PageMultiple(base, i);
    }
    rcOne := MapRange(one, t, va, phys, n);
    var planned, r := RangePlan(va, n * PAGE, base, 5 * PAGE);
    PagesAboveDepends(r, Range(va, n * PAGE, 0, 0, [], []), LEVELS);
    rcMany := RangeBuild(many, r, phys);
    forall a | 0 <= a < VA_END ensures Walk(one.io.dev.vram, base, a, 0) == Walk(many.io.dev.vram, base, a, 0) {
      assert Walk(one.io.dev.vram, t.phys[0], a, 0) == if va <= a < va + n * PAGE then Some(phys + (a - va)) else None;
    }
  }
}
