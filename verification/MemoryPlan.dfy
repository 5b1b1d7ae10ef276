/** Carving one owned range into service memory, application memory, page tables and channel memory
    (driver/gsp/gsp_memory.c, driver/gsp/gsp_memory.h). */
module MemoryPlan {
  import opened Words
  import opened Alignment
  import opened VramRange
  import opened GmmuWalk
  import opened PraminWindow
  import Gmmu

  const FBREGION_MAX := 16
  const MIN_APP_BYTES := 0x4000_0000
  const MAX_APP_BYTES := 0x80_0000_0000
  const SERVICE_BYTES: u64 := 0x10_0000
  const CHANNEL_BYTES: u64 := 0x1_0000
  const APP_VA_BASE: u64 := 0x2000_0000
  const LOW_MEMORY := Span(0, 0x2000_0000)

  /** A region of the firmware's memory map; `limit` is its last byte. */
  datatype FbRegion = FbRegion(base: u64, limit: u64, reserved: u64, prot: bool) {
    predicate InReach() { base <= limit < 0x100_0000_0000 }

    predicate Meets(other: FbRegion) { base <= other.limit && other.base <= limit }
  }

  datatype Layout = Layout(owned: Span, tables: Range, servicePhys: u64, appPhys: u64, appVa: u64, appBytes: u64,
                           channelPhys: u64)

  const EMPTY_LAYOUT := Layout(NOTHING, Gmmu.EMPTY_RANGE, 0, 0, 0, 0, 0)

  predicate RequestOk(regions: seq<FbRegion>, appBytes: u64) {
    1 <= |regions| <= 16 && 0x4000_0000 <= appBytes <= 0x80_0000_0000 && appBytes % 0x1_0000 == 0
  }

  /** A request, map or console range that the planner refuses.  The console is only looked at if there is
      a usable region at all. */
  predicate Rejected(regions: seq<FbRegion>, appBytes: u64, extra: Option<Span>) {
    !RequestOk(regions, appBytes) || !MapOk(regions, |regions|)
    || (Available(regions) != [] && exists s :: s in Excluded(extra) && !s.Valid())
  }

  predicate MapOk(regions: seq<FbRegion>, n: nat)
    requires n <= |regions|
  {
    && (forall i :: 0 <= i < n ==> regions[i].InReach())
    && forall i, j :: 0 <= j < i < n ==> !regions[i].Meets(regions[j])
  }

  function AsSpan(r: FbRegion): Span
    requires r.InReach()
  {
    Span(r.base, r.limit - r.base + 1)
  }

  /** The usable regions, in map order. */
  function Available(regions: seq<FbRegion>): seq<Span>
    requires forall i :: 0 <= i < |regions| ==> regions[i].InReach()
  {
    if regions == [] then []
    else
      var n := |regions| - 1;
      Available(regions[..n]) + if regions[n].reserved == 0 && !regions[n].prot then [AsSpan(regions[n])] else []
  }

  predicate FromUsable(regions: seq<FbRegion>, s: Span)
    requires forall i :: 0 <= i < |regions| ==> regions[i].InReach()
  {
    exists i :: 0 <= i < |regions| && regions[i].reserved == 0 && !regions[i].prot && s == AsSpan(regions[i])
  }

  lemma {:induction false} AvailableAreUsable(regions: seq<FbRegion>, s: Span)
    requires forall i :: 0 <= i < |regions| ==> regions[i].InReach()
    ensures s in Available(regions) <==> FromUsable(regions, s)
  {
    if regions != [] {
      var n := |regions| - 1;
      var init := regions[..n];
      AvailableAreUsable(init, s);
      if FromUsable(init, s) {
        var i :| 0 <= i < |init| && init[i].reserved == 0 && !init[i].prot && s == AsSpan(init[i]);
        assert regions[i].reserved == 0 && !regions[i].prot && s == AsSpan(regions[i]);
      }
      if FromUsable(regions, s) {
        var i :| 0 <= i < |regions| && regions[i].reserved == 0 && !regions[i].prot && s == AsSpan(regions[i]);
        if i < n { assert init[i].reserved == 0 && !init[i].prot && s == AsSpan(init[i]); }
      }
    }
  }

  /** What must be kept out of the owned range: low memory, and the console if there is one. */
  function Excluded(extra: Option<Span>): seq<Span> {
    [Span(0, 0x2000_0000)] + if extra.Some? && extra.value.size != 0 then [extra.value] else []
  }

  function Mapped(appBytes: u64): int { 0x10_0000 + appBytes }

  function TableBytes(appBytes: u64): int
    requires appBytes <= MAX_APP_BYTES
  {
    Gmmu.PagesAbove(Range(0x2000_0000, Mapped(appBytes), 0, 0, [], []), LEVELS) * PAGE
  }

  function TotalBytes(appBytes: u64): int
    requires appBytes <= MAX_APP_BYTES
  {
    Mapped(appBytes) + TableBytes(appBytes) + 0x1_0000
  }

  /** No usable region can hold everything. */
  ghost predicate NoSpace(regions: seq<FbRegion>, appBytes: u64, extra: Option<Span>)
    requires MapOk(regions, |regions|) && appBytes <= MAX_APP_BYTES
  {
    forall i :: 0 <= i < |regions| && regions[i].reserved == 0 && !regions[i].prot ==>
      NoPlacement(AsSpan(regions[i]), Excluded(extra), TotalBytes(appBytes), 0x1_0000)
  }

  /** What a layout promises about where things are. */
  ghost predicate WellPlaced(regions: seq<FbRegion>, appBytes: u64, extra: Option<Span>, out: Layout) {
    // The parts tile the owned range, in this order.
    && out.servicePhys == out.owned.base && out.appPhys == out.servicePhys + 0x10_0000 && out.appBytes == appBytes
    && out.tables.tablePhys == out.appPhys + appBytes
    && out.channelPhys == out.tables.tablePhys + out.tables.tableBytes
    && out.channelPhys + 0x1_0000 == out.owned.End()
    // Service and application memory are one run of GPU addresses.
    && out.tables.va == 0x2000_0000 && out.tables.bytes == 0x10_0000 + appBytes && out.appVa == 0x2010_0000
    // The owned range lies in one usable region and meets nothing it must not.
    && (exists i ::
          0 <= i < |regions| && regions[i].reserved == 0 && !regions[i].prot && regions[i].base <= out.owned.base
          && out.owned.End() <= regions[i].limit + 1)
    && (forall i :: 0 <= i < |regions| && (regions[i].reserved != 0 || regions[i].prot) ==>
          out.owned.End() <= regions[i].base || regions[i].limit < out.owned.base)
    && 0x2000_0000 <= out.owned.base
    && (extra.Some? && extra.value.size != 0 ==> extra.value.Clear(out.owned.base, out.owned.size))
    && out.owned.base % 0x1_0000 == 0
  }

  lemma CountSmall(r: Range, level: nat)
    requires 0 < r.bytes <= 0x100_0000_0000 && level < LEVELS
    ensures 1 <= r.Count(level) <= 0x10_0000
  {
    PrefixMonotone(r.va, r.va + r.bytes - 1, level);
  }

  lemma {:induction false} TablesSmall(r: Range, level: nat)
    requires 0 < r.bytes <= 0x100_0000_0000 && level <= LEVELS
    ensures level <= Gmmu.PagesAbove(r, level) <= level * 0x10_0000
  {
    hide Prefix;
    if level > 0 {
      TablesSmall(r, level - 1);
      CountSmall(r, level - 1);
    }
  }

  lemma TotalFits(appBytes: u64)
    requires MIN_APP_BYTES <= appBytes <= MAX_APP_BYTES && appBytes % 0x1_0000 == 0
    ensures 0 < TableBytes(appBytes) <= 5 * 0x10_0000 * PAGE && TableBytes(appBytes) % PAGE == 0
    ensures Mapped(appBytes) % 0x1_0000 == 0 && TotalBytes(appBytes) % PAGE == 0
            && TotalBytes(appBytes) < 0x100_0000_0000
  {
    hide Prefix, Gmmu.PagesAbove;
    var r := Range(APP_VA_BASE, Mapped(appBytes), 0, 0, [], []);
    TablesSmall(r, LEVELS);
    Gmmu.PageMultiple(0, Gmmu.PagesAbove(r, LEVELS));
    SumOfPages(Mapped(appBytes), Gmmu.PagesAbove(r, LEVELS));
  }

  lemma SumOfPages(mapped: int, pages: int)
    requires mapped % 0x1_0000 == 0
    ensures (mapped + pages * PAGE + CHANNEL_BYTES) % PAGE == 0
  {
  }

  /** Every region valid and apart from those before it. */
  method CheckRegion(regions: seq<FbRegion>, i: nat) returns (ok: bool)
    requires i < |regions| && MapOk(regions, i)
    ensures ok <==> MapOk(regions, i + 1)
  {
    var r := regions[i];
    if r.base > r.limit || r.limit >= PHYS_END { return false; }
    for j := 0 to i
      invariant forall k :: 0 <= k < j ==> !r.Meets(regions[k])
    {
      if r.base <= regions[j].limit && regions[j].base <= r.limit { return false; }
    }
    return true;
  }

  lemma PlanSize(r: Range, appBytes: u64)
    requires MIN_APP_BYTES <= appBytes <= MAX_APP_BYTES && r.va == APP_VA_BASE && r.bytes == Mapped(appBytes)
             && Gmmu.Tiled(r)
    ensures r.tableBytes == TableBytes(appBytes)
  {
    hide Prefix;
    Gmmu.PagesAboveDepends(r, Range(APP_VA_BASE, Mapped(appBytes), 0, 0, [], []), LEVELS);
  }

  /** Both planning passes: sizes do not depend on where the tables lie, so wherever the whole carve-out
      stays below 2^40 the tables fit. */
  lemma PlanFits(appBytes: u64, base: u64)
    requires MIN_APP_BYTES <= appBytes <= MAX_APP_BYTES && appBytes % 0x1_0000 == 0 && base % PAGE == 0
    requires base + TableBytes(appBytes) <= PHYS_END && base < PHYS_END
    ensures Gmmu.ArgumentsOk(APP_VA_BASE, Mapped(appBytes), base) && Gmmu.TablesFit(APP_VA_BASE, Mapped(appBytes), base)
  {
    hide Prefix, Gmmu.PagesAbove;
    TotalFits(appBytes);
  }

  lemma GranularityValid()
    ensures AlignmentValid(0x1_0000)
  {
    PowerTest(0x1_0000);
    assert IsPow2(0x100);
    ProductIsPow2(0x100, 0x100);
  }

  lemma {:induction false} SpanArguments(regions: seq<FbRegion>, extra: Option<Span>, total: u64)
    requires MapOk(regions, |regions|) && Available(regions) != [] && 0 < total && total % PAGE == 0
    ensures ArgumentsOk(Available(regions), Excluded(extra), total, 0x1_0000) <==>
              forall s :: s in Excluded(extra) ==> s.Valid()
  {
    hide And;
    GranularityValid();
    forall k | 0 <= k < |Available(regions)| ensures Available(regions)[k].Valid() {
      AvailableAreUsable(regions, Available(regions)[k]);
    }
    var e := Excluded(extra);
    assert (forall s :: s in e ==> s.Valid()) <==> forall j :: 0 <= j < |e| ==> e[j].Valid();
  }

  lemma {:induction false} NothingFits(regions: seq<FbRegion>, appBytes: u64, extra: Option<Span>)
    requires MapOk(regions, |regions|) && appBytes <= MAX_APP_BYTES
    requires forall k :: 0 <= k < |Available(regions)| ==>
               NoPlacement(Available(regions)[k], Excluded(extra), TotalBytes(appBytes), 0x1_0000)
    ensures NoSpace(regions, appBytes, extra)
  {
    hide NoPlacement, TotalBytes;
    forall i | 0 <= i < |regions| && regions[i].reserved == 0 && !regions[i].prot
      ensures NoPlacement(AsSpan(regions[i]), Excluded(extra), TotalBytes(appBytes), 0x1_0000)
    {
      AvailableAreUsable(regions, AsSpan(regions[i]));
      assert AsSpan(regions[i]) in Available(regions);
    }
  }

  /** A placement in a usable region keeps clear of everything else on the map. */
  lemma {:induction false} PlacementIsSafe(regions: seq<FbRegion>, extra: Option<Span>, s: Span, total: int, c: int)
    requires MapOk(regions, |regions|) && s in Available(regions) && 0 < total
    requires Placement(s, Excluded(extra), total, 0x1_0000, c)
    ensures exists i ::
              0 <= i < |regions| && regions[i].reserved == 0 && !regions[i].prot
              && regions[i].base <= c && c + total <= regions[i].limit + 1
    ensures forall i :: 0 <= i < |regions| && (regions[i].reserved != 0 || regions[i].prot) ==>
              c + total <= regions[i].base || regions[i].limit < c
    ensures 0x2000_0000 <= c && c % 0x1_0000 == 0 && c + total <= PHYS_END
    ensures extra.Some? && extra.value.size != 0 ==> extra.value.Clear(c, total)
  {
    AvailableAreUsable(regions, s);
    var i :| 0 <= i < |regions| && regions[i].reserved == 0 && !regions[i].prot && s == AsSpan(regions[i]);
    assert Excluded(extra)[0] == Span(0, 0x2000_0000) && Span(0, 0x2000_0000).Clear(c, total);
    if extra.Some? && extra.value.size != 0 {
      assert Excluded(extra)[1] == extra.value;
    }
    forall j | 0 <= j < |regions| && (regions[j].reserved != 0 || regions[j].prot)
      ensures c + total <= regions[j].base || regions[j].limit < c
    {
      assert !regions[i].Meets(regions[j]) || !regions[j].Meets(regions[i]);
    }
  }

  ghost predicate LowestPlacement(regions: seq<FbRegion>, appBytes: u64, extra: Option<Span>, c: int)
    requires MapOk(regions, |regions|) && appBytes <= MAX_APP_BYTES
  {
    exists k ::
      0 <= k < |Available(regions)|
      && FirstFit(Available(regions), Excluded(extra), TotalBytes(appBytes), 0x1_0000, k, c)
  }

  /** The owned range lies in one region that is neither reserved nor protected, and off all others that
      are. */
  lemma OwnedRegion(regions: seq<FbRegion>, appBytes: u64, extra: Option<Span>, out: Layout)
    requires WellPlaced(regions, appBytes, extra, out)
    ensures exists i ::
              0 <= i < |regions| && regions[i].reserved == 0 && !regions[i].prot
              && regions[i].base <= out.owned.base && out.owned.base + out.owned.size <= regions[i].limit + 1
    ensures forall i :: 0 <= i < |regions| && (regions[i].reserved != 0 || regions[i].prot) ==>
              out.owned.base + out.owned.size <= regions[i].base || regions[i].limit < out.owned.base
  {
  }

  /** A placement that was found is room. */
  lemma {:induction false} SpaceFound(regions: seq<FbRegion>, appBytes: u64, extra: Option<Span>, c: int)
    requires MapOk(regions, |regions|) && appBytes <= MAX_APP_BYTES && LowestPlacement(regions, appBytes, extra, c)
    ensures !NoSpace(regions, appBytes, extra)
  {
    hide Placement, TotalBytes;
    var k :| 0 <= k < |Available(regions)|
    && FirstFit(Available(regions), Excluded(extra), TotalBytes(appBytes), 0x1_0000, k, c);
    AvailableAreUsable(regions, Available(regions)[k]);
  }

  method Plan(regions: seq<FbRegion>, appBytes: u64, extra: Option<Span>) returns (rc: int, out: Layout)
    ensures rc in {0, -1, -2}
    ensures rc == -1 <==> Rejected(regions, appBytes, extra)
    ensures rc != -1 ==> (rc == -2 <==> NoSpace(regions, appBytes, extra))
    ensures rc != 0 ==> out == EMPTY_LAYOUT
    ensures rc == 0 ==> WellPlaced(regions, appBytes, extra, out) && Gmmu.Buildable(out.tables, out.servicePhys)
    ensures rc == 0 ==> exists i ::
              0 <= i < |regions| && regions[i].reserved == 0 && !regions[i].prot
              && regions[i].base <= out.owned.base && out.owned.base + out.owned.size <= regions[i].limit + 1
    ensures rc == 0 ==> forall i :: 0 <= i < |regions| && (regions[i].reserved != 0 || regions[i].prot) ==>
              out.owned.base + out.owned.size <= regions[i].base || regions[i].limit < out.owned.base
    ensures rc == 0 ==>
              MapOk(regions, |regions|) && appBytes <= MAX_APP_BYTES
              && LowestPlacement(regions, appBytes, extra, out.owned.base)
  {
    hide Prefix, Gmmu.PagesAbove, Placement, NoPlacement, FirstFit, AlignmentValid, Gmmu.Tiled, TableBytes, WellPlaced;
    out := EMPTY_LAYOUT;
    if |regions| == 0 || |regions| > FBREGION_MAX || appBytes < MIN_APP_BYTES || appBytes % 0x1_0000 != 0 ||
       appBytes > MAX_APP_BYTES {
      return -1, out;
    }
    TotalFits(appBytes);
    PlanFits(appBytes, 0);
    var mapped: u64 := SERVICE_BYTES + appBytes;
    var first, tables := Gmmu.RangePlan(APP_VA_BASE, mapped, 0, 0);
    PlanSize(tables, appBytes);
    if first != -2 { return -1, out; }
    var total: u64 := mapped + tables.tableBytes + CHANNEL_BYTES;
    var available: seq<Span> := [];
    for i := 0 to |regions|
      invariant MapOk(regions, i) && available == Available(regions[..i])
    {
      var ok := CheckRegion(regions, i);
      if !ok { return -1, out; }
      assert regions[..i + 1][..i] == regions[..i];
      var r := regions[i];
      if r.reserved == 0 && !r.prot { available := available + [Span(r.base, r.limit - r.base + 1)]; }
    }
    assert regions[..|regions|] == regions;
    if |available| == 0 {
      NothingFits(regions, appBytes, extra);
      return -2, out;
    }
    var excluded := [LOW_MEMORY];
    if extra.Some? && extra.value.size != 0 { excluded := excluded + [extra.value]; }
    assert excluded == Excluded(extra);
    SpanArguments(regions, extra, total);
    var found, owned := FindRange(available, excluded, total, 0x1_0000);
    if found != 0 {
      if found == -2 { NothingFits(regions, appBytes, extra); }
      return found, out;
    }
    SpaceFound(regions, appBytes, extra, owned.base);
    out := Carve(regions, appBytes, extra, owned, mapped, tables.tableBytes);
    OwnedRegion(regions, appBytes, extra, out);
    rc := 0;
  }

  /** Lays the parts out in the owned range and plans the tables a second time, in place. */
  method Carve(regions: seq<FbRegion>, appBytes: u64, extra: Option<Span>, owned: Span, mapped: u64, tableBytes: u64)
    returns (out: Layout)
    requires RequestOk(regions, appBytes) && MapOk(regions, |regions|)
    requires mapped == Mapped(appBytes) && tableBytes == TableBytes(appBytes) && owned.size == TotalBytes(appBytes)
    requires LowestPlacement(regions, appBytes, extra, owned.base)
    ensures WellPlaced(regions, appBytes, extra, out) && Gmmu.Buildable(out.tables, out.servicePhys)
            && out.owned == owned
  {
    hide Prefix, Gmmu.PagesAbove, Placement, NoPlacement, TableBytes, Gmmu.Tiled;
    ghost var k :| 0 <= k < |Available(regions)|
    && FirstFit(Available(regions), Excluded(extra), TotalBytes(appBytes), 0x1_0000, k, owned.base);
    TotalFits(appBytes);
    PlacementIsSafe(regions, extra, Available(regions)[k], TotalBytes(appBytes), owned.base);
    BaseAligned(owned.base, mapped);
    PlanFits(appBytes, owned.base + mapped);
    var second, tables := Gmmu.RangePlan(APP_VA_BASE, mapped, owned.base + mapped, tableBytes);
    PlanSize(tables, appBytes);
    assert second == 0;
    out := Layout(owned, tables, owned.base, owned.base + SERVICE_BYTES, APP_VA_BASE + SERVICE_BYTES, appBytes,
                  tables.tablePhys + tableBytes);
  }

  lemma BaseAligned(base: int, mapped: int)
    requires base % 0x1_0000 == 0 && mapped % 0x1_0000 == 0
    ensures base % PAGE == 0 && (base + mapped) % PAGE == 0
  {
  }

  /** The plan, the builder and the walk together: once the planned tables are built over the service
      base, every byte of application memory has the GPU address the layout promises. */
  method BuildLayout(w: Pramin, regions: seq<FbRegion>, appBytes: u64, extra: Option<Span>)
    returns (rc: int, out: Layout)
    requires w.Valid()
    modifies w`winBase, w.io
    ensures rc in {0, -1, -2} && (rc == -1 <==> Rejected(regions, appBytes, extra))
    ensures rc != -1 ==> (rc == -2 <==> NoSpace(regions, appBytes, extra))
    ensures rc == 0 ==> WellPlaced(regions, appBytes, extra, out)
    ensures rc == 0 ==>
              Gmmu.Buildable(out.tables, out.servicePhys) && out.tables.Shaped()
              && out.tables.Addressable(out.servicePhys)
                        && Translates(w.io.dev.vram, out.tables, out.servicePhys)
    ensures rc == 0 ==> forall a :: out.appVa <= a < out.appVa + appBytes ==>
              Walk(w.io.dev.vram, out.tables.tablePhys, a, 0) == Some(out.appPhys + (a - out.appVa))
    ensures rc == 0 ==> forall a :: 0x2000_0000 <= a < 0x2010_0000 ==>
              Walk(w.io.dev.vram, out.tables.tablePhys, a, 0) == Some(out.servicePhys + (a - 0x2000_0000))
    ensures rc == 0 ==>
              forall a :: !(out.tables.tablePhys <= a < out.channelPhys) ==>
                Rd32(w.io.dev.vram, a) == Rd32(old(w.io.dev.vram), a)
    ensures rc != 0 ==> w.io.dev == old(w.io.dev) && w.io.writes == old(w.io.writes)
  {
    hide Prefix, Walk, Gmmu.Buildable, Translates, NoSpace, LowestPlacement, Rejected;
    rc, out := Plan(regions, appBytes, extra);
    if rc != 0 { return; }
    Gmmu.BuildableIsAddressable(out.tables, out.servicePhys);
    var built := Gmmu.RangeBuild(w, out.tables, out.servicePhys);
    assert built == 0;
  }
}
