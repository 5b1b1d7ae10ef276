/** What bring-up hands to the submission path: where the channel's buffers lie in a planned layout
    (driver/gsp/gsp_bringup.c, lines 559-565, 659-672 and 737-806). */
module Handover {
  import opened Words
  import opened VramRange
  import opened PraminWindow
  import opened GmmuWalk
  import opened Engine
  import opened Exec
  import opened MemoryPlan
  import Gmmu
  import FrameBuffer
  import ResourceApi
  import UserClient

  const RING_ENTRIES: u32 := 0x100

  /** No address of the channel's buffers wraps. */
  predicate InReach(l: Layout) {
    APP_VA_BASE + l.tables.bytes < TWO64 && l.servicePhys + 0x2000 < TWO64 && l.channelPhys + 0x1000 < TWO64
  }

  /** Ring, pushbuffer and semaphore in the first three pages of service memory, USERD in the second page
      of channel memory, data in application memory. */
  function ChannelConfig(l: Layout, classEngineId: u32, runlist: u32): Config
    requires InReach(l)
  {
    Config(Mapping(APP_VA_BASE, l.servicePhys, l.tables.bytes), APP_VA_BASE, l.servicePhys, RING_ENTRIES,
           APP_VA_BASE + 0x1000, l.servicePhys + 0x1000, APP_VA_BASE + 0x2000, l.servicePhys + 0x2000,
           l.channelPhys + 0x1000, l.appVa, l.appPhys, l.appBytes, classEngineId, runlist, 0)
  }

  /** The channel as its users see it. */
  ghost predicate HandedOver(c: Config, l: Layout, appBytes: u64) {
    // Data may go exactly where application memory lies, by video memory address and by GPU address.
    && (forall a :: c.InScratch(a) <==> l.appPhys <= a < l.appPhys + appBytes)
    && (forall a, n :: RangeInScratch(c, a, n) <==> l.appVa <= a && a + n <= l.appVa + appBytes)
    && c.scratchSize == appBytes
    // Ring, stream and semaphore have a page each of service memory.
    && c.entries == 256 && c.ringPhys == l.servicePhys && c.ringPhys + 8 * 256 <= c.pbPhys
    && c.pbPhys == l.servicePhys + 0x1000 && c.semPhys == l.servicePhys + 0x2000 && c.semPhys + 4 <= l.appPhys
    // USERD, with GP_PUT in it, lies in channel memory, clear of instance page and method buffer.
    && Within(c.PutAddr(), 4, c.userdPhys, 0x200) && Within(c.userdPhys, 0x200, l.channelPhys, 0x1_0000)
    && Apart(c.userdPhys, 0x200, l.channelPhys, 0x1000) && Apart(c.userdPhys, 0x200, l.channelPhys + 0x2000, 0x5000)
  }

  predicate Within(p: int, n: int, q: int, m: int) { q <= p && p + n <= q + m }

  /** A layout as the planner returns it. */
  ghost predicate Planned(regions: seq<FbRegion>, appBytes: u64, extra: Option<Span>, l: Layout) {
    RequestOk(regions, appBytes) && WellPlaced(regions, appBytes, extra, l) && Gmmu.Buildable(l.tables, l.servicePhys)
  }

  /** The parts of a layout, one after the other. */
  lemma Parts(regions: seq<FbRegion>, appBytes: u64, extra: Option<Span>, l: Layout)
    requires WellPlaced(regions, appBytes, extra, l)
    ensures l.appPhys == l.servicePhys + SERVICE_BYTES && l.appBytes == appBytes
            && l.tables.tablePhys == l.appPhys + appBytes
    ensures l.channelPhys == l.tables.tablePhys + l.tables.tableBytes && l.servicePhys % 0x1_0000 == 0
    ensures l.tables.va == APP_VA_BASE && l.tables.bytes == SERVICE_BYTES + appBytes
            && l.appVa == APP_VA_BASE + SERVICE_BYTES
  {
  }

  lemma PlannedSizes(regions: seq<FbRegion>, appBytes: u64, extra: Option<Span>, l: Layout)
    requires Planned(regions, appBytes, extra, l)
    ensures l.appPhys == l.servicePhys + SERVICE_BYTES && l.tables.tablePhys == l.appPhys + appBytes
            && l.appBytes == appBytes
    ensures l.channelPhys == l.tables.tablePhys + l.tables.tableBytes && l.appVa == APP_VA_BASE + SERVICE_BYTES
    ensures l.tables.bytes == SERVICE_BYTES + appBytes <= SERVICE_BYTES + MAX_APP_BYTES && l.channelPhys <= PHYS_END
            && 0 <= l.tables.tableBytes
    ensures l.servicePhys % 4 == 0 && l.channelPhys % 4 == 0 && l.appPhys % 4 == 0 && l.appBytes % 4 == 0
            && appBytes >= MIN_APP_BYTES
  {
    hide Prefix, Gmmu.Buildable, WellPlaced, Gmmu.Separate, Gmmu.Tiled, Range.Addressable;
    Parts(regions, appBytes, extra, l);
    Gmmu.BuildableIsAddressable(l.tables, l.servicePhys);
    FourFromPages(l.tables.tablePhys, l.tables.tableBytes);
    FourFromUnits(l.servicePhys);
    FourFromUnits(appBytes);
  }

  lemma FourFromUnits(x: int)
    requires x % 0x1_0000 == 0
    ensures x % 4 == 0 && (x + SERVICE_BYTES) % 4 == 0
  {
    var k := x / 0x1_0000;
    assert x == 4 * (0x4000 * k) && x + SERVICE_BYTES == 4 * (0x4000 * k + 0x4_0000);
    FourTimes(0x4000 * k);
    FourTimes(0x4000 * k + 0x4_0000);
  }

  lemma FourFromPages(x: int, y: int)
    requires x % PAGE == 0 && y % PAGE == 0
    ensures (x + y) % 4 == 0
  {
    var j, k := x / PAGE, y / PAGE;
    assert x + y == 4 * (0x400 * j + 0x400 * k);
    FourTimes(0x400 * j + 0x400 * k);
  }

  lemma FourTimes(k: int)
    ensures 4 * k % 4 == 0
  {
  }

  /** Every planned layout gives the channel word-aligned buffers that are mapped by one linear piece and
      share no byte: what the submission protocol takes for granted. */
  lemma LayoutGivesConfig(regions: seq<FbRegion>, appBytes: u64, extra: Option<Span>, l: Layout, classEngineId: u32,
                          runlist: u32)
    requires Planned(regions, appBytes, extra, l) && classEngineId != 0 && runlist < 0x1_0000
    ensures InReach(l)
    ensures ChannelConfig(l, classEngineId, runlist).Ok()
    ensures HandedOver(ChannelConfig(l, classEngineId, runlist), l, appBytes)
    ensures var c := ChannelConfig(l, classEngineId, runlist);
            c.classEngineId == classEngineId && c.runlist == runlist && c.chid == 0
  {
    hide Planned;
    PlannedSizes(regions, appBytes, extra, l);
  }

  /** Nothing that a submission may change lies in the page tables. */
  lemma TablesApart(regions: seq<FbRegion>, appBytes: u64, extra: Option<Span>, l: Layout, classEngineId: u32,
                    runlist: u32, w: int)
    requires Planned(regions, appBytes, extra, l) && classEngineId != 0 && runlist < 0x1_0000
    requires Gmmu.InArena(l.tables, w)
    ensures InReach(l)
    ensures var c := ChannelConfig(l, classEngineId, runlist); !c.InScratch(w) && !InChannel(c, w)
  {
    hide Planned;
    PlannedSizes(regions, appBytes, extra, l);
  }

  /** Tables whose words are as before translate as before. */
  lemma TablesKept(m: Memory, m': Memory, r: Range, phys: u64)
    requires Gmmu.Buildable(r, phys) && r.Shaped() && r.Addressable(phys) && Translates(m, r, phys)
    requires forall w :: w % 4 == 0 && Gmmu.InArena(r, w) ==> Rd32(m', w) == Rd32(m, w)
    ensures Translates(m', r, phys)
  {
    hide Prefix, Up, Digit, Gmmu.Buildable, Gmmu.Tiled, Gmmu.Separate;
    Gmmu.BuildableIsAddressable(r, phys);
    forall level: nat, p: int | level < LEVELS && r.Has(level, Up(level, p))
      ensures Rd64(m', r.Slot(level, p)) == Rd64(m, r.Slot(level, p)) {
      Gmmu.SlotInArena(r, level, p);
      Gmmu.SlotAligned(r, level, p);
      WordsOf(r, r.Slot(level, p));
    }
    forall p: int | r.Has(3, Up(3, p)) ensures Rd64(m', r.Large(p)) == Rd64(m, r.Large(p)) {
      Gmmu.LargeInArena(r, p);
      WordsOf(r, r.Large(p));
    }
  }

  lemma WordsOf(r: Range, a: int)
    requires a % 8 == 0 && r.tablePhys <= a && a + 8 <= r.tablePhys + r.tableBytes
    ensures a % 4 == 0 && (a + 4) % 4 == 0 && Gmmu.InArena(r, a) && Gmmu.InArena(r, a + 4)
  {
    var k := a / 8;
    assert a == 4 * (2 * k) && a + 4 == 4 * (2 * k + 1);
    FourTimes(2 * k);
    FourTimes(2 * k + 1);
  }

  /** The linear mapping that submissions rely on is what the page walk gives, and it outlives every
      submission, finished or not: a copy can never change the tables it is translated by. */
  lemma {:induction false} MappingIsWalk(regions: seq<FbRegion>, appBytes: u64, extra: Option<Span>, l: Layout,
                                         classEngineId: u32, runlist: u32,
                                         m: Memory, m': Memory, a: int)
    requires Planned(regions, appBytes, extra, l) && classEngineId != 0 && runlist < 0x1_0000
    requires l.tables.Shaped() && l.tables.Addressable(l.servicePhys) && Translates(m, l.tables, l.servicePhys)
    requires InReach(l)
    requires RestKept(ChannelConfig(l, classEngineId, runlist), m, m')
    requires ChannelConfig(l, classEngineId, runlist).mapping.Maps(a, 1)
    ensures Translates(m', l.tables, l.servicePhys)
    ensures Walk(m', l.tables.tablePhys, a, 0) == Some(ChannelConfig(l, classEngineId, runlist).mapping.At(a))
  {
    hide Prefix, Walk, Gmmu.Buildable, WellPlaced, Translates, Gmmu.Separate, Gmmu.Tiled;
    var c := ChannelConfig(l, classEngineId, runlist);
    forall w | w % 4 == 0 && Gmmu.InArena(l.tables, w) ensures Rd32(m', w) == Rd32(m, w) {
      TablesApart(regions, appBytes, extra, l, classEngineId, runlist, w);
    }
    TablesKept(m, m', l.tables, l.servicePhys);
    Parts(regions, appBytes, extra, l);
    Gmmu.BuildableIsAddressable(l.tables, l.servicePhys);
    WalkTranslates(m', l.tables, l.servicePhys, a);
  }

  /** Plan, build and hand over: a channel configuration whose mapping is the walk of the tables just built. */
  method Prepare(w: Pramin, regions: seq<FbRegion>, appBytes: u64, extra: Option<Span>, classEngineId: u32,
                 runlist: u32)
    returns (rc: int, l: Layout)
    requires w.Valid() && classEngineId != 0 && runlist < 0x1_0000
    modifies w`winBase, w.io
    ensures rc in {0, -1, -2} && (rc == -1 <==> Rejected(regions, appBytes, extra))
    ensures rc != -1 ==> (rc == -2 <==> NoSpace(regions, appBytes, extra))
    ensures rc == 0 ==> Planned(regions, appBytes, extra, l)
    ensures rc == 0 ==>
              InReach(l)
              && ChannelConfig(l, classEngineId, runlist).Ok()
              && HandedOver(ChannelConfig(l, classEngineId, runlist), l, appBytes)
    ensures rc == 0 ==> forall a ::
              ChannelConfig(l, classEngineId, runlist).InScratch(a) <==> l.appPhys <= a < l.appPhys + appBytes
    ensures rc == 0 ==> forall a, n :: RangeInScratch(ChannelConfig(l, classEngineId, runlist), a, n) <==>
              l.appVa <= a && a + n <= l.appVa + appBytes
    ensures rc == 0 ==> forall a :: ChannelConfig(l, classEngineId, runlist).mapping.Maps(a, 1) ==>
              Walk(w.io.dev.vram, l.tables.tablePhys, a, 0)
              == Some(ChannelConfig(l, classEngineId, runlist).mapping.At(a))
  {
    hide Prefix, Walk, Gmmu.Buildable, WellPlaced, Translates, NoSpace, RestKept, Range.Addressable, Config.Ok,
         Rejected;
    rc, l := BuildLayout(w, regions, appBytes, extra);
    if rc == 0 {
      assert RequestOk(regions, appBytes) by { Accepted(regions, appBytes, extra); }
      LayoutGivesConfig(regions, appBytes, extra, l, classEngineId, runlist);
      ghost var c, m := ChannelConfig(l, classEngineId, runlist), w.io.dev.vram;
      NothingChanged(c, m);
      forall a | c.mapping.Maps(a, 1) ensures Walk(m, l.tables.tablePhys, a, 0) == Some(c.mapping.At(a)) {
        MappingIsWalk(regions, appBytes, extra, l, classEngineId, runlist, m, m, a);
      }
    }
  }

  lemma Accepted(regions: seq<FbRegion>, appBytes: u64, extra: Option<Span>)
    requires !Rejected(regions, appBytes, extra)
    ensures RequestOk(regions, appBytes)
  {
  }

  lemma NothingChanged(c: Config, m: Memory)
    ensures RestKept(c, m, m)
  {
  }

  /** A client over a planned layout gets a pool of exactly the application memory that was asked for. */
  method Open(fb: FrameBuffer.FrameBuffer, ghost regions: seq<FbRegion>, ghost appBytes: u64,
              ghost extra: Option<Span>, ghost l: Layout, ghost classEngineId: u32, ghost runlist: u32)
    returns (client: UserClient.Client)
    requires fb.Valid() && Planned(regions, appBytes, extra, l) && classEngineId != 0 && runlist < 0x1_0000
    requires InReach(l) && fb.chan.c == ChannelConfig(l, classEngineId, runlist)
    ensures fresh(client) && client.fb == fb && client.started && client.Valid()
    ensures client.pool.size == appBytes && client.pool.va == l.appVa && client.contents == map[]
    ensures client.managed <==> fb.chan.ok && fb.externalVmm && fb.selftestOk
  {
    hide Config.Ok, UserClient.Client.Valid, FrameBuffer.FrameBuffer.Valid;
    OpeningPages(regions, appBytes, extra, l);
    client := new UserClient.Client(fb);
    PoolIsRegion(client);
  }

  lemma PoolIsRegion(client: UserClient.Client)
    requires client.Valid()
    ensures client.pool.size == client.fb.chan.c.scratchSize && client.pool.va == client.fb.chan.c.scratchVa
  {
    hide Config.Ok;
  }

  lemma OpeningPages(regions: seq<FbRegion>, appBytes: u64, extra: Option<Span>, l: Layout)
    requires Planned(regions, appBytes, extra, l)
    ensures l.appVa % PAGE == 0 && l.appBytes == appBytes && appBytes % PAGE == 0 && appBytes != 0
  {
    hide Prefix, Gmmu.Buildable;
    var k := appBytes / 0x1_0000;
    assert appBytes == PAGE * (16 * k);
    PageTimes(16 * k);
  }

  lemma PageTimes(k: int)
    ensures PAGE * k % PAGE == 0
  {
  }

  /** Any session of a client over a planned layout leaves the page tables as they were built: the one
      linear mapping that every copy of the session relied on is still what the walk gives. */
  method ServeMapped(client: UserClient.Client, qs: seq<ResourceApi.Request>, ghost regions: seq<FbRegion>,
                     ghost appBytes: u64, ghost extra: Option<Span>, ghost l: Layout, ghost classEngineId: u32,
                     ghost runlist: u32)
    returns (rs: seq<ResourceApi.Reply>, ghost vs: seq<ResourceApi.ClientView>)
    requires client.Valid() && Planned(regions, appBytes, extra, l) && classEngineId != 0 && runlist < 0x1_0000
    requires InReach(l)
    requires client.fb.chan.c == ChannelConfig(l, classEngineId, runlist)
    requires l.tables.Shaped() && l.tables.Addressable(l.servicePhys)
             && Translates(client.Mem(), l.tables, l.servicePhys)
    modifies client, client.pool, client.pool.allocations, client.fb.chan
    ensures client.Valid() && ResourceApi.Session(vs, qs, rs) && vs[0] == old(client.Abs()) && vs[|qs|] == client.Abs()
    ensures Translates(client.Mem(), l.tables, l.servicePhys)
    ensures forall a :: client.fb.chan.c.mapping.Maps(a, 1) ==>
              Walk(client.Mem(), l.tables.tablePhys, a, 0) == Some(client.fb.chan.c.mapping.At(a))
  {
    hide Prefix, Walk, Planned, Translates, RestKept, Range.Addressable, Config.Ok, ResourceApi.Session,
         UserClient.Client.Valid;
    ghost var m := client.Mem();
    rs, vs := client.Serve(qs);
    ghost var m' := client.Mem();
    FirstIsMapped(l, classEngineId, runlist);
    MappingIsWalk(regions, appBytes, extra, l, classEngineId, runlist, m, m', APP_VA_BASE);
    forall a | client.fb.chan.c.mapping.Maps(a, 1)
      ensures Walk(m', l.tables.tablePhys, a, 0) == Some(client.fb.chan.c.mapping.At(a)) {
      MappingIsWalk(regions, appBytes, extra, l, classEngineId, runlist, m, m', a);
    }
  }

  lemma FirstIsMapped(l: Layout, classEngineId: u32, runlist: u32)
    requires l.tables.Shaped()
    requires InReach(l)
    ensures ChannelConfig(l, classEngineId, runlist).mapping.Maps(APP_VA_BASE, 1)
  {
  }
}
