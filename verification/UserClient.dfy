/** The user client: handle-based resources over the pool and the engine
    (driver/macos/MilcorixUserClient.cpp, lines 39-63 and 107-296). */
module UserClient {
  import opened Words
  import opened Alignment
  import opened Bytes
  import opened VramPool
  import opened Engine
  import opened Exec
  import opened FrameBuffer
  import opened ResourceMap
  import opened ResourceApi

  const STAGE_CHUNK: u64 := 0x1_0000

  class Client {
    const fb: FrameBuffer
    const pool: Pool
    var managed: bool
    ghost var contents: Contents

    const started: bool

    /** Opens on a framebuffer exactly if the pool can take over its scratch region; resource mode from the
        start when the pool has been verified. */
    constructor (fb: FrameBuffer)
      requires fb.Valid()
      ensures this.fb == fb && fresh(pool) && fresh(pool.allocations) && contents == map[]
      ensures started <==>
                fb.chan.c.scratchVa % PAGE == 0 && fb.chan.c.scratchSize % PAGE == 0 && fb.chan.c.scratchSize != 0
      ensures started ==> Valid()
      ensures managed <==> started && fb.chan.ok && fb.externalVmm && fb.selftestOk
    {
      ScratchAddresses(fb.chan.c);
      this.fb := fb;
      var p := new Pool();
      var rc := p.Init(0, fb.chan.c.scratchVa, fb.chan.c.scratchSize);
      pool := p;
      started := rc == 0;
      managed := rc == 0 && fb.PoolVerified();
      contents := map[];
      new;
      if started { NothingLive(pool.State()); }
    }

    ghost function Dev(): Device
      reads fb.chan
    {
      Device(fb.chan.ok, fb.chan.ok && fb.externalVmm && fb.selftestOk, fb.chan.c.scratchSize)
    }

    ghost function Base(): int { fb.chan.c.scratchPhys }

    ghost function Mem(): Memory
      reads fb.chan
    {
      fb.chan.gpu.mem
    }

    /** The pool covers exactly the scratch region, its resources read as `contents`, and once a resource
        exists only handles are accepted. */
    ghost predicate Valid()
      reads this, pool, pool.allocations, fb.chan
    {
      && fb.Valid() && pool.Valid() && pool.size != 0
      && pool.phys == 0 && pool.va == fb.chan.c.scratchVa && pool.size == fb.chan.c.scratchSize
      && Represents(contents, pool.State(), Mem(), Base())
      && (contents != map[] ==> managed)
    }

    /** A handle of the pool, as slot. */
    ghost function SlotOf(h: int): (i: nat)
      requires pool.State().IsLive(h)
      reads pool, pool.allocations
      ensures i < |pool.State().slots| && pool.State().slots[i].handle == h && pool.State().slots[i].Live()
    {
      var i: nat :| i < |pool.State().slots| && pool.State().slots[i].handle == h;
      i
    }

    /** Address of a transfer, by the mode's rules. */
    method Resolve(t: Target, bytes: u64) returns (ok: bool, offset: u64)
      requires Valid()
      ensures t.Raw? ==> ok && offset == t.offset
      ensures t.Buffer? ==> (ok <==> bytes != 0 && InBounds(contents, t.handle, t.off, bytes))
      ensures t.Buffer? && ok ==> pool.State().IsLive(t.handle)
      ensures t.Buffer? && ok ==>
        var a := pool.State().slots[SlotOf(t.handle)];
        a.size == |contents[t.handle]| && offset == a.offset + t.off && offset + bytes <= fb.chan.c.scratchSize
      ensures 0 < bytes <= 0x40_0000 ==> (ok && offset % 4 == 0 <==> Admitted(contents, t, bytes))
    {
      if t.Raw? { return true, t.offset; }
      var rc, phys, va := pool.Resolve(t.handle, t.off, bytes);
      ghost var s := pool.State();
      if s.IsLive(t.handle) {
        ghost var i := SlotOf(t.handle);
        LiveExtent(s, i);
        OnlySlot(s, i);
        OffsetAlignment(s, i, t.off);
        assert pool.allocations[i] == s.slots[i];
      }
      forall k | 0 <= k < MAX_ALLOCS ensures pool.allocations[k] == s.slots[k] {
      }
      return rc == 0, phys;
    }

    /** What a write of `data` left behind, seen by address, as resources. */
    lemma WriteSeen(h: u64, off: u64, data: seq<u8>, m0: Memory, at: int)
      requires pool.State().Ok() && pool.State().IsLive(h) && Represents(contents, pool.State(), m0, Base())
      requires off + |data| <= pool.State().slots[SlotOf(h)].size
      requires at == Base() + pool.State().slots[SlotOf(h)].offset + off && Wrote(m0, Mem(), at, data)
      ensures InBounds(contents, h, off, |data|)
      ensures Represents(contents[h := Splice(contents[h], off, data)], pool.State(), Mem(), Base())
    {
      hide Wrote, View, PoolState.Ok, Splice;
      var i := SlotOf(h);
      var a := pool.State().slots[i];
      WrittenKeeps(m0, Mem(), pool.State(), Base(), at, data, Base() + a.offset, Base() + a.End());
      ChangeInside(contents, pool.State(), m0, Mem(), Base(), i);
      assert |View(m0, Base(), a)| == a.size by { ViewLength(m0, Base(), a); }
      WrittenView(m0, Mem(), Base(), a, off, data);
    }

    method Write(t: Target, data: seq<u8>, how: Transfer) returns (st: Status)
      requires Valid() && (t.Raw? ==> !managed)
      modifies this`contents, fb.chan`gpu, fb.chan`clock
      ensures Valid() && pool.State() == old(pool.State()) && fb.ChannelKept() && RestKept(fb.chan.c, old(Mem()), Mem())
      ensures t.Raw? ==> contents == map[]
      ensures t.Raw? ==>
                var n := if Admitted(old(contents), t, |data|)
                         then Carried(how, |data|, Reach(t, |data|, old(Dev()))) else 0;
                Wrote(old(Mem()), Mem(), Base() + t.offset, data[..n])
      ensures t.Buffer? ==> WriteEffect(old(contents), contents, t.handle, t.off, data, how, st)
      ensures st == TransferStatus(old(contents), t, |data|, how, old(Dev()), true)
    {
      hide Wrote, View, PoolState.Ok, Splice, Represents, Config.Ok, RestKept, Outcome, Carried, Arrived,
           FrameBuffer.Valid, Admitted, Reach;
      RestSame(fb.chan.c, Mem());
      NothingWrote(Mem(), Base() + if t.Raw? then t.offset else 0, data);
      AllOrNone(how, data);
      if |data| == 0 || |data| > MAX_XFER {
        SizeRefused(contents, t, |data|);
        return BadArgument;
      }
      var ok, offset := Resolve(t, |data|);
      if !ok { return BadArgument; }
      if offset % 4 != 0 { return BadArgument; }
      ghost var m0 := Mem();
      var done := 0;
      if how == Direct {
        st := fb.GpuWrite(offset, data);
        if st == Success { done := |data|; } else { NothingWrote(m0, Base() + offset, data); }
        DirectOutcome(how, |data|, offset, old(Dev()), true);
      } else {
        st, done := WriteChunks(offset, data, how);
      }
      ghost var put := data[..done];
      ReachIsRest(t, |data|, offset, how, old(Dev()), true);
      if t.Buffer? {
        WriteSeen(t.handle, t.off, put, m0, Base() + offset);
        contents := contents[t.handle := Splice(contents[t.handle], t.off, put)];
        if done == 0 { SpliceNothing(old(contents), t.handle, t.off); }
      } else {
        EmptyRepresents(contents, pool.State(), m0, Mem(), Base());
      }
    }

    /** How far a transfer from `offset` on can go. */
    ghost function Rest(offset: u64): nat
      reads fb.chan
    {
      Reach(Raw(offset), 0, Dev())
    }

    /** The descriptor path, 64 KiB at a time. */
    method WriteChunks(offset: u64, data: seq<u8>, how: Transfer) returns (st: Status, done: nat)
      requires fb.Valid() && how.Chunked? && 0 < |data| <= 0x40_0000 && offset % 4 == 0
      modifies fb.chan`gpu, fb.chan`clock
      ensures fb.Valid() && fb.ChannelKept() && RestKept(fb.chan.c, old(Mem()), Mem())
      ensures st == Outcome(how, |data|, old(Rest(offset)), true) && done == Carried(how, |data|, old(Rest(offset)))
      ensures Wrote(old(Mem()), Mem(), Base() + offset, data[..done])
    {
      hide Wrote, Config.Ok, RestKept, Outcome, Carried, Chunks;
      RestSame(fb.chan.c, Mem());
      OutcomeEnds(how, |data|, Rest(offset), true);
      done := 0;
      ghost var m0, reach := Mem(), Rest(offset);
      NothingWrote(m0, Base() + offset, data);
      if !how.prepared { return VmError, 0; }
      if !how.staging { return NoMemory, 0; }
      st := Success;
      while done < |data|
        invariant st == Success && done <= |data| && (done == |data| || done % 0x1_0000 == 0)
        invariant fb.Valid() && fb.ChannelKept() && done <= how.limit && done <= reach
        invariant done > 0 ==> fb.chan.ok && offset + done <= fb.chan.c.scratchSize
        invariant Wrote(m0, Mem(), Base() + offset, data[..done]) && RestKept(fb.chan.c, m0, Mem())
      {
        var left := |data| - done;
        var chunk: nat := if left > STAGE_CHUNK then STAGE_CHUNK else left;
        WriteStops(how, |data|, reach, done, chunk);
        if done + chunk > how.limit { return VmError, done; }
        ghost var m1 := Mem();
        var piece := data[done..done + chunk];
        assert (offset + done) % 4 == 0;
        st := fb.GpuWrite(offset + done, piece);
        RestTwice(fb.chan.c, m0, m1, Mem());
        if st != Success { return st, done; }
        assert data[..done] + piece == data[..done + chunk];
        WroteTwice(m0, m1, Mem(), Base() + offset, data[..done], piece);
        done := done + chunk;
      }
      assert data[..done] == data;
    }

    method Read(t: Target, len: u64, how: Transfer) returns (st: Status, data: seq<u8>)
      requires Valid() && (t.Raw? ==> !managed)
      modifies fb.chan`gpu, fb.chan`clock
      ensures Valid() && pool.State() == old(pool.State()) && contents == old(contents) && fb.ChannelKept()
              && Mem() == old(Mem())
      ensures st != Success ==> data == []
      ensures t.Raw? && st == Success ==> data == ReadBytes(Mem(), Base() + t.offset, len)
      ensures t.Buffer? && st == Success ==>
                InBounds(contents, t.handle, t.off, len) && data == contents[t.handle][t.off..t.off + len]
      ensures st == TransferStatus(contents, t, len, how, old(Dev()), false)
    {
      hide View, PoolState.Ok, Represents, Config.Ok, ReadBytes, Outcome, Carried, FrameBuffer.Valid,
           Admitted, Reach;
      if len == 0 || len > MAX_XFER {
        SizeRefused(contents, t, len);
        return BadArgument, [];
      }
      var ok, offset := Resolve(t, len);
      if !ok { return BadArgument, []; }
      if offset % 4 != 0 { return BadArgument, []; }
      if how == Direct {
        st, data := fb.GpuRead(offset, len);
        DirectOutcome(how, len, offset, old(Dev()), false);
      } else {
        st, data := ReadChunks(offset, len, how);
      }
      ReachIsRest(t, len, offset, how, old(Dev()), false);
      if t.Buffer? {
        ViewIsContents(contents, pool.State(), Mem(), Base(), SlotOf(t.handle));
        ReadInside(Mem(), Base(), pool.State().slots[SlotOf(t.handle)], t.off, len);
      }
    }

    method ReadChunks(offset: u64, len: u64, how: Transfer) returns (st: Status, data: seq<u8>)
      requires fb.Valid() && how.Chunked? && 0 < len <= 0x40_0000 && offset % 4 == 0
      modifies fb.chan`gpu, fb.chan`clock
      ensures fb.Valid() && fb.ChannelKept() && fb.chan.gpu == old(fb.chan.gpu)
      ensures st == Success ==> data == ReadBytes(Mem(), Base() + offset, len)
      ensures st != Success ==> data == []
      ensures st == Outcome(how, len, old(Rest(offset)), false)
    {
      hide Config.Ok, Byte, Outcome, Carried, Chunks;
      ghost var reach := Rest(offset);
      OutcomeEnds(how, len, reach, false);
      if !how.prepared { return VmError, []; }
      if !how.staging { return NoMemory, []; }
      var done := 0;
      data := [];
      while done < len
        invariant done <= len && (done == len || done % 0x1_0000 == 0) && |data| == done
        invariant fb.Valid() && fb.ChannelKept() && fb.chan.gpu == old(fb.chan.gpu)
        invariant done <= how.limit && done <= reach
                  && (done > 0 ==> fb.chan.ok && offset + done <= fb.chan.c.scratchSize)
        invariant forall k :: 0 <= k < done ==> data[k] == Byte(Mem(), Base() + offset + k)
      {
        var left := len - done;
        var chunk: nat := if left > STAGE_CHUNK then STAGE_CHUNK else left;
        assert (offset + done) % 4 == 0;
        ReadStops(how, len, reach, done, chunk);
        var rc, piece := fb.GpuRead(offset + done, chunk);
        if rc != Success { return rc, []; }
        if done + chunk > how.limit { return VmError, []; }
        ghost var before := data;
        data := data + piece;
        forall k | 0 <= k < done + chunk ensures data[k] == Byte(Mem(), Base() + offset + k) {
          if k >= done { assert data[k] == piece[k - done]; } else { assert data[k] == before[k]; }
        }
        done := done + chunk;
      }
      st := Success;
    }

    /** Between two resources, or within one when the ranges do not overlap.  If the engine times out,
        the destination range is unspecified, everything else is as before, and the channel is closed. */
    method Copy(src: Target, dst: Target, bytes: u64) returns (st: Status)
      requires Valid() && ((src.Raw? || dst.Raw?) ==> !managed) && (src.Raw? <==> dst.Raw?)
      modifies this`contents, fb.chan
      ensures Valid() && pool.State() == old(pool.State()) && managed == old(managed)
              && RestKept(fb.chan.c, old(Mem()), Mem())
      ensures src.Raw? ==> contents == map[]
      ensures src.Raw? && st == Success ==> var s, t := Base() + src.offset, Base() + dst.offset;
                forall a :: fb.chan.c.InScratch(a) ==> ByteCopied(old(Mem()), Mem(), s, t, bytes, a)
      ensures src.Raw? ==>
                (st in {Success, IoError} <==>
                   old(fb.chan.ok) && RawCopyAllowed(src.offset, dst.offset, bytes, fb.chan.c.scratchSize))
      ensures src.Buffer? ==> CopyEffect(old(contents), contents, src.handle, src.off, dst.handle, dst.off, bytes, st)
      ensures st in {Success, BadArgument, IoError}
      ensures st == IoError ==>
                !fb.chan.ok && fb.chan.TimedOut(200) && old(fb.chan.clock) < fb.chan.wait.clock
      ensures src.Buffer? ==>
        (st != BadArgument <==>
           old(fb.chan.ok) && CopyAllowed(old(contents), src.handle, src.off, dst.handle, dst.off, bytes))
    {
      hide View, PoolState.Ok, Represents, Config.Ok, Splice, ByteCopied, SameByte, Channel.TimedOut, RestKept,
           FrameBuffer.Valid, PoolState.IsLive, Admitted, ScratchKept;
      RestSame(fb.chan.c, Mem());
      if bytes == 0 || bytes > MAX_XFER { return BadArgument; }
      var srcOk, srcOff := Resolve(src, bytes);
      var dstOk, dstOff := Resolve(dst, bytes);
      if !srcOk || !dstOk { return BadArgument; }
      if src.Buffer? {
        OverlapMeansSame(pool.State(), SlotOf(src.handle), SlotOf(dst.handle), src.off, dst.off, bytes);
      }
      ghost var m0, s, t := Mem(), Base() + srcOff, Base() + dstOff;
      st := fb.GpuCopy(srcOff, dstOff, bytes);
      if src.Buffer? {
        ghost var i, k := SlotOf(src.handle), SlotOf(dst.handle);
        forall a | Base() <= a < Base() + pool.size
          ensures st == Success ==> ByteCopied(m0, Mem(), s, t, bytes, a)
          ensures st == IoError && !(0 <= a - t < bytes) ==> SameByte(m0, Mem(), a)
        {
          assert fb.chan.c.InScratch(a);
        }
        ghost var junk := CopySeen(contents, pool.State(), m0, Mem(), Base(), i, k, src.off, dst.off, bytes,
                                       s, t, st);
        if st == IoError {
          assert Spliced(old(contents), contents[dst.handle := Splice(contents[dst.handle], dst.off, junk)], dst.handle,
                         dst.off, junk);
        }
        if st != BadArgument { contents := contents[dst.handle := Splice(contents[dst.handle], dst.off, junk)]; }
      } else {
        EmptyRepresents(contents, pool.State(), m0, Mem(), Base());
      }
    }

    /** Clears a new extent: the first page word by word, then copies of what is already clear, twice as
        much each time up to 4 MiB.  None of the copies is ever refused. */
    method Clear(offset: u64, size: u64) returns (st: Status)
      requires fb.Valid() && fb.chan.ok && offset % 4 == 0 && PAGE <= size && offset + size <= fb.chan.c.scratchSize
      modifies fb.chan
      ensures fb.Valid() && st in {Success, IoError} && (st == Success <==> fb.chan.ok)
              && RestKept(fb.chan.c, old(Mem()), Mem())
      ensures st == IoError ==> fb.chan.TimedOut(200) && old(fb.chan.clock) < fb.chan.wait.clock
      ensures KeptAround(old(Mem()), Mem(), Base(), fb.chan.c.scratchSize, Base() + offset, Base() + offset + size)
      ensures st == Success ==> ZeroBytes(Mem(), Base() + offset, size)
    {
      hide Config.Ok, Wrote, ZeroBytes, KeptAround, Channel.TimedOut, RestKept;
      ghost var m0, at, n := Mem(), Base() + offset, fb.chan.c.scratchSize;
      var page := Zeros(PAGE);
      st := fb.GpuWrite(offset, page);
      FirstPage(m0, Mem(), at, page, Base(), n, size);
      var filled: u64 := PAGE;
      while st == Success && filled < size
        invariant st == IoError ==> fb.chan.TimedOut(200) && old(fb.chan.clock) < fb.chan.wait.clock
        invariant old(fb.chan.clock) <= fb.chan.clock && RestKept(fb.chan.c, m0, Mem())
        invariant fb.Valid() && st in {Success, IoError} && (st == Success <==> fb.chan.ok) && PAGE <= filled <= size
        invariant KeptAround(m0, Mem(), Base(), n, at, at + size)
        invariant st == Success ==> ZeroBytes(Mem(), at, filled)
        decreases size - filled
      {
        var chunk := size - filled;
        if chunk > filled { chunk := filled; }
        if chunk > MAX_XFER { chunk := MAX_XFER; }
        ghost var m1, to := Mem(), at + filled;
        st := fb.GpuCopy(offset, offset + filled, chunk);
        RestTwice(fb.chan.c, m0, m1, Mem());
        forall a | Base() <= a < Base() + n
          ensures st == Success ==> ByteCopied(m1, Mem(), at, to, chunk, a)
          ensures st == IoError && !(0 <= a - to < chunk) ==> SameByte(m1, Mem(), a)
        {
          assert fb.chan.c.InScratch(a);
        }
        NextChunk(m0, m1, Mem(), Base(), n, at, size, filled, to, chunk, st);
        filled := filled + chunk;
      }
    }

    ghost predicate RoomFor(bytes: u64, alignment: u64)
      reads pool, pool.allocations
    {
      alignment > 0 && HasRoom(pool.State(), PageUp(bytes), alignment)
    }

    /** A new resource, cleared before its handle is handed out; on any failure nothing is left behind but
        a used-up handle. */
    method Alloc(bytes: u64, alignment: u64, zeroPage: bool) returns (st: Status, handle: u64, size: u64)
      requires Valid()
      modifies this, pool, pool.allocations, fb.chan
      ensures Valid() && st in {Success, BadArgument, NoMemory, NotReady, IoError}
              && RestKept(fb.chan.c, old(Mem()), Mem())
      ensures st == NotReady <==> !(old(fb.chan.ok) && fb.externalVmm && fb.selftestOk)
      ensures st != NotReady ==> (st == BadArgument <==>
                bytes == 0 || alignment < 0x1000 || !IsPow2(alignment) || bytes > 0xffff_ffff_ffff_f000)
      ensures st != NotReady && st != BadArgument ==>
                (st == NoMemory <==> !zeroPage || !old(RoomFor(bytes, alignment)))
      ensures st == IoError ==>
                !fb.chan.ok && fb.chan.TimedOut(200) && old(fb.chan.clock) < fb.chan.wait.clock
      ensures st == Success ==> managed && handle == old(pool.nextHandle) && handle !in old(contents)
                                && size == PageUp(bytes) && IsCeiling(bytes, PAGE, size)
                                && contents == old(contents)[handle := Zeros(size)]
      ensures st == Success ==> AllocatedSome(old(pool.State()), pool.State(), size, alignment)
      ensures st != Success ==> handle == 0 && size == 0 && contents == old(contents) && managed == old(managed)
                                && SameExtents(old(pool.State()), pool.State())
    {
      hide RestKept, Channel.TimedOut, View, PoolState.Ok, Represents, Config.Ok, Allocated, AllocatedSome, ZeroBytes,
           KeptAround, Multiple, RoundDown, AlignmentValid, NoRoom,
           PoolState.HasFreeSlot, IsCeiling, WholePages, HasRoom, PoolState.IsLive, PoolState.Release, Zeros, IsPow2,
           FrameBuffer.Valid;
      RestSame(fb.chan.c, Mem());
      if !fb.PoolVerified() { return NotReady, 0, 0; }
      ghost var p, m0 := pool.State(), Mem();
      var rc, h := pool.Alloc(bytes, alignment);
      if rc != 0 { return if rc == -2 then NoMemory else BadArgument, 0, 0; }
      var need := RoundDown(bytes + 0xfff, 0x1000);
      ghost var q := pool.State();
      ghost var slot, c := NewExtent(p, q, need, alignment);
      assert pool.allocations[slot] == q.slots[slot];
      var resolved, offset, _ := pool.Resolve(h, 0, need);
      assert resolved == 0 && offset == c;
      st := NoMemory;
      if zeroPage {
        st := Clear(offset, need);
      } else {
        NothingKept(m0, Base(), p.size, Base() + c, Base() + c + need);
      }
      CreatedSeen(contents, p, q, m0, Mem(), Base(), need, alignment, slot, c);
      if st != Success {
        var freed := pool.Free(h);
        ghost var slot' : nat :| Freed(q, pool.State(), slot') && q.slots[slot'].handle == h;
        OnlySlot(q, slot);
        UndoneSeen(contents, p, q, pool.State(), Mem(), Base(), need, alignment, slot, c);
        return st, 0, 0;
      }
      ZeroView(Mem(), Base(), q.slots[slot]);
      contents := contents[h := Zeros(need)];
      managed := true;
      handle, size := h, need;
    }

    method Free(handle: u64) returns (st: Status)
      requires Valid()
      modifies this`contents, pool, pool.allocations
      ensures Valid() && Mem() == old(Mem())
      ensures st == if handle in old(contents) then Success else BadArgument
      ensures contents == old(contents) - {handle}
      ensures st == BadArgument ==> pool.State() == old(pool.State())
      ensures pool.nextHandle == old(pool.nextHandle)
    {
      hide View, PoolState.Ok, Config.Ok, Multiple;
      ghost var p := pool.State();
      var rc := pool.Free(handle);
      if rc != 0 { return BadArgument; }
      ghost var slot: nat :| Freed(p, pool.State(), slot) && p.slots[slot].handle == handle;
      ResourceGone(contents, p, pool.State(), Mem(), Base(), slot);
      contents := contents - {handle};
      st := Success;
    }

    ghost function Abs(): ClientView
      reads this, pool
    {
      ClientView(contents, pool.nextHandle, managed)
    }

    /** Whether an allocation finds room; no other request needs any. */
    ghost predicate Room(q: Request)
      reads pool, pool.allocations
    {
      q.Allocate? ==> RoomFor(q.bytes, q.alignment)
    }

    /** Dispatch of one request: offsets into the bare region are refused once a resource has existed,
        without touching anything; every request is a step of the abstract resource interface. */
    method Call(q: Request) returns (r: Reply)
      requires Valid()
      modifies this, pool, pool.allocations, fb.chan
      ensures Valid() && old(Abs()).Issued() && ResourceApi.Step(old(Abs()), Abs(), q, r)
      ensures RestKept(fb.chan.c, old(Mem()), Mem())
      ensures Answered(old(Abs()), old(Dev()), old(Room(q)), q, r.st)
      ensures q.Allocate? ==> (r.st == NotReady <==> !(old(fb.chan.ok) && fb.externalVmm && fb.selftestOk))
      ensures r.st == IoError ==>
                !fb.chan.ok && fb.chan.TimedOut(200) && old(fb.chan.clock) < fb.chan.wait.clock
      ensures old(managed) && IsRaw(q) ==>
                fb.ChannelKept() && fb.chan.gpu == old(fb.chan.gpu) && fb.chan.clock == old(fb.chan.clock)
    {
      hide RestKept, Wrote, ByteCopied, ReadBytes, Channel.TimedOut, View, PoolState.Ok, Represents, Config.Ok, Splice,
           WriteEffect, CopyEffect, AllocatedSome, NoRoom, SameExtents, CopyAllowed, RawCopyAllowed, HasRoom, InBounds;
      RestSame(fb.chan.c, Mem());
      HandlesIssued(contents, pool.State(), Mem(), Base());
      if managed && IsRaw(q) { return Reply(Unsupported, [], 0, 0); }
      var st: Status, data: seq<u8>, handle: u64, size: u64 := Success, [], 0, 0;
      match q {
        case Write(to, bytes, how) => st := Write(to, bytes, how);
        case Read(from, len, how) => st, data := Read(from, len, how);
        case CopyRaw(srcOffset, dstOffset, n) => st := Copy(Raw(srcOffset), Raw(dstOffset), n);
        case CopyBuffer(src, srcOff, dst, dstOff, n) => st := Copy(Buffer(src, srcOff), Buffer(dst, dstOff), n);
        case Allocate(bytes, alignment, zeroPage) =>
          ghost var p := pool.State();
          st, handle, size := Alloc(bytes, alignment, zeroPage);
          CounterGrows(p, pool.State(), size, alignment, st);
        case Release(h) => st := Free(h);
        case Query =>
      }
      r := Reply(st, data, handle, size);
    }

    /** Any list of requests, one after the other, is a session of the abstract interface. */
    method Serve(qs: seq<Request>) returns (rs: seq<Reply>, ghost vs: seq<ClientView>)
      requires Valid()
      modifies this, pool, pool.allocations, fb.chan
      ensures Valid() && Session(vs, qs, rs) && vs[0] == old(Abs()) && vs[|qs|] == Abs()
      ensures RestKept(fb.chan.c, old(Mem()), Mem())
    {
      hide Valid, Answered, Session, ResourceApi.Step, ClientView.Issued, RestKept;
      ghost var m0 := Mem();
      RestSame(fb.chan.c, m0);
      Opening();
      rs, vs := [], [Abs()];
      SessionStarts(Abs());
      var i := 0;
      while i < |qs|
        invariant i <= |qs| && |vs| == i + 1 && Valid() && Session(vs, qs[..i], rs) && vs[0] == old(Abs())
                  && vs[i] == Abs()
        invariant RestKept(fb.chan.c, m0, Mem())
      {
        ghost var m1 := Mem();
        var r := Call(qs[i]);
        RestTwice(fb.chan.c, m0, m1, Mem());
        SessionMore(vs, qs[..i], rs, Abs(), qs[i], r);
        assert qs[..i + 1] == qs[..i] + [qs[i]];
        rs, vs := rs + [r], vs + [Abs()];
        i := i + 1;
      }
      assert qs[..i] == qs;
    }

    lemma Opening()
      requires Valid()
      ensures Abs().Issued() && 1 <= Abs().next
    {
      hide View;
      HandlesIssued(contents, pool.State(), Mem(), Base());
      NextIsNew(pool.State());
    }
  }

  lemma DirectOutcome(how: Transfer, n: nat, offset: u64, d: Device, write: bool)
    requires how == Direct && 0 < n
    ensures var reach, fits := Reach(Raw(offset), 0, d), d.open && offset + n <= d.size;
            Outcome(how, n, reach, write) == (if fits then Success else BadArgument)
            && Carried(how, n, reach) == if fits then n else 0
  {
  }

  /** Nothing too small or too large is admitted. */
  lemma SizeRefused(abs: Contents, t: Target, n: nat)
    requires n == 0 || n > MAX_XFER
    ensures !Admitted(abs, t, n)
  {
  }

  lemma OutcomeEnds(how: Transfer, n: nat, reach: nat, write: bool)
    requires how.Chunked? && 0 < n
    ensures !how.prepared ==> Outcome(how, n, reach, write) == VmError
    ensures how.prepared && !how.staging ==> Outcome(how, n, reach, write) == NoMemory
    ensures !how.prepared || !how.staging ==> Carried(how, n, reach) == 0
    ensures how.prepared && how.staging && n <= how.limit && n <= reach ==>
              Outcome(how, n, reach, write) == Success && Carried(how, n, reach) == n
  {
  }

  /** For a range of a resource the region is always long enough. */
  lemma ReachIsRest(t: Target, n: nat, offset: u64, how: Transfer, d: Device, write: bool)
    requires 0 < n && if t.Buffer? then offset + n <= d.size else offset == t.offset
    ensures Outcome(how, n, Reach(t, n, d), write) == Outcome(how, n, Reach(Raw(offset), 0, d), write)
    ensures Carried(how, n, Reach(t, n, d)) == Carried(how, n, Reach(Raw(offset), 0, d))
    ensures t.Buffer? ==> Arrived(how, n, Outcome(how, n, Reach(t, n, d), true)) == Carried(how, n, Reach(t, n, d))
  {
    hide Outcome, Carried, Arrived;
    if t.Buffer? {
      ReplyTells(how, n, Reach(t, n, d));
      if d.open { ReachEnough(how, n, Reach(Raw(offset), 0, d), write); }
    }
  }

  lemma AllOrNone(how: Transfer, data: seq<u8>)
    ensures data[..|data|] == data && Arrived(how, |data|, BadArgument) == 0
  {
  }

  lemma NothingLive(p: PoolState)
    requires forall i :: 0 <= i < |p.slots| ==> p.slots[i] == FREE
    ensures forall h :: !p.IsLive(h)
  {
  }

  lemma OnlySlot(p: PoolState, i: nat)
    requires p.Ok() && i < |p.slots| && p.slots[i].Live()
    ensures forall k :: 0 <= k < |p.slots| && p.slots[k].handle == p.slots[i].handle ==> k == i
  {
    hide Multiple, Total;
  }

  lemma ViewLength(m: Memory, base: int, a: Allocation)
    ensures |View(m, base, a)| == a.size
  {
  }

  lemma OffsetAlignment(p: PoolState, i: nat, off: nat)
    requires p.Ok() && i < |p.slots| && p.slots[i].Live()
    ensures (p.slots[i].offset + off) % 4 == 0 <==> off % 4 == 0
  {
    hide Total;
    LiveExtent(p, i);
    MultipleOfFour(p.slots[i].offset, off);
  }

  lemma MultipleOfFour(x: int, off: int)
    requires x % PAGE == 0
    ensures (x + off) % 4 == 0 <==> off % 4 == 0
  {
  }

  lemma SpliceNothing(abs: Contents, h: int, off: nat)
    requires h in abs && off <= |abs[h]|
    ensures abs[h := Splice(abs[h], off, [])] == abs
  {
    assert Splice(abs[h], off, []) == abs[h];
  }

  lemma LiveIsMapped(abs: Contents, p: PoolState, m: Memory, base: int, i: nat)
    requires Represents(abs, p, m, base) && i < |p.slots|
    ensures p.slots[i].Live() ==> p.slots[i].handle in abs
  {
  }

  /** With no resources, any memory will do. */
  lemma EmptyRepresents(abs: Contents, p: PoolState, m0: Memory, m: Memory, base: int)
    requires abs == map[] && Represents(abs, p, m0, base)
    ensures Represents(abs, p, m, base)
  {
    hide View;
    forall i | 0 <= i < |p.slots| ensures !p.slots[i].Live() {
      LiveIsMapped(abs, p, m0, base, i);
    }
  }

  lemma WroteTwice(m0: Memory, m1: Memory, m2: Memory, p: int, first: seq<u8>, second: seq<u8>)
    requires Wrote(m0, m1, p, first) && Wrote(m1, m2, p + |first|, second)
    ensures Wrote(m0, m2, p, first + second)
  {
    hide Byte;
    var both := first + second;
    forall a ensures WroteAt(m0, m2, p, both, a) {
      assert WroteAt(m0, m1, p, first, a) && WroteAt(m1, m2, p + |first|, second, a);
    }
  }

  lemma ViewIsContents(abs: Contents, p: PoolState, m: Memory, base: int, i: nat)
    requires p.Ok() && Represents(abs, p, m, base) && i < |p.slots| && p.slots[i].Live()
    ensures p.slots[i].handle in abs && abs[p.slots[i].handle] == View(m, base, p.slots[i])
  {
    LiveExtent(p, i);
  }

  lemma ReadInside(m: Memory, base: int, a: Allocation, off: nat, len: nat)
    requires off + len <= a.size
    ensures ReadBytes(m, base + a.offset + off, len) == View(m, base, a)[off..off + len]
  {
  }

  lemma OverlapMeansSame(p: PoolState, i: nat, k: nat, so: nat, d: nat, n: nat)
    requires p.Ok() && i < |p.slots| && k < |p.slots| && p.slots[i].Live() && p.slots[k].Live()
    requires so + n <= p.slots[i].size && d + n <= p.slots[k].size && 0 < n
    ensures var s, t := p.slots[i].offset + so, p.slots[k].offset + d;
            (s < t + n && t < s + n) <==> (p.slots[i].handle == p.slots[k].handle && so < d + n && d < so + n)
  {
    hide Multiple, Total;
    if i != k { LiveApart(p, i, k); }
  }

  /** A copy from address `s` to `t`, seen as resources: the bytes now in the destination range. */
  lemma CopySeen(abs: Contents, p: PoolState, m0: Memory, m: Memory, base: int, i: nat, k: nat, so: nat, d: nat, n: nat,
                 s: int, t: int, st: Status) returns (junk: seq<u8>)
    requires p.Ok() && Represents(abs, p, m0, base) && i < |p.slots| && k < |p.slots| && p.slots[i].Live()
             && p.slots[k].Live()
    requires so + n <= p.slots[i].size && d + n <= p.slots[k].size && 0 < n
    requires s == base + (p.slots[i].offset + so) && t == base + (p.slots[k].offset + d)
    requires st == Success ==> forall a :: base <= a < base + p.size ==> ByteCopied(m0, m, s, t, n, a)
    requires st == IoError ==> forall a :: base <= a < base + p.size && !(0 <= a - t < n) ==> SameByte(m0, m, a)
    requires st == BadArgument ==> m == m0
    requires st in {Success, IoError, BadArgument}
    ensures InBounds(abs, p.slots[i].handle, so, n) && InBounds(abs, p.slots[k].handle, d, n) && |junk| == n
    ensures st == Success ==> junk == abs[p.slots[i].handle][so..so + n]
    ensures st != BadArgument ==>
              Represents(abs[p.slots[k].handle := Splice(abs[p.slots[k].handle], d, junk)], p, m, base)
    ensures st == BadArgument ==> Represents(abs, p, m, base)
  {
    hide PoolState.Ok, View, SameByte, ByteCopied, Splice;
    var a, b := p.slots[i], p.slots[k];
    ViewIsContents(abs, p, m0, base, i);
    ViewIsContents(abs, p, m0, base, k);
    ViewLength(m0, base, a);
    ViewLength(m0, base, b);
    ViewLength(m, base, b);
    junk := View(m, base, b)[d..d + n];
    if st != BadArgument {
      LiveExtent(p, k);
      forall x | base <= x < base + p.size && !(base + b.offset <= x < base + b.End()) ensures SameByte(m0, m, x) {
        if st == Success { CopyElsewhere(m0, m, s, t, n, x); }
      }
      ChangeInside(abs, p, m0, m, base, k);
      if st == Success {
        CopiedView(m0, m, base, a, b, so, d, n, s, t);
        SplicePart(View(m0, base, b), d, View(m0, base, a)[so..so + n]);
      } else {
        PartSplice(m0, m, base, b, d, n, t);
      }
    }
  }

  lemma CopyElsewhere(m0: Memory, m: Memory, s: int, t: int, n: int, x: int)
    requires ByteCopied(m0, m, s, t, n, x) && !(t <= x < t + n)
    ensures SameByte(m0, m, x)
  {
  }

  lemma SplicePart(s: seq<u8>, d: nat, data: seq<u8>)
    requires d + |data| <= |s|
    ensures Splice(s, d, data)[d..d + |data|] == data
  {
  }

  lemma PartSplice(m0: Memory, m: Memory, base: int, b: Allocation, d: nat, n: nat, t: int)
    requires d + n <= b.size && t == base + (b.offset + d)
    requires forall x :: base + b.offset <= x < base + b.End() && !(0 <= x - t < n) ==> SameByte(m0, m, x)
    ensures View(m, base, b) == Splice(View(m0, base, b), d, View(m, base, b)[d..d + n])
  {
    hide Byte;
    var v, w := View(m, base, b), Splice(View(m0, base, b), d, View(m, base, b)[d..d + n]);
    forall q | 0 <= q < b.size ensures v[q] == w[q] {
      if !(d <= q < d + n) { assert SameByte(m0, m, base + b.offset + q); }
    }
  }

  // ----- Clearing -----

  ghost predicate ZeroBytes(m: Memory, at: int, n: int) {
    forall a :: at <= a < at + n ==> Byte(m, a) == 0
  }

  lemma NothingKept(m: Memory, base: int, n: int, lo: int, hi: int)
    ensures KeptAround(m, m, base, n, lo, hi)
  {
    hide Byte;
  }

  lemma FirstPage(m0: Memory, m: Memory, at: int, page: seq<u8>, base: int, n: int, size: int)
    requires Wrote(m0, m, at, page) && |page| <= size && page == Zeros(|page|)
    ensures ZeroBytes(m, at, |page|) && KeptAround(m0, m, base, n, at, at + size)
  {
    hide Byte;
    forall a ensures at <= a < at + |page| ==> Byte(m, a) == 0
             ensures !(at <= a < at + size) ==> SameByte(m0, m, a) {
      assert WroteAt(m0, m, at, page, a);
    }
  }

  lemma NextChunk(m0: Memory, m1: Memory, m: Memory, base: int, n: int, at: int, size: int, filled: int, to: int,
                  chunk: int, st: Status)
    requires to == at + filled && base <= at && at + size <= base + n && 0 < chunk <= filled && filled + chunk <= size
    requires ZeroBytes(m1, at, filled) && KeptAround(m0, m1, base, n, at, at + size)
    requires st == Success ==> forall a :: base <= a < base + n ==> ByteCopied(m1, m, at, to, chunk, a)
    requires st == IoError ==> forall a :: base <= a < base + n && !(0 <= a - to < chunk) ==> SameByte(m1, m, a)
    requires st in {Success, IoError}
    ensures KeptAround(m0, m, base, n, at, at + size) && (st == Success ==> ZeroBytes(m, at, filled + chunk))
  {
    hide Byte;
    if st == Success {
      forall a | at <= a < at + filled + chunk ensures Byte(m, a) == 0 {
        assert ByteCopied(m1, m, at, to, chunk, a);
      }
    }
    forall a | base <= a < base + n && !(at <= a < at + size) ensures SameByte(m0, m, a) {
      assert SameByte(m0, m1, a);
      if st == Success { assert ByteCopied(m1, m, at, to, chunk, a); } else { assert SameByte(m1, m, a); }
    }
  }

  lemma ZeroView(m: Memory, base: int, a: Allocation)
    requires ZeroBytes(m, base + a.offset, a.size)
    ensures View(m, base, a) == Zeros(a.size)
  {
    hide Byte;
    var v, z := View(m, base, a), Zeros(a.size);
    forall k | 0 <= k < a.size ensures v[k] == z[k] {
      assert Byte(m, base + a.offset + k) == 0;
    }
  }

  // ----- Allocation, seen as resources -----

  /** Everything but the handle counter. */
  predicate SameExtents(p: PoolState, q: PoolState) {
    q == p.(nextHandle := q.nextHandle) && p.nextHandle <= q.nextHandle
  }

  lemma NewExtent(p: PoolState, q: PoolState, bytes: int, alignment: int) returns (slot: nat, c: int)
    requires p.Ok() && (q.size != 0 ==> q.Ok()) && AllocatedSome(p, q, bytes, alignment)
    ensures q.Ok() && Allocated(p, q, bytes, alignment, slot, c) && q.IsLive(p.nextHandle)
    ensures slot < |p.slots| == |q.slots| == MAX_ALLOCS && 0 <= c && c + bytes <= p.size && c % PAGE == 0
            && PAGE <= bytes
    ensures q.slots[slot] == Allocation(p.nextHandle, c, bytes) && q.slots[slot].Live() && q.size == p.size
            && q.phys == p.phys && q.va == p.va
    ensures forall k :: 0 <= k < |q.slots| && q.slots[k].handle == p.nextHandle ==> k == slot
  {
    hide Total;
    slot, c :| Allocated(p, q, bytes, alignment, slot, c);
    NextIsNew(p);
    LiveExtent(q, slot);
    OnlySlot(q, slot);
  }

  lemma SlotExists(p: PoolState, q: PoolState, bytes: int, alignment: int, slot: nat, c: int)
    requires Allocated(p, q, bytes, alignment, slot, c)
    ensures slot < |q.slots|
  {
  }

  lemma CreatedSeen(abs: Contents, p: PoolState, q: PoolState, m0: Memory, m: Memory, base: int, bytes: int,
                    alignment: int, slot: nat, c: int)
    requires p.Ok() && q.Ok() && Represents(abs, p, m0, base) && Allocated(p, q, bytes, alignment, slot, c)
    requires KeptAround(m0, m, base, p.size, base + c, base + c + bytes)
    ensures p.nextHandle !in abs && slot < |q.slots| && q.slots[slot] == Allocation(p.nextHandle, c, bytes)
    ensures Represents(abs[p.nextHandle := View(m, base, q.slots[slot])], q, m, base)
  {
    hide View, PoolState.Ok, Represents, Multiple, SameByte, Allocated;
    NewResource(abs, p, q, m0, m, base, bytes, alignment, slot, c);
    assert slot < |q.slots| by { SlotExists(p, q, bytes, alignment, slot, c); }
  }

  /** Allocating and freeing again leaves every extent and every resource as it was. */
  lemma UndoneSeen(abs: Contents, p: PoolState, q: PoolState, r: PoolState, m: Memory, base: int, bytes: int,
                   alignment: int, slot: nat, c: int)
    requires p.Ok() && q.Ok() && Allocated(p, q, bytes, alignment, slot, c) && Freed(q, r, slot) && p.nextHandle !in abs
    requires slot < |q.slots| && Represents(abs[p.nextHandle := View(m, base, q.slots[slot])], q, m, base)
    ensures SameExtents(p, r) && Represents(abs, r, m, base)
  {
    hide View, Represents, Multiple, Total;
    var all := abs[p.nextHandle := View(m, base, q.slots[slot])];
    ResourceGone(all, q, r, m, base, slot);
    assert all - {p.nextHandle} == abs;
    assert p.slots[slot] == FREE;
    assert r.slots == p.slots;
  }

  lemma HandlesIssued(abs: Contents, p: PoolState, m: Memory, base: int)
    requires p.Ok() && Represents(abs, p, m, base)
    ensures forall h :: h in abs ==> 1 <= h < p.nextHandle
  {
    hide Multiple, Total, View;
  }

  lemma CounterGrows(p: PoolState, q: PoolState, bytes: int, alignment: int, st: Status)
    requires if st == Success then AllocatedSome(p, q, bytes, alignment) else SameExtents(p, q)
    ensures p.nextHandle <= q.nextHandle && (st == Success ==> p.nextHandle < q.nextHandle)
  {
  }
}
