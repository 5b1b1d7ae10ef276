/** Byte-exact access to the scratch region: word-wise writes and reads with a read-modify-write tail,
    and checked engine copies (driver/macos/MilcorixFB.cpp, lines 860-952). */
module FrameBuffer {
  import opened Words
  import opened Bytes
  import opened Engine
  import opened Exec

  datatype Status = Success | BadArgument | NoMemory | NotReady | IoError | VmError | Unsupported

  /** Memory after `data` has been put at `p`, byte for byte. */
  ghost predicate Wrote(before: Memory, after: Memory, p: int, data: seq<u8>) {
    forall a :: WroteAt(before, after, p, data, a)
  }

  predicate WroteAt(before: Memory, after: Memory, p: int, data: seq<u8>, a: int) {
    Byte(after, a) == if 0 <= a - p < |data| then data[a - p] else Byte(before, a)
  }

  function ReadBytes(m: Memory, p: int, n: nat): (s: seq<u8>)
    ensures |s| == n && forall k :: 0 <= k < n ==> s[k] == Byte(m, p + k)
  {
    seq<u8>(n, k requires 0 <= k < n => Byte(m, p + k))
  }

  lemma JoinedBytes(m: Memory, p: int, b0: u8, b1: u8, b2: u8, b3: u8, a: int)
    requires p % 4 == 0
    ensures Byte(m[p := Join(b0, b1, b2, b3)], a)
            == if a == p then b0 else if a == p + 1 then b1 else if a == p + 2 then b2 else if a == p + 3 then b3
              else Byte(m, a)
  {
    hide Pick, Join;
    JoinPicks(b0, b1, b2, b3);
    WordPlace(p, a);
  }

  lemma WordPlace(p: int, a: int)
    requires p % 4 == 0
    ensures WordOf(a) == p <==> p <= a < p + 4
    ensures p <= a < p + 4 ==> a % 4 == a - p
  {
  }

  /** One more word of the data. */
  lemma WordExtends(m0: Memory, m: Memory, p: int, data: seq<u8>, i: int)
    requires p % 4 == 0 && i % 4 == 0 && 0 <= i && i + 4 <= |data| && Wrote(m0, m, p, data[..i])
    ensures Wrote(m0, m[p + i := Join(data[i], data[i + 1], data[i + 2], data[i + 3])], p, data[..i + 4])
  {
    hide Byte, Join;
    var m' := m[p + i := Join(data[i], data[i + 1], data[i + 2], data[i + 3])];
    assert (p + i) % 4 == 0;
    var head := data[..i + 4];
    forall a ensures WroteAt(m0, m', p, head, a) {
      assert WroteAt(m0, m, p, data[..i], a);
      JoinedBytes(m, p + i, data[i], data[i + 1], data[i + 2], data[i + 3], a);
    }
  }

  /** The tail word: its first `b` bytes replaced, the rest as read. */
  function Tail(w: u32, data: seq<u8>, b: nat): u32
    requires b <= |data| && b <= 3
  {
    if b == 0 then w else Put(Tail(w, data, b - 1), b - 1, data[b - 1])
  }

  lemma {:induction false} TailPicks(w: u32, data: seq<u8>, b: nat, j: int)
    requires b <= |data| && b <= 3 && 0 <= j < 4
    ensures Pick(Tail(w, data, b), j) == if j < b then data[j] else Pick(w, j)
  {
    hide Pick, Put;
    if b > 0 {
      TailPicks(w, data, b - 1, j);
      PutPicks(Tail(w, data, b - 1), b - 1, data[b - 1], j);
    }
  }

  lemma {:induction false} TailExtends(m0: Memory, m: Memory, p: int, data: seq<u8>, i: int)
    requires p % 4 == 0 && i % 4 == 0 && 0 <= i <= |data| <= i + 3 && Wrote(m0, m, p, data[..i])
    ensures Wrote(m0, m[p + i := Tail(Rd32(m, p + i), data[i..], |data| - i)], p, data)
  {
    hide Pick, Tail;
    var q, w := p + i, Rd32(m, p + i);
    assert q % 4 == 0;
    var m' := m[q := Tail(w, data[i..], |data| - i)];
    forall a ensures WroteAt(m0, m', p, data, a) {
      assert WroteAt(m0, m, p, data[..i], a);
      WordPlace(q, a);
      if WordOf(a) == q { TailPicks(w, data[i..], |data| - i, a % 4); }
    }
  }

  const COPY_TIMEOUT_MS: u32 := 200

  class FrameBuffer {
    const chan: Channel
    const externalVmm: bool
    const selftestOk: bool

    constructor (chan: Channel, externalVmm: bool, selftestOk: bool)
      ensures this.chan == chan && this.externalVmm == externalVmm && this.selftestOk == selftestOk
    {
      this.chan, this.externalVmm, this.selftestOk := chan, externalVmm, selftestOk;
    }

    ghost predicate Valid()
      reads chan
    {
      chan.Valid() && chan.c.entries > 0
    }

    predicate PoolVerified()
      reads chan
    {
      chan.ok && externalVmm && selftestOk
    }

    predicate RegionOk(offset: u64, len: u32)
      reads chan
    {
      chan.ok && len != 0 && offset <= chan.c.scratchSize && len <= chan.c.scratchSize - offset
    }

    /** What a write or read leaves alone: the channel's own state. */
    twostate predicate ChannelKept()
      reads chan
    {
      chan.ok == old(chan.ok) && chan.gpPut == old(chan.gpPut) && chan.seqNo == old(chan.seqNo)
      && chan.objectBound == old(chan.objectBound) && chan.gpu.history == old(chan.gpu.history)
    }

    method GpuWrite(offset: u64, data: seq<u8>) returns (st: Status)
      requires Valid() && |data| < TWO32 && offset % 4 == 0
      modifies chan`gpu, chan`clock
      ensures Valid() && ChannelKept() && old(chan.clock) <= chan.clock
      ensures st == Success <==> chan.ok && data != [] && offset + |data| <= chan.c.scratchSize
      ensures st in {Success, BadArgument}
      ensures st == Success ==> Wrote(old(chan.gpu.mem), chan.gpu.mem, chan.c.scratchPhys + offset, data)
      ensures RestKept(chan.c, old(chan.gpu.mem), chan.gpu.mem)
      ensures st != Success ==> chan.gpu == old(chan.gpu)
    {
      hide Wrote, Byte, Join, Put, Config.Ok, RestKept;
      RestSame(chan.c, chan.gpu.mem);
      if !RegionOk(offset, |data|) { return BadArgument; }
      ghost var m0 := chan.gpu.mem;
      var phys: int := chan.c.scratchPhys + offset;
      ScratchAligned(chan.c, offset);
      NothingWrote(m0, phys, data);
      var i := 0;
      while i + 4 <= |data|
        invariant 0 <= i <= |data| && i % 4 == 0 && Valid() && ChannelKept() && chan.ok && old(chan.clock) <= chan.clock
        invariant Wrote(m0, chan.gpu.mem, phys, data[..i]) && RestKept(chan.c, m0, chan.gpu.mem)
      {
        var w := Join(data[i], data[i + 1], data[i + 2], data[i + 3]);
        PutFar(chan.c, offset + i);
        WordExtends(m0, chan.gpu.mem, phys, data, i);
        RestStore(chan.c, m0, chan.gpu.mem, phys + i, w);
        chan.Store(phys + i, w);
        i := i + 4;
      }
      if i < |data| {
        PutFar(chan.c, offset + i);
        var w := ReadQuiet(phys + i);
        TailExtends(m0, chan.gpu.mem, phys, data, i);
        var b := 0;
        ghost var w0 := w;
        while i + b < |data|
          invariant 0 <= b <= |data| - i && w == Tail(w0, data[i..], b)
        {
          w := Put(w, b, data[i + b]);
          b := b + 1;
        }
        RestStore(chan.c, m0, chan.gpu.mem, phys + i, w);
        chan.Store(phys + i, w);
      } else {
        assert data[..i] == data;
      }
      st := Success;
    }

    /** A load while nothing is pending: no engine step can interfere. */
    method ReadQuiet(phys: int) returns (w: u32)
      requires Valid() && chan.ok
      modifies chan`gpu, chan`clock
      ensures chan.gpu == old(chan.gpu) && w == Rd32(chan.gpu.mem, phys) && old(chan.clock) < chan.clock
    {
      QuietStays(chan.c, chan.gpu, chan.schedule(chan.clock));
      w := chan.Load(phys);
    }

    method GpuRead(offset: u64, len: u32) returns (st: Status, data: seq<u8>)
      requires Valid() && offset % 4 == 0
      modifies chan`gpu, chan`clock
      ensures Valid() && ChannelKept() && chan.gpu == old(chan.gpu)
      ensures st == Success <==> chan.ok && len != 0 && offset + len <= chan.c.scratchSize
      ensures st in {Success, BadArgument}
      ensures st == Success ==> data == ReadBytes(chan.gpu.mem, chan.c.scratchPhys + offset, len)
      ensures st != Success ==> data == []
    {
      hide Config.Ok, Pick, Byte;
      if !RegionOk(offset, len) { return BadArgument, []; }
      var phys: int := chan.c.scratchPhys + offset;
      ScratchAligned(chan.c, offset);
      var i := 0;
      data := [];
      while i + 4 <= len
        invariant 0 <= i <= len && i % 4 == 0 && Valid() && ChannelKept() && chan.gpu == old(chan.gpu) && chan.ok
        invariant |data| == i && forall k :: 0 <= k < i ==> data[k] == Byte(chan.gpu.mem, phys + k)
      {
        var w := ReadQuiet(phys + i);
        WordBytes(chan.gpu.mem, phys + i);
        data := data + [Pick(w, 0), Pick(w, 1), Pick(w, 2), Pick(w, 3)];
        i := i + 4;
      }
      if i < len {
        var w := ReadQuiet(phys + i);
        WordBytes(chan.gpu.mem, phys + i);
        var b := 0;
        while i + b < len
          invariant 0 <= b <= len - i && |data| == i + b && forall k :: 0 <= k < i + b ==>
                      data[k] == Byte(chan.gpu.mem, phys + k)
        {
          data := data + [Pick(w, b)];
          b := b + 1;
        }
      }
      st := Success;
    }

    /** An engine copy between two ranges of the region; overlap and bounds are refused beforehand. */
    method GpuCopy(srcOffset: u64, dstOffset: u64, bytes: u32) returns (st: Status)
      requires Valid()
      modifies chan
      ensures Valid()
      ensures st == BadArgument <==> !old(chan.ok) || bytes == 0
                                     || srcOffset + bytes > chan.c.scratchSize || dstOffset + bytes > chan.c.scratchSize
                                     || (srcOffset < dstOffset + bytes && dstOffset < srcOffset + bytes)
      ensures st in {Success, BadArgument, IoError} && (st == Success ==> chan.ok) && (st == IoError ==> !chan.ok)
      ensures st == BadArgument ==> chan.gpu == old(chan.gpu) && ChannelKept()
      ensures st == Success ==> |chan.gpu.history| == |old(chan.gpu.history)| + 1
      ensures old(chan.clock) <= chan.clock && RestKept(chan.c, old(chan.gpu.mem), chan.gpu.mem)
      ensures st != BadArgument ==> old(chan.clock) < chan.wait.clock && chan.wait.job.history == old(chan.gpu.history)
      ensures st == IoError ==> chan.TimedOut(200)
      ensures st == IoError ==> |old(chan.gpu.history)| <= |chan.gpu.history| <= |old(chan.gpu.history)| + 1
      ensures st == Success ==> var p := chan.c.scratchPhys;
                forall a :: chan.c.InScratch(a) ==>
                  ByteCopied(old(chan.gpu.mem), chan.gpu.mem, p + srcOffset, p + dstOffset, bytes, a)
      ensures st == IoError ==>
                forall a :: chan.c.InScratch(a) && !(0 <= a - (chan.c.scratchPhys + dstOffset) < bytes) ==>
                  SameByte(old(chan.gpu.mem), chan.gpu.mem, a)
    {
      hide Byte, RestKept, After, Shows, Submission, Config.Ok, PendingEntries, Channel.TimedOut;
      RestSame(chan.c, chan.gpu.mem);
      if !RegionOk(srcOffset, bytes) || !RegionOk(dstOffset, bytes) { return BadArgument; }
      if srcOffset < dstOffset + bytes && dstOffset < srcOffset + bytes { return BadArgument; }
      ScratchAddresses(chan.c);
      var rc := chan.GpuCopy(chan.c.scratchVa + srcOffset, chan.c.scratchVa + dstOffset, bytes, COPY_TIMEOUT_MS);
      st := if rc == 0 then Success else IoError;
    }
  }

  lemma ScratchAligned(c: Config, offset: int)
    requires c.Ok() && offset % 4 == 0
    ensures (c.scratchPhys + offset) % 4 == 0
  {
    FoursAdd(c.scratchPhys, offset);
  }

  lemma FoursAdd(x: int, y: int)
    requires x % 4 == 0 && y % 4 == 0
    ensures (x + y) % 4 == 0
  {
    assert x == 4 * (x / 4) && y == 4 * (y / 4);
    assert x + y == 4 * (x / 4 + y / 4);
  }

  lemma ScratchAddresses(c: Config)
    requires c.Ok()
    ensures c.scratchVa + c.scratchSize <= TWO64 && c.mapping.At(c.scratchVa) == c.scratchPhys
    ensures c.scratchVa + c.scratchSize <= 0x2_0000_0000_0000
  {
  }

  /** No scratch word is GP_PUT. */
  lemma PutFar(c: Config, offset: int)
    requires c.Ok() && 0 <= offset < c.scratchSize
    ensures c.scratchPhys + offset != c.PutAddr()
  {
  }

  lemma NothingWrote(m: Memory, p: int, data: seq<u8>)
    ensures Wrote(m, m, p, data[..0])
  {
  }

  lemma WordBytes(m: Memory, p: int)
    requires p % 4 == 0
    ensures var w := Rd32(m, p);
            Byte(m, p) == Pick(w, 0) && Byte(m, p + 1) == Pick(w, 1) && Byte(m, p + 2) == Pick(w, 2)
            && Byte(m, p + 3) == Pick(w, 3)
  {
    hide Pick;
    WordPlace(p, p);
    WordPlace(p, p + 1);
    WordPlace(p, p + 2);
    WordPlace(p, p + 3);
  }
}
