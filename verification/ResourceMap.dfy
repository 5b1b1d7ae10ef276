/** Resources as byte sequences: how a pool and a memory represent a map from handles to contents
    (driver/macos/MilcorixABI.h, lines 44-48). */
module ResourceMap {
  import opened Words
  import opened Alignment
  import opened Bytes
  import opened VramPool
  import opened FrameBuffer

  /** Contents of every live resource. */
  type Contents = map<int, seq<u8>>

  /** `data` put into `s` at `off`. */
  function Splice(s: seq<u8>, off: nat, data: seq<u8>): seq<u8>
    requires off + |data| <= |s|
  {
    s[..off] + data + s[off + |data|..]
  }

  function View(m: Memory, base: int, a: Allocation): seq<u8> { ReadBytes(m, base + a.offset, a.size) }

  ghost predicate Represents(abs: Contents, p: PoolState, m: Memory, base: int) {
    && (forall h :: h in abs <==> p.IsLive(h))
    && forall i :: 0 <= i < |p.slots| && p.slots[i].Live() ==> abs[p.slots[i].handle] == View(m, base, p.slots[i])
  }

  /** Every byte of [base, base + n) outside [lo, hi) is as before. */
  ghost predicate KeptAround(m0: Memory, m: Memory, base: int, n: int, lo: int, hi: int) {
    forall a :: base <= a < base + n && !(lo <= a < hi) ==> SameByte(m0, m, a)
  }

  lemma ViewSame(m0: Memory, m: Memory, base: int, a: Allocation)
    requires forall x :: base + a.offset <= x < base + a.End() ==> SameByte(m0, m, x)
    ensures View(m, base, a) == View(m0, base, a)
  {
    hide Byte;
    var s, s0 := View(m, base, a), View(m0, base, a);
    forall k | 0 <= k < a.size ensures s[k] == s0[k] {
      assert SameByte(m0, m, base + a.offset + k);
    }
  }

  lemma LiveExtent(p: PoolState, i: nat)
    requires p.Ok() && i < |p.slots| && p.slots[i].Live()
    ensures 0 < p.slots[i].size && p.slots[i].End() <= p.size && p.slots[i].size % PAGE == 0
            && p.slots[i].offset % PAGE == 0
    ensures p.IsLive(p.slots[i].handle)
  {
  }

  lemma LiveApart(p: PoolState, i: nat, k: nat)
    requires p.Ok() && i < |p.slots| && k < |p.slots| && i != k && p.slots[i].Live() && p.slots[k].Live()
    ensures p.slots[i].handle != p.slots[k].handle && p.slots[i].Clear(p.slots[k].offset, p.slots[k].size)
  {
    hide Multiple, Total;
    assert p.Apart(i, k);
  }

  /** A change confined to one extent changes that resource only. */
  lemma ChangeInside(abs: Contents, p: PoolState, m0: Memory, m: Memory, base: int, i: nat)
    requires p.Ok() && Represents(abs, p, m0, base) && i < |p.slots| && p.slots[i].Live()
    requires KeptAround(m0, m, base, p.size, base + p.slots[i].offset, base + p.slots[i].End())
    ensures Represents(abs[p.slots[i].handle := View(m, base, p.slots[i])], p, m, base)
  {
    hide View, PoolState.Ok, SameByte;
    LiveExtent(p, i);
    forall k | 0 <= k < |p.slots| && p.slots[k].Live() && k != i
      ensures p.slots[k].handle != p.slots[i].handle && View(m, base, p.slots[k]) == View(m0, base, p.slots[k])
    {
      LiveApart(p, i, k);
      LiveExtent(p, k);
      ViewSame(m0, m, base, p.slots[k]);
    }
  }

  /** A new resource leaves the others alone, whatever happened to the memory it was given. */
  lemma NewResource(abs: Contents, p: PoolState, q: PoolState, m0: Memory, m: Memory, base: int, bytes: int,
                    alignment: int, slot: nat, c: int)
    requires p.Ok() && q.Ok() && Represents(abs, p, m0, base) && Allocated(p, q, bytes, alignment, slot, c)
    requires KeptAround(m0, m, base, p.size, base + c, base + c + bytes)
    ensures Represents(abs[p.nextHandle := View(m, base, q.slots[slot])], q, m, base) && p.nextHandle !in abs
    ensures q.slots[slot] == Allocation(p.nextHandle, c, bytes)
  {
    hide View, PoolState.Ok, SameByte, Multiple;
    NextIsNew(p);
    forall k | 0 <= k < |p.slots| && p.slots[k].Live()
      ensures p.slots[k].handle != p.nextHandle && View(m, base, p.slots[k]) == View(m0, base, p.slots[k])
    {
      LiveExtent(p, k);
      assert p.slots[k].Clear(c, bytes);
      ViewSame(m0, m, base, p.slots[k]);
    }
    assert q.slots[slot].handle == p.nextHandle;
    forall h ensures q.IsLive(h) <==> p.IsLive(h) || h == p.nextHandle {
      LiveAfter(p, q, slot, h);
    }
  }

  lemma NextIsNew(p: PoolState)
    requires p.Ok()
    ensures p.nextHandle >= 1 && !p.IsLive(p.nextHandle)
  {
  }

  lemma LiveAfter(p: PoolState, q: PoolState, slot: nat, h: int)
    requires slot < |p.slots| && !p.slots[slot].Live() && |q.slots| == |p.slots| && q.slots[slot].Live()
    requires forall k :: 0 <= k < |p.slots| && k != slot ==> q.slots[k] == p.slots[k]
    ensures q.IsLive(h) <==> p.IsLive(h) || h == q.slots[slot].handle
  {
    if p.IsLive(h) {
      var k :| 0 <= k < |p.slots| && p.slots[k].handle == h;
      assert q.slots[k].handle == h;
    }
    if h == q.slots[slot].handle { assert q.slots[slot].handle == h; }
  }

  lemma ResourceGone(abs: Contents, p: PoolState, q: PoolState, m: Memory, base: int, slot: nat)
    requires p.Ok() && Represents(abs, p, m, base) && Freed(p, q, slot)
    ensures Represents(abs - {p.slots[slot].handle}, q, m, base)
  {
    hide View, Multiple, Total;
    var h0 := p.slots[slot].handle;
    forall k | 0 <= k < |p.slots| && k != slot && p.slots[k].Live() ensures p.slots[k].handle != h0 {
      LiveApart(p, slot, k);
    }
    forall h ensures q.IsLive(h) <==> p.IsLive(h) && h != h0 {
      if p.IsLive(h) && h != h0 {
        var k :| 0 <= k < |p.slots| && p.slots[k].handle == h;
        assert q.slots[k].handle == h;
      }
    }
  }

  // ----- What a changed resource now reads as -----

  lemma WrittenView(m0: Memory, m: Memory, base: int, a: Allocation, off: nat, data: seq<u8>)
    requires off + |data| <= a.size && Wrote(m0, m, base + a.offset + off, data)
    ensures View(m, base, a) == Splice(View(m0, base, a), off, data)
  {
    hide Byte;
    var p := base + a.offset + off;
    var v, w := View(m, base, a), Splice(View(m0, base, a), off, data);
    forall k | 0 <= k < a.size ensures v[k] == w[k] {
      assert WroteAt(m0, m, p, data, base + a.offset + k);
    }
  }

  lemma WrittenKeeps(m0: Memory, m: Memory, p: PoolState, base: int, at: int, data: seq<u8>, lo: int, hi: int)
    requires Wrote(m0, m, at, data) && lo <= at && at + |data| <= hi
    ensures KeptAround(m0, m, base, p.size, lo, hi)
  {
    hide Byte;
    forall a | base <= a < base + p.size && !(lo <= a < hi) ensures SameByte(m0, m, a) {
      assert WroteAt(m0, m, at, data, a);
    }
  }

  lemma CopiedView(m0: Memory, m: Memory, base: int, src: Allocation, dst: Allocation, so: nat, dstOff: nat, n: nat,
                   s: int, d: int)
    requires so + n <= src.size && dstOff + n <= dst.size && s == base + src.offset + so
             && d == base + dst.offset + dstOff
    requires forall x :: base + dst.offset <= x < base + dst.End() ==> ByteCopied(m0, m, s, d, n, x)
    ensures View(m, base, dst) == Splice(View(m0, base, dst), dstOff, View(m0, base, src)[so..so + n])
  {
    hide Byte;
    var v, w := View(m, base, dst), Splice(View(m0, base, dst), dstOff, View(m0, base, src)[so..so + n]);
    forall k | 0 <= k < dst.size ensures v[k] == w[k] {
      assert ByteCopied(m0, m, s, d, n, base + dst.offset + k);
    }
  }
}
