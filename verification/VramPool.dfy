/** The video-memory pool: a fixed table of allocations, first fit by GPU address, handles that are
    never reused (driver/gsp/vram.c, lines 47-118; driver/gsp/vram.h). */
module VramPool {
  import opened Words
  import opened Alignment
  import opened VramRange

  const MAX_ALLOCS: nat := 128

  datatype Allocation = Allocation(handle: u64, offset: u64, size: u64) {
    function End(): int { offset + size }

    predicate Live() { handle != 0 }

    predicate Clear(c: int, bytes: int) { c + bytes <= offset || End() <= c }
  }

  const FREE := Allocation(0, 0, 0)

  /** Sum of the live sizes. */
  function Total(slots: seq<Allocation>): int {
    if slots == [] then 0
    else Total(slots[..|slots| - 1]) + if slots[|slots| - 1].Live() then slots[|slots| - 1].size else 0
  }

  datatype PoolState = PoolState(phys: u64, va: u64, size: u64, used: u64, nextHandle: u64, slots: seq<Allocation>) {
    predicate Apart(i: nat, j: nat)
      requires i < |slots| && j < |slots|
    {
      slots[i].Clear(slots[j].offset, slots[j].size)
    }

    /** The pool invariant: live extents are whole pages, inside the pool and pairwise disjoint, `used`
        is their sum, handles are unique and already issued, free slots are blank. */
    ghost predicate Ok() {
      && Multiple(phys, PAGE) && Multiple(va, PAGE) && Multiple(size, PAGE)
      && size != 0 && phys + size < TWO64 && va + size < TWO64
      && 1 <= nextHandle && |slots| == 128 && used == Total(slots)
      && (forall i :: 0 <= i < |slots| ==> if slots[i].Live() then Extent(slots[i]) else slots[i] == FREE)
      && (forall i, j :: 0 <= i < |slots| && 0 <= j < |slots| && i != j && slots[i].Live() && slots[j].Live() ==>
            slots[i].handle != slots[j].handle && Apart(i, j))
    }

    predicate Extent(a: Allocation) {
      && 0 < a.size && Multiple(a.size, PAGE) && Multiple(a.offset, PAGE) && a.End() <= size
      && a.handle < nextHandle
    }

    predicate IsLive(handle: int) {
      handle != 0 && exists i :: 0 <= i < |slots| && slots[i].handle == handle
    }

    /** A range of `bytes` at `c` lies in the pool, has an aligned GPU address and meets no live extent. */
    ghost predicate Fits(bytes: int, alignment: int, c: int)
      requires alignment > 0
    {
      && 0 <= c && c + bytes <= size && Multiple(va + c, alignment)
      && forall i :: 0 <= i < |slots| && slots[i].Live() ==> slots[i].Clear(c, bytes)
    }

    predicate HasFreeSlot() {
      exists i :: 0 <= i < |slots| && !slots[i].Live()
    }

    function Place(slot: nat, c: u64, bytes: u64): PoolState
      requires slot < |slots| && nextHandle < U64_MAX && used + bytes < TWO64
    {
      this.(nextHandle := nextHandle + 1, used := used + bytes,
            slots := slots[slot := Allocation(nextHandle, c, bytes)])
    }

    function Release(slot: nat): PoolState
      requires slot < |slots| && slots[slot].size <= used
    {
      this.(used := used - slots[slot].size, slots := slots[slot := FREE])
    }
  }

  // ----- Measure: disjoint extents inside the pool cannot add up to more than fits -----

  function Points(lo: int, hi: int): (s: set<int>)
    requires lo <= hi
    ensures forall x :: x in s <==> lo <= x < hi
    ensures |s| == hi - lo
    decreases hi - lo
  {
    if lo == hi then {} else Points(lo, hi - 1) + {hi - 1}
  }

  /** Every byte of a live extent. */
  function Cover(slots: seq<Allocation>): set<int> {
    if slots == [] then {}
    else
      var last := slots[|slots| - 1];
      Cover(slots[..|slots| - 1]) + if last.Live() then Points(last.offset, last.End()) else {}
  }

  predicate Inside(a: Allocation, x: int) { a.Live() && a.offset <= x < a.End() }

  lemma {:induction false} CoverMember(slots: seq<Allocation>, x: int)
    ensures x in Cover(slots) <==> exists i :: 0 <= i < |slots| && Inside(slots[i], x)
  {
    if slots != [] {
      var n := |slots| - 1;
      var init := slots[..n];
      CoverMember(init, x);
      if i :| 0 <= i < |init| && Inside(init[i], x) {
        assert Inside(slots[i], x);
      }
      if i :| 0 <= i < |slots| && Inside(slots[i], x) {
        if i < n { assert Inside(init[i], x); }
      }
    }
  }

  ghost predicate Disjoint(slots: seq<Allocation>) {
    forall i, j :: 0 <= i < j < |slots| && slots[i].Live() && slots[j].Live() ==>
      slots[i].Clear(slots[j].offset, slots[j].size)
  }

  lemma {:induction false} CoverCount(slots: seq<Allocation>)
    requires Disjoint(slots)
    ensures |Cover(slots)| == Total(slots)
  {
    if slots != [] {
      var init, last := slots[..|slots| - 1], slots[|slots| - 1];
      CoverCount(init);
      if last.Live() {
        forall x ensures !(x in Cover(init) && x in Points(last.offset, last.End())) {
          CoverMember(init, x);
        }
        assert Cover(init) !! Points(last.offset, last.End());
      }
    }
  }

  lemma SubsetCount(a: set<int>, b: set<int>)
    requires a <= b
    ensures |a| <= |b|
  {
    assert b == a + (b - a);
  }

  /** Room for one more range means the live sizes and the range together do not exceed the pool. */
  lemma {:induction false} RoomBoundsTotal(slots: seq<Allocation>, size: int, c: int, bytes: int)
    requires Disjoint(slots) && 0 <= c && 0 <= bytes && c + bytes <= size
    requires forall i :: 0 <= i < |slots| && slots[i].Live() ==> slots[i].End() <= size && slots[i].Clear(c, bytes)
    ensures Total(slots) + bytes <= size
  {
    CoverCount(slots);
    forall x ensures x in Cover(slots) ==> x in Points(0, size) && x !in Points(c, c + bytes) {
      CoverMember(slots, x);
    }
    assert Cover(slots) !! Points(c, c + bytes);
    SubsetCount(Cover(slots) + Points(c, c + bytes), Points(0, size));
  }

  lemma FitBoundsUsed(p: PoolState, bytes: int, alignment: int, c: int)
    requires p.Ok() && alignment > 0 && 0 <= bytes && p.Fits(bytes, alignment, c)
    ensures p.used + bytes <= p.size
  {
    RoomBoundsTotal(p.slots, p.size, c, bytes);
  }

  lemma UsedBounded(p: PoolState)
    requires p.Ok()
    ensures p.used <= p.size
  {
    RoomBoundsTotal(p.slots, p.size, p.size, 0);
  }

  lemma {:induction false} TotalUpdate(slots: seq<Allocation>, i: nat, a: Allocation)
    requires i < |slots|
    ensures Total(slots[i := a]) == Total(slots) - (if slots[i].Live() then slots[i].size else 0)
            + (if a.Live() then a.size else 0)
  {
    var n := |slots| - 1;
    var init := slots[..n];
    if i == n {
      assert slots[i := a][..n] == init;
    } else {
      TotalUpdate(init, i, a);
      assert slots[i := a][..n] == init[i := a];
    }
  }

  // ----- Steps of the pool and whole runs -----

  /** A successful allocation takes the first free slot and the lowest address that fits. */
  ghost predicate Allocated(p: PoolState, q: PoolState, bytes: int, alignment: int, slot: nat, c: int) {
    && alignment > 0 && p.nextHandle < U64_MAX && 0 < bytes && 0 <= c < TWO64 && p.used + bytes < TWO64
    && slot < |p.slots| && !p.slots[slot].Live() && (forall k :: 0 <= k < slot ==> p.slots[k].Live())
    && p.Fits(bytes, alignment, c) && (forall d :: p.Fits(bytes, alignment, d) ==> c <= d)
    && q == p.Place(slot, c, bytes)
  }

  ghost predicate Freed(p: PoolState, q: PoolState, slot: nat) {
    && slot < |p.slots| && p.slots[slot].Live() && p.slots[slot].size <= p.used && q == p.Release(slot)
  }

  lemma AllocatedKeepsOk(p: PoolState, q: PoolState, bytes: int, alignment: int, slot: nat, c: int)
    requires p.Ok() && Allocated(p, q, bytes, alignment, slot, c) && Multiple(bytes, PAGE) && Multiple(alignment, PAGE)
    ensures q.Ok()
  {
    hide Multiple;
    var a := Allocation(p.nextHandle, c, bytes);
    TotalUpdate(p.slots, slot, a);
    MultipleTransitive(p.va + c, alignment, PAGE);
    MultipleDifference(p.va, c);
    FitBoundsUsed(p, bytes, alignment, c);
    assert q.Extent(a);
  }

  lemma MultipleDifference(x: int, y: int)
    requires Multiple(x + y, PAGE) && Multiple(x, PAGE)
    ensures Multiple(y, PAGE)
  {
  }

  lemma FreedKeepsOk(p: PoolState, q: PoolState, slot: nat)
    requires p.Ok() && Freed(p, q, slot)
    ensures q.Ok()
  {
    hide Multiple;
    TotalUpdate(p.slots, slot, FREE);
  }

  ghost predicate AllocatedSome(p: PoolState, q: PoolState, bytes: int, alignment: int) {
    exists slot: nat, c: int :: Allocated(p, q, bytes, alignment, slot, c)
  }

  ghost predicate NoRoom(p: PoolState, bytes: int, alignment: int)
    requires alignment > 0
  {
    forall c :: !p.Fits(bytes, alignment, c)
  }

  /** A handle, a slot and a fit are left. */
  ghost predicate HasRoom(p: PoolState, bytes: int, alignment: int)
    requires alignment > 0
  {
    p.nextHandle != U64_MAX && p.HasFreeSlot() && !NoRoom(p, bytes, alignment)
  }

  lemma TookRoom(p: PoolState, q: PoolState, bytes: int, alignment: int, slot: nat, c: int)
    requires Allocated(p, q, bytes, alignment, slot, c)
    ensures HasRoom(p, bytes, alignment)
  {
    hide PoolState.Fits;
  }

  predicate WholePages(bytes: int, alignment: int) {
    Multiple(bytes, PAGE) && alignment > 0 && Multiple(alignment, PAGE)
  }

  /** What one call may do to a pool. */
  ghost predicate Step(p: PoolState, q: PoolState) {
    || q == p
    || (exists bytes, alignment :: WholePages(bytes, alignment) && AllocatedSome(p, q, bytes, alignment))
    || exists slot :: Freed(p, q, slot)
  }

  lemma StepKeepsOk(p: PoolState, q: PoolState)
    requires p.Ok() && Step(p, q)
    ensures q.Ok() && p.nextHandle <= q.nextHandle
    ensures forall h: int :: q.IsLive(h) ==> p.IsLive(h) || h == p.nextHandle < q.nextHandle
  {
    hide Multiple;
    if bytes, alignment :| WholePages(bytes, alignment) && AllocatedSome(p, q, bytes, alignment) {
      var slot: nat, c: int :| Allocated(p, q, bytes, alignment, slot, c);
      AllocatedKeepsOk(p, q, bytes, alignment, slot, c);
    } else if slot :| Freed(p, q, slot) {
      FreedKeepsOk(p, q, slot);
    }
  }

  ghost predicate Run(s: seq<PoolState>) {
    s != [] && forall i :: 0 <= i < |s| - 1 ==> Step(s[i], s[i + 1])
  }

  /** Safety over whole runs: every reachable pool satisfies the invariant, and a handle that was issued
      and is no longer live stays dead for ever. */
  lemma {:induction false} RunIsSafe(s: seq<PoolState>, h: int, i: nat)
    requires Run(s) && s[0].Ok() && i < |s|
    ensures s[i].Ok() && s[0].nextHandle <= s[i].nextHandle
    ensures h < s[0].nextHandle && !s[0].IsLive(h) ==> !s[i].IsLive(h)
  {
    if i > 0 {
      RunIsSafe(s, h, i - 1);
      StepKeepsOk(s[i - 1], s[i]);
    }
  }

  // ----- The pool -----

  class Pool {
    var phys: u64
    var va: u64
    var size: u64
    var used: u64
    var nextHandle: u64
    const allocations: array<Allocation>

    /** A zeroed pool, not yet initialised. */
    constructor ()
      ensures Valid() && fresh(allocations) && size == 0
    {
      phys, va, size, used, nextHandle := 0, 0, 0, 0, 0;
      allocations := new Allocation[MAX_ALLOCS](_ => FREE);
    }

    ghost function State(): PoolState
      reads this, allocations
    {
      PoolState(phys, va, size, used, nextHandle, allocations[..])
    }

    /** Blank before `Init` succeeds, under the invariant afterwards. */
    ghost predicate Valid()
      reads this, allocations
    {
      && allocations.Length == 128
      && if size == 0 then used == 0 && forall i :: 0 <= i < MAX_ALLOCS ==> allocations[i] == FREE else State().Ok()
    }

    method Init(phys: u64, va: u64, size: u64) returns (rc: int)
      requires Valid()
      modifies this, allocations
      ensures Valid()
      ensures rc in {0, -1}
      ensures rc == 0 <==> phys % 0x1000 == 0 && va % 0x1000 == 0 && size % 0x1000 == 0 && size != 0
                           && phys + size < TWO64 && va + size < TWO64
      ensures rc == -1 ==> State() == old(State())
      ensures rc == 0 ==> State() == PoolState(phys, va, size, 0, 1, seq(MAX_ALLOCS, i => FREE))
    {
      if phys % PAGE != 0 || va % PAGE != 0 || size % PAGE != 0 || !Span(phys, size).Valid() ||
         !Span(va, size).Valid() {
        return -1;
      }
      this.phys, this.va, this.size, used, nextHandle := phys, va, size, 0, 1;
      for i := 0 to MAX_ALLOCS
        invariant this.phys == phys && this.va == va && this.size == size && used == 0 && nextHandle == 1
        invariant forall k :: 0 <= k < i ==> allocations[k] == FREE
      {
        allocations[i] := FREE;
      }
      assert allocations[..] == seq(MAX_ALLOCS, i => FREE);
      BlankTotal(allocations[..]);
      rc := 0;
    }

    /** The furthest end among live extents that meet the candidate, or the candidate itself. */
    method PastExtents(candidate: u64, bytes: u64) returns (next: u64)
      requires Valid() && size != 0 && candidate + bytes <= size && 0 < bytes
      ensures candidate <= next <= size
      ensures next == candidate <==>
              forall i :: 0 <= i < MAX_ALLOCS && allocations[i].Live() ==> allocations[i].Clear(candidate, bytes)
      ensures next != candidate ==>
                exists i ::
                  0 <= i < MAX_ALLOCS && allocations[i].Live() && !allocations[i].Clear(candidate, bytes)
                  && allocations[i].End() == next
    {
      next := candidate;
      for i := 0 to MAX_ALLOCS
        invariant candidate <= next <= size
        invariant next == candidate <==>
                  forall k :: 0 <= k < i && allocations[k].Live() ==> allocations[k].Clear(candidate, bytes)
        invariant next != candidate ==>
                    exists k ::
                      0 <= k < i && allocations[k].Live() && !allocations[k].Clear(candidate, bytes)
                      && allocations[k].End() == next
      {
        var a := allocations[i];
        assert State().slots[i] == a;
        if a.handle != 0 && candidate < a.offset + a.size && a.offset < candidate + bytes && a.offset + a.size > next {
          next := a.offset + a.size;
        }
      }
    }

    /** The lowest aligned offset with room for `bytes`, if any. */
    method FindRoom(bytes: u64, alignment: u64) returns (found: bool, c: u64)
      requires Valid() && size != 0 && 0 < bytes && alignment > 0 && IsPow2(alignment)
      ensures found ==> State().Fits(bytes, alignment, c) && forall d :: State().Fits(bytes, alignment, d) ==> c <= d
      ensures !found ==> NoRoom(State(), bytes, alignment)
    {
      hide IsPow2, Multiple, PoolState.Fits, PoolState.Ok, AlignUp;
      ghost var s := State();
      assert va + size < TWO64 by { OkBounds(s); }
      AllFitsFrom(s, bytes, alignment);
      var first := AlignUp(va, alignment);
      if first.Overflow? {
        NoAddressLeft(s, bytes, alignment, 0);
        return false, 0;
      }
      var candidate: u64 := first.value - va;
      FitsFromCeiling(s, bytes, alignment, 0, first.value);
      while candidate <= size && bytes <= size - candidate
        invariant Multiple(va + candidate, alignment)
        invariant forall d :: s.Fits(bytes, alignment, d) ==> candidate <= d
        decreases size - candidate
      {
        var next := PastExtents(candidate, bytes);
        if next == candidate {
          ClearFits(s, bytes, alignment, candidate);
          return true, candidate;
        }
        ExtentRulesOut(s, bytes, alignment, candidate, next);
        var address := AlignUp(va + next, alignment);
        if address.Overflow? {
          NoAddressLeft(s, bytes, alignment, next);
          return false, 0;
        }
        candidate := address.value - va;
        FitsFromCeiling(s, bytes, alignment, next, address.value);
      }
      TooFar(s, bytes, alignment, candidate);
      return false, 0;
    }

    method Alloc(bytes: u64, alignment: u64) returns (rc: int, handle: u64)
      requires Valid()
      modifies this, allocations
      ensures Valid() && rc in {0, -1, -2}
      ensures rc == -1 <==> old(size) == 0 || bytes == 0 || alignment < 0x1000 || !IsPow2(alignment)
                            || bytes > 0xffff_ffff_ffff_f000
      ensures rc != 0 ==> handle == 0 && State() == old(State())
      ensures rc == 0 ==> handle == old(nextHandle) && IsCeiling(bytes, PAGE, PageUp(bytes))
                          && WholePages(PageUp(bytes), alignment)
                          && AllocatedSome(old(State()), State(), PageUp(bytes), alignment)
      ensures rc != -1 ==> alignment > 0 && (rc == -2 <==> !HasRoom(old(State()), PageUp(bytes), alignment))
    {
      hide And, RoundDown, Multiple, PoolState.Fits, AlignUp, Total;
      handle := 0;
      PageIsPow2();
      ValidIsPow2(alignment);
      if size == 0 || bytes == 0 || alignment < PAGE || And(alignment, alignment - 1) != 0 { return -1, 0; }
      var rounded := AlignUp(bytes, PAGE);
      if rounded.Overflow? { return -1, 0; }
      var need := rounded.value;
      ghost var s := State();
      UsedBounded(s);
      if nextHandle == 0 || nextHandle == U64_MAX || used > size || need > size - used {
        if need > size - used { NoRoomBeyondUsed(s, need, alignment); }
        return -2, 0;
      }
      var slot: nat := 0;
      while slot < MAX_ALLOCS && allocations[slot].handle != 0
        invariant slot <= MAX_ALLOCS && forall k :: 0 <= k < slot ==> s.slots[k].Live()
      {
        slot := slot + 1;
      }
      if slot == MAX_ALLOCS { return -2, 0; }
      var found, c := FindRoom(need, alignment);
      if !found { return -2, 0; }
      handle := nextHandle;
      allocations[slot] := Allocation(handle, c, need);
      nextHandle, used := nextHandle + 1, used + need;
      assert Allocated(s, State(), need, alignment, slot, c);
      TookRoom(s, State(), need, alignment, slot, c);
      AllocatedKeepsOk(s, State(), need, alignment, slot, c);
      rc := 0;
    }

    method Free(handle: u64) returns (rc: int)
      requires Valid()
      modifies this, allocations
      ensures Valid()
      ensures rc == if old(State().IsLive(handle)) then 0 else -1
      ensures rc == -1 ==> State() == old(State())
      ensures rc == 0 ==> exists slot: nat ::
                            Freed(old(State()), State(), slot) && old(State()).slots[slot].handle == handle
    {
      if handle == 0 { return -1; }
      for i := 0 to MAX_ALLOCS
        invariant State() == old(State()) && forall k :: 0 <= k < i ==> State().slots[k].handle != handle
      {
        if allocations[i].handle == handle {
          ghost var s := State();
          SlotBounded(s, i);
          used := used - allocations[i].size;
          allocations[i] := FREE;
          assert Freed(s, State(), i);
          FreedKeepsOk(s, State(), i);
          return 0;
        }
      }
      return -1;
    }

    /** The physical and GPU address of a range inside a live resource. */
    method Resolve(handle: u64, offset: u64, bytes: u64) returns (rc: int, outPhys: u64, outVa: u64)
      requires Valid()
      ensures rc == 0 <==> bytes != 0 && handle != 0
                           && exists i ::
                                0 <= i < MAX_ALLOCS && allocations[i].handle == handle
                                && offset + bytes <= allocations[i].size
      ensures rc == 0 || (rc == -1 && outPhys == 0 && outVa == 0)
      ensures rc == 0 ==> forall i :: 0 <= i < MAX_ALLOCS && allocations[i].handle == handle ==>
                            offset + bytes <= allocations[i].size
                            && outPhys == phys + allocations[i].offset + offset
                            && outVa == va + allocations[i].offset + offset
    {
      outPhys, outVa := 0, 0;
      if handle == 0 || bytes == 0 { return -1, 0, 0; }
      for i := 0 to MAX_ALLOCS
        invariant forall k :: 0 <= k < i ==> allocations[k].handle != handle
      {
        var a := allocations[i];
        if a.handle == handle {
          assert State().slots[i] == a;
          forall k | 0 <= k < MAX_ALLOCS && allocations[k].handle == handle ensures k == i {
            assert State().slots[k] == allocations[k];
          }
          if offset > a.size || bytes > a.size - offset { return -1, 0, 0; }
          return 0, phys + a.offset + offset, va + a.offset + offset;
        }
      }
      return -1, 0, 0;
    }
  }

  lemma {:induction false} BlankTotal(slots: seq<Allocation>)
    requires forall i :: 0 <= i < |slots| ==> slots[i] == FREE
    ensures Total(slots) == 0
  {
    if slots != [] { BlankTotal(slots[..|slots| - 1]); }
  }

  lemma OkBounds(s: PoolState)
    requires s.Ok()
    ensures s.va + s.size < TWO64
  {
  }

  /** `bytes` rounded up to whole pages, as `Alloc` and its caller compute it. */
  function PageUp(bytes: u64): int { RoundDown(bytes + (PAGE - 1), PAGE) }

  lemma AllFitsFrom(s: PoolState, bytes: int, alignment: int)
    requires alignment > 0
    ensures forall d :: s.Fits(bytes, alignment, d) ==> 0 <= d
  {
  }

  lemma NoAddressLeft(s: PoolState, bytes: int, alignment: int, from: int)
    requires alignment > 0 && 0 < bytes && 0 <= s.va + from && s.va + s.size < TWO64
    requires forall d :: s.Fits(bytes, alignment, d) ==> from <= d
    requires forall c: u64 :: s.va + from <= c ==> !Multiple(c, alignment)
    ensures NoRoom(s, bytes, alignment)
  {
    hide Multiple;
    forall d | s.Fits(bytes, alignment, d) ensures !Multiple(s.va + d, alignment) {
    }
  }

  lemma FitsFromCeiling(s: PoolState, bytes: int, alignment: int, from: int, ceiling: int)
    requires alignment > 0 && IsCeiling(s.va + from, alignment, ceiling)
    requires forall d :: s.Fits(bytes, alignment, d) ==> from <= d
    ensures forall d :: s.Fits(bytes, alignment, d) ==> ceiling - s.va <= d
  {
    hide Multiple;
    forall d | s.Fits(bytes, alignment, d) ensures ceiling - s.va <= d {
      CeilingIsLeast(s.va + from, alignment, ceiling, s.va + d);
    }
  }

  lemma ClearFits(s: PoolState, bytes: int, alignment: int, c: int)
    requires alignment > 0 && 0 <= c && c + bytes <= s.size && Multiple(s.va + c, alignment)
    requires forall i :: 0 <= i < |s.slots| && s.slots[i].Live() ==> s.slots[i].Clear(c, bytes)
    ensures s.Fits(bytes, alignment, c)
  {
  }

  lemma TooFar(s: PoolState, bytes: int, alignment: int, from: int)
    requires alignment > 0 && from + bytes > s.size && forall d :: s.Fits(bytes, alignment, d) ==> from <= d
    ensures NoRoom(s, bytes, alignment)
  {
    hide Multiple;
  }

  /** An extent that meets the candidate and ends at `next` leaves no fit before `next`. */
  lemma ExtentRulesOut(s: PoolState, bytes: int, alignment: int, candidate: int, next: int)
    requires alignment > 0 && forall d :: s.Fits(bytes, alignment, d) ==> candidate <= d
    requires exists i ::
               0 <= i < |s.slots| && s.slots[i].Live() && !s.slots[i].Clear(candidate, bytes)
               && s.slots[i].End() == next
    ensures forall d :: s.Fits(bytes, alignment, d) ==> next <= d
  {
    hide Multiple;
    var i :| 0 <= i < |s.slots| && s.slots[i].Live() && !s.slots[i].Clear(candidate, bytes) && s.slots[i].End() == next;
    forall d | s.Fits(bytes, alignment, d) ensures next <= d {
      assert s.slots[i].Clear(d, bytes);
    }
  }

  /** The early exit on `used` never hides a fit. */
  lemma NoRoomBeyondUsed(s: PoolState, bytes: int, alignment: int)
    requires s.Ok() && alignment > 0 && 0 <= bytes && s.used + bytes > s.size
    ensures NoRoom(s, bytes, alignment)
  {
    forall c ensures !s.Fits(bytes, alignment, c) {
      if s.Fits(bytes, alignment, c) { FitBoundsUsed(s, bytes, alignment, c); }
    }
  }

  lemma SlotBounded(p: PoolState, i: nat)
    requires p.Ok() && i < |p.slots|
    ensures p.slots[i].size <= p.used
  {
    TotalUpdate(p.slots, i, FREE);
    TotalNonNegative(p.slots[i := FREE]);
  }

  lemma {:induction false} TotalNonNegative(slots: seq<Allocation>)
    ensures Total(slots) >= 0
  {
    if slots != [] { TotalNonNegative(slots[..|slots| - 1]); }
  }
}
