/** The 1 MiB PRAMIN window onto video memory (driver/gsp/gmmu.c, lines 11-50).

    `Device` is the hardware side, independent of the driver: an aim register chooses a 64 KiB
    granular base and a target memory, and a 1 MiB aperture in BAR0 shows that memory.  `Pramin`
    is the driver side, which caches the aimed base to avoid rewriting the register. */
module PraminWindow {
  import opened Words

  const BAR0_WINDOW: u32 := 0x1700
  const WINDOW_OFFSET: u32 := 0x70_0000
  const WINDOW_SIZE: u32 := 0x10_0000
  const VID_MEM := 0
  const PHYS_END: int := 0x100_0000_0000

  // ----- Hardware -----

  datatype Device = Device(aim: u32, vram: Memory, sys: Memory) {
    function Base(): int { aim % 0x100_0000 * 0x1_0000 }

    function Target(): int { aim / 0x100_0000 % 4 }

    /** A 32-bit store at a BAR0 offset. */
    function Store(off: u32, val: u32): Device {
      if off == 0x1700 then
        this.(aim := val)
      else if 0x70_0000 <= off < 0x80_0000 then
        var a := Base() + (off - 0x70_0000);
        if Target() == 0 then this.(vram := vram[a := val]) else this.(sys := sys[a := val])
      else
        this
    }

    /** A 32-bit load from a BAR0 offset; registers outside the window are not modelled. */
    function Load(off: u32): u32 {
      if 0x70_0000 <= off < 0x80_0000 then
        Rd32(if Target() == 0 then vram else sys, Base() + (off - 0x70_0000))
      else if off == 0x1700 then aim else 0
    }
  }

  // ----- Driver, as functions of the device and the cached base -----

  const NO_BASE: u64 := U64_MAX

  function WindowBase(phys: u64): u64 { phys - phys % WINDOW_SIZE }

  /** The register value for a base; the conversion to 32 bits drops the upper half. */
  function AimValue(base: u64): u32 { base / 0x1_0000 % TWO32 }

  datatype Windowed = Windowed(dev: Device, winBase: u64) {
    function Aim(phys: u64): Windowed {
      var base := WindowBase(phys);
      if winBase == base then this else Windowed(dev.Store(BAR0_WINDOW, AimValue(base)), base)
    }

    function Wr32(phys: u64, val: u32): Windowed {
      var w := Aim(phys);
      w.(dev := w.dev.Store(WINDOW_OFFSET + phys % WINDOW_SIZE, val))
    }

    function Rd32(phys: u64): (Windowed, u32) {
      var w := Aim(phys);
      (w, w.dev.Load(WINDOW_OFFSET + phys % WINDOW_SIZE))
    }

    /** The cached base is either unset or what the register encodes, aimed at video memory. */
    predicate Coherent() {
      winBase == NO_BASE ||
      (winBase % WINDOW_SIZE == 0 && dev.Base() == winBase && dev.Target() == VID_MEM)
    }
  }

  /** The window reaches the byte it was asked for exactly below 2^40: above, the base spills into
      the target field of the register or past its 24 bits. */
  lemma AimReaches(w: Windowed, phys: u64)
    requires w.winBase == NO_BASE
    ensures phys < 0x100_0000_0000 <==>
            var d := w.Aim(phys).dev;
            d.Target() == 0 && d.Base() + phys % 0x10_0000 == phys
  {
    var j := phys / WINDOW_SIZE;
    RegisterHoldsBase(j);
  }

  /** At 2^40 itself the window shows the first byte of another memory. */
  lemma AimMisses(w: Windowed)
    requires w.winBase == NO_BASE
    ensures var d := w.Aim(0x100_0000_0000).dev; d.Target() == 1 && d.Base() == 0
  {
  }

  lemma RegisterHoldsBase(j: int)
    requires 0 <= j < 0x1000_0000_0000
    ensures var d := Device(AimValue(WINDOW_SIZE * j), map[], map[]);
            if j < 0x10_0000 then d.Target() == VID_MEM && d.Base() == WINDOW_SIZE * j
            else d.Base() < PHYS_END && d.Base() % WINDOW_SIZE == 0
  {
    AimOf(j);
    BaseField(j % 0x1000_0000);
  }

  lemma AimOf(j: int)
    requires 0 <= j < 0x1000_0000_0000
    ensures AimValue(WINDOW_SIZE * j) == 16 * (j % 0x1000_0000)
  {
    assert WINDOW_SIZE * j / 0x1_0000 == 16 * j;
  }

  lemma BaseField(k: int)
    requires 0 <= k < 0x1000_0000
    ensures 16 * k % 0x100_0000 == 16 * (k % 0x10_0000)
    ensures k < 0x10_0000 ==> 16 * k / 0x100_0000 == 0
  {
  }

  lemma StepIsFlat(w: Windowed, phys: u64, val: u32)
    requires w.Coherent() && phys < PHYS_END
    ensures var w' := w.Wr32(phys, val);
            w'.Coherent() && w'.dev.vram == w.dev.vram[phys := val] && w'.dev.sys == w.dev.sys
    ensures var (w', v) := w.Rd32(phys);
            w'.Coherent() && w'.dev.vram == w.dev.vram && w'.dev.sys == w.dev.sys
            && v == Words.Rd32(w.dev.vram, phys)
  {
    var base := WindowBase(phys);
    if w.winBase != base {
      AimReaches(w.(winBase := NO_BASE), phys);
      assert w.Aim(phys) == w.(winBase := NO_BASE).Aim(phys);
    }
  }

  // ----- Whole sequences of accesses -----

  datatype Access =
    | Read32(phys: u64)
    | Write32(phys: u64, val: u32)
    | Write64(phys: u64, val64: u64)
    | FillWith(phys: u64, count: nat, val: u32)
  {
    predicate InReach() {
      match this
      case Read32(phys) => phys < PHYS_END
      case Write32(phys, _) => phys < PHYS_END
      case Write64(phys, _) => phys + 4 < PHYS_END
      case FillWith(phys, count, _) => phys + 4 * count <= PHYS_END
    }

    /** What the access does to flat memory, and what it reads. */
    function OnFlat(m: Memory): (Memory, seq<u32>) {
      match this
      case Read32(phys) => (m, [Words.Rd32(m, phys)])
      case Write32(phys, val) => (m[phys := val], [])
      case Write64(phys, val64) => (Wr64(m, phys, val64), [])
      case FillWith(phys, count, val) => (Fill(m, phys, count, val), [])
    }

    /** What the driver does through the window. */
    function OnWindow(w: Windowed): (Windowed, seq<u32>)
      requires InReach()
    {
      match this
      case Read32(phys) => var (w', v) := w.Rd32(phys); (w', [v])
      case Write32(phys, val) => (w.Wr32(phys, val), [])
      case Write64(phys, val64) => (w.Wr32(phys, val64 % TWO32).Wr32(phys + 4, val64 / TWO32), [])
      case FillWith(phys, count, val) => (FillWindow(w, phys, count, val), [])
    }
  }

  function FillWindow(w: Windowed, phys: u64, count: nat, val: u32): Windowed
    requires phys + 4 * count <= PHYS_END
  {
    if count == 0 then w
    else FillWindow(w, phys, count - 1, val).Wr32(phys + 4 * (count - 1), val)
  }

  lemma {:induction false} FillIsFlat(w: Windowed, phys: u64, count: nat, val: u32)
    requires w.Coherent() && phys + 4 * count <= PHYS_END
    ensures var w' := FillWindow(w, phys, count, val);
            w'.Coherent() && w'.dev.vram == Fill(w.dev.vram, phys, count, val) && w'.dev.sys == w.dev.sys
  {
    if count > 0 {
      FillIsFlat(w, phys, count - 1, val);
      StepIsFlat(FillWindow(w, phys, count - 1, val), phys + 4 * (count - 1), val);
    }
  }

  function RunFlat(m: Memory, s: seq<Access>): (Memory, seq<u32>)
    decreases |s|
  {
    if s == [] then (m, [])
    else
      var (m', r) := s[0].OnFlat(m);
      var (m'', rest) := RunFlat(m', s[1..]);
      (m'', r + rest)
  }

  function RunWindow(w: Windowed, s: seq<Access>): (Windowed, seq<u32>)
    requires forall x :: x in s ==> x.InReach()
    decreases |s|
  {
    if s == [] then (w, [])
    else
      var (w', r) := s[0].OnWindow(w);
      var (w'', rest) := RunWindow(w', s[1..]);
      (w'', r + rest)
  }

  /** Any sequence of windowed accesses below 2^40 reads and leaves what direct access would, never
      touches system memory, and keeps the cache coherent. */
  lemma {:induction false} WindowRefinesFlat(w: Windowed, s: seq<Access>)
    requires w.Coherent() && forall x :: x in s ==> x.InReach()
    ensures var (w', r) := RunWindow(w, s);
            w'.Coherent() && w'.dev.sys == w.dev.sys && (w'.dev.vram, r) == RunFlat(w.dev.vram, s)
    decreases |s|
  {
    if s != [] {
      var (w', r) := s[0].OnWindow(w);
      match s[0] {
        case Read32(phys) => StepIsFlat(w, phys, 0);
        case Write32(phys, val) => StepIsFlat(w, phys, val);
        case Write64(phys, val64) =>
          StepIsFlat(w, phys, val64 % TWO32);
          StepIsFlat(w.Wr32(phys, val64 % TWO32), phys + 4, val64 / TWO32);
        case FillWith(phys, count, val) => FillIsFlat(w, phys, count, val);
      }
      WindowRefinesFlat(w', s[1..]);
    }
  }

  // ----- The imperative driver -----

  /** One word stored to video memory: where, what it held, what it holds now. */
  datatype Stored = Stored(addr: int, was: u32, now: u32)

  /** BAR0 as the `rd` and `wr` callbacks see it, with a record of every store. */
  class Bar0 {
    var dev: Device
    ghost var writes: nat
    ghost var log: seq<Stored>

    constructor (d: Device)
      ensures dev == d && writes == 0 && log == []
    {
      dev, writes, log := d, 0, [];
    }

    method Wr(off: u32, val: u32)
      modifies this
      ensures dev == old(dev).Store(off, val) && writes == old(writes) + 1
      ensures log == old(log + Record(dev, off, val))
    {
      writes, log := writes + 1, log + Record(dev, off, val);
      dev := dev.Store(off, val);
    }

    method Rd(off: u32) returns (val: u32)
      ensures val == dev.Load(off)
    {
      val := dev.Load(off);
    }
  }

  function Record(d: Device, off: u32, val: u32): seq<Stored> {
    if 0x70_0000 <= off < 0x80_0000 && d.Target() == 0 then
      var a := d.Base() + (off - 0x70_0000);
      [Stored(a, Rd32(d.vram, a), val)]
    else []
  }

  function RecordFill(m: Memory, a: int, count: nat, v: u32): seq<Stored> {
    if count == 0 then []
    else
      RecordFill(m, a, count - 1, v)
        + [Stored(a + 4 * (count - 1), Rd32(Fill(m, a, count - 1, v), a + 4 * (count - 1)), v)]
  }

  function Record64(m: Memory, a: int, v: u64): seq<Stored> {
    [Stored(a, Rd32(m, a), v % TWO32), Stored(a + 4, Rd32(m, a + 4), v / TWO32)]
  }

  /** The PRAMIN accessors over one BAR0 and one cached window base. */
  class Pramin {
    const io: Bar0
    var winBase: u64

    constructor (io: Bar0)
      ensures this.io == io && winBase == NO_BASE && Valid()
    {
      this.io := io;
      winBase := NO_BASE;
    }

    ghost function State(): Windowed
      reads this, io
    {
      Windowed(io.dev, winBase)
    }

    ghost predicate Valid()
      reads this, io
    {
      State().Coherent()
    }

    method Aim(phys: u64)
      modifies this`winBase, io
      ensures State() == old(State()).Aim(phys) && io.log == old(io.log)
      ensures io.writes == old(io.writes) + if old(winBase) == WindowBase(phys) then 0 else 1
    {
      var base := phys - phys % WINDOW_SIZE;
      if winBase == base { return; }
      io.Wr(BAR0_WINDOW, base / 0x1_0000 % TWO32);
      winBase := base;
    }

    method Rd32(phys: u64) returns (val: u32)
      requires Valid() && phys < PHYS_END
      modifies this`winBase, io
      ensures Valid() && io.dev.vram == old(io.dev.vram) && io.dev.sys == old(io.dev.sys)
      ensures io.log == old(io.log)
      ensures val == Words.Rd32(io.dev.vram, phys)
    {
      StepIsFlat(State(), phys, 0);
      Aim(phys);
      val := io.Rd(WINDOW_OFFSET + phys % WINDOW_SIZE);
    }

    method Wr32(phys: u64, val: u32)
      requires Valid() && phys < PHYS_END
      modifies this`winBase, io
      ensures Valid() && io.dev.vram == old(io.dev.vram)[phys := val] && io.dev.sys == old(io.dev.sys)
      ensures io.log == old(io.log) + [Stored(phys, Words.Rd32(old(io.dev.vram), phys), val)]
    {
      StepIsFlat(State(), phys, val);
      Aim(phys);
      io.Wr(WINDOW_OFFSET + phys % WINDOW_SIZE, val);
    }

    method Wr64(phys: u64, val: u64)
      requires Valid() && phys + 4 < PHYS_END
      modifies this`winBase, io
      ensures Valid() && io.dev.vram == Words.Wr64(old(io.dev.vram), phys, val) && io.dev.sys == old(io.dev.sys)
      ensures io.log == old(io.log) + Record64(old(io.dev.vram), phys, val)
    {
      Wr32(phys, val % TWO32);
      Wr32(phys + 4, val / TWO32);
    }

    /** Whole words up to the length; the 32-bit counter gets there unless the length is within four of 2^32. */
    method Fill(phys: u64, len: u32, val: u32)
      requires Valid() && phys + 4 * WordCount(len) <= PHYS_END && len <= LONGEST_FILL
      modifies this`winBase, io
      ensures Valid() && io.dev.vram == Words.Fill(old(io.dev.vram), phys, WordCount(len), val)
      ensures io.dev.sys == old(io.dev.sys)
      ensures io.log == old(io.log) + RecordFill(old(io.dev.vram), phys, WordCount(len), val)
    {
      var i: u32 := 0;
      while i < len
        invariant i % 4 == 0 && i / 4 <= WordCount(len) && Valid() && io.dev.sys == old(io.dev.sys)
        invariant io.dev.vram == Words.Fill(old(io.dev.vram), phys, i / 4, val)
        invariant io.log == old(io.log) + RecordFill(old(io.dev.vram), phys, i / 4, val)
      {
        Wr32(phys + i, val);
        i := (i + 4) % TWO32;
      }
    }
  }

  const LONGEST_FILL: u32 := 0xffff_fffc

  /** Words that a fill of `len` bytes stores. */
  function WordCount(len: u32): nat { (len + 3) / 4 }

  /** Beyond that length no step of the counter ever ends the fill. */
  lemma FillEnds(len: u32)
    ensures (exists k: nat :: FillCounter(k) >= len) <==> len <= LONGEST_FILL
  {
    if len <= LONGEST_FILL {
      assert FillCounter(WordCount(len)) >= len;
    } else {
      forall k: nat ensures FillCounter(k) < len {
        MultipleOfFour(k);
      }
    }
  }

  function FillCounter(k: nat): u32 { 4 * k % TWO32 }

  lemma MultipleOfFour(k: nat)
    ensures 4 * k % TWO32 <= TWO32 - 4
  {
    var q := 4 * k / TWO32;
    assert 4 * k == TWO32 * q + 4 * k % TWO32;
    assert 4 * k % TWO32 == 4 * (k - 0x4000_0000 * q);
  }
}
