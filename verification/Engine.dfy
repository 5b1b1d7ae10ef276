/** The GPU side of submission: an asynchronous engine that learns GP_PUT by the doorbell, and may look it
    up at any other time too, fetches a ring entry and its pushbuffer word by word through the page
    tables, decodes the stream, copies byte by byte in any order, and releases the semaphore
    (driver/gsp/gsp_fifo.h, lines 149-226; driver/gsp/gsp_bringup.h, lines 51-90). */
module Engine {
  import opened Words
  import opened Bytes
  import opened Fifo

  /** One linear piece of the GPU address space, as the page tables give it. */
  datatype Mapping = Mapping(va: int, phys: int, bytes: int) {
    predicate Maps(a: int, n: int) { va <= a && a + n <= va + bytes }

    function At(a: int): int { phys + (a - va) }
  }

  /** Where the channel's buffers are, by GPU address and in video memory. */
  datatype Config = Config(mapping: Mapping, ringVa: u64, ringPhys: u64, entries: u32, pbVa: u64, pbPhys: u64,
                           semVa: u64, semPhys: u64, userdPhys: u64,
                           scratchVa: u64, scratchPhys: u64, scratchSize: u64, classEngineId: u32,
                           runlist: u32, chid: u32)
  {
    /** GP_PUT in the channel's USERD. */
    function PutAddr(): int { userdPhys + 0x8c }

    predicate InScratch(a: int) { scratchPhys <= a < scratchPhys + scratchSize }

    /** Word-aligned buffers, mapped where the driver believes, none sharing a byte with another. */
    ghost predicate Ok() {
      && runlist < 0x1_0000 && chid < 0x1_0000
      && 0 <= mapping.va && mapping.va + mapping.bytes <= VA_SPACE && classEngineId != 0
      && ringPhys % 4 == 0 && pbPhys % 4 == 0 && semPhys % 4 == 0 && userdPhys % 4 == 0
      && scratchPhys % 4 == 0 && scratchSize % 4 == 0
      && 8 * entries < TWO32 && mapping.Maps(ringVa, 8 * entries) && mapping.At(ringVa) == ringPhys
      && mapping.Maps(pbVa, 64) && mapping.At(pbVa) == pbPhys && pbVa % 4 == 0 && pbVa < 0x100_0000_0000
      && mapping.Maps(semVa, 4) && mapping.At(semVa) == semPhys
      && mapping.Maps(scratchVa, scratchSize) && mapping.At(scratchVa) == scratchPhys
      && Apart(scratchPhys, scratchSize, ringPhys, 8 * entries) && Apart(scratchPhys, scratchSize, pbPhys, 64)
      && Apart(scratchPhys, scratchSize, semPhys, 4) && Apart(scratchPhys, scratchSize, PutAddr(), 4)
      && Apart(ringPhys, 8 * entries, pbPhys, 64) && Apart(ringPhys, 8 * entries, semPhys, 4)
      && Apart(ringPhys, 8 * entries, PutAddr(), 4)
      && Apart(pbPhys, 64, semPhys, 4) && Apart(pbPhys, 64, PutAddr(), 4) && Apart(semPhys, 4, PutAddr(), 4)
    }
  }

  predicate Apart(p: int, n: int, q: int, m: int) { p + n <= q || q + m <= p }

  datatype Phase = Idle | Fetching(pb: int, len: int, words: seq<u32>) | Copying(launch: Launch, done: set<int>)

  /** `put` is GP_PUT as the engine last saw it. */
  datatype Gpu = Gpu(mem: Memory, get: int, put: int, phase: Phase, regs: Registers, history: seq<Launch>,
                     faulted: bool)

  /** What the engine may try next. */
  datatype Choice = Refresh | Poll | ReadWord | Decode | CopyByte(k: int) | Release

  function Fail(g: Gpu): Gpu { g.(faulted := true) }

  function RefreshStep(c: Config, g: Gpu): Gpu { g.(put := Rd32(g.mem, c.PutAddr())) }

  /** A store to the doorbell: the engine looks up GP_PUT if the token names this channel. */
  function Bell(c: Config, g: Gpu, token: u32): Gpu {
    if token / 0x1_0000 == c.runlist && token % 0x1_0000 == c.chid then RefreshStep(c, g) else g
  }

  function PollStep(c: Config, g: Gpu): Gpu {
    if g.put == g.get then g
    else if !c.mapping.Maps(c.ringVa + 8 * g.get, 8) then Fail(g)
    else
      var p := c.mapping.At(c.ringVa + 8 * g.get);
      var e := Entry(Rd32(g.mem, p), Rd32(g.mem, p + 4));
      g.(phase := Fetching(EntryAddress(e), EntryLength(e), []))
  }

  function ReadStep(c: Config, g: Gpu): Gpu
    requires g.phase.Fetching?
  {
    var a := g.phase.pb + 4 * |g.phase.words|;
    if !c.mapping.Maps(a, 4) then Fail(g)
    else g.(phase := g.phase.(words := g.phase.words + [Rd32(g.mem, c.mapping.At(a))]))
  }

  /** A stream must be one linear copy on a bound subchannel. */
  function DecodeStep(c: Config, g: Gpu): Gpu
    requires g.phase.Fetching?
  {
    var d := Interpret(g.regs, g.phase.words);
    if d.Done? && |d.launches| == 1 && d.launches[0].LinearCopy() && Reg(d.regs, 0) == c.classEngineId then
      g.(regs := d.regs, phase := Copying(d.launches[0], {}))
    else Fail(g)
  }

  function CopyStep(c: Config, g: Gpu, k: int): Gpu
    requires g.phase.Copying?
  {
    var l := g.phase.launch;
    if !(0 <= k < l.bytes) || k in g.phase.done then g
    else if !c.mapping.Maps(l.src + k, 1) || !c.mapping.Maps(l.dst + k, 1) then Fail(g)
    else g.(mem := SetByte(g.mem, c.mapping.At(l.dst + k), Byte(g.mem, c.mapping.At(l.src + k))),
            phase := g.phase.(done := g.phase.done + {k}))
  }

  function ReleaseStep(c: Config, g: Gpu): Gpu
    requires g.phase.Copying? && c.entries > 0
  {
    var l := g.phase.launch;
    if exists k :: 0 <= k < l.bytes && k !in g.phase.done then g
    else if !c.mapping.Maps(l.sem, 4) then Fail(g)
    else g.(mem := g.mem[c.mapping.At(l.sem) := l.payload], get := (g.get + 1) % c.entries, phase := Idle,
            history := g.history + [l])
  }

  function Step(c: Config, g: Gpu, choice: Choice): Gpu
    requires c.entries > 0
  {
    if g.faulted then g
    else if choice.Refresh? then RefreshStep(c, g)
    else match g.phase
      case Idle => if choice.Poll? then PollStep(c, g) else g
      case Fetching(_, len, words) =>
        if choice.ReadWord? && |words| < len then ReadStep(c, g)
        else if choice.Decode? && |words| == len then DecodeStep(c, g) else g
      case Copying(_, _) =>
        if choice.CopyByte? then CopyStep(c, g, choice.k)
        else if choice.Release? then ReleaseStep(c, g) else g
  }

  function Run(c: Config, g: Gpu, choices: seq<Choice>): Gpu
    requires c.entries > 0
    decreases |choices|
  {
    if choices == [] then g else Run(c, Step(c, g, choices[0]), choices[1..])
  }

  // ----- Nothing pending -----

  /** The engine has consumed every entry up to GP_PUT. */
  predicate Quiet(c: Config, g: Gpu) {
    !g.faulted && g.phase == Idle && Rd32(g.mem, c.PutAddr()) == g.put == g.get
  }

  lemma {:induction false} QuietStays(c: Config, g: Gpu, choices: seq<Choice>)
    requires c.entries > 0 && Quiet(c, g)
    ensures Run(c, g, choices) == g
    decreases |choices|
  {
    if choices != [] {
      assert Step(c, g, choices[0]) == g;
      QuietStays(c, g, choices[1..]);
    }
  }

  // ----- One entry pending -----

  /** A submission: ring slot, stream and launch, with the state of memory, registers and history when
      GP_PUT moved past it. */
  datatype Job = Job(slot: int, words: seq<u32>, launch: Launch, base: Memory, regs: Registers, history: seq<Launch>)

  function Src(c: Config, j: Job): int { c.mapping.At(j.launch.src) }

  function Dst(c: Config, j: Job): int { c.mapping.At(j.launch.dst) }

  predicate RangeInScratch(c: Config, va: int, bytes: int) {
    c.scratchVa <= va && va + bytes <= c.scratchVa + c.scratchSize
  }

  /** The stream, slot and semaphore lie in memory as submitted, and decode to the launch. */
  ghost predicate JobOk(c: Config, j: Job) {
    && c.Ok() && c.entries >= 2 && 0 <= j.slot < c.entries
    && Rd32(j.base, c.PutAddr()) == (j.slot + 1) % c.entries
    && |j.words| <= 16
    && GpfifoEntry(c.pbVa, |j.words|)
      == Entry(Rd32(j.base, c.ringPhys + 8 * j.slot), Rd32(j.base, c.ringPhys + 8 * j.slot + 4))
    && (forall i :: 0 <= i < |j.words| ==> Rd32(j.base, c.pbPhys + 4 * i) == j.words[i])
    && RangeInScratch(c, j.launch.src, j.launch.bytes) && RangeInScratch(c, j.launch.dst, j.launch.bytes)
    && (j.launch.src + j.launch.bytes <= j.launch.dst || j.launch.dst + j.launch.bytes <= j.launch.src)
    && j.launch.sem == c.semVa && j.launch.LinearCopy() && 0 < j.launch.bytes
    && Rd32(j.base, c.semPhys) == 0 && j.launch.payload != 0
    && var d := Interpret(j.regs, j.words);
       d.Done? && d.launches == [j.launch] && Reg(d.regs, 0) == c.classEngineId
  }

  predicate CopiedAt(c: Config, m: Memory, j: Job, done: set<int>, a: int) {
    Byte(m, a) == if a - Dst(c, j) in done && 0 <= a - Dst(c, j) < j.launch.bytes
                  then Byte(j.base, Src(c, j) + (a - Dst(c, j))) else Byte(j.base, a)
  }

  /** Bytes as they are once the set `done` of the copy has happened. */
  ghost predicate Copied(c: Config, m: Memory, j: Job, done: set<int>) {
    forall a :: CopiedAt(c, m, j, done, a)
  }

  /** Everything outside the scratch region is as it was at submission. */
  ghost predicate ChannelSame(c: Config, m: Memory, j: Job) {
    forall w :: w % 4 == 0 && !c.InScratch(w) ==> Rd32(m, w) == Rd32(j.base, w)
  }

  ghost predicate PhaseOk(c: Config, g: Gpu, j: Job) {
    match g.phase
    case Idle => g.regs == j.regs && Copied(c, g.mem, j, {})
    case Fetching(pb, len, words) =>
      && pb == c.pbVa && len == |j.words| && |words| <= len && words == j.words[..|words|]
      && g.regs == j.regs && Copied(c, g.mem, j, {})
    case Copying(launch, done) =>
      launch == j.launch && Reg(g.regs, 0) == c.classEngineId && Copied(c, g.mem, j, done)
  }

  ghost predicate InFlight(c: Config, g: Gpu, j: Job)
    requires c.entries > 0
  {
    && !g.faulted && g.get == j.slot && g.history == j.history && ChannelSame(c, g.mem, j) && PhaseOk(c, g, j)
    && (Rung(c, g, j) || (g.put == j.slot && g.phase == Idle))
  }

  /** The engine knows of the submission. */
  predicate Rung(c: Config, g: Gpu, j: Job)
    requires c.entries > 0
  {
    g.put == (j.slot + 1) % c.entries
  }

  /** The submission was executed: its launch is the one new history entry, its bytes are copied, its
      payload is in the semaphore, and nothing is pending. */
  ghost predicate Finished(c: Config, g: Gpu, j: Job)
    requires c.entries > 0
  {
    && Quiet(c, g) && g.get == (j.slot + 1) % c.entries && g.history == j.history + [j.launch]
    && Reg(g.regs, 0) == c.classEngineId
    && Rd32(g.mem, c.semPhys) == j.launch.payload
    && (forall w :: w % 4 == 0 && !c.InScratch(w) && w != c.semPhys ==> Rd32(g.mem, w) == Rd32(j.base, w))
    && DataCopied(c, g.mem, j)
  }

  /** The scratch region differs from the start of the copy exactly in the destination, which holds the source. */
  ghost predicate DataCopied(c: Config, m: Memory, j: Job) {
    forall a :: c.InScratch(a) ==> ByteCopied(j.base, m, Src(c, j), Dst(c, j), j.launch.bytes, a)
  }

  lemma NextSlotDiffers(slot: int, n: int)
    requires 0 <= slot < n && n >= 2
    ensures (slot + 1) % n != slot && 0 <= (slot + 1) % n < n
  {
    if slot + 1 < n {
      assert (slot + 1) % n == slot + 1;
    } else {
      assert (slot + 1) % n == 0;
    }
  }

  lemma Aligned4(base: int, i: int)
    requires base % 4 == 0
    ensures (base + 4 * i) % 4 == 0
  {
  }

  lemma PutFacts(c: Config)
    requires c.Ok()
    ensures !c.InScratch(c.PutAddr()) && !c.InScratch(c.semPhys) && c.PutAddr() != c.semPhys && c.PutAddr() % 4 == 0
  {
    Aligned4(c.userdPhys, 0x23);
  }

  lemma PbFacts(c: Config, i: int)
    requires c.Ok() && 0 <= i < 16
    ensures !c.InScratch(c.pbPhys + 4 * i) && (c.pbPhys + 4 * i) % 4 == 0
    ensures c.mapping.Maps(c.pbVa + 4 * i, 4) && c.mapping.At(c.pbVa + 4 * i) == c.pbPhys + 4 * i
    ensures c.pbPhys + 4 * i != c.PutAddr() && c.pbPhys + 4 * i != c.semPhys
  {
    Aligned4(c.pbPhys, i);
  }

  lemma RingFacts(c: Config, slot: int)
    requires c.Ok() && 0 <= slot < c.entries
    ensures var p := c.ringPhys + 8 * slot;
            !c.InScratch(p) && !c.InScratch(p + 4) && p % 4 == 0 && (p + 4) % 4 == 0
            && c.mapping.Maps(c.ringVa + 8 * slot, 8) && c.mapping.At(c.ringVa + 8 * slot) == p
            && p != c.PutAddr() && p + 4 != c.PutAddr() && p != c.semPhys && p + 4 != c.semPhys
  {
    Aligned4(c.ringPhys, 2 * slot);
    Aligned4(c.ringPhys, 2 * slot + 1);
  }

  lemma RingMissesPb(c: Config, slot: int, i: int)
    requires c.Ok() && 0 <= slot < c.entries && 0 <= i < 16
    ensures c.ringPhys + 8 * slot != c.pbPhys + 4 * i && c.ringPhys + 8 * slot + 4 != c.pbPhys + 4 * i
  {
  }

  lemma PollKeeps(c: Config, g: Gpu, j: Job)
    requires JobOk(c, j) && InFlight(c, g, j) && g.phase == Idle
    ensures InFlight(c, PollStep(c, g), j)
  {
    hide GpfifoEntry, EntryAddress, EntryLength, Copied, Byte, Launch.LinearCopy, Config.Ok, Interpret;
    PutFacts(c);
    RingFacts(c, j.slot);
    NextSlotDiffers(j.slot, c.entries);
    PbVaFits(c);
    EntryDecodes(c.pbVa, |j.words|);
    if g.put != g.get { assert PollStep(c, g).phase == Fetching(c.pbVa, |j.words|, []); }
  }

  lemma PbVaFits(c: Config)
    requires c.Ok()
    ensures c.pbVa % 4 == 0 && c.pbVa < 0x100_0000_0000
  {
  }

  lemma ReadKeeps(c: Config, g: Gpu, j: Job)
    requires JobOk(c, j) && InFlight(c, g, j) && g.phase.Fetching? && |g.phase.words| < g.phase.len
    ensures InFlight(c, ReadStep(c, g), j)
  {
    hide Copied, Byte, GpfifoEntry, Launch.LinearCopy, Config.Ok, Interpret;
    var i := |g.phase.words|;
    PbFacts(c, i);
    assert Rd32(g.mem, c.pbPhys + 4 * i) == j.words[i];
    assert j.words[..i + 1] == j.words[..i] + [j.words[i]];
  }

  lemma DecodeKeeps(c: Config, g: Gpu, j: Job)
    requires JobOk(c, j) && InFlight(c, g, j) && g.phase.Fetching? && |g.phase.words| == g.phase.len
    ensures InFlight(c, DecodeStep(c, g), j)
  {
    hide Copied, Byte, GpfifoEntry, Launch.LinearCopy, Config.Ok, Interpret;
    assert g.phase.words == j.words;
  }

  lemma ScratchWord(c: Config, a: int)
    requires c.Ok() && c.InScratch(a)
    ensures c.InScratch(WordOf(a))
  {
  }

  lemma RangesMapped(c: Config, j: Job, k: int)
    requires JobOk(c, j) && 0 <= k < j.launch.bytes
    ensures c.mapping.Maps(j.launch.src + k, 1) && c.mapping.Maps(j.launch.dst + k, 1) && c.InScratch(Dst(c, j) + k)
    ensures c.mapping.At(j.launch.src + k) == Src(c, j) + k && c.mapping.At(j.launch.dst + k) == Dst(c, j) + k
    ensures !(0 <= Src(c, j) + k - Dst(c, j) < j.launch.bytes)
  {
  }

  lemma JobFacts(c: Config, j: Job)
    requires JobOk(c, j)
    ensures c.Ok() && c.entries >= 2 && 0 <= j.slot < c.entries && Rd32(j.base, c.PutAddr()) == (j.slot + 1) % c.entries
    ensures Rd32(j.base, c.semPhys) == 0 && j.launch.payload != 0
  {
  }

  lemma CopiedGrows(c: Config, m: Memory, j: Job, done: set<int>, k: int)
    requires JobOk(c, j) && 0 <= k < j.launch.bytes && k !in done && Copied(c, m, j, done)
    ensures var m' := SetByte(m, Dst(c, j) + k, Byte(m, Src(c, j) + k));
            Copied(c, m', j, done + {k}) && forall w :: w != WordOf(Dst(c, j) + k) ==> Rd32(m', w) == Rd32(m, w)
  {
    hide Byte, SetByte, JobOk;
    RangesMapped(c, j, k);
    var d, s := Dst(c, j) + k, Src(c, j) + k;
    var v := Byte(m, s);
    assert CopiedAt(c, m, j, done, s);
    var m' := SetByte(m, d, v);
    forall a ensures CopiedAt(c, m', j, done + {k}, a) {
      assert CopiedAt(c, m, j, done, a);
      SetByteReads(m, d, v, a);
    }
    SetByteReads(m, d, v, d);
  }

  lemma CopyKeeps(c: Config, g: Gpu, j: Job, k: int)
    requires JobOk(c, j) && InFlight(c, g, j) && g.phase.Copying?
    ensures InFlight(c, CopyStep(c, g, k), j)
  {
    hide Byte, SetByte, Copied, Dst, Src, WordOf, JobOk, Config.Ok;
    if 0 <= k < j.launch.bytes && k !in g.phase.done {
      JobFacts(c, j);
      RangesMapped(c, j, k);
      ScratchWord(c, Dst(c, j) + k);
      CopiedGrows(c, g.mem, j, g.phase.done, k);
      assert CopyStep(c, g, k).phase == Copying(j.launch, g.phase.done + {k});
    }
  }

  lemma ReleaseKeeps(c: Config, g: Gpu, j: Job)
    requires JobOk(c, j) && InFlight(c, g, j) && g.phase.Copying?
    ensures InFlight(c, ReleaseStep(c, g), j) || Finished(c, ReleaseStep(c, g), j)
  {
    hide Byte, Copied, DataCopied, ChannelSame, Config.Ok, Interpret, GpfifoEntry, Launch.LinearCopy;
    var g' := ReleaseStep(c, g);
    if !exists k :: 0 <= k < j.launch.bytes && k !in g.phase.done {
      PutFacts(c);
      SemMapped(c);
      AllCopied(c, g, j, g'.mem);
      ChannelReleased(c, g, j, g'.mem);
    }
  }

  lemma SemMapped(c: Config)
    requires c.Ok()
    ensures c.mapping.Maps(c.semVa, 4) && c.mapping.At(c.semVa) == c.semPhys
  {
  }

  lemma ChannelReleased(c: Config, g: Gpu, j: Job, m: Memory)
    requires JobOk(c, j) && ChannelSame(c, g.mem, j) && m == g.mem[c.semPhys := j.launch.payload]
    ensures Rd32(m, c.semPhys) == j.launch.payload && Rd32(m, c.PutAddr()) == (j.slot + 1) % c.entries
    ensures forall w :: w % 4 == 0 && !c.InScratch(w) && w != c.semPhys ==> Rd32(m, w) == Rd32(j.base, w)
  {
    hide Interpret, GpfifoEntry, Launch.LinearCopy, Config.Ok;
    PutFacts(c);
    assert Rd32(g.mem, c.PutAddr()) == Rd32(j.base, c.PutAddr());
    forall w | w % 4 == 0 && !c.InScratch(w) && w != c.semPhys ensures Rd32(m, w) == Rd32(j.base, w) {
      assert Rd32(g.mem, w) == Rd32(j.base, w);
    }
  }

  lemma AllCopied(c: Config, g: Gpu, j: Job, m: Memory)
    requires JobOk(c, j) && g.phase.Copying? && Copied(c, g.mem, j, g.phase.done)
    requires forall k :: 0 <= k < j.launch.bytes ==> k in g.phase.done
    requires m == g.mem[c.semPhys := j.launch.payload]
    ensures DataCopied(c, m, j)
  {
    hide Pick, Dst, Src, GpfifoEntry, Interpret;
    forall a | c.InScratch(a) ensures ByteCopied(j.base, m, Src(c, j), Dst(c, j), j.launch.bytes, a) {
      ScratchWord(c, a);
      assert CopiedAt(c, g.mem, j, g.phase.done, a);
    }
  }

  lemma StepKeeps(c: Config, g: Gpu, j: Job, choice: Choice)
    requires c.entries > 0 && JobOk(c, j) && InFlight(c, g, j)
    ensures var g' := Step(c, g, choice); InFlight(c, g', j) || Finished(c, g', j)
  {
    hide JobOk, InFlight, Finished, PollStep, ReadStep, DecodeStep, CopyStep, ReleaseStep, RefreshStep;
    assert !g.faulted by { Unfaulted(c, g, j); }
    if choice.Refresh? {
      RefreshKeeps(c, g, j);
      return;
    }
    match g.phase
    case Idle => if choice.Poll? { PollKeeps(c, g, j); }
    case Fetching(_, len, words) =>
      if choice.ReadWord? && |words| < len { ReadKeeps(c, g, j); }
      else if choice.Decode? && |words| == len { DecodeKeeps(c, g, j); }
    case Copying(_, _) =>
      if choice.CopyByte? { CopyKeeps(c, g, j, choice.k); }
      else if choice.Release? { ReleaseKeeps(c, g, j); }
  }

  /** Looking up GP_PUT, by the doorbell or not, is knowing of the submission. */
  lemma RefreshKeeps(c: Config, g: Gpu, j: Job)
    requires JobOk(c, j) && InFlight(c, g, j)
    ensures InFlight(c, RefreshStep(c, g), j) && Rung(c, RefreshStep(c, g), j)
  {
    hide Copied, Byte, GpfifoEntry, Launch.LinearCopy, Config.Ok, Interpret;
    PutFacts(c);
    assert Rd32(g.mem, c.PutAddr()) == Rd32(j.base, c.PutAddr());
  }

  lemma Unfaulted(c: Config, g: Gpu, j: Job)
    requires c.entries > 0 && InFlight(c, g, j)
    ensures !g.faulted
  {
  }

  /** However the engine is scheduled, a pending submission stays pending and intact until it has been
      executed as a whole; nothing else can happen to it. */
  lemma {:induction false} RunKeeps(c: Config, g: Gpu, j: Job, choices: seq<Choice>)
    requires c.entries > 0 && JobOk(c, j) && (InFlight(c, g, j) || Finished(c, g, j))
    ensures var g' := Run(c, g, choices); InFlight(c, g', j) || Finished(c, g', j)
    decreases |choices|
  {
    hide JobOk, InFlight, Step;
    if InFlight(c, g, j) {
      if choices != [] {
        StepKeeps(c, g, j, choices[0]);
        RunKeeps(c, Step(c, g, choices[0]), j, choices[1..]);
      }
    } else {
      QuietStays(c, g, choices);
    }
  }

  // ----- Progress -----

  /** Steps still to go, at least: three for the phases, one for every word and every byte. */
  ghost function ToGo(g: Gpu, j: Job): nat {
    match g.phase
    case Idle => |j.words| + Remaining(j, {}) + 4
    case Fetching(_, _, words) => (if |words| <= |j.words| then |j.words| - |words| else 0) + Remaining(j, {}) + 3
    case Copying(_, done) => Remaining(j, done) + 1
  }

  ghost function Remaining(j: Job, done: set<int>): nat { |Missing(j, done)| }

  ghost function Missing(j: Job, done: set<int>): set<int> { set k | 0 <= k < j.launch.bytes && k !in done }

  lemma OneLess(j: Job, done: set<int>, k: int)
    requires k in Missing(j, done)
    ensures Remaining(j, done + {k}) < Remaining(j, done)
  {
    assert Missing(j, done) == Missing(j, done + {k}) + {k};
  }

  /** Once the doorbell has rung, some step of the engine always brings a submission forward. */
  lemma Advances(c: Config, g: Gpu, j: Job) returns (choice: Choice)
    requires JobOk(c, j) && InFlight(c, g, j) && Rung(c, g, j)
    ensures var g' := Step(c, g, choice);
            Finished(c, g', j) || (InFlight(c, g', j) && Rung(c, g', j) && ToGo(g', j) < ToGo(g, j))
    ensures !choice.Refresh?
  {
    hide JobOk, InFlight, Finished, Remaining;
    JobFacts(c, j);
    Unfaulted(c, g, j);
    match g.phase
    case Idle =>
      choice := Poll;
      PollFetches(c, g, j);
      StepKeeps(c, g, j, choice);
      NotFinishedYet(c, Step(c, g, choice), j);
    case Fetching(_, len, words) =>
      FetchShape(c, g, j);
      choice := if |words| < len then ReadWord else Decode;
      FetchMoves(c, g, j);
      StepKeeps(c, g, j, choice);
      NotFinishedYet(c, Step(c, g, choice), j);
    case Copying(_, done) =>
      CopyShape(c, g, j);
      if k :| k in Missing(j, done) {
        choice := CopyByte(k);
        CopyMoves(c, g, j, k);
        OneLess(j, done, k);
        StepKeeps(c, g, j, choice);
        NotFinishedYet(c, Step(c, g, choice), j);
      } else {
        choice := Release;
        ReleaseMoves(c, g, j);
        StepKeeps(c, g, j, choice);
        FinishedWhenIdle(c, Step(c, g, choice), j);
      }
  }

  lemma NotFinishedYet(c: Config, g: Gpu, j: Job)
    requires c.entries > 0
    ensures g.phase != Idle ==> !Finished(c, g, j)
  {
  }

  lemma FinishedWhenIdle(c: Config, g: Gpu, j: Job)
    requires c.entries > 0 && JobOk(c, j) && g.get == (j.slot + 1) % c.entries
    ensures !InFlight(c, g, j)
  {
    NextSlotDiffers(j.slot, c.entries);
  }

  lemma PollFetches(c: Config, g: Gpu, j: Job)
    requires JobOk(c, j) && InFlight(c, g, j) && Rung(c, g, j) && g.phase == Idle
    ensures PollStep(c, g).phase.Fetching? && PollStep(c, g).phase.words == []
  {
    hide GpfifoEntry, EntryAddress, EntryLength, Copied, Byte, Launch.LinearCopy, Config.Ok, Interpret;
    PutFacts(c);
    RingFacts(c, j.slot);
    NextSlotDiffers(j.slot, c.entries);
  }

  lemma FetchShape(c: Config, g: Gpu, j: Job)
    requires c.entries > 0 && InFlight(c, g, j) && g.phase.Fetching?
    ensures g.phase.pb == c.pbVa && g.phase.len == |j.words| && |g.phase.words| <= g.phase.len
  {
    hide Copied;
  }

  lemma FetchMoves(c: Config, g: Gpu, j: Job)
    requires JobOk(c, j) && InFlight(c, g, j) && g.phase.Fetching?
    ensures |g.phase.words| < g.phase.len ==>
              ReadStep(c, g).phase.Fetching? && |ReadStep(c, g).phase.words| == |g.phase.words| + 1
    ensures |g.phase.words| == g.phase.len ==> DecodeStep(c, g).phase == Copying(j.launch, {})
  {
    hide Copied, Byte, GpfifoEntry, Launch.LinearCopy, Config.Ok, Interpret;
    if |g.phase.words| < g.phase.len { PbFacts(c, |g.phase.words|); } else { assert g.phase.words == j.words; }
  }

  lemma CopyShape(c: Config, g: Gpu, j: Job)
    requires c.entries > 0 && InFlight(c, g, j) && g.phase.Copying?
    ensures g.phase.launch == j.launch
  {
    hide Copied;
  }

  lemma CopyMoves(c: Config, g: Gpu, j: Job, k: int)
    requires JobOk(c, j) && InFlight(c, g, j) && g.phase.Copying? && k in Missing(j, g.phase.done)
    ensures CopyStep(c, g, k).phase == Copying(j.launch, g.phase.done + {k})
  {
    hide JobOk, InFlight, Byte, SetByte;
    JobFacts(c, j);
    CopyShape(c, g, j);
    RangesMapped(c, j, k);
  }

  lemma ReleaseMoves(c: Config, g: Gpu, j: Job)
    requires JobOk(c, j) && InFlight(c, g, j) && g.phase.Copying? && Missing(j, g.phase.done) == {}
    ensures ReleaseStep(c, g).get == (j.slot + 1) % c.entries
  {
    hide Interpret, GpfifoEntry, Launch.LinearCopy, Copied, Config.Ok;
    SemMapped(c);
    assert forall k :: 0 <= k < j.launch.bytes && k !in g.phase.done ==> k in Missing(j, g.phase.done);
  }

  /** From every point of a submission after its doorbell the engine can run on to its end, without ever
      looking up GP_PUT of its own accord: it never blocks, and a wait that is long enough under a fair
      schedule sees the payload. */
  lemma {:induction false} CanFinish(c: Config, g: Gpu, j: Job) returns (choices: seq<Choice>)
    requires JobOk(c, j) && InFlight(c, g, j) && Rung(c, g, j)
    ensures Finished(c, Run(c, g, choices), j) && |choices| <= ToGo(g, j)
    ensures forall i :: 0 <= i < |choices| ==> !choices[i].Refresh?
    decreases ToGo(g, j)
  {
    hide JobOk, InFlight, Finished, Step, ToGo;
    JobFacts(c, j);
    var choice := Advances(c, g, j);
    var g' := Step(c, g, choice);
    if Finished(c, g', j) {
      choices := [choice];
      assert Run(c, g, choices) == Run(c, g', []);
      SomethingToGo(g, j);
    } else {
      var rest := CanFinish(c, g', j);
      choices := [choice] + rest;
      assert choices[1..] == rest;
    }
  }

  lemma SomethingToGo(g: Gpu, j: Job)
    ensures ToGo(g, j) >= 1
  {
  }

  /** Without the doorbell an engine that does not look up GP_PUT by itself never starts. */
  lemma {:induction false} NotRungStays(c: Config, g: Gpu, j: Job, choices: seq<Choice>)
    requires c.entries > 0 && InFlight(c, g, j) && !Rung(c, g, j)
    requires forall i :: 0 <= i < |choices| ==> !choices[i].Refresh?
    ensures Run(c, g, choices) == g
    decreases |choices|
  {
    hide ChannelSame, PhaseOk;
    if choices != [] {
      var rest := choices[1..];
      assert Step(c, g, choices[0]) == g;
      assert forall i :: 0 <= i < |rest| ==> rest[i] == choices[i + 1];
      NotRungStays(c, g, j, rest);
    }
  }
}
