/** Submitting one copy and waiting for it (driver/gsp/gsp_exec.c, lines 51-111).

    Every access of the driver to video memory is preceded by an arbitrary burst of engine steps taken
    from `schedule`; a contract proved for every schedule holds for every interleaving. */
module Exec {
  import opened Words
  import opened Alignment
  import opened Bytes
  import opened Fifo
  import opened Engine

  /** Entries between the engine's position and GP_PUT. */
  function PendingEntries(c: Config, g: Gpu): int
    requires c.entries > 0
  {
    (Rd32(g.mem, c.PutAddr()) - g.get) % c.entries
  }

  /** The copy as seen in the scratch region. */
  ghost predicate ScratchCopied(c: Config, before: Memory, after: Memory, src: int, dst: int, bytes: int) {
    forall a :: c.InScratch(a) ==> ByteCopied(before, after, c.mapping.At(src), c.mapping.At(dst), bytes, a)
  }

  /** Scratch bytes outside the destination are untouched. */
  ghost predicate ScratchKept(c: Config, before: Memory, after: Memory, dst: int, bytes: int) {
    forall a :: c.InScratch(a) && !(0 <= a - c.mapping.At(dst) < bytes) ==> SameByte(before, after, a)
  }

  predicate InChannel(c: Config, w: int) {
    || c.ringPhys <= w < c.ringPhys + 8 * c.entries || c.pbPhys <= w < c.pbPhys + 64
    || w == c.semPhys || w == c.PutAddr()
  }

  /** Words outside the scratch region and the channel's own buffers are untouched. */
  ghost predicate RestKept(c: Config, before: Memory, after: Memory) {
    forall w :: w % 4 == 0 && !c.InScratch(w) && !InChannel(c, w) ==> Rd32(after, w) == Rd32(before, w)
  }

  lemma RestSame(c: Config, m: Memory)
    ensures RestKept(c, m, m)
  {
  }

  lemma RestTwice(c: Config, m0: Memory, m1: Memory, m2: Memory)
    requires RestKept(c, m0, m1) && RestKept(c, m1, m2)
    ensures RestKept(c, m0, m2)
  {
    hide InChannel;
    forall w | w % 4 == 0 && !c.InScratch(w) && !InChannel(c, w) ensures Rd32(m2, w) == Rd32(m0, w) {
      assert Rd32(m1, w) == Rd32(m0, w);
    }
  }

  lemma RestStore(c: Config, m0: Memory, m: Memory, p: int, v: u32)
    requires RestKept(c, m0, m) && c.InScratch(p)
    ensures RestKept(c, m0, m[p := v])
  {
    hide InChannel;
  }

  ghost predicate ScratchWordsSame(c: Config, m: Memory, m0: Memory) {
    forall w :: c.InScratch(w) ==> Rd32(m, w) == Rd32(m0, w)
  }

  /** Consecutive words from `p`. */
  function StoreWords(m: Memory, p: int, words: seq<u32>): Memory {
    if words == [] then m
    else
      var n := |words| - 1;
      StoreWords(m, p, words[..n])[p + 4 * n := words[n]]
  }

  /** Memory as the driver leaves it: semaphore cleared, stream and ring entry in place, GP_PUT moved. */
  function Submitted(c: Config, m: Memory, words: seq<u32>, slot: int, next: u32): Memory
    requires |words| < 0x20_0000
  {
    var e := GpfifoEntry(c.pbVa, |words|);
    var p := c.ringPhys + 8 * slot;
    StoreWords(m[c.semPhys := 0], c.pbPhys, words)[p := e.e0][p + 4 := e.e1][c.PutAddr() := next]
  }

  /** Polls of 20 us in the timeout, as a 32-bit product. */
  function Ticks(timeoutMs: u32): u32 { (if timeoutMs != 0 then timeoutMs else 2000) * 50 % TWO32 }

  /** The engine `n` accesses of the driver later, none of which was a store. */
  function After(c: Config, g: Gpu, schedule: nat -> seq<Choice>, clock: nat, n: nat): Gpu
    requires c.entries > 0
  {
    if n == 0 then g else Run(c, After(c, g, schedule, clock, n - 1), schedule(clock + (n - 1)))
  }

  predicate Shows(c: Config, g: Gpu, schedule: nat -> seq<Choice>, clock: nat, n: nat, payload: u32)
    requires c.entries > 0
  {
    Rd32(After(c, g, schedule, clock, n).mem, c.semPhys) == payload
  }

  /** In flight or finished; a one-entry ring never shows it to the engine. */
  ghost predicate Submission(c: Config, g: Gpu, j: Job)
    requires c.entries > 0
  {
    if c.entries >= 2 then JobOk(c, j) && (InFlight(c, g, j) || Finished(c, g, j))
    else Quiet(c, g) && g.mem == j.base && g.history == j.history && Rd32(j.base, c.semPhys) != j.launch.payload
  }

  /** Where a wait begins: the engine, the driver's clock and the submission. */
  datatype Wait = Wait(gpu: Gpu, clock: nat, job: Job)

  function NoWait(): Wait {
    Wait(Gpu(map[], 0, 0, Idle, map[], [], false), 0, Job(0, [], Launch(0, 0, 0, 0, 0, 0), map[], map[], []))
  }

  function Payload(seqNo: u32): u32 { 0xC0DE_0000 + seqNo % 0x1_0000 }

  class Channel {
    const c: Config
    const schedule: nat -> seq<Choice>
    var gpu: Gpu
    var clock: nat
    var ok: bool
    var gpPut: u32
    var seqNo: u32
    var objectBound: bool
    ghost var wait: Wait

    /** As bring-up hands it over: the engine has consumed everything, GP_PUT is its position. */
    constructor (c: Config, schedule: nat -> seq<Choice>, gpu: Gpu, gpPut: u32)
      requires c.Ok() && gpPut < c.entries && Quiet(c, gpu) && gpu.get == gpPut
      ensures this.c == c && this.gpu == gpu && ok && Valid() && seqNo == 0 && !objectBound
    {
      this.c, this.schedule, this.gpu := c, schedule, gpu;
      clock, ok, this.gpPut, seqNo, objectBound, wait := 0, true, gpPut, 0, false, NoWait();
    }

    ghost predicate Ready()
      reads this
    {
      && gpPut < c.entries && Quiet(c, gpu) && gpu.get == gpPut
      && (objectBound ==> Reg(gpu.regs, SET_OBJECT) == c.classEngineId)
    }

    /** A usable channel has nothing pending; an unusable one is never touched again. */
    ghost predicate Valid()
      reads this
    {
      c.Ok() && (ok && c.entries > 0 ==> Ready())
    }

    /** The last wait ended in vain: a submission was under way, and at none of the polls did the engine
        show its payload. */
    ghost predicate TimedOut(timeoutMs: u32)
      reads this
    {
      && !ok && c.entries > 0 && Submission(c, wait.gpu, wait.job) && clock == wait.clock + Ticks(timeoutMs) + 1
      && gpu == After(c, wait.gpu, schedule, wait.clock, Ticks(timeoutMs) + 1)
      && forall i :: 1 <= i <= Ticks(timeoutMs) ==>
        !Shows(c, wait.gpu, schedule, wait.clock, i, wait.job.launch.payload)
    }

    method Advance()
      requires c.entries > 0
      modifies this`gpu, this`clock
      ensures gpu == Run(c, old(gpu), schedule(old(clock))) && clock == old(clock) + 1
    {
      gpu := Run(c, gpu, schedule(clock));
      clock := clock + 1;
    }

    /** A store by the driver; it may only happen while no entry is pending, so it can never change a
        ring slot or pushbuffer that a pending entry refers to. */
    method Store(phys: int, val: u32)
      requires c.entries > 0 && Quiet(c, gpu)
      modifies this`gpu, this`clock
      ensures gpu == old(gpu).(mem := old(gpu).mem[phys := val]) && clock == old(clock) + 1
    {
      QuietStays(c, gpu, schedule(clock));
      Advance();
      gpu := gpu.(mem := gpu.mem[phys := val]);
    }

    method Load(phys: int) returns (val: u32)
      requires c.entries > 0
      modifies this`gpu, this`clock
      ensures gpu == Run(c, old(gpu), schedule(old(clock))) && clock == old(clock) + 1 && val == Rd32(gpu.mem, phys)
    {
      Advance();
      val := Rd32(gpu.mem, phys);
    }

    /** A submission is under way. */
    ghost predicate Underway(j: Job)
      reads this
    {
      c.entries > 0 && Submission(c, gpu, j)
    }

    /** While a submission is under way, the engine never has more than that one entry to consume. */
    lemma UnderwayPending(j: Job)
      requires Underway(j)
      ensures 0 <= PendingEntries(c, gpu) <= 1
    {
      hide JobOk, InFlight, PendingEntries;
      if c.entries >= 2 && InFlight(c, gpu, j) { OnePending(c, gpu, j); } else { NonePending(c, gpu); }
    }

    /** The pushbuffer words, one store each. */
    method WriteStream(pb: array<u32>, nd: nat)
      requires c.Ok() && c.entries > 0 && Quiet(c, gpu) && nd <= pb.Length && nd <= 16
      modifies this`gpu, this`clock
      ensures gpu == old(gpu).(mem := StoreWords(old(gpu).mem, c.pbPhys, pb[..nd])) && clock == old(clock) + nd
    {
      var i := 0;
      while i < nd
        invariant i <= nd && clock == old(clock) + i
                  && gpu == old(gpu).(mem := StoreWords(old(gpu).mem, c.pbPhys, pb[..i])) && Quiet(c, gpu)
      {
        PbFacts(c, i);
        assert pb[..i + 1][..i] == pb[..i];
        Store(c.pbPhys + 4 * i, pb[i]);
        i := i + 1;
      }
    }

    /** The ring entry for `nd` words, then GP_PUT. */
    method Publish(nd: nat)
      requires c.Ok() && gpPut < c.entries && Quiet(c, gpu) && nd <= 16
      modifies this`gpu, this`clock, this`gpPut
      ensures gpPut == (old(gpPut) + 1) % c.entries && clock == old(clock) + 3
      ensures var e := GpfifoEntry(c.pbVa, nd);
              var p := c.ringPhys + 8 * old(gpPut);
              gpu == old(gpu).(mem := old(gpu).mem[p := e.e0][p + 4 := e.e1][c.PutAddr() := gpPut])
    {
      hide GpfifoEntry, Config.Ok;
      SlotInRing(gpPut, c.entries);
      RingFacts(c, gpPut);
      var slot: u32 := gpPut % c.entries;
      var e := GpfifoEntry(c.pbVa, nd);
      var p := c.ringPhys + 8 * slot;
      Store(p, e.e0);
      Store(p + 4, e.e1);
      gpPut := (gpPut + 1) % c.entries;
      Store(c.PutAddr(), gpPut);
    }

    /** Stream, ring entry, GP_PUT and doorbell for one copy. */
    method Submit(setObj: u32, src: u64, dst: u64, bytes: u32, payload: u32) returns (ghost j: Job)
      requires c.Ok() && Ready() && 0 < bytes && payload != 0
      requires RangeInScratch(c, src, bytes) && RangeInScratch(c, dst, bytes)
               && (src + bytes <= dst || dst + bytes <= src)
      requires setObj == c.classEngineId || (setObj == 0 && Reg(gpu.regs, SET_OBJECT) == c.classEngineId)
      modifies this`gpu, this`clock, this`gpPut
      ensures gpPut == (old(gpPut) + 1) % c.entries && Underway(j) && old(clock) < clock
      ensures c.entries >= 2 ==> Rung(c, gpu, j)
      ensures |j.words| == if setObj != 0 then 15 else 13
      ensures j.slot == old(gpPut) && j.launch == Launch(src, dst, bytes, c.semVa, payload, 0x400_018e)
              && j.history == old(gpu.history)
      ensures ScratchWordsSame(c, j.base, old(gpu.mem)) && RestKept(c, old(gpu.mem), j.base)
    {
      hide CopyStream, GpfifoEntry, Config.Ok, ScratchWordsSame, RestKept, JobOk, Underway, RangeInScratch;
      ghost var g0 := gpu;
      PutFacts(c);
      var pb := new u32[32];
      var nd := BuildCeCopy(pb, setObj, src, dst, bytes, c.semVa, payload);
      ghost var words := pb[..nd];
      Store(c.semPhys, 0);
      WriteStream(pb, nd);
      PutOutsideStream(c, g0.mem[c.semPhys := 0], words);
      Publish(nd);
      j := SubmittedJob(c, g0, setObj, src, dst, bytes, payload, gpPut);
      StartIsUnderway(j);
      Ring(j);
    }

    lemma StartIsUnderway(j: Job)
      requires c.entries > 0 && 0 <= j.slot < c.entries && (c.entries >= 2 ==> JobOk(c, j))
      requires !gpu.faulted && gpu.phase == Idle && gpu.get == gpu.put == j.slot
      requires gpu.mem == j.base && gpu.regs == j.regs && gpu.history == j.history
      requires Rd32(j.base, c.PutAddr()) == (j.slot + 1) % c.entries && Rd32(j.base, c.semPhys) != j.launch.payload
      ensures Underway(j)
    {
      hide JobOk, InFlight, Finished;
      if c.entries >= 2 {
        SubmittedIsInFlight(c, gpu, j);
      } else {
        assert j.slot == 0 && 1 % 1 == 0;
      }
    }

    /** The doorbell: from here on the engine knows of the submission. */
    method Ring(ghost j: Job)
      requires c.Ok() && Underway(j)
      modifies this`gpu, this`clock
      ensures Underway(j) && clock == old(clock) + 1 && (c.entries >= 2 ==> Rung(c, gpu, j))
    {
      hide JobOk, InFlight, Finished, Submission, Bell, Config.Ok;
      SubmissionStays(c, gpu, j, schedule(clock));
      Advance();
      var token: u32 := TokenOf(c.runlist, c.chid);
      BellReaches(c, gpu, j);
      gpu := Bell(c, gpu, token);
    }

    /** Polls the semaphore at most `ticks` times, and reads it once more for the log when that was in vain.
        It is seen exactly if one of the polls comes when the engine shows it. */
    method Await(payload: u32, ticks: u32, ghost j: Job) returns (seen: bool)
      requires Underway(j) && payload == j.launch.payload
      modifies this`gpu, this`clock
      ensures Underway(j) && (seen ==> c.entries >= 2 && Finished(c, gpu, j))
      ensures seen <==> exists i :: 1 <= i <= ticks && Shows(c, old(gpu), schedule, old(clock), i, payload)
      ensures old(clock) <= clock && gpu == After(c, old(gpu), schedule, old(clock), clock - old(clock))
      ensures if seen then clock <= old(clock) + ticks else clock == old(clock) + ticks + 1
      ensures !seen && ticks > 0 ==> After(c, old(gpu), schedule, old(clock), ticks).history == j.history
    {
      hide JobOk, InFlight, Finished, Shows, Submission, After, Config.Ok;
      var i: u32 := 0;
      IdleAfter(c, gpu, schedule, clock, 0);
      while i < ticks
        invariant i <= ticks && Underway(j) && clock == old(clock) + i
                  && gpu == After(c, old(gpu), schedule, old(clock), i)
        invariant forall k :: 1 <= k <= i ==> !Shows(c, old(gpu), schedule, old(clock), k, payload)
        invariant i > 0 ==> gpu.history == j.history
      {
        SubmissionStays(c, gpu, j, schedule(clock));
        var v := Load(c.semPhys);
        i := i + 1;
        ShownOrNot(c, old(gpu), schedule, old(clock), i, payload);
        if v == payload {
          SeenIsFinished(c, gpu, j);
          return true;
        }
        UnseenMeansPending(c, gpu, j);
      }
      SubmissionStays(c, gpu, j, schedule(clock));
      LastStep(c, old(gpu), schedule, old(clock), ticks);
      var logged := Load(c.semPhys);
      return false;
    }

    /** Copies `bytes` from `src` to `dst`, both inside the scratch region and not overlapping, and waits.
        0: this very launch, and no other, has been executed since the call began.  -1 with the channel
        still usable: nothing was touched.  -1 with `ok` cleared: at no poll had anything been executed,
        though it may have been since, and no later call touches the device at all.  The field `wait`
        keeps the state in which the wait began. */
    method GpuCopy(src: u64, dst: u64, bytes: u32, timeoutMs: u32) returns (rc: int)
      requires Valid()
      requires RangeInScratch(c, src, bytes) && RangeInScratch(c, dst, bytes)
               && (src + bytes <= dst || dst + bytes <= src)
      modifies this
      ensures Valid() && rc in {0, -1}
      ensures !old(ok) || bytes == 0 || c.entries == 0 ==>
                rc == -1 && gpu == old(gpu) && clock == old(clock) && ok == old(ok) && gpPut == old(gpPut)
                && seqNo == old(seqNo) && objectBound == old(objectBound)
      ensures old(ok) && c.entries != 0 ==> 0 <= PendingEntries(c, gpu) <= 1
      ensures old(ok) && bytes != 0 && c.entries != 0 ==>
                seqNo == (old(seqNo) + 1) % TWO32 && gpPut == (old(gpPut) + 1) % c.entries && (rc == 0 <==> ok)
      ensures rc == 0 ==>
                && gpu.history == old(gpu.history)
                                  + [Launch(src, dst, bytes, c.semVa, 0xc0de_0000 + seqNo % 0x1_0000, 0x400_018e)]
                && ScratchCopied(c, old(gpu.mem), gpu.mem, src, dst, bytes) && RestKept(c, old(gpu.mem), gpu.mem)
      ensures old(ok) && bytes != 0 && c.entries != 0 ==>
                var l := Launch(src, dst, bytes, c.semVa, 0xc0de_0000 + seqNo % 0x1_0000, 0x400_018e);
                && (c.entries >= 2 ==> Rung(c, wait.gpu, wait.job))
                && Submission(c, wait.gpu, wait.job) && wait.job.launch == l && wait.job.history == old(gpu.history)
                && (rc == 0 <==> exists i ::
                                   1 <= i <= Ticks(timeoutMs) && Shows(c, wait.gpu, schedule, wait.clock, i, l.payload))
                && old(clock) < wait.clock <= clock
                && gpu == After(c, wait.gpu, schedule, wait.clock, clock - wait.clock)
                && (if rc == 0 then clock <= wait.clock + Ticks(timeoutMs)
                    else clock == wait.clock + Ticks(timeoutMs) + 1)
                && (rc == -1 && Ticks(timeoutMs) > 0 ==>
                      After(c, wait.gpu, schedule, wait.clock, Ticks(timeoutMs)).history == old(gpu.history))
                && (rc == -1 ==> gpu.history == old(gpu.history) || gpu.history == old(gpu.history) + [l])
                && (rc == -1 ==> (gpu.history == old(gpu.history) + [l]
                                  <==> Shows(c, wait.gpu, schedule, wait.clock, Ticks(timeoutMs) + 1, l.payload)))
      ensures old(ok) && bytes != 0 && c.entries != 0 ==>
                objectBound == (old(objectBound) || rc == 0)
                && |wait.job.words| == if old(objectBound) then 13 else 15
      ensures c.entries == 1 ==> rc == -1
      ensures rc == -1 && old(ok) && bytes != 0 && c.entries != 0 ==> TimedOut(timeoutMs)
      ensures rc == -1 && old(ok) && bytes != 0 && c.entries != 0 ==>
                ScratchKept(c, old(gpu.mem), gpu.mem, dst, bytes) && RestKept(c, old(gpu.mem), gpu.mem)
    {
      hide CopyStream, Interpret, Config.Ok, ScratchWordsSame, RestKept, JobOk, InFlight, Finished, ScratchCopied,
           ScratchKept, PendingEntries, RangeInScratch,
           After, Shows, Submission;
      ClassIsThere(c);
      if c.entries > 0 && ok { NonePending(c, gpu); }
      if !ok || bytes == 0 { return -1; }
      if c.entries == 0 { return -1; }
      ghost var m0 := gpu.mem;
      seqNo := (seqNo + 1) % TWO32;
      var payload := Payload(seqNo);
      var setObj: u32 := if objectBound then 0 else c.classEngineId;
      ghost var j := Submit(setObj, src, dst, bytes, payload);
      wait := Wait(gpu, clock, j);
      var seen := Await(payload, Ticks(timeoutMs), j);
      UnderwayPending(j);
      UnderwayIsKept(c, gpu, j, m0);
      AtMostThis(c, gpu, j);
      ExecutedIfShown(c, wait.gpu, j, schedule, wait.clock, clock - wait.clock);
      if seen {
        SubmissionIsJob(c, gpu, j);
        FinishedIsCopied(c, gpu, j, m0);
        ReadyAgain(c, gpu, j);
        if setObj != 0 { objectBound := true; }
        return 0;
      }
      ok := false;
      rc := -1;
    }
  }

  // ----- Facts about prepared memory -----

  lemma {:induction false} StoreWordsReads(m: Memory, p: int, words: seq<u32>)
    ensures forall i :: 0 <= i < |words| ==> Rd32(StoreWords(m, p, words), p + 4 * i) == words[i]
    ensures forall w :: !(p <= w < p + 4 * |words|) ==> Rd32(StoreWords(m, p, words), w) == Rd32(m, w)
  {
    if words != [] {
      StoreWordsReads(m, p, words[..|words| - 1]);
    }
  }

  lemma SubmittedControl(c: Config, m: Memory, words: seq<u32>, slot: int, next: u32)
    requires c.Ok() && 0 <= slot < c.entries && |words| <= 16
    ensures var b := Submitted(c, m, words, slot, next);
            var p := c.ringPhys + 8 * slot;
            Rd32(b, c.PutAddr()) == next && Rd32(b, c.semPhys) == 0
            && GpfifoEntry(c.pbVa, |words|) == Entry(Rd32(b, p), Rd32(b, p + 4))
  {
    hide GpfifoEntry, StoreWords, Config.Ok;
    StoreWordsReads(m[c.semPhys := 0], c.pbPhys, words);
    RingFacts(c, slot);
    PutFacts(c);
    BuffersApart(c, slot);
    var e := GpfifoEntry(c.pbVa, |words|);
    assert e == Entry(e.e0, e.e1);
    var stream := StoreWords(m[c.semPhys := 0], c.pbPhys, words);
    assert Rd32(stream, c.semPhys) == Rd32(m[c.semPhys := 0], c.semPhys) == 0;
  }

  lemma BuffersApart(c: Config, slot: int)
    requires c.Ok() && 0 <= slot < c.entries
    ensures !(c.pbPhys <= c.semPhys < c.pbPhys + 64) && !(c.pbPhys <= c.PutAddr() < c.pbPhys + 64)
    ensures var p := c.ringPhys + 8 * slot; !(c.pbPhys <= p < c.pbPhys + 64) && !(c.pbPhys <= p + 4 < c.pbPhys + 64)
  {
  }

  lemma SubmittedStream(c: Config, m: Memory, words: seq<u32>, slot: int, next: u32)
    requires c.Ok() && 0 <= slot < c.entries && |words| <= 16
    ensures forall i :: 0 <= i < |words| ==> Rd32(Submitted(c, m, words, slot, next), c.pbPhys + 4 * i) == words[i]
  {
    hide GpfifoEntry, StoreWords, Config.Ok;
    StoreWordsReads(m[c.semPhys := 0], c.pbPhys, words);
    forall i | 0 <= i < |words| ensures Rd32(Submitted(c, m, words, slot, next), c.pbPhys + 4 * i) == words[i] {
      RingMissesPb(c, slot, i);
      PbFacts(c, i);
    }
  }

  lemma SubmittedFrame(c: Config, m: Memory, words: seq<u32>, slot: int, next: u32)
    requires c.Ok() && 0 <= slot < c.entries && |words| <= 16
    ensures var b := Submitted(c, m, words, slot, next); ScratchWordsSame(c, b, m) && RestKept(c, m, b)
  {
    hide GpfifoEntry, StoreWords, Config.Ok;
    StoreWordsReads(m[c.semPhys := 0], c.pbPhys, words);
    ScratchMisses(c, slot);
    var b := Submitted(c, m, words, slot, next);
    var stream := StoreWords(m[c.semPhys := 0], c.pbPhys, words);
    forall w | c.InScratch(w) ensures Rd32(b, w) == Rd32(m, w) {
      assert Rd32(b, w) == Rd32(stream, w) == Rd32(m[c.semPhys := 0], w);
    }
    forall w | w % 4 == 0 && !c.InScratch(w) && !InChannel(c, w) ensures Rd32(b, w) == Rd32(m, w) {
      assert Rd32(b, w) == Rd32(stream, w) == Rd32(m[c.semPhys := 0], w);
    }
  }

  lemma ScratchMisses(c: Config, slot: int)
    requires c.Ok() && 0 <= slot < c.entries
    ensures forall w :: c.InScratch(w) ==>
              w != c.semPhys && !(c.pbPhys <= w < c.pbPhys + 64) && w != c.PutAddr() && w != c.ringPhys + 8 * slot
              && w != c.ringPhys + 8 * slot + 4
  {
  }

  /** The submitted memory is a job: fetched and decoded from where it lies, it is exactly this copy. */
  lemma SubmittedIsJob(c: Config, g: Gpu, setObj: u32, src: u64, dst: u64, bytes: u32, payload: u32, slot: int,
                       next: u32)
    requires c.Ok() && c.entries >= 2 && 0 <= slot < c.entries && next == (slot + 1) % c.entries && 0 < bytes
             && payload != 0
    requires RangeInScratch(c, src, bytes) && RangeInScratch(c, dst, bytes)
             && (src + bytes <= dst || dst + bytes <= src)
    requires setObj == c.classEngineId || (setObj == 0 && Reg(g.regs, SET_OBJECT) == c.classEngineId)
    requires |CopyStream(setObj, src, dst, bytes, c.semVa, payload)| <= 16
    ensures var words := CopyStream(setObj, src, dst, bytes, c.semVa, payload);
            var l := Launch(src, dst, bytes, c.semVa, payload, 0x400_018e);
            JobOk(c, Job(slot, words, l, Submitted(c, g.mem, words, slot, next), g.regs, g.history))
  {
    hide CopyStream, Interpret, GpfifoEntry, Submitted, ScratchWordsSame, RestKept;
    var words := CopyStream(setObj, src, dst, bytes, c.semVa, payload);
    SubmittedControl(c, g.mem, words, slot, next);
    SubmittedStream(c, g.mem, words, slot, next);
    StreamDecodes(g.regs, setObj, src, dst, bytes, c.semVa, payload);
    AddressesFit(c, src, dst, bytes);
  }

  lemma SubmittedJob(c: Config, g: Gpu, setObj: u32, src: u64, dst: u64, bytes: u32, payload: u32, next: u32)
    returns (j: Job)
    requires c.Ok() && 0 <= g.get < c.entries && next == (g.get + 1) % c.entries && 0 < bytes && payload != 0
    requires RangeInScratch(c, src, bytes) && RangeInScratch(c, dst, bytes)
             && (src + bytes <= dst || dst + bytes <= src)
    requires setObj == c.classEngineId || (setObj == 0 && Reg(g.regs, SET_OBJECT) == c.classEngineId)
    requires |CopyStream(setObj, src, dst, bytes, c.semVa, payload)| <= 16
    ensures j
            == Job(g.get, CopyStream(setObj, src, dst, bytes, c.semVa, payload),
                   Launch(src, dst, bytes, c.semVa, payload, 0x400_018e),
                     Submitted(c, g.mem, CopyStream(setObj, src, dst, bytes, c.semVa, payload), g.get, next), g.regs,
                       g.history)
    ensures c.entries >= 2 ==> JobOk(c, j)
    ensures Rd32(j.base, c.PutAddr()) == next && Rd32(j.base, c.semPhys) == 0
    ensures ScratchWordsSame(c, j.base, g.mem) && RestKept(c, g.mem, j.base)
  {
    hide CopyStream, GpfifoEntry, Interpret, Config.Ok, ScratchWordsSame, RestKept, JobOk, Submitted;
    var words := CopyStream(setObj, src, dst, bytes, c.semVa, payload);
    j :=
      Job(g.get, words, Launch(src, dst, bytes, c.semVa, payload, 0x400_018e),
          Submitted(c, g.mem, words, g.get, next), g.regs, g.history);
    SubmittedFrame(c, g.mem, words, g.get, next);
    SubmittedControl(c, g.mem, words, g.get, next);
    if c.entries >= 2 {
      SubmittedIsJob(c, g, setObj, src, dst, bytes, payload, g.get, next);
    }
  }

  lemma ClassIsThere(c: Config)
    requires c.Ok()
    ensures c.classEngineId != 0
  {
  }

  lemma SlotInRing(put: int, n: int)
    requires 0 <= put < n
    ensures put % n == put && 0 <= (put + 1) % n < n
  {
  }

  lemma AddressesFit(c: Config, src: u64, dst: u64, bytes: u32)
    requires c.Ok() && 0 < bytes && RangeInScratch(c, src, bytes) && RangeInScratch(c, dst, bytes)
    ensures src % VA_SPACE == src && dst % VA_SPACE == dst && c.semVa % VA_SPACE == c.semVa
  {
  }

  lemma SubmittedIsInFlight(c: Config, g: Gpu, j: Job)
    requires JobOk(c, j) && !g.faulted && g.phase == Idle && g.get == g.put == j.slot
    requires g.mem == j.base && g.regs == j.regs && g.history == j.history
    ensures InFlight(c, g, j)
  {
    hide Byte, JobOk;
    forall a ensures CopiedAt(c, g.mem, j, {}, a) {
    }
  }

  lemma SameScratchBytes(c: Config, m: Memory, m0: Memory)
    requires c.Ok() && ScratchWordsSame(c, m, m0)
    ensures forall a :: c.InScratch(a) ==> SameByte(m0, m, a)
  {
    hide Pick;
    forall a | c.InScratch(a) ensures SameByte(m0, m, a) {
      ScratchWord(c, a);
    }
  }

  lemma FinishedIsCopied(c: Config, g: Gpu, j: Job, m0: Memory)
    requires c.entries > 0 && JobOk(c, j) && Finished(c, g, j) && ScratchWordsSame(c, j.base, m0)
             && RestKept(c, m0, j.base)
    ensures ScratchCopied(c, m0, g.mem, j.launch.src, j.launch.dst, j.launch.bytes)
  {
    hide Byte, Config.Ok, JobOk, RestKept, ScratchWordsSame;
    JobFacts(c, j);
    SameScratchBytes(c, j.base, m0);
    forall a | c.InScratch(a) ensures ByteCopied(m0, g.mem, Src(c, j), Dst(c, j), j.launch.bytes, a) {
      assert ByteCopied(j.base, g.mem, Src(c, j), Dst(c, j), j.launch.bytes, a);
      if 0 <= a - Dst(c, j) < j.launch.bytes {
        SourceInScratch(c, j, a - Dst(c, j));
        assert SameByte(m0, j.base, Src(c, j) + (a - Dst(c, j)));
      } else {
        assert SameByte(m0, j.base, a);
      }
    }
  }

  lemma UnseenIsKept(c: Config, m: Memory, m0: Memory, dst: int, bytes: int)
    requires c.Ok() && ScratchWordsSame(c, m, m0)
    ensures ScratchKept(c, m0, m, dst, bytes)
  {
    SameScratchBytes(c, m, m0);
  }

  lemma {:induction false} PutOutsideStream(c: Config, m: Memory, words: seq<u32>)
    requires c.Ok() && |words| <= 16
    ensures Rd32(StoreWords(m, c.pbPhys, words), c.PutAddr()) == Rd32(m, c.PutAddr())
  {
    StoreWordsReads(m, c.pbPhys, words);
  }

  lemma SourceInScratch(c: Config, j: Job, k: int)
    requires JobOk(c, j) && 0 <= k < j.launch.bytes
    ensures c.InScratch(Src(c, j) + k)
  {
  }

  lemma PendingIsKept(c: Config, g: Gpu, j: Job, m0: Memory)
    requires c.entries > 0 && JobOk(c, j) && (InFlight(c, g, j) || Finished(c, g, j))
    requires ScratchWordsSame(c, j.base, m0) && RestKept(c, m0, j.base)
    ensures ScratchKept(c, m0, g.mem, j.launch.dst, j.launch.bytes) && RestKept(c, m0, g.mem)
  {
    hide Byte, Interpret, GpfifoEntry, Launch.LinearCopy, JobOk;
    SameScratchBytes(c, j.base, m0) by { JobFacts(c, j); }
    forall a | c.InScratch(a) && !(0 <= a - Dst(c, j) < j.launch.bytes) ensures SameByte(m0, g.mem, a) {
      assert SameByte(m0, j.base, a);
      if Finished(c, g, j) {
        assert ByteCopied(j.base, g.mem, Src(c, j), Dst(c, j), j.launch.bytes, a);
      } else {
        UntouchedInFlight(c, g, j, a);
      }
    }
    if InFlight(c, g, j) { ChannelInFlight(c, g, j); }
  }

  lemma UntouchedInFlight(c: Config, g: Gpu, j: Job, a: int)
    requires c.entries > 0 && InFlight(c, g, j) && !(0 <= a - Dst(c, j) < j.launch.bytes)
    ensures Byte(g.mem, a) == Byte(j.base, a)
  {
    hide Byte;
    var done: set<int> := if g.phase.Copying? then g.phase.done else {};
    assert CopiedAt(c, g.mem, j, done, a);
  }

  lemma ChannelInFlight(c: Config, g: Gpu, j: Job)
    requires c.entries > 0 && InFlight(c, g, j)
    ensures ChannelSame(c, g.mem, j)
  {
  }

  lemma SemaphoreInFlight(c: Config, g: Gpu, j: Job)
    requires JobOk(c, j)
    ensures InFlight(c, g, j) ==> Rd32(g.mem, c.semPhys) == 0
    ensures j.launch.payload != 0
  {
    hide Byte, Interpret, GpfifoEntry, Launch.LinearCopy;
    PutFacts(c);
  }

  /** Only this submission's own release can show its payload. */
  lemma PayloadMeansFinished(c: Config, g: Gpu, j: Job)
    requires c.entries > 0 && JobOk(c, j) && (InFlight(c, g, j) || Finished(c, g, j))
             && Rd32(g.mem, c.semPhys) == j.launch.payload
    ensures Finished(c, g, j)
  {
    hide JobOk, InFlight, Finished;
    SemaphoreInFlight(c, g, j);
  }

  /** `runlist << 16 | chid`; the fields do not overlap. */
  function TokenOf(runlist: u32, chid: u32): u32 { (runlist * 0x1_0000 + chid) % TWO32 }

  lemma TokenNames(runlist: u32, chid: u32)
    requires runlist < 0x1_0000 && chid < 0x1_0000
    ensures TokenOf(runlist, chid) / 0x1_0000 == runlist && TokenOf(runlist, chid) % 0x1_0000 == chid
  {
  }

  /** The token names this channel, and with it the engine knows of the submission. */
  lemma BellReaches(c: Config, g: Gpu, j: Job)
    requires c.Ok() && c.entries > 0 && Submission(c, g, j)
    ensures Submission(c, Bell(c, g, TokenOf(c.runlist, c.chid)), j)
    ensures c.entries >= 2 ==> Rung(c, Bell(c, g, TokenOf(c.runlist, c.chid)), j)
  {
    hide JobOk, InFlight, Finished, TokenOf;
    TokenNames(c.runlist, c.chid);
    if c.entries >= 2 {
      if InFlight(c, g, j) { RefreshKeeps(c, g, j); } else { FinishedKnows(c, g, j); }
    }
  }

  lemma FinishedKnows(c: Config, g: Gpu, j: Job)
    requires c.entries > 0 && Finished(c, g, j)
    ensures RefreshStep(c, g) == g && Rung(c, g, j)
  {
  }

  /** However the engine is scheduled, a submission under way stays so. */
  lemma {:induction false} SubmissionStays(c: Config, g: Gpu, j: Job, choices: seq<Choice>)
    requires c.entries > 0 && Submission(c, g, j)
    ensures Submission(c, Run(c, g, choices), j)
  {
    hide JobOk, InFlight, Finished, Run;
    if c.entries >= 2 { RunKeeps(c, g, j, choices); } else { QuietStays(c, g, choices); }
  }

  lemma SubmissionIsJob(c: Config, g: Gpu, j: Job)
    requires c.entries >= 2 && Submission(c, g, j)
    ensures JobOk(c, j)
  {
  }

  lemma ShownOrNot(c: Config, g: Gpu, schedule: nat -> seq<Choice>, clock: nat, n: nat, payload: u32)
    requires c.entries > 0 && n > 0
    ensures var h := Run(c, After(c, g, schedule, clock, n - 1), schedule(clock + (n - 1)));
            After(c, g, schedule, clock, n) == h
            && (Shows(c, g, schedule, clock, n, payload) <==> Rd32(h.mem, c.semPhys) == payload)
  {
  }

  lemma SeenIsFinished(c: Config, g: Gpu, j: Job)
    requires c.entries > 0 && Submission(c, g, j) && Rd32(g.mem, c.semPhys) == j.launch.payload
    ensures c.entries >= 2 && Finished(c, g, j)
  {
    hide JobOk, InFlight, Finished;
    if c.entries >= 2 { PayloadMeansFinished(c, g, j); }
  }

  /** Without the payload it has not been executed. */
  lemma UnseenMeansPending(c: Config, g: Gpu, j: Job)
    requires c.entries > 0 && Submission(c, g, j) && Rd32(g.mem, c.semPhys) != j.launch.payload
    ensures g.history == j.history && !(c.entries >= 2 && Finished(c, g, j))
  {
    hide PhaseOk, JobOk;
  }

  /** At no point more has been executed than this launch. */
  lemma AtMostThis(c: Config, g: Gpu, j: Job)
    requires c.entries > 0 && Submission(c, g, j)
    ensures g.history == j.history || g.history == j.history + [j.launch]
  {
    hide PhaseOk, JobOk;
  }

  lemma {:induction false} SubmissionAfter(c: Config, g: Gpu, j: Job, schedule: nat -> seq<Choice>, clock: nat, n: nat)
    requires c.entries > 0 && Submission(c, g, j)
    ensures Submission(c, After(c, g, schedule, clock, n), j)
  {
    hide Submission;
    if n > 0 {
      SubmissionAfter(c, g, j, schedule, clock, n - 1);
      SubmissionStays(c, After(c, g, schedule, clock, n - 1), j, schedule(clock + (n - 1)));
    }
  }

  /** After any number of accesses the launch has been executed exactly if the payload shows. */
  lemma {:induction false} ExecutedIfShown(c: Config, g: Gpu, j: Job, schedule: nat -> seq<Choice>, clock: nat, n: nat)
    requires c.entries > 0 && Submission(c, g, j)
    ensures After(c, g, schedule, clock, n).history == j.history + [j.launch]
            <==> Shows(c, g, schedule, clock, n, j.launch.payload)
  {
    hide Submission, After, JobOk, InFlight;
    SubmissionAfter(c, g, j, schedule, clock, n);
    var h := After(c, g, schedule, clock, n);
    if Rd32(h.mem, c.semPhys) == j.launch.payload { SeenIsFinished(c, h, j); } else { UnseenMeansPending(c, h, j); }
  }

  /** A wait in vain after which the launch is executed all the same: however many polls there are, an
      engine that stays idle up to the last of them and then runs to the end is never seen, but has
      finished by the read made for the log. */
  lemma FinishesUnseen(c: Config, g: Gpu, j: Job, clock: nat, ticks: nat) returns (schedule: nat -> seq<Choice>)
    requires c.entries > 0 && JobOk(c, j) && InFlight(c, g, j) && Rung(c, g, j)
    ensures forall i :: 1 <= i <= ticks ==> !Shows(c, g, schedule, clock, i, j.launch.payload)
    ensures Finished(c, After(c, g, schedule, clock, ticks + 1), j)
  {
    hide JobOk, InFlight, Finished, After;
    var choices := CanFinish(c, g, j);
    schedule := i => if i == clock + ticks then choices else [];
    SemaphoreInFlight(c, g, j);
    forall i | 0 <= i <= ticks ensures After(c, g, schedule, clock, i) == g {
      IdleAfter(c, g, schedule, clock, i);
    }
    LastStep(c, g, schedule, clock, ticks);
  }

  lemma {:induction false} IdleAfter(c: Config, g: Gpu, schedule: nat -> seq<Choice>, clock: nat, n: nat)
    requires c.entries > 0 && forall i :: clock <= i < clock + n ==> schedule(i) == []
    ensures After(c, g, schedule, clock, n) == g
  {
    if n > 0 { IdleAfter(c, g, schedule, clock, n - 1); }
  }

  lemma LastStep(c: Config, g: Gpu, schedule: nat -> seq<Choice>, clock: nat, n: nat)
    requires c.entries > 0
    ensures After(c, g, schedule, clock, n + 1) == Run(c, After(c, g, schedule, clock, n), schedule(clock + n))
  {
  }

  /** The number of polls is the one asked for exactly up to 85 899 345 ms; beyond, the product wraps. */
  lemma TicksExact(timeoutMs: u32)
    ensures Ticks(timeoutMs) == 50 * (if timeoutMs != 0 then timeoutMs else 2000) <==> timeoutMs <= 85_899_345
  {
    var t: int := if timeoutMs != 0 then timeoutMs else 2000;
    if timeoutMs <= 85_899_345 { assert 50 * t < TWO32; } else { assert 50 * t >= TWO32; }
  }

  /** There is no poll at all exactly for 2^31 ms. */
  lemma NoTicks(timeoutMs: u32)
    ensures Ticks(timeoutMs) == 0 <==> timeoutMs == 0x8000_0000
  {
    var t: int := if timeoutMs != 0 then timeoutMs else 2000;
    var q := 50 * t / TWO32;
    if Ticks(timeoutMs) == 0 {
      assert 25 * t == 0x8000_0000 * q && 0 <= q < 50;
      TwentyFive(t, q);
    }
  }

  lemma TwentyFive(t: int, q: int)
    requires 25 * t == 0x8000_0000 * q && 0 <= q < 50
    ensures q == 0 || q == 25
  {
    assert 25 * (t - 85_899_345 * q) == 23 * q;
    assert 25 * (t - 85_899_345 * q - q) == -2 * q;
  }

  /** Four polls instead of more than four thousand million. */
  lemma FewTicks()
    ensures Ticks(85_899_346) == 4 && Ticks(0x8000_0000) == 0
  {
  }

  /** A finished submission leaves the channel ready. */
  lemma ReadyAgain(c: Config, g: Gpu, j: Job)
    requires c.entries > 0 && Finished(c, g, j)
    ensures Quiet(c, g) && g.get == (j.slot + 1) % c.entries && Reg(g.regs, SET_OBJECT) == c.classEngineId
    ensures g.history == j.history + [j.launch]
  {
  }

  lemma UnderwayIsKept(c: Config, g: Gpu, j: Job, m0: Memory)
    requires c.Ok() && c.entries > 0 && Submission(c, g, j) && ScratchWordsSame(c, j.base, m0)
             && RestKept(c, m0, j.base)
    ensures ScratchKept(c, m0, g.mem, j.launch.dst, j.launch.bytes) && RestKept(c, m0, g.mem)
  {
    hide JobOk, InFlight, Finished, Config.Ok, ScratchWordsSame, RestKept, ScratchKept;
    if c.entries >= 2 {
      PendingIsKept(c, g, j, m0);
    } else {
      UnseenIsKept(c, j.base, m0, j.launch.dst, j.launch.bytes);
    }
  }

  /** At most one entry is pending: none when the engine is quiet, one while a submission is in flight. */
  lemma NonePending(c: Config, g: Gpu)
    requires c.entries > 0 && Quiet(c, g)
    ensures PendingEntries(c, g) == 0
  {
  }

  lemma OnePending(c: Config, g: Gpu, j: Job)
    requires JobOk(c, j) && InFlight(c, g, j)
    ensures PendingEntries(c, g) == 1
  {
    hide Byte, JobOk, Config.Ok, Copied, PhaseOk;
    JobFacts(c, j);
    PutFacts(c);
    assert Rd32(g.mem, c.PutAddr()) == Rd32(j.base, c.PutAddr());
    SlotDistance(j.slot, c.entries);
  }

  lemma SlotDistance(slot: int, n: int)
    requires 0 <= slot < n && n >= 2
    ensures ((slot + 1) % n - slot) % n == 1
  {
    if slot + 1 < n {
      DivModUnique(n, 0, slot + 1);
      DivModUnique(n, 0, 1);
    } else {
      DivModUnique(n, 1, 0);
      DivModUnique(n, -1, 1);
    }
  }
}
