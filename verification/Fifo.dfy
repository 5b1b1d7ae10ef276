/** The copy-engine method stream and its GPFIFO entry, with an independent decoder
    (driver/gsp/gsp_fifo.c, lines 162-233; driver/gsp/gsp_fifo.h). */
module Fifo {
  import opened Words

  const SUBCH_COPY := 4
  const SET_OBJECT := 0x0
  const SET_SEMAPHORE_A := 0x240
  const SET_SEMAPHORE_B := 0x244
  const SET_SEMAPHORE_PAYLOAD := 0x248
  const LAUNCH_DMA := 0x300
  const OFFSET_IN_UPPER := 0x400
  const OFFSET_IN_LOWER := 0x404
  const OFFSET_OUT_UPPER := 0x408
  const OFFSET_OUT_LOWER := 0x40c
  const LINE_LENGTH_IN := 0x418

  /** NON_PIPELINED, FLUSH_ENABLE, one-word semaphore release, pitch source and destination, DISABLE_PLC. */
  const LAUNCH_FLAGS: u32 := 0x2 + 0x4 + 0x8 + 0x80 + 0x100 + 0x400_0000

  const VA_SPACE: int := 0x2_0000_0000_0000

  // ----- The engine: decodes incrementing-method packets into register writes and launches -----

  datatype Launch = Launch(src: int, dst: int, bytes: u32, sem: int, payload: u32, flags: u32) {
    /** A one-line virtual-to-virtual copy whose end is announced by a one-word semaphore release. */
    predicate LinearCopy() {
      && flags % 4 == 2 && flags / 0x4 % 2 == 1 && flags / 0x8 % 4 == 1
      && flags / 0x80 % 2 == 1 && flags / 0x100 % 2 == 1 && flags / 0x200 % 2 == 0 && flags / 0x400 % 2 == 0
      && flags / 0x1000 % 2 == 0 && flags / 0x2000 % 2 == 0
    }
  }

  /** Method registers of the copy subchannel. */
  type Registers = map<int, u32>

  function Reg(r: Registers, m: int): u32 { if m in r then r[m] else 0 }

  /** An address from its 17 upper and 32 lower bits. */
  function Address(r: Registers, upper: int): int { Reg(r, upper) % 0x2_0000 * TWO32 + Reg(r, upper + 4) }

  function LaunchOf(r: Registers): Launch {
    Launch(Address(r, 0x400), Address(r, 0x408), Reg(r, 0x418), Address(r, 0x240), Reg(r, 0x248), Reg(r, 0x300))
  }

  datatype Decoded = Fault | Done(regs: Registers, launches: seq<Launch>)

  /** Consecutive methods starting at `m`; writing LAUNCH_DMA starts a copy with the registers as they stand. */
  function Methods(r: Registers, m: int, data: seq<u32>): Decoded
    decreases |data|
  {
    if data == [] then Done(r, [])
    else
      var r' := r[m := data[0]];
      var rest := Methods(r', m + 4, data[1..]);
      if rest.Fault? then Fault
      else rest.(launches := (if m == 0x300 then [LaunchOf(r')] else []) + rest.launches)
  }

  /** A stream of packets: OPCODE(31:29) = 1, COUNT(28:16), SUBCH(15:13), ADDRESS(11:0) in words. */
  function Interpret(r: Registers, words: seq<u32>): Decoded
    decreases |words|
  {
    if words == [] then Done(r, [])
    else
      var h := words[0];
      var count := h / 0x1_0000 % 0x2000;
      if h / 0x2000_0000 != 1 || h / 0x2000 % 8 != 4 || |words| < 1 + count then Fault
      else
        var here := Methods(r, h % 0x1000 * 4, words[1..1 + count]);
        if here.Fault? then Fault
        else
          var rest := Interpret(here.regs, words[1 + count..]);
          if rest.Fault? then Fault else rest.(launches := here.launches + rest.launches)
  }

  // ----- The driver -----

  /** The fields do not overlap, so their bitwise or is their sum. */
  function PbHdr(subch: u32, mthd: u32, count: u32): u32 {
    0x2000_0000 + count % 0x2000 * 0x1_0000 + subch % 8 * 0x2000 + mthd / 4 % 0x1000
  }

  function High17(va: u64): u32 { va / TWO32 % 0x2_0000 }

  function Low32(va: u64): u32 { va % TWO32 }

  function Packet(mthd: u32, data: seq<u32>): seq<u32>
    requires |data| < 0x2000
  {
    [PbHdr(SUBCH_COPY, mthd, |data|)] + data
  }

  /** The whole stream as packets: optional binding, semaphore, addresses, length, launch. */
  function CopyStream(classEngineId: u32, src: u64, dst: u64, bytes: u32, sem: u64, payload: u32): seq<u32> {
    (if classEngineId != 0 then Packet(SET_OBJECT, [classEngineId]) else [])
    + Packet(SET_SEMAPHORE_A, [High17(sem), Low32(sem), payload])
    + Packet(OFFSET_IN_UPPER, [High17(src), Low32(src), High17(dst), Low32(dst)])
    + Packet(LINE_LENGTH_IN, [bytes])
    + Packet(LAUNCH_DMA, [LAUNCH_FLAGS])
  }

  /** `pb[n++] = word`. */
  method Append(pb: array<u32>, n: nat, word: u32) returns (n': nat)
    requires n < pb.Length
    modifies pb
    ensures n' == n + 1 && pb[..n'] == old(pb[..n]) + [word]
    ensures forall k :: n' <= k < pb.Length ==> pb[k] == old(pb[k])
  {
    pb[n] := word;
    n' := n + 1;
  }

  /** A header and one method. */
  method AppendOne(pb: array<u32>, n: nat, mthd: u32, word: u32) returns (n': nat)
    requires n + 2 <= pb.Length
    modifies pb
    ensures n' == n + 2 && pb[..n'] == old(pb[..n]) + Packet(mthd, [word])
    ensures forall k :: n' <= k < pb.Length ==> pb[k] == old(pb[k])
  {
    hide PbHdr;
    n' := Append(pb, n, PbHdr(SUBCH_COPY, mthd, 1));
    n' := Append(pb, n', word);
  }

  method AppendSemaphore(pb: array<u32>, n: nat, sem: u64, payload: u32) returns (n': nat)
    requires n + 4 <= pb.Length
    modifies pb
    ensures n' == n + 4 && pb[..n'] == old(pb[..n]) + Packet(SET_SEMAPHORE_A, [High17(sem), Low32(sem), payload])
    ensures forall k :: n' <= k < pb.Length ==> pb[k] == old(pb[k])
  {
    hide PbHdr, High17, Low32;
    n' := Append(pb, n, PbHdr(SUBCH_COPY, SET_SEMAPHORE_A, 3));
    n' := Append(pb, n', High17(sem));
    n' := Append(pb, n', Low32(sem));
    n' := Append(pb, n', payload);
  }

  method AppendAddresses(pb: array<u32>, n: nat, src: u64, dst: u64) returns (n': nat)
    requires n + 5 <= pb.Length
    modifies pb
    ensures n' == n + 5
            && pb[..n'] == old(pb[..n]) + Packet(OFFSET_IN_UPPER, [High17(src), Low32(src), High17(dst), Low32(dst)])
    ensures forall k :: n' <= k < pb.Length ==> pb[k] == old(pb[k])
  {
    hide PbHdr, High17, Low32;
    n' := Append(pb, n, PbHdr(SUBCH_COPY, OFFSET_IN_UPPER, 4));
    n' := Append(pb, n', High17(src));
    n' := Append(pb, n', Low32(src));
    n' := Append(pb, n', High17(dst));
    n' := Append(pb, n', Low32(dst));
  }

  method BuildCeCopy(pb: array<u32>, classEngineId: u32, src: u64, dst: u64, bytes: u32, sem: u64, payload: u32)
    returns (n: nat)
    requires pb.Length >= 16
    modifies pb
    ensures n == (if classEngineId != 0 then 15 else 13)
            && pb[..n] == CopyStream(classEngineId, src, dst, bytes, sem, payload)
    ensures forall k :: n <= k < pb.Length ==> pb[k] == old(pb[k])
  {
    hide Packet, High17, Low32;
    n := 0;
    if classEngineId != 0 {
      n := AppendOne(pb, n, SET_OBJECT, classEngineId);
    }
    n := AppendSemaphore(pb, n, sem, payload);
    n := AppendAddresses(pb, n, src, dst);
    n := AppendOne(pb, n, LINE_LENGTH_IN, bytes);
    n := AppendOne(pb, n, LAUNCH_DMA, LAUNCH_FLAGS);
  }

  // ----- Round trips -----

  lemma HeaderDecodes(mthd: u32, count: u32)
    requires mthd % 4 == 0 && mthd < 0x4000 && count < 0x2000
    ensures var h := PbHdr(SUBCH_COPY, mthd, count);
            h / 0x2000_0000 == 1 && h / 0x2000 % 8 == 4 && h / 0x1_0000 % 0x2000 == count
            && h % 0x1000 * 4 == mthd
  {
    var a := mthd / 4;
    assert PbHdr(SUBCH_COPY, mthd, count) == 0x2000_0000 + count * 0x1_0000 + 4 * 0x2000 + a;
    HeaderFields(count, a);
    FieldOf(0x2000 + count);
    SubchannelOf(0x2000 + count);
  }

  lemma HeaderFields(count: int, a: int)
    requires 0 <= count < 0x2000 && 0 <= a < 0x1000
    ensures var h := 0x2000_0000 + count * 0x1_0000 + 4 * 0x2000 + a;
            h / 0x2000_0000 == 1 && h / 0x2000 == 8 * (0x2000 + count) + 4 && h / 0x1_0000 == 0x2000 + count
            && h % 0x1000 == a
  {
  }

  lemma FieldOf(x: int)
    requires 0x2000 <= x < 0x4000
    ensures x % 0x2000 == x - 0x2000
  {
  }

  lemma SubchannelOf(x: int)
    ensures (8 * x + 4) % 8 == 4
  {
  }

  lemma {:induction false} PacketDecodes(r: Registers, mthd: u32, data: seq<u32>, rest: seq<u32>)
    requires mthd % 4 == 0 && mthd < 0x4000 && |data| < 0x2000
    ensures var here := Methods(r, mthd, data);
            Interpret(r, Packet(mthd, data) + rest)
            == if here.Fault? then Fault
               else var tail := Interpret(here.regs, rest);
                    if tail.Fault? then Fault else tail.(launches := here.launches + tail.launches)
  {
    hide Methods;
    HeaderDecodes(mthd, |data|);
    var words := Packet(mthd, data) + rest;
    assert words[1..1 + |data|] == data && words[1 + |data|..] == rest;
  }

  lemma AddressDecodes(va: u64)
    ensures High17(va) % 0x2_0000 * TWO32 + Low32(va) == va % VA_SPACE
  {
  }

  lemma {:induction false} MethodStep(r: Registers, m: int, v: u32, rest: seq<u32>)
    requires m != LAUNCH_DMA
    ensures Methods(r, m, [v] + rest) == Methods(r[m := v], m + 4, rest)
  {
    assert ([v] + rest)[1..] == rest;
    var tail := Methods(r[m := v], m + 4, rest);
    if tail.Done? { assert [] + tail.launches == tail.launches; }
  }

  lemma {:induction false} NoMethods(r: Registers, m: int)
    ensures Methods(r, m, []) == Done(r, [])
  {
  }

  lemma {:induction false} SemaphoreMethods(r: Registers, a: u32, b: u32, payload: u32)
    ensures Methods(r, SET_SEMAPHORE_A, [a, b, payload])
            == Done(r[SET_SEMAPHORE_A := a][SET_SEMAPHORE_B := b][SET_SEMAPHORE_PAYLOAD := payload], [])
  {
    hide Methods;
    var r1 := r[SET_SEMAPHORE_A := a];
    var r2 := r1[SET_SEMAPHORE_B := b];
    assert [a, b, payload] == [a] + [b, payload] && [b, payload] == [b] + [payload] && [payload] == [payload] + [];
    MethodStep(r, SET_SEMAPHORE_A, a, [b, payload]);
    MethodStep(r1, SET_SEMAPHORE_B, b, [payload]);
    MethodStep(r2, SET_SEMAPHORE_PAYLOAD, payload, []);
    NoMethods(r2[SET_SEMAPHORE_PAYLOAD := payload], SET_SEMAPHORE_PAYLOAD + 4);
  }

  lemma {:induction false} OffsetMethods(r: Registers, a: u32, b: u32, c: u32, d: u32)
    ensures Methods(r, OFFSET_IN_UPPER, [a, b, c, d])
            == Done(r[OFFSET_IN_UPPER := a][OFFSET_IN_LOWER := b][OFFSET_OUT_UPPER := c][OFFSET_OUT_LOWER := d], [])
  {
    hide Methods;
    var r1 := r[OFFSET_IN_UPPER := a];
    var r2 := r1[OFFSET_IN_LOWER := b];
    var r3 := r2[OFFSET_OUT_UPPER := c];
    assert [a, b, c, d] == [a] + [b, c, d] && [b, c, d] == [b] + [c, d] && [c, d] == [c] + [d] && [d] == [d] + [];
    MethodStep(r, OFFSET_IN_UPPER, a, [b, c, d]);
    MethodStep(r1, OFFSET_IN_LOWER, b, [c, d]);
    MethodStep(r2, OFFSET_OUT_UPPER, c, [d]);
    MethodStep(r3, OFFSET_OUT_LOWER, d, []);
    NoMethods(r3[OFFSET_OUT_LOWER := d], OFFSET_OUT_LOWER + 4);
  }

  lemma {:induction false} OneMethod(r: Registers, m: int, v: u32)
    ensures Methods(r, m, [v]) == Done(r[m := v], if m == LAUNCH_DMA then [LaunchOf(r[m := v])] else [])
  {
    assert [v][1..] == [];
  }

  /** Whatever the registers held before, the stream is exactly one launch, with every parameter set
      by the stream itself; addresses are taken modulo the 49-bit space. */
  lemma {:induction false} StreamDecodes(r: Registers, classEngineId: u32, src: u64, dst: u64, bytes: u32, sem: u64,
                                         payload: u32)
    ensures var l := Launch(src % VA_SPACE, dst % VA_SPACE, bytes, sem % VA_SPACE, payload, 0x400_018e);
            var d := Interpret(r, CopyStream(classEngineId, src, dst, bytes, sem, payload));
            d.Done? && d.launches == [l] && l.LinearCopy()
            && Reg(d.regs, 0) == if classEngineId != 0 then classEngineId else Reg(r, 0)
  {
    hide Interpret, Methods, PbHdr, High17, Low32, Packet;
    var r0 := if classEngineId != 0 then r[SET_OBJECT := classEngineId] else r;
    var p1, p2 :=
      Packet(SET_SEMAPHORE_A, [High17(sem), Low32(sem), payload]),
      Packet(OFFSET_IN_UPPER, [High17(src), Low32(src), High17(dst), Low32(dst)]);
    var p3, p4 := Packet(LINE_LENGTH_IN, [bytes]), Packet(LAUNCH_DMA, [LAUNCH_FLAGS]);
    var tail := p1 + (p2 + (p3 + (p4 + [])));
    BodyDecodes(r0, src, dst, bytes, sem, payload);
    if classEngineId != 0 {
      PacketDecodes(r, SET_OBJECT, [classEngineId], tail);
      OneMethod(r, SET_OBJECT, classEngineId);
      assert CopyStream(classEngineId, src, dst, bytes, sem, payload) == Packet(SET_OBJECT, [classEngineId]) + tail;
    } else {
      assert CopyStream(classEngineId, src, dst, bytes, sem, payload) == tail;
    }
    FlagsAreLinear();
  }

  lemma FlagsAreLinear()
    ensures Launch(0, 0, 0, 0, 0, LAUNCH_FLAGS).LinearCopy()
  {
  }

  /** The last two packets: with length set, the launch uses the registers as they stand. */
  lemma {:induction false} TailDecodes(r: Registers, bytes: u32)
    ensures var d := Interpret(r, Packet(LINE_LENGTH_IN, [bytes]) + (Packet(LAUNCH_DMA, [LAUNCH_FLAGS]) + []));
            var r' := r[LINE_LENGTH_IN := bytes][LAUNCH_DMA := LAUNCH_FLAGS];
            d == Done(r', [LaunchOf(r')])
  {
    hide Interpret, Methods, Packet, LaunchOf;
    var r1 := r[LINE_LENGTH_IN := bytes];
    PacketDecodes(r, LINE_LENGTH_IN, [bytes], Packet(LAUNCH_DMA, [LAUNCH_FLAGS]) + []);
    OneMethod(r, LINE_LENGTH_IN, bytes);
    PacketDecodes(r1, LAUNCH_DMA, [LAUNCH_FLAGS], []);
    OneMethod(r1, LAUNCH_DMA, LAUNCH_FLAGS);
    EmptyStream(r1[LAUNCH_DMA := LAUNCH_FLAGS]);
  }

  lemma {:induction false} BodyDecodes(r: Registers, src: u64, dst: u64, bytes: u32, sem: u64, payload: u32)
    ensures var body := Packet(SET_SEMAPHORE_A, [High17(sem), Low32(sem), payload])
                        + (Packet(OFFSET_IN_UPPER, [High17(src), Low32(src), High17(dst), Low32(dst)])
                           + (Packet(LINE_LENGTH_IN, [bytes]) + (Packet(LAUNCH_DMA, [LAUNCH_FLAGS]) + [])));
            var d := Interpret(r, body);
            d.Done? && Reg(d.regs, SET_OBJECT) == Reg(r, SET_OBJECT)
            && d.launches == [Launch(src % VA_SPACE, dst % VA_SPACE, bytes, sem % VA_SPACE, payload, LAUNCH_FLAGS)]
  {
    hide Interpret, Methods, High17, Low32, Packet, LaunchOf;
    var q3 := Packet(LINE_LENGTH_IN, [bytes]) + (Packet(LAUNCH_DMA, [LAUNCH_FLAGS]) + []);
    var q2 := Packet(OFFSET_IN_UPPER, [High17(src), Low32(src), High17(dst), Low32(dst)]) + q3;
    PacketDecodes(r, SET_SEMAPHORE_A, [High17(sem), Low32(sem), payload], q2);
    SemaphoreMethods(r, High17(sem), Low32(sem), payload);
    var r1 := r[SET_SEMAPHORE_A := High17(sem)][SET_SEMAPHORE_B := Low32(sem)][SET_SEMAPHORE_PAYLOAD := payload];
    PacketDecodes(r1, OFFSET_IN_UPPER, [High17(src), Low32(src), High17(dst), Low32(dst)], q3);
    OffsetMethods(r1, High17(src), Low32(src), High17(dst), Low32(dst));
    var r1' := r1[OFFSET_IN_UPPER := High17(src)][OFFSET_IN_LOWER := Low32(src)];
    var r2 := r1'[OFFSET_OUT_UPPER := High17(dst)][OFFSET_OUT_LOWER := Low32(dst)];
    TailDecodes(r2, bytes);
    LaunchFields(r2[LINE_LENGTH_IN := bytes][LAUNCH_DMA := LAUNCH_FLAGS], src, dst, bytes, sem, payload);
  }

  lemma {:induction false} EmptyStream(r: Registers)
    ensures Interpret(r, []) == Done(r, [])
  {
  }

  lemma LaunchFields(r: Registers, src: u64, dst: u64, bytes: u32, sem: u64, payload: u32)
    requires Reg(r, OFFSET_IN_UPPER) == High17(src) && Reg(r, OFFSET_IN_LOWER) == Low32(src)
    requires Reg(r, OFFSET_OUT_UPPER) == High17(dst) && Reg(r, OFFSET_OUT_LOWER) == Low32(dst)
    requires Reg(r, SET_SEMAPHORE_A) == High17(sem) && Reg(r, SET_SEMAPHORE_B) == Low32(sem)
    requires Reg(r, SET_SEMAPHORE_PAYLOAD) == payload && Reg(r, LINE_LENGTH_IN) == bytes
             && Reg(r, LAUNCH_DMA) == LAUNCH_FLAGS
    ensures LaunchOf(r) == Launch(src % VA_SPACE, dst % VA_SPACE, bytes, sem % VA_SPACE, payload, LAUNCH_FLAGS)
  {
    hide High17, Low32, Reg;
    AddressDecodes(src);
    AddressDecodes(dst);
    AddressDecodes(sem);
  }

  // ----- GPFIFO entries -----

  /** The two words of a ring entry: GET in 31:2 and 7:0, LENGTH in 30:10. */
  datatype Entry = Entry(e0: u32, e1: u32)

  function GpfifoEntry(pbVa: u64, dwords: u32): Entry {
    Entry(pbVa % TWO32 / 4 * 4, pbVa / TWO32 % 0x100 + dwords % 0x20_0000 * 0x400)
  }

  /** How the host reads an entry. */
  function EntryAddress(e: Entry): int { e.e1 % 0x100 * TWO32 + e.e0 / 4 * 4 }

  function EntryLength(e: Entry): int { e.e1 / 0x400 % 0x20_0000 }

  /** An entry names its pushbuffer exactly when the address is 4-aligned and below 2^40. */
  lemma EntryDecodes(pbVa: u64, dwords: u32)
    ensures EntryAddress(GpfifoEntry(pbVa, dwords)) == pbVa <==> pbVa % 4 == 0 && pbVa < 0x100_0000_0000
    ensures dwords < 0x20_0000 ==> EntryLength(GpfifoEntry(pbVa, dwords)) == dwords
  {
    var high, low := pbVa / TWO32, pbVa % TWO32;
    var e1 := high % 0x100 + dwords % 0x20_0000 * 0x400;
    EntryHigh(high % 0x100, dwords % 0x20_0000);
    AlignedDown(low);
    assert pbVa == high * TWO32 + low;
    LowAlignment(high, low);
    HighFits(high);
  }

  /** One past the limit: the entry of a pushbuffer at 2^40 names address zero. */
  lemma EntryMisses()
    ensures EntryAddress(GpfifoEntry(0x100_0000_0000, 15)) == 0
  {
  }

  lemma EntryHigh(h: int, n: int)
    requires 0 <= h < 0x100 && 0 <= n < 0x20_0000
    ensures (h + n * 0x400) % 0x100 == h && (h + n * 0x400) / 0x400 % 0x20_0000 == n
  {
    assert (h + n * 0x400) / 0x400 == n;
  }

  lemma AlignedDown(low: int)
    ensures low / 4 * 4 / 4 * 4 == low / 4 * 4 && (low / 4 * 4 == low <==> low % 4 == 0)
  {
  }

  lemma LowAlignment(high: int, low: int)
    ensures (high * TWO32 + low) % 4 == low % 4
  {
    DropFours(high * 0x4000_0000, low);
  }

  lemma DropFours(q: int, x: int)
    ensures (4 * q + x) % 4 == x % 4
  {
  }

  lemma HighFits(high: int)
    requires 0 <= high
    ensures high % 0x100 == high <==> high < 0x100
  {
  }
}
