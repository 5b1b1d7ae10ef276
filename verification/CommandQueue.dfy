/** Framing of one request in the command queue (driver/gsp/gsp_rpc.c, lines 129-162). */
module CommandQueue {
  import opened Words
  import opened LittleEndian
  import opened ExclusiveOr

  const QUEUE_SIZE: nat := 0x4_0000
  const MSG_COUNT: nat := 63
  const ELEM_HDR: nat := 48
  const RPC_HDR: nat := 32
  const CHECKSUM_OFF: nat := 32
  const SEQUENCE_OFF: nat := 36
  const ELEMCOUNT_OFF: nat := 40
  const LENGTH_OFF: nat := 56
  const FUNCTION_OFF: nat := 60
  const RESULT_OFF: nat := 64
  const PAYLOAD_OFF: nat := 80
  const HEADER_VERSION: u32 := 0x0300_0000
  const SIGNATURE: u32 := 0x4350_5256
  const NO_RESULT: u32 := 0xffff_ffff

  /** Pages of an element with `n` bytes of payload, as the code rounds it. */
  function ElemCount(n: nat): int {
    var argc := ELEM_HDR + (RPC_HDR + n + 7) / 8 * 8;
    (argc + (PAGE - 1)) / PAGE
  }

  /** That is the least number of pages that holds both headers and the payload. */
  lemma ElemCountIsLeast(n: nat)
    ensures 80 + n <= ElemCount(n) * 0x1000 < 80 + n + 0x1000
  {
    var eights := (RPC_HDR + n + 7) / 8;
    Eights(RPC_HDR + n);
    var argc := ELEM_HDR + eights * 8;
    Pages(argc);
    assert argc == 8 * (6 + eights);
    Between(6 + eights, 512 * ElemCount(n));
  }

  lemma Eights(x: nat)
    ensures x <= (x + 7) / 8 * 8 < x + 8
  {
  }

  lemma Pages(x: nat)
    ensures x <= (x + (PAGE - 1)) / PAGE * 0x1000 < x + 0x1000
  {
  }

  /** Multiples of eight. */
  lemma Between(x: int, y: int)
    requires 8 * y < 8 * x + 0x1000
    ensures 8 * y <= 8 * x + 0x1000 - 8
  {
  }

  /** A two-page element in the last slot ends one page past the queue. */
  lemma SpillsOver(base: nat)
    ensures ElemCount(PAGE - PAYLOAD_OFF + 1) == 2
    ensures base + PAGE + (62 + ElemCount(PAGE - PAYLOAD_OFF + 1)) * PAGE == base + QUEUE_SIZE + PAGE
  {
  }

  // ----- What the receiver reads -----

  function FunctionOf(e: seq<u8>): (v: u32)
    requires |e| >= PAGE
    ensures v == Le32(e, 60)
  {
    Le32(e, FUNCTION_OFF)
  }

  function LengthOf(e: seq<u8>): (v: u32)
    requires |e| >= PAGE
    ensures v == Le32(e, 56)
  {
    Le32(e, LENGTH_OFF)
  }

  function CountOf(e: seq<u8>): (v: u32)
    requires |e| >= PAGE
    ensures v == Le32(e, 40)
  {
    Le32(e, ELEMCOUNT_OFF)
  }

  function ResultOf(e: seq<u8>): (v: u32)
    requires |e| >= PAGE
    ensures v == Le32(e, 64)
  {
    Le32(e, RESULT_OFF)
  }

  /** Length of the payload announced by the header. */
  function PayloadLength(e: seq<u8>): (n: u32)
    requires |e| >= PAGE
    ensures Le32(e, 56) >= 32 ==> n == Le32(e, 56) - 32
    ensures Le32(e, 56) < 32 ==> n == 0
  {
    if LengthOf(e) >= RPC_HDR then LengthOf(e) - RPC_HDR else 0
  }

  function Words64(e: seq<u8>): (w: seq<nat>)
    requires |e| % 8 == 0
    ensures |w| == |e| / 8 && forall i :: 0 <= i < |w| ==> w[i] == Le64(e, 8 * i)
  {
    seq(|e| / 8, i requires 0 <= i < |e| / 8 => Le64(e, 8 * i))
  }

  /** The checksum is right: the exclusive or of all 64-bit words has equal halves. */
  predicate Intact(e: seq<u8>) {
    |e| % 8 == 0
    && var x := XorAll(Words64(e));
       Xor(x / 0x1_0000_0000, x % 0x1_0000_0000) == 0
  }

  predicate Field(i: nat) {
    32 <= i < 44 || 48 <= i < 72
  }

  /** Every byte of a request element but the checksum. */
  predicate Framed(e: seq<u8>, seqNo: u32, fn: u32, payload: seq<u8>) {
    && |e| == ElemCount(|payload|) * PAGE && |e| >= 0x1000 && |e| >= 80 + |payload|
    && Le32(e, 36) == seqNo && Le32(e, 40) == ElemCount(|payload|)
    && Le32(e, 48) == 0x0300_0000 && Le32(e, 52) == 0x4350_5256
    && Le32(e, 56) == 32 + |payload| && Le32(e, 60) == fn && Le32(e, 64) == 0xffff_ffff && Le32(e, 68) == 0xffff_ffff
    && e[80..80 + |payload|] == payload
    && forall i :: 0 <= i < |e| && !Field(i) && !(80 <= i < 80 + |payload|) ==> e[i] == 0
  }

  /** Read where it lies in memory, at the offsets of the receiver, a framed element gives back function,
      length, page count and payload. */
  lemma RoundTrip(shm: seq<u8>, e0: nat, seqNo: u32, fn: u32, payload: seq<u8>)
    requires 0 <= ElemCount(|payload|) * PAGE && e0 + ElemCount(|payload|) * PAGE <= |shm|
    requires Framed(shm[e0..e0 + ElemCount(|payload|) * PAGE], seqNo, fn, payload)
    ensures e0 + 80 + |payload| <= |shm|
    ensures Le32(shm, e0 + 60) == fn && Le32(shm, e0 + 56) == 32 + |payload|
    ensures Le32(shm, e0 + 40) == ElemCount(|payload|) && Le32(shm, e0 + 36) == seqNo
    ensures shm[e0 + 80..e0 + 80 + |payload|] == payload
  {
    hide Le, ElemCount;
    var e := shm[e0..e0 + ElemCount(|payload|) * PAGE];
    InPlace(shm, e, e0, FUNCTION_OFF, 4);
    InPlace(shm, e, e0, LENGTH_OFF, 4);
    InPlace(shm, e, e0, ELEMCOUNT_OFF, 4);
    InPlace(shm, e, e0, SEQUENCE_OFF, 4);
    InPlace(shm, e, e0, PAYLOAD_OFF, |payload|);
  }

  lemma InPlace(s: seq<u8>, e: seq<u8>, e0: nat, o: nat, n: nat)
    requires e0 + |e| <= |s| && e == s[e0..e0 + |e|] && o + n <= |e|
    ensures s[e0 + o..e0 + o + n] == e[o..o + n]
  {
    var x, y := s[e0 + o..e0 + o + n], e[o..o + n];
    forall k | 0 <= k < n ensures x[k] == y[k] {
      assert y[k] == e[o + k];
    }
  }

  // ----- Writing -----

  /** Bytes of the shared memory outside one element. */
  twostate predicate OutsideKept(shm: array<u8>, e0: nat, total: nat)
    requires e0 + total <= shm.Length
    reads shm
  {
    shm[..e0] == old(shm[..e0]) && shm[e0 + total..] == old(shm[e0 + total..])
  }

  method Clear(shm: array<u8>, e0: nat, total: nat)
    requires e0 + total <= shm.Length
    modifies shm
    ensures OutsideKept(shm, e0, total) && shm[e0..e0 + total] == Zeros(total)
  {
    var i := 0;
    while i < total
      invariant i <= total && OutsideKept(shm, e0, total) && forall k :: e0 <= k < e0 + i ==> shm[k] == 0
    {
      shm[e0 + i] := 0;
      i := i + 1;
    }
  }

  method Put32(shm: array<u8>, e0: nat, total: nat, o: nat, v: u32)
    requires e0 + total <= shm.Length && o + 4 <= total
    modifies shm
    ensures OutsideKept(shm, e0, total) && shm[e0..e0 + total] == Stored(old(shm[e0..e0 + total]), o, v, 4)
  {
    ghost var s := shm[..];
    Store(shm, e0 + o, v, 4);
    InElement(s, e0, total, o, v);
  }

  lemma InElement(s: seq<u8>, e0: nat, total: nat, o: nat, v: u32)
    requires e0 + total <= |s| && o + 4 <= total
    ensures Stored(s, e0 + o, v, 4)[e0..e0 + total] == Stored(s[e0..e0 + total], o, v, 4)
    ensures Stored(s, e0 + o, v, 4)[..e0] == s[..e0] && Stored(s, e0 + o, v, 4)[e0 + total..] == s[e0 + total..]
  {
    hide Digits;
  }

  /** The payload, byte by byte. */
  method PutPayload(shm: array<u8>, e0: nat, total: nat, payload: seq<u8>)
    requires e0 + total <= shm.Length && PAYLOAD_OFF + |payload| <= total
    modifies shm
    ensures OutsideKept(shm, e0, total) && shm[e0..e0 + total] == WithPayload(old(shm[e0..e0 + total]), payload)
  {
    var i := 0;
    while i < |payload|
      invariant i <= |payload|
      invariant shm[..] == old(shm[..])[..e0 + PAYLOAD_OFF] + payload[..i] + old(shm[..])[e0 + PAYLOAD_OFF + i..]
    {
      shm[e0 + PAYLOAD_OFF + i] := payload[i];
      i := i + 1;
    }
    PayloadPlaced(old(shm[..]), shm[..], e0, total, payload);
  }

  lemma PayloadPlaced(s: seq<u8>, t: seq<u8>, e0: nat, total: nat, payload: seq<u8>)
    requires e0 + total <= |s| && PAYLOAD_OFF + |payload| <= total
    requires t == s[..e0 + PAYLOAD_OFF] + payload + s[e0 + PAYLOAD_OFF + |payload|..]
    ensures t[e0..e0 + total] == WithPayload(s[e0..e0 + total], payload) && t[..e0] == s[..e0]
            && t[e0 + total..] == s[e0 + total..]
  {
  }

  function WithPayload(e: seq<u8>, payload: seq<u8>): seq<u8>
    requires PAYLOAD_OFF + |payload| <= |e|
  {
    e[..PAYLOAD_OFF] + payload + e[PAYLOAD_OFF + |payload|..]
  }

  /** Clears the element and fills in the header. */
  method PutHeader(shm: array<u8>, e0: nat, total: nat, seqNo: u32, count: u32, len: u32, fn: u32)
    requires e0 + total <= shm.Length && total >= PAGE
    modifies shm
    ensures OutsideKept(shm, e0, total) && HeaderOk(shm[e0..e0 + total], seqNo, count, len, fn)
  {
    hide Stored, HeaderOk;
    Clear(shm, e0, total);
    Put32(shm, e0, total, SEQUENCE_OFF, seqNo);
    Put32(shm, e0, total, ELEMCOUNT_OFF, count);
    Put32(shm, e0, total, 48, HEADER_VERSION);
    Put32(shm, e0, total, 52, SIGNATURE);
    Put32(shm, e0, total, LENGTH_OFF, len);
    Put32(shm, e0, total, FUNCTION_OFF, fn);
    Put32(shm, e0, total, RESULT_OFF, NO_RESULT);
    Put32(shm, e0, total, 68, NO_RESULT);
    HeaderFields(total, seqNo, count, len, fn);
  }

  /** One request element at `slot`, sent with its checksum; `base` is where the queue starts.  Elements
      are laid out straight on, so they stay inside the queue exactly when they end by its last slot. */
  method Send(shm: array<u8>, base: nat, slot: nat, seqNo: u32, fn: u32, payload: seq<u8>) returns (count: u32)
    requires base + PAGE + (slot + ElemCount(|payload|)) * PAGE <= shm.Length && ElemCount(|payload|) * PAGE < TWO32
    modifies shm
    ensures count == ElemCount(|payload|)
    ensures var e0, total := base + PAGE + slot * PAGE, ElemCount(|payload|) * PAGE;
            (e0 + total <= base + QUEUE_SIZE <==> slot + count <= MSG_COUNT) && OutsideKept(shm, e0, total)
            && Framed(shm[e0..e0 + total], seqNo, fn, payload) && Intact(shm[e0..e0 + total])
  {
    hide Framed, Intact, ElemCount;
    ElemCountIsLeast(|payload|);
    count := Build(shm, base + PAGE + slot * PAGE, seqNo, fn, payload);
  }

  /** The element at `e0`. */
  method Build(shm: array<u8>, e0: nat, seqNo: u32, fn: u32, payload: seq<u8>) returns (count: u32)
    requires e0 + ElemCount(|payload|) * PAGE <= shm.Length && 0 <= ElemCount(|payload|) * PAGE < TWO32
    modifies shm
    ensures count == ElemCount(|payload|)
    ensures var total := ElemCount(|payload|) * PAGE;
            OutsideKept(shm, e0, total) && Framed(shm[e0..e0 + total], seqNo, fn, payload)
            && Intact(shm[e0..e0 + total])
  {
    hide Framed, HeaderOk, Stored, WithPayload, ElemCount, Intact, Le32;
    Sizes(|payload|);
    var rpcLen: u32 := RPC_HDR + |payload|;
    count := ElemCount(|payload|);
    var total: nat := count * PAGE;
    PutHeader(shm, e0, total, seqNo, count, rpcLen, fn);
    ghost var h := shm[e0..e0 + total];
    PutPayload(shm, e0, total, payload);
    PayloadFields(h, seqNo, fn, payload);
    Seal(shm, e0, total, seqNo, fn, payload);
  }

  lemma Sizes(n: nat)
    requires ElemCount(n) * PAGE < TWO32
    ensures 0 <= ElemCount(n) < TWO32 && RPC_HDR + n < TWO32 && PAYLOAD_OFF + n <= ElemCount(n) * PAGE
    ensures ElemCount(n) * PAGE >= PAGE && ElemCount(n) * PAGE % 8 == 0
  {
    hide ElemCount;
    ElemCountIsLeast(n);
    WholeWords(ElemCount(n));
  }

  lemma WholeWords(n: int)
    ensures n * PAGE % 8 == 0
  {
  }

  /** The checksum of everything before it is stored. */
  method Seal(shm: array<u8>, e0: nat, total: nat, ghost seqNo: u32, ghost fn: u32, ghost payload: seq<u8>)
    requires e0 + total <= shm.Length && total % 8 == 0 && total >= PAGE
    requires var e := shm[e0..e0 + total]; Framed(e, seqNo, fn, payload) && Le32(e, CHECKSUM_OFF) == 0
    modifies shm
    ensures OutsideKept(shm, e0, total)
    ensures var e := shm[e0..e0 + total]; Framed(e, seqNo, fn, payload) && Intact(e)
  {
    hide Framed, Stored, Folded, Le32, Intact;
    ghost var e := shm[e0..e0 + total];
    var sum := Sum(shm, e0, total);
    Sealed(e, sum, seqNo, fn, payload);
    Put32(shm, e0, total, CHECKSUM_OFF, Folded(sum));
  }

  /** The running exclusive or over the element. */
  method Sum(shm: array<u8>, e0: nat, total: nat) returns (sum: u64)
    requires e0 + total <= shm.Length && total % 8 == 0
    ensures sum == XorAll(Words64(shm[e0..e0 + total]))
  {
    hide Xor, Le64;
    ghost var e := shm[e0..e0 + total];
    ghost var w := Words64(e);
    sum := 0;
    var o := 0;
    while o < total
      invariant o <= total && o % 8 == 0 && sum == XorAll(w[..o / 8])
    {
      XorAllBound(w[..o / 8 + 1]);
      assert w[..o / 8 + 1][..o / 8] == w[..o / 8];
      SameField(shm[..], e, e0, o);
      sum := Xor(sum, Le64(shm[..], e0 + o));
      o := o + 8;
    }
    assert w[..total / 8] == w;
  }

  lemma SameField(s: seq<u8>, e: seq<u8>, e0: nat, o: nat)
    requires e0 + |e| <= |s| && e == s[e0..e0 + |e|] && o + 8 <= |e|
    ensures Le64(s, e0 + o) == Le64(e, o)
  {
    InPlace(s, e, e0, o, 8);
  }

  // ----- Facts about the finished element -----

  lemma StoredFrame(s: seq<u8>, o: nat, v: u32)
    requires o + 4 <= |s|
    ensures Le32(Stored(s, o, v, 4), o) == v
    ensures forall a: nat :: a + 4 <= |s| && (a + 4 <= o || o + 4 <= a) ==> Le32(Stored(s, o, v, 4), a) == Le32(s, a)
    ensures forall i :: 0 <= i < |s| && !(o <= i < o + 4) ==> Stored(s, o, v, 4)[i] == s[i]
  {
    hide Le, Digits;
    StoredReads32(s, o, v);
    forall a: nat | a + 4 <= |s| && (a + 4 <= o || o + 4 <= a) ensures Le32(Stored(s, o, v, 4), a) == Le32(s, a) {
      StoredKeeps(s, o, v, 4, a, a + 4);
    }
  }

  predicate HeaderOk(h: seq<u8>, seqNo: u32, count: u32, len: u32, fn: u32) {
    && |h| >= PAGE && Le32(h, CHECKSUM_OFF) == 0 && Le32(h, SEQUENCE_OFF) == seqNo && Le32(h, ELEMCOUNT_OFF) == count
    && Le32(h, 48) == HEADER_VERSION && Le32(h, 52) == SIGNATURE && Le32(h, LENGTH_OFF) == len
    && Le32(h, FUNCTION_OFF) == fn
    && Le32(h, RESULT_OFF) == NO_RESULT && Le32(h, 68) == NO_RESULT && forall i :: 0 <= i < |h| && !Field(i) ==>
      h[i] == 0
  }

  lemma ZeroField(n: nat, o: nat)
    requires o + 4 <= n
    ensures Le32(Zeros(n), o) == 0
  {
    var z := Zeros(n)[o..o + 4];
    assert z == [0, 0, 0, 0];
    assert Le([0]) == 0 && Le([0, 0]) == 0 && Le([0, 0, 0]) == 0;
  }

  lemma HeaderFields(total: nat, seqNo: u32, count: u32, len: u32, fn: u32)
    requires total >= PAGE
    ensures var f := Stored(Stored(Zeros(total), SEQUENCE_OFF, seqNo, 4), ELEMCOUNT_OFF, count, 4);
            var g := Stored(Stored(f, 48, HEADER_VERSION, 4), 52, SIGNATURE, 4);
            var h := Stored(Stored(g, LENGTH_OFF, len, 4), FUNCTION_OFF, fn, 4);
            HeaderOk(Stored(Stored(h, RESULT_OFF, NO_RESULT, 4), 68, NO_RESULT, 4), seqNo, count, len, fn)
  {
    hide Stored, Le32;
    var e := Zeros(total);
    ZeroField(total, CHECKSUM_OFF);
    var s1 := Stored(e, SEQUENCE_OFF, seqNo, 4);
    StoredFrame(e, SEQUENCE_OFF, seqNo);
    var s2 := Stored(s1, ELEMCOUNT_OFF, count, 4);
    StoredFrame(s1, ELEMCOUNT_OFF, count);
    var s3 := Stored(s2, 48, HEADER_VERSION, 4);
    StoredFrame(s2, 48, HEADER_VERSION);
    var s4 := Stored(s3, 52, SIGNATURE, 4);
    StoredFrame(s3, 52, SIGNATURE);
    var s5 := Stored(s4, LENGTH_OFF, len, 4);
    StoredFrame(s4, LENGTH_OFF, len);
    var s6 := Stored(s5, FUNCTION_OFF, fn, 4);
    StoredFrame(s5, FUNCTION_OFF, fn);
    var s7 := Stored(s6, RESULT_OFF, NO_RESULT, 4);
    StoredFrame(s6, RESULT_OFF, NO_RESULT);
    StoredFrame(s7, 68, NO_RESULT);
  }

  lemma PayloadFields(h: seq<u8>, seqNo: u32, fn: u32, payload: seq<u8>)
    requires |h| == ElemCount(|payload|) * PAGE && ElemCount(|payload|) < TWO32 && |payload| + RPC_HDR < TWO32
             && |h| >= PAGE && |h| >= PAYLOAD_OFF + |payload|
    requires HeaderOk(h, seqNo, ElemCount(|payload|), RPC_HDR + |payload|, fn)
    ensures Framed(WithPayload(h, payload), seqNo, fn, payload) && Le32(WithPayload(h, payload), CHECKSUM_OFF) == 0
  {
    hide ElemCount, Le;
    var e := WithPayload(h, payload);
    forall o: nat | o + 4 <= PAYLOAD_OFF ensures Le32(e, o) == Le32(h, o) {
      assert e[o..o + 4] == h[o..o + 4];
    }
    assert e[PAYLOAD_OFF..PAYLOAD_OFF + |payload|] == payload;
  }

  /** Storing the checksum keeps the frame and makes the fold vanish. */
  lemma Sealed(e: seq<u8>, sum: u64, seqNo: u32, fn: u32, payload: seq<u8>)
    requires |e| % 8 == 0 && Framed(e, seqNo, fn, payload) && Le32(e, CHECKSUM_OFF) == 0
    requires sum == XorAll(Words64(e))
    ensures var f := Stored(e, CHECKSUM_OFF, Folded(sum), 4);
            Framed(f, seqNo, fn, payload) && Intact(f)
  {
    hide Stored, ElemCount, Xor, Le32, Le64, Words64, XorAll;
    var c := Folded(sum);
    var f := Stored(e, CHECKSUM_OFF, c, 4);
    StoredFrame(e, CHECKSUM_OFF, c);
    StoredPayload(e, c, |payload|);
    XorAllBound(Words64(e));
    SealedWords(e, c);
    OneWord(Words64(e), 4, c);
    FoldVanishes(XorAll(Words64(e)));
  }

  lemma StoredPayload(e: seq<u8>, c: u32, n: nat)
    requires PAYLOAD_OFF + n <= |e|
    ensures Stored(e, CHECKSUM_OFF, c, 4)[PAYLOAD_OFF..PAYLOAD_OFF + n] == e[PAYLOAD_OFF..PAYLOAD_OFF + n]
  {
    StoredKeeps(e, CHECKSUM_OFF, c, 4, PAYLOAD_OFF, PAYLOAD_OFF + n);
  }

  lemma {:induction false} SealedWords(e: seq<u8>, c: u32)
    requires |e| % 8 == 0 && |e| >= PAGE && Le32(e, CHECKSUM_OFF) == 0
    ensures |Words64(e)| > 4 && Words64(Stored(e, CHECKSUM_OFF, c, 4)) == Words64(e)[4 := Xor(Words64(e)[4], c)]
  {
    hide Stored, Xor, Le32, Le64;
    var f := Stored(e, CHECKSUM_OFF, c, 4);
    var v, w := Words64(f), Words64(e);
    StoredFrame(e, CHECKSUM_OFF, c);
    Halves(e, 32);
    Halves(f, 32);
    HalfByHalf(0, Le32(e, 36), c, 0);
    WithZero(c);
    WithZero(Le32(e, 36));
    forall i | 0 <= i < |w| && i != 4 ensures v[i] == w[i] {
      KeepsWord(e, c, i);
    }
  }

  lemma KeepsWord(e: seq<u8>, c: u32, i: nat)
    requires 8 * i + 8 <= |e| && |e| >= PAGE && i != 4
    ensures Le64(Stored(e, CHECKSUM_OFF, c, 4), 8 * i) == Le64(e, 8 * i)
  {
    StoredKeeps(e, CHECKSUM_OFF, c, 4, 8 * i, 8 * i + 8);
  }
}
