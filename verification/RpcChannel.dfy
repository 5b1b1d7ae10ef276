/** One remote call: send a request, then poll the message queue for its reply
    (driver/gsp/gsp_rm.c, lines 24-91).

    The GSP may post messages before every single access of the driver to the queue; it respects the
    read pointer that the driver publishes. */
module RpcChannel {
  import opened Words
  import opened LittleEndian
  import opened CommandQueue

  const OK := 0
  const ERR_TIMEOUT := -2
  const ERR_BOUNDS := -3

  const POLL_STEP: u32 := 1000
  const DEFAULT_TIMEOUT: u32 := 4_000_000

  /** Offset of the write pointer in a queue header. */
  const WRITEPTR_OFF: nat := 16

  /** The largest multiple of the poll step below 2^32. */
  const LONGEST_TIMEOUT: u32 := 4_294_967_000

  function Effective(timeoutUs: u32): u32 { if timeoutUs == 0 then DEFAULT_TIMEOUT else timeoutUs }

  /** A message as the pages it occupies. */
  type Message = seq<seq<u8>>

  /** What the GSP sends: whole pages, counted in the header, that hold the announced length. */
  predicate WellFormed(m: Message) {
    && 1 <= |m| < MSG_COUNT && (forall k :: 0 <= k < |m| ==> |m[k]| == PAGE)
    && Le32(m[0], 40) == |m| && 48 + Le32(m[0], 56) <= |m| * PAGE
  }

  function Slot(r: int, k: int): int { if r + k >= MSG_COUNT then r + k - MSG_COUNT else r + k }

  /** Consecutive slots, wrapping round. */
  function Written(ring: seq<seq<u8>>, w: nat, m: Message): (t: seq<seq<u8>>)
    requires |ring| == MSG_COUNT && w < MSG_COUNT && |m| < MSG_COUNT
    ensures |t| == |ring|
  {
    if m == [] then ring
    else
      var n := |m| - 1;
      Written(ring, w, m[..n])[Slot(w, n) := m[n]]
  }

  lemma {:induction false} WrittenReads(ring: seq<seq<u8>>, w: nat, m: Message)
    requires |ring| == MSG_COUNT && w < MSG_COUNT && |m| < MSG_COUNT
    ensures forall k :: 0 <= k < |m| ==> Written(ring, w, m)[Slot(w, k)] == m[k]
    ensures forall s :: 0 <= s < MSG_COUNT && (forall k :: 0 <= k < |m| ==> s != Slot(w, k)) ==>
              Written(ring, w, m)[s] == ring[s]
  {
    if m != [] { WrittenReads(ring, w, m[..|m| - 1]); }
  }

  /** The message queue in shared memory: slots, the GSP's write pointer and the published read pointer. */
  datatype Queue = Queue(ring: seq<seq<u8>>, writePtr: nat, readPtr: nat) {
    predicate Ok() {
      |ring| == MSG_COUNT && writePtr < MSG_COUNT && readPtr < MSG_COUNT && forall s :: 0 <= s < MSG_COUNT ==>
        |ring[s]| == PAGE
    }

    function Used(): int { if writePtr >= readPtr then writePtr - readPtr else writePtr + MSG_COUNT - readPtr }

    /** The GSP posts a message if the published read pointer leaves room. */
    predicate Room(m: Message) { Used() + |m| < MSG_COUNT }

    function Post(m: Message): Queue
      requires Ok() && |m| < MSG_COUNT
    {
      Queue(Written(ring, writePtr, m), Slot(writePtr, |m|), readPtr)
    }

    /** From `r` up to the write pointer the queue holds exactly these pages. */
    ghost predicate Holds(r: nat, pages: seq<seq<u8>>) {
      && r < MSG_COUNT && |pages| < MSG_COUNT && writePtr == Slot(r, |pages|)
      && forall k :: 0 <= k < |pages| ==> HoldsAt(r, pages, k)
    }

    predicate HoldsAt(r: nat, pages: seq<seq<u8>>, k: nat) {
      k < |pages| && 0 <= Slot(r, k) < |ring| && ring[Slot(r, k)] == pages[k]
    }
  }

  /** The pages of messages `i` to `j`. */
  function PagesOf(ms: seq<Message>, i: nat, j: nat): seq<seq<u8>>
    requires i <= j <= |ms|
    decreases j - i
  {
    if i == j then [] else PagesOf(ms, i, j - 1) + ms[j - 1]
  }

  lemma {:induction false} PagesOfPrefix(ms: seq<Message>, ns: seq<Message>, i: nat, j: nat)
    requires i <= j <= |ms| && ms <= ns
    ensures PagesOf(ns, i, j) == PagesOf(ms, i, j)
    decreases j - i
  {
    if i < j {
      PagesOfPrefix(ms, ns, i, j - 1);
      assert ns[j - 1] == ms[j - 1];
    }
  }

  lemma {:induction false} PagesOfFirst(ms: seq<Message>, i: nat, j: nat)
    requires i < j <= |ms|
    ensures PagesOf(ms, i, j) == ms[i] + PagesOf(ms, i + 1, j)
    decreases j - i
  {
    if i + 1 < j {
      PagesOfFirst(ms, i, j - 1);
    } else {
      assert PagesOf(ms, i, j - 1) == [];
    }
  }

  lemma {:induction false} PagesOfSplit(ms: seq<Message>, i: nat, k: nat, j: nat)
    requires i <= k <= j <= |ms|
    ensures PagesOf(ms, i, j) == PagesOf(ms, i, k) + PagesOf(ms, k, j)
    decreases j - k
  {
    if k < j { PagesOfSplit(ms, i, k, j - 1); }
  }

  /** Posting appends, wherever in the ring the queue lies. */
  lemma PostAppends(q: Queue, m: Message, pages: seq<seq<u8>>)
    requires q.Ok() && WellFormed(m) && q.Room(m) && q.Holds(q.readPtr, pages)
    ensures q.Post(m).Ok() && q.Post(m).Holds(q.readPtr, pages + m)
  {
    hide CountOf, LengthOf;
    assert q.Used() == |pages|;
    WrittenReads(q.ring, q.writePtr, m);
    var t, all, r := q.Post(m), pages + m, q.readPtr;
    forall k | 0 <= k < |all| ensures t.HoldsAt(r, all, k) {
      if k < |pages| {
        assert q.HoldsAt(r, pages, k);
      } else {
        SlotSum(r, |pages|, k - |pages|);
      }
    }
    forall s | 0 <= s < MSG_COUNT ensures |t.ring[s]| == PAGE {
      if k :| 0 <= k < |m| && s == Slot(q.writePtr, k) { }
    }
  }

  lemma SlotSum(r: nat, a: nat, b: nat)
    requires r < MSG_COUNT && a + b < MSG_COUNT
    ensures Slot(Slot(r, a), b) == Slot(r, a + b)
  {
  }

  /** Publishing a read pointer past the first message leaves the rest. */
  lemma TakeFirst(q: Queue, m: Message, rest: seq<seq<u8>>, r: nat)
    requires q.Ok() && q.Holds(r, m + rest)
    ensures q.(readPtr := Slot(r, |m|)).Holds(Slot(r, |m|), rest)
  {
    var t, s := q.(readPtr := Slot(r, |m|)), Slot(r, |m|);
    SlotSum(r, |m|, |rest|);
    forall k | 0 <= k < |rest| ensures t.HoldsAt(s, rest, k) {
      assert q.HoldsAt(r, m + rest, |m| + k);
      SlotSum(r, |m|, k);
    }
  }

  /** Byte `i` of the payload of a message. */
  function PayloadByte(m: Message, i: nat): u8
    requires WellFormed(m) && 80 + i < |m| * PAGE
  {
    PlaceInPage(80 + i, |m|);
    m[(80 + i) / 0x1000][(80 + i) % 0x1000]
  }

  lemma PlaceInPage(x: nat, n: nat)
    requires x < n * PAGE
    ensures 0 <= x / PAGE < n && 0 <= x % PAGE < PAGE
  {
  }

  /** The first `n` bytes of the payload. */
  predicate IsPayload(s: seq<u8>, m: Message) {
    && WellFormed(m) && 80 + |s| <= |m| * PAGE
    && forall i :: 0 <= i < |s| ==> s[i] == PayloadByte(m, i)
  }

  /** The head of the queue, page by page. */
  lemma {:induction false} HeadHeld(q: Queue, r: nat, ms: seq<Message>, taken: nat)
    requires taken < |ms| && q.Holds(r, PagesOf(ms, taken, |ms|))
    ensures forall k :: 0 <= k < |ms[taken]| ==> 0 <= Slot(r, k) < |q.ring| && q.ring[Slot(r, k)] == ms[taken][k]
  {
    var pages := PagesOf(ms, taken, |ms|);
    PagesOfFirst(ms, taken, |ms|);
    forall k | 0 <= k < |ms[taken]| ensures 0 <= Slot(r, k) < |q.ring| && q.ring[Slot(r, k)] == ms[taken][k] {
      assert q.HoldsAt(r, pages, k);
    }
  }

  lemma {:induction false} HeadPage(q: Queue, r: nat, ms: seq<Message>, taken: nat)
    requires taken < |ms| && q.Holds(r, PagesOf(ms, taken, |ms|)) && WellFormed(ms[taken])
    ensures r < |q.ring| && q.ring[r] == ms[taken][0] && 0 < |ms[taken]| < MSG_COUNT && |q.ring[r]| == PAGE
    ensures CountOf(ms[taken][0]) == |ms[taken]| && PayloadLength(ms[taken][0]) + PAYLOAD_OFF <= |ms[taken]| * PAGE
  {
    HeadHeld(q, r, ms, taken);
    assert q.ring[Slot(r, 0)] == ms[taken][0];
  }

  /** None of the messages numbered `from` to `to` answers `fn`. */
  predicate Skipped(ms: seq<Message>, fn: u32, from: nat, to: nat) {
    to <= |ms| && forall k :: from <= k < to ==> |ms[k]| > 0 && |ms[k][0]| >= PAGE && Le32(ms[k][0], 60) != fn
  }

  /** Message `k` is the first from number `from` on that answers `fn`. */
  predicate FirstMatch(ms: seq<Message>, fn: u32, from: nat, k: nat) {
    && from <= k < |ms| && Skipped(ms, fn, from, k)
    && |ms[k]| > 0 && |ms[k][0]| >= PAGE && Le32(ms[k][0], 60) == fn
  }

  /** Message `k` does not run past the last slot of the ring. */
  predicate InOnePiece(start: nat, ms: seq<Message>, k: nat)
    requires k < |ms|
  {
    Position(start, ms, k) + |ms[k]| <= MSG_COUNT
  }

  lemma NothingSkipped(ms: seq<Message>, fn: u32, from: nat)
    requires from <= |ms|
    ensures Skipped(ms, fn, from, from)
  {
  }

  lemma SkippedStays(ms: seq<Message>, ns: seq<Message>, fn: u32, from: nat, to: nat)
    requires ms <= ns && Skipped(ms, fn, from, to)
    ensures Skipped(ns, fn, from, to)
  {
    hide FunctionOf;
  }

  /** One reading of the write pointer: after how many waits, and how much had been posted. */
  datatype Reading = Reading(waits: nat, posted: nat)

  /** The write pointer was read `n` times, each time after one more wait. */
  predicate Polled(rs: seq<Reading>, before: seq<Reading>, firstWait: nat, n: nat) {
    && before <= rs && |rs| == |before| + n
    && forall i :: |before| <= i < |rs| ==> rs[i].waits == firstWait + (i - |before|)
  }

  lemma NotPolled(rs: seq<Reading>, w: nat)
    ensures Polled(rs, rs, w, 0)
  {
  }

  lemma PolledMore(rs: seq<Reading>, before: seq<Reading>, firstWait: nat, n: nat, shown: nat)
    requires Polled(rs, before, firstWait, n)
    ensures Polled(rs + [Reading(firstWait + n, shown)], before, firstWait, n + 1) && |rs| >= n
            && before <= rs + [Reading(firstWait + n, shown)]
  {
  }

  /** How much had been posted by the last reading, or so many readings earlier. */
  function Shown(rs: seq<Reading>, back: nat): nat
    requires back < |rs|
  {
    rs[|rs| - 1 - back].posted
  }

  lemma ShownLast(rs: seq<Reading>, r: Reading)
    ensures Shown(rs + [r], 0) == r.posted && (|rs| > 0 ==> Shown(rs + [r], 1) == Shown(rs, 0))
  {
  }

  datatype Drained = Empty | Reply | Wraps

  class Channel {
    const shm: array<u8>
    const cmdqOff: nat
    const schedule: nat -> seq<Message>
    var queue: Queue
    var clock: nat
    var cmdqWptr: u32
    var seqNo: u32
    var msgqRptr: u32
    ghost const start: nat
    ghost var posted: seq<Message>
    ghost var taken: nat
    ghost var waits: nat
    ghost var readings: seq<Reading>

    /** As bring-up hands it over: the message queue empty from some read index on, the command queue's
        write index also the number of the next request. */
    constructor (shm: array<u8>, cmdqOff: nat, schedule: nat -> seq<Message>, queue: Queue, wptr: u32)
      requires cmdqOff + QUEUE_SIZE <= shm.Length && queue.Ok() && queue.writePtr == queue.readPtr && wptr < MSG_COUNT
      ensures this.shm == shm && this.cmdqOff == cmdqOff && Valid() && posted == [] && taken == 0
              && cmdqWptr == seqNo == wptr
      ensures msgqRptr == start == queue.readPtr
    {
      this.shm, this.cmdqOff, this.schedule, this.queue := shm, cmdqOff, schedule, queue;
      clock, cmdqWptr, seqNo, msgqRptr, posted, taken := 0, wptr, wptr, queue.readPtr, [], 0;
      start, waits, readings := queue.readPtr, 0, [];
    }

    /** All messages ever posted are well formed; the queue holds exactly those not yet taken, from the
        private read index on, which is where the next message starts, below the slot count, and equal
        to the published one. */
    ghost predicate Valid()
      reads this
    {
      && cmdqOff + QUEUE_SIZE <= shm.Length && cmdqWptr < MSG_COUNT
      && queue.Ok() && msgqRptr < MSG_COUNT && queue.readPtr == msgqRptr
      && taken <= |posted| && (forall k :: 0 <= k < |posted| ==> WellFormed(posted[k]))
      && queue.Holds(msgqRptr, PagesOf(posted, taken, |posted|))
      && msgqRptr == Position(start, posted, taken)
    }

    /** The GSP posts whatever the schedule says and there is room for. */
    method Arrive()
      requires Valid()
      modifies this`queue, this`clock, this`posted
      ensures Valid() && old(posted) <= posted
    {
      hide WellFormed, Queue.Holds, Queue.Ok, Queue.Room;
      var ms := schedule(clock);
      clock := clock + 1;
      for i := 0 to |ms|
        invariant Valid() && old(posted) <= posted
      {
        if WellFormed(ms[i]) && queue.Room(ms[i]) {
          PostKeeps(queue, ms[i]);
          PostAppends(queue, ms[i], PagesOf(posted, taken, |posted|));
          PagesOfPrefix(posted, posted + [ms[i]], taken, |posted|);
          PagesOfPrefix(posted, posted + [ms[i]], 0, taken);
          queue := queue.Post(ms[i]);
          posted := posted + [ms[i]];
        }
      }
    }

    /** Reads the GSP's write pointer: up to it the queue holds all that has been posted by now. */
    method ReadWritePtr() returns (wptr: nat)
      requires Valid()
      modifies this`queue, this`clock, this`posted, this`readings
      ensures Valid() && old(posted) <= posted && readings == old(readings) + [Reading(waits, |posted|)]
      ensures wptr == Slot(msgqRptr, |PagesOf(posted, taken, |posted|)|)
    {
      Arrive();
      wptr := queue.writePtr;
      readings := readings + [Reading(waits, |posted|)];
    }

    /** One poll step passes. */
    method Delay()
      requires Valid()
      modifies this`queue, this`clock, this`posted, this`waits
      ensures Valid() && old(posted) <= posted && waits == old(waits) + 1
    {
      Arrive();
      waits := waits + 1;
    }

    /** Takes the first message off the queue and publishes the new read index. */
    method Consume(mec: u32)
      requires Valid() && taken < |posted| && mec == |posted[taken]|
      modifies this`queue, this`msgqRptr, this`taken
      ensures Valid() && taken == old(taken) + 1 && msgqRptr == Slot(old(msgqRptr), mec)
    {
      hide WellFormed, Queue.Holds;
      PagesOfFirst(posted, taken, |posted|);
      TakeFirst(queue, posted[taken], PagesOf(posted, taken + 1, |posted|), msgqRptr);
      HeadFits(queue, msgqRptr, posted, taken);
      PositionMoves(start, posted, taken);
      var r := msgqRptr + mec;
      while r >= MSG_COUNT
        invariant 0 <= r && Slot(msgqRptr, mec) == (if r >= MSG_COUNT then r - MSG_COUNT else r)
      {
        r := r - MSG_COUNT;
      }
      msgqRptr := r;
      queue := queue.(readPtr := r);
      taken := taken + 1;
    }

    /** Copies `n` bytes of the first message's payload, which lies in one piece. */
    method CopyPayload(out: array<u8>, n: nat)
      requires Valid() && taken < |posted| && n <= out.Length && PAYLOAD_OFF + n <= |posted[taken]| * PAGE
      requires msgqRptr + |posted[taken]| <= MSG_COUNT
      modifies out, this`queue, this`clock, this`posted
      ensures Valid() && old(posted) <= posted
      ensures IsPayload(out[..n], posted[taken]) && out[n..] == old(out[n..])
    {
      hide Queue.Holds, Queue.Ok, PagesOf, CountOf, LengthOf;
      ghost var m := posted[taken];
      var i := 0;
      while i < n
        invariant i <= n && Valid() && old(posted) <= posted && posted[taken] == m
        invariant IsPayload(out[..i], m) && out[n..] == old(out[n..])
      {
        Arrive();
        HeadHeld(queue, msgqRptr, posted, taken);
        PlaceInPage(PAYLOAD_OFF + i, |m|);
        var page, at := (PAYLOAD_OFF + i) / PAGE, (PAYLOAD_OFF + i) % PAGE;
        assert queue.ring[Slot(msgqRptr, page)] == m[page];
        out[i] := queue.ring[msgqRptr + page][at];
        i := i + 1;
      }
    }

    /** Hands the first message to the caller and takes it. */
    method Answer(fn: u32, out: array<u8>, mec: u32, plen: u32) returns (replyLen: u32)
      requires Valid() && taken < |posted| && mec == |posted[taken]| && msgqRptr + mec <= MSG_COUNT
      requires FunctionOf(posted[taken][0]) == fn && plen == PayloadLength(posted[taken][0])
      modifies this`queue, this`clock, this`posted, this`msgqRptr, this`taken, out
      ensures Valid() && old(posted) <= posted && taken == old(taken) + 1 && replyLen == plen
      ensures IsReply(fn, posted[taken - 1], out[..], old(out[..]), replyLen, ResultOf(posted[taken - 1][0]))
    {
      hide Queue.Holds, Queue.Ok, PagesOf, CountOf, LengthOf, FunctionOf, ResultOf, IsPayload, WellFormed,
           PayloadLength;
      NotEmpty(posted[taken]);
      var n := if plen < out.Length then plen else out.Length;
      CopyPayload(out, n);
      Consume(mec);
      replyLen := plen;
    }

    /** Takes messages up to the write pointer `wptr` read a while ago, when `seen` had been posted, until
        one, number `k`, answers `fn`; that one is handed over exactly if it lies in one piece. */
    method Drain(fn: u32, out: array<u8>, wptr: nat, ghost seen: nat)
      returns (d: Drained, replyLen: u32, result: u32, ghost k: nat)
      requires Valid() && taken <= seen <= |posted| && wptr == Slot(msgqRptr, |PagesOf(posted, taken, seen)|)
      modifies this`queue, this`clock, this`posted, this`msgqRptr, this`taken, out
      ensures Valid() && old(posted) <= posted
      ensures d == Empty ==> taken == seen && Skipped(posted, fn, old(taken), taken)
      ensures d != Empty ==>
                FirstMatch(posted, fn, old(taken), k) && k < seen && (d == Reply <==> InOnePiece(start, posted, k))
                && taken == if d == Reply then k + 1 else k
      ensures d == Reply ==> IsReply(fn, posted[k], out[..], old(out[..]), replyLen, result)
      ensures d != Reply ==> replyLen == 0 && result == 0 && out[..] == old(out[..])
    {
      hide Queue.Holds, Queue.Ok, PagesOf, CountOf, LengthOf, FunctionOf, ResultOf, IsPayload, WellFormed,
           PayloadLength, IsReply, Position;
      replyLen, result, k := 0, 0, 0;
      SeenLength(queue, posted, taken, seen, msgqRptr);
      while msgqRptr != wptr
        invariant Valid() && old(posted) <= posted && old(taken) <= taken <= seen <= |posted|
        invariant wptr == Slot(msgqRptr, |PagesOf(posted, taken, seen)|) && (msgqRptr == wptr <==> taken == seen)
        invariant Skipped(posted, fn, old(taken), taken) && out[..] == old(out[..])
        decreases seen - taken
      {
        ghost var before := posted;
        Arrive();
        PagesOfPrefix(before, posted, taken, seen);
        HeadPage(queue, msgqRptr, posted, taken);
        var page := queue.ring[msgqRptr];
        var mec := CountOf(page);
        if mec == 0 || mec > MSG_COUNT { mec := 1; }
        if FunctionOf(page) == fn {
          k := taken;
          if msgqRptr + mec > MSG_COUNT { return Wraps, 0, 0, k; }
          ghost var here := posted;
          replyLen := Answer(fn, out, mec, PayloadLength(page));
          PositionStays(start, here, posted, k);
          return Reply, replyLen, ResultOf(page), k;
        }
        SeenRest(queue, posted, taken, seen, msgqRptr);
        Consume(mec);
        SeenLength(queue, posted, taken, seen, msgqRptr);
      }
      d := Empty;
    }

    /** One round: reads the write pointer and drains up to it; `shown` had been posted by the reading. */
    method Poll(fn: u32, out: array<u8>, ghost from: nat)
      returns (d: Drained, replyLen: u32, result: u32, ghost k: nat, ghost shown: nat)
      requires Valid() && from <= taken && Skipped(posted, fn, from, taken)
      modifies this`queue, this`clock, this`posted, this`msgqRptr, this`taken, this`readings, out
      ensures Valid() && old(posted) <= posted && readings == old(readings) + [Reading(waits, shown)]
      ensures d == Empty ==> from <= taken == shown && Skipped(posted, fn, from, taken)
      ensures d != Empty ==>
                FirstMatch(posted, fn, from, k) && old(taken) <= k < shown
                && (d == Reply <==> InOnePiece(start, posted, k)) && taken == if d == Reply then k + 1 else k
      ensures d == Reply ==> IsReply(fn, posted[k], out[..], old(out[..]), replyLen, result)
      ensures d != Reply ==> replyLen == 0 && result == 0 && out[..] == old(out[..])
    {
      hide Queue.Ok, Queue.Holds, PagesOf, CountOf, LengthOf, FunctionOf, ResultOf, IsPayload, WellFormed,
           PayloadLength, IsReply, Slot, Position, InOnePiece;
      ghost var before, t := posted, taken;
      var wptr := ReadWritePtr();
      shown := |posted|;
      d, replyLen, result, k := Drain(fn, out, wptr, shown);
      assert before[..t] <= posted;
    }

    /** Polls until an answer is there or the time is up; `delays` counts the waits.  An answer is found at
        the first reading that shows it; a timeout means that none was shown by any. */
    method Receive(fn: u32, out: array<u8>, timeoutUs: u32)
      returns (rc: int, replyLen: u32, result: u32, delays: nat, ghost k: nat)
      requires Valid() && timeoutUs <= LONGEST_TIMEOUT
      modifies this`queue, this`clock, this`posted, this`msgqRptr, this`taken, this`waits, this`readings, out
      ensures Valid() && old(posted) <= posted && rc in {0, -2, -3}
      ensures waits == old(waits) + delays && Polled(readings, old(readings), old(waits), delays + 1)
              && delays * 1000 < timeoutUs + 1000
      ensures rc == -2 ==>
                taken == Shown(readings, 0) && Skipped(posted, fn, old(taken), taken) && delays * 1000 >= timeoutUs
      ensures rc != -2 ==>
                FirstMatch(posted, fn, old(taken), k) && k < Shown(readings, 0)
                && (delays > 0 ==> Shown(readings, 1) <= k)
      ensures rc != -2 ==>
                (rc == 0 <==> InOnePiece(start, posted, k)) && taken == if rc == 0 then k + 1 else k
      ensures rc == 0 ==> IsReply(fn, posted[k], out[..], old(out[..]), replyLen, result)
      ensures rc != 0 ==> out[..] == old(out[..])
    {
      hide Valid, CountOf, FunctionOf, ResultOf, IsPayload, WellFormed, PayloadLength, IsReply, WaitedAfter, InOnePiece,
           FirstMatch, Skipped, Polled, Shown;
      var waited: u32 := 0;
      delays := 0;
      WaitedNext(0);
      ghost var from := taken;
      TakenBounded();
      NothingSkipped(posted, fn, from);
      NotPolled(readings, waits);
      while true
        invariant Valid() && old(posted) <= posted && from <= taken <= |posted| && Skipped(posted, fn, from, taken)
                  && out[..] == old(out[..])
        invariant waited == WaitedAfter(delays) == POLL_STEP * delays && waited < timeoutUs + POLL_STEP
        invariant Polled(readings, old(readings), old(waits), delays) && waits == old(waits) + delays
        invariant delays > 0 ==> |readings| > 0 && taken == Shown(readings, 0)
        decreases timeoutUs + POLL_STEP - waited
      {
        ghost var rs := readings;
        var d, len, res, first, shown := Poll(fn, out, from);
        PolledMore(rs, old(readings), old(waits), delays, shown);
        ShownLast(rs, Reading(waits, shown));
        if d == Reply { return OK, len, res, delays, first; }
        if d == Wraps { return ERR_BOUNDS, 0, 0, delays, first; }
        if waited >= timeoutUs { return ERR_TIMEOUT, 0, 0, delays, 0; }
        TakenBounded();
        ghost var before := posted;
        Delay();
        SkippedStays(before, posted, fn, from, taken);
        WaitedStep(delays, waited, timeoutUs);
        waited := (waited + POLL_STEP) % TWO32;
        delays := delays + 1;
      }
    }

    lemma TakenBounded()
      requires Valid()
      ensures taken <= |posted|
    {
    }

    /** Sends the request: framed at the write index, which then moves past it. */
    method Request(fn: u32, req: seq<u8>)
      requires Valid() && cmdqWptr + ElemCount(|req|) <= MSG_COUNT
      modifies this`cmdqWptr, this`seqNo, shm
      ensures Valid() && taken <= |posted|
      ensures seqNo == (old(seqNo) + 1) % TWO32 && cmdqWptr == Slot(old(cmdqWptr), ElemCount(|req|))
      ensures Le32(shm[..], cmdqOff + 16) == cmdqWptr
              && Requested(shm[..], cmdqOff, old(cmdqWptr), old(seqNo), fn, req)
      ensures SameBut(old(shm[..]), shm[..], cmdqOff + PAGE + old(cmdqWptr) * PAGE, ElemCount(|req|) * PAGE,
                      cmdqOff + 16, 4)
    {
      hide Queue.Ok, Queue.Holds, PagesOf, FunctionOf, WellFormed, ElemCount, Le32, Stored, Framed, Intact, Position;
      ElemCountIsLeast(|req|);
      var slot, number := cmdqWptr, seqNo;
      ghost var s0 := shm[..];
      var ec := Send(shm, cmdqOff, slot, number, fn, req);
      var w := slot + ec;
      while w >= MSG_COUNT
        invariant 0 <= w && Slot(slot, ec) == (if w >= MSG_COUNT then w - MSG_COUNT else w)
      {
        w := w - MSG_COUNT;
      }
      cmdqWptr := w;
      ghost var s := shm[..];
      Store(shm, cmdqOff + WRITEPTR_OFF, cmdqWptr, 4);
      HeaderApart(s, cmdqOff, slot, number, fn, req, cmdqWptr);
      StoredElsewhere(s0, s, cmdqOff + PAGE + slot * PAGE, ec * PAGE, cmdqOff + WRITEPTR_OFF, cmdqWptr);
      seqNo := (seqNo + 1) % TWO32;
    }

    /** One call.  The request goes out framed and checksummed at the write index, which moves past it;
        then the first message that answers `fn` is handed over if it lies in one piece and refused if
        not, and exactly the messages before it, and it if handed over, have been taken. */
    method Call(fn: u32, req: seq<u8>, out: array<u8>, timeoutUs: u32)
      returns (rc: int, replyLen: u32, result: u32, delays: nat, ghost k: nat)
      requires Valid() && cmdqWptr + ElemCount(|req|) <= MSG_COUNT && timeoutUs <= 4_294_967_000 && out != shm
      modifies this`queue, this`clock, this`posted, this`msgqRptr, this`taken, this`waits, this`readings, this`cmdqWptr,
               this`seqNo, shm, out
      ensures Valid() && old(posted) <= posted && rc in {0, -2, -3}
      ensures seqNo == (old(seqNo) + 1) % TWO32 && cmdqWptr == Slot(old(cmdqWptr), ElemCount(|req|))
              && Le32(shm[..], cmdqOff + 16) == cmdqWptr
      ensures Requested(shm[..], cmdqOff, old(cmdqWptr), old(seqNo), fn, req)
      ensures SameBut(old(shm[..]), shm[..], cmdqOff + PAGE + old(cmdqWptr) * PAGE, ElemCount(|req|) * PAGE,
                      cmdqOff + 16, 4)
      ensures rc != -2 ==> (k >= |old(posted)| <==> Skipped(old(posted), fn, old(taken), |old(posted)|))
      ensures waits == old(waits) + delays && Polled(readings, old(readings), old(waits), delays + 1)
              && delays * 1000 < (if timeoutUs == 0 then 4_000_000 else timeoutUs) + 1000
      ensures rc == -2 ==>
                taken == Shown(readings, 0) && Skipped(posted, fn, old(taken), taken)
                && delays * 1000 >= if timeoutUs == 0 then 4_000_000 else timeoutUs
      ensures rc != -2 ==>
                FirstMatch(posted, fn, old(taken), k) && k < Shown(readings, 0)
                && (delays > 0 ==> Shown(readings, 1) <= k)
      ensures rc != -2 ==>
                (rc == 0 <==> InOnePiece(start, posted, k)) && taken == if rc == 0 then k + 1 else k
      ensures rc == 0 ==> IsReply(fn, posted[k], out[..], old(out[..]), replyLen, result)
      ensures rc != 0 ==> out[..] == old(out[..])
    {
      hide Valid, FunctionOf, WellFormed, IsReply, ElemCount, Le32, Requested, SameBut, Slot, Skipped, FirstMatch,
           InOnePiece, Polled, Shown;
      ghost var before, from := posted, taken;
      Request(fn, req);
      rc, replyLen, result, delays, k := Receive(fn, out, Effective(timeoutUs));
      if rc != ERR_TIMEOUT { AnswerAge(before, posted, fn, from, k); }
    }
  }

  /** The slot where message `k` starts, counted from the first read index. */
  function Position(start: nat, ms: seq<Message>, k: nat): nat
    requires k <= |ms|
  {
    (start + |PagesOf(ms, 0, k)|) % MSG_COUNT
  }

  lemma PositionMoves(start: nat, ms: seq<Message>, k: nat)
    requires k < |ms| && |ms[k]| < MSG_COUNT
    ensures Position(start, ms, k + 1) == Slot(Position(start, ms, k), |ms[k]|)
  {
    NextSlot(start + |PagesOf(ms, 0, k)|, |ms[k]|);
  }

  lemma NextSlot(x: nat, n: nat)
    requires n < MSG_COUNT
    ensures (x + n) % MSG_COUNT == Slot(x % MSG_COUNT, n)
  {
  }

  lemma PositionStays(start: nat, ms: seq<Message>, ns: seq<Message>, k: nat)
    requires k <= |ms| && ms <= ns
    ensures Position(start, ns, k) == Position(start, ms, k)
  {
    PagesOfPrefix(ms, ns, 0, k);
  }

  lemma PostKeeps(q: Queue, m: Message)
    requires q.Ok() && WellFormed(m)
    ensures |m| < MSG_COUNT && q.Post(m).readPtr == q.readPtr
  {
  }

  lemma {:induction false} HeadFits(q: Queue, r: nat, ms: seq<Message>, taken: nat)
    requires taken < |ms| && q.Holds(r, PagesOf(ms, taken, |ms|))
    ensures |ms[taken]| < MSG_COUNT
  {
    PagesOfFirst(ms, taken, |ms|);
  }

  /** The reply handed to the caller: result, announced length, and as much of the payload as fits. */
  predicate IsReply(fn: u32, m: Message, out: seq<u8>, before: seq<u8>, replyLen: u32, result: u32) {
    && WellFormed(m) && Le32(m[0], 60) == fn && result == Le32(m[0], 64)
    && (var announced := Le32(m[0], 56); replyLen == if announced >= 32 then announced - 32 else 0)
    && |out| == |before|
    && var n := if replyLen < |out| then replyLen else |out|;
       IsPayload(out[..n], m) && out[n..] == before[n..]
  }

  lemma {:induction false} SeenLength(q: Queue, ms: seq<Message>, taken: nat, seen: nat, r: nat)
    requires taken <= seen <= |ms| && q.Holds(r, PagesOf(ms, taken, |ms|)) && forall k :: 0 <= k < |ms| ==>
               WellFormed(ms[k])
    ensures r == Slot(r, |PagesOf(ms, taken, seen)|) <==> taken == seen
  {
    hide WellFormed;
    PagesOfSplit(ms, taken, seen, |ms|);
    if taken < seen {
      PagesOfFirst(ms, taken, seen);
      assert |ms[taken]| > 0 by { NotEmpty(ms[taken]); }
    }
  }

  lemma NotEmpty(m: Message)
    requires WellFormed(m)
    ensures 0 < |m| < MSG_COUNT && |m[0]| == PAGE && CountOf(m[0]) == |m|
            && PayloadLength(m[0]) + PAYLOAD_OFF <= |m| * PAGE
  {
  }

  lemma SeenRest(q: Queue, ms: seq<Message>, taken: nat, seen: nat, r: nat)
    requires taken < seen <= |ms| && q.Holds(r, PagesOf(ms, taken, |ms|))
    ensures Slot(r, |PagesOf(ms, taken, seen)|) == Slot(Slot(r, |ms[taken]|), |PagesOf(ms, taken + 1, seen)|)
  {
    PagesOfSplit(ms, taken, seen, |ms|);
    PagesOfFirst(ms, taken, seen);
    SlotSum(r, |ms[taken]|, |PagesOf(ms, taken + 1, seen)|);
  }

  /** The request lies at its slot, complete. */
  predicate Requested(shm: seq<u8>, base: nat, slot: nat, seqNo: u32, fn: u32, req: seq<u8>) {
    var e0, total := base + PAGE + slot * PAGE, ElemCount(|req|) * PAGE;
    0 <= total && e0 + total <= |shm| && Framed(shm[e0..e0 + total], seqNo, fn, req)
    && Intact(shm[e0..e0 + total])
  }

  /** Byte for byte the same outside two ranges. */
  predicate SameBut(s: seq<u8>, t: seq<u8>, p: int, n: int, q: int, m: int) {
    |s| == |t| && forall i :: 0 <= i < |s| && !(p <= i < p + n) && !(q <= i < q + m) ==> t[i] == s[i]
  }

  lemma StoredElsewhere(s0: seq<u8>, s: seq<u8>, p: nat, n: nat, q: nat, v: u32)
    requires |s| == |s0| && p + n <= |s| && q + 4 <= |s| && s[..p] == s0[..p] && s[p + n..] == s0[p + n..]
    ensures SameBut(s0, Stored(s, q, v, 4), p, n, q, 4)
  {
    hide Stored, Le32;
    StoredFrame(s, q, v);
    forall i | 0 <= i < |s| && !(p <= i < p + n) ensures s[i] == s0[i] {
      if i < p { assert s[i] == s[..p][i]; } else { assert s[i] == s[p + n..][i - (p + n)]; }
    }
  }

  /** An answer was posted after the call began exactly if no message left unread by then matches. */
  lemma AnswerAge(before: seq<Message>, ms: seq<Message>, fn: u32, from: nat, k: nat)
    requires before <= ms && from <= |before| && FirstMatch(ms, fn, from, k)
    ensures k >= |before| <==> Skipped(before, fn, from, |before|)
  {
    hide FunctionOf;
    if k < |before| { assert before[k] == ms[k]; }
  }

  /** A late reply to a call that timed out answers the next call of the same function. */
  lemma LateReply(fn: u32)
    ensures var before := [Bare(fn, 1)];
            WellFormed(before[0]) && FirstMatch(before, fn, 0, 0) && !Skipped(before, fn, 0, |before|)
  {
    hide WellFormed, FunctionOf, Bare;
    BareIsWellFormed(fn, 1);
    NotEmpty(Bare(fn, 1));
  }

  lemma HeaderApart(s: seq<u8>, base: nat, slot: nat, seqNo: u32, fn: u32, req: seq<u8>, w: u32)
    requires base + QUEUE_SIZE <= |s| && Requested(s, base, slot, seqNo, fn, req)
    ensures Requested(Stored(s, base + WRITEPTR_OFF, w, 4), base, slot, seqNo, fn, req)
    ensures Le32(Stored(s, base + WRITEPTR_OFF, w, 4), base + WRITEPTR_OFF) == w
  {
    hide Framed, Intact, Stored, ElemCount;
    var e0, total := base + PAGE + slot * PAGE, ElemCount(|req|) * PAGE;
    StoredReads32(s, base + WRITEPTR_OFF, w);
    StoredKeeps(s, base + WRITEPTR_OFF, w, 4, e0, e0 + total);
  }

  /** The counter of waited microseconds after `n` steps, 32 bits wide. */
  function WaitedAfter(n: nat): u32 {
    if n == 0 then 0 else (WaitedAfter(n - 1) + POLL_STEP) % TWO32
  }

  lemma WaitedNext(n: nat)
    ensures WaitedAfter(0) == 0 && WaitedAfter(n + 1) == (WaitedAfter(n) + POLL_STEP) % TWO32
  {
  }

  lemma WaitedStep(n: nat, waited: u32, timeoutUs: u32)
    requires waited == WaitedAfter(n) == POLL_STEP * n && waited < timeoutUs <= LONGEST_TIMEOUT
    ensures (waited + POLL_STEP) % TWO32 == WaitedAfter(n + 1) == POLL_STEP * (n + 1) == waited + POLL_STEP
  {
    WaitedNext(n);
  }

  lemma {:induction false} WaitedWraps(n: nat)
    ensures WaitedAfter(n) == n * POLL_STEP % TWO32
  {
    if n > 0 {
      WaitedWraps(n - 1);
      WrapOnce((n - 1) * POLL_STEP);
    }
  }

  lemma WrapOnce(x: nat)
    ensures (x % TWO32 + POLL_STEP) % TWO32 == (x + POLL_STEP) % TWO32
  {
  }

  /** The counter reaches the timeout within the budget of polls exactly for timeouts up to the last
      multiple of the step. */
  lemma BudgetIsReached(timeoutUs: u32)
    ensures (exists n: nat ::
               n * POLL_STEP < timeoutUs + POLL_STEP && WaitedAfter(n) >= timeoutUs) <==> timeoutUs <= LONGEST_TIMEOUT
  {
    hide WaitedAfter;
    if timeoutUs <= LONGEST_TIMEOUT {
      var n := (timeoutUs + (POLL_STEP - 1)) / POLL_STEP;
      WaitedWraps(n);
      assert WaitedAfter(n) == n * POLL_STEP >= timeoutUs;
    } else {
      forall n: nat | n * POLL_STEP < timeoutUs + POLL_STEP ensures WaitedAfter(n) < timeoutUs {
        WaitedWraps(n);
        if n >= 4_294_968 { assert n == 4_294_968; }
      }
    }
  }

  /** Just above it, the counter goes from 4 294 967 000 to 704 without reaching the timeout. */
  lemma BudgetMissed()
    ensures WaitedAfter(4_294_967) == LONGEST_TIMEOUT && WaitedAfter(4_294_968) == 704
  {
    hide WaitedAfter;
    WaitedWraps(4_294_967);
    WaitedWraps(4_294_968);
  }

  /** An element cut into pages, as it travels. */
  function Cut(e: seq<u8>): (m: Message)
    requires |e| % PAGE == 0
    ensures |m| == |e| / PAGE && forall k :: 0 <= k < |m| ==> |m[k]| == PAGE
  {
    seq(|e| / PAGE, k requires 0 <= k < |e| / PAGE => e[k * PAGE..k * PAGE + PAGE])
  }

  /** Reader and writer agree on the format: an element as `Send` frames it, of less than a ringful, is a
      well-formed message, and reading it gives back function, length and payload. */
  lemma ReaderMatchesWriter(e: seq<u8>, seqNo: u32, fn: u32, payload: seq<u8>, out: seq<u8>)
    requires Framed(e, seqNo, fn, payload) && ElemCount(|payload|) < MSG_COUNT
    ensures |e| % PAGE == 0 && WellFormed(Cut(e)) && FunctionOf(Cut(e)[0]) == fn
            && PayloadLength(Cut(e)[0]) == |payload|
    ensures IsPayload(out, Cut(e)) && |out| <= |payload| ==> out == payload[..|out|]
  {
    hide ElemCount, Le;
    WholePages(ElemCount(|payload|));
    var m := Cut(e);
    assert m[0] == e[..PAGE];
    forall o: nat | o + 4 <= PAGE ensures Le32(m[0], o) == Le32(e, o) {
      assert m[0][o..o + 4] == e[o..o + 4];
    }
    if IsPayload(out, m) && |out| <= |payload| {
      forall i | 0 <= i < |out| ensures out[i] == payload[i] {
        PlaceInPage(PAYLOAD_OFF + i, |m|);
        CutByte(e, PAYLOAD_OFF + i);
        assert e[PAYLOAD_OFF..PAYLOAD_OFF + |payload|][i] == payload[i];
      }
    }
  }

  /** The result handed over is the one at offset 16 of the RPC header, whatever the private one next to it
      holds. */
  lemma ReplyResult(f: seq<u8>, v: u32, w: u32, fn: u32, out: seq<u8>, before: seq<u8>, replyLen: u32, result: u32)
    requires |f| >= PAGE && |f| % PAGE == 0
    requires IsReply(fn, Cut(Stored(Stored(f, 48 + 16, v, 4), 48 + 20, w, 4)), out, before, replyLen, result)
    ensures result == v
  {
    hide Stored, Le, IsPayload;
    var e := Stored(f, 48 + 16, v, 4);
    StoredFrame(f, 48 + 16, v);
    StoredFrame(e, 48 + 20, w);
    var g := Stored(e, 48 + 20, w, 4);
    FirstPageField(g, 64);
  }

  /** Header fields are read from the first page. */
  lemma FirstPageField(e: seq<u8>, o: nat)
    requires |e| >= PAGE && |e| % PAGE == 0 && o + 4 <= PAGE
    ensures Le32(Cut(e)[0], o) == Le32(e, o)
  {
    hide Le;
    assert Cut(e)[0] == e[..PAGE];
    assert Cut(e)[0][o..o + 4] == e[o..o + 4];
  }

  lemma WholePages(n: int)
    ensures n * PAGE % PAGE == 0 && n * PAGE / PAGE == n
  {
  }

  lemma CutByte(e: seq<u8>, x: nat)
    requires |e| % PAGE == 0 && x < |e|
    ensures x / PAGE < |Cut(e)| && Cut(e)[x / PAGE][x % PAGE] == e[x]
  {
  }

  /** A message of `n` pages without payload. */
  function Bare(fn: u32, n: nat): Message
    requires 0 < n < MSG_COUNT
  {
    [Stored(Stored(Zeros(PAGE), ELEMCOUNT_OFF, n, 4), FUNCTION_OFF, fn, 4)] + seq(n - 1, _ => Zeros(PAGE))
  }

  lemma BareIsWellFormed(fn: u32, n: nat)
    requires 0 < n < MSG_COUNT
    ensures WellFormed(Bare(fn, n)) && FunctionOf(Bare(fn, n)[0]) == fn && |Bare(fn, n)| == n
  {
    hide Stored, Le32;
    var z := Zeros(PAGE);
    ZeroField(PAGE, LENGTH_OFF);
    StoredFrame(z, ELEMCOUNT_OFF, n);
    StoredFrame(Stored(z, ELEMCOUNT_OFF, n, 4), FUNCTION_OFF, fn);
  }

  /** A reply that wraps: two pages after sixty-two, from slot 62. */
  lemma WrappingReply(event: u32, fn: u32)
    ensures var ms := [Bare(event, 62), Bare(fn, 2)];
            WellFormed(ms[0]) && WellFormed(ms[1]) && FunctionOf(ms[1][0]) == fn
            && Position(0, ms, 1) == 62 && Position(0, ms, 1) + |ms[1]| > MSG_COUNT
  {
    hide WellFormed, FunctionOf, Bare;
    BareIsWellFormed(event, 62);
    BareIsWellFormed(fn, 2);
    var ms := [Bare(event, 62), Bare(fn, 2)];
    assert PagesOf(ms, 0, 0) == [];
    assert PagesOf(ms, 0, 1) == ms[0];
  }
}
