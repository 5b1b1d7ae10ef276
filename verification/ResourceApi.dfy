/** What a client may rely on: the requests of the resource interface over an abstract map from handles
    to bytes, and what follows for whole sequences of them
    (driver/macos/MilcorixABI.h, lines 44-48; driver/macos/MilcorixUserClient.cpp, lines 268-296). */
module ResourceApi {
  import opened Words
  import opened Alignment
  import opened FrameBuffer
  import opened ResourceMap

  const MAX_XFER: u64 := 0x40_0000

  /** Where a transfer goes: an offset in the region (only before resource mode), or a range of a resource. */
  datatype Target = Raw(offset: u64) | Buffer(handle: u64, off: u64)

  /** How the caller's bytes travel: directly, or through a descriptor that is prepared, staged and may
      fail after `limit` bytes. */
  datatype Transfer = Direct | Chunked(prepared: bool, staging: bool, limit: nat)

  datatype Request =
    | Write(to: Target, data: seq<u8>, how: Transfer)
    | Read(from: Target, len: u64, how: Transfer)
    | CopyRaw(srcOffset: u64, dstOffset: u64, bytes: u64)
    | CopyBuffer(src: u64, srcOff: u64, dst: u64, dstOff: u64, bytes: u64)
    | Allocate(bytes: u64, alignment: u64, zeroPage: bool)
    | Release(handle: u64)
    | Query

  datatype Reply = Reply(st: Status, data: seq<u8>, handle: u64, size: u64)

  /** Resources, the next handle to be issued, and whether only handles are accepted. */
  datatype ClientView = ClientView(contents: Contents, next: int, managed: bool) {
    predicate Issued() { forall h :: h in contents ==> 1 <= h < next }
  }

  /** A range of a resource. */
  predicate InBounds(abs: Contents, h: int, off: int, n: int) {
    h in abs && 0 <= off && off + n <= |abs[h]|
  }

  /** One resource has `data` put in, all others are as before. */
  predicate Spliced(before: Contents, after: Contents, h: int, off: nat, data: seq<u8>) {
    InBounds(before, h, off, |data|) && after == before[h := Splice(before[h], off, data)]
  }

  ghost predicate SplicedSome(before: Contents, after: Contents, h: int, off: nat, n: nat) {
    exists junk: seq<u8> :: |junk| == n && Spliced(before, after, h, off, junk)
  }

  /** Both ranges exist, the size is within the transfer limit, and the ranges do not overlap. */
  predicate CopyAllowed(abs: Contents, src: int, srcOff: int, dst: int, dstOff: int, n: int) {
    && 0 < n <= 0x40_0000 && InBounds(abs, src, srcOff, n) && InBounds(abs, dst, dstOff, n)
    && !(src == dst && srcOff < dstOff + n && dstOff < srcOff + n)
  }

  /** The device as a request finds it: channel open, pool verified, size of the region. */
  datatype Device = Device(open: bool, verified: bool, size: int)

  /** A transfer of `n` bytes whose size and place are in order. */
  predicate Admitted(abs: Contents, t: Target, n: int) {
    && 0 < n <= 0x40_0000
    && match t
       case Raw(offset) => offset % 4 == 0
       case Buffer(h, off) => off % 4 == 0 && InBounds(abs, h, off, n)
  }

  /** How far the device carries it: to the end of the region, and nowhere once the channel is closed. */
  function Reach(t: Target, n: nat, d: Device): nat {
    if !d.open then 0
    else match t
      case Raw(offset) => if offset <= d.size then d.size - offset else 0
      case Buffer(_, _) => n
  }

  /** The whole chunks of 64 KiB in `n` bytes. */
  function Chunks(n: nat): nat { n / 0x1_0000 * 0x1_0000 }

  /** How a transfer ends that the device carries for `reach` bytes: a failure to prepare, to stage, or to
      get at the caller's bytes is told from a range that is out of reach.  A write fetches each chunk
      before storing it, a read delivers it after loading it. */
  function Outcome(how: Transfer, n: nat, reach: nat, write: bool): Status {
    match how
    case Direct => if n <= reach then Success else BadArgument
    case Chunked(prepared, staging, limit) =>
      if !prepared then VmError
      else if !staging then NoMemory
      else if n <= limit && n <= reach then Success
      else if limit < n && (if write then Chunks(limit) else Least(n, Chunks(limit) + 0x1_0000)) <= reach then VmError
      else BadArgument
  }

  function Least(x: nat, y: nat): nat { if x <= y then x else y }

  /** How many bytes of a write arrive: all, or the chunks before the first that fails. */
  function Carried(how: Transfer, n: nat, reach: nat): (k: nat)
    ensures k <= n
  {
    match how
    case Direct => if n <= reach then n else 0
    case Chunked(prepared, staging, limit) =>
      if !prepared || !staging then 0
      else if n <= limit && n <= reach then n
      else Chunks(Least(n, Least(limit, reach)))
  }

  /** The status of a write or read of `n` bytes. */
  function TransferStatus(abs: Contents, t: Target, n: nat, how: Transfer, d: Device, write: bool): Status {
    if Admitted(abs, t, n) then Outcome(how, n, Reach(t, n, d), write) else BadArgument
  }

  /** It succeeds exactly if size and place are in order, the channel is open, the range lies in the region
      and the descriptor holds out; lack of memory means a staging buffer that was not to be had; and a
      descriptor that fails is reported if all chunks before the one that it fails at are in reach, for a
      read that one too. */
  lemma TransferStatuses(abs: Contents, t: Target, n: nat, how: Transfer, d: Device, write: bool)
    ensures var st := TransferStatus(abs, t, n, how, d, write);
            && st in {Success, BadArgument, NoMemory, VmError}
            && (st == Success <==>
                  Admitted(abs, t, n) && InReach(t, n, d)
                  && (how.Chunked? ==> how.prepared && how.staging && n <= how.limit))
            && (st == NoMemory <==> Admitted(abs, t, n) && how.Chunked? && how.prepared && !how.staging)
            && (st == VmError <==>
                  Admitted(abs, t, n) && how.Chunked?
                  && (how.prepared ==> how.staging && how.limit < n
                                       && InReach(t, FailsAt(n, how.limit, write), d)))
  {
    hide Admitted, Chunks, FailsAt;
    if how.Chunked? {
      ChunksBound(how.limit);
      if how.limit < n { FirstFailure(n, how.limit, write); }
    }
  }

  /** The first `k` bytes of a transfer can be carried. */
  predicate InReach(t: Target, k: nat, d: Device) {
    k == 0 || (d.open && (t.Raw? ==> t.offset + k <= d.size))
  }

  /** What must be in reach for the descriptor to fail at byte `limit` first. */
  function FailsAt(n: nat, limit: nat, write: bool): nat {
    if write then limit - limit % 0x1_0000
    else if limit - limit % 0x1_0000 + 0x1_0000 <= n then limit - limit % 0x1_0000 + 0x1_0000 else n
  }

  lemma FirstFailure(n: nat, limit: nat, write: bool)
    requires limit < n
    ensures FailsAt(n, limit, write) == (if write then Chunks(limit) else Least(n, Chunks(limit) + 0x1_0000)) <= n
  {
    assert Chunks(limit) == limit - limit % 0x1_0000;
  }

  /** The same for a copy between offsets of the bare region. */
  predicate RawCopyAllowed(src: int, dst: int, n: int, size: int) {
    0 < n <= 0x40_0000 && src + n <= size && dst + n <= size && !(src < dst + n && dst < src + n)
  }

  /** How a request is answered.  A copy or allocation that is accepted can only fail by a timeout of the
      engine, which closes the channel; `room` says whether the pool has handle, slot and space left. */
  predicate Answered(a: ClientView, d: Device, room: bool, q: Request, st: Status) {
    match q
    case Write(to, data, how) =>
      (a.managed && to.Raw?) || st == TransferStatus(a.contents, to, |data|, how, d, true)
    case Read(from, len, how) =>
      (a.managed && from.Raw?) || st == TransferStatus(a.contents, from, len, how, d, false)
    case CopyRaw(src, dst, n) =>
      a.managed || (st in {Success, IoError, BadArgument}
                    && (st != BadArgument <==> d.open && RawCopyAllowed(src, dst, n, d.size)))
    case CopyBuffer(src, srcOff, dst, dstOff, n) =>
      && st in {Success, IoError, BadArgument}
      && (st != BadArgument <==> d.open && CopyAllowed(a.contents, src, srcOff, dst, dstOff, n))
    case Allocate(bytes, alignment, zeroPage) =>
      && (st == NotReady <==> !d.verified)
      && (st == BadArgument <==> d.verified && !SizeOk(bytes, alignment))
      && (st == NoMemory <==> d.verified && SizeOk(bytes, alignment) && !(room && zeroPage))
      && (st in {Success, IoError} <==> d.verified && SizeOk(bytes, alignment) && room && zeroPage)
    case Release(h) => st == if h in a.contents then Success else BadArgument
    case Query => st == Success
  }

  predicate SizeOk(bytes: u64, alignment: u64) {
    bytes != 0 && 0x1000 <= alignment && IsPow2(alignment) && bytes <= 0xffff_ffff_ffff_f000
  }

  predicate IsRaw(q: Request) {
    (q.Write? && q.to.Raw?) || (q.Read? && q.from.Raw?) || q.CopyRaw?
  }

  lemma ChunksBound(x: nat)
    ensures Chunks(x) <= x < Chunks(x) + 0x1_0000
  {
  }

  lemma ChunksAre(k: nat, x: nat)
    requires k % 0x1_0000 == 0 && k <= x < k + 0x1_0000
    ensures Chunks(x) == k
  {
  }

  /** The loop of a write stops at `done`, on a chunk that it cannot fetch or that does not fit. */
  lemma WriteStops(how: Transfer, n: nat, reach: nat, done: nat, chunk: nat)
    requires how.Chunked? && how.prepared && how.staging && done < n && done <= reach && done <= how.limit
    requires done % 0x1_0000 == 0 && chunk == Least(n - done, 0x1_0000)
    ensures done + chunk > how.limit ==> Outcome(how, n, reach, true) == VmError
    ensures done + chunk <= how.limit && done + chunk > reach ==> Outcome(how, n, reach, true) == BadArgument
    ensures done + chunk > how.limit || done + chunk > reach ==> Carried(how, n, reach) == done
  {
    hide Chunks;
    ChunksBound(how.limit);
    var x := Least(n, Least(how.limit, reach));
    if done <= x < done + 0x1_0000 { ChunksAre(done, x); }
    if how.limit < done + 0x1_0000 { ChunksAre(done, how.limit); } else { ChunksGrow(how.limit, done + 0x1_0000); }
  }

  lemma ChunksGrow(x: nat, k: nat)
    requires k <= x && k % 0x1_0000 == 0
    ensures k <= Chunks(x)
  {
  }

  /** The loop of a read stops at `done`, on a chunk that does not fit or that it cannot deliver. */
  lemma ReadStops(how: Transfer, n: nat, reach: nat, done: nat, chunk: nat)
    requires how.Chunked? && how.prepared && how.staging && done < n && done <= reach && done <= how.limit
    requires done % 0x1_0000 == 0 && chunk == Least(n - done, 0x1_0000)
    ensures done + chunk > reach ==> Outcome(how, n, reach, false) == BadArgument
    ensures done + chunk <= reach && done + chunk > how.limit ==> Outcome(how, n, reach, false) == VmError
  {
    hide Chunks;
    ChunksBound(how.limit);
    if how.limit < done + 0x1_0000 { ChunksAre(done, how.limit); } else { ChunksGrow(how.limit, done + 0x1_0000); }
  }

  /** More room than needed makes no difference. */
  lemma ReachEnough(how: Transfer, n: nat, reach: nat, write: bool)
    requires n <= reach
    ensures Outcome(how, n, reach, write) == Outcome(how, n, n, write)
    ensures Carried(how, n, reach) == Carried(how, n, n)
  {
    hide Chunks;
    if how.Chunked? && how.limit < n {
      ChunksBound(how.limit);
      assert Least(n, Least(how.limit, reach)) == Least(n, Least(how.limit, n));
    }
  }

  /** The reply of a write to a resource tells how much has arrived. */
  lemma ReplyTells(how: Transfer, n: nat, reach: nat)
    requires n > 0 && (reach == n || reach == 0)
    ensures Arrived(how, n, Outcome(how, n, reach, true)) == Carried(how, n, reach)
  {
    hide Chunks;
    if how.Chunked? {
      ChunksBound(how.limit);
      ChunksBound(0);
    }
  }

  /** How many bytes of a write of `n` to a resource have arrived, by its reply. */
  function Arrived(how: Transfer, n: nat, st: Status): (k: nat)
    ensures k <= n
  {
    if st == Success then n
    else if st == VmError && how.Chunked? && how.prepared && how.limit < n then Chunks(how.limit)
    else 0
  }

  /** A write that succeeds puts in all its data, one that breaks off the chunks that arrived. */
  ghost predicate WriteEffect(a: Contents, b: Contents, h: int, off: nat, data: seq<u8>, how: Transfer, st: Status) {
    var n := Arrived(how, |data|, st);
    && (st == Success ==> InBounds(a, h, off, |data|))
    && if n == 0 then b == a else Spliced(a, b, h, off, data[..n])
  }

  ghost predicate CopyEffect(a: Contents, b: Contents, src: int, srcOff: nat, dst: int, dstOff: nat, n: nat,
                             st: Status) {
    if st == Success then InBounds(a, src, srcOff, n) && Spliced(a, b, dst, dstOff, a[src][srcOff..srcOff + n])
    else if st == IoError then SplicedSome(a, b, dst, dstOff, n)
    else b == a
  }

  /** What one request may do, and what its reply says. */
  ghost predicate Effect(a: Contents, b: Contents, q: Request, r: Reply) {
    match q
    case Write(Buffer(h, off), data, how) => WriteEffect(a, b, h, off, data, how, r.st)
    case Read(Buffer(h, off), len, _) =>
      b == a && (r.st == Success ==> InBounds(a, h, off, len) && r.data == a[h][off..off + len])
    case CopyBuffer(src, srcOff, dst, dstOff, n) => CopyEffect(a, b, src, srcOff, dst, dstOff, n, r.st)
    case Allocate(bytes, _, _) =>
      if r.st == Success then bytes <= r.size && b == a[r.handle := Zeros(r.size)] else b == a
    case Release(h) => (r.st == Success <==> h in a) && b == a - {h}
    case _ => b == a
  }

  ghost predicate Step(a: ClientView, b: ClientView, q: Request, r: Reply) {
    && Effect(a.contents, b.contents, q, r)
    && (a.managed && IsRaw(q) ==> r.st == Unsupported) && (a.managed ==> b.managed)
    && (b.contents != map[] ==> b.managed)
    && a.next <= b.next && (q.Allocate? && r.st == Success ==> a.next == r.handle < b.next)
  }

  /** A sequence of requests served one after the other. */
  ghost predicate Session(s: seq<ClientView>, q: seq<Request>, r: seq<Reply>) {
    && |s| == |q| + 1 && |r| == |q| && s[0].Issued() && 1 <= s[0].next
    && forall i :: 0 <= i < |q| ==> Step(s[i], s[i + 1], q[i], r[i])
  }

  lemma SessionStarts(a: ClientView)
    requires a.Issued() && 1 <= a.next
    ensures Session([a], [], [])
  {
  }

  lemma SessionMore(s: seq<ClientView>, qs: seq<Request>, rs: seq<Reply>, b: ClientView, q: Request, r: Reply)
    requires Session(s, qs, rs) && Step(s[|qs|], b, q, r)
    ensures Session(s + [b], qs + [q], rs + [r])
  {
    hide Step;
    var t, us, vs := s + [b], qs + [q], rs + [r];
    forall i | 0 <= i < |us| ensures Step(t[i], t[i + 1], us[i], vs[i]) {
      if i < |qs| { assert Step(s[i], s[i + 1], qs[i], rs[i]); }
    }
  }

  /** Requests that can change or end resource `h`. */
  predicate Touches(q: Request, h: int) {
    match q
    case Write(Buffer(k, _), _, _) => k == h
    case CopyBuffer(_, _, dst, _, _) => dst == h
    case Release(k) => k == h
    case _ => false
  }

  /** A request changes no byte of a resource it does not name as target. */
  lemma OthersUntouched(a: ClientView, b: ClientView, q: Request, r: Reply, h: int)
    requires a.Issued() && Step(a, b, q, r) && h in a.contents && !Touches(q, h)
    ensures h in b.contents && b.contents[h] == a.contents[h]
  {
  }

  lemma StepKeepsIssued(a: ClientView, b: ClientView, q: Request, r: Reply)
    requires a.Issued() && 1 <= a.next && Step(a, b, q, r)
    ensures b.Issued() && 1 <= b.next
    ensures forall h :: h in b.contents && h !in a.contents ==> h >= a.next
  {
  }

  lemma {:induction false} SessionKeepsIssued(s: seq<ClientView>, q: seq<Request>, r: seq<Reply>, i: nat)
    requires Session(s, q, r) && i <= |q|
    ensures s[i].Issued() && 1 <= s[i].next
  {
    if i > 0 {
      SessionKeepsIssued(s, q, r, i - 1);
      StepKeepsIssued(s[i - 1], s[i], q[i - 1], r[i - 1]);
    }
  }

  /** Between two points of a session, a resource that no request names as target keeps every byte. */
  lemma {:induction false} UntouchedStays(s: seq<ClientView>, q: seq<Request>, r: seq<Reply>, i: nat, j: nat, h: int)
    requires Session(s, q, r) && i <= j <= |q| && h in s[i].contents
    requires forall k :: i <= k < j ==> !Touches(q[k], h)
    ensures h in s[j].contents && s[j].contents[h] == s[i].contents[h]
  {
    hide Step, Touches;
    if i < j {
      UntouchedStays(s, q, r, i, j - 1, h);
      SessionKeepsIssued(s, q, r, j - 1);
      OthersUntouched(s[j - 1], s[j], q[j - 1], r[j - 1], h);
    }
  }

  predicate Reads(q: Request, r: Reply, h: int, off: int, n: int) {
    q.Read? && q.from.Buffer? && q.from.handle == h && q.from.off == off && q.len == n && r.st == Success
  }

  /** A read returns the last bytes written, however many requests for other resources lie between. */
  lemma ReadAfterWrite(s: seq<ClientView>, q: seq<Request>, r: seq<Reply>, i: nat, j: nat, h: u64, off: u64)
    requires Session(s, q, r) && i < j < |q| && q[i].Write? && q[i].to == Buffer(h, off) && r[i].st == Success
    requires forall k :: i < k < j ==> !Touches(q[k], h)
    requires Reads(q[j], r[j], h, off, |q[i].data|)
    ensures r[j].data == q[i].data
  {
    hide Touches;
    assert Step(s[i], s[i + 1], q[i], r[i]) && Step(s[j], s[j + 1], q[j], r[j]);
    UntouchedStays(s, q, r, i + 1, j, h);
  }

  /** A read after a copy returns the source range as it was when the copy was requested. */
  lemma ReadAfterCopy(s: seq<ClientView>, q: seq<Request>, r: seq<Reply>, i: nat, j: nat)
    requires Session(s, q, r) && i < j < |q| && q[i].CopyBuffer? && r[i].st == Success
    requires forall k :: i < k < j ==> !Touches(q[k], q[i].dst)
    requires Reads(q[j], r[j], q[i].dst, q[i].dstOff, q[i].bytes)
    ensures q[i].src in s[i].contents && q[i].srcOff + q[i].bytes <= |s[i].contents[q[i].src]|
    ensures r[j].data == s[i].contents[q[i].src][q[i].srcOff..q[i].srcOff + q[i].bytes]
  {
    hide Touches;
    assert Step(s[i], s[i + 1], q[i], r[i]) && Step(s[j], s[j + 1], q[j], r[j]);
    UntouchedStays(s, q, r, i + 1, j, q[i].dst);
  }

  // ----- Byte by byte -----

  predicate Covers(off: int, n: int, x: int) { off <= x < off + n }

  /** Byte `x` of resource `h` may be `v` after `j` requests: what the last request that covers it put
      there.  A write or copy puts its own bytes, a write that broke off those that had arrived, an allocation
      zeros; a copy that timed out leaves it open. */
  predicate MayHold(s: seq<ClientView>, q: seq<Request>, r: seq<Reply>, h: int, x: int, j: nat, v: u8)
    requires |s| == |q| + 1 && |r| == |q| && j <= |q|
    decreases j
  {
    if j == 0 then h in s[0].contents && 0 <= x < |s[0].contents[h]| && v == s[0].contents[h][x]
    else
      var i := j - 1;
      match q[i]
      case Write(Buffer(k, off), data, how) =>
        if k == h && Covers(off, Arrived(how, |data|, r[i].st), x) then v == data[x - off]
        else MayHold(s, q, r, h, x, i, v)
      case CopyBuffer(src, srcOff, dst, dstOff, n) =>
        if dst == h && Covers(dstOff, n, x) && r[i].st in {Success, IoError} then
          r[i].st == IoError || MayHold(s, q, r, src, srcOff + (x - dstOff), i, v)
        else MayHold(s, q, r, h, x, i, v)
      case Allocate(_, _, _) => if r[i].st == Success && r[i].handle == h then v == 0 else MayHold(s, q, r, h, x, i, v)
      case _ => MayHold(s, q, r, h, x, i, v)
  }

  predicate HasByte(abs: Contents, h: int, x: int) { h in abs && 0 <= x < |abs[h]| }

  /** Where the bytes of a resource come from in one step. */
  lemma StepBytes(a: ClientView, b: ClientView, q: Request, r: Reply, h: int, x: int)
    requires a.Issued() && Step(a, b, q, r) && HasByte(b.contents, h, x)
    ensures var v := b.contents[h][x];
            match q
            case Write(Buffer(k, off), data, how) =>
              if k == h && Covers(off, Arrived(how, |data|, r.st), x) then v == data[x - off]
              else HasByte(a.contents, h, x) && v == a.contents[h][x]
            case CopyBuffer(src, srcOff, dst, dstOff, n) =>
              if dst == h && Covers(dstOff, n, x) && r.st in {Success, IoError}
              then r.st == IoError
              || (HasByte(a.contents, src, srcOff + (x - dstOff)) && v == a.contents[src][srcOff + (x - dstOff)])
              else HasByte(a.contents, h, x) && v == a.contents[h][x]
            case Allocate(_, _, _) =>
              if r.st == Success && r.handle == h then v == 0 else HasByte(a.contents, h, x) && v == a.contents[h][x]
            case _ => HasByte(a.contents, h, x) && v == a.contents[h][x]
  {
  }

  /** Every byte of every resource is what the last request covering it put there. */
  lemma {:induction false} ByteIsLast(s: seq<ClientView>, q: seq<Request>, r: seq<Reply>, h: int, x: int, j: nat)
    requires Session(s, q, r) && j <= |q| && HasByte(s[j].contents, h, x)
    ensures MayHold(s, q, r, h, x, j, s[j].contents[h][x])
    decreases j
  {
    hide Step, Covers, ClientView.Issued;
    if j > 0 {
      SessionKeepsIssued(s, q, r, j - 1);
      StepBytes(s[j - 1], s[j], q[j - 1], r[j - 1], h, x);
      if HasByte(s[j - 1].contents, h, x) { ByteIsLast(s, q, r, h, x, j - 1); }
      if q[j - 1].CopyBuffer? {
        var y := q[j - 1].srcOff + (x - q[j - 1].dstOff);
        if HasByte(s[j - 1].contents, q[j - 1].src, y) { ByteIsLast(s, q, r, q[j - 1].src, y, j - 1); }
      }
    }
  }

  /** No copy has timed out. */
  predicate Settled(q: seq<Request>, r: seq<Reply>, j: nat) {
    |r| == |q| && forall i :: 0 <= i < j <= |q| ==> !(q[i].CopyBuffer? && r[i].st == IoError)
  }

  /** Then there is only one value that a byte can have. */
  lemma {:induction false} OnlyOneValue(s: seq<ClientView>, q: seq<Request>, r: seq<Reply>, h: int, x: int, j: nat,
                                        v: u8, w: u8)
    requires |s| == |q| + 1 && j <= |q| && Settled(q, r, j)
    requires MayHold(s, q, r, h, x, j, v) && MayHold(s, q, r, h, x, j, w)
    ensures v == w
    decreases j
  {
    if j > 0 {
      var i := j - 1;
      if MayHold(s, q, r, h, x, i, v) && MayHold(s, q, r, h, x, i, w) { OnlyOneValue(s, q, r, h, x, i, v, w); }
      if q[i].CopyBuffer? {
        var y := q[i].srcOff + (x - q[i].dstOff);
        if MayHold(s, q, r, q[i].src, y, i, v) && MayHold(s, q, r, q[i].src, y, i, w) {
          OnlyOneValue(s, q, r, q[i].src, y, i, v, w);
        }
      }
    }
  }

  /** A read returns, for each byte, what the last write, copy or allocation covering it put there; and if
      no copy has timed out, nothing else would fit. */
  lemma {:induction false} ReadReturnsLast(s: seq<ClientView>, q: seq<Request>, r: seq<Reply>, j: nat, h: u64, off: u64,
                                           x: nat, y: nat)
    requires Session(s, q, r) && j < |q| && q[j].Read? && Reads(q[j], r[j], h, off, q[j].len) && x < q[j].len
             && y == off + x
    ensures x < |r[j].data| && MayHold(s, q, r, h, y, j, r[j].data[x])
    ensures Settled(q, r, j) ==> forall v: u8 :: MayHold(s, q, r, h, y, j, v) <==> v == r[j].data[x]
  {
    hide MayHold;
    assert Step(s[j], s[j + 1], q[j], r[j]);
    ByteIsLast(s, q, r, h, y, j);
    forall v: u8 | Settled(q, r, j) && MayHold(s, q, r, h, y, j, v) ensures v == r[j].data[x] {
      OnlyOneValue(s, q, r, h, y, j, v, r[j].data[x]);
    }
  }

  /** A fresh resource reads as zeros, whatever its memory held before. */
  lemma FreshReadsZero(s: seq<ClientView>, q: seq<Request>, r: seq<Reply>, i: nat, j: nat, off: u64)
    requires Session(s, q, r) && i < j < |q| && q[i].Allocate? && r[i].st == Success
    requires forall k :: i < k < j ==> !Touches(q[k], r[i].handle)
    requires q[j].Read? && Reads(q[j], r[j], r[i].handle, off, q[j].len)
    ensures |r[j].data| == q[j].len && forall k :: 0 <= k < |r[j].data| ==> r[j].data[k] == 0
  {
    hide Touches;
    assert Step(s[i], s[i + 1], q[i], r[i]) && Step(s[j], s[j + 1], q[j], r[j]);
    UntouchedStays(s, q, r, i + 1, j, r[i].handle);
  }

  lemma {:induction false} DeadStays(s: seq<ClientView>, q: seq<Request>, r: seq<Reply>, i: nat, j: nat, h: int)
    requires Session(s, q, r) && i <= j <= |q| && h < s[i].next && h !in s[i].contents
    ensures h < s[j].next && h !in s[j].contents
  {
    hide Effect;
    if i < j {
      DeadStays(s, q, r, i, j - 1, h);
      SessionKeepsIssued(s, q, r, j - 1);
      assert Step(s[j - 1], s[j], q[j - 1], r[j - 1]);
      StepKeepsIssued(s[j - 1], s[j], q[j - 1], r[j - 1]);
    }
  }

  /** Once released, a handle is dead for the rest of the session: it is not issued again, and reading,
      writing, copying or releasing through it never succeeds. */
  lemma ReleasedIsDead(s: seq<ClientView>, q: seq<Request>, r: seq<Reply>, i: nat, j: nat, h: u64)
    requires Session(s, q, r) && i < j < |q| && q[i] == Release(h) && r[i].st == Success
    ensures q[j].Allocate? && r[j].st == Success ==> r[j].handle != h
    ensures (q[j].Read? && q[j].from.Buffer? && q[j].from.handle == h) || Touches(q[j], h) ==> r[j].st != Success
    ensures q[j].CopyBuffer? && q[j].src == h ==> r[j].st != Success
  {
    SessionKeepsIssued(s, q, r, i);
    assert Step(s[i], s[i + 1], q[i], r[i]) && Step(s[j], s[j + 1], q[j], r[j]);
    DeadStays(s, q, r, i + 1, j, h);
  }

  /** Once a resource has existed, offsets into the bare region are refused for the rest of the session. */
  lemma {:induction false} ManagedStays(s: seq<ClientView>, q: seq<Request>, r: seq<Reply>, i: nat, j: nat)
    requires Session(s, q, r) && i < j < |q| && q[i].Allocate? && r[i].st == Success
    ensures s[j].managed && (IsRaw(q[j]) ==> r[j].st == Unsupported)
  {
    hide Effect, IsRaw;
    assert Step(s[j - 1], s[j], q[j - 1], r[j - 1]) && Step(s[j], s[j + 1], q[j], r[j]);
    if i + 1 < j {
      ManagedStays(s, q, r, i, j - 1);
    } else {
      NotEmpty(s[i].contents, s[j].contents, q[i], r[i]);
    }
  }

  lemma NotEmpty(a: Contents, b: Contents, q: Request, r: Reply)
    requires Effect(a, b, q, r) && q.Allocate? && r.st == Success
    ensures b != map[]
  {
    assert r.handle in b;
  }
}
