/** Choosing a free range of video memory (driver/gsp/vram.c, lines 4-45). */
module VramRange {
  import opened Words
  import opened Alignment

  /** A half-open span of bytes. */
  datatype Span = Span(base: u64, size: u64) {
    function End(): int { base + size }

    predicate Valid() { size != 0 && size <= U64_MAX - base }

    /** Shares no byte with [c, c + bytes). */
    predicate Clear(c: int, bytes: int) { c + bytes <= base || End() <= c }
  }

  const NOTHING := Span(0, 0)

  predicate ArgumentsOk(available: seq<Span>, excluded: seq<Span>, bytes: u64, alignment: u64) {
    && available != [] && bytes != 0 && bytes % PAGE == 0 && AlignmentValid(alignment)
    && (forall i :: 0 <= i < |available| ==> available[i].Valid())
    && forall j :: 0 <= j < |excluded| ==> excluded[j].Valid()
  }

  /** A range at `c` lies in the span, is aligned, and meets no exclusion. */
  ghost predicate Placement(s: Span, excluded: seq<Span>, bytes: int, alignment: int, c: int)
    requires alignment > 0
  {
    && s.base <= c && c + bytes <= s.End() && Multiple(c, alignment)
    && forall j :: 0 <= j < |excluded| ==> excluded[j].Clear(c, bytes)
  }

  ghost predicate NoPlacement(s: Span, excluded: seq<Span>, bytes: int, alignment: int)
    requires alignment > 0
  {
    forall c :: !Placement(s, excluded, bytes, alignment, c)
  }

  /** The lowest placement in the first span that has one. */
  ghost predicate FirstFit(available: seq<Span>, excluded: seq<Span>, bytes: int, alignment: int, i: nat, c: int)
    requires alignment > 0 && i < |available|
  {
    && Placement(available[i], excluded, bytes, alignment, c)
    && (forall d :: Placement(available[i], excluded, bytes, alignment, d) ==> c <= d)
    && forall k :: 0 <= k < i ==> NoPlacement(available[k], excluded, bytes, alignment)
  }

  /** The accepted alignments are the powers of two from a page up. */
  lemma {:induction false} ValidIsPow2(alignment: u64)
    ensures AlignmentValid(alignment) <==> alignment >= 0x1000 && IsPow2(alignment)
    ensures AlignmentValid(alignment) ==> alignment > 0 && Multiple(alignment, PAGE)
  {
    if alignment > 0 { PowerTest(alignment); }
    PageIsPow2();
    if AlignmentValid(alignment) { Pow2Divides(alignment, PAGE); }
  }

  /** The furthest end among the exclusions that meet the candidate, or the candidate itself. */
  method PastObstacles(excluded: seq<Span>, candidate: u64, bytes: u64) returns (next: u64)
    requires candidate + bytes < TWO64 && 0 < bytes
    requires forall j :: 0 <= j < |excluded| ==> excluded[j].Valid()
    ensures candidate <= next
    ensures next == candidate <==> forall j :: 0 <= j < |excluded| ==> excluded[j].Clear(candidate, bytes)
    ensures next != candidate ==>
              exists j :: 0 <= j < |excluded| && !excluded[j].Clear(candidate, bytes) && excluded[j].End() == next
  {
    next := candidate;
    for j := 0 to |excluded|
      invariant candidate <= next
      invariant next == candidate <==> forall k :: 0 <= k < j ==> excluded[k].Clear(candidate, bytes)
      invariant next != candidate ==>
                  exists k :: 0 <= k < j && !excluded[k].Clear(candidate, bytes) && excluded[k].End() == next
    {
      var exEnd: u64 := excluded[j].base + excluded[j].size;
      if candidate < exEnd && excluded[j].base < candidate + bytes && exEnd > next {
        next := exEnd;
      }
    }
  }

  /** An obstacle that meets the candidate and ends at `next` rules out everything before `next`. */
  lemma ObstacleRulesOut(s: Span, excluded: seq<Span>, bytes: int, alignment: int, candidate: int, next: int, c: int)
    requires alignment > 0 && candidate <= c < next
    requires exists j :: 0 <= j < |excluded| && !excluded[j].Clear(candidate, bytes) && excluded[j].End() == next
    ensures !Placement(s, excluded, bytes, alignment, c)
  {
    var j :| 0 <= j < |excluded| && !excluded[j].Clear(candidate, bytes) && excluded[j].End() == next;
    assert !excluded[j].Clear(c, bytes);
  }

  /** Searches one span: the lowest placement, or none. */
  method SearchSpan(s: Span, excluded: seq<Span>, bytes: u64, alignment: u64) returns (found: bool, c: u64)
    requires s.Valid() && 0 < bytes && alignment > 0 && IsPow2(alignment)
    requires forall j :: 0 <= j < |excluded| ==> excluded[j].Valid()
    ensures found ==> Placement(s, excluded, bytes, alignment, c)
                      && forall d :: Placement(s, excluded, bytes, alignment, d) ==> c <= d
    ensures !found ==> NoPlacement(s, excluded, bytes, alignment)
  {
    hide IsPow2, Multiple;
    var end: u64 := s.base + s.size;
    c := 0;
    var first := AlignUp(s.base, alignment);
    if first.Overflow? { return false, 0; }
    var candidate := first.value;
    forall d | Placement(s, excluded, bytes, alignment, d) ensures candidate <= d {
      CeilingIsLeast(s.base, alignment, candidate, d);
    }
    while candidate <= end && bytes <= end - candidate
      invariant s.base <= candidate && Multiple(candidate, alignment)
      invariant forall d :: Placement(s, excluded, bytes, alignment, d) ==> candidate <= d
      decreases end - candidate
    {
      var next := PastObstacles(excluded, candidate, bytes);
      if next == candidate { return true, candidate; }
      forall d | Placement(s, excluded, bytes, alignment, d) ensures next <= d {
        if d < next { ObstacleRulesOut(s, excluded, bytes, alignment, candidate, next, d); }
      }
      var aligned := AlignUp(next, alignment);
      if aligned.Overflow? { return false, 0; }
      candidate := aligned.value;
      forall d | Placement(s, excluded, bytes, alignment, d) ensures candidate <= d {
        CeilingIsLeast(next, alignment, candidate, d);
      }
    }
    return false, 0;
  }

  method FindRange(available: seq<Span>, excluded: seq<Span>, bytes: u64, alignment: u64) returns (rc: int, out: Span)
    ensures rc in {0, -1, -2} && (rc == -1 <==> !ArgumentsOk(available, excluded, bytes, alignment))
    ensures rc != 0 ==> out == NOTHING
    ensures rc == 0 ==> alignment > 0 && out.size == bytes
                        && exists i ::
                             0 <= i < |available| && FirstFit(available, excluded, bytes, alignment, i, out.base)
    ensures rc == -2 ==> alignment > 0
                         && forall i :: 0 <= i < |available| ==> NoPlacement(available[i], excluded, bytes, alignment)
  {
    hide And, Placement, NoPlacement;
    out := NOTHING;
    if |available| == 0 || bytes == 0 || alignment < PAGE || And(alignment, alignment - 1) != 0
       || bytes % PAGE != 0 {
      return -1, out;
    }
    for i := 0 to |available|
      invariant forall k :: 0 <= k < i ==> available[k].Valid()
    {
      if available[i].size == 0 || available[i].size > U64_MAX - available[i].base { return -1, out; }
    }
    for j := 0 to |excluded|
      invariant forall k :: 0 <= k < j ==> excluded[k].Valid()
    {
      if excluded[j].size == 0 || excluded[j].size > U64_MAX - excluded[j].base { return -1, out; }
    }
    ValidIsPow2(alignment);
    for i := 0 to |available|
      invariant forall k :: 0 <= k < i ==> NoPlacement(available[k], excluded, bytes, alignment)
    {
      var found, c := SearchSpan(available[i], excluded, bytes, alignment);
      if found {
        assert FirstFit(available, excluded, bytes, alignment, i, c);
        return 0, Span(c, bytes);
      }
    }
    return -2, out;
  }
}
