/** The three-level table that describes the firmware image to the GSP (driver/gsp/gsp_fw.c, lines 188-219). */
module Radix3 {
  import opened Words
  import opened LittleEndian

  const ENTRIES: int := 512

  const OK := 0
  const ERR_ARG := -1
  const ERR_CAP := -5

  datatype Levels = Levels(rc: int, n2: u32, l2Pages: u32)

  /** Entries of level 2 and pages of level 2, with the rounding sum in 64 bits. */
  function LevelsOf(size: u64): Levels {
    if size == 0 then Levels(ERR_ARG, 0, 0)
    else
      var pages := (size + (PAGE - 1)) % TWO64 / PAGE;
      var l2Pages := (pages * 8 + (PAGE - 1)) / PAGE;
      if l2Pages > ENTRIES then Levels(ERR_CAP, 0, 0) else Levels(OK, pages, l2Pages)
  }

  /** Accepted: up to 1 GiB, and by wrap-around the last page below 2^64. */
  lemma AcceptedSizes(size: u64)
    ensures LevelsOf(size).rc == 0 <==> 0 < size <= 0x4000_0000 || size > TWO64 - 0x1000
    ensures LevelsOf(size).rc == -1 <==> size == 0
    ensures LevelsOf(size).rc == -5 <==> 0x4000_0000 < size <= TWO64 - 0x1000
  {
  }

  /** An accepted size is covered by the table exactly when the rounding did not wrap. */
  lemma CoversExactly(size: u64)
    requires LevelsOf(size).rc == OK
    ensures var l := LevelsOf(size);
            (size <= l.n2 * PAGE < size + PAGE <==> size <= TWO64 - PAGE)
            && l.n2 * 8 <= l.l2Pages * PAGE < l.n2 * 8 + PAGE && l.l2Pages <= ENTRIES && l.n2 <= ENTRIES * ENTRIES
  {
  }

  lemma WrapAccepted()
    ensures LevelsOf(0xffff_ffff_ffff_ffff) == Levels(OK, 0, 0)
  {
  }

  /** The first `n` entries of `s` name consecutive pages from `dma`. */
  predicate Names(s: seq<u8>, n: nat, dma: u64) {
    |s| >= 8 * n && forall i :: 0 <= i < n ==> NamesAt(s, i, dma)
  }

  predicate NamesAt(s: seq<u8>, i: nat, dma: u64)
    requires |s| >= 8 * i + 8
  {
    Le64(s, 8 * i) == PageAddr(dma, i)
  }

  function PageAddr(dma: u64, i: nat): u64 { (dma + i * PAGE) % TWO64 }

  /** Fills one level. */
  method FillLevel(buf: array<u8>, n: nat, dma: u64)
    requires buf.Length >= 8 * n
    modifies buf
    ensures Names(buf[..], n, dma) && buf[8 * n..] == old(buf[8 * n..])
  {
    var i := 0;
    while i < n
      invariant i <= n && Names(buf[..], i, dma) && buf[8 * i..] == old(buf[8 * i..])
    {
      ghost var s := buf[..];
      Store(buf, 8 * i, PageAddr(dma, i), 8);
      NamesMore(s, i, dma);
      assert old(buf[8 * i..])[8..] == old(buf[8 * i + 8..]);
      i := i + 1;
    }
  }

  lemma NamesMore(s: seq<u8>, i: nat, dma: u64)
    requires Names(s, i, dma) && |s| >= 8 * i + 8
    ensures Names(Stored(s, 8 * i, PageAddr(dma, i), 8), i + 1, dma)
    ensures Stored(s, 8 * i, PageAddr(dma, i), 8)[8 * i + 8..] == s[8 * i + 8..]
  {
    hide PageAddr;
    var t := Stored(s, 8 * i, PageAddr(dma, i), 8);
    StoredReads64(s, 8 * i, PageAddr(dma, i));
    forall k | 0 <= k < i ensures NamesAt(t, k, dma) {
      assert NamesAt(s, k, dma);
      StoredKeeps(s, 8 * i, PageAddr(dma, i), 8, 8 * k, 8 * k + 8);
    }
  }

  /** All three levels, from the image size. */
  method Build(size: u64, lvl0: array<u8>, lvl1: array<u8>, lvl2: array<u8>, dmaImage: u64, dmaLvl2: u64, dmaLvl1: u64)
    returns (rc: int)
    requires lvl0 != lvl1 && lvl0 != lvl2 && lvl1 != lvl2
    requires var l := LevelsOf(size); l.rc == OK ==>
               lvl0.Length >= 8 && lvl1.Length >= 8 * l.l2Pages && lvl2.Length >= 8 * l.n2
    modifies lvl0, lvl1, lvl2
    ensures rc == LevelsOf(size).rc
    ensures rc != OK ==> lvl0[..] == old(lvl0[..]) && lvl1[..] == old(lvl1[..]) && lvl2[..] == old(lvl2[..])
    ensures rc == OK ==> var l := LevelsOf(size);
              Names(lvl0[..], 1, dmaLvl1) && Names(lvl1[..], l.l2Pages, dmaLvl2) && Names(lvl2[..], l.n2, dmaImage)
              && lvl0[8..] == old(lvl0[8..]) && lvl1[8 * l.l2Pages..] == old(lvl1[8 * l.l2Pages..])
              && lvl2[8 * l.n2..] == old(lvl2[8 * l.n2..])
    ensures rc == OK ==>
              forall page :: 0 <= page < LevelsOf(size).n2 ==>
                Reaches(lvl0[..], lvl1[..], lvl2[..], dmaLvl1, dmaLvl2, dmaImage, page)
  {
    hide Names, LevelsOf;
    var l := LevelsOf(size);
    if l.rc != OK { return l.rc; }
    FillLevel(lvl2, l.n2, dmaImage);
    FillLevel(lvl1, l.l2Pages, dmaLvl2);
    FillLevel(lvl0, 1, dmaLvl1);
    forall page | 0 <= page < l.n2 ensures Reaches(lvl0[..], lvl1[..], lvl2[..], dmaLvl1, dmaLvl2, dmaImage, page) {
      WalkReaches(lvl0[..], lvl1[..], lvl2[..], size, dmaLvl1, dmaLvl2, dmaImage, page);
    }
    rc := OK;
  }

  // ----- The walk of the reader -----

  datatype Found = Missing | At(value: u64)

  /** Eight bytes at a bus address, from a buffer that lies at `dma`. */
  function Fetch(s: seq<u8>, dma: u64, a: int): Found {
    if dma <= a && a - dma + 8 <= |s| then At(Le64(s, a - dma)) else Missing
  }

  /** Three table reads, one per nine-bit digit of the page number; each read finds its table by the
      address read before. */
  function Walk(lvl0: seq<u8>, lvl1: seq<u8>, lvl2: seq<u8>, dmaLvl1: u64, dmaLvl2: u64, page: nat): Found {
    var top := Fetch(lvl0, 0, 8 * (page / (ENTRIES * ENTRIES)));
    if top.Missing? then Missing
    else
      var mid := Fetch(lvl1, dmaLvl1, top.value + 8 * (page / ENTRIES % ENTRIES));
      if mid.Missing? then Missing else Fetch(lvl2, dmaLvl2, mid.value + 8 * (page % ENTRIES))
  }

  /** The page of the image, wherever level 2 ends below 2^64. */
  predicate Reaches(lvl0: seq<u8>, lvl1: seq<u8>, lvl2: seq<u8>, dmaLvl1: u64, dmaLvl2: u64, dmaImage: u64, page: nat) {
    dmaLvl2 + |lvl2| <= TWO64 ==> Walk(lvl0, lvl1, lvl2, dmaLvl1, dmaLvl2, page) == At((dmaImage + page * PAGE) % TWO64)
  }

  lemma WalkReaches(lvl0: seq<u8>, lvl1: seq<u8>, lvl2: seq<u8>, size: u64, dmaLvl1: u64, dmaLvl2: u64, dmaImage: u64,
                    page: nat)
    requires LevelsOf(size).rc == OK && page < LevelsOf(size).n2
    requires Names(lvl0, 1, dmaLvl1) && Names(lvl1, LevelsOf(size).l2Pages, dmaLvl2)
             && Names(lvl2, LevelsOf(size).n2, dmaImage)
    ensures Reaches(lvl0, lvl1, lvl2, dmaLvl1, dmaLvl2, dmaImage, page)
  {
    hide Le64, LevelsOf;
    CoversExactly(size);
    var hi, lo := page / ENTRIES, page % ENTRIES;
    DigitsOf(page);
    assert NamesAt(lvl0, 0, dmaLvl1);
    assert NamesAt(lvl1, hi, dmaLvl2);
    assert NamesAt(lvl2, page, dmaImage);
    if dmaLvl2 + |lvl2| <= TWO64 {
      assert PageAddr(dmaLvl2, hi) == dmaLvl2 + hi * PAGE;
    }
  }

  lemma DigitsOf(page: nat)
    requires page < ENTRIES * ENTRIES
    ensures page / (ENTRIES * ENTRIES) == 0 && page / ENTRIES % ENTRIES == page / ENTRIES
    ensures page == ENTRIES * (page / ENTRIES) + page % ENTRIES && 0 <= page % ENTRIES < ENTRIES
  {
  }
}
