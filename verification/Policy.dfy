/** What mm.c does to the block list: the rounding of requests, first fit, splitting, coalescing and
    heap growth, each as a function on block lists, with the laws the whole allocator rests on.
    `min` is the least block size: 16 for the implicit list, 24 for the explicit free list. */
module Policy {
  import opened Words
  import opened Blocks

  /** A successful operation gives the new list and the index of the block it is about. */
  datatype Grant = Denied | Granted(bs: seq<Block>, i: nat)

  // ---------------------------------------------------------------- request rounding

  /** asize in mm_malloc: computed in size_t, then stored in a uint32_t. */
  function AdjustedSize(size: uint64): uint32 {
    if size <= DSIZE then DSIZE + OVERHEAD
    else DSIZE * ((size + OVERHEAD + (DSIZE - 1)) % 0x1_0000_0000_0000_0000 / DSIZE) % 0x1_0000_0000
  }

  /** The largest request whose rounded size fits in the uint32_t. */
  const MAX_REQUEST: nat := 0xFFFF_FFF0

  lemma EightTimes(k: int)
    ensures 8 * k % 8 == 0
  {
  }

  lemma WholeBlocks(n: nat)
    requires n % 8 == 0
    ensures n % 0x1_0000_0000 % 8 == 0
  {
    var q := n / 0x1_0000_0000;
    assert n % 0x1_0000_0000 == 8 * (n / 8 - 0x2000_0000 * q);
    EightTimes(n / 8 - 0x2000_0000 * q);
  }

  lemma RoundsDown(n: nat)
    ensures n - 7 <= DSIZE * (n / DSIZE) <= n
  {
  }

  lemma RoundsSmall(size: uint64)
    requires DSIZE < size <= MAX_REQUEST
    ensures size + OVERHEAD <= AdjustedSize(size) < size + OVERHEAD + 8
  {
    RoundsDown(size + 15);
  }

  lemma RoundsLarge(size: uint64)
    requires size > MAX_REQUEST
    ensures AdjustedSize(size) + 16 <= size
  {
    if size < 0x1_0000_0008 {
      RoundsDown(size + 15);
    }
  }

  /** The rounded size covers the request and its two tags exactly up to MAX_REQUEST, and is then the
      least multiple of 8 that does. */
  lemma AdjustedSizeCovers(size: uint64)
    requires size > 0
    ensures AdjustedSize(size) % 8 == 0
    ensures size + OVERHEAD <= AdjustedSize(size) <==> size <= MAX_REQUEST
    ensures size <= MAX_REQUEST ==> AdjustedSize(size) < size + OVERHEAD + 8 && AdjustedSize(size) >= MINBLOCK
    ensures size > MAX_REQUEST ==> AdjustedSize(size) + 16 <= size
  {
    if size > DSIZE {
      var up := (size + OVERHEAD + (DSIZE - 1)) % 0x1_0000_0000_0000_0000 / DSIZE;
      EightTimes(up);
      WholeBlocks(DSIZE * up);
      if size <= MAX_REQUEST { RoundsSmall(size); } else { RoundsLarge(size); }
    }
  }

  /** Two requests past that bound: one is rounded to a block with no payload, one to no bytes at all. */
  lemma AdjustedSizeWraps()
    ensures AdjustedSize(0x1_0000_0000) == 8 && AdjustedSize(MAX_REQUEST + 1) == 0
  {
  }

  // ---------------------------------------------------------------- find_fit

  predicate Fits(b: Block, asize: nat) {
    !b.alloc && asize <= b.size
  }

  /** The lowest-addressed free block of at least asize bytes; |bs| exactly when there is none. */
  function FirstFit(bs: seq<Block>, asize: nat): (i: nat)
    ensures i <= |bs|
    ensures i < |bs| ==> Fits(bs[i], asize)
    ensures forall j :: 0 <= j < i ==> !Fits(bs[j], asize)
  {
    if bs == [] || Fits(bs[0], asize) then 0
    else 1 + FirstFit(bs[1..], asize)
  }

  // ---------------------------------------------------------------- place

  lemma OneBlock(bs: seq<Block>, i: nat)
    requires i < |bs|
    ensures bs[i..i + 1] == [bs[i]] && Sum(bs[i..i + 1]) == bs[i].size
    ensures Addr(bs, i + 1) == Addr(bs, i) + bs[i].size
  {
    AddrNext(bs, i);
    SumOne(bs[i]);
  }

  /** The blocks that replace a free block of csize bytes when asize of them are handed out. */
  function Split(csize: nat, asize: nat, min: nat): (mid: seq<Block>)
    requires asize <= csize
    ensures mid != [] && mid[0].alloc && asize <= mid[0].size && Sum(mid) == csize
  {
    if csize - asize >= min then
      SumTwo(Block(asize, true), Block(csize - asize, false));
      [Block(asize, true), Block(csize - asize, false)]
    else
      SumOne(Block(csize, true));
      [Block(csize, true)]
  }

  lemma TiledSplit(m: seq<byte>, a: nat, csize: nat, asize: nat, min: nat)
    requires asize <= csize
    ensures Tiled(m, a, Split(csize, asize, min))
         == if csize - asize >= min
            then Tagged(m, a, Block(asize, true)) && Tagged(m, a + asize, Block(csize - asize, false))
            else Tagged(m, a, Block(csize, true))
  {
    if csize - asize >= min {
      TiledTwo(m, a, Block(asize, true), Block(csize - asize, false));
    } else {
      TiledOne(m, a, Block(csize, true));
    }
  }

  function Place(bs: seq<Block>, i: nat, asize: nat, min: nat): seq<Block>
    requires i < |bs| && asize <= bs[i].size
  {
    Splice(bs, i, i + 1, Split(bs[i].size, asize, min))
  }

  /** Replacing block i by mid, of which only the first may be allocated, changes one live block. */
  lemma ReplaceOne(bs: seq<Block>, i: nat, mid: seq<Block>, q: nat)
    requires i < |bs| && Positive(bs) && Positive(mid) && Sum(mid) == bs[i].size
    requires mid != [] && forall j :: 0 < j < |mid| ==> !mid[j].alloc
    ensures SizeAt(Splice(bs, i, i + 1, mid), 8, q)
         == if q == Addr(bs, i) then (if mid[0].alloc then mid[0].size else 0) else SizeAt(bs, 8, q)
  {
    OneBlock(bs, i);
    SizeAtSplice(bs, i, i + 1, mid, q);
    if Addr(bs, i) < q < Addr(bs, i + 1) {
      SizeAtWithin(bs, i, i + 1, q);
      SizeAtFree([bs[i]][1..], Addr(bs, i) + bs[i].size, q);
      SizeAtFree(mid[1..], Addr(bs, i) + mid[0].size, q);
    }
  }

  /** A free block has no free neighbour, so a remainder left at its end has none either. */
  lemma PlaceCoalesced(bs: seq<Block>, i: nat, mid: seq<Block>)
    requires Coalesced(bs) && 0 < i < |bs| && !bs[i].alloc && 1 <= |mid| <= 2 && mid[0].alloc
    ensures Coalesced(Splice(bs, i, i + 1, mid))
    ensures Splice(bs, i, i + 1, mid)[i] == mid[0] && Splice(bs, i, i + 1, mid)[..i] == bs[..i]
  {
    SpliceIndex(bs, i, i + 1, mid);
    var cs := Splice(bs, i, i + 1, mid);
    assert Apart(bs, i) && (i + 1 < |bs| ==> Apart(bs, i + 1));
    forall j | 0 < j < |cs| ensures Apart(cs, j) {
      if j < i {
        assert Apart(bs, j);
      } else if j > i + |mid| {
        assert Apart(bs, j - |mid| + 1);
      }
    }
  }

  /** Whatever the rounded size, the heap keeps its length and the block handed out its place. */
  lemma PlaceShape(bs: seq<Block>, i: nat, asize: nat, min: nat)
    requires i < |bs| && asize <= bs[i].size
    ensures Sum(Place(bs, i, asize, min)) == Sum(bs)
    ensures i < |Place(bs, i, asize, min)| && Place(bs, i, asize, min)[i] == Split(bs[i].size, asize, min)[0]
    ensures Addr(Place(bs, i, asize, min), i) == Addr(bs, i)
  {
    var mid := Split(bs[i].size, asize, min);
    OneBlock(bs, i);
    SpliceSum(bs, i, i + 1, mid);
    SpliceIndex(bs, i, i + 1, mid);
    AddrPrefix(Place(bs, i, asize, min), bs, i);
  }

  lemma PlaceWellFormed(bs: seq<Block>, i: nat, asize: nat, min: nat)
    requires WellFormed(bs, min) && min >= 16 && 0 < i < |bs| && Fits(bs[i], asize)
    requires min <= asize && asize % 8 == 0
    ensures WellFormed(Place(bs, i, asize, min), min)
    ensures Sum(Place(bs, i, asize, min)) == Sum(bs)
    ensures Addr(Place(bs, i, asize, min), i) == Addr(bs, i)
    ensures i < |Place(bs, i, asize, min)| && Place(bs, i, asize, min)[i] == Split(bs[i].size, asize, min)[0]
  {
    var mid := Split(bs[i].size, asize, min);
    PlaceShape(bs, i, asize, min);
    SplitSized(bs[i].size, asize, min);
    SpliceFramed(bs, i, i + 1, mid, min);
    PlaceCoalesced(bs, i, mid);
  }

  lemma SplitSized(csize: nat, asize: nat, min: nat)
    requires min <= asize <= csize && asize % 8 == 0 && csize % 8 == 0
    ensures Sized(Split(csize, asize, min), min)
  {
  }

  /** Where the block handed out lies. */
  lemma PlaceRoom(bs: seq<Block>, i: nat, asize: nat, min: nat)
    requires WellFormed(bs, min) && min >= 16 && min % 8 == 0 && 0 < i < |bs| && Fits(bs[i], asize)
    requires asize % 8 == 0
    ensures var p, s := Addr(bs, i), Split(bs[i].size, asize, min)[0].size;
            && p !in Live(bs) && p >= 32 && p % 8 == 0 && p + s <= 8 + Sum(bs)
            && asize <= s <= asize + min - 8
  {
    AddrMod8(bs, min, i);
    AddrMonotone(bs, 0, i);
    AddrNext(bs, i);
    SumSplit(bs, i + 1);
    FreeNotLive(bs, i);
    SplitSlack(bs[i].size, asize, min);
  }

  lemma FreeNotLive(bs: seq<Block>, i: nat)
    requires Positive(bs) && i < |bs| && !bs[i].alloc
    ensures Addr(bs, i) !in Live(bs)
  {
    SizeAtIndex(bs, i);
  }

  lemma SplitSlack(csize: nat, asize: nat, min: nat)
    requires asize <= csize && asize % 8 == 0 && csize % 8 == 0 && min % 8 == 0 && min > 0
    ensures asize <= Split(csize, asize, min)[0].size <= csize
    ensures Split(csize, asize, min)[0].size <= asize + min - 8
  {
  }

  /** place hands out exactly one block: the bytes asked for, or up to min - 8 more when the rest is
      too small to stand alone. */
  lemma PlaceLive(bs: seq<Block>, i: nat, asize: nat, min: nat)
    requires WellFormed(bs, min) && min >= 16 && min % 8 == 0 && 0 < i < |bs| && Fits(bs[i], asize)
    requires min <= asize && asize % 8 == 0
    ensures var p, s := Addr(bs, i), Split(bs[i].size, asize, min)[0].size;
            && p !in Live(bs) && p >= 32 && p % 8 == 0 && p + s <= 8 + Sum(bs)
            && asize <= s <= asize + min - 8
            && Live(Place(bs, i, asize, min)) == Live(bs)[p := s]
  {
    PlaceRoom(bs, i, asize, min);
    OneBlock(bs, i);
    PlaceUpdates(bs, i, Split(bs[i].size, asize, min));
  }

  lemma PlaceUpdates(bs: seq<Block>, i: nat, mid: seq<Block>)
    requires Positive(bs) && 0 < i < |bs| && Positive(mid) && Sum(mid) == bs[i].size && Addr(bs, i) != 8
    requires 1 <= |mid| <= 2 && mid[0].alloc && forall j :: 0 < j < |mid| ==> !mid[j].alloc
    ensures Live(Splice(bs, i, i + 1, mid)) == Live(bs)[Addr(bs, i) := mid[0].size]
  {
    OneBlock(bs, i);
    var cs := Splice(bs, i, i + 1, mid);
    forall q: nat ensures SizeAt(cs, 8, q) == if q == Addr(bs, i) then mid[0].size else SizeAt(bs, 8, q) {
      ReplaceOne(bs, i, mid, q);
    }
    LiveUpdate(bs, cs, Addr(bs, i), mid[0].size);
  }

  // ---------------------------------------------------------------- coalesce

  function CoalesceLo(bs: seq<Block>, i: nat): (lo: nat)
    requires i < |bs|
    ensures lo <= i
  {
    if i > 0 && !bs[i - 1].alloc then i - 1 else i
  }

  function CoalesceHi(bs: seq<Block>, i: nat): (hi: nat)
    requires i < |bs|
    ensures i < hi <= |bs|
  {
    if i + 1 < |bs| && !bs[i + 1].alloc then i + 2 else i + 1
  }

  /** Block i and its free neighbours become one free block, at index CoalesceLo(bs, i). */
  function Coalesce(bs: seq<Block>, i: nat): (cs: seq<Block>)
    requires i < |bs|
  {
    var lo, hi := CoalesceLo(bs, i), CoalesceHi(bs, i);
    Splice(bs, lo, hi, [Block(Sum(bs[lo..hi]), false)])
  }

  lemma MergedSize(bs: seq<Block>, lo: nat, i: nat, hi: nat, min: nat)
    requires Sized(bs, min) && lo <= i < hi <= |bs|
    ensures Sum(bs[lo..hi]) % 8 == 0 && Sum(bs[lo..hi]) >= bs[i].size
  {
    SumMod8(bs[lo..hi], min);
    SumSplit(bs[lo..hi], i - lo);
    assert bs[lo..hi][i - lo..][0] == bs[i];
  }

  lemma MergedApart(bs: seq<Block>, i: nat, total: Block)
    requires CoalescedExcept(bs, i) && 0 < i < |bs| && bs[0].alloc
    ensures Coalesced(Splice(bs, CoalesceLo(bs, i), CoalesceHi(bs, i), [total]))
  {
    var lo, hi := CoalesceLo(bs, i), CoalesceHi(bs, i);
    var cs := Splice(bs, lo, hi, [total]);
    SpliceIndex(bs, lo, hi, [total]);
    assert i > 1 ==> Apart(bs, i - 1);
    assert i + 2 < |bs| ==> Apart(bs, i + 2);
    forall j | 0 < j < |cs| ensures Apart(cs, j) {
      if j < lo {
        assert Apart(bs, j);
      } else if j > lo + 1 {
        assert Apart(bs, j - 1 + hi - lo);
      }
    }
  }

  lemma CoalesceWellFormed(bs: seq<Block>, i: nat, min: nat)
    requires Framed(bs, min) && min > 0 && CoalescedExcept(bs, i) && 0 < i < |bs| && !bs[i].alloc
    ensures WellFormed(Coalesce(bs, i), min) && Sum(Coalesce(bs, i)) == Sum(bs)
    ensures var lo := CoalesceLo(bs, i);
            && 0 < lo < |Coalesce(bs, i)| && !Coalesce(bs, i)[lo].alloc && Coalesce(bs, i)[lo].size >= bs[i].size
            && Addr(Coalesce(bs, i), lo) == Addr(bs, lo)
  {
    var lo, hi := CoalesceLo(bs, i), CoalesceHi(bs, i);
    var total := Block(Sum(bs[lo..hi]), false);
    MergedSize(bs, lo, i, hi, min);
    SumOne(total);
    SpliceSum(bs, lo, hi, [total]);
    SpliceFramed(bs, lo, hi, [total], min);
    SpliceIndex(bs, lo, hi, [total]);
    MergedApart(bs, i, total);
    AddrPrefix(Coalesce(bs, i), bs, lo);
  }

  /** Coalescing hands out nothing and takes nothing back. */
  lemma CoalesceLive(bs: seq<Block>, i: nat, min: nat)
    requires Framed(bs, min) && min > 0 && CoalescedExcept(bs, i) && 0 < i < |bs| && !bs[i].alloc
    ensures Live(Coalesce(bs, i)) == Live(bs)
  {
    var lo, hi := CoalesceLo(bs, i), CoalesceHi(bs, i);
    var total := [Block(Sum(bs[lo..hi]), false)];
    CoalesceWellFormed(bs, i, min);
    MergedSize(bs, lo, i, hi, min);
    SumOne(total[0]);
    forall q: nat ensures SizeAt(Coalesce(bs, i), 8, q) == SizeAt(bs, 8, q) {
      SizeAtSplice(bs, lo, hi, total, q);
      if Addr(bs, lo) <= q < Addr(bs, hi) { SizeAtWithin(bs, lo, hi, q); }
      SizeAtFree(total, Addr(bs, lo), q);
      SizeAtFree(bs[lo..hi], Addr(bs, lo), q);
    }
    LiveSame(bs, Coalesce(bs, i));
  }

  // ---------------------------------------------------------------- mm_free

  /** The first two stores of mm_free: block i loses its alloc bit. */
  function MarkFree(bs: seq<Block>, i: nat): seq<Block>
    requires i < |bs|
  {
    Splice(bs, i, i + 1, [Block(bs[i].size, false)])
  }

  function Free(bs: seq<Block>, p: nat): seq<Block>
    requires p in Live(bs)
  {
    Coalesce(MarkFree(bs, IndexOf(bs, p)), IndexOf(bs, p))
  }

  lemma MarkFreeFramed(bs: seq<Block>, i: nat, min: nat)
    requires WellFormed(bs, min) && min > 0 && 0 < i < |bs| && bs[i].alloc
    ensures |MarkFree(bs, i)| == |bs| && MarkFree(bs, i)[i] == Block(bs[i].size, false)
    ensures forall j :: 0 <= j <= i ==> MarkFree(bs, i)[..j] == bs[..j]
    ensures Framed(MarkFree(bs, i), min) && CoalescedExcept(MarkFree(bs, i), i)
    ensures Sum(MarkFree(bs, i)) == Sum(bs)
    ensures Live(MarkFree(bs, i)) == Live(bs) - {Addr(bs, i)}
  {
    var mid := [Block(bs[i].size, false)];
    var cs := MarkFree(bs, i);
    OneBlock(bs, i);
    SumOne(mid[0]);
    SpliceSum(bs, i, i + 1, mid);
    SpliceFramed(bs, i, i + 1, mid, min);
    SpliceIndex(bs, i, i + 1, mid);
    forall j | 0 < j < |cs| && j != i && j - 1 != i ensures Apart(cs, j) {
      assert Apart(bs, j);
    }
    forall q: nat ensures SizeAt(cs, 8, q) == if q == Addr(bs, i) then 0 else SizeAt(bs, 8, q) {
      ReplaceOne(bs, i, mid, q);
    }
    LiveUpdate(bs, cs, Addr(bs, i), 0);
  }

  /** mm_free keeps the heap invariant and the heap size, and takes back the one block it is given. */
  lemma FreeLaw(bs: seq<Block>, p: nat, min: nat)
    requires WellFormed(bs, min) && min > 0 && p in Live(bs)
    ensures WellFormed(Free(bs, p), min)
    ensures Sum(Free(bs, p)) == Sum(bs)
    ensures Live(Free(bs, p)) == Live(bs) - {p}
  {
    var i := IndexOf(bs, p);
    assert i != 0;
    MarkFreeFramed(bs, i, min);
    CoalesceWellFormed(MarkFree(bs, i), i, min);
    CoalesceLive(MarkFree(bs, i), i, min);
  }

  // ---------------------------------------------------------------- extend_heap

  /** size in extend_heap: an even number of words, in a uint32_t, and at least FREEBLOCKSIZE. */
  function ExtendSize(words: nat): uint32 {
    var size := (if words % 2 == 1 then (words + 1) * WSIZE else words * WSIZE) % 0x1_0000_0000;
    if size < FREEBLOCKSIZE then FREEBLOCKSIZE else size
  }

  lemma EvenBytes(words: nat)
    ensures (if words % 2 == 1 then (words + 1) * WSIZE else words * WSIZE) % 8 == 0
  {
    var k := words / 2;
    if words % 2 == 1 {
      assert words == 2 * k + 1;
      EightTimes(k + 1);
    } else {
      assert words == 2 * k;
      EightTimes(k);
    }
  }

  lemma EvenWords(words: nat)
    ensures ExtendSize(words) % 8 == 0 && ExtendSize(words) >= FREEBLOCKSIZE
  {
    var bytes := if words % 2 == 1 then (words + 1) * WSIZE else words * WSIZE;
    EvenBytes(words);
    WholeBlocks(bytes);
  }

  /** The least multiple of 8 bytes, 24 at least, that holds the words. */
  lemma ExtendSizeMeans(words: nat)
    requires 4 * words + 4 < 0x1_0000_0000
    ensures ExtendSize(words) % 8 == 0 && ExtendSize(words) >= 24 && ExtendSize(words) >= 4 * words
    ensures ExtendSize(words) < 4 * words + 8 || ExtendSize(words) == 24
  {
    EvenWords(words);
  }

  /** mem_sbrk refuses a request that is negative as an int or passes the end of the arena. */
  predicate SbrkAllows(brk: nat, cap: nat, incr: int) {
    0 <= incr && brk + incr <= cap
  }

  /** A uint32_t passed where an int is expected. */
  function AsInt(u: uint32): int {
    if u < 0x8000_0000 then u else u - 0x1_0000_0000
  }

  function Extend(bs: seq<Block>, cap: nat, words: nat): Grant {
    var size := ExtendSize(words);
    if SbrkAllows(8 + Sum(bs), cap, AsInt(size)) then
      var grown := bs + [Block(size, false)];
      Granted(Coalesce(grown, |bs|), CoalesceLo(grown, |bs|))
    else Denied
  }

  lemma GrownFramed(bs: seq<Block>, size: nat, min: nat)
    requires WellFormed(bs, min) && min > 0 && size >= min && size % 8 == 0
    ensures var cs := bs + [Block(size, false)];
            Framed(cs, min) && CoalescedExcept(cs, |bs|) && Sum(cs) == Sum(bs) + size && Live(cs) == Live(bs)
  {
    var cs := bs + [Block(size, false)];
    SumAppend(bs, [Block(size, false)]);
    SumOne(Block(size, false));
    assert forall j :: 0 <= j < |bs| ==> cs[j] == bs[j];
    forall j | 0 < j < |bs| ensures Apart(cs, j) {
      assert Apart(bs, j);
    }
    GrownLive(bs, size);
  }

  lemma GrownLive(bs: seq<Block>, size: nat)
    requires Positive(bs)
    ensures Live(bs + [Block(size, false)]) == Live(bs)
  {
    var cs := bs + [Block(size, false)];
    forall q: nat ensures SizeAt(cs, 8, q) == SizeAt(bs, 8, q) {
      SizeAtAppend(bs, [Block(size, false)], 8, q);
      SizeAtFree([Block(size, false)], 8 + Sum(bs), q);
      if SizeAt(bs, 8, q) > 0 {
        SizeAtBounds(bs, 8, q);
      }
    }
    LiveSame(bs, cs);
  }

  lemma ExtendLaw(bs: seq<Block>, cap: nat, words: nat, min: nat)
    requires WellFormed(bs, min) && 0 < min <= FREEBLOCKSIZE
    ensures match Extend(bs, cap, words)
            case Denied => !SbrkAllows(8 + Sum(bs), cap, AsInt(ExtendSize(words)))
            case Granted(cs, i) =>
              && WellFormed(cs, min) && Sum(cs) == Sum(bs) + ExtendSize(words) && 8 + Sum(cs) <= cap
              && Live(cs) == Live(bs)
              && 0 < i < |cs| && Fits(cs[i], ExtendSize(words))
  {
    EvenWords(words);
    if SbrkAllows(8 + Sum(bs), cap, AsInt(ExtendSize(words))) {
      GrownCoalesces(bs, ExtendSize(words), min);
    }
  }

  lemma GrownCoalesces(bs: seq<Block>, size: nat, min: nat)
    requires WellFormed(bs, min) && 0 < min <= size && size % 8 == 0
    ensures var grown := bs + [Block(size, false)];
            var cs := Coalesce(grown, |bs|);
            && WellFormed(cs, min) && Sum(cs) == Sum(bs) + size && Live(cs) == Live(bs)
            && 0 < CoalesceLo(grown, |bs|) < |cs| && Fits(cs[CoalesceLo(grown, |bs|)], size)
  {
    var grown := bs + [Block(size, false)];
    GrownFramed(bs, size, min);
    CoalesceWellFormed(grown, |bs|, min);
    CoalesceLive(grown, |bs|, min);
  }

  // ---------------------------------------------------------------- mm_malloc

  /** MAX(asize, CHUNKSIZE) */
  function GrowBytes(asize: uint32): nat {
    if asize > CHUNKSIZE then asize else CHUNKSIZE
  }

  /** Words asked of extend_heap when nothing fits. */
  function GrowWords(asize: uint32): nat {
    GrowBytes(asize) / WSIZE
  }

  lemma GrowSuffices(asize: uint32)
    requires asize % 8 == 0
    ensures ExtendSize(GrowWords(asize)) == GrowBytes(asize)
  {
  }

  ghost function Malloc(bs: seq<Block>, cap: nat, size: uint64): (g: Grant)
    requires WellFormed(bs, MINBLOCK)
  {
    if size == 0 then Denied
    else
      var asize := AdjustedSize(size);
      AdjustedSizeCovers(size);
      var i := FirstFit(bs, asize);
      if i < |bs| then Granted(Place(bs, i, asize, MINBLOCK), i)
      else
        ExtendLaw(bs, cap, GrowWords(asize), MINBLOCK);
        GrowSuffices(asize);
        match Extend(bs, cap, GrowWords(asize))
        case Denied => Denied
        case Granted(cs, j) => Granted(Place(cs, j, asize, MINBLOCK), j)
  }

  /** What placing does for mm_malloc, by the rounded size. */
  lemma PlaceGrants(bs: seq<Block>, i: nat, asize: nat)
    requires WellFormed(bs, MINBLOCK) && 0 < i < |bs| && Fits(bs[i], asize) && asize % 8 == 0
    ensures var cs := Place(bs, i, asize, MINBLOCK);
            && Sum(cs) == Sum(bs) && i < |cs| && cs[i].alloc && asize <= cs[i].size <= asize + 8
            && Addr(cs, i) == Addr(bs, i) && Addr(cs, i) % 8 == 0 && 32 <= Addr(cs, i) && Addr(cs, i) !in Live(bs)
            && Addr(cs, i) + cs[i].size <= 8 + Sum(cs)
            && (asize >= MINBLOCK ==> WellFormed(cs, MINBLOCK) && Live(cs) == Live(bs)[Addr(cs, i) := cs[i].size])
  {
    PlaceShape(bs, i, asize, MINBLOCK);
    PlaceRoom(bs, i, asize, MINBLOCK);
    if asize >= MINBLOCK {
      PlaceWellFormed(bs, i, asize, MINBLOCK);
      PlaceLive(bs, i, asize, MINBLOCK);
    }
  }

  /** Bytes by which serving a request grows the heap: none when a free block holds it. */
  function Growth(bs: seq<Block>, asize: uint32): nat {
    if FirstFit(bs, asize) < |bs| then 0 else GrowBytes(asize)
  }

  lemma GrowthMeans(bs: seq<Block>, asize: uint32)
    ensures (exists j :: 0 <= j < |bs| && !bs[j].alloc && bs[j].size >= asize) ==> Growth(bs, asize) == 0
    ensures (forall j :: 0 <= j < |bs| && !bs[j].alloc ==> bs[j].size < asize) ==>
              Growth(bs, asize) == if asize > 0x1_0000 then asize else 0x1_0000
  {
    var i := FirstFit(bs, asize);
    if j :| 0 <= j < |bs| && !bs[j].alloc && bs[j].size >= asize { assert Fits(bs[j], asize); }
    if i < |bs| { assert Fits(bs[i], asize); }
  }

  /** Which block mm_malloc grants, and from where: the lowest-addressed free block that holds the rounded size,
      or, when there is none, the end of the heap, grown by the larger of the rounded size and 65536 bytes and
      merged with a free block there. */
  lemma MallocServes(bs: seq<Block>, cap: nat, size: uint64)
    requires WellFormed(bs, MINBLOCK) && Malloc(bs, cap, size).Granted?
    ensures Malloc(bs, cap, size).i < |Malloc(bs, cap, size).bs|
    ensures var g, asize := Malloc(bs, cap, size), AdjustedSize(size);
            (exists j :: 0 <= j < |bs| && !bs[j].alloc && bs[j].size >= asize) ==>
                 && g.i < |bs| && !bs[g.i].alloc && bs[g.i].size >= asize
                 && (forall j :: 0 <= j < g.i ==> bs[j].alloc || bs[j].size < asize)
                 && Addr(g.bs, g.i) == Addr(bs, g.i) && Sum(g.bs) == Sum(bs)
    ensures var g, asize := Malloc(bs, cap, size), AdjustedSize(size);
            (forall j :: 0 <= j < |bs| && !bs[j].alloc ==> bs[j].size < asize) ==>
              && Sum(g.bs) == Sum(bs) + (if asize > 0x1_0000 then asize else 0x1_0000)
              && var last := bs[|bs| - 1];
                 Addr(g.bs, g.i) == 8 + Sum(bs) - if last.alloc then 0 else last.size
  {
    var g, asize := Malloc(bs, cap, size), AdjustedSize(size);
    AdjustedSizeCovers(size);
    MallocLaw(bs, cap, size);
    GrowthMeans(bs, asize);
    var i := FirstFit(bs, asize);
    if i < |bs| {
      assert Fits(bs[i], asize);
      PlaceShape(bs, i, asize, MINBLOCK);
      forall j | 0 <= j < i ensures bs[j].alloc || bs[j].size < asize { assert !Fits(bs[j], asize); }
    } else {
      forall j | 0 <= j < |bs| ensures bs[j].alloc || bs[j].size < asize { assert !Fits(bs[j], asize); }
      GrownAt(bs, cap, asize);
      var e := Extend(bs, cap, GrowWords(asize));
      PlaceShape(e.bs, e.i, asize, MINBLOCK);
    }
  }

  /** Where extend_heap puts its block. */
  lemma GrownAt(bs: seq<Block>, cap: nat, asize: uint32)
    requires WellFormed(bs, MINBLOCK) && asize % 8 == 0 && Extend(bs, cap, GrowWords(asize)).Granted?
    ensures var e := Extend(bs, cap, GrowWords(asize));
            && e.i < |e.bs| && Fits(e.bs[e.i], asize)
            && Addr(e.bs, e.i) == 8 + Sum(bs) - if bs[|bs| - 1].alloc then 0 else bs[|bs| - 1].size
  {
    ExtendLaw(bs, cap, GrowWords(asize), MINBLOCK);
    GrowSuffices(asize);
    var size := ExtendSize(GrowWords(asize));
    var grown := bs + [Block(size, false)];
    var lo := CoalesceLo(grown, |bs|);
    EvenWords(GrowWords(asize));
    GrownFramed(bs, size, MINBLOCK);
    CoalesceWellFormed(grown, |bs|, MINBLOCK);
    AddrPrefix(grown, bs, lo);
    AddrLast(bs);
    if lo < |bs| { AddrNext(bs, lo); }
  }

  /** What every mm_malloc call does to the heap, for every request. The block granted covers the request
      exactly up to MAX_REQUEST; the heap stays well formed, with one more live block, whenever the rounded
      size is that of a block. */
  lemma MallocLaw(bs: seq<Block>, cap: nat, size: uint64)
    requires WellFormed(bs, MINBLOCK)
    ensures match Malloc(bs, cap, size)
            case Denied =>
              || size == 0
              || (&& (forall i :: 0 <= i < |bs| ==> !Fits(bs[i], AdjustedSize(size)))
                  && !SbrkAllows(8 + Sum(bs), cap, AsInt(ExtendSize(GrowWords(AdjustedSize(size))))))
            case Granted(cs, i) =>
              && size > 0 && Sum(cs) == Sum(bs) + Growth(bs, AdjustedSize(size))
              && (8 + Sum(bs) <= cap ==> 8 + Sum(cs) <= cap)
              && 0 < i < |cs| && Addr(cs, i) % 8 == 0 && 32 <= Addr(cs, i) && Addr(cs, i) !in Live(bs)
              && cs[i].alloc && Addr(cs, i) + cs[i].size <= 8 + Sum(cs)
              && (size + OVERHEAD <= cs[i].size <==> size <= MAX_REQUEST)
              && (size <= MAX_REQUEST ==> AdjustedSize(size) >= MINBLOCK && cs[i].size <= size + 23)
              && (AdjustedSize(size) >= MINBLOCK ==>
                    WellFormed(cs, MINBLOCK) && Live(cs) == Live(bs)[Addr(cs, i) := cs[i].size])
  {
    if size > 0 {
      var asize := AdjustedSize(size);
      AdjustedSizeCovers(size);
      var i := FirstFit(bs, asize);
      if i < |bs| {
        PlaceGrants(bs, i, asize);
      } else {
        ExtendLaw(bs, cap, GrowWords(asize), MINBLOCK);
        GrowSuffices(asize);
        match Extend(bs, cap, GrowWords(asize))
        case Denied =>
        case Granted(cs, j) => PlaceGrants(cs, j, asize);
      }
    }
  }

  lemma PlaceKeepsIff(bs: seq<Block>, i: nat, asize: nat)
    requires WellFormed(bs, MINBLOCK) && 0 < i < |bs| && Fits(bs[i], asize) && asize % 8 == 0
    ensures WellFormed(Place(bs, i, asize, MINBLOCK), MINBLOCK) <==> asize >= MINBLOCK || bs[i].size < asize + MINBLOCK
  {
    PlaceShape(bs, i, asize, MINBLOCK);
    if asize >= MINBLOCK {
      PlaceWellFormed(bs, i, asize, MINBLOCK);
    } else if bs[i].size < asize + MINBLOCK {
      assert Place(bs, i, asize, MINBLOCK) == Place(bs, i, bs[i].size, MINBLOCK);
      PlaceWellFormed(bs, i, bs[i].size, MINBLOCK);
    } else {
      assert Place(bs, i, asize, MINBLOCK)[i].size < MINBLOCK;
    }
  }

  /** A granted request leaves the heap well formed exactly when its rounded size is that of a block, or the
      first free block is so small that it is handed out whole. */
  lemma MallocKeepsIff(bs: seq<Block>, cap: nat, size: uint64)
    requires WellFormed(bs, MINBLOCK) && Malloc(bs, cap, size).Granted?
    ensures var asize := AdjustedSize(size);
            var i := FirstFit(bs, asize);
            WellFormed(Malloc(bs, cap, size).bs, MINBLOCK)
            <==> asize >= MINBLOCK || (i < |bs| && bs[i].size < asize + MINBLOCK)
  {
    var asize := AdjustedSize(size);
    AdjustedSizeCovers(size);
    var i := FirstFit(bs, asize);
    if i < |bs| {
      PlaceKeepsIff(bs, i, asize);
    } else {
      ExtendLaw(bs, cap, GrowWords(asize), MINBLOCK);
      GrowSuffices(asize);
      var g := Extend(bs, cap, GrowWords(asize));
      PlaceKeepsIff(g.bs, g.i, asize);
    }
  }

  /** On the initial heap a request of 2^32 bytes is granted: with a block of its two tags alone. */
  lemma HugeRequest(cap: nat)
    ensures WellFormed(INITIAL, MINBLOCK)
    ensures Malloc(INITIAL, cap, 0x1_0000_0000)
         == Granted([PROLOGUE, Block(8, true), Block(CHUNKSIZE - 8, false)], 1)
  {
    InitialLaw(cap);
    AdjustedSizeWraps();
    assert FirstFit(INITIAL[1..], 8) == 0;
    assert FirstFit(INITIAL, 8) == 1;
    assert Split(CHUNKSIZE, 8, MINBLOCK) == [Block(8, true), Block(CHUNKSIZE - 8, false)];
    assert Place(INITIAL, 1, 8, MINBLOCK) == [PROLOGUE, Block(8, true), Block(CHUNKSIZE - 8, false)];
  }

  /** mm_malloc returns NULL exactly for size 0, or when every free block is too small and the larger of the
      rounded size and 65536 bytes is negative as an int or passes the end of the arena. */
  lemma DeniedIff(bs: seq<Block>, cap: nat, size: uint64)
    requires WellFormed(bs, MINBLOCK)
    ensures Malloc(bs, cap, size).Denied?
       <==> size == 0
            || (&& (forall i :: 0 <= i < |bs| && !bs[i].alloc ==> bs[i].size < AdjustedSize(size))
                && var want := if AdjustedSize(size) > 0x1_0000 then AdjustedSize(size) else 0x1_0000;
                   want >= 0x8000_0000 || 8 + Sum(bs) + want > cap)
  {
    if size > 0 {
      var asize := AdjustedSize(size);
      AdjustedSizeCovers(size);
      GrowSuffices(asize);
      MallocServed(bs, cap, size, asize);
      NoneFree(bs, asize);
    }
  }

  lemma NoneFree(bs: seq<Block>, asize: nat)
    ensures FirstFit(bs, asize) == |bs| <==> forall i :: 0 <= i < |bs| && !bs[i].alloc ==> bs[i].size < asize
  {
    var i := FirstFit(bs, asize);
    assert i < |bs| ==> Fits(bs[i], asize);
    if i == |bs| {
      forall j | 0 <= j < |bs| && !bs[j].alloc ensures bs[j].size < asize { assert !Fits(bs[j], asize); }
    }
  }

  lemma MallocServed(bs: seq<Block>, cap: nat, size: uint64, asize: uint32)
    requires WellFormed(bs, MINBLOCK) && size > 0 && asize == AdjustedSize(size)
    ensures Malloc(bs, cap, size).Granted?
       <==> FirstFit(bs, asize) < |bs| || SbrkAllows(8 + Sum(bs), cap, AsInt(ExtendSize(GrowWords(asize))))
  {
  }

  // ---------------------------------------------------------------- the size of the block granted

  /** The size of the block that growing the heap by so many bytes puts at its end. */
  function LastGrown(bs: seq<Block>, bytes: nat): nat
    requires bs != []
  {
    bytes + if bs[|bs| - 1].alloc then 0 else bs[|bs| - 1].size
  }

  /** The size of the free block a request is served from: the first that fits, or the last after growing. */
  function Source(bs: seq<Block>, asize: uint32): nat
    requires bs != []
  {
    var i := FirstFit(bs, asize);
    if i < |bs| then bs[i].size else LastGrown(bs, GrowBytes(asize))
  }

  /** What is handed out of a free block of so many bytes. */
  function Handed(source: nat, asize: nat, min: nat): nat {
    if source < asize + min then source else asize
  }

  lemma SplitHands(csize: nat, asize: nat, min: nat)
    requires asize <= csize
    ensures Split(csize, asize, min)[0].size == Handed(csize, asize, min)
  {
  }

  lemma GrownLast(bs: seq<Block>, size: nat)
    requires bs != []
    ensures var grown := bs + [Block(size, false)];
            var lo := CoalesceLo(grown, |bs|);
            lo < |Coalesce(grown, |bs|)| && Coalesce(grown, |bs|)[lo].size == LastGrown(bs, size)
  {
    var grown := bs + [Block(size, false)];
    var lo := CoalesceLo(grown, |bs|);
    var mid := [Block(Sum(grown[lo..]), false)];
    assert grown[..|grown|] == grown;
    SpliceIndex(grown, lo, |grown|, mid);
    if lo < |bs| {
      assert grown[lo..] == [bs[lo], Block(size, false)];
      SumTwo(bs[lo], Block(size, false));
    } else {
      assert grown[lo..] == [Block(size, false)];
      SumOne(Block(size, false));
    }
    assert Coalesce(grown, |bs|)[lo] == mid[0];
  }

  /** The size of the block mm_malloc grants, told from the heap before the call. */
  lemma GrantedSize(bs: seq<Block>, cap: nat, size: uint64)
    requires WellFormed(bs, MINBLOCK) && Malloc(bs, cap, size).Granted?
    ensures var g, asize := Malloc(bs, cap, size), AdjustedSize(size);
            g.i < |g.bs| && g.bs[g.i].size == Handed(Source(bs, asize), asize, MINBLOCK)
  {
    var asize := AdjustedSize(size);
    AdjustedSizeCovers(size);
    var i := FirstFit(bs, asize);
    if i < |bs| {
      PlaceShape(bs, i, asize, MINBLOCK);
      SplitHands(bs[i].size, asize, MINBLOCK);
    } else {
      ExtendLaw(bs, cap, GrowWords(asize), MINBLOCK);
      GrowSuffices(asize);
      GrownLast(bs, GrowBytes(asize));
      var e := Extend(bs, cap, GrowWords(asize));
      PlaceShape(e.bs, e.i, asize, MINBLOCK);
      SplitHands(e.bs[e.i].size, asize, MINBLOCK);
    }
  }

  // ---------------------------------------------------------------- mm_realloc

  /** copySize after its comparison with size. */
  function CopySize(oldSize: nat, size: nat): nat {
    if size < oldSize then size else oldSize
  }

  /** mm_realloc writes nothing past the payload of the new block. */
  ghost predicate CopyStaysIn(bs: seq<Block>, cap: nat, size: uint64, ptr: nat)
    requires WellFormed(bs, MINBLOCK) && ptr in Live(bs)
  {
    match Malloc(bs, cap, size)
    case Denied => true
    case Granted(cs, i) => i < |cs| && CopySize(Live(bs)[ptr], size) + OVERHEAD <= cs[i].size
  }

  /** No free block is big enough, and the arena has no room for more. */
  predicate Unserved(bs: seq<Block>, cap: nat, asize: uint32) {
    FirstFit(bs, asize) == |bs| && !SbrkAllows(8 + Sum(bs), cap, AsInt(GrowBytes(asize)))
  }

  /** What a caller of mm_realloc can check before the call. */
  predicate CopyFits(bs: seq<Block>, cap: nat, size: uint64, ptr: nat)
    requires bs != [] && ptr in Live(bs)
  {
    var asize := AdjustedSize(size);
    || size <= MAX_REQUEST
    || Unserved(bs, cap, asize)
    || CopySize(Live(bs)[ptr], size) + OVERHEAD <= Handed(Source(bs, asize), asize, MINBLOCK)
  }

  /** mm_realloc stays inside the new payload if and only if the request is at most MAX_REQUEST, or it is not
      served at all, or the block that its rounding will be given holds the copied bytes and the two tags. */
  lemma CopyFitsIff(bs: seq<Block>, cap: nat, size: uint64, ptr: nat)
    requires WellFormed(bs, MINBLOCK) && ptr in Live(bs)
    ensures CopyStaysIn(bs, cap, size, ptr) <==> CopyFits(bs, cap, size, ptr)
    ensures var g, held := Malloc(bs, cap, size), Live(bs)[ptr];
            CopyFits(bs, cap, size, ptr)
            <==> g.Denied? || (g.i < |g.bs| && (size + 8 <= g.bs[g.i].size || held + 8 <= g.bs[g.i].size))
  {
    MallocLaw(bs, cap, size);
    if size > 0 {
      var asize := AdjustedSize(size);
      AdjustedSizeCovers(size);
      GrowSuffices(asize);
      MallocServed(bs, cap, size, asize);
      if Malloc(bs, cap, size).Granted? { GrantedSize(bs, cap, size); }
    }
  }

  /** A request that is granted but rounded below 16 bytes never gets a block for the copy. */
  lemma TinyNeverFits(bs: seq<Block>, cap: nat, size: uint64, ptr: nat)
    requires WellFormed(bs, MINBLOCK) && ptr in Live(bs)
    requires Malloc(bs, cap, size).Granted? && AdjustedSize(size) < MINBLOCK
    ensures !CopyStaysIn(bs, cap, size, ptr)
  {
    MallocLaw(bs, cap, size);
    AdjustedSizeCovers(size);
    GrantedSize(bs, cap, size);
    LiveSized(bs, MINBLOCK, ptr);
  }

  /** What mm_realloc gets from mm_malloc when the copy fits. */
  lemma FitsABlock(bs: seq<Block>, cap: nat, size: uint64, ptr: nat)
    requires WellFormed(bs, MINBLOCK) && ptr in Live(bs) && CopyFits(bs, cap, size, ptr)
    ensures match Malloc(bs, cap, size)
            case Denied => true
            case Granted(cs, i) =>
              && AdjustedSize(size) >= MINBLOCK
              && i < |cs| && CopySize(Live(bs)[ptr], size) + OVERHEAD <= cs[i].size
  {
    CopyFitsIff(bs, cap, size, ptr);
    if Malloc(bs, cap, size).Granted? && AdjustedSize(size) < MINBLOCK {
      TinyNeverFits(bs, cap, size, ptr);
    }
  }

  /** The initial heap after one request of 24 bytes. */
  const ONE_LIVE: seq<Block> := [PROLOGUE, Block(32, true), Block(CHUNKSIZE - 32, false)]

  lemma OneLive(cap: nat)
    ensures WellFormed(INITIAL, MINBLOCK) && Malloc(INITIAL, cap, 24) == Granted(ONE_LIVE, 1)
    ensures WellFormed(ONE_LIVE, MINBLOCK) && Live(ONE_LIVE) == map[32 := 32]
  {
    InitialLaw(cap);
    assert FirstFit(INITIAL[1..], 32) == 0;
    assert FirstFit(INITIAL, 32) == 1;
    assert Split(CHUNKSIZE, 32, MINBLOCK) == [Block(32, true), Block(CHUNKSIZE - 32, false)];
    assert Place(INITIAL, 1, 32, MINBLOCK) == ONE_LIVE;
    MallocLaw(INITIAL, cap, 24);
    assert ONE_LIVE[..1] == [PROLOGUE];
    SumOne(PROLOGUE);
  }

  /** A reallocation that writes past the new payload: from 24 bytes to 2^32 + 8, which rounds to 16. The new
      block holds 8 bytes and 32 are copied, over its footer and into the block after it. */
  lemma ReallocOverruns(cap: nat)
    ensures WellFormed(ONE_LIVE, MINBLOCK) && 32 in Live(ONE_LIVE)
    ensures var g := Malloc(ONE_LIVE, cap, 0x1_0000_0008);
            g.Granted? && g.i == 2 && g.i < |g.bs| && g.bs[2] == Block(16, true)
    ensures CopySize(Live(ONE_LIVE)[32], 0x1_0000_0008) == 32 && !CopyStaysIn(ONE_LIVE, cap, 0x1_0000_0008, 32)
  {
    OneLive(cap);
    assert AdjustedSize(0x1_0000_0008) == 16;
    assert FirstFit(ONE_LIVE[2..], 16) == 0;
    assert ONE_LIVE[1..][1..] == ONE_LIVE[2..];
    assert FirstFit(ONE_LIVE[1..], 16) == 1;
    assert FirstFit(ONE_LIVE, 16) == 2;
    PlaceShape(ONE_LIVE, 2, 16, MINBLOCK);
  }

  /** The block mm_realloc moves to, next to the block it moves from and all others. */
  lemma ReallocLaw(bs: seq<Block>, cap: nat, size: uint64, ptr: nat)
    requires WellFormed(bs, MINBLOCK) && ptr in Live(bs) && Malloc(bs, cap, size).Granted?
    ensures var g := Malloc(bs, cap, size);
            var cs := g.bs;
            && g.i < |cs| && Sum(bs) <= Sum(cs)
            && var newp := Addr(cs, g.i);
               && newp != ptr && newp !in Live(bs) && MINBLOCK <= Live(bs)[ptr]
               && (size + OVERHEAD <= cs[g.i].size <==> size <= MAX_REQUEST)
               && (size <= MAX_REQUEST ==> AdjustedSize(size) >= MINBLOCK && cs[g.i].size <= size + 23)
    ensures AdjustedSize(size) >= MINBLOCK ==>
            var cs := Malloc(bs, cap, size).bs;
            var newp := Addr(cs, Malloc(bs, cap, size).i);
            && WellFormed(cs, MINBLOCK) && newp in Live(cs) && Live(cs)[newp] == cs[Malloc(bs, cap, size).i].size
            && ptr in Live(cs) && Live(cs)[ptr] == Live(bs)[ptr]
            && (forall p :: p in Live(bs) ==> p in Live(cs) && Live(cs)[p] == Live(bs)[p])
            && Live(cs) - {newp} == Live(bs)
            && WellFormed(Free(cs, ptr), MINBLOCK) && Sum(Free(cs, ptr)) == Sum(cs)
            && Live(Free(cs, ptr)) == Live(bs)[newp := Live(cs)[newp]] - {ptr}
  {
    MallocLaw(bs, cap, size);
    LiveSized(bs, MINBLOCK, ptr);
    var g := Malloc(bs, cap, size);
    if AdjustedSize(size) >= MINBLOCK {
      MovedOn(bs, g.bs, Addr(g.bs, g.i), g.bs[g.i].size, ptr);
    }
  }

  /** From bs to cs one block has been handed out, at newp; then the one at ptr is freed. */
  lemma MovedOn(bs: seq<Block>, cs: seq<Block>, newp: nat, size: nat, ptr: nat)
    requires WellFormed(bs, MINBLOCK) && WellFormed(cs, MINBLOCK) && ptr in Live(bs) && newp !in Live(bs)
    requires Live(cs) == Live(bs)[newp := size]
    ensures MINBLOCK <= Live(bs)[ptr] && ptr in Live(cs) && Live(cs)[ptr] == Live(bs)[ptr]
    ensures Live(cs) - {newp} == Live(bs)
    ensures WellFormed(Free(cs, ptr), MINBLOCK) && Sum(Free(cs, ptr)) == Sum(cs)
    ensures Live(Free(cs, ptr)) == Live(bs)[newp := size] - {ptr}
  {
    LiveSized(bs, MINBLOCK, ptr);
    FreeLaw(cs, ptr, MINBLOCK);
  }

  /** The bytes memcpy moves stay inside the heap, and the two regions are disjoint, when the new payload
      holds them; which it does for every request it covers, although copySize counts the tags of the old
      block. */
  lemma CopyRoom(bs: seq<Block>, newp: nat, ptr: nat, size: nat)
    requires WellFormed(bs, MINBLOCK) && newp in Live(bs) && ptr in Live(bs) && newp != ptr
    ensures MINBLOCK <= Live(bs)[ptr]
    ensures size + OVERHEAD <= Live(bs)[newp] ==> CopySize(Live(bs)[ptr], size) + OVERHEAD <= Live(bs)[newp]
    ensures var n := CopySize(Live(bs)[ptr], size);
            n + OVERHEAD <= Live(bs)[newp] ==>
              && newp + Live(bs)[newp] <= 8 + Sum(bs) && ptr + n <= 8 + Sum(bs)
              && (newp + n <= ptr || ptr + n <= newp)
  {
    LiveSized(bs, MINBLOCK, ptr);
    LiveEnd(bs, ptr);
    LiveEnd(bs, newp);
    if ptr < newp { LiveDisjoint(bs, ptr, newp); } else { LiveDisjoint(bs, newp, ptr); }
  }

  // ---------------------------------------------------------------- the heap after mm_init

  /** The list mm_init builds before it extends the heap, and the bytes it takes from mem_sbrk. */
  const EMPTY: seq<Block> := [PROLOGUE]
  const INIT_BYTES: nat := 32
  /** The list mm_init leaves behind. */
  const INITIAL: seq<Block> := [PROLOGUE, Block(CHUNKSIZE, false)]

  lemma InitialLaw(cap: nat)
    ensures WellFormed(EMPTY, MINBLOCK) && 8 + Sum(EMPTY) == INIT_BYTES && Live(EMPTY) == map[]
    ensures WellFormed(INITIAL, MINBLOCK) && Sum(INITIAL) == 24 + CHUNKSIZE && Live(INITIAL) == map[]
    ensures EMPTY == [Block(24, true)] && INITIAL == [Block(24, true), Block(0x1_0000, false)]
    ensures Extend(EMPTY, cap, CHUNKSIZE / WSIZE)
         == if INIT_BYTES + CHUNKSIZE <= cap then Granted(INITIAL, 1) else Denied
  {
    SumOne(PROLOGUE);
    SumTwo(PROLOGUE, Block(CHUNKSIZE, false));
    SumOne(Block(CHUNKSIZE, false));
    assert EMPTY + [Block(CHUNKSIZE, false)] == INITIAL;
    assert INITIAL[1..2] == [Block(CHUNKSIZE, false)];
    assert INITIAL[..1] + INITIAL[1..2] + INITIAL[2..] == INITIAL;
    assert Coalesce(INITIAL, 1) == INITIAL;
    forall q: nat ensures q != 8 ==> SizeAt(EMPTY, 8, q) == 0 && SizeAt(INITIAL, 8, q) == 0 {
      SizeAtFree(INITIAL[1..], 32, q);
      SizeAtFree(EMPTY[1..], 32, q);
    }
  }

  lemma FreePair(bs: seq<Block>, i: nat)
    requires Coalesced(bs) && i + 1 < |bs|
    ensures bs[i].alloc || bs[i + 1].alloc
  {
    assert Apart(bs, i + 1);
  }

  lemma SumIsOne(bs: seq<Block>)
    requires |bs| == 1
    ensures Sum(bs) == bs[0].size
  {
  }

  lemma AllocatedIsLive(bs: seq<Block>, i: nat)
    requires Positive(bs) && 0 < i < |bs| && bs[i].alloc
    ensures Addr(bs, i) in Live(bs)
  {
    SizeAtIndex(bs, i);
    AddrMonotone(bs, 0, i);
    SizeAtBounds(bs, 8, Addr(bs, i));
  }

  /** Complete coalescing: a heap with nothing live is the prologue and one free block holding all the
      rest, however it came about. */
  lemma NothingLive(bs: seq<Block>, min: nat)
    requires WellFormed(bs, min) && min > 0 && Live(bs) == map[] && Sum(bs) > 24
    ensures bs == [PROLOGUE, Block(Sum(bs) - 24, false)]
  {
    forall i | 0 < i < |bs| ensures !bs[i].alloc {
      if bs[i].alloc { AllocatedIsLive(bs, i); }
    }
    if |bs| > 2 { FreePair(bs, 1); }
    if |bs| == 1 { SumOne(bs[0]); SumIsOne(bs); }
    SumTwo(bs[0], bs[1]);
    assert bs == [bs[0], bs[1]];
  }
}
