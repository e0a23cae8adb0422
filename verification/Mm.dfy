/** mm.c: the implicit-list allocator, as in-place updates of the arena's bytes. The ghost field blocks
    is the list the tags encode; each method's contract says which Policy function it carries out and
    which bytes it leaves alone. */
module Mm {
  import opened Words
  import opened Blocks
  import opened Policy
  import opened Memlib

  datatype Reallocated = Moved(newp: nat) | ExitOne

  /** How mm_init ends: with 0, with -1, or, its test for NULL letting the (void *)-1 of mem_sbrk through, with
      a store through that. */
  datatype Initialised = Ready | NoRoom | WildStore

  function InitOutcome(cap: nat): Initialised {
    if cap < INIT_BYTES then WildStore else if cap < INIT_BYTES + CHUNKSIZE then NoRoom else Ready
  }

  class Allocator {
    const arena: Arena
    var heapListp: nat
    ghost var blocks: seq<Block>

    /** The tags encode blocks, up to a brk inside the arena. */
    ghost predicate Encoded()
      reads this, arena, arena.data
    {
      arena.Valid() && heapListp == 8 && Encodes(arena.data[..], arena.brk, blocks)
    }

    ghost predicate Valid()
      reads this, arena, arena.data
    {
      Encoded() && WellFormed(blocks, MINBLOCK)
    }

    /** The state between marking or appending block i and coalescing it. */
    ghost predicate Uncoalesced(i: nat)
      reads this, arena, arena.data
    {
      && Encoded() && Blocks.Framed(blocks, MINBLOCK) && CoalescedExcept(blocks, i)
      && 0 < i < |blocks| && !blocks[i].alloc
    }

    constructor (a: Arena)
      requires a.Valid()
      ensures arena == a
    {
      arena := a;
      heapListp := 0;
      blocks := [];
    }

    // -------------------------------------------------------------- macros

    function Get(p: int): nat
      requires 0 <= p <= arena.data.Length - 4
      reads arena.data
    {
      GetWord(arena.data[..], p)
    }

    /** GET_SIZE(HDRP(bp)) */
    function BlockSize(bp: int): nat
      requires 4 <= bp <= arena.data.Length
      reads arena.data
    {
      SizeOf(Get(Hdrp(bp)))
    }

    static function Hdrp(bp: int): int {
      bp - WSIZE
    }

    function Ftrp(bp: int): int
      requires 4 <= bp <= arena.data.Length
      reads arena.data
    {
      bp + BlockSize(bp) - DSIZE
    }

    /** NEXT_BLKP(bp) */
    function Next(bp: int): int
      requires 4 <= bp <= arena.data.Length
      reads arena.data
    {
      NextBlkp(arena.data[..], bp)
    }

    /** PREV_BLKP(bp) */
    function Prev(bp: int): int
      requires 8 <= bp <= arena.data.Length
      reads arena.data
    {
      PrevBlkp(arena.data[..], bp)
    }

    /** PACK(size, alloc) for a size that is a multiple of 8. */
    static function Pack(size: nat, alloc: nat): nat {
      size + alloc
    }

    // -------------------------------------------------------------- reading the tags

    /** What the macros see at block i, at its neighbours and at the end of the heap. */
    lemma Tags(i: nat)
      requires Encoded() && Blocks.Framed(blocks, MINBLOCK) && i < |blocks|
      ensures var bp := Addr(blocks, i);
              && 8 <= bp && bp + blocks[i].size <= arena.brk && bp % 8 == 0
              && BlockSize(bp) == blocks[i].size && AllocOf(Get(Hdrp(bp))) == blocks[i].alloc
              && AllocOf(Get(Ftrp(bp))) == blocks[i].alloc && SizeOf(Get(Ftrp(bp))) == blocks[i].size
              && Next(bp) == Addr(blocks, i + 1) && Prev(Next(bp)) == bp
              && blocks[i].size % 8 == 0 && blocks[i].size >= MINBLOCK
    {
      TaggedAt(arena.data[..], arena.brk, blocks, i);
      AddrMod8(blocks, MINBLOCK, i);
      Unpack(blocks[i]);
      AddrNext(blocks, i);
      SumSplit(blocks, i + 1);
    }

    lemma EpilogueTag()
      requires Encoded()
      ensures arena.brk == Addr(blocks, |blocks|) && Get(Hdrp(arena.brk)) == EPILOGUE
      ensures 8 <= arena.brk <= arena.data.Length
    {
      AddrLast(blocks);
      assert InPlace(arena.data[..], blocks, |blocks|);
    }

    // -------------------------------------------------------------- find_fit

    method FindFit(asize: nat) returns (p: Ptr)
      requires Valid()
      ensures p == if FirstFit(blocks, asize) < |blocks| then At(Addr(blocks, FirstFit(blocks, asize))) else Null
    {
      var bp := heapListp;
      ghost var i := 0;
      Visit(0);
      while BlockSize(bp) > 0
        invariant AtBlock(i, bp) && i <= FirstFit(blocks, asize)
        decreases |blocks| - i
      {
        if !AllocOf(Get(Hdrp(bp))) && asize <= BlockSize(bp) {
          return At(bp);
        }
        bp := Next(bp);
        i := i + 1;
        Visit(i);
      }
      return Null;
    }

    /** What the walk reads at its i-th step: block i, or the epilogue. */
    ghost predicate AtBlock(i: nat, bp: int)
      reads this, arena, arena.data
    {
      && i <= |blocks| && bp == Addr(blocks, i) && 4 <= bp <= arena.data.Length
      && (BlockSize(bp) > 0 <==> i < |blocks|)
      && (i < |blocks| ==> BlockSize(bp) == blocks[i].size && Next(bp) == Addr(blocks, i + 1))
      && (i < |blocks| ==> AllocOf(Get(Hdrp(bp))) == blocks[i].alloc)
    }

    lemma Visit(i: nat)
      requires Valid() && i <= |blocks|
      ensures AtBlock(i, Addr(blocks, i))
    {
      if i < |blocks| { Tags(i); } else { EpilogueTag(); }
    }

    // -------------------------------------------------------------- writing the tags

    /** m' is m with the tags of b written at bp. For size 0 the footer lies before the header, where the block
        before bp has its own. */
    static ghost predicate TagsPut(m: seq<byte>, m': seq<byte>, bp: nat, b: Block) {
      if b.size > 0 then Tagged(m', bp, b) && SameOutside(m, m', bp - 4, bp + b.size - 4)
      else 8 <= bp <= |m'| && GetWord(m', bp - 4) == GetWord(m', bp - 8) == Tag(b) && SameOutside(m, m', bp - 8, bp)
    }

    /** Stores the same tag as header and then as footer of the block at bp. */
    method PutTags(bp: nat, size: nat, alloc: nat)
      requires 8 <= bp <= arena.data.Length && size % 8 == 0 && alloc <= 1
      requires bp + size - 4 <= arena.data.Length <= MAX_HEAP
      modifies arena.data
      ensures TagsPut(old(arena.data[..]), arena.data[..], bp, Block(size, alloc == 1))
    {
      ghost var m := arena.data[..];
      ghost var b := Block(size, alloc == 1);
      PutHeader(bp, Pack(size, alloc), b);
      ghost var m1 := arena.data[..];
      PutFooter(bp, Pack(size, alloc), b);
      TwoTags(m, m1, arena.data[..], bp, b);
    }

    /** Stores the header of the block at bp. */
    method PutHeader(bp: nat, tag: uint32, ghost b: Block)
      requires 8 <= bp <= arena.data.Length && tag == Tag(b)
      modifies arena.data
      ensures GetWord(arena.data[..], bp - 4) == Tag(b)
      ensures SameOutside(old(arena.data[..]), arena.data[..], bp - 4, bp)
    {
      PutWord(arena.data, Hdrp(bp), tag);
    }

    /** Stores the footer of the block at bp, whose place is read off its header, which says b. */
    method PutFooter(bp: nat, tag: uint32, ghost b: Block)
      requires 8 <= bp <= arena.data.Length && bp + b.size - 4 <= arena.data.Length
      requires b.size % 8 == 0 && GetWord(arena.data[..], bp - 4) == Tag(b)
      modifies arena.data
      ensures GetWord(arena.data[..], bp + b.size - 8) == tag
      ensures SameOutside(old(arena.data[..]), arena.data[..], bp + b.size - 8, bp + b.size - 4)
    {
      HeaderRead(bp, b);
      PutWord(arena.data, Ftrp(bp), tag);
    }

    lemma HeaderRead(bp: nat, b: Block)
      requires 8 <= bp <= arena.data.Length && b.size % 8 == 0 && Get(bp - 4) == Tag(b)
      ensures Next(bp) == bp + b.size && Ftrp(bp) == bp + b.size - 8
    {
      Unpack(b);
    }

    /** A header at bp - 4 and then a footer at bp + size - 8. */
    static lemma TwoTags(m: seq<byte>, m1: seq<byte>, m2: seq<byte>, bp: nat, b: Block)
      requires 8 <= bp <= |m| && b.size % 8 == 0 && bp + b.size - 4 <= |m|
      requires SameOutside(m, m1, bp - 4, bp) && SameOutside(m1, m2, bp + b.size - 8, bp + b.size - 4)
      requires GetWord(m1, bp - 4) == Tag(b) && GetWord(m2, bp + b.size - 8) == Tag(b)
      ensures TagsPut(m, m2, bp, b)
    {
      var lo, hi := if b.size > 0 then bp - 4 else bp - 8, if b.size > 0 then bp + b.size - 4 else bp;
      SameWord(m1, m2, bp + b.size - 8, bp + b.size - 4, bp - 4);
      SameWiden(m, m1, lo, hi, bp - 4, bp);
      SameTwice(m, m1, m2, lo, hi, bp + b.size - 8, bp + b.size - 4);
    }

    // -------------------------------------------------------------- place

    /** What the macros read off a tagged block. */
    lemma ReadTags(bp: nat, b: Block)
      requires Tagged(arena.data[..], bp, b) && b.size % 8 == 0 && bp + b.size <= arena.data.Length
      ensures BlockSize(bp) == b.size && AllocOf(Get(Hdrp(bp))) == b.alloc
      ensures Ftrp(bp) == bp + b.size - 8 && SizeOf(Get(Ftrp(bp))) == b.size && AllocOf(Get(Ftrp(bp))) == b.alloc
      ensures Next(bp) == bp + b.size && Prev(bp + b.size) == bp
    {
      Unpack(b);
    }

    /** The stores of place, in a free block of csize bytes. */
    method PlaceTags(bp: nat, asize: nat, ghost csize: nat)
      requires Tagged(arena.data[..], bp, Block(csize, false)) && csize % 8 == 0 && csize >= MINBLOCK
      requires 8 <= bp && bp + csize <= arena.data.Length <= MAX_HEAP
      requires asize <= csize && asize % 8 == 0
      modifies arena.data
      ensures asize > 0 ==>
        if csize - asize >= MINBLOCK
        then Tagged(arena.data[..], bp, Block(asize, true))
          && Tagged(arena.data[..], bp + asize, Block(csize - asize, false))
        else Tagged(arena.data[..], bp, Block(csize, true))
      ensures asize > 0 ==> SameOutside(old(arena.data[..]), arena.data[..], bp - 4, bp + csize - 4)
      ensures asize == 0 ==> GetWord(arena.data[..], bp - 8) == EPILOGUE
                             && SameOutside(old(arena.data[..]), arena.data[..], bp - 8, bp + csize - 4)
    {
      var csize' := ReadSize(bp, Block(csize, false));
      if csize' - asize >= DSIZE + OVERHEAD {
        SplitTags(bp, asize, csize');
      } else {
        PutTags(bp, csize', 1);
      }
    }

    /** The four stores that cut asize bytes, handed out, from a free block of csize bytes. */
    method SplitTags(bp: nat, asize: nat, csize: nat)
      requires 8 <= bp && bp + csize <= arena.data.Length <= MAX_HEAP
      requires asize + 8 <= csize && asize % 8 == 0 && csize % 8 == 0
      modifies arena.data
      ensures asize > 0 ==> Tagged(arena.data[..], bp, Block(asize, true))
      ensures asize > 0 ==> Tagged(arena.data[..], bp + asize, Block(csize - asize, false))
      ensures asize > 0 ==> SameOutside(old(arena.data[..]), arena.data[..], bp - 4, bp + csize - 4)
      ensures asize == 0 ==> GetWord(arena.data[..], bp - 8) == EPILOGUE
                             && SameOutside(old(arena.data[..]), arena.data[..], bp - 8, bp + csize - 4)
    {
      ghost var m0 := arena.data[..];
      PutTags(bp, asize, 1);
      ghost var m := arena.data[..];
      HeaderRead(bp, Block(asize, true));
      var rest := Next(bp);
      assert (csize - asize) % 8 == 0;
      PutTags(rest, csize - asize, 0);
      CutTags(m0, m, arena.data[..], bp, asize, csize);
    }

    /** The tags of bp, in m, and then those of the rest, in m'. */
    static lemma CutTags(m0: seq<byte>, m: seq<byte>, m': seq<byte>, bp: nat, asize: nat, csize: nat)
      requires 8 <= bp && bp + csize <= |m| && asize + 8 <= csize
      requires SameOutside(m, m', bp + asize - 4, bp + csize - 4)
      requires asize > 0 ==> Tagged(m, bp, Block(asize, true)) && SameOutside(m0, m, bp - 4, bp + asize - 4)
      requires asize == 0 ==> GetWord(m, bp - 8) == EPILOGUE && SameOutside(m0, m, bp - 8, bp)
      ensures asize > 0 ==> Tagged(m', bp, Block(asize, true)) && SameOutside(m0, m', bp - 4, bp + csize - 4)
      ensures asize == 0 ==> GetWord(m', bp - 8) == EPILOGUE && SameOutside(m0, m', bp - 8, bp + csize - 4)
    {
      if asize > 0 {
        TaggedOutside(m, m', bp + asize - 4, bp + csize - 4, bp, Block(asize, true));
        SameWiden(m0, m, bp - 4, bp + csize - 4, bp - 4, bp + asize - 4);
        SameTwice(m0, m, m', bp - 4, bp + csize - 4, bp + asize - 4, bp + csize - 4);
      } else {
        SameWord(m, m', bp - 4, bp + csize - 4, bp - 8);
        SameWiden(m0, m, bp - 8, bp + csize - 4, bp - 8, bp);
        SameTwice(m0, m, m', bp - 8, bp + csize - 4, bp - 4, bp + csize - 4);
      }
    }

    /** place. Asked for no bytes at all it leaves the tag of an epilogue in the footer of the block before. */
    method Place(bp: nat, asize: nat, ghost i: nat)
      requires Valid() && 0 < i < |blocks| && bp == Addr(blocks, i) && Fits(blocks[i], asize) && asize % 8 == 0
      modifies `blocks, arena.data
      ensures asize >= MINBLOCK ==> Valid()
      ensures asize > 0 ==> Encoded() && blocks == Policy.Place(old(blocks), i, asize, MINBLOCK)
      ensures SamePayloads(old(arena.data[..]), arena.data[..], Live(old(blocks)))
      ensures asize == 0 ==> bp - 4 <= arena.data.Length && GetWord(arena.data[..], bp - 8) == EPILOGUE
    {
      ghost var m, bs := arena.data[..], blocks;
      Tags(i);
      TaggedAt(m, arena.brk, bs, i);
      OneBlock(bs, i);
      PlaceTags(bp, asize, bs[i].size);
      if asize > 0 {
        TiledSplit(arena.data[..], bp, bs[i].size, asize, MINBLOCK);
        Spliced(m, bs, i, i + 1, Split(bs[i].size, asize, MINBLOCK), Live(bs));
        blocks := Policy.Place(bs, i, asize, MINBLOCK);
      } else {
        FooterSamePayloads(m, arena.data[..], bs, i);
      }
      if asize >= MINBLOCK {
        PlaceWellFormed(bs, i, asize, MINBLOCK);
      }
    }

    /** The memory now holds the spliced list, and the payloads of the live blocks outside are intact. */
    lemma Spliced(m: seq<byte>, bs: seq<Block>, lo: nat, hi: nat, mid: seq<Block>, live: map<nat, nat>)
      requires Encodes(m, arena.brk, bs) && lo < hi <= |bs| && Sum(mid) == Sum(bs[lo..hi])
      requires Tiled(arena.data[..], Addr(bs, lo), mid)
      requires SameOutside(m, arena.data[..], Addr(bs, lo) - 4, Addr(bs, hi) - 4)
      requires forall p :: p in live ==> p in Live(bs) && live[p] == Live(bs)[p] && !(lo <= IndexOf(bs, p) < hi)
      ensures Encodes(arena.data[..], arena.brk, Splice(bs, lo, hi, mid))
      ensures SamePayloads(m, arena.data[..], live)
    {
      EncodesSplice(m, arena.data[..], arena.brk, bs, lo, hi, mid);
      SpliceSamePayloads(m, arena.data[..], bs, lo, hi, live);
    }

    // -------------------------------------------------------------- coalesce

    lemma ReadPrev(bp: nat, l: Block)
      requires 8 + l.size <= bp <= arena.data.Length && l.size % 8 == 0 && Get(bp - 8) == Tag(l)
      ensures Prev(bp) == bp - l.size
    {
      Unpack(l);
    }

    /** Stores the footer of the block after bp, bp being b and the block after it r. */
    method PutNextFooter(bp: nat, size: nat, ghost b: Block, ghost r: Block)
      requires 8 <= bp && bp + b.size + r.size <= arena.data.Length && 8 <= r.size && size < 0x8000_0000
      requires b.size % 8 == 0 && r.size % 8 == 0
      requires Get(bp - 4) == Tag(b) && Get(bp + b.size - 4) == Tag(r)
      modifies arena.data
      ensures Get(bp + b.size + r.size - 8) == size
      ensures SameOutside(old(arena.data[..]), arena.data[..], bp + b.size + r.size - 8, bp + b.size + r.size - 4)
    {
      Unpack(b);
      Unpack(r);
      PutWord(arena.data, Ftrp(Next(bp)), Pack(size, 0));
    }

    /** Case 2: the free block at bp takes in the free block r after it. */
    method MergeNext(bp: nat, ghost b: Block, ghost r: Block)
      requires 8 <= bp && bp + b.size + r.size <= arena.data.Length <= MAX_HEAP
      requires b.size % 8 == 0 && r.size % 8 == 0
      requires Tagged(arena.data[..], bp, b) && Tagged(arena.data[..], bp + b.size, r)
      modifies arena.data
      ensures Tagged(arena.data[..], bp, Block(b.size + r.size, false))
      ensures SameOutside(old(arena.data[..]), arena.data[..], bp - 4, bp + b.size + r.size - 4)
    {
      Unpack(b);
      Unpack(r);
      Add8(b.size, r.size);
      var size := BlockSize(bp);
      size := size + BlockSize(Next(bp));
      PutTags(bp, size, 0);
    }

    /** Case 3: the free block l before bp takes in the bytes up to bp's footer. */
    method MergePrev(bp0: nat, ghost l: Block, ghost b: Block) returns (bp: nat)
      requires 8 + l.size <= bp0 && bp0 + b.size <= arena.data.Length <= MAX_HEAP
      requires l.size % 8 == 0 && b.size % 8 == 0
      requires Tagged(arena.data[..], bp0 - l.size, l) && Tagged(arena.data[..], bp0, b)
      modifies arena.data
      ensures bp == bp0 - l.size && Tagged(arena.data[..], bp, Block(l.size + b.size, false))
      ensures SameOutside(old(arena.data[..]), arena.data[..], bp - 4, bp0 + b.size - 4)
    {
      ghost var m, lo, hi := arena.data[..], bp0 - l.size - 4, bp0 + b.size - 4;
      bp := bp0;
      ReadPrev(bp, l);
      var size := ReadSize(bp, b);
      var prevSize := ReadSize(Prev(bp), l);
      size := size + prevSize;
      PutFooter(bp, Pack(size, 0), b);
      ghost var m1 := arena.data[..];
      SameWord(m, m1, hi - 4, hi, bp - 8);
      ReadPrev(bp, l);
      PutWord(arena.data, Hdrp(Prev(bp)), Pack(size, 0));
      ghost var m2 := arena.data[..];
      SameWord(m1, m2, lo, lo + 4, hi - 4);
      SameWord(m1, m2, lo, lo + 4, bp - 8);
      SameWiden(m, m1, lo, hi, hi - 4, hi);
      SameTwice(m, m1, m2, lo, hi, lo, lo + 4);
      ReadPrev(bp, l);
      bp := Prev(bp);
    }

    method ReadSize(bp: nat, ghost b: Block) returns (size: nat)
      requires 8 <= bp && b.size % 8 == 0 && Tagged(arena.data[..], bp, b)
      ensures size == b.size
    {
      Unpack(b);
      size := BlockSize(bp);
    }

    /** Case 4: the free block l before bp takes in bp and the free block r after it. */
    method MergeBoth(bp0: nat, ghost l: Block, ghost b: Block, ghost r: Block) returns (bp: nat)
      requires 8 + l.size <= bp0 && bp0 + b.size + r.size <= arena.data.Length <= MAX_HEAP
      requires l.size % 8 == 0 && b.size % 8 == 0 && r.size % 8 == 0
      requires Tagged(arena.data[..], bp0 - l.size, l) && Tagged(arena.data[..], bp0, b)
      requires Tagged(arena.data[..], bp0 + b.size, r)
      modifies arena.data
      ensures bp == bp0 - l.size && Tagged(arena.data[..], bp, Block(l.size + b.size + r.size, false))
      ensures SameOutside(old(arena.data[..]), arena.data[..], bp - 4, bp0 + b.size + r.size - 4)
    {
      ghost var m, lo, hi := arena.data[..], bp0 - l.size - 4, bp0 + b.size + r.size - 4;
      bp := bp0;
      var size := SumNeighbours(bp, l, b, r);
      ReadPrev(bp, l);
      PutWord(arena.data, Hdrp(Prev(bp)), Pack(size, 0));
      ghost var m1 := arena.data[..];
      SameWord(m, m1, lo, lo + 4, bp - 8);
      SameWord(m, m1, lo, lo + 4, bp - 4);
      SameWord(m, m1, lo, lo + 4, bp + b.size - 4);
      PutNextFooter(bp, size, b, r);
      ghost var m2 := arena.data[..];
      SameWord(m1, m2, hi - 4, hi, lo);
      SameWord(m1, m2, hi - 4, hi, bp - 8);
      SameWiden(m, m1, lo, hi, lo, lo + 4);
      SameTwice(m, m1, m2, lo, hi, hi - 4, hi);
      ReadPrev(bp, l);
      bp := Prev(bp);
    }

    /** The size of bp and its two neighbours together, the left one's read off its header and the right one's
        off its footer. */
    method SumNeighbours(bp: nat, ghost l: Block, ghost b: Block, ghost r: Block) returns (size: nat)
      requires 8 + l.size <= bp && bp + b.size + r.size <= arena.data.Length
      requires l.size % 8 == 0 && b.size % 8 == 0 && r.size % 8 == 0
      requires Tagged(arena.data[..], bp - l.size, l) && Tagged(arena.data[..], bp, b)
      requires Tagged(arena.data[..], bp + b.size, r)
      ensures size == l.size + b.size + r.size
    {
      ReadPrev(bp, l);
      ReadTags(bp, b);
      ReadTags(bp + b.size, r);
      var prevSize := ReadSize(Prev(bp), l);
      size := BlockSize(bp) + prevSize + SizeOf(Get(Ftrp(Next(bp))));
    }

    /** prev_alloc and next_alloc of coalesce. */
    method ReadNeighbours(bp: nat, ghost l: Block, ghost b: Block, ghost r: Block)
      returns (prevAlloc: bool, nextAlloc: bool)
      requires 8 + l.size <= bp && bp + b.size <= arena.data.Length
      requires l.size % 8 == 0 && b.size % 8 == 0 && r.size % 8 == 0
      requires Tagged(arena.data[..], bp - l.size, l) && Tagged(arena.data[..], bp, b)
      requires GetWord(arena.data[..], bp + b.size - 4) == Tag(r)
      ensures prevAlloc == l.alloc && nextAlloc == r.alloc
    {
      ReadPrev(bp, l);
      ReadTags(bp - l.size, l);
      Unpack(b);
      Unpack(r);
      prevAlloc := AllocOf(Get(Ftrp(Prev(bp))));
      nextAlloc := AllocOf(Get(Hdrp(Next(bp))));
    }

    /** The reads and stores of coalesce, for a free block b between l and r; for the last block r is the
        epilogue, whose header alone is there. */
    method CoalesceTags(bp0: nat, ghost l: Block, ghost b: Block, ghost r: Block) returns (bp: nat)
      requires Around(bp0, l, b, r) && arena.data.Length <= MAX_HEAP
      modifies arena.data
      ensures bp == if l.alloc then bp0 else bp0 - l.size
      ensures var end := bp0 + b.size + if r.alloc then 0 else r.size;
              && Tagged(arena.data[..], bp, Block(end - bp, false))
              && SameOutside(old(arena.data[..]), arena.data[..], bp - 4, end - 4)
    {
      bp := bp0;
      var prevAlloc, nextAlloc := ReadNeighbours(bp, l, b, r);
      if prevAlloc && nextAlloc {
        return;
      } else if prevAlloc && !nextAlloc {
        MergeNext(bp, b, r);
      } else if !prevAlloc && nextAlloc {
        bp := MergePrev(bp, l, b);
      } else {
        bp := MergeBoth(bp, l, b, r);
      }
    }

    /** coalesce, called with block i free and every other pair of neighbours already coalesced. */
    method Coalesce(bp0: nat, ghost i: nat) returns (bp: nat)
      requires Uncoalesced(i) && bp0 == Addr(blocks, i)
      modifies `blocks, arena.data
      ensures Valid() && blocks == Policy.Coalesce(old(blocks), i)
      ensures bp == Addr(blocks, CoalesceLo(old(blocks), i))
      ensures Live(blocks) == Live(old(blocks))
      ensures SamePayloads(old(arena.data[..]), arena.data[..], Live(old(blocks)))
    {
      ghost var m, bs := arena.data[..], blocks;
      bp := CoalesceAt(bp0, i);
      MergedRegion(m, bs, i);
      CoalesceWellFormed(bs, i, MINBLOCK);
      CoalesceLive(bs, i, MINBLOCK);
      blocks := Policy.Coalesce(bs, i);
    }

    /** The stores of coalesce, in terms of the block list. */
    method CoalesceAt(bp0: nat, ghost i: nat) returns (bp: nat)
      requires Uncoalesced(i) && bp0 == Addr(blocks, i)
      modifies arena.data
      ensures var lo, hi := CoalesceLo(blocks, i), CoalesceHi(blocks, i);
              && bp == Addr(blocks, lo) && Tagged(arena.data[..], bp, Block(Sum(blocks[lo..hi]), false))
              && SameOutside(old(arena.data[..]), arena.data[..], bp - 4, Addr(blocks, hi) - 4)
    {
      AroundTagged(i);
      bp := CoalesceTags(bp0, blocks[i - 1], blocks[i], RightOf(blocks, i));
    }

    /** The block after block i, or what its header says where the heap ends. */
    static function RightOf(bs: seq<Block>, i: nat): Block {
      if i + 1 < |bs| then bs[i + 1] else Block(0, true)
    }

    /** The tags coalesce reads, for a block b at bp between l and r. */
    ghost predicate Around(bp: nat, l: Block, b: Block, r: Block)
      reads arena.data
    {
      && 8 + l.size <= bp && bp + b.size <= arena.data.Length
      && l.size % 8 == 0 && b.size % 8 == 0 && r.size % 8 == 0 && !b.alloc
      && Tagged(arena.data[..], bp - l.size, l) && Tagged(arena.data[..], bp, b)
      && GetWord(arena.data[..], bp + b.size - 4) == Tag(r)
      && (!r.alloc ==> Tagged(arena.data[..], bp + b.size, r) && bp + b.size + r.size <= arena.data.Length)
    }

    lemma AroundTagged(i: nat)
      requires Uncoalesced(i)
      ensures var l, b, r := blocks[i - 1], blocks[i], RightOf(blocks, i);
              var bp, lo, hi := Addr(blocks, i), CoalesceLo(blocks, i), CoalesceHi(blocks, i);
              && Around(bp, l, b, r)
              && Addr(blocks, lo) == (if l.alloc then bp else bp - l.size)
              && Addr(blocks, hi) == bp + b.size + (if r.alloc then 0 else r.size)
              && Sum(blocks[lo..hi]) == Addr(blocks, hi) - Addr(blocks, lo)
    {
      CoalesceRegion(i);
    }

    /** Tagging the region of a coalesce as one free block carries the coalesce out. */
    lemma MergedRegion(m: seq<byte>, bs: seq<Block>, i: nat)
      requires Encodes(m, arena.brk, bs) && Sized(bs, MINBLOCK) && 0 < i < |bs| && !bs[i].alloc
      requires var lo, hi := CoalesceLo(bs, i), CoalesceHi(bs, i);
               && Tagged(arena.data[..], Addr(bs, lo), Block(Sum(bs[lo..hi]), false))
               && SameOutside(m, arena.data[..], Addr(bs, lo) - 4, Addr(bs, hi) - 4)
      ensures Encodes(arena.data[..], arena.brk, Policy.Coalesce(bs, i))
      ensures SamePayloads(m, arena.data[..], Live(bs))
    {
      var lo, hi := CoalesceLo(bs, i), CoalesceHi(bs, i);
      var total := Block(Sum(bs[lo..hi]), false);
      SumSlice(bs, lo, hi);
      SumOne(total);
      TiledOne(arena.data[..], Addr(bs, lo), total);
      Spliced(m, bs, lo, hi, [total], Live(bs));
    }

    /** Where the neighbours of block i lie. */
    lemma CoalesceRegion(i: nat)
      requires Uncoalesced(i)
      ensures var bp, l := Addr(blocks, i), blocks[i - 1];
              && Addr(blocks, i - 1) == bp - l.size && bp >= 8 + l.size
              && Tagged(arena.data[..], bp - l.size, l) && Tagged(arena.data[..], bp, blocks[i])
              && bp + blocks[i].size == Addr(blocks, i + 1)
              && Addr(blocks, CoalesceLo(blocks, i)) == (if l.alloc then bp else bp - l.size)
      ensures Addr(blocks, i + 1) <= arena.data.Length
      ensures GetWord(arena.data[..], Addr(blocks, i + 1) - 4)
           == if i + 1 < |blocks| then Tag(blocks[i + 1]) else EPILOGUE
      ensures i + 1 < |blocks| ==> Tagged(arena.data[..], Addr(blocks, i + 1), blocks[i + 1])
      ensures Addr(blocks, CoalesceHi(blocks, i)) <= arena.data.Length
      ensures var lo, hi := CoalesceLo(blocks, i), CoalesceHi(blocks, i);
              Sum(blocks[lo..hi]) == Addr(blocks, hi) - Addr(blocks, lo)
      ensures Addr(blocks, CoalesceHi(blocks, i)) == Addr(blocks, i + 1)
            + if i + 1 < |blocks| && !blocks[i + 1].alloc then blocks[i + 1].size else 0
    {
      AddrNext(blocks, i - 1);
      AddrNext(blocks, i);
      SumSlice(blocks, CoalesceLo(blocks, i), CoalesceHi(blocks, i));
      TaggedAt(arena.data[..], arena.brk, blocks, i - 1);
      TaggedAt(arena.data[..], arena.brk, blocks, i);
      RightEdge(i);
      SumSplit(blocks, CoalesceHi(blocks, i));
    }

    /** The header after block i: the next block's, or the epilogue's. */
    lemma RightEdge(i: nat)
      requires Encoded() && i < |blocks|
      ensures 8 <= Addr(blocks, i + 1) <= arena.data.Length
      ensures GetWord(arena.data[..], Addr(blocks, i + 1) - 4)
           == if i + 1 < |blocks| then Tag(blocks[i + 1]) else EPILOGUE
      ensures i + 1 < |blocks| ==> Tagged(arena.data[..], Addr(blocks, i + 1), blocks[i + 1])
      ensures i + 1 < |blocks| ==> Addr(blocks, i + 2) == Addr(blocks, i + 1) + blocks[i + 1].size
    {
      SumSplit(blocks, i + 1);
      if i + 1 < |blocks| {
        AddrNext(blocks, i + 1);
        TaggedAt(arena.data[..], arena.brk, blocks, i + 1);
      } else {
        EpilogueTag();
      }
    }

    // -------------------------------------------------------------- extend_heap

    /** size in extend_heap. */
    static method RoundWords(words: nat) returns (size: uint32)
      ensures size == ExtendSize(words) && size % 8 == 0 && size >= FREEBLOCKSIZE
    {
      size := (if words % 2 == 1 then (words + 1) * WSIZE else words * WSIZE) % 0x1_0000_0000;
      if size < FREEBLOCKSIZE {
        size := FREEBLOCKSIZE;
      }
      EvenWords(words);
    }

    method ExtendHeap(words: nat) returns (p: Ptr)
      requires Valid()
      modifies `blocks, arena`brk, arena.data
      ensures Valid() && SamePayloads(old(arena.data[..]), arena.data[..], Live(old(blocks)))
      ensures arena.brk == old(arena.brk) + if p == Null then 0 else ExtendSize(words)
      ensures match Extend(old(blocks), arena.data.Length, words)
              case Denied => p == Null && blocks == old(blocks) && arena.data[..] == old(arena.data[..])
              case Granted(cs, i) => p == At(Addr(cs, i)) && blocks == cs
    {
      var size := RoundWords(words);
      var got := arena.Sbrk(AsInt(size));
      if got.Null? {
        return Null;
      }
      var first := AddFreeBlock(got.addr, size);
      return At(first);
    }

    /** extend_heap once the bytes are granted. */
    method AddFreeBlock(bp: nat, size: nat) returns (first: nat)
      requires arena.Valid() && heapListp == 8 && WellFormed(blocks, MINBLOCK)
      requires bp == 8 + Sum(blocks) && size % 8 == 0 && size >= FREEBLOCKSIZE && arena.brk == bp + size
      requires Encodes(arena.data[..], bp, blocks)
      modifies `blocks, arena.data
      ensures Valid() && SamePayloads(old(arena.data[..]), arena.data[..], Live(old(blocks)))
      ensures var grown := old(blocks) + [Block(size, false)];
              && blocks == Policy.Coalesce(grown, |old(blocks)|)
              && first == Addr(blocks, CoalesceLo(grown, |old(blocks)|))
    {
      ghost var m, bs := arena.data[..], blocks;
      InitFreeBlock(bp, size);
      ghost var m1 := arena.data[..];
      first := Coalesce(bp, |bs|);
      SamePayloadsTwice(m, m1, arena.data[..], Live(bs));
    }

    /** The three stores of extend_heap: a free block over the old epilogue, and a new epilogue. */
    method InitFreeBlock(bp: nat, size: nat)
      requires arena.Valid() && heapListp == 8 && WellFormed(blocks, MINBLOCK)
      requires bp == 8 + Sum(blocks) && size % 8 == 0 && size >= FREEBLOCKSIZE && arena.brk == bp + size
      requires Encodes(arena.data[..], bp, blocks)
      modifies `blocks, arena.data
      ensures blocks == old(blocks) + [Block(size, false)] && Uncoalesced(|old(blocks)|)
      ensures bp == Addr(blocks, |old(blocks)|) && Live(blocks) == Live(old(blocks))
      ensures SamePayloads(old(arena.data[..]), arena.data[..], Live(old(blocks)))
      ensures SameOutside(old(arena.data[..]), arena.data[..], bp - 4, bp + size)
    {
      ghost var m := arena.data[..];
      PutTags(bp, size, 0);
      ghost var m1 := arena.data[..];
      Unpack(Block(size, false));
      PutWord(arena.data, Hdrp(Next(bp)), Pack(0, 1));
      ghost var m2 := arena.data[..];
      TaggedOutside(m1, m2, bp + size - 4, bp + size, bp, Block(size, false));
      SameWiden(m, m1, bp - 4, bp + size, bp - 4, bp + size - 4);
      SameTwice(m, m1, m2, bp - 4, bp + size, bp + size - 4, bp + size);
      GrownEncodes(m, m2, blocks, size);
      BelowSamePayloads(m, m2, blocks, bp + size);
      GrownFramed(blocks, size, MINBLOCK);
      AddrLast(blocks);
      AddrPrefix(blocks + [Block(size, false)], blocks, |blocks|);
      blocks := blocks + [Block(size, false)];
    }

    // -------------------------------------------------------------- mm_init

    /** The stores of mm_init: the pad, the prologue and the epilogue, in 32 bytes. */
    method InitPrologue(start: nat)
      requires arena.Valid() && start == 0 && arena.brk == INIT_BYTES
      modifies this, arena.data
      ensures Valid() && blocks == EMPTY
    {
      heapListp := start;
      PutWord(arena.data, heapListp, 0);
      heapListp := heapListp + WSIZE;
      PutWord(arena.data, heapListp, Pack(FREEBLOCKSIZE, 1));
      ghost var m1 := arena.data[..];
      heapListp := heapListp + WSIZE;
      PutWord(arena.data, heapListp + DSIZE * 2, Pack(FREEBLOCKSIZE, 1));
      ghost var m2 := arena.data[..];
      PutWord(arena.data, heapListp + DSIZE * 2 + WSIZE, Pack(0, 1));
      ghost var m3 := arena.data[..];
      SameWord(m1, m2, 24, 28, 4);
      SameWord(m2, m3, 28, 32, 4);
      SameWord(m2, m3, 28, 32, 24);
      InitialLaw(arena.data.Length);
      TiledOne(m3, 8, PROLOGUE);
      TiledEncodes(m3, INIT_BYTES, EMPTY);
      blocks := EMPTY;
    }

    /** mm_init. */
    method Init() returns (r: Initialised)
      requires arena.Valid() && arena.brk == 0
      modifies this, arena`brk, arena.data
      ensures r == InitOutcome(arena.data.Length)
      ensures r == WildStore <==> arena.data.Length < 32
      ensures r == Ready <==> arena.data.Length >= 32 + 0x1_0000
      ensures r == WildStore ==> arena.brk == 0 && arena.data[..] == old(arena.data[..])
      ensures r != WildStore ==> Valid() && blocks == if r == Ready then INITIAL else EMPTY
    {
      var got := arena.Sbrk(8 * WSIZE);
      if got == Null {
        return WildStore;
      }
      InitPrologue(got.addr);
      InitialLaw(arena.data.Length);
      var p := ExtendHeap(CHUNKSIZE / WSIZE);
      r := if p == Null then NoRoom else Ready;
    }

    // -------------------------------------------------------------- mm_malloc

    /** mm_malloc, for every request. Only requests past MAX_REQUEST can round to 8, which still encodes a list,
        or to 0, which does not: the footer of the block before the one granted is then overwritten. */
    method Malloc(size: uint64) returns (p: Ptr)
      requires Valid()
      modifies `blocks, arena`brk, arena.data
      ensures arena.brk == old(arena.brk) + if p == Null then 0 else Growth(old(blocks), AdjustedSize(size))
      ensures AdjustedSize(size) >= MINBLOCK ==> Valid()
      ensures SamePayloads(old(arena.data[..]), arena.data[..], Live(old(blocks)))
      ensures match Policy.Malloc(old(blocks), arena.data.Length, size)
              case Denied => p == Null && Valid() && blocks == old(blocks) && arena.data[..] == old(arena.data[..])
              case Granted(cs, i) =>
                && i < |cs| && p == At(Addr(cs, i))
                && (AdjustedSize(size) > 0 ==> Encoded() && blocks == cs)
                && (AdjustedSize(size) == 0 ==> p.addr - 4 <= arena.data.Length
                                                && GetWord(arena.data[..], p.addr - 8) == EPILOGUE)
    {
      if size <= 0 {
        return Null;
      }
      var asize: uint32;
      if size <= DSIZE {
        asize := DSIZE + OVERHEAD;
      } else {
        asize := DSIZE * ((size + OVERHEAD + (DSIZE - 1)) % 0x1_0000_0000_0000_0000 / DSIZE) % 0x1_0000_0000;
      }
      AdjustedSizeCovers(size);
      ghost var i := FirstFit(blocks, asize);
      p := FindFit(asize);
      if p != Null {
        PlaceGrants(blocks, i, asize);
        Place(p.addr, asize, i);
        return p;
      }
      p := GrowAndPlace(asize);
    }

    /** mm_malloc when nothing fits. */
    method GrowAndPlace(asize: uint32) returns (p: Ptr)
      requires Valid() && asize % 8 == 0
      modifies `blocks, arena`brk, arena.data
      ensures arena.brk == old(arena.brk) + if p == Null then 0 else if asize > 0x1_0000 then asize else 0x1_0000
      ensures asize >= MINBLOCK ==> Valid()
      ensures SamePayloads(old(arena.data[..]), arena.data[..], Live(old(blocks)))
      ensures match Extend(old(blocks), arena.data.Length, GrowWords(asize))
              case Denied => p == Null && Valid() && blocks == old(blocks) && arena.data[..] == old(arena.data[..])
              case Granted(cs, i) =>
                && 0 < i < |cs| && Fits(cs[i], asize) && p == At(Addr(cs, i))
                && i < |Policy.Place(cs, i, asize, MINBLOCK)|
                && Addr(Policy.Place(cs, i, asize, MINBLOCK), i) == Addr(cs, i)
                && (asize > 0 ==> Encoded() && blocks == Policy.Place(cs, i, asize, MINBLOCK))
                && (asize == 0 ==> p.addr - 4 <= arena.data.Length && GetWord(arena.data[..], p.addr - 8) == EPILOGUE)
    {
      var extendSize := if asize > CHUNKSIZE then asize else CHUNKSIZE;
      ghost var g, m, bs := Extend(blocks, arena.data.Length, GrowWords(asize)), arena.data[..], blocks;
      ExtendLaw(blocks, arena.data.Length, GrowWords(asize), MINBLOCK);
      GrowSuffices(asize);
      p := ExtendHeap(extendSize / WSIZE);
      if p == Null {
        return Null;
      }
      ghost var m1 := arena.data[..];
      PlaceGrants(blocks, g.i, asize);
      Place(p.addr, asize, g.i);
      SamePayloadsTwice(m, m1, arena.data[..], Live(bs));
    }

    // -------------------------------------------------------------- mm_free

    method Free(bp: nat)
      requires Valid() && bp in Live(blocks)
      modifies `blocks, arena.data
      ensures Valid() && blocks == Policy.Free(old(blocks), bp)
      ensures SamePayloads(old(arena.data[..]), arena.data[..], Live(blocks))
    {
      ghost var m := arena.data[..];
      ghost var i := IndexOf(blocks, bp);
      Mark(bp, i);
      ghost var m1 := arena.data[..];
      var _ := Coalesce(bp, i);
      SamePayloadsTwice(m, m1, arena.data[..], Live(blocks));
    }

    /** The tag stores of mm_free. */
    method Mark(bp: nat, ghost i: nat)
      requires Valid() && 0 < i < |blocks| && blocks[i].alloc && bp == Addr(blocks, i)
      modifies `blocks, arena.data
      ensures Uncoalesced(i) && blocks == MarkFree(old(blocks), i) && bp == Addr(blocks, i)
      ensures Live(blocks) == Live(old(blocks)) - {bp}
      ensures SamePayloads(old(arena.data[..]), arena.data[..], Live(old(blocks)) - {bp})
    {
      ghost var m, bs := arena.data[..], blocks;
      Tags(i);
      var size := BlockSize(bp);
      PutTags(bp, size, 0);
      MarkFreeFramed(bs, i, MINBLOCK);
      OneBlock(bs, i);
      SumOne(Block(bs[i].size, false));
      TiledOne(arena.data[..], bp, Block(size, false));
      Spliced(m, bs, i, i + 1, [Block(bs[i].size, false)], Live(bs) - {bp});
      blocks := MarkFree(bs, i);
      AddrPrefix(blocks, bs, i);
    }

    // -------------------------------------------------------------- mm_realloc

    /** memcpy: the regions must not overlap. */
    method Memcpy(dst: nat, src: nat, n: nat)
      requires dst + n <= arena.data.Length && src + n <= arena.data.Length
      requires dst + n <= src || src + n <= dst
      modifies arena.data
      ensures Copied(old(arena.data[..]), src, arena.data[..], dst, n)
      ensures SameOutside(old(arena.data[..]), arena.data[..], dst, dst + n)
    {
      ghost var m := arena.data[..];
      var j := 0;
      while j < n
        invariant 0 <= j <= n
        invariant Copied(m, src, arena.data[..], dst, j)
        invariant SameOutside(m, arena.data[..], dst, dst + j)
      {
        ghost var m1 := arena.data[..];
        assert SameAt(m, m1, src + j);
        arena.data[dst + j] := arena.data[src + j];
        j := j + 1;
        SameWiden(m, m1, dst, dst + j, dst, dst + j - 1);
        SameTwice(m, m1, arena.data[..], dst, dst + j, dst + j - 1, dst + j);
      }
    }

    /** Bytes of the old payload that mm_realloc must carry over. */
    static function Kept(blockSize: nat, size: nat): nat
      requires blockSize >= 8
    {
      if size < blockSize - 8 then size else blockSize - 8
    }

    method Realloc(ptr: nat, size: uint64) returns (r: Reallocated)
      requires Valid() && ptr in Live(blocks) && CopyFits(blocks, arena.data.Length, size, ptr)
      modifies `blocks, arena`brk, arena.data
      ensures Valid()
      ensures arena.brk == old(arena.brk) + if r == ExitOne then 0 else Growth(old(blocks), AdjustedSize(size))
      ensures SamePayloads(old(arena.data[..]), arena.data[..], Live(old(blocks)) - {ptr})
      ensures match Policy.Malloc(old(blocks), arena.data.Length, size)
              case Denied => r == ExitOne && blocks == old(blocks) && arena.data[..] == old(arena.data[..])
              case Granted(cs, i) =>
                && ptr in Live(cs) && r == Moved(Addr(cs, i)) && blocks == Policy.Free(cs, ptr)
                && forall n: nat :: n <= size && n + OVERHEAD <= Live(old(blocks))[ptr] ==>
                     Copied(old(arena.data[..]), ptr, arena.data[..], Addr(cs, i), n)
    {
      ghost var m, bs := arena.data[..], blocks;
      FitsABlock(bs, arena.data.Length, size, ptr);
      var newPtr := Malloc(size);
      if newPtr == Null {
        return ExitOne;
      }
      var newp := newPtr.addr;
      ghost var m1, cs := arena.data[..], blocks;
      ReallocLaw(bs, arena.data.Length, size, ptr);
      ghost var m2 := CopyAndFree(newp, ptr, size);
      SamePayloadsFewer(m1, m2, Live(cs) - {newp}, Live(bs));
      SamePayloadsTwice(m, m1, m2, Live(bs));
      MovedPayload(m, m1, m2, arena.data[..], bs, cs, blocks, ptr, newp, Kept(Live(cs)[ptr], size));
      CopiedAll(m, ptr, arena.data[..], newp, Kept(Live(cs)[ptr], size));
      r := Moved(newp);
    }

    /** mm_realloc after mm_malloc; m2 is the memory between the copy and the free. */
    method CopyAndFree(newp: nat, ptr: nat, size: uint64) returns (ghost m2: seq<byte>)
      requires Valid() && ptr in Live(blocks) && newp in Live(blocks) && newp != ptr
      requires CopySize(Live(blocks)[ptr], size) + OVERHEAD <= Live(blocks)[newp] && MINBLOCK <= Live(blocks)[ptr]
      modifies `blocks, arena.data
      ensures Valid() && blocks == Policy.Free(old(blocks), ptr) && Live(blocks) == Live(old(blocks)) - {ptr}
      ensures SamePayloads(old(arena.data[..]), m2, Live(old(blocks)) - {newp})
      ensures Copied(old(arena.data[..]), ptr, m2, newp, Kept(Live(old(blocks))[ptr], size))
      ensures SamePayloads(m2, arena.data[..], Live(blocks))
    {
      CopyPayload(newp, ptr, size);
      m2 := arena.data[..];
      FreeLaw(blocks, ptr, MINBLOCK);
      Free(ptr);
    }

    /** The copySize computation and memcpy of mm_realloc: no byte past the new payload is written. */
    method CopyPayload(newp: nat, ptr: nat, size: uint64)
      requires Valid() && ptr in Live(blocks) && newp in Live(blocks) && newp != ptr
      requires CopySize(Live(blocks)[ptr], size) + OVERHEAD <= Live(blocks)[newp] && MINBLOCK <= Live(blocks)[ptr]
      modifies arena.data
      ensures Valid() && SamePayloads(old(arena.data[..]), arena.data[..], Live(blocks) - {newp})
      ensures SameOutside(old(arena.data[..]), arena.data[..], newp, newp + Live(blocks)[newp] - 8)
      ensures Copied(old(arena.data[..]), ptr, arena.data[..], newp, Kept(Live(blocks)[ptr], size))
    {
      ghost var m1 := arena.data[..];
      Tags(IndexOf(blocks, ptr));
      TaggedAt(m1, arena.brk, blocks, IndexOf(blocks, ptr));
      var copySize := ReadSize(ptr, blocks[IndexOf(blocks, ptr)]);
      if size < copySize {
        copySize := size;
      }
      CopyRoom(blocks, newp, ptr, size);
      Memcpy(newp, ptr, copySize);
      ghost var m2 := arena.data[..];
      SameWiden(m1, m2, newp, newp + Live(blocks)[newp] - 8, newp, newp + copySize);
      PayloadWrite(m1, m2, arena.brk, blocks, newp);
      CopiedFewer(m1, ptr, m2, newp, copySize, Kept(Live(blocks)[ptr], size));
    }

    /** The kept bytes, followed through the allocation (m to m1), the copy (to m2) and the free (to m3). */
    static lemma MovedPayload(m: seq<byte>, m1: seq<byte>, m2: seq<byte>, m3: seq<byte>,
        bs: seq<Block>, cs: seq<Block>, ds: seq<Block>, ptr: nat, newp: nat, n: nat)
      requires |m| == |m1| == |m2| == |m3| && ptr + n <= |m| && newp + n <= |m|
      requires ptr in Live(bs) && newp in Live(ds) && n + 8 <= Live(bs)[ptr] && n + 8 <= Live(ds)[newp]
      requires Live(ds) == Live(cs) - {ptr} && forall p :: p in Live(bs) ==> p in Live(cs) && Live(cs)[p] == Live(bs)[p]
      requires SamePayloads(m, m1, Live(bs)) && SamePayloads(m, m2, Live(bs)) && SamePayloads(m2, m3, Live(ds))
      requires Copied(m1, ptr, m2, newp, n)
      ensures Copied(m, ptr, m3, newp, n)
      ensures SamePayloads(m, m3, Live(bs) - {ptr})
    {
      PayloadSlice(m, m1, Live(bs), ptr, n);
      PayloadSlice(m2, m3, Live(ds), newp, n);
      SamePayloadsFewer(m, m2, Live(bs), Live(bs) - {ptr});
      SamePayloadsFewer(m2, m3, Live(ds), Live(bs) - {ptr});
      SamePayloadsTwice(m, m2, m3, Live(bs) - {ptr});
    }
  }
}
