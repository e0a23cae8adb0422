/** Walking the heap by its tags alone: NEXT_BLKP and PREV_BLKP, the two walks over the whole heap, and
    the complaints of mm_checkheap. */
module Walks {
  import opened Words
  import opened Blocks
  import opened Mm

  /** The block pointers met from bp on by NEXT_BLKP, up to a header of size 0 (or the end of memory). */
  function Forward(m: seq<byte>, bp: int): seq<int>
    decreases |m| - bp
  {
    if !(8 <= bp <= |m|) || NextBlkp(m, bp) <= bp then []
    else [bp] + Forward(m, NextBlkp(m, bp))
  }

  /** The block pointers met before bp by PREV_BLKP, nearest first, back to the prologue at 8. */
  function Backward(m: seq<byte>, bp: int): seq<int>
    decreases bp
  {
    if !(8 < bp <= |m|) || PrevBlkp(m, bp) >= bp || PrevBlkp(m, bp) < 8 then []
    else [PrevBlkp(m, bp)] + Backward(m, PrevBlkp(m, bp))
  }

  /** Block pointers of bs laid out from a on. */
  function Pointers(bs: seq<Block>, a: nat): seq<int> {
    if bs == [] then [] else [a] + Pointers(bs[1..], a + bs[0].size)
  }

  function Reverse(s: seq<int>): seq<int> {
    if s == [] then [] else Reverse(s[1..]) + [s[0]]
  }

  lemma ReverseSnoc(s: seq<int>, v: int)
    ensures Reverse(s + [v]) == [v] + Reverse(s)
  {
    if s != [] {
      assert (s + [v])[1..] == s[1..] + [v];
      ReverseSnoc(s[1..], v);
    }
  }

  lemma PointersSnoc(x: seq<Block>, b: Block, a: nat)
    ensures Pointers(x + [b], a) == Pointers(x, a) + [a + Sum(x)]
  {
    if x != [] {
      assert (x + [b])[1..] == x[1..] + [b];
      PointersSnoc(x[1..], b, a + x[0].size);
    }
  }

  lemma ForwardStep(m: seq<byte>, a: nat, b: Block)
    requires Tagged(m, a, b) && b.size % 8 == 0 && 8 <= a <= |m|
    ensures Forward(m, a) == [a as int] + Forward(m, a + b.size)
  {
    Unpack(b);
  }

  lemma ForwardEnds(m: seq<byte>, a: nat)
    requires 8 <= a <= |m| && GetWord(m, a - 4) == EPILOGUE
    ensures Forward(m, a) == []
  {
  }

  lemma {:induction false} ForwardVisits(m: seq<byte>, a: nat, bs: seq<Block>)
    requires Tiled(m, a, bs) && Sized(bs, 8) && 8 <= a && a + Sum(bs) <= |m|
    requires GetWord(m, a + Sum(bs) - 4) == EPILOGUE
    ensures Forward(m, a) == Pointers(bs, a)
    decreases bs
  {
    if bs == [] {
      ForwardEnds(m, a);
    } else {
      SizedTail(bs, 8);
      ForwardVisits(m, a + bs[0].size, bs[1..]);
      ForwardStep(m, a, bs[0]);
    }
  }

  lemma {:induction false} BackwardVisits(m: seq<byte>, bs: seq<Block>)
    requires Tiled(m, 8, bs) && Sized(bs, 8) && 8 + Sum(bs) <= |m|
    ensures Backward(m, 8 + Sum(bs)) == Reverse(Pointers(bs, 8))
  {
    if bs != [] {
      var x, b := bs[..|bs| - 1], bs[|bs| - 1];
      assert bs == x + [b];
      SizedSnoc(x, b);
      TiledSnoc(m, x, b);
      BackwardStep(m, 8 + Sum(x), b);
      ReversePointers(x, b);
      BackwardVisits(m, x);
    }
  }

  lemma SizedSnoc(x: seq<Block>, b: Block)
    requires Sized(x + [b], 8)
    ensures Sized(x, 8) && b.size % 8 == 0
  {
    assert (x + [b])[|x|] == b;
    assert forall i :: 0 <= i < |x| ==> (x + [b])[i] == x[i];
  }

  lemma TiledSnoc(m: seq<byte>, x: seq<Block>, b: Block)
    requires Tiled(m, 8, x + [b])
    ensures Tiled(m, 8, x) && Tiled(m, 8 + Sum(x), [b]) && Sum(x + [b]) == Sum(x) + b.size
  {
    SumAppend(x, [b]);
    SumOne(b);
    TiledAppend(m, 8, x, [b]);
  }

  lemma ReversePointers(x: seq<Block>, b: Block)
    ensures Reverse(Pointers(x + [b], 8)) == [8 + Sum(x) as int] + Reverse(Pointers(x, 8))
  {
    PointersSnoc(x, b, 8);
    ReverseSnoc(Pointers(x, 8), 8 + Sum(x));
  }

  lemma BackwardStep(m: seq<byte>, a: nat, b: Block)
    requires Tiled(m, a, [b]) && b.size % 8 == 0 && 8 <= a && a + b.size <= |m|
    ensures Backward(m, a + b.size) == [a] + Backward(m, a)
  {
    TiledOne(m, a, b);
    Unpack(b);
  }

  lemma {:induction false} PointersAt(bs: seq<Block>, a: nat, i: nat)
    requires i <= |bs|
    ensures |Pointers(bs, a)| == |bs| && (i < |bs| ==> Pointers(bs, a)[i] == a + Sum(bs[..i]))
  {
    if bs != [] {
      PointersAt(bs[1..], a + bs[0].size, if i == 0 then 0 else i - 1);
      if i > 0 {
        assert bs[..i] == [bs[0]] + bs[1..][..i - 1];
        assert bs[..i][1..] == bs[1..][..i - 1];
      }
    }
  }

  lemma {:induction false} ReverseAt(s: seq<int>, i: nat)
    requires i <= |s|
    ensures |Reverse(s)| == |s| && (i < |s| ==> Reverse(s)[i] == s[|s| - 1 - i])
  {
    if s != [] {
      ReverseAt(s[1..], if i == |s| then i - 1 else i);
    }
  }

  /** In every encoded heap the forward walk from the prologue visits all blocks in order, and the backward
      walk from the epilogue visits the same blocks in the opposite order. */
  lemma WalksAgree(m: seq<byte>, brk: nat, bs: seq<Block>)
    requires Encodes(m, brk, bs) && Sized(bs, 8)
    ensures |Forward(m, 8)| == |bs| && |Backward(m, brk)| == |bs|
    ensures forall i :: 0 <= i < |bs| ==> Forward(m, 8)[i] == Addr(bs, i)
    ensures forall i :: 0 <= i < |bs| ==> Backward(m, brk)[i] == Addr(bs, |bs| - 1 - i)
  {
    EncodesTiled(m, brk, bs);
    ForwardVisits(m, 8, bs);
    BackwardVisits(m, bs);
    PointersAt(bs, 8, |bs|);
    ReverseAt(Pointers(bs, 8), |bs|);
    forall i | 0 <= i < |bs|
      ensures Forward(m, 8)[i] == Addr(bs, i) && Backward(m, brk)[i] == Addr(bs, |bs| - 1 - i)
    {
      PointersAt(bs, 8, i);
      PointersAt(bs, 8, |bs| - 1 - i);
      ReverseAt(Pointers(bs, 8), i);
    }
  }

  /** PREV_BLKP undoes NEXT_BLKP on every block. */
  lemma PrevUndoesNext(m: seq<byte>, brk: nat, bs: seq<Block>, i: nat)
    requires Encodes(m, brk, bs) && Sized(bs, 8) && i < |bs|
    ensures 8 <= Addr(bs, i) <= Addr(bs, i + 1) <= |m|
    ensures NextBlkp(m, Addr(bs, i)) == Addr(bs, i + 1) && PrevBlkp(m, Addr(bs, i + 1)) == Addr(bs, i)
  {
    TaggedAt(m, brk, bs, i);
    AddrNext(bs, i);
    SumSplit(bs, i + 1);
    Unpack(bs[i]);
  }

  /** A memory encodes at most one block list: the tags determine the blocks. */
  lemma EncodingUnique(m: seq<byte>, a: nat, bs: seq<Block>, cs: seq<Block>)
    requires Tiled(m, a, bs) && Tiled(m, a, cs) && Sized(bs, 8) && Sized(cs, 8) && Sum(bs) == Sum(cs)
    ensures bs == cs
    decreases bs
  {
    SumZero(bs);
    SumZero(cs);
    if bs != [] {
      Unpack(bs[0]);
      Unpack(cs[0]);
      SizedTail(bs, 8);
      SizedTail(cs, 8);
      EncodingUnique(m, a + bs[0].size, bs[1..], cs[1..]);
    }
  }

  lemma SumZero(bs: seq<Block>)
    requires Sized(bs, 8)
    ensures Sum(bs) == 0 <==> bs == []
  {
  }

  // ---------------------------------------------------------------- mm_checkheap

  /** The headers, but not necessarily the footers, of bs are in place from a on, and then a header of
      size 0: what mm_checkheap needs to walk at all. */
  ghost predicate Headed(m: seq<byte>, a: nat, bs: seq<Block>)
    decreases bs
  {
    && 8 <= a <= |m|
    && (bs == [] ==> SizeOf(GetWord(m, a - 4)) == 0)
    && (bs != [] ==> bs[0].size >= 8 && bs[0].size % 8 == 0 && GetWord(m, a - 4) == Tag(bs[0]))
    && (bs != [] ==> Headed(m, a + bs[0].size, bs[1..]))
  }

  /** Lines printed by checkblock(bp). */
  function BlockComplaints(m: seq<byte>, bp: nat): nat
    requires 8 <= bp <= |m| && 8 <= NextBlkp(m, bp) <= |m|
  {
    (if bp % 8 != 0 then 1 else 0) + (if GetWord(m, bp - 4) != GetWord(m, NextBlkp(m, bp) - 8) then 1 else 0)
  }

  /** Lines printed by the loop of mm_checkheap and by its epilogue test. */
  ghost function Complaints(m: seq<byte>, a: nat, bs: seq<Block>): nat
    requires Headed(m, a, bs)
    decreases bs
  {
    if bs == [] then if AllocOf(GetWord(m, a - 4)) then 0 else 1
    else HeadedNext(m, a, bs);
         BlockComplaints(m, a) + Complaints(m, a + bs[0].size, bs[1..])
  }

  lemma HeadedNext(m: seq<byte>, a: nat, bs: seq<Block>)
    requires Headed(m, a, bs) && bs != []
    ensures NextBlkp(m, a) == a + bs[0].size <= |m|
  {
    Unpack(bs[0]);
  }

  /** On a heap whose headers chain to a header of size 0, the check is silent exactly when every footer
      agrees with its header and the last header is an epilogue's. (Two free neighbours go unnoticed.) */
  lemma {:induction false} SilentIffTiled(m: seq<byte>, a: nat, bs: seq<Block>)
    requires Headed(m, a, bs) && a % 8 == 0
    ensures 8 <= a + Sum(bs) <= |m|
    ensures Complaints(m, a, bs) == 0 <==> Tiled(m, a, bs) && AllocOf(GetWord(m, a + Sum(bs) - 4))
    decreases bs
  {
    if bs != [] {
      HeadedNext(m, a, bs);
      Add8(a, bs[0].size);
      SilentIffTiled(m, a + bs[0].size, bs[1..]);
    }
  }

  lemma EncodedIsHeaded(m: seq<byte>, a: nat, bs: seq<Block>)
    requires Tiled(m, a, bs) && Sized(bs, 8) && 8 <= a && a + Sum(bs) <= |m|
    requires GetWord(m, a + Sum(bs) - 4) == EPILOGUE
    ensures Headed(m, a, bs)
    decreases bs
  {
    if bs != [] {
      SizedTail(bs, 8);
      EncodedIsHeaded(m, a + bs[0].size, bs[1..]);
    }
  }

  /** Lines printed by mm_checkheap(0), which checks the prologue twice. */
  ghost function HeapComplaints(m: seq<byte>, bs: seq<Block>): nat
    requires Headed(m, 8, bs)
  {
    FirstNext(m, bs);
    (if bs != [] && bs[0] == PROLOGUE then 0 else 1) + BlockComplaints(m, 8) + Complaints(m, 8, bs)
  }

  lemma FirstNext(m: seq<byte>, bs: seq<Block>)
    requires Headed(m, 8, bs)
    ensures 8 <= |m| && NextBlkp(m, 8) == 8 + (if bs == [] then 0 else bs[0].size) <= |m|
  {
    if bs != [] { HeadedNext(m, 8, bs); }
  }

  /** checkblock prints one line for a misaligned block and one for a footer that differs from the header. */
  lemma BlockLines(m: seq<byte>, bp: nat)
    requires 8 <= bp <= |m| && 8 <= NextBlkp(m, bp) <= |m|
    ensures BlockComplaints(m, bp) == 0 <==> bp % 8 == 0 && GetWord(m, bp - 4) == GetWord(m, NextBlkp(m, bp) - 8)
    ensures BlockComplaints(m, bp) == 2 <==> bp % 8 != 0 && GetWord(m, bp - 4) != GetWord(m, NextBlkp(m, bp) - 8)
  {
  }

  /** On a heap whose headers chain to a header of size 0, mm_checkheap prints nothing exactly when the first
      block is an allocated one of 24 bytes, every footer agrees with its header, and the last header is an
      epilogue's; another first block costs one line of its own. */
  lemma HeapSilentIff(m: seq<byte>, bs: seq<Block>)
    requires Headed(m, 8, bs)
    ensures 8 + Sum(bs) <= |m|
    ensures HeapComplaints(m, bs) == 0
       <==> bs != [] && bs[0].size == 24 && bs[0].alloc && Tiled(m, 8, bs) && AllocOf(GetWord(m, 4 + Sum(bs)))
    ensures Tiled(m, 8, bs) && AllocOf(GetWord(m, 4 + Sum(bs))) && bs != [] && !(bs[0].size == 24 && bs[0].alloc) ==>
              HeapComplaints(m, bs) == 1
  {
    SilentIffTiled(m, 8, bs);
    if bs != [] { HeadedNext(m, 8, bs); }
  }

  /** checkblock(bp) */
  method CheckBlock(mm: Allocator, bp: nat) returns (lines: nat)
    requires 8 <= bp <= mm.arena.data.Length && 8 <= NextBlkp(mm.arena.data[..], bp) <= mm.arena.data.Length
    ensures lines == BlockComplaints(mm.arena.data[..], bp)
  {
    lines := 0;
    if bp % 8 != 0 {
      lines := lines + 1;
    }
    if mm.Get(Allocator.Hdrp(bp)) != mm.Get(mm.Ftrp(bp)) {
      lines := lines + 1;
    }
  }

  /** mm_checkheap(0): the number of lines it prints. */
  method CheckHeap(mm: Allocator, ghost bs: seq<Block>) returns (lines: nat)
    requires mm.heapListp == 8 && Headed(mm.arena.data[..], 8, bs)
    ensures lines == HeapComplaints(mm.arena.data[..], bs)
  {
    FirstNext(mm.arena.data[..], bs);
    if bs != [] { Unpack(bs[0]); }
    lines := 0;
    var bp := mm.heapListp;
    if mm.BlockSize(bp) != 24 || !AllocOf(mm.Get(mm.Hdrp(bp))) {
      lines := lines + 1;
    }
    var first := CheckBlock(mm, bp);
    var others := CheckBlocks(mm, bs);
    lines := lines + first + others;
  }

  /** From bp on there are the blocks rest, on which the walk is going to print due lines. */
  ghost predicate Ahead(m: seq<byte>, bp: int, rest: seq<Block>, due: int) {
    8 <= bp && Headed(m, bp, rest) && (SizeOf(GetWord(m, bp - 4)) > 0 <==> rest != [])
    && Complaints(m, bp, rest) == due
  }

  /** The loop of mm_checkheap and its epilogue test. */
  method CheckBlocks(mm: Allocator, ghost bs: seq<Block>) returns (lines: nat)
    requires mm.heapListp == 8 && Headed(mm.arena.data[..], 8, bs)
    ensures lines == Complaints(mm.arena.data[..], 8, bs)
  {
    ghost var m := mm.arena.data[..];
    var bp := mm.heapListp;
    lines := 0;
    ghost var rest, due := bs, Complaints(m, 8, bs);
    HeaderSays(m, bp, rest);
    while mm.BlockSize(bp) > 0
      invariant Ahead(m, bp, rest, due - lines)
      decreases rest
    {
      NextHeader(m, bp, rest, due - lines);
      var more := CheckBlock(mm, bp);
      lines := lines + more;
      bp := mm.Next(bp);
      rest := rest[1..];
    }
    if mm.BlockSize(bp) != 0 || !AllocOf(mm.Get(mm.Hdrp(bp))) {
      lines := lines + 1;
    }
  }

  /** One turn of the loop of mm_checkheap. */
  lemma NextHeader(m: seq<byte>, a: nat, bs: seq<Block>, due: int)
    requires Ahead(m, a, bs, due) && bs != []
    ensures 8 <= NextBlkp(m, a) <= |m| && Ahead(m, NextBlkp(m, a), bs[1..], due - BlockComplaints(m, a))
  {
    HeadedNext(m, a, bs);
    HeaderSays(m, a + bs[0].size, bs[1..]);
  }

  lemma HeaderSays(m: seq<byte>, a: nat, bs: seq<Block>)
    requires Headed(m, a, bs)
    ensures SizeOf(GetWord(m, a - 4)) > 0 <==> bs != []
  {
    if bs != [] { Unpack(bs[0]); }
  }

  /** After any allocator call mm_checkheap prints nothing. */
  method CheckHeapSilent(mm: Allocator) returns (lines: nat)
    requires mm.Valid()
    ensures lines == 0
  {
    EncodesTiled(mm.arena.data[..], mm.arena.brk, mm.blocks);
    EncodedIsHeaded(mm.arena.data[..], 8, mm.blocks);
    SilentIffTiled(mm.arena.data[..], 8, mm.blocks);
    Unpack(PROLOGUE);
    lines := CheckHeap(mm, mm.blocks);
  }
}
