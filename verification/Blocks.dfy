/** The heap as a sequence of blocks, prologue first: the value the boundary tags of mm.c encode.
    Block i has its block pointer (bp) at Addr(bs, i); header at bp-4, footer at bp+size-8. */
module Blocks {
  import opened Words

  const WSIZE: nat := 4
  const DSIZE: nat := 8
  const OVERHEAD: nat := 8
  const CHUNKSIZE: nat := 0x1_0000
  const FREEBLOCKSIZE: nat := 24
  /** Smallest block place splits off: DSIZE + OVERHEAD. */
  const MINBLOCK: nat := 16

  datatype Block = Block(size: nat, alloc: bool)

  const PROLOGUE := Block(24, true)

  function Sum(bs: seq<Block>): nat {
    if bs == [] then 0 else bs[0].size + Sum(bs[1..])
  }

  /** The block pointer of block i; of i == |bs|, the epilogue. */
  function Addr(bs: seq<Block>, i: nat): nat
    requires i <= |bs|
  {
    8 + Sum(bs[..i])
  }

  lemma SumAppend(x: seq<Block>, y: seq<Block>)
    ensures Sum(x + y) == Sum(x) + Sum(y)
  {
    if x == [] {
      assert x + y == y;
    } else {
      assert (x + y)[1..] == x[1..] + y;
      SumAppend(x[1..], y);
    }
  }

  lemma SumSplit(bs: seq<Block>, i: nat)
    requires i <= |bs|
    ensures Sum(bs) == Sum(bs[..i]) + Sum(bs[i..])
  {
    assert bs == bs[..i] + bs[i..];
    SumAppend(bs[..i], bs[i..]);
  }

  lemma SumSlice(bs: seq<Block>, i: nat, j: nat)
    requires i <= j <= |bs|
    ensures Addr(bs, j) == Addr(bs, i) + Sum(bs[i..j])
  {
    assert bs[..j] == bs[..i] + bs[i..j];
    SumAppend(bs[..i], bs[i..j]);
  }

  lemma AddrNext(bs: seq<Block>, i: nat)
    requires i < |bs|
    ensures Addr(bs, i + 1) == Addr(bs, i) + bs[i].size
  {
    SumSlice(bs, i, i + 1);
    assert bs[i..i + 1] == [bs[i]];
  }

  lemma AddrLast(bs: seq<Block>)
    ensures Addr(bs, |bs|) == 8 + Sum(bs)
  {
    assert bs[..|bs|] == bs;
  }

  lemma AddrMonotone(bs: seq<Block>, i: nat, j: nat)
    requires i < j <= |bs|
    ensures Addr(bs, i) + bs[i].size <= Addr(bs, j)
  {
    AddrNext(bs, i);
    SumSlice(bs, i + 1, j);
  }

  /** Two lists with the same first i blocks place block i at the same address. */
  lemma AddrPrefix(bs: seq<Block>, cs: seq<Block>, i: nat)
    requires i <= |bs| && i <= |cs| && bs[..i] == cs[..i]
    ensures Addr(bs, i) == Addr(cs, i)
  {
  }

  // ---------------------------------------------------------------- tags

  /** PACK(size, alloc) */
  function Tag(b: Block): nat {
    b.size + if b.alloc then 1 else 0
  }

  /** GET_SIZE of a word. */
  function SizeOf(w: nat): nat {
    w - w % 8
  }

  /** GET_ALLOC of a word. */
  predicate AllocOf(w: nat) {
    w % 2 == 1
  }

  /** NEXT_BLKP(bp) */
  function NextBlkp(m: seq<byte>, bp: int): int
    requires 4 <= bp <= |m|
  {
    bp + SizeOf(GetWord(m, bp - 4))
  }

  /** PREV_BLKP(bp) */
  function PrevBlkp(m: seq<byte>, bp: int): int
    requires 8 <= bp <= |m|
  {
    bp - SizeOf(GetWord(m, bp - 8))
  }

  /** The tag word of an epilogue: PACK(0, 1). */
  const EPILOGUE: nat := 1

  lemma Add8(a: nat, b: nat)
    requires a % 8 == 0 && b % 8 == 0
    ensures (a + b) % 8 == 0
  {
  }

  lemma Unpack(b: Block)
    requires b.size % 8 == 0
    ensures SizeOf(Tag(b)) == b.size && AllocOf(Tag(b)) == b.alloc
  {
    LowThreeBits(b.size / 8, if b.alloc then 1 else 0);
    LowBit(4 * (b.size / 8), if b.alloc then 1 else 0);
  }

  lemma LowThreeBits(k: nat, a: nat)
    requires a <= 1
    ensures (8 * k + a) % 8 == a
  {
  }

  lemma LowBit(k: nat, a: nat)
    requires a <= 1
    ensures (2 * k + a) % 2 == a
  {
  }

  // ---------------------------------------------------------------- block lists in memory

  /** m holds block b, header and footer, at block pointer a. */
  ghost predicate Tagged(m: seq<byte>, a: nat, b: Block) {
    && 4 <= a && 8 <= b.size && a + b.size - 4 <= |m|
    && GetWord(m, a - 4) == Tag(b) && GetWord(m, a + b.size - 8) == Tag(b)
  }

  /** From block pointer a on, m holds the blocks bs one after another. */
  ghost predicate Tiled(m: seq<byte>, a: nat, bs: seq<Block>)
    decreases bs
  {
    bs == [] || (Tagged(m, a, bs[0]) && Tiled(m, a + bs[0].size, bs[1..]))
  }

  lemma TiledOne(m: seq<byte>, a: nat, b: Block)
    ensures Tiled(m, a, [b]) <==> Tagged(m, a, b)
  {
  }

  lemma TiledTwo(m: seq<byte>, a: nat, b: Block, c: Block)
    ensures Tiled(m, a, [b, c]) <==> Tagged(m, a, b) && Tagged(m, a + b.size, c)
  {
    assert [b, c][1..] == [c];
    TiledOne(m, a + b.size, c);
  }

  lemma TiledAppend(m: seq<byte>, a: nat, x: seq<Block>, y: seq<Block>)
    ensures Tiled(m, a, x + y) <==> Tiled(m, a, x) && Tiled(m, a + Sum(x), y)
    decreases x
  {
    if x == [] {
      assert x + y == y;
    } else {
      assert (x + y)[1..] == x[1..] + y;
      TiledAppend(m, a + x[0].size, x[1..], y);
    }
  }

  lemma TiledThree(m: seq<byte>, x: seq<Block>, mid: seq<Block>, y: seq<Block>)
    ensures Tiled(m, 8, x + mid + y)
       <==> Tiled(m, 8, x) && Tiled(m, 8 + Sum(x), mid) && Tiled(m, 8 + Sum(x) + Sum(mid), y)
  {
    TiledAppend(m, 8, x + mid, y);
    TiledAppend(m, 8, x, mid);
    SumAppend(x, mid);
  }

  lemma TaggedOutside(m: seq<byte>, m': seq<byte>, lo: int, hi: int, a: nat, b: Block)
    requires Tagged(m, a, b) && SameOutside(m, m', lo, hi)
    requires a - 4 + b.size <= lo || hi <= a - 4
    ensures Tagged(m', a, b)
  {
    SameWord(m, m', lo, hi, a - 4);
    SameWord(m, m', lo, hi, a + b.size - 8);
  }

  /** Blocks bs at a occupy the bytes from a-4 up to a-4+Sum(bs); writes elsewhere leave them. */
  lemma TiledOutside(m: seq<byte>, m': seq<byte>, lo: int, hi: int, a: nat, bs: seq<Block>)
    requires Tiled(m, a, bs) && SameOutside(m, m', lo, hi)
    requires a - 4 + Sum(bs) <= lo || hi <= a - 4
    ensures Tiled(m', a, bs)
    decreases bs
  {
    if bs != [] {
      TaggedOutside(m, m', lo, hi, a, bs[0]);
      TiledOutside(m, m', lo, hi, a + bs[0].size, bs[1..]);
    }
  }

  /** Block i of bs is in place; for i == |bs|, the epilogue header at brk-4. */
  ghost predicate InPlace(m: seq<byte>, bs: seq<Block>, i: int)
    requires 0 <= i <= |bs|
  {
    if i < |bs| then Tagged(m, Addr(bs, i), bs[i])
    else 8 + Sum(bs) <= |m| && GetWord(m, 4 + Sum(bs)) == EPILOGUE
  }

  /** The memory below brk holds exactly the block list bs, closed by the epilogue header at brk-4. */
  ghost predicate Encodes(m: seq<byte>, brk: nat, bs: seq<Block>) {
    && brk == 8 + Sum(bs) && brk <= |m|
    && forall i {:trigger InPlace(m, bs, i)} :: 0 <= i <= |bs| ==> InPlace(m, bs, i)
  }

  lemma {:induction false} TilePrefix(m: seq<byte>, bs: seq<Block>, n: nat)
    requires n <= |bs|
    requires forall i {:trigger InPlace(m, bs, i)} :: 0 <= i < n ==> InPlace(m, bs, i)
    ensures Tiled(m, 8, bs[..n])
  {
    if n > 0 {
      TilePrefix(m, bs, n - 1);
      assert InPlace(m, bs, n - 1);
      assert bs[..n] == bs[..n - 1] + [bs[n - 1]];
      TiledAppend(m, 8, bs[..n - 1], [bs[n - 1]]);
      TiledOne(m, Addr(bs, n - 1), bs[n - 1]);
    }
  }

  lemma TiledInPlace(m: seq<byte>, bs: seq<Block>, i: nat)
    requires Tiled(m, 8, bs) && i < |bs|
    ensures InPlace(m, bs, i)
  {
    assert bs == bs[..i] + bs[i..];
    TiledAppend(m, 8, bs[..i], bs[i..]);
  }

  /** The same fact as a walk: the blocks follow one another from the prologue to the epilogue. */
  lemma EncodesIffTiled(m: seq<byte>, brk: nat, bs: seq<Block>)
    ensures Encodes(m, brk, bs)
       <==> brk == 8 + Sum(bs) && brk <= |m| && Tiled(m, 8, bs) && GetWord(m, brk - 4) == EPILOGUE
  {
    if Encodes(m, brk, bs) {
      TilePrefix(m, bs, |bs|);
      assert bs[..|bs|] == bs;
      assert InPlace(m, bs, |bs|);
    }
    if brk == 8 + Sum(bs) && brk <= |m| && Tiled(m, 8, bs) && GetWord(m, brk - 4) == EPILOGUE {
      forall i | 0 <= i <= |bs| ensures InPlace(m, bs, i) {
        if i < |bs| { TiledInPlace(m, bs, i); }
      }
    }
  }

  lemma TiledEncodes(m: seq<byte>, brk: nat, bs: seq<Block>)
    requires brk == 8 + Sum(bs) && brk <= |m| && Tiled(m, 8, bs) && GetWord(m, brk - 4) == EPILOGUE
    ensures Encodes(m, brk, bs)
  {
    EncodesIffTiled(m, brk, bs);
  }

  lemma EncodesTiled(m: seq<byte>, brk: nat, bs: seq<Block>)
    requires Encodes(m, brk, bs)
    ensures Tiled(m, 8, bs) && GetWord(m, brk - 4) == EPILOGUE
  {
    EncodesIffTiled(m, brk, bs);
  }

  lemma TaggedAt(m: seq<byte>, brk: nat, bs: seq<Block>, i: nat)
    requires Encodes(m, brk, bs) && i < |bs|
    ensures Tagged(m, Addr(bs, i), bs[i])
  {
    assert InPlace(m, bs, i);
  }

  lemma WordBytes(m: seq<byte>, p: nat)
    requires p + 4 <= |m|
    ensures var a, b, c, d := m[p] as int, m[p + 1] as int, m[p + 2] as int, m[p + 3] as int;
            GetWord(m, p) == a + 0x100 * b + 0x1_0000 * c + 0x100_0000 * d
  {
    assert Value(m, p + 4, p + 4) == 0;
    assert Value(m, p + 3, p + 4) == m[p + 3];
    assert Value(m, p + 2, p + 4) == m[p + 2] as int + 0x100 * (m[p + 3] as int);
    assert Value(m, p + 1, p + 4) == m[p + 1] as int + 0x100 * Value(m, p + 2, p + 4);
  }

  /** The four bytes before a block pointer, and the four that end 4 bytes before the next one, hold the size
      of the block, least significant byte first, with 1 added when it is allocated. */
  lemma TagBytes(m: seq<byte>, brk: nat, bs: seq<Block>, i: nat)
    requires Encodes(m, brk, bs) && i < |bs|
    ensures 4 <= Addr(bs, i) && 8 <= bs[i].size && Addr(bs, i) + bs[i].size - 4 <= |m|
    ensures forall p | p == Addr(bs, i) - 4 || p == Addr(bs, i) + bs[i].size - 8 ::
              m[p] as int + 0x100 * (m[p + 1] as int) + 0x1_0000 * (m[p + 2] as int) + 0x100_0000 * (m[p + 3] as int)
              == bs[i].size + (if bs[i].alloc then 1 else 0)
  {
    TaggedAt(m, brk, bs, i);
    WordBytes(m, Addr(bs, i) - 4);
    WordBytes(m, Addr(bs, i) + bs[i].size - 8);
  }

  /** The list bs with blocks lo..hi-1 replaced by mid. */
  function Splice(bs: seq<Block>, lo: nat, hi: nat, mid: seq<Block>): seq<Block>
    requires lo <= hi <= |bs|
  {
    bs[..lo] + mid + bs[hi..]
  }

  /** Where the blocks of the spliced list come from. */
  lemma SpliceIndex(bs: seq<Block>, lo: nat, hi: nat, mid: seq<Block>)
    requires lo <= hi <= |bs|
    ensures |Splice(bs, lo, hi, mid)| == lo + |mid| + |bs| - hi
    ensures Splice(bs, lo, hi, mid)[..lo] == bs[..lo]
    ensures forall j :: 0 <= j < lo ==> Splice(bs, lo, hi, mid)[j] == bs[j]
    ensures forall j :: lo <= j < lo + |mid| ==> Splice(bs, lo, hi, mid)[j] == mid[j - lo]
    ensures forall j :: lo + |mid| <= j < lo + |mid| + |bs| - hi ==>
      Splice(bs, lo, hi, mid)[j] == bs[j - lo - |mid| + hi]
  {
  }

  lemma SumThree(x: seq<Block>, mid: seq<Block>, y: seq<Block>)
    ensures Sum(x + mid + y) == Sum(x) + Sum(mid) + Sum(y)
  {
    SumAppend(x + mid, y);
    SumAppend(x, mid);
  }

  lemma SpliceSum(bs: seq<Block>, lo: nat, hi: nat, mid: seq<Block>)
    requires lo <= hi <= |bs| && Sum(mid) == Sum(bs[lo..hi])
    ensures Sum(Splice(bs, lo, hi, mid)) == Sum(bs)
  {
    assert bs == bs[..lo] + bs[lo..hi] + bs[hi..];
    SumThree(bs[..lo], bs[lo..hi], bs[hi..]);
    SumThree(bs[..lo], mid, bs[hi..]);
  }

  lemma TiledSplice(m: seq<byte>, m': seq<byte>, x: seq<Block>, cut: seq<Block>, y: seq<Block>, mid: seq<Block>)
    requires Tiled(m, 8, x + cut + y) && Sum(mid) == Sum(cut)
    requires Tiled(m', 8 + Sum(x), mid)
    requires SameOutside(m, m', 4 + Sum(x), 4 + Sum(x) + Sum(cut))
    ensures Tiled(m', 8, x + mid + y)
  {
    TiledThree(m, x, cut, y);
    TiledThree(m', x, mid, y);
    TiledOutside(m, m', 4 + Sum(x), 4 + Sum(x) + Sum(cut), 8, x);
    TiledOutside(m, m', 4 + Sum(x), 4 + Sum(x) + Sum(cut), 8 + Sum(x) + Sum(cut), y);
  }

  /** Rewriting the tags of blocks lo..hi-1, writing only inside their bytes, splices the list. */
  lemma EncodesSplice(m: seq<byte>, m': seq<byte>, brk: nat, bs: seq<Block>, lo: nat, hi: nat, mid: seq<Block>)
    requires Encodes(m, brk, bs) && lo < hi <= |bs| && Sum(mid) == Sum(bs[lo..hi])
    requires Tiled(m', Addr(bs, lo), mid)
    requires SameOutside(m, m', Addr(bs, lo) - 4, Addr(bs, hi) - 4)
    ensures Encodes(m', brk, Splice(bs, lo, hi, mid))
  {
    EncodesTiled(m, brk, bs);
    assert bs == bs[..lo] + bs[lo..hi] + bs[hi..];
    SumSlice(bs, lo, hi);
    TiledSplice(m, m', bs[..lo], bs[lo..hi], bs[hi..], mid);
    SpliceSum(bs, lo, hi, mid);
    SumSplit(bs, hi);
    SameWord(m, m', Addr(bs, lo) - 4, Addr(bs, hi) - 4, brk - 4);
    TiledEncodes(m', brk, Splice(bs, lo, hi, mid));
  }

  // ---------------------------------------------------------------- well-formed block lists

  /** Every size is a multiple of 8 and at least min. */
  ghost predicate Sized(bs: seq<Block>, min: nat) {
    forall i :: 0 <= i < |bs| ==> bs[i].size % 8 == 0 && bs[i].size >= min
  }

  /** Blocks j-1 and j are not both free. */
  ghost predicate Apart(bs: seq<Block>, j: int)
    requires 0 < j < |bs|
  {
    bs[j - 1].alloc || bs[j].alloc
  }

  /** No free block has a free right neighbour, leaving out the pairs that touch block i. */
  ghost predicate CoalescedExcept(bs: seq<Block>, i: int) {
    forall j :: 0 < j < |bs| && j != i && j - 1 != i ==> Apart(bs, j)
  }

  ghost predicate Coalesced(bs: seq<Block>) {
    CoalescedExcept(bs, -2)
  }

  ghost predicate Framed(bs: seq<Block>, min: nat) {
    bs != [] && bs[0] == PROLOGUE && Sized(bs, min)
  }

  /** The whole-heap invariant: prologue first, sizes right, immediate coalescing complete. */
  ghost predicate WellFormed(bs: seq<Block>, min: nat) {
    Framed(bs, min) && Coalesced(bs)
  }

  lemma SpliceFramed(bs: seq<Block>, lo: nat, hi: nat, mid: seq<Block>, min: nat)
    requires Framed(bs, min) && 0 < lo <= hi <= |bs| && Sized(mid, min)
    ensures Framed(Splice(bs, lo, hi, mid), min)
  {
    SpliceIndex(bs, lo, hi, mid);
    var cs := Splice(bs, lo, hi, mid);
    forall j | 0 <= j < |cs| ensures cs[j].size % 8 == 0 && cs[j].size >= min {
      if j < lo { assert cs[j] == bs[j]; }
      else if j < lo + |mid| { assert cs[j] == mid[j - lo]; }
      else { assert cs[j] == bs[j - lo - |mid| + hi]; }
    }
    assert cs[0] == bs[0];
  }

  lemma SumOne(b: Block)
    ensures Sum([b]) == b.size
  {
  }

  lemma SumTwo(b: Block, c: Block)
    ensures Sum([b, c]) == b.size + c.size
  {
    assert [b, c][1..] == [c];
    SumOne(c);
  }

  lemma SizedTail(bs: seq<Block>, min: nat)
    requires Sized(bs, min) && bs != []
    ensures Sized(bs[1..], min)
  {
  }

  lemma {:induction false} SumMod8(bs: seq<Block>, min: nat)
    requires Sized(bs, min)
    ensures Sum(bs) % 8 == 0
  {
    if bs != [] {
      SizedTail(bs, min);
      SumMod8(bs[1..], min);
      Add8(bs[0].size, Sum(bs[1..]));
    }
  }

  lemma AddrMod8(bs: seq<Block>, min: nat, i: nat)
    requires Sized(bs, min) && i <= |bs|
    ensures Addr(bs, i) % 8 == 0
  {
    SumMod8(bs[..i], min);
  }

  // ---------------------------------------------------------------- live payloads

  ghost predicate Positive(bs: seq<Block>) {
    forall i :: 0 <= i < |bs| ==> bs[i].size > 0
  }

  /** Size of the allocated block at block pointer p, for the blocks bs laid out from a on; 0 if none. */
  function SizeAt(bs: seq<Block>, a: nat, p: nat): nat {
    if bs == [] then 0
    else if p == a then if bs[0].alloc then bs[0].size else 0
    else SizeAt(bs[1..], a + bs[0].size, p)
  }

  /** The live blocks a program has been handed, block pointer -> block size: every allocated block
      but the prologue. */
  function Live(bs: seq<Block>): map<nat, nat> {
    map p: nat | p < 8 + Sum(bs) && p != 8 && SizeAt(bs, 8, p) > 0 :: SizeAt(bs, 8, p)
  }

  lemma SizeAtBounds(bs: seq<Block>, a: nat, p: nat)
    requires SizeAt(bs, a, p) > 0
    ensures a <= p && p + SizeAt(bs, a, p) <= a + Sum(bs)
  {
    if p != a {
      SizeAtBounds(bs[1..], a + bs[0].size, p);
    }
  }

  lemma SizeAtAppend(x: seq<Block>, y: seq<Block>, a: nat, p: nat)
    requires Positive(x)
    ensures SizeAt(x + y, a, p) == if p < a + Sum(x) then SizeAt(x, a, p) else SizeAt(y, a + Sum(x), p)
  {
    if x == [] {
      assert x + y == y;
      if SizeAt(y, a, p) > 0 {
        SizeAtBounds(y, a, p);
      }
    } else {
      assert (x + y)[1..] == x[1..] + y;
      assert forall i :: 0 <= i < |x[1..]| ==> x[1..][i] == x[i + 1];
      SizeAtAppend(x[1..], y, a + x[0].size, p);
    }
  }

  lemma SizeAtThree(x: seq<Block>, mid: seq<Block>, y: seq<Block>, p: nat)
    requires Positive(x) && Positive(mid)
    ensures SizeAt(x + mid + y, 8, p)
         == if p < 8 + Sum(x) then SizeAt(x, 8, p)
            else if p < 8 + Sum(x) + Sum(mid) then SizeAt(mid, 8 + Sum(x), p)
            else SizeAt(y, 8 + Sum(x) + Sum(mid), p)
  {
    SumAppend(x, mid);
    SizeAtAppend(x + mid, y, 8, p);
    SizeAtAppend(x, mid, 8, p);
  }

  /** Splicing changes the live blocks only inside the replaced region. */
  lemma SizeAtSplice(bs: seq<Block>, lo: nat, hi: nat, mid: seq<Block>, p: nat)
    requires lo <= hi <= |bs| && Sum(mid) == Sum(bs[lo..hi]) && Positive(bs) && Positive(mid)
    ensures SizeAt(Splice(bs, lo, hi, mid), 8, p)
         == if Addr(bs, lo) <= p < Addr(bs, hi) then SizeAt(mid, Addr(bs, lo), p) else SizeAt(bs, 8, p)
  {
    assert bs == bs[..lo] + bs[lo..hi] + bs[hi..];
    SizeAtThree(bs[..lo], bs[lo..hi], bs[hi..], p);
    SizeAtThree(bs[..lo], mid, bs[hi..], p);
    SumSlice(bs, lo, hi);
  }

  /** Inside the bytes of blocks lo..hi-1 only those blocks matter. */
  lemma SizeAtWithin(bs: seq<Block>, lo: nat, hi: nat, p: nat)
    requires lo <= hi <= |bs| && Positive(bs) && Addr(bs, lo) <= p < Addr(bs, hi)
    ensures SizeAt(bs, 8, p) == SizeAt(bs[lo..hi], Addr(bs, lo), p)
  {
    assert bs == bs[..lo] + bs[lo..hi] + bs[hi..];
    SizeAtThree(bs[..lo], bs[lo..hi], bs[hi..], p);
    SumSlice(bs, lo, hi);
  }

  /** The block at index i, seen through its address. */
  lemma SizeAtIndex(bs: seq<Block>, i: nat)
    requires Positive(bs) && i < |bs|
    ensures SizeAt(bs, 8, Addr(bs, i)) == if bs[i].alloc then bs[i].size else 0
  {
    assert bs == bs[..i] + bs[i..];
    SizeAtAppend(bs[..i], bs[i..], 8, Addr(bs, i));
  }

  lemma SizeAtFree(bs: seq<Block>, a: nat, p: nat)
    requires forall i :: 0 <= i < |bs| ==> !bs[i].alloc
    ensures SizeAt(bs, a, p) == 0
  {
    if bs != [] {
      assert forall i :: 0 <= i < |bs[1..]| ==> bs[1..][i] == bs[i + 1];
    }
  }

  /** If only the block at p differs, only the entry of p differs. */
  lemma LiveUpdate(bs: seq<Block>, cs: seq<Block>, p: nat, s: nat)
    requires forall q: nat :: SizeAt(cs, 8, q) == if q == p then s else SizeAt(bs, 8, q)
    requires p != 8
    ensures Live(cs) == if s > 0 then Live(bs)[p := s] else Live(bs) - {p}
  {
    var want := if s > 0 then Live(bs)[p := s] else Live(bs) - {p};
    forall q: nat ensures q in Live(cs) <==> q in want {
      if SizeAt(cs, 8, q) > 0 { SizeAtBounds(cs, 8, q); }
      if SizeAt(bs, 8, q) > 0 { SizeAtBounds(bs, 8, q); }
    }
  }

  lemma LiveSame(bs: seq<Block>, cs: seq<Block>)
    requires forall q: nat :: SizeAt(cs, 8, q) == SizeAt(bs, 8, q)
    ensures Live(cs) == Live(bs)
  {
    forall q: nat ensures q in Live(cs) <==> q in Live(bs) {
      if SizeAt(cs, 8, q) > 0 {
        SizeAtBounds(cs, 8, q);
        SizeAtBounds(bs, 8, q);
      }
    }
  }

  /** The index of the allocated block whose block pointer is p. */
  function IndexFrom(bs: seq<Block>, a: nat, p: nat): (i: nat)
    requires SizeAt(bs, a, p) > 0
    ensures i < |bs| && bs[i].alloc && a + Sum(bs[..i]) == p && bs[i].size == SizeAt(bs, a, p)
  {
    if p == a then 0
    else
      var i := 1 + IndexFrom(bs[1..], a + bs[0].size, p);
      assert bs[..i] == [bs[0]] + bs[1..][..i - 1];
      SumAppend([bs[0]], bs[1..][..i - 1]);
      i
  }

  function IndexOf(bs: seq<Block>, p: nat): (i: nat)
    requires p in Live(bs)
    ensures i < |bs| && bs[i] == Block(Live(bs)[p], true) && Addr(bs, i) == p
  {
    IndexFrom(bs, 8, p)
  }

  lemma LiveSized(bs: seq<Block>, min: nat, p: nat)
    requires Sized(bs, min) && p in Live(bs)
    ensures Live(bs)[p] >= min && Live(bs)[p] % 8 == 0 && p % 8 == 0
  {
    AddrMod8(bs, min, IndexOf(bs, p));
  }

  /** The payload bytes of every block in live are the same in m and m'. */
  ghost predicate SamePayloads(m: seq<byte>, m': seq<byte>, live: map<nat, nat>) {
    |m| == |m'| && forall p, k :: p in live && p <= k < p + live[p] - 8 && k < |m| ==> SameAt(m, m', k)
  }

  lemma LiveEnd(bs: seq<Block>, p: nat)
    requires p in Live(bs)
    ensures p + Live(bs)[p] <= 8 + Sum(bs)
  {
    SizeAtBounds(bs, 8, p);
  }

  /** Two live blocks do not overlap, and each lies between the prologue and the end of the heap. */
  lemma LiveDisjoint(bs: seq<Block>, p: nat, q: nat)
    requires p in Live(bs) && q in Live(bs) && p < q
    ensures p + Live(bs)[p] <= q && q + Live(bs)[q] <= 8 + Sum(bs)
  {
    var i, j := IndexOf(bs, p), IndexOf(bs, q);
    if j < i { AddrMonotone(bs, j, i); }
    AddrMonotone(bs, i, j);
    SizeAtBounds(bs, 8, q);
  }

  /** Writing only inside the bytes of blocks lo..hi-1 touches no payload of a block outside them. */
  lemma SpliceSamePayloads(m: seq<byte>, m': seq<byte>, bs: seq<Block>, lo: nat, hi: nat, live: map<nat, nat>)
    requires lo < hi <= |bs|
    requires SameOutside(m, m', Addr(bs, lo) - 4, Addr(bs, hi) - 4)
    requires forall p :: p in live ==> p in Live(bs) && live[p] == Live(bs)[p] && !(lo <= IndexOf(bs, p) < hi)
    ensures SamePayloads(m, m', live)
  {
    forall p, k | p in live && p <= k < p + live[p] - 8 && k < |m| ensures SameAt(m, m', k) {
      var i := IndexOf(bs, p);
      if i < lo {
        AddrMonotone(bs, i, lo);
      } else if hi < i {
        AddrMonotone(bs, hi, i);
      }
    }
  }

  /** Nor does writing over the footer of the block before block i as well. */
  lemma FooterSamePayloads(m: seq<byte>, m': seq<byte>, bs: seq<Block>, i: nat)
    requires 0 < i < |bs| && !bs[i].alloc
    requires SameOutside(m, m', Addr(bs, i) - 8, Addr(bs, i + 1) - 4)
    ensures SamePayloads(m, m', Live(bs))
  {
    var live := Live(bs);
    forall p, k | p in live && p <= k < p + live[p] - 8 && k < |m| ensures SameAt(m, m', k) {
      var j := IndexOf(bs, p);
      if j < i {
        AddrMonotone(bs, j, i);
      } else {
        AddrMonotone(bs, i, j);
        if j > i + 1 { AddrMonotone(bs, i + 1, j); }
      }
    }
  }

  lemma SamePayloadsFewer(m: seq<byte>, m': seq<byte>, live: map<nat, nat>, fewer: map<nat, nat>)
    requires SamePayloads(m, m', live)
    requires forall p :: p in fewer ==> p in live && fewer[p] == live[p]
    ensures SamePayloads(m, m', fewer)
  {
    forall p, k | p in fewer && p <= k < p + fewer[p] - 8 && k < |m| ensures SameAt(m, m', k) {
      assert p in live;
    }
  }

  lemma SamePayloadsTwice(m: seq<byte>, m1: seq<byte>, m2: seq<byte>, live: map<nat, nat>)
    requires SamePayloads(m, m1, live) && SamePayloads(m1, m2, live)
    ensures SamePayloads(m, m2, live)
  {
    forall p, k | p in live && p <= k < p + live[p] - 8 && k < |m| ensures SameAt(m, m2, k) {
      assert SameAt(m, m1, k) && SameAt(m1, m2, k);
    }
  }

  lemma PayloadSlice(m: seq<byte>, m': seq<byte>, live: map<nat, nat>, p: nat, n: nat)
    requires SamePayloads(m, m', live) && p in live && n + 8 <= live[p] && p + n <= |m|
    ensures Copied(m, p, m', p, n)
  {
    forall k | p <= k < p + n ensures m'[k] == m[k] {
      assert SameAt(m, m', k);
    }
  }

  /** Writing between the header and the footer of block i leaves all tags in place. */
  lemma WriteInside(m: seq<byte>, m': seq<byte>, brk: nat, bs: seq<Block>, i: nat)
    requires Encodes(m, brk, bs) && i < |bs|
    requires SameOutside(m, m', Addr(bs, i), Addr(bs, i) + bs[i].size - 8)
    ensures Encodes(m', brk, bs) && SameOutside(m, m', Addr(bs, i) - 4, Addr(bs, i + 1) - 4)
  {
    var p, b := Addr(bs, i), bs[i];
    TaggedAt(m, brk, bs, i);
    TaggedInside(m, m', p, b);
    AddrNext(bs, i);
    assert bs[i..i + 1] == [b];
    SameWiden(m, m', p - 4, p + b.size - 4, p, p + b.size - 8);
    EncodesSplice(m, m', brk, bs, i, i + 1, [b]);
    assert Splice(bs, i, i + 1, [b]) == bs;
  }

  /** A program that writes only into its own payload disturbs neither the tags nor another payload. */
  lemma PayloadWrite(m: seq<byte>, m': seq<byte>, brk: nat, bs: seq<Block>, p: nat)
    requires Encodes(m, brk, bs) && p in Live(bs)
    requires SameOutside(m, m', p, p + Live(bs)[p] - 8)
    ensures Encodes(m', brk, bs) && SamePayloads(m, m', Live(bs) - {p})
  {
    var i := IndexOf(bs, p);
    WriteInside(m, m', brk, bs, i);
    SpliceSamePayloads(m, m', bs, i, i + 1, Live(bs) - {p});
  }

  lemma TaggedInside(m: seq<byte>, m': seq<byte>, p: nat, b: Block)
    requires Tagged(m, p, b) && SameOutside(m, m', p, p + b.size - 8)
    ensures Tiled(m', p, [b])
  {
    SameWord(m, m', p, p + b.size - 8, p - 4);
    SameWord(m, m', p, p + b.size - 8, p + b.size - 8);
    TiledOne(m', p, b);
  }

  /** A free block over the old epilogue and a new epilogue after it: the list has one more block. */
  lemma GrownEncodes(m: seq<byte>, m': seq<byte>, bs: seq<Block>, size: nat)
    requires Encodes(m, 8 + Sum(bs), bs)
    requires SameOutside(m, m', 4 + Sum(bs), 8 + Sum(bs) + size)
    requires Tagged(m', 8 + Sum(bs), Block(size, false)) && 8 + Sum(bs) + size <= |m|
    requires GetWord(m', 4 + Sum(bs) + size) == EPILOGUE
    ensures Encodes(m', 8 + Sum(bs) + size, bs + [Block(size, false)])
  {
    var f := Block(size, false);
    TiledGrown(m, m', bs, f);
    GrownEnd(m', bs + [f], 8 + Sum(bs) + size);
  }

  lemma GrownEnd(m: seq<byte>, bs: seq<Block>, brk: nat)
    requires brk == 8 + Sum(bs) && brk <= |m| && Tiled(m, 8, bs) && GetWord(m, brk - 4) == EPILOGUE
    ensures Encodes(m, brk, bs)
  {
    TiledEncodes(m, brk, bs);
  }

  lemma TiledGrown(m: seq<byte>, m': seq<byte>, bs: seq<Block>, f: Block)
    requires Encodes(m, 8 + Sum(bs), bs)
    requires SameOutside(m, m', 4 + Sum(bs), 8 + Sum(bs) + f.size)
    requires Tagged(m', 8 + Sum(bs), f)
    ensures Tiled(m', 8, bs + [f]) && Sum(bs + [f]) == Sum(bs) + f.size
  {
    EncodesTiled(m, 8 + Sum(bs), bs);
    TiledOutside(m, m', 4 + Sum(bs), 8 + Sum(bs) + f.size, 8, bs);
    TiledOne(m', 8 + Sum(bs), f);
    TiledAppend(m', 8, bs, [f]);
    SumAppend(bs, [f]);
    SumOne(f);
  }

  lemma BelowSamePayloads(m: seq<byte>, m': seq<byte>, bs: seq<Block>, hi: int)
    requires SameOutside(m, m', 4 + Sum(bs), hi)
    ensures SamePayloads(m, m', Live(bs))
  {
    forall p, k | p in Live(bs) && p <= k < p + Live(bs)[p] - 8 && k < |m| ensures SameAt(m, m', k) {
      SizeAtBounds(bs, 8, p);
    }
  }
}
