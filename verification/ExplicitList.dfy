/** mm.c's second allocator: the explicit LIFO free list, with next and prev pointers stored in the free
    blocks themselves, in the same bytes as the tags and the payloads. */
module ExplicitList {
  import opened Words
  import opened Blocks
  import opened Policy
  import opened Memlib
  import opened Links
  import opened FreeListPolicy
  import Mm

  class FreeList {
    /** The tag macros and the arena, shared with the implicit-list allocator. */
    const mm: Mm.Allocator
    var heapBaseFree: nat
    /** The nodes from heapBaseFree on. */
    ghost var list: seq<nat>

    /** The tags encode the blocks, and the pointers in memory chain the nodes of list, forwards and
        backwards; of the free blocks only those in out are not listed. */
    ghost predicate Sound(out: set<nat>)
      reads this, mm, mm.arena, mm.arena.data
    {
      && mm.Encoded() && Framed(mm.blocks, FREEBLOCKSIZE)
      && Listed(mm.blocks, list, out) && Linked(mm.arena.data[..], list) && heapBaseFree == list[0]
    }

    ghost predicate Valid()
      reads this, mm, mm.arena, mm.arena.data
    {
      Sound({}) && Coalesced(mm.blocks)
    }

    ghost function State(): Heap
      reads this, mm
    {
      Heap(mm.blocks, list)
    }

    constructor (allocator: Mm.Allocator)
      ensures mm == allocator
    {
      mm := allocator;
      heapBaseFree := 0;
      list := [];
    }

    // -------------------------------------------------------------- reading the pointers

    function NextOf(bp: nat): nat
      requires bp + 8 <= mm.arena.data.Length
      reads mm.arena.data
    {
      GetLong(mm.arena.data[..], bp)
    }

    function PrevOf(bp: nat): nat
      requires bp + 16 <= mm.arena.data.Length
      reads mm.arena.data
    {
      GetLong(mm.arena.data[..], bp + 8)
    }

    /** What the pointers and the header of node k say. */
    lemma NodeFacts(k: nat, out: set<nat>)
      requires Sound(out) && k < |list|
      ensures 8 <= list[k] && list[k] + 24 <= mm.arena.brk <= mm.arena.data.Length && list[k] % 8 == 0
      ensures NextOf(list[k]) == if k < |list| - 1 then list[k + 1] else 0
      ensures PrevOf(list[k]) == if k > 0 then list[k - 1] else 0
      ensures k == |list| - 1 <==> list[k] == SENTINEL
      ensures k < |list| - 1 ==> FreeSize(mm.blocks, list[k]) > 0 && list[k] !in out
    {
      assert list[k] in list;
      assert Node(mm.arena.data[..], list, k);
      if k < |list| - 1 { assert Far(list, k, |list| - 1); }
      SizedFewer(mm.blocks);
      mm.Tags(NodeIndex(mm.blocks, list[k]));
    }

    /** What is in memory: heapBaseFree points at the first node, the 8 bytes at a node hold the address of the
        next node, or 0 in the last, and the 8 bytes after those the address of the node before, or 0 in the first. */
    lemma PointersInMemory(k: nat)
      requires Valid() && k < |list|
      ensures heapBaseFree == list[0] && list[|list| - 1] == 8 && list[k] + 16 <= mm.arena.data.Length
      ensures Value(mm.arena.data[..], list[k], list[k] + 8) == if k + 1 < |list| then list[k + 1] else 0
      ensures Value(mm.arena.data[..], list[k] + 8, list[k] + 16) == if k > 0 then list[k - 1] else 0
    {
      NodeFacts(k, {});
    }

    static lemma SizedFewer(bs: seq<Block>)
      requires Framed(bs, FREEBLOCKSIZE)
      ensures Framed(bs, MINBLOCK)
    {
    }

    // -------------------------------------------------------------- find_fit_exp

    /** find_fit_exp: the first node in list order that fits. */
    method FindFitExp(asize: nat) returns (p: Ptr)
      requires Valid() && asize > 0
      ensures var k := ListFit(mm.blocks, list, asize);
              p == if k < |list| - 1 then At(list[k]) else Null
    {
      var bp := heapBaseFree;
      ghost var k := 0;
      Visit(0);
      while !AllocOf(mm.Get(mm.Hdrp(bp)))
        invariant AtNode(k, bp) && k <= ListFit(mm.blocks, list, asize)
        decreases |list| - k
      {
        if asize <= mm.BlockSize(bp) {
          return At(bp);
        }
        bp := NextOf(bp);
        k := k + 1;
        Visit(k);
      }
      return Null;
    }

    /** What the search reads at its k-th step. */
    ghost predicate AtNode(k: nat, bp: nat)
      reads this, mm, mm.arena.data
    {
      && k < |list| && bp == list[k] && 8 <= bp <= mm.arena.data.Length - 24
      && (AllocOf(mm.Get(bp - 4)) <==> k == |list| - 1)
      && (k < |list| - 1 ==> mm.BlockSize(bp) == FreeSize(mm.blocks, list[k]) && NextOf(bp) == list[k + 1])
    }

    lemma Visit(k: nat)
      requires Valid() && k < |list|
      ensures AtNode(k, list[k])
    {
      NodeFacts(k, {});
      HeaderFacts(k, {});
    }

    /** A listed node's header: the sentinel's says allocated, the others' free with their size. */
    lemma HeaderFacts(k: nat, out: set<nat>)
      requires Sound(out) && k < |list| && 8 <= list[k] <= mm.arena.data.Length
      ensures AllocOf(mm.Get(list[k] - 4)) <==> list[k] == SENTINEL
      ensures list[k] != SENTINEL ==> mm.BlockSize(list[k]) == FreeSize(mm.blocks, list[k])
    {
      assert list[k] in list;
      SizedFewer(mm.blocks);
      mm.Tags(NodeIndex(mm.blocks, list[k]));
    }

    // -------------------------------------------------------------- coalesce_helper

    /** coalesce_helper: takes the node at bp out of the list. */
    method SpliceOut(bp: nat, ghost k: nat, ghost out: set<nat>)
      requires Sound(out) && k < |list| - 1 && bp == list[k]
      modifies `list, `heapBaseFree, mm.arena.data
      ensures Sound(out + {bp}) && list == Without(old(list), bp)
      ensures SamePayloads(old(mm.arena.data[..]), mm.arena.data[..], Live(mm.blocks))
    {
      ghost var m, ns, bs := mm.arena.data[..], list, mm.blocks;
      Around(k, out);
      ghost var m1 := Bypass(PrevOf(bp), NextOf(bp));
      SplicedOut(m, m1, mm.arena.data[..], ns, k, out);
      list := Remove(ns, k);
    }

    lemma Around(k: nat, out: set<nat>)
      requires Sound(out) && k < |list| - 1
      ensures list[k] + 16 <= mm.arena.data.Length
      ensures NextOf(list[k]) == list[k + 1] && 0 < list[k + 1] <= mm.arena.data.Length - 16
      ensures PrevOf(list[k]) == if k > 0 then list[k - 1] else 0
      ensures k > 0 ==> 0 < list[k - 1] <= mm.arena.data.Length - 8
    {
      NodeFacts(k, out);
      NodeFacts(k + 1, out);
      if k > 0 { NodeFacts(k - 1, out); }
    }

    /** The stores of coalesce_helper; m1 is the memory between them. */
    method Bypass(prev: nat, next: nat) returns (ghost m1: seq<byte>)
      requires prev + 8 <= mm.arena.data.Length <= MAX_HEAP && 0 < next <= mm.arena.data.Length - 16
      modifies `heapBaseFree, mm.arena.data
      ensures heapBaseFree == if prev != 0 then old(heapBaseFree) else next
      ensures |m1| == mm.arena.data.Length
      ensures if prev != 0 then SameOutside(old(mm.arena.data[..]), m1, prev, prev + 8) && GetLong(m1, prev) == next
              else m1 == old(mm.arena.data[..])
      ensures SameOutside(m1, mm.arena.data[..], next + 8, next + 16) && GetLong(mm.arena.data[..], next + 8) == prev
    {
      if prev != 0 {
        PutLong(mm.arena.data, prev, next);
      } else {
        heapBaseFree := next;
      }
      m1 := mm.arena.data[..];
      if next != 0 {
        PutLong(mm.arena.data, next + 8, prev);
      }
    }

    /** What the two stores of coalesce_helper do, and what they leave alone. */
    lemma SplicedOut(m: seq<byte>, m1: seq<byte>, m2: seq<byte>, ns: seq<nat>, k: nat, out: set<nat>)
      requires Encodes(m, mm.arena.brk, mm.blocks) && Framed(mm.blocks, FREEBLOCKSIZE)
      requires Listed(mm.blocks, ns, out) && Linked(m, ns) && k < |ns| - 1 && Bypassed(m, m1, m2, ns, k)
      ensures Encodes(m2, mm.arena.brk, mm.blocks) && SamePayloads(m, m2, Live(mm.blocks))
      ensures Linked(m2, Remove(ns, k)) && Listed(mm.blocks, Remove(ns, k), out + {ns[k]})
      ensures Without(ns, ns[k]) == Remove(ns, k)
    {
      if k > 0 { NodeWrite(m, m1, ns, k - 1, 0, out); }
      NodeWrite(m1, m2, ns, k + 1, 8, out);
      SamePayloadsTwice(m, m1, m2, Live(mm.blocks));
      Unlinked(m, m1, m2, ns, k);
      ListedRemove(mm.blocks, ns, out, k);
    }

    /** A store into one pointer of node k. */
    lemma NodeWrite(m: seq<byte>, m': seq<byte>, ns: seq<nat>, k: nat, slot: nat, out: set<nat>)
      requires Encodes(m, mm.arena.brk, mm.blocks) && Framed(mm.blocks, FREEBLOCKSIZE)
      requires Listed(mm.blocks, ns, out) && k < |ns| && slot <= 8
      requires SameOutside(m, m', ns[k] + slot, ns[k] + slot + 8)
      ensures Encodes(m', mm.arena.brk, mm.blocks) && SamePayloads(m, m', Live(mm.blocks))
    {
      assert ns[k] in ns;
      SameWiden(m, m', ns[k], ns[k] + SLOTS, ns[k] + slot, ns[k] + slot + 8);
      SlotWrite(m, m', mm.arena.brk, mm.blocks, ns[k]);
    }

    /** coalesce_helper on a block known by its index. */
    method TakeOut(bp: nat, ghost i: nat, ghost out: set<nat>)
      requires Sound(out) && 0 < i < |mm.blocks| && !mm.blocks[i].alloc && bp == Addr(mm.blocks, i) && bp !in out
      modifies `list, `heapBaseFree, mm.arena.data
      ensures Sound(out + {bp}) && list == Without(old(list), bp)
      ensures SamePayloads(old(mm.arena.data[..]), mm.arena.data[..], Live(mm.blocks))
    {
      FreeNode(mm.blocks, i);
      ghost var k :| 0 <= k < |list| && list[k] == bp;
      SpliceOut(bp, k, out);
    }

    // -------------------------------------------------------------- insertion

    /** The last lines of exp_coalesce: bp becomes the front of the list. */
    method PushFront(bp: nat)
      requires Sound({bp}) && FreeSize(mm.blocks, bp) > 0 && bp != SENTINEL
      modifies `list, `heapBaseFree, mm.arena.data
      ensures Sound({}) && list == [bp] + old(list)
      ensures SamePayloads(old(mm.arena.data[..]), mm.arena.data[..], Live(mm.blocks))
    {
      ghost var m, ns, bs := mm.arena.data[..], list, mm.blocks;
      NodeFacts(0, {bp});
      PushedListed(bs, ns, bp);
      ghost var r := [bp] + ns;
      FreeFacts(bp);
      PutLong(mm.arena.data, heapBaseFree + 8, bp);
      ghost var m1 := mm.arena.data[..];
      NodeWrite(m, m1, r, 1, 8, {});
      PutLong(mm.arena.data, bp, heapBaseFree);
      ghost var m2 := mm.arena.data[..];
      NodeWrite(m1, m2, r, 0, 0, {});
      PutLong(mm.arena.data, bp + 8, 0);
      ghost var m3 := mm.arena.data[..];
      NodeWrite(m2, m3, r, 0, 8, {});
      SamePayloadsTwice(m, m1, m2, Live(bs));
      SamePayloadsTwice(m, m2, m3, Live(bs));
      Pushed(m, m1, m2, m3, ns, bp);
      heapBaseFree := bp;
      list := r;
    }

    lemma FreeFacts(bp: nat)
      requires mm.Encoded() && Framed(mm.blocks, FREEBLOCKSIZE) && FreeSize(mm.blocks, bp) > 0
      ensures 8 <= bp && bp + 24 <= mm.arena.brk <= mm.arena.data.Length
    {
      SizedFewer(mm.blocks);
      mm.Tags(FreeIndex(mm.blocks, bp));
    }

    // -------------------------------------------------------------- exp_coalesce

    /** Block i at bp is free, not listed and perhaps beside other free blocks. */
    ghost predicate Loose(bp: nat, i: nat)
      reads this, mm, mm.arena, mm.arena.data
    {
      && Sound({bp}) && CoalescedExcept(mm.blocks, i)
      && 0 < i < |mm.blocks| && !mm.blocks[i].alloc && bp == Addr(mm.blocks, i)
    }

    /** Stores the header and footer of the merged block. */
    method Retag(bp: nat, size: nat, ghost i: nat)
      requires 0 < i < |mm.blocks| && !mm.blocks[i].alloc && CoalescedExcept(mm.blocks, i)
      requires Sound(Region(mm.blocks, i)) && bp == Addr(mm.blocks, CoalesceLo(mm.blocks, i))
      requires size == Sum(mm.blocks[CoalesceLo(mm.blocks, i)..CoalesceHi(mm.blocks, i)])
      modifies mm`blocks, mm.arena.data
      ensures Sound({bp}) && Coalesced(mm.blocks) && mm.blocks == Policy.Coalesce(old(mm.blocks), i)
      ensures FreeSize(mm.blocks, bp) > 0 && bp != SENTINEL
      ensures SamePayloads(old(mm.arena.data[..]), mm.arena.data[..], Live(old(mm.blocks)))
    {
      ghost var m, bs := mm.arena.data[..], mm.blocks;
      RegionBounds(i);
      mm.PutTags(bp, size, 0);
      RetaggedRegion(m, mm.arena.data[..], bs, i);
      CoalesceWellFormed(bs, i, FREEBLOCKSIZE);
      mm.blocks := Policy.Coalesce(bs, i);
    }

    lemma RegionBounds(i: nat)
      requires mm.Encoded() && Framed(mm.blocks, FREEBLOCKSIZE) && 0 < i < |mm.blocks|
      ensures var lo, hi := CoalesceLo(mm.blocks, i), CoalesceHi(mm.blocks, i);
              && Sum(mm.blocks[lo..hi]) % 8 == 0 && Sum(mm.blocks[lo..hi]) >= FREEBLOCKSIZE
              && Addr(mm.blocks, hi) == Addr(mm.blocks, lo) + Sum(mm.blocks[lo..hi]) <= mm.arena.data.Length <= MAX_HEAP
              && 32 <= Addr(mm.blocks, lo)
    {
      var lo, hi := CoalesceLo(mm.blocks, i), CoalesceHi(mm.blocks, i);
      MergedSize(mm.blocks, lo, i, hi, FREEBLOCKSIZE);
      SumSlice(mm.blocks, lo, hi);
      SumSplit(mm.blocks, hi);
      AddrMonotone(mm.blocks, 0, lo);
    }

    lemma RetaggedRegion(m: seq<byte>, m': seq<byte>, bs: seq<Block>, i: nat)
      requires Encodes(m, mm.arena.brk, bs) && Framed(bs, FREEBLOCKSIZE) && CoalescedExcept(bs, i)
      requires 0 < i < |bs| && !bs[i].alloc && Listed(bs, list, Region(bs, i)) && Linked(m, list)
      requires var lo, hi := CoalesceLo(bs, i), CoalesceHi(bs, i);
               && Tagged(m', Addr(bs, lo), Block(Sum(bs[lo..hi]), false))
               && SameOutside(m, m', Addr(bs, lo) - 4, Addr(bs, hi) - 4)
      requires m' == mm.arena.data[..]
      ensures Encodes(m', mm.arena.brk, Policy.Coalesce(bs, i)) && SamePayloads(m, m', Live(bs))
      ensures Linked(m', list) && Listed(Policy.Coalesce(bs, i), list, {Addr(bs, CoalesceLo(bs, i))})
      ensures FreeSize(Policy.Coalesce(bs, i), Addr(bs, CoalesceLo(bs, i))) > 0
    {
      var lo, hi := CoalesceLo(bs, i), CoalesceHi(bs, i);
      mm.MergedRegion(m, bs, i);
      forall j | lo <= j < hi && !bs[j].alloc ensures Addr(bs, j) in Region(bs, i) {}
      LinkedSplice(m, m', bs, lo, hi, list, Region(bs, i));
      MergedListed(bs, i, list);
    }

    /** Where block i's neighbours are. */
    lemma Neighbourhood(i: nat)
      requires mm.Encoded() && Framed(mm.blocks, FREEBLOCKSIZE) && CoalescedExcept(mm.blocks, i)
      requires 0 < i < |mm.blocks| && !mm.blocks[i].alloc
      ensures mm.Uncoalesced(i)
    {
      SizedFewer(mm.blocks);
    }

    /** Case 2: the free block after bp leaves the list and joins bp. */
    method CoalesceNext(bp: nat, ghost i: nat)
      requires Loose(bp, i) && mm.blocks[i - 1].alloc && i + 1 < |mm.blocks| && !mm.blocks[i + 1].alloc
      modifies `list, `heapBaseFree, mm`blocks, mm.arena.data
      ensures Sound({bp}) && Coalesced(mm.blocks) && mm.blocks == Policy.Coalesce(old(mm.blocks), i)
      ensures FreeSize(mm.blocks, bp) > 0 && bp != SENTINEL
      ensures list == Without(old(list), Addr(old(mm.blocks), i + 1))
      ensures SamePayloads(old(mm.arena.data[..]), mm.arena.data[..], Live(old(mm.blocks)))
    {
      ghost var m, bs := mm.arena.data[..], mm.blocks;
      Neighbourhood(i);
      mm.Tags(i);
      mm.Tags(i + 1);
      var next := mm.Next(bp);
      var size := mm.BlockSize(bp) + mm.BlockSize(next);
      mm.CoalesceRegion(i);
      TakeOut(next, i + 1, {bp});
      ghost var m1 := mm.arena.data[..];
      assert Region(bs, i) == {bp} + {next};
      Retag(bp, size, i);
      SamePayloadsTwice(m, m1, mm.arena.data[..], Live(bs));
    }

    /** Case 3: the free block before bp leaves the list and takes bp in. */
    method CoalescePrev(bp0: nat, ghost i: nat) returns (bp: nat)
      requires Loose(bp0, i) && !mm.blocks[i - 1].alloc && (i + 1 < |mm.blocks| ==> mm.blocks[i + 1].alloc)
      modifies `list, `heapBaseFree, mm`blocks, mm.arena.data
      ensures Sound({bp}) && Coalesced(mm.blocks) && mm.blocks == Policy.Coalesce(old(mm.blocks), i)
      ensures FreeSize(mm.blocks, bp) > 0 && bp != SENTINEL && bp == Addr(old(mm.blocks), i - 1)
      ensures list == Without(old(list), Addr(old(mm.blocks), i - 1))
      ensures SamePayloads(old(mm.arena.data[..]), mm.arena.data[..], Live(old(mm.blocks)))
    {
      ghost var m, bs := mm.arena.data[..], mm.blocks;
      Neighbourhood(i);
      mm.Tags(i);
      mm.Tags(i - 1);
      bp := bp0;
      var size := mm.BlockSize(bp) + mm.BlockSize(mm.Prev(bp));
      mm.CoalesceRegion(i);
      bp := mm.Prev(bp);
      FirstNotFree(bs);
      TakeOut(bp, i - 1, {bp0});
      ghost var m1 := mm.arena.data[..];
      assert Region(bs, i) == {bp0} + {bp};
      Retag(bp, size, i);
      SamePayloadsTwice(m, m1, mm.arena.data[..], Live(bs));
    }

    static lemma FirstNotFree(bs: seq<Block>)
      requires Framed(bs, FREEBLOCKSIZE)
      ensures bs[0].alloc
    {
    }

    /** Case 4: both neighbours leave the list. */
    method CoalesceBoth(bp0: nat, ghost i: nat) returns (bp: nat)
      requires Loose(bp0, i) && !mm.blocks[i - 1].alloc && i + 1 < |mm.blocks| && !mm.blocks[i + 1].alloc
      modifies `list, `heapBaseFree, mm`blocks, mm.arena.data
      ensures Sound({bp}) && Coalesced(mm.blocks) && mm.blocks == Policy.Coalesce(old(mm.blocks), i)
      ensures FreeSize(mm.blocks, bp) > 0 && bp != SENTINEL && bp == Addr(old(mm.blocks), i - 1)
      ensures list == Without(Without(old(list), Addr(old(mm.blocks), i - 1)), Addr(old(mm.blocks), i + 1))
      ensures SamePayloads(old(mm.arena.data[..]), mm.arena.data[..], Live(old(mm.blocks)))
    {
      ghost var m, bs := mm.arena.data[..], mm.blocks;
      var prev, next, size := ReadBoth(bp0, i);
      TakeOutBoth(prev, next, i);
      ghost var m1 := mm.arena.data[..];
      bp := prev;
      Retag(bp, size, i);
      SamePayloadsTwice(m, m1, mm.arena.data[..], Live(bs));
    }

    /** PREV_BLKP(bp), NEXT_BLKP(bp) and the size of the three together. */
    method ReadBoth(bp: nat, ghost i: nat) returns (prev: nat, next: nat, size: nat)
      requires Loose(bp, i) && !mm.blocks[i - 1].alloc && i + 1 < |mm.blocks| && !mm.blocks[i + 1].alloc
      ensures prev == Addr(mm.blocks, i - 1) && next == Addr(mm.blocks, i + 1)
      ensures prev == Addr(mm.blocks, CoalesceLo(mm.blocks, i))
      ensures size == Sum(mm.blocks[CoalesceLo(mm.blocks, i)..CoalesceHi(mm.blocks, i)])
    {
      ghost var l, b, r := mm.blocks[i - 1], mm.blocks[i], mm.RightOf(mm.blocks, i);
      Neighbourhood(i);
      FirstNotFree(mm.blocks);
      mm.AroundTagged(i);
      AddrNext(mm.blocks, i);
      mm.ReadPrev(bp, l);
      mm.ReadTags(bp, b);
      prev, next := mm.Prev(bp), mm.Next(bp);
      size := mm.SumNeighbours(bp, l, b, r);
    }

    method TakeOutBoth(prev: nat, next: nat, ghost i: nat)
      requires 0 < i < |mm.blocks| && Loose(Addr(mm.blocks, i), i)
      requires !mm.blocks[i - 1].alloc && i + 1 < |mm.blocks| && !mm.blocks[i + 1].alloc
      requires prev == Addr(mm.blocks, i - 1) && next == Addr(mm.blocks, i + 1)
      modifies `list, `heapBaseFree, mm.arena.data
      ensures Sound(Region(mm.blocks, i)) && list == Without(Without(old(list), prev), next)
      ensures SamePayloads(old(mm.arena.data[..]), mm.arena.data[..], Live(mm.blocks))
    {
      ghost var m, bs, bp := mm.arena.data[..], mm.blocks, Addr(mm.blocks, i);
      FirstNotFree(bs);
      AddrNext(bs, i - 1);
      AddrNext(bs, i);
      TakeOut(prev, i - 1, {bp});
      ghost var m1 := mm.arena.data[..];
      TakeOut(next, i + 1, {bp} + {prev});
      assert Region(bs, i) == {bp} + {prev} + {next};
      SamePayloadsTwice(m, m1, mm.arena.data[..], Live(bs));
    }

    /** exp_coalesce: the merged block goes to the front of the list. */
    method ExpCoalesce(bp0: nat, ghost i: nat) returns (bp: nat)
      requires Loose(bp0, i)
      modifies `list, `heapBaseFree, mm`blocks, mm.arena.data
      ensures Valid() && State() == Gather(old(State()), i)
      ensures bp == Addr(old(mm.blocks), CoalesceLo(old(mm.blocks), i))
      ensures SamePayloads(old(mm.arena.data[..]), mm.arena.data[..], Live(old(mm.blocks)))
    {
      ghost var m, bs := mm.arena.data[..], mm.blocks;
      bp := CoalesceCases(bp0, i);
      ghost var m1 := mm.arena.data[..];
      CoalesceLive(bs, i, FREEBLOCKSIZE);
      PushFront(bp);
      SamePayloadsTwice(m, m1, mm.arena.data[..], Live(bs));
    }

    method CoalesceCases(bp0: nat, ghost i: nat) returns (bp: nat)
      requires Loose(bp0, i)
      modifies `list, `heapBaseFree, mm`blocks, mm.arena.data
      ensures Sound({bp}) && Coalesced(mm.blocks) && mm.blocks == Policy.Coalesce(old(mm.blocks), i)
      ensures FreeSize(mm.blocks, bp) > 0 && bp != SENTINEL
      ensures bp == Addr(old(mm.blocks), CoalesceLo(old(mm.blocks), i))
      ensures list == WithoutNeighbours(old(mm.blocks), old(list), i)
      ensures SamePayloads(old(mm.arena.data[..]), mm.arena.data[..], Live(old(mm.blocks)))
    {
      bp := bp0;
      var prevAlloc, nextAlloc := ReadFlags(bp, i);
      if prevAlloc && nextAlloc {
        FreeNode(mm.blocks, i);
        CoalesceAlone(mm.blocks, i);
        CoalesceWellFormed(mm.blocks, i, FREEBLOCKSIZE);
      } else if prevAlloc && !nextAlloc {
        CoalesceNext(bp, i);
      } else if !prevAlloc && nextAlloc {
        bp := CoalescePrev(bp, i);
      } else {
        bp := CoalesceBoth(bp, i);
      }
    }

    /** prev_alloc and next_alloc of exp_coalesce. */
    method ReadFlags(bp: nat, ghost i: nat) returns (prevAlloc: bool, nextAlloc: bool)
      requires Loose(bp, i)
      ensures prevAlloc == mm.blocks[i - 1].alloc
      ensures nextAlloc == (i + 1 < |mm.blocks| ==> mm.blocks[i + 1].alloc)
    {
      Neighbourhood(i);
      mm.AroundTagged(i);
      prevAlloc, nextAlloc := mm.ReadNeighbours(bp, mm.blocks[i - 1], mm.blocks[i], mm.RightOf(mm.blocks, i));
    }

    // -------------------------------------------------------------- exp_place

    /** exp_place, with the block spliced out of the list once, before its tags are rewritten. */
    method ExpPlace(bp: nat, asize: nat, ghost i: nat)
      requires Valid() && 0 < i < |mm.blocks| && bp == Addr(mm.blocks, i) && Fits(mm.blocks[i], asize)
      requires FREEBLOCKSIZE <= asize && asize % 8 == 0
      modifies `list, `heapBaseFree, mm`blocks, mm.arena.data
      ensures Valid() && State() == Take(old(State()), i, asize)
      ensures SamePayloads(old(mm.arena.data[..]), mm.arena.data[..], Live(old(mm.blocks)))
    {
      ghost var m, bs := mm.arena.data[..], mm.blocks;
      var csize := PlaceUnlisted(bp, asize, i);
      ghost var m1 := mm.arena.data[..];
      if csize - asize >= FREEBLOCKSIZE {
        PushRemainder(bp + asize, bs, i, asize);
        SamePayloadsTwice(m, m1, mm.arena.data[..], Live(bs));
      }
    }

    /** exp_place up to its call of exp_coalesce. */
    method PlaceUnlisted(bp: nat, asize: nat, ghost i: nat) returns (csize: nat)
      requires Valid() && 0 < i < |mm.blocks| && bp == Addr(mm.blocks, i) && Fits(mm.blocks[i], asize)
      requires FREEBLOCKSIZE <= asize && asize % 8 == 0
      modifies `list, `heapBaseFree, mm`blocks, mm.arena.data
      ensures csize == old(mm.blocks)[i].size && list == Without(old(list), bp)
      ensures mm.blocks == Policy.Place(old(mm.blocks), i, asize, FREEBLOCKSIZE)
      ensures Sound(Remainder(old(mm.blocks), i, asize)) && Coalesced(mm.blocks)
      ensures SamePayloads(old(mm.arena.data[..]), mm.arena.data[..], Live(old(mm.blocks)))
    {
      ghost var m, bs := mm.arena.data[..], mm.blocks;
      SizedFewer(bs);
      mm.Tags(i);
      csize := mm.BlockSize(bp);
      TakeOut(bp, i, {});
      ghost var m1 := mm.arena.data[..];
      assert {} + {bp} == {bp};
      PlaceTags(bp, asize, csize, i);
      SamePayloadsTwice(m, m1, mm.arena.data[..], Live(bs));
    }

    /** The tag stores of exp_place, on a block that is not listed. */
    method PlaceTags(bp: nat, asize: nat, csize: nat, ghost i: nat)
      requires Sound({bp}) && Coalesced(mm.blocks)
      requires 0 < i < |mm.blocks| && bp == Addr(mm.blocks, i)
      requires Fits(mm.blocks[i], asize) && csize == mm.blocks[i].size
      requires FREEBLOCKSIZE <= asize && asize % 8 == 0
      modifies mm`blocks, mm.arena.data
      ensures mm.blocks == Policy.Place(old(mm.blocks), i, asize, FREEBLOCKSIZE)
      ensures Sound(Remainder(old(mm.blocks), i, asize)) && Coalesced(mm.blocks)
      ensures SamePayloads(old(mm.arena.data[..]), mm.arena.data[..], Live(old(mm.blocks)))
    {
      ghost var m, bs := mm.arena.data[..], mm.blocks;
      SizedFewer(bs);
      mm.Tags(i);
      if csize - asize >= FREEBLOCKSIZE {
        mm.SplitTags(bp, asize, csize);
      } else {
        mm.PutTags(bp, csize, 1);
      }
      PlacedRegion(m, mm.arena.data[..], bs, i, asize);
      mm.blocks := Policy.Place(bs, i, asize, FREEBLOCKSIZE);
    }

    lemma PlacedRegion(m: seq<byte>, m': seq<byte>, bs: seq<Block>, i: nat, asize: nat)
      requires Encodes(m, mm.arena.brk, bs) && WellFormed(bs, FREEBLOCKSIZE) && m' == mm.arena.data[..]
      requires 0 < i < |bs| && Fits(bs[i], asize) && FREEBLOCKSIZE <= asize && asize % 8 == 0
      requires Listed(bs, list, {Addr(bs, i)}) && Linked(m, list)
      requires var bp, csize := Addr(bs, i), bs[i].size;
               && SameOutside(m, m', bp - 4, bp + csize - 4)
               && if csize - asize >= FREEBLOCKSIZE
                  then Tagged(m', bp, Block(asize, true)) && Tagged(m', bp + asize, Block(csize - asize, false))
                  else Tagged(m', bp, Block(csize, true))
      ensures Encodes(m', mm.arena.brk, Policy.Place(bs, i, asize, FREEBLOCKSIZE)) && SamePayloads(m, m', Live(bs))
      ensures WellFormed(Policy.Place(bs, i, asize, FREEBLOCKSIZE), FREEBLOCKSIZE)
      ensures Linked(m', list) && Listed(Policy.Place(bs, i, asize, FREEBLOCKSIZE), list, Remainder(bs, i, asize))
    {
      OneBlock(bs, i);
      TiledSplit(m', Addr(bs, i), bs[i].size, asize, FREEBLOCKSIZE);
      mm.Spliced(m, bs, i, i + 1, Split(bs[i].size, asize, FREEBLOCKSIZE), Live(bs));
      PlaceWellFormed(bs, i, asize, FREEBLOCKSIZE);
      LinkedSplice(m, m', bs, i, i + 1, list, {Addr(bs, i)});
      PlacedListed(bs, i, asize, list);
    }

    /** exp_coalesce on the remainder, which has no free neighbour. */
    method PushRemainder(rest: nat, ghost bs: seq<Block>, ghost i: nat, ghost asize: nat)
      requires WellFormed(bs, FREEBLOCKSIZE) && 0 < i < |bs|
      requires Fits(bs[i], asize) && bs[i].size - asize >= FREEBLOCKSIZE
      requires FREEBLOCKSIZE <= asize && asize % 8 == 0 && rest == Addr(bs, i) + asize
      requires mm.blocks == Policy.Place(bs, i, asize, FREEBLOCKSIZE) && Sound({rest}) && Coalesced(mm.blocks)
      modifies `list, `heapBaseFree, mm`blocks, mm.arena.data
      ensures Valid() && mm.blocks == old(mm.blocks) && list == [rest] + old(list)
      ensures SamePayloads(old(mm.arena.data[..]), mm.arena.data[..], Live(bs))
    {
      RemainderAlone(bs, i, asize);
      ghost var m, cs := mm.arena.data[..], mm.blocks;
      CoalesceAlone(cs, i + 1);
      var _ := ExpCoalesce(rest, i + 1);
      PlaceLive(bs, i, asize, FREEBLOCKSIZE);
      SamePayloadsFewer(m, mm.arena.data[..], Live(cs), Live(bs));
    }

    static lemma RemainderAlone(bs: seq<Block>, i: nat, asize: nat)
      requires WellFormed(bs, FREEBLOCKSIZE) && 0 < i < |bs|
      requires Fits(bs[i], asize) && bs[i].size - asize >= FREEBLOCKSIZE
      requires FREEBLOCKSIZE <= asize && asize % 8 == 0
      ensures var cs := Policy.Place(bs, i, asize, FREEBLOCKSIZE);
              && i + 1 < |cs| && cs[i].alloc && !cs[i + 1].alloc && Addr(cs, i + 1) == Addr(bs, i) + asize
              && (i + 2 < |cs| ==> cs[i + 2].alloc) && CoalescedExcept(cs, i + 1)
    {
      var cs := Policy.Place(bs, i, asize, FREEBLOCKSIZE);
      var mid := Split(bs[i].size, asize, FREEBLOCKSIZE);
      OneBlock(bs, i);
      PlaceWellFormed(bs, i, asize, FREEBLOCKSIZE);
      SpliceIndex(bs, i, i + 1, mid);
      assert cs[i + 1] == mid[1];
      AddrNext(cs, i);
      if i + 2 < |cs| { assert Apart(cs, i + 2); }
    }

    // -------------------------------------------------------------- extend_heap

    /** extend_heap ending in exp_coalesce. */
    method ExtendHeap(words: nat) returns (p: Ptr)
      requires Valid()
      modifies `list, `heapBaseFree, mm`blocks, mm.arena`brk, mm.arena.data
      ensures Valid() && SamePayloads(old(mm.arena.data[..]), mm.arena.data[..], Live(old(mm.blocks)))
      ensures mm.arena.brk == old(mm.arena.brk) + if p == Null then 0 else ExtendSize(words)
      ensures match Grow(old(State()), mm.arena.data.Length, words)
              case Refused => p == Null && State() == old(State()) && mm.arena.data[..] == old(mm.arena.data[..])
              case Obtained(h, i) => p == At(Addr(h.blocks, i)) && State() == h
    {
      var size := mm.RoundWords(words);
      var got := mm.arena.Sbrk(AsInt(size));
      if got.Null? {
        return Null;
      }
      var first := AddFreeBlock(got.addr, size);
      return At(first);
    }

    method AddFreeBlock(bp: nat, size: nat) returns (first: nat)
      requires mm.arena.Valid() && mm.heapListp == 8 && WellFormed(mm.blocks, FREEBLOCKSIZE)
      requires bp == 8 + Sum(mm.blocks) && size % 8 == 0 && size >= FREEBLOCKSIZE && mm.arena.brk == bp + size
      requires Encodes(mm.arena.data[..], bp, mm.blocks)
      requires Listed(mm.blocks, list, {}) && Linked(mm.arena.data[..], list) && heapBaseFree == list[0]
      modifies `list, `heapBaseFree, mm`blocks, mm.arena.data
      ensures Valid() && SamePayloads(old(mm.arena.data[..]), mm.arena.data[..], Live(old(mm.blocks)))
      ensures var grown := Heap(old(mm.blocks) + [Block(size, false)], old(list));
              && State() == Gather(grown, |old(mm.blocks)|)
              && first == Addr(mm.blocks, CoalesceLo(grown.blocks, |old(mm.blocks)|))
    {
      ghost var m, bs := mm.arena.data[..], mm.blocks;
      SizedFewer(bs);
      mm.InitFreeBlock(bp, size);
      ghost var m1 := mm.arena.data[..];
      GrownListed(m, m1, bs, size);
      first := ExpCoalesce(bp, |bs|);
      SamePayloadsTwice(m, m1, mm.arena.data[..], Live(bs));
      AddrPrefix(mm.blocks, bs + [Block(size, false)], CoalesceLo(bs + [Block(size, false)], |bs|));
    }

    lemma GrownListed(m: seq<byte>, m': seq<byte>, bs: seq<Block>, size: nat)
      requires WellFormed(bs, FREEBLOCKSIZE) && size >= FREEBLOCKSIZE && size % 8 == 0
      requires Listed(bs, list, {}) && Linked(m, list)
      requires SameOutside(m, m', 4 + Sum(bs), 8 + Sum(bs) + size)
      ensures Linked(m', list) && Listed(bs + [Block(size, false)], list, {8 + Sum(bs)})
      ensures Framed(bs + [Block(size, false)], FREEBLOCKSIZE) && CoalescedExcept(bs + [Block(size, false)], |bs|)
    {
      GrownFramed(bs, size, FREEBLOCKSIZE);
      ListedAppend(bs, size, list);
      forall p | p in list ensures p + SLOTS <= 4 + Sum(bs) {
        var i := NodeIndex(bs, p);
        AddrMonotone(bs, i, |bs|);
        AddrLast(bs);
      }
      LinkedOutside(m, m', 4 + Sum(bs), 8 + Sum(bs) + size, list);
    }

    // -------------------------------------------------------------- mm_init

    /** mm_init. */
    method Init() returns (r: Mm.Initialised)
      requires mm.arena.Valid() && mm.arena.brk == 0
      modifies this, mm, mm.arena`brk, mm.arena.data
      ensures r == Mm.InitOutcome(mm.arena.data.Length)
      ensures r == Mm.WildStore ==> mm.arena.brk == 0 && mm.arena.data[..] == old(mm.arena.data[..])
      ensures r != Mm.WildStore ==> Valid()
      ensures r == Mm.Ready ==> State() == INITIAL_HEAP
      ensures r == Mm.NoRoom ==> State() == Heap(EMPTY, [SENTINEL])
    {
      var got := mm.arena.Sbrk(8 * WSIZE);
      if got == Null {
        return Mm.WildStore;
      }
      InitList(got.addr);
      InitialList(mm.arena.data.Length);
      var p := ExtendHeap(CHUNKSIZE / WSIZE);
      r := if p == Null then Mm.NoRoom else Mm.Ready;
    }

    /** mm_init before extend_heap: the prologue alone is the list, and points nowhere. */
    method InitList(start: nat)
      requires mm.arena.Valid() && start == 0 && mm.arena.brk == INIT_BYTES
      modifies this, mm, mm.arena.data
      ensures Valid() && State() == Heap(EMPTY, [SENTINEL])
    {
      mm.InitPrologue(start);
      heapBaseFree := mm.heapListp;
      list := [SENTINEL];
      EmptyListed();
      assert FreeSize(EMPTY, SENTINEL) == 0 && SENTINEL in list;
      ghost var m := mm.arena.data[..];
      PutLong(mm.arena.data, mm.heapListp, 0);
      ghost var m1 := mm.arena.data[..];
      NodeWrite(m, m1, list, 0, 0, {});
      PutLong(mm.arena.data, mm.heapListp + DSIZE, 0);
      ghost var m2 := mm.arena.data[..];
      NodeWrite(m1, m2, list, 0, 8, {});
      SameLong(m1, m2, 16, 24, 8);
    }

    static lemma EmptyListed()
      ensures WellFormed(EMPTY, FREEBLOCKSIZE) && Listed(EMPTY, [SENTINEL], {})
    {
      FlipAt(EMPTY);
      forall p: nat ensures FreeSize(EMPTY, p) == 0 {
        SizeAtFree(Flip(EMPTY), 8, p);
      }
    }

    static lemma InitialList(cap: nat)
      ensures Grow(Heap(EMPTY, [SENTINEL]), cap, CHUNKSIZE / WSIZE)
           == if INIT_BYTES + CHUNKSIZE <= cap then Obtained(Heap(INITIAL, [INIT_BYTES, SENTINEL]), 1) else Refused
    {
      InitialLaw(cap);
      SumOne(PROLOGUE);
      assert EMPTY + [Block(CHUNKSIZE, false)] == INITIAL;
      CoalesceAlone(INITIAL, 1);
      assert INITIAL[..1] == EMPTY;
    }

    // -------------------------------------------------------------- mm_malloc

    method Malloc(size: uint64) returns (p: Ptr)
      requires Valid()
      modifies `list, `heapBaseFree, mm`blocks, mm.arena`brk, mm.arena.data
      ensures Valid() && SamePayloads(old(mm.arena.data[..]), mm.arena.data[..], Live(old(mm.blocks)))
      ensures mm.arena.brk == old(mm.arena.brk) + if p == Null then 0 else Growth(old(mm.blocks), Rounded(size))
      ensures match FreeListPolicy.Malloc(old(State()), mm.arena.data.Length, size)
              case Refused => p == Null && State() == old(State()) && mm.arena.data[..] == old(mm.arena.data[..])
              case Obtained(h, i) => p == At(Addr(h.blocks, i)) && State() == h
    {
      if size <= 0 {
        return Null;
      }
      var asize: uint32;
      if size <= DSIZE {
        asize := DSIZE + OVERHEAD;
      } else {
        asize := DSIZE * ((size + OVERHEAD + (DSIZE - 1)) % 0x1_0000_0000_0000_0000 / DSIZE) % 0x1_0000_0000;
      }
      if asize < FREEBLOCKSIZE {
        asize := FREEBLOCKSIZE;
      }
      assert asize == Rounded(size);
      RoundedCovers(size);
      p := Serve(asize);
    }

    /** mm_malloc once the size is rounded. */
    method Serve(asize: uint32) returns (p: Ptr)
      requires Valid() && asize % 8 == 0 && asize >= FREEBLOCKSIZE
      modifies `list, `heapBaseFree, mm`blocks, mm.arena`brk, mm.arena.data
      ensures Valid() && SamePayloads(old(mm.arena.data[..]), mm.arena.data[..], Live(old(mm.blocks)))
      ensures mm.arena.brk == old(mm.arena.brk) + if p == Null then 0 else Growth(old(mm.blocks), asize)
      ensures FreeListPolicy.Served(old(State()), mm.arena.data.Length, asize, State(), p)
      ensures p == Null ==> mm.arena.data[..] == old(mm.arena.data[..])
    {
      ghost var h := State();
      ListFindsWhatWalkFinds(h, asize);
      p := FindFitExp(asize);
      if p != Null {
        FitIsFree(h, asize);
        ghost var i := FreeIndex(mm.blocks, p.addr);
        PlaceShape(mm.blocks, i, asize, FREEBLOCKSIZE);
        ExpPlace(p.addr, asize, i);
        return p;
      }
      p := GrowAndPlace(asize);
    }

    /** mm_malloc when nothing fits. */
    method GrowAndPlace(asize: uint32) returns (p: Ptr)
      requires Valid() && asize % 8 == 0 && asize >= FREEBLOCKSIZE
      modifies `list, `heapBaseFree, mm`blocks, mm.arena`brk, mm.arena.data
      ensures Valid() && SamePayloads(old(mm.arena.data[..]), mm.arena.data[..], Live(old(mm.blocks)))
      ensures mm.arena.brk
           == old(mm.arena.brk) + if p == Null then 0 else if asize > 0x1_0000 then asize else 0x1_0000
      ensures match Grow(old(State()), mm.arena.data.Length, GrowWords(asize))
              case Refused => p == Null && State() == old(State()) && mm.arena.data[..] == old(mm.arena.data[..])
              case Obtained(g, i) =>
                && 0 < i < |g.blocks| && Fits(g.blocks[i], asize)
                && State() == Take(g, i, asize) && i < |mm.blocks| && p == At(Addr(mm.blocks, i))
    {
      var extendSize := if asize > CHUNKSIZE then asize else CHUNKSIZE;
      ghost var h, m := State(), mm.arena.data[..];
      GrowLaw(h, mm.arena.data.Length, GrowWords(asize));
      GrowSuffices(asize);
      ghost var o := Grow(h, mm.arena.data.Length, GrowWords(asize));
      p := ExtendHeap(extendSize / WSIZE);
      if p == Null {
        return Null;
      }
      ghost var m1 := mm.arena.data[..];
      PlaceWellFormed(mm.blocks, o.i, asize, FREEBLOCKSIZE);
      ExpPlace(p.addr, asize, o.i);
      SamePayloadsTwice(m, m1, mm.arena.data[..], Live(h.blocks));
    }

    // -------------------------------------------------------------- mm_free

    /** mm_free, which leaves the insertion to exp_coalesce. */
    method Free(bp: nat)
      requires Valid() && bp in Live(mm.blocks)
      modifies `list, `heapBaseFree, mm`blocks, mm.arena.data
      ensures Valid() && State() == Release(old(State()), bp)
      ensures SamePayloads(old(mm.arena.data[..]), mm.arena.data[..], Live(mm.blocks))
    {
      ghost var m, h := mm.arena.data[..], State();
      ghost var i := IndexOf(mm.blocks, bp);
      ReleaseLaw(h, bp);
      Mark(bp, i);
      ghost var m1 := mm.arena.data[..];
      var _ := ExpCoalesce(bp, i);
      SamePayloadsFewer(m1, mm.arena.data[..], Live(h.blocks) - {bp}, Live(mm.blocks));
      SamePayloadsTwice(m, m1, mm.arena.data[..], Live(mm.blocks));
    }

    /** The tag stores of mm_free. */
    method Mark(bp: nat, ghost i: nat)
      requires Valid() && 0 < i < |mm.blocks| && mm.blocks[i].alloc && bp == Addr(mm.blocks, i)
      modifies mm`blocks, mm.arena.data
      ensures Loose(bp, i) && mm.blocks == MarkFree(old(mm.blocks), i)
      ensures Live(mm.blocks) == Live(old(mm.blocks)) - {bp}
      ensures SamePayloads(old(mm.arena.data[..]), mm.arena.data[..], Live(old(mm.blocks)) - {bp})
    {
      ghost var m, bs := mm.arena.data[..], mm.blocks;
      SizedFewer(bs);
      mm.Tags(i);
      var size := mm.BlockSize(bp);
      mm.PutTags(bp, size, 0);
      MarkedRegion(m, mm.arena.data[..], bs, i);
      mm.blocks := MarkFree(bs, i);
    }

    lemma MarkedRegion(m: seq<byte>, m': seq<byte>, bs: seq<Block>, i: nat)
      requires Encodes(m, mm.arena.brk, bs) && WellFormed(bs, FREEBLOCKSIZE) && m' == mm.arena.data[..]
      requires 0 < i < |bs| && bs[i].alloc && Listed(bs, list, {}) && Linked(m, list)
      requires Tagged(m', Addr(bs, i), Block(bs[i].size, false))
      requires SameOutside(m, m', Addr(bs, i) - 4, Addr(bs, i) + bs[i].size - 4)
      ensures Encodes(m', mm.arena.brk, MarkFree(bs, i)) && SamePayloads(m, m', Live(bs) - {Addr(bs, i)})
      ensures Linked(m', list) && Listed(MarkFree(bs, i), list, {Addr(bs, i)})
      ensures |MarkFree(bs, i)| == |bs| && !MarkFree(bs, i)[i].alloc && Addr(MarkFree(bs, i), i) == Addr(bs, i)
      ensures Framed(MarkFree(bs, i), FREEBLOCKSIZE) && CoalescedExcept(MarkFree(bs, i), i)
      ensures Live(MarkFree(bs, i)) == Live(bs) - {Addr(bs, i)}
    {
      OneBlock(bs, i);
      SumOne(Block(bs[i].size, false));
      TiledOne(m', Addr(bs, i), Block(bs[i].size, false));
      mm.Spliced(m, bs, i, i + 1, [Block(bs[i].size, false)], Live(bs) - {Addr(bs, i)});
      MarkFreeFramed(bs, i, FREEBLOCKSIZE);
      LinkedSplice(m, m', bs, i, i + 1, list, {});
      MarkedListed(bs, list, i);
      AddrPrefix(MarkFree(bs, i), bs, i);
    }

    // -------------------------------------------------------------- any call

    /** A program's call, as a step of a run. */
    method Execute(call: Call)
      requires Valid() && Proper(State(), mm.arena.data.Length, call)
      modifies `list, `heapBaseFree, mm`blocks, mm.arena`brk, mm.arena.data
      ensures Valid() && State() == Do(old(State()), mm.arena.data.Length, call)
    {
      DoLaw(State(), mm.arena.data.Length, call);
      match call
      case CallMalloc(size) => var _ := Malloc(size);
      case CallFree(p) => Free(p);
      case CallRealloc(p, size) => var _ := Realloc(p, size);
    }

    // -------------------------------------------------------------- mm_realloc

    method Realloc(ptr: nat, size: uint64) returns (r: Mm.Reallocated)
      requires Valid() && ptr in Live(mm.blocks) && ListCopyFits(State(), mm.arena.data.Length, size, ptr)
      modifies `list, `heapBaseFree, mm`blocks, mm.arena`brk, mm.arena.data
      ensures Valid()
      ensures SamePayloads(old(mm.arena.data[..]), mm.arena.data[..], Live(old(mm.blocks)) - {ptr})
      ensures match FreeListPolicy.Malloc(old(State()), mm.arena.data.Length, size)
              case Refused => r == Mm.ExitOne && State() == old(State()) && mm.arena.data[..] == old(mm.arena.data[..])
              case Obtained(h, i) =>
                && ptr in Live(h.blocks)
                && r == Mm.Moved(Addr(h.blocks, i)) && State() == Release(h, ptr)
                && forall n: nat :: n <= size && n + OVERHEAD <= Live(old(mm.blocks))[ptr] ==>
                     Copied(old(mm.arena.data[..]), ptr, mm.arena.data[..], Addr(h.blocks, i), n)
    {
      ghost var m, bs := mm.arena.data[..], mm.blocks;
      ghost var o := FreeListPolicy.Malloc(State(), mm.arena.data.Length, size);
      var newPtr := Malloc(size);
      if newPtr == Null {
        return Mm.ExitOne;
      }
      var newp := newPtr.addr;
      ghost var m1, cs := mm.arena.data[..], mm.blocks;
      ListCopyFitsIff(Heap(bs, old(list)), mm.arena.data.Length, size, ptr);
      ListReallocLaw(Heap(bs, old(list)), mm.arena.data.Length, size, ptr);
      ghost var m2 := CopyAndFree(newp, ptr, size);
      SamePayloadsFewer(m1, m2, Live(cs) - {newp}, Live(bs));
      SamePayloadsTwice(m, m1, m2, Live(bs));
      ghost var kept := Mm.Allocator.Kept(Live(cs)[ptr], size);
      mm.MovedPayload(m, m1, m2, mm.arena.data[..], bs, cs, mm.blocks, ptr, newp, kept);
      CopiedAll(m, ptr, mm.arena.data[..], newp, kept);
      r := Mm.Moved(newp);
    }

    /** mm_realloc after mm_malloc; m2 is the memory between the copy and the free. */
    method CopyAndFree(newp: nat, ptr: nat, size: uint64) returns (ghost m2: seq<byte>)
      requires Valid() && ptr in Live(mm.blocks) && newp in Live(mm.blocks) && newp != ptr
      requires CopySize(Live(mm.blocks)[ptr], size) + OVERHEAD <= Live(mm.blocks)[newp]
      requires MINBLOCK <= Live(mm.blocks)[ptr]
      modifies `list, `heapBaseFree, mm`blocks, mm.arena.data
      ensures Valid() && State() == Release(old(State()), ptr) && Live(mm.blocks) == Live(old(mm.blocks)) - {ptr}
      ensures SamePayloads(old(mm.arena.data[..]), m2, Live(old(mm.blocks)) - {newp})
      ensures Copied(old(mm.arena.data[..]), ptr, m2, newp, Mm.Allocator.Kept(Live(old(mm.blocks))[ptr], size))
      ensures SamePayloads(m2, mm.arena.data[..], Live(mm.blocks))
    {
      CopyInto(newp, ptr, size);
      m2 := mm.arena.data[..];
      ReleaseLaw(State(), ptr);
      Free(ptr);
    }

    /** memcpy into an allocated payload disturbs no tag and no pointer. */
    method CopyInto(newp: nat, ptr: nat, size: uint64)
      requires Valid() && ptr in Live(mm.blocks) && newp in Live(mm.blocks) && newp != ptr
      requires CopySize(Live(mm.blocks)[ptr], size) + OVERHEAD <= Live(mm.blocks)[newp]
      requires MINBLOCK <= Live(mm.blocks)[ptr]
      modifies mm.arena.data
      ensures Valid() && SamePayloads(old(mm.arena.data[..]), mm.arena.data[..], Live(mm.blocks) - {newp})
      ensures Copied(old(mm.arena.data[..]), ptr, mm.arena.data[..], newp,
                     Mm.Allocator.Kept(Live(mm.blocks)[ptr], size))
    {
      ghost var m := mm.arena.data[..];
      SizedFewer(mm.blocks);
      mm.CopyPayload(newp, ptr, size);
      PayloadUnlinked(m, mm.arena.data[..], newp);
    }

    /** A program that writes only into its own payload leaves the list alone. */
    lemma PayloadUnlinked(m: seq<byte>, m': seq<byte>, p: nat)
      requires Framed(mm.blocks, FREEBLOCKSIZE) && Listed(mm.blocks, list, {}) && Linked(m, list)
      requires p in Live(mm.blocks) && SameOutside(m, m', p, p + Live(mm.blocks)[p] - 8)
      ensures Linked(m', list)
    {
      var i := IndexOf(mm.blocks, p);
      OneBlock(mm.blocks, i);
      SameWiden(m, m', p - 4, p + Live(mm.blocks)[p] - 4, p, p + Live(mm.blocks)[p] - 8);
      LinkedSplice(m, m', mm.blocks, i, i + 1, list, {});
    }
  }
}
