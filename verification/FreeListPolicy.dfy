/** What the explicit-list allocator does to the block list and to the free list, as functions on both
    together. Freed and merged blocks go to the front (LIFO); the list ends at the prologue. */
module FreeListPolicy {
  import opened Words
  import opened Blocks
  import opened Policy
  import opened Links

  /** blocks in address order; list in list order, the prologue last. */
  datatype Heap = Heap(blocks: seq<Block>, list: seq<nat>)

  /** The invariant of the design: a coalesced heap of blocks of at least 24 bytes, and a list that holds
      each free block exactly once. */
  ghost predicate Sane(h: Heap) {
    WellFormed(h.blocks, FREEBLOCKSIZE) && Listed(h.blocks, h.list, {})
  }

  // ---------------------------------------------------------------- find_fit_exp

  /** The position in the list of the first node that fits; that of the prologue when none does. */
  function ListFit(bs: seq<Block>, ns: seq<nat>, asize: nat): (k: nat)
    requires ns != []
    ensures k < |ns|
    ensures forall j :: 0 <= j < k ==> FreeSize(bs, ns[j]) < asize
    ensures k < |ns| - 1 ==> FreeSize(bs, ns[k]) >= asize
  {
    if |ns| == 1 || FreeSize(bs, ns[0]) >= asize then 0 else 1 + ListFit(bs, ns[1..], asize)
  }

  lemma WalkFindsListed(h: Heap, asize: nat, k: nat)
    requires Sane(h) && asize > 0 && k < |h.list| && FreeSize(h.blocks, h.list[k]) >= asize
    ensures FirstFit(h.blocks, asize) < |h.blocks|
  {
    var j := FreeIndex(h.blocks, h.list[k]);
    assert Fits(h.blocks[j], asize);
  }

  lemma ListHolds(h: Heap, i: nat) returns (k: nat)
    requires Sane(h) && i < |h.blocks| && !h.blocks[i].alloc
    ensures k < |h.list| - 1 && h.list[k] == Addr(h.blocks, i) && FreeSize(h.blocks, h.list[k]) == h.blocks[i].size
  {
    FreeAt(h.blocks, i);
    AddrMonotone(h.blocks, 0, i);
    assert Addr(h.blocks, i) in h.list;
    k :| 0 <= k < |h.list| && h.list[k] == Addr(h.blocks, i);
  }

  /** The search stops at the first node whose free block holds asize bytes: b is the block at node j. */
  lemma ListFitMeans(h: Heap, asize: nat, j: nat, b: nat)
    requires Sane(h) && asize > 0 && j < |h.list| - 1 && b < |h.blocks| && Addr(h.blocks, b) == h.list[j]
    ensures j < ListFit(h.blocks, h.list, asize) ==> !h.blocks[b].alloc && h.blocks[b].size < asize
    ensures j == ListFit(h.blocks, h.list, asize) ==> !h.blocks[b].alloc && h.blocks[b].size >= asize
  {
    FreeAt(h.blocks, b);
    assert Far(h.list, j, |h.list| - 1);
    assert h.list[j] in h.list;
  }

  /** The list search finds a block exactly when the walk over the whole heap does. */
  lemma ListFindsWhatWalkFinds(h: Heap, asize: nat)
    requires Sane(h) && asize > 0
    ensures ListFit(h.blocks, h.list, asize) < |h.list| - 1 <==> FirstFit(h.blocks, asize) < |h.blocks|
  {
    var k, i := ListFit(h.blocks, h.list, asize), FirstFit(h.blocks, asize);
    if k < |h.list| - 1 { WalkFindsListed(h, asize, k); }
    if i < |h.blocks| { var j := ListHolds(h, i); }
  }

  /** A fit is a free block that is listed. */
  lemma FitIsFree(h: Heap, asize: nat)
    requires Sane(h) && asize > 0 && ListFit(h.blocks, h.list, asize) < |h.list| - 1
    ensures var p := h.list[ListFit(h.blocks, h.list, asize)];
            && FreeSize(h.blocks, p) >= asize && p in h.list && p != SENTINEL
            && 0 < FreeIndex(h.blocks, p) && Fits(h.blocks[FreeIndex(h.blocks, p)], asize)
  {
    var k := ListFit(h.blocks, h.list, asize);
    assert Far(h.list, k, |h.list| - 1);
  }

  // ---------------------------------------------------------------- exp_place

  /** Block i is handed out; a remainder of 24 bytes or more goes to the front of the list. */
  function Take(h: Heap, i: nat, asize: nat): Heap
    requires i < |h.blocks| && asize <= h.blocks[i].size
  {
    var rest := Without(h.list, Addr(h.blocks, i));
    Heap(Place(h.blocks, i, asize, FREEBLOCKSIZE),
         if h.blocks[i].size - asize >= FREEBLOCKSIZE then [Addr(h.blocks, i) + asize] + rest else rest)
  }

  /** What is free after place in the bytes of block i. */
  function Remainder(bs: seq<Block>, i: nat, asize: nat): set<nat>
    requires i < |bs| && asize <= bs[i].size
  {
    if bs[i].size - asize >= FREEBLOCKSIZE then {Addr(bs, i) + asize} else {}
  }

  lemma RegionOne(bs: seq<Block>, i: nat, p: nat)
    requires Positive(bs) && i < |bs| && Addr(bs, i) <= p < Addr(bs, i + 1)
    ensures FreeSize(bs, p) > 0 <==> p == Addr(bs, i) && !bs[i].alloc
  {
    FreeAt(bs, i);
    AddrNext(bs, i);
    if FreeSize(bs, p) > 0 {
      var j := FreeIndex(bs, p);
      if j < i { AddrMonotone(bs, j, i); }
      if i < j { AddrMonotone(bs, i, j); }
    }
  }

  lemma SplitFree(csize: nat, asize: nat, a: nat, p: nat)
    requires 0 < asize <= csize
    ensures var mid := Split(csize, asize, FREEBLOCKSIZE);
            SizeAt(Flip(mid), a, p) > 0 <==> csize - asize >= FREEBLOCKSIZE && p == a + asize
  {
    var mid := Split(csize, asize, FREEBLOCKSIZE);
    FlipAt(mid);
    if csize - asize >= FREEBLOCKSIZE {
      assert Flip(mid)[1..] == [Block(csize - asize, true)];
      assert SizeAt(Flip(mid), a, p) == if p == a then 0 else SizeAt([Block(csize - asize, true)], a + asize, p);
    } else {
      assert Flip(mid)[1..] == [];
    }
  }

  lemma PlacedListed(bs: seq<Block>, i: nat, asize: nat, ns: seq<nat>)
    requires Framed(bs, FREEBLOCKSIZE) && 0 < i < |bs| && Fits(bs[i], asize) && 0 < asize
    requires Listed(bs, ns, {Addr(bs, i)})
    ensures Listed(Place(bs, i, asize, FREEBLOCKSIZE), ns, Remainder(bs, i, asize))
  {
    var mid := Split(bs[i].size, asize, FREEBLOCKSIZE);
    OneBlock(bs, i);
    forall p: nat ensures p in Remainder(bs, i, asize)
                     <==> Addr(bs, i) <= p < Addr(bs, i + 1) && SizeAt(Flip(mid), Addr(bs, i), p) > 0 {
      SplitFree(bs[i].size, asize, Addr(bs, i), p);
    }
    forall p: nat ensures p in {Addr(bs, i)} <==> Addr(bs, i) <= p < Addr(bs, i + 1) && FreeSize(bs, p) > 0 {
      if Addr(bs, i) <= p < Addr(bs, i + 1) { RegionOne(bs, i, p); }
    }
    ListedSplice(bs, i, i + 1, mid, ns, {Addr(bs, i)}, Remainder(bs, i, asize));
  }

  // ---------------------------------------------------------------- exp_coalesce

  /** The nodes of the free blocks that coalescing block i merges. */
  function Region(bs: seq<Block>, i: nat): set<nat>
    requires i < |bs|
  {
    {Addr(bs, i)} + (if CoalesceLo(bs, i) < i then {Addr(bs, i - 1)} else {})
    + (if CoalesceHi(bs, i) > i + 1 then {Addr(bs, i + 1)} else {})
  }

  /** The list without the neighbours that block i merges with. */
  function WithoutNeighbours(bs: seq<Block>, ns: seq<nat>, i: nat): seq<nat>
    requires i < |bs|
  {
    var left := if CoalesceLo(bs, i) < i then Without(ns, Addr(bs, i - 1)) else ns;
    if CoalesceHi(bs, i) > i + 1 then Without(left, Addr(bs, i + 1)) else left
  }

  /** Block i, free but not listed, is merged with its free neighbours and put in front of the list. */
  function Gather(h: Heap, i: nat): Heap
    requires i < |h.blocks|
  {
    Heap(Coalesce(h.blocks, i), [Addr(h.blocks, CoalesceLo(h.blocks, i))] + WithoutNeighbours(h.blocks, h.list, i))
  }

  lemma RegionIs(bs: seq<Block>, i: nat, p: nat)
    requires Positive(bs) && i < |bs| && !bs[i].alloc
    ensures p in Region(bs, i)
       <==> Addr(bs, CoalesceLo(bs, i)) <= p < Addr(bs, CoalesceHi(bs, i)) && FreeSize(bs, p) > 0
  {
    var lo, hi := CoalesceLo(bs, i), CoalesceHi(bs, i);
    if lo < i { AddrNext(bs, lo); }
    AddrNext(bs, i);
    if hi > i + 1 { AddrNext(bs, i + 1); }
    if Addr(bs, lo) <= p < Addr(bs, i) { RegionOne(bs, lo, p); }
    if Addr(bs, i) <= p < Addr(bs, i + 1) { RegionOne(bs, i, p); }
    if Addr(bs, i + 1) <= p < Addr(bs, hi) { RegionOne(bs, i + 1, p); }
    RegionFree(bs, i);
  }

  lemma RegionFree(bs: seq<Block>, i: nat)
    requires Positive(bs) && i < |bs| && !bs[i].alloc
    ensures FreeSize(bs, Addr(bs, i)) > 0
    ensures CoalesceLo(bs, i) < i ==> FreeSize(bs, Addr(bs, i - 1)) > 0
    ensures CoalesceHi(bs, i) > i + 1 ==> FreeSize(bs, Addr(bs, i + 1)) > 0
  {
    FreeAt(bs, i);
    if CoalesceLo(bs, i) < i { FreeAt(bs, i - 1); }
    if CoalesceHi(bs, i) > i + 1 { FreeAt(bs, i + 1); }
  }

  lemma MergedListed(bs: seq<Block>, i: nat, ns: seq<nat>)
    requires Framed(bs, FREEBLOCKSIZE) && CoalescedExcept(bs, i) && 0 < i < |bs| && !bs[i].alloc
    requires Listed(bs, ns, Region(bs, i))
    ensures Listed(Coalesce(bs, i), ns, {Addr(bs, CoalesceLo(bs, i))})
    ensures FreeSize(Coalesce(bs, i), Addr(bs, CoalesceLo(bs, i))) > 0
  {
    var lo, hi := CoalesceLo(bs, i), CoalesceHi(bs, i);
    var total := Block(Sum(bs[lo..hi]), false);
    MergedSize(bs, lo, i, hi, FREEBLOCKSIZE);
    SumSlice(bs, lo, hi);
    SumOne(total);
    forall p: nat ensures p in Region(bs, i) <==> Addr(bs, lo) <= p < Addr(bs, hi) && FreeSize(bs, p) > 0 {
      RegionIs(bs, i, p);
    }
    ListedSplice(bs, lo, hi, [total], ns, Region(bs, i), {Addr(bs, lo)});
    FreeSplice(bs, lo, hi, [total], Addr(bs, lo));
  }

  lemma CoalesceAlone(bs: seq<Block>, i: nat)
    requires 0 < i < |bs| && bs[i - 1].alloc && !bs[i].alloc && (i + 1 < |bs| ==> bs[i + 1].alloc)
    ensures Coalesce(bs, i) == bs && Region(bs, i) == {Addr(bs, i)}
  {
    OneBlock(bs, i);
    assert bs[..i] + [bs[i]] + bs[i + 1..] == bs;
  }

  // ---------------------------------------------------------------- the laws

  lemma Unlisted(h: Heap, p: nat)
    requires Sane(h) && FreeSize(h.blocks, p) > 0 && p != SENTINEL
    ensures Listed(h.blocks, Without(h.list, p), {p})
  {
    var k :| 0 <= k < |h.list| && h.list[k] == p;
    ListedRemove(h.blocks, h.list, {}, k);
    assert {} + {p} == {p};
  }

  lemma PushedListed(bs: seq<Block>, ns: seq<nat>, p: nat)
    requires Framed(bs, FREEBLOCKSIZE) && Listed(bs, ns, {p}) && FreeSize(bs, p) > 0 && p != SENTINEL
    ensures Listed(bs, [p] + ns, {})
  {
    ListedPush(bs, ns, {p}, p);
    assert {p} - {p} == {};
  }

  lemma TakeListed(bs: seq<Block>, ns: seq<nat>, i: nat, asize: nat)
    requires Framed(bs, FREEBLOCKSIZE) && 0 < i < |bs| && Fits(bs[i], asize)
    requires FREEBLOCKSIZE <= asize && Framed(Place(bs, i, asize, FREEBLOCKSIZE), FREEBLOCKSIZE)
    requires Listed(bs, ns, {Addr(bs, i)})
    ensures Listed(Place(bs, i, asize, FREEBLOCKSIZE),
              if bs[i].size - asize >= FREEBLOCKSIZE then [Addr(bs, i) + asize] + ns else ns, {})
  {
    PlacedListed(bs, i, asize, ns);
    if bs[i].size - asize >= FREEBLOCKSIZE {
      RemainderFree(bs, i, asize);
      PushedListed(Place(bs, i, asize, FREEBLOCKSIZE), ns, Addr(bs, i) + asize);
    }
  }

  lemma FreeNode(bs: seq<Block>, i: nat)
    requires Framed(bs, FREEBLOCKSIZE) && 0 < i < |bs| && !bs[i].alloc
    ensures FreeSize(bs, Addr(bs, i)) == bs[i].size > 0 && Addr(bs, i) != SENTINEL
  {
    FreeAt(bs, i);
    AddrMonotone(bs, 0, i);
  }

  lemma TakenListed(h: Heap, i: nat, asize: nat)
    requires Framed(h.blocks, FREEBLOCKSIZE) && 0 < i < |h.blocks| && Fits(h.blocks[i], asize)
    requires FREEBLOCKSIZE <= asize && Framed(Place(h.blocks, i, asize, FREEBLOCKSIZE), FREEBLOCKSIZE)
    requires Listed(h.blocks, Without(h.list, Addr(h.blocks, i)), {Addr(h.blocks, i)})
    ensures Listed(Take(h, i, asize).blocks, Take(h, i, asize).list, {})
  {
    TakeListed(h.blocks, Without(h.list, Addr(h.blocks, i)), i, asize);
  }

  lemma TakeSane(h: Heap, i: nat, asize: nat)
    requires Sane(h) && 0 < i < |h.blocks| && Fits(h.blocks[i], asize)
    requires FREEBLOCKSIZE <= asize && asize % 8 == 0
    ensures Sane(Take(h, i, asize))
  {
    PlaceWellFormed(h.blocks, i, asize, FREEBLOCKSIZE);
    FreeNode(h.blocks, i);
    Unlisted(h, Addr(h.blocks, i));
    TakenListed(h, i, asize);
  }

  /** Placing keeps the invariant and hands out the one block. */
  lemma TakeLaw(h: Heap, i: nat, asize: nat)
    requires Sane(h) && 0 < i < |h.blocks| && Fits(h.blocks[i], asize)
    requires FREEBLOCKSIZE <= asize && asize % 8 == 0
    ensures Sane(Take(h, i, asize)) && Sum(Take(h, i, asize).blocks) == Sum(h.blocks)
    ensures var p, s := Addr(h.blocks, i), Split(h.blocks[i].size, asize, FREEBLOCKSIZE)[0].size;
            && p !in Live(h.blocks) && p >= 32 && p % 8 == 0 && p + s <= 8 + Sum(h.blocks)
            && asize <= s <= asize + 16
            && Live(Take(h, i, asize).blocks) == Live(h.blocks)[p := s]
    ensures var a := Addr(h.blocks, i);
            var rest := if h.blocks[i].size - asize >= 24 then [a + asize] else [];
            Take(h, i, asize).list == rest + Thin(h.list, {a})
  {
    WithoutThins(h.list, Addr(h.blocks, i));
    TakeSane(h, i, asize);
    PlaceWellFormed(h.blocks, i, asize, FREEBLOCKSIZE);
    PlaceLive(h.blocks, i, asize, FREEBLOCKSIZE);
  }

  lemma RemainderFree(bs: seq<Block>, i: nat, asize: nat)
    requires Positive(bs) && i < |bs| && FREEBLOCKSIZE <= asize && bs[i].size - asize >= FREEBLOCKSIZE
    ensures FreeSize(Place(bs, i, asize, FREEBLOCKSIZE), Addr(bs, i) + asize) > 0
  {
    OneBlock(bs, i);
    SplitFree(bs[i].size, asize, Addr(bs, i), Addr(bs, i) + asize);
    FreeSplice(bs, i, i + 1, Split(bs[i].size, asize, FREEBLOCKSIZE), Addr(bs, i) + asize);
  }

  /** Taking the neighbours of an unlisted free block out of the list leaves its whole region unlisted. */
  lemma GatherUnlists(bs: seq<Block>, ns: seq<nat>, i: nat)
    requires Framed(bs, FREEBLOCKSIZE) && 0 < i < |bs| && !bs[i].alloc
    requires Listed(bs, ns, {Addr(bs, i)})
    ensures Listed(bs, WithoutNeighbours(bs, ns, i), Region(bs, i))
  {
    RegionFree(bs, i);
    AddrNext(bs, i - 1);
    AddrNext(bs, i);
    var out := {Addr(bs, i)};
    var left := ns;
    if CoalesceLo(bs, i) < i {
      AddrMonotone(bs, 0, i - 1);
      ListedWithout(bs, ns, out, Addr(bs, i - 1));
      left, out := Without(ns, Addr(bs, i - 1)), out + {Addr(bs, i - 1)};
    }
    if CoalesceHi(bs, i) > i + 1 {
      ListedWithout(bs, left, out, Addr(bs, i + 1));
      out := out + {Addr(bs, i + 1)};
    }
    assert Region(bs, i) == out;
  }

  lemma ListedWithout(bs: seq<Block>, ns: seq<nat>, out: set<nat>, p: nat)
    requires Listed(bs, ns, out) && FreeSize(bs, p) > 0 && p !in out && p != SENTINEL
    ensures Listed(bs, Without(ns, p), out + {p})
  {
    var k :| 0 <= k < |ns| && ns[k] == p;
    ListedRemove(bs, ns, out, k);
  }

  lemma BothThin(ns: seq<nat>, l: nat, r: nat)
    requires Spaced(ns)
    ensures Without(Without(ns, l), r) == Thin(ns, {l} + {r})
  {
    WithoutThins(ns, l);
    SpacedOnce(ns, r);
    ThinCount(ns, {l}, r);
    WithoutOnce(Thin(ns, {l}), r);
    ThinTwice(ns, {l}, {r});
  }

  lemma NeighboursThin(bs: seq<Block>, ns: seq<nat>, i: nat)
    requires Spaced(ns) && 0 < i < |bs|
    ensures WithoutNeighbours(bs, ns, i) == Thin(ns, Absorbed(bs, i))
  {
    AddrNext(bs, i - 1);
    AddrNext(bs, i);
    var l, r := Addr(bs, i - 1), Addr(bs, i) + bs[i].size;
    assert Absorbed(bs, i)
        == (if CoalesceLo(bs, i) < i then {l} else {}) + (if CoalesceHi(bs, i) > i + 1 then {r} else {});
    if CoalesceLo(bs, i) < i && CoalesceHi(bs, i) > i + 1 {
      BothThin(ns, l, r);
    } else if CoalesceLo(bs, i) < i {
      WithoutThins(ns, l);
      assert {l} + {} == {l};
    } else if CoalesceHi(bs, i) > i + 1 {
      WithoutThins(ns, r);
      assert {} + {r} == {r};
    } else {
      assert Absorbed(bs, i) == {};
      ThinNone(ns);
    }
  }

  lemma {:induction false} ThinNone(ns: seq<nat>)
    ensures Thin(ns, {}) == ns
  {
    if ns != [] {
      assert ns == [ns[0]] + ns[1..];
      ThinNone(ns[1..]);
    }
  }

  /** The block pointers of the free neighbours of block i, worked out from the sizes. */
  function Absorbed(bs: seq<Block>, i: nat): set<int>
    requires 0 < i < |bs|
  {
    var left: set<int> := if bs[i - 1].alloc then {} else {Addr(bs, i) - bs[i - 1].size};
    var right: set<int> := if i + 1 < |bs| && !bs[i + 1].alloc then {Addr(bs, i) + bs[i].size} else {};
    left + right
  }

  lemma GatherOrder(h: Heap, i: nat)
    requires 0 < i < |h.blocks| && Spaced(h.list)
    ensures var bs, a := h.blocks, Addr(h.blocks, i);
            var front: int := if bs[i - 1].alloc then a else a - bs[i - 1].size;
            var left: set<int> := if bs[i - 1].alloc then {} else {a - bs[i - 1].size};
            var right: set<int> := if i + 1 < |bs| && !bs[i + 1].alloc then {a + bs[i].size} else {};
            Gather(h, i).list == [front] + Thin(h.list, left + right)
  {
    NeighboursThin(h.blocks, h.list, i);
    AddrNext(h.blocks, i - 1);
  }

  /** Coalescing keeps the invariant: the free neighbours leave the list, the others keeping their order, and
      the merged block becomes its front. */
  lemma GatherLaw(h: Heap, i: nat)
    requires Framed(h.blocks, FREEBLOCKSIZE) && CoalescedExcept(h.blocks, i) && 0 < i < |h.blocks|
    requires !h.blocks[i].alloc && Listed(h.blocks, h.list, {Addr(h.blocks, i)})
    ensures Sane(Gather(h, i)) && Sum(Gather(h, i).blocks) == Sum(h.blocks)
    ensures Live(Gather(h, i).blocks) == Live(h.blocks)
    ensures var bs, a := h.blocks, Addr(h.blocks, i);
            var front: int := if bs[i - 1].alloc then a else a - bs[i - 1].size;
            var left: set<int> := if bs[i - 1].alloc then {} else {a - bs[i - 1].size};
            var right: set<int> := if i + 1 < |bs| && !bs[i + 1].alloc then {a + bs[i].size} else {};
            Gather(h, i).list == [front] + Thin(h.list, left + right)
  {
    GatherOrder(h, i);
    GatherSane(h, i);
  }

  lemma GatherSane(h: Heap, i: nat)
    requires Framed(h.blocks, FREEBLOCKSIZE) && CoalescedExcept(h.blocks, i) && 0 < i < |h.blocks|
    requires !h.blocks[i].alloc && Listed(h.blocks, h.list, {Addr(h.blocks, i)})
    ensures Sane(Gather(h, i)) && Sum(Gather(h, i).blocks) == Sum(h.blocks)
    ensures Live(Gather(h, i).blocks) == Live(h.blocks)
  {
    var bs := h.blocks;
    CoalesceWellFormed(bs, i, FREEBLOCKSIZE);
    CoalesceLive(bs, i, FREEBLOCKSIZE);
    GatherUnlists(bs, h.list, i);
    var ns := WithoutNeighbours(bs, h.list, i);
    MergedListed(bs, i, ns);
    AddrMonotone(bs, 0, CoalesceLo(bs, i));
    PushedListed(Coalesce(bs, i), ns, Addr(bs, CoalesceLo(bs, i)));
  }

  // ---------------------------------------------------------------- mm_free

  function Release(h: Heap, p: nat): Heap
    requires p in Live(h.blocks)
  {
    Gather(Heap(MarkFree(h.blocks, IndexOf(h.blocks, p)), h.list), IndexOf(h.blocks, p))
  }

  lemma MarkedListed(bs: seq<Block>, ns: seq<nat>, i: nat)
    requires Framed(bs, FREEBLOCKSIZE) && 0 < i < |bs| && bs[i].alloc && Listed(bs, ns, {})
    ensures Listed(MarkFree(bs, i), ns, {Addr(bs, i)})
  {
    var mid := [Block(bs[i].size, false)];
    OneBlock(bs, i);
    SumOne(mid[0]);
    forall p: nat ensures p in {} <==> Addr(bs, i) <= p < Addr(bs, i + 1) && FreeSize(bs, p) > 0 {
      if Addr(bs, i) <= p < Addr(bs, i + 1) { RegionOne(bs, i, p); }
    }
    ListedSplice(bs, i, i + 1, mid, ns, {}, {Addr(bs, i)});
  }

  /** Freeing keeps the invariant and takes back the one block. The block it merges into becomes the front of
      the list, and the free neighbours it absorbs leave it, the others keeping their order. */
  lemma ReleaseLaw(h: Heap, p: nat)
    requires Sane(h) && p in Live(h.blocks)
    ensures Sane(Release(h, p)) && Sum(Release(h, p).blocks) == Sum(h.blocks)
    ensures Live(Release(h, p).blocks) == Live(h.blocks) - {p}
    ensures 0 < IndexOf(h.blocks, p)
    ensures var bs, i := h.blocks, IndexOf(h.blocks, p);
            var front: int := if bs[i - 1].alloc then p else p - bs[i - 1].size;
            var left: set<int> := if bs[i - 1].alloc then {} else {p - bs[i - 1].size};
            var right: set<int> := if i + 1 < |bs| && !bs[i + 1].alloc then {p + bs[i].size} else {};
            Release(h, p).list == [front] + Thin(h.list, left + right)
  {
    var i := IndexOf(h.blocks, p);
    assert i != 0;
    MarkedLoose(h, i);
    GatherSane(Heap(MarkFree(h.blocks, i), h.list), i);
    ReleaseOrder(h, p, i);
  }

  lemma ReleaseOrder(h: Heap, p: nat, i: nat)
    requires Sane(h) && p in Live(h.blocks) && i == IndexOf(h.blocks, p) && 0 < i
    ensures var bs := h.blocks;
            var front: int := if bs[i - 1].alloc then p else p - bs[i - 1].size;
            var left: set<int> := if bs[i - 1].alloc then {} else {p - bs[i - 1].size};
            var right: set<int> := if i + 1 < |bs| && !bs[i + 1].alloc then {p + bs[i].size} else {};
            Release(h, p).list == [front] + Thin(h.list, left + right)
  {
    MarkedNeighbours(h.blocks, i);
    GatherOrder(Heap(MarkFree(h.blocks, i), h.list), i);
  }

  lemma MarkedLoose(h: Heap, i: nat)
    requires Sane(h) && 0 < i < |h.blocks| && h.blocks[i].alloc
    ensures var cs := MarkFree(h.blocks, i);
            && |cs| == |h.blocks| && Framed(cs, FREEBLOCKSIZE) && CoalescedExcept(cs, i) && !cs[i].alloc
            && Addr(cs, i) == Addr(h.blocks, i) && Sum(cs) == Sum(h.blocks)
            && Live(cs) == Live(h.blocks) - {Addr(h.blocks, i)} && Listed(cs, h.list, {Addr(h.blocks, i)})
  {
    MarkFreeFramed(h.blocks, i, FREEBLOCKSIZE);
    MarkedListed(h.blocks, h.list, i);
    MarkedNeighbours(h.blocks, i);
  }

  lemma MarkedNeighbours(bs: seq<Block>, i: nat)
    requires 0 < i < |bs|
    ensures var cs := MarkFree(bs, i);
            && |cs| == |bs| && cs[i - 1] == bs[i - 1] && cs[i] == Block(bs[i].size, false) && Addr(cs, i) == Addr(bs, i)
            && (i + 1 < |bs| ==> cs[i + 1] == bs[i + 1])
  {
    SpliceIndex(bs, i, i + 1, [Block(bs[i].size, false)]);
    AddrPrefix(MarkFree(bs, i), bs, i);
  }

  // ---------------------------------------------------------------- extend_heap

  /** A successful operation gives the new heap and the index of the block it is about. */
  datatype Obtained = Refused | Obtained(heap: Heap, i: nat)

  function Grow(h: Heap, cap: nat, words: nat): Obtained {
    var size := ExtendSize(words);
    if SbrkAllows(8 + Sum(h.blocks), cap, AsInt(size)) then
      var grown := Heap(h.blocks + [Block(size, false)], h.list);
      Obtained(Gather(grown, |h.blocks|), CoalesceLo(grown.blocks, |h.blocks|))
    else Refused
  }

  /** The blocks grow as in Policy.Extend. */
  lemma GrowIsExtend(h: Heap, cap: nat, words: nat)
    ensures match Extend(h.blocks, cap, words)
            case Denied => Grow(h, cap, words) == Refused
            case Granted(cs, i) =>
              Grow(h, cap, words).Obtained? && Grow(h, cap, words).heap.blocks == cs && Grow(h, cap, words).i == i
  {
  }

  lemma GrownSane(h: Heap, cap: nat, words: nat)
    requires Sane(h) && Grow(h, cap, words).Obtained?
    ensures Sane(Grow(h, cap, words).heap)
  {
    EvenWords(words);
    GrownGathers(h, ExtendSize(words));
  }

  lemma GrowLaw(h: Heap, cap: nat, words: nat)
    requires Sane(h)
    ensures match Grow(h, cap, words)
            case Refused => !SbrkAllows(8 + Sum(h.blocks), cap, AsInt(ExtendSize(words)))
            case Obtained(g, i) =>
              && Sane(g) && Sum(g.blocks) == Sum(h.blocks) + ExtendSize(words) && 8 + Sum(g.blocks) <= cap
              && Live(g.blocks) == Live(h.blocks)
              && 0 < i < |g.blocks| && Fits(g.blocks[i], ExtendSize(words))
              && g.list == [Addr(g.blocks, i)] + Thin(h.list, {Addr(g.blocks, i)})
              && var last := h.blocks[|h.blocks| - 1];
                 Addr(g.blocks, i) == 8 + Sum(h.blocks) - if last.alloc then 0 else last.size
  {
    ExtendLaw(h.blocks, cap, words, FREEBLOCKSIZE);
    GrowIsExtend(h, cap, words);
    if Grow(h, cap, words).Obtained? {
      GrownSane(h, cap, words);
      EvenWords(words);
      GrownOrder(h, ExtendSize(words));
    }
  }

  /** Where the heap's last block starts, or would if the last one is handed out. */
  function LastAddr(bs: seq<Block>): int
    requires bs != []
  {
    8 + Sum(bs) - if bs[|bs| - 1].alloc then 0 else bs[|bs| - 1].size
  }

  lemma NothingBeyond(bs: seq<Block>)
    ensures FreeSize(bs, 8 + Sum(bs)) == 0
  {
    FlipAt(bs);
    if FreeSize(bs, 8 + Sum(bs)) > 0 { SizeAtBounds(Flip(bs), 8, 8 + Sum(bs)); }
  }

  lemma NotListedBeyond(h: Heap)
    requires Sane(h)
    ensures Thin(h.list, {8 + Sum(h.blocks)}) == h.list
  {
    NothingBeyond(h.blocks);
    SumSplit(h.blocks, 1);
    SumOne(h.blocks[0]);
    assert h.blocks[..1] == [h.blocks[0]];
    assert 8 + Sum(h.blocks) !in h.list;
    ThinAbsent(h.list, 8 + Sum(h.blocks));
  }

  /** The block that grows the heap is the front of the list, merged with the last block if that was free. */
  lemma GrownOrder(h: Heap, size: nat)
    requires Sane(h) && size >= FREEBLOCKSIZE && size % 8 == 0
    ensures var grown := h.blocks + [Block(size, false)];
            var g, lo := Gather(Heap(grown, h.list), |h.blocks|), CoalesceLo(grown, |h.blocks|);
            && lo < |g.blocks| && Addr(g.blocks, lo) == LastAddr(h.blocks)
            && g.list == [Addr(g.blocks, lo)] + Thin(h.list, {Addr(g.blocks, lo)})
  {
    var bs, grown := h.blocks, h.blocks + [Block(size, false)];
    var lo := CoalesceLo(grown, |bs|);
    GrownFramed(bs, size, FREEBLOCKSIZE);
    CoalesceWellFormed(grown, |bs|, FREEBLOCKSIZE);
    AddrPrefix(grown, bs, |bs|);
    AddrPrefix(grown, bs, lo);
    AddrLast(bs);
    if lo < |bs| {
      AddrNext(bs, lo);
      WithoutThins(h.list, Addr(bs, lo));
      assert WithoutNeighbours(grown, h.list, |bs|) == Without(h.list, Addr(grown, |bs| - 1));
    } else {
      NotListedBeyond(h);
    }
  }

  lemma GrownGathers(h: Heap, size: nat)
    requires Sane(h) && size >= FREEBLOCKSIZE && size % 8 == 0
    ensures Sane(Gather(Heap(h.blocks + [Block(size, false)], h.list), |h.blocks|))
  {
    var cs := h.blocks + [Block(size, false)];
    GrownFramed(h.blocks, size, FREEBLOCKSIZE);
    ListedAppend(h.blocks, size, h.list);
    AddrLast(h.blocks);
    AddrPrefix(cs, h.blocks, |h.blocks|);
    GatherLaw(Heap(cs, h.list), |h.blocks|);
  }

  // ---------------------------------------------------------------- mm_malloc

  /** asize, raised to the least block that can hold two tags and two pointers. */
  function Rounded(size: uint64): uint32 {
    if AdjustedSize(size) < FREEBLOCKSIZE then FREEBLOCKSIZE else AdjustedSize(size)
  }

  lemma RoundedCovers(size: uint64)
    requires size > 0
    ensures Rounded(size) % 8 == 0 && Rounded(size) >= FREEBLOCKSIZE
    ensures size + OVERHEAD <= Rounded(size) <==> size <= MAX_REQUEST
    ensures size <= MAX_REQUEST ==> Rounded(size) == FREEBLOCKSIZE || Rounded(size) < size + OVERHEAD + 8
    ensures size > MAX_REQUEST ==> Rounded(size) + 16 <= size
  {
    AdjustedSizeCovers(size);
  }

  ghost function Malloc(h: Heap, cap: nat, size: uint64): (o: Obtained)
    requires Sane(h)
  {
    if size == 0 then Refused
    else
      var asize := Rounded(size);
      RoundedCovers(size);
      var k := ListFit(h.blocks, h.list, asize);
      if k < |h.list| - 1 then
        FitIsFree(h, asize);
        var i := FreeIndex(h.blocks, h.list[k]);
        Obtained(Take(h, i, asize), i)
      else
        GrowLaw(h, cap, GrowWords(asize));
        GrowSuffices(asize);
        match Grow(h, cap, GrowWords(asize))
        case Refused => Refused
        case Obtained(g, i) => Obtained(Take(g, i, asize), i)
  }

  /** From h a rounded size has been served, with block pointer p, or refused, and the heap is now h2. */
  ghost predicate Served(h: Heap, cap: nat, asize: uint32, h2: Heap, p: Ptr)
    requires Sane(h)
  {
    var k := ListFit(h.blocks, h.list, asize);
    if k < |h.list| - 1 && FreeSize(h.blocks, h.list[k]) > 0 then
      var i := FreeIndex(h.blocks, h.list[k]);
      && asize <= h.blocks[i].size && h2 == Take(h, i, asize)
      && i < |h2.blocks| && p == At(Addr(h2.blocks, i))
    else match Grow(h, cap, GrowWords(asize))
         case Refused => p == Null && h2 == h
         case Obtained(g, i) =>
           && i < |g.blocks| && asize <= g.blocks[i].size && h2 == Take(g, i, asize)
           && i < |h2.blocks| && p == At(Addr(h2.blocks, i))
  }

  lemma NoneFits(h: Heap, asize: nat)
    requires Sane(h) && asize > 0 && ListFit(h.blocks, h.list, asize) == |h.list| - 1
    ensures forall i :: 0 <= i < |h.blocks| ==> !Fits(h.blocks[i], asize)
  {
    ListFindsWhatWalkFinds(h, asize);
  }

  lemma RemainderShape(bs: seq<Block>, i: nat, asize: nat)
    requires WellFormed(bs, FREEBLOCKSIZE) && 0 < i < |bs| && Fits(bs[i], asize)
    ensures var cs := Place(bs, i, asize, FREEBLOCKSIZE);
            && i < |cs| && (bs[i].size - asize >= 24 <==> i + 1 < |cs| && !cs[i + 1].alloc)
            && (bs[i].size - asize >= 24 ==> cs[i].size == asize)
  {
    var mid := Split(bs[i].size, asize, FREEBLOCKSIZE);
    SpliceIndex(bs, i, i + 1, mid);
    assert Place(bs, i, asize, FREEBLOCKSIZE)[i] == mid[0];
    if i + 1 < |bs| { FreePair(bs, i); }
  }

  /** The list of g is the remainder of block i, if it has one, and then the nodes ns but block i. */
  ghost predicate ListedAfter(ns: seq<nat>, g: Heap, i: nat) {
    && i < |g.blocks|
    && var p := Addr(g.blocks, i);
       var rest := if i + 1 < |g.blocks| && !g.blocks[i + 1].alloc then [p + g.blocks[i].size] else [];
       g.list == rest + Thin(ns, {p})
  }

  /** The list after placing. */
  lemma TakeOrder(h: Heap, i: nat, asize: nat)
    requires Sane(h) && 0 < i < |h.blocks| && Fits(h.blocks[i], asize)
    requires FREEBLOCKSIZE <= asize && asize % 8 == 0
    ensures ListedAfter(h.list, Take(h, i, asize), i)
    ensures Addr(Take(h, i, asize).blocks, i) == Addr(h.blocks, i) && Sum(Take(h, i, asize).blocks) == Sum(h.blocks)
  {
    RemainderShape(h.blocks, i, asize);
    PlaceShape(h.blocks, i, asize, FREEBLOCKSIZE);
    WithoutThins(h.list, Addr(h.blocks, i));
  }

  lemma ThinFront(ns: seq<nat>, p: nat)
    ensures Thin([p] + Thin(ns, {p}), {p}) == Thin(ns, {p})
  {
    assert ([p] + Thin(ns, {p}))[1..] == Thin(ns, {p});
    ThinTwice(ns, {p}, {p});
    assert {p} + {p} == {p};
  }

  lemma ServedFromList(h: Heap, cap: nat, size: uint64, asize: uint32)
    requires Sane(h) && size > 0 && asize == Rounded(size) && ListFit(h.blocks, h.list, asize) < |h.list| - 1
    ensures var p := h.list[ListFit(h.blocks, h.list, asize)];
            && FreeSize(h.blocks, p) > 0 && h.blocks[FreeIndex(h.blocks, p)].size >= asize
            && Malloc(h, cap, size) == Obtained(Take(h, FreeIndex(h.blocks, p), asize), FreeIndex(h.blocks, p))
  {
    FitIsFree(h, asize);
  }

  lemma ServedByGrowing(h: Heap, cap: nat, size: uint64, asize: uint32)
    requires Sane(h) && size > 0 && asize == Rounded(size) && ListFit(h.blocks, h.list, asize) == |h.list| - 1
    requires Malloc(h, cap, size).Obtained?
    ensures var e := Grow(h, cap, GrowWords(asize));
            && e.Obtained? && Sane(e.heap) && 0 < e.i < |e.heap.blocks| && Fits(e.heap.blocks[e.i], asize)
            && Sum(e.heap.blocks) == Sum(h.blocks) + GrowBytes(asize) && 8 + Sum(e.heap.blocks) <= cap
            && Live(e.heap.blocks) == Live(h.blocks)
            && Addr(e.heap.blocks, e.i) == LastAddr(h.blocks)
            && e.heap.list == [Addr(e.heap.blocks, e.i)] + Thin(h.list, {Addr(e.heap.blocks, e.i)})
            && Malloc(h, cap, size) == Obtained(Take(e.heap, e.i, asize), e.i)
  {
    RoundedCovers(size);
    GrowLaw(h, cap, GrowWords(asize));
    GrowSuffices(asize);
  }

  lemma ServesListed(h: Heap, cap: nat, size: uint64)
    requires Sane(h) && size > 0 && ListFit(h.blocks, h.list, Rounded(size)) < |h.list| - 1
    ensures var o := Malloc(h, cap, size);
            && o.Obtained? && ListedAfter(h.list, o.heap, o.i)
            && Addr(o.heap.blocks, o.i) == h.list[ListFit(h.blocks, h.list, Rounded(size))]
            && Sum(o.heap.blocks) == Sum(h.blocks)
  {
    var asize := Rounded(size);
    RoundedCovers(size);
    FitIsFree(h, asize);
    ServedFromList(h, cap, size, asize);
    var i := FreeIndex(h.blocks, h.list[ListFit(h.blocks, h.list, asize)]);
    TakeOrder(h, i, asize);
  }

  lemma ServesGrown(h: Heap, cap: nat, size: uint64)
    requires Sane(h) && size > 0 && ListFit(h.blocks, h.list, Rounded(size)) == |h.list| - 1
    requires Malloc(h, cap, size).Obtained?
    ensures var o := Malloc(h, cap, size);
            && ListedAfter(h.list, o.heap, o.i)
            && Addr(o.heap.blocks, o.i) == LastAddr(h.blocks)
            && Sum(o.heap.blocks) == Sum(h.blocks) + GrowBytes(Rounded(size))
  {
    var asize := Rounded(size);
    RoundedCovers(size);
    ServedByGrowing(h, cap, size, asize);
    var e := Grow(h, cap, GrowWords(asize));
    TakeOrder(e.heap, e.i, asize);
    ThinFront(h.list, Addr(e.heap.blocks, e.i));
  }

  /** Which block a list allocation grants, and what it does to the list: the first listed block that holds the
      rounded size, or, when there is none, the end of the heap, grown by the larger of the rounded size and
      65536 bytes and merged with a free block there. A remainder becomes the front of the list, and the other
      nodes keep their order. */
  lemma ListMallocServes(h: Heap, cap: nat, size: uint64)
    requires Sane(h) && Malloc(h, cap, size).Obtained?
    ensures Malloc(h, cap, size).i < |Malloc(h, cap, size).heap.blocks|
    ensures var o := Malloc(h, cap, size);
            var cs, p := o.heap.blocks, Addr(o.heap.blocks, o.i);
            var rest := if o.i + 1 < |cs| && !cs[o.i + 1].alloc then [p + cs[o.i].size] else [];
            o.heap.list == rest + Thin(h.list, {p})
    ensures var o, k := Malloc(h, cap, size), ListFit(h.blocks, h.list, Rounded(size));
            k < |h.list| - 1 ==> Addr(o.heap.blocks, o.i) == h.list[k] && Sum(o.heap.blocks) == Sum(h.blocks)
    ensures var o, asize := Malloc(h, cap, size), Rounded(size);
            (forall j :: 0 <= j < |h.blocks| && !h.blocks[j].alloc ==> h.blocks[j].size < asize) ==>
              && Sum(o.heap.blocks) == Sum(h.blocks) + (if asize > 0x1_0000 then asize else 0x1_0000)
              && var last := h.blocks[|h.blocks| - 1];
                 Addr(o.heap.blocks, o.i) == 8 + Sum(h.blocks) - if last.alloc then 0 else last.size
  {
    RoundedCovers(size);
    ListFindsWhatWalkFinds(h, Rounded(size));
    NoneFree(h.blocks, Rounded(size));
    if ListFit(h.blocks, h.list, Rounded(size)) < |h.list| - 1 {
      ServesListed(h, cap, size);
    } else {
      ServesGrown(h, cap, size);
    }
  }

  /** What placing does for mm_malloc. */
  lemma TakeGrants(h: Heap, i: nat, asize: nat)
    requires Sane(h) && 0 < i < |h.blocks| && Fits(h.blocks[i], asize) && FREEBLOCKSIZE <= asize && asize % 8 == 0
    ensures var g := Take(h, i, asize);
            && Sane(g) && Sum(g.blocks) == Sum(h.blocks) && i < |g.blocks| && g.blocks[i].alloc
            && asize <= g.blocks[i].size <= asize + 16
            && Addr(g.blocks, i) % 8 == 0 && 32 <= Addr(g.blocks, i) && Addr(g.blocks, i) !in Live(h.blocks)
            && Addr(g.blocks, i) + g.blocks[i].size <= 8 + Sum(g.blocks)
            && Live(g.blocks) == Live(h.blocks)[Addr(g.blocks, i) := g.blocks[i].size]
  {
    PlaceWellFormed(h.blocks, i, asize, FREEBLOCKSIZE);
    TakeLaw(h, i, asize);
  }

  /** What a list allocation does to the heap, for every request: heap and list stay well formed, as no block
      is ever smaller than 24 bytes, and the block granted covers the request exactly up to MAX_REQUEST. */
  lemma ListMallocLaw(h: Heap, cap: nat, size: uint64)
    requires Sane(h)
    ensures match Malloc(h, cap, size)
            case Refused =>
              || size == 0
              || (&& (forall i :: 0 <= i < |h.blocks| ==> !Fits(h.blocks[i], Rounded(size)))
                  && !SbrkAllows(8 + Sum(h.blocks), cap, AsInt(ExtendSize(GrowWords(Rounded(size))))))
            case Obtained(g, i) =>
              && size > 0 && Sane(g) && Sum(g.blocks) == Sum(h.blocks) + Growth(h.blocks, Rounded(size))
              && (8 + Sum(h.blocks) <= cap ==> 8 + Sum(g.blocks) <= cap)
              && 0 < i < |g.blocks| && Addr(g.blocks, i) % 8 == 0 && 32 <= Addr(g.blocks, i)
              && Addr(g.blocks, i) !in Live(h.blocks)
              && g.blocks[i].alloc && Rounded(size) <= g.blocks[i].size <= Rounded(size) + 16
              && (size + OVERHEAD <= g.blocks[i].size <==> size <= MAX_REQUEST)
              && (size <= MAX_REQUEST ==> 24 <= g.blocks[i].size <= if size <= 16 then 40 else size + 31)
              && Addr(g.blocks, i) + g.blocks[i].size <= 8 + Sum(g.blocks)
              && Live(g.blocks) == Live(h.blocks)[Addr(g.blocks, i) := g.blocks[i].size]
  {
    if size > 0 {
      var asize := Rounded(size);
      RoundedCovers(size);
      if size <= MAX_REQUEST { RoundedRange(size); }
      ListFindsWhatWalkFinds(h, asize);
      var k := ListFit(h.blocks, h.list, asize);
      if k < |h.list| - 1 {
        FitIsFree(h, asize);
        ServedFromList(h, cap, size, asize);
        TakeGrants(h, FreeIndex(h.blocks, h.list[k]), asize);
      } else if Malloc(h, cap, size).Obtained? {
        ServedByGrowing(h, cap, size, asize);
        var e := Grow(h, cap, GrowWords(asize));
        TakeGrants(e.heap, e.i, asize);
      } else {
        NoneFits(h, asize);
        ListServed(h, cap, size, asize);
      }
    }
  }

  lemma RoundedRange(size: uint64)
    requires 0 < size <= MAX_REQUEST
    ensures 24 <= Rounded(size) <= if size <= 16 then 24 else size + 15
  {
    RoundedCovers(size);
  }

  /** A list allocation returns NULL exactly for size 0, or when every free block of the whole heap is too small
      and the larger of the rounded size and 65536 bytes is negative as an int or passes the end of the arena. */
  lemma RefusedIff(h: Heap, cap: nat, size: uint64)
    requires Sane(h)
    ensures Malloc(h, cap, size).Refused?
       <==> size == 0
            || (&& (forall i :: 0 <= i < |h.blocks| && !h.blocks[i].alloc ==> h.blocks[i].size < Rounded(size))
                && var want := if Rounded(size) > 0x1_0000 then Rounded(size) else 0x1_0000;
                   want >= 0x8000_0000 || 8 + Sum(h.blocks) + want > cap)
  {
    if size > 0 {
      var asize := Rounded(size);
      RoundedCovers(size);
      GrowSuffices(asize);
      ListFindsWhatWalkFinds(h, asize);
      ListServed(h, cap, size, asize);
      var i := FirstFit(h.blocks, asize);
      assert i < |h.blocks| ==> Fits(h.blocks[i], asize);
    }
  }

  lemma ListServed(h: Heap, cap: nat, size: uint64, asize: uint32)
    requires Sane(h) && size > 0 && asize == Rounded(size)
    ensures Malloc(h, cap, size).Obtained?
       <==> ListFit(h.blocks, h.list, asize) < |h.list| - 1
            || SbrkAllows(8 + Sum(h.blocks), cap, AsInt(ExtendSize(GrowWords(asize))))
  {
    GrowServed(h, cap, GrowWords(asize));
  }

  lemma GrowServed(h: Heap, cap: nat, words: nat)
    ensures Grow(h, cap, words).Obtained? <==> SbrkAllows(8 + Sum(h.blocks), cap, AsInt(ExtendSize(words)))
  {
  }

  /** The size of the block that freeing p leaves: its own and those of its free neighbours. */
  function MergedBytes(bs: seq<Block>, p: nat): nat
    requires p in Live(bs) && 0 < IndexOf(bs, p)
  {
    var i := IndexOf(bs, p);
    bs[i].size + (if bs[i - 1].alloc then 0 else bs[i - 1].size)
    + (if i + 1 < |bs| && !bs[i + 1].alloc then bs[i + 1].size else 0)
  }

  lemma ThreeSizes(bs: seq<Block>, i: nat)
    requires 0 < i < |bs|
    ensures Sum(bs[CoalesceLo(bs, i)..CoalesceHi(bs, i)])
         == bs[i].size + (if bs[i - 1].alloc then 0 else bs[i - 1].size)
            + (if i + 1 < |bs| && !bs[i + 1].alloc then bs[i + 1].size else 0)
  {
    SumSlice(bs, CoalesceLo(bs, i), CoalesceHi(bs, i));
    AddrNext(bs, i - 1);
    AddrNext(bs, i);
    if i + 1 < |bs| { AddrNext(bs, i + 1); }
  }

  /** The front of the list after a free is a block of that size. */
  lemma FreedFront(h: Heap, p: nat)
    requires Sane(h) && p in Live(h.blocks)
    ensures 0 < IndexOf(h.blocks, p) && Release(h, p).list != []
    ensures FreeSize(Release(h, p).blocks, Release(h, p).list[0]) == MergedBytes(h.blocks, p)
  {
    var i := IndexOf(h.blocks, p);
    assert i != 0;
    var cs := MarkFree(h.blocks, i);
    MarkedLoose(h, i);
    MarkedNeighbours(h.blocks, i);
    ThreeSizes(cs, i);
    var lo, hi := CoalesceLo(cs, i), CoalesceHi(cs, i);
    var total := Block(Sum(cs[lo..hi]), false);
    MergedSize(cs, lo, i, hi, FREEBLOCKSIZE);
    SumSlice(cs, lo, hi);
    SumOne(total);
    FreeSplice(cs, lo, hi, [total], Addr(cs, lo));
    assert Flip([total])[1..] == [];
  }

  /** Last in, first out: a request that the block left by a free holds is served from it, right after. */
  lemma FreedServedFirst(h: Heap, p: nat, cap: nat, size: uint64)
    requires Sane(h) && p in Live(h.blocks) && 0 < IndexOf(h.blocks, p)
    requires var bs, i := h.blocks, IndexOf(h.blocks, p);
             size > 0 && Rounded(size) <= bs[i].size + (if bs[i - 1].alloc then 0 else bs[i - 1].size)
                                          + (if i + 1 < |bs| && !bs[i + 1].alloc then bs[i + 1].size else 0)
    ensures Sane(Release(h, p))
    ensures var bs, i := h.blocks, IndexOf(h.blocks, p);
            var o := Malloc(Release(h, p), cap, size);
            && o.Obtained? && o.i < |o.heap.blocks|
            && Addr(o.heap.blocks, o.i) == if bs[i - 1].alloc then p else p - bs[i - 1].size
  {
    ReleaseLaw(h, p);
    FreedFront(h, p);
    var g := Release(h, p);
    RoundedCovers(size);
    assert Far(g.list, 0, |g.list| - 1) || |g.list| == 1;
    assert FreeSize(g.blocks, SENTINEL) == 0 by { FreeAt(g.blocks, 0); }
    ServesListed(g, cap, size);
  }

  // ---------------------------------------------------------------- mm_realloc

  /** The size of the free block a request is served from: the first listed that fits, or the last of the
      heap after growing. */
  function ListSource(h: Heap, asize: uint32): nat
    requires h.blocks != [] && h.list != []
  {
    var k := ListFit(h.blocks, h.list, asize);
    if k < |h.list| - 1 then FreeSize(h.blocks, h.list[k]) else LastGrown(h.blocks, GrowBytes(asize))
  }

  lemma TakeHands(h: Heap, i: nat, asize: nat)
    requires i < |h.blocks| && asize <= h.blocks[i].size
    ensures i < |Take(h, i, asize).blocks|
    ensures Take(h, i, asize).blocks[i].size == Handed(h.blocks[i].size, asize, FREEBLOCKSIZE)
  {
    PlaceShape(h.blocks, i, asize, FREEBLOCKSIZE);
    SplitHands(h.blocks[i].size, asize, FREEBLOCKSIZE);
  }

  /** The size of the block a list allocation grants, told from heap and list before the call. */
  lemma ListGrantedSize(h: Heap, cap: nat, size: uint64)
    requires Sane(h) && Malloc(h, cap, size).Obtained?
    ensures var o, asize := Malloc(h, cap, size), Rounded(size);
            && o.i < |o.heap.blocks|
            && o.heap.blocks[o.i].size == Handed(ListSource(h, asize), asize, FREEBLOCKSIZE)
  {
    var asize := Rounded(size);
    RoundedCovers(size);
    var k := ListFit(h.blocks, h.list, asize);
    if k < |h.list| - 1 {
      FitIsFree(h, asize);
      TakeHands(h, FreeIndex(h.blocks, h.list[k]), asize);
    } else {
      GrowLaw(h, cap, GrowWords(asize));
      GrowSuffices(asize);
      GrownLast(h.blocks, GrowBytes(asize));
      var e := Grow(h, cap, GrowWords(asize));
      TakeHands(e.heap, e.i, asize);
    }
  }

  /** mm_realloc writes nothing past the payload of the new block. */
  ghost predicate ListCopyStaysIn(h: Heap, cap: nat, size: uint64, ptr: nat)
    requires Sane(h) && ptr in Live(h.blocks)
  {
    match Malloc(h, cap, size)
    case Refused => true
    case Obtained(g, i) => i < |g.blocks| && CopySize(Live(h.blocks)[ptr], size) + OVERHEAD <= g.blocks[i].size
  }

  /** What a caller of mm_realloc can check before the call. */
  predicate ListCopyFits(h: Heap, cap: nat, size: uint64, ptr: nat)
    requires h.blocks != [] && h.list != [] && ptr in Live(h.blocks)
  {
    var asize := Rounded(size);
    || size <= MAX_REQUEST
    || Unserved(h.blocks, cap, asize)
    || CopySize(Live(h.blocks)[ptr], size) + OVERHEAD <= Handed(ListSource(h, asize), asize, FREEBLOCKSIZE)
  }

  /** mm_realloc stays inside the new payload if and only if the request is at most MAX_REQUEST, or it is not
      served at all, or the block that its rounding will be given holds the copied bytes and the two tags. */
  lemma ListCopyFitsIff(h: Heap, cap: nat, size: uint64, ptr: nat)
    requires Sane(h) && ptr in Live(h.blocks)
    ensures ListCopyStaysIn(h, cap, size, ptr) <==> ListCopyFits(h, cap, size, ptr)
    ensures var o, held := Malloc(h, cap, size), Live(h.blocks)[ptr];
            ListCopyFits(h, cap, size, ptr)
            <==> o.Refused?
                 || (&& o.i < |o.heap.blocks|
                     && (size + 8 <= o.heap.blocks[o.i].size || held + 8 <= o.heap.blocks[o.i].size))
  {
    ListMallocLaw(h, cap, size);
    if size > 0 {
      var asize := Rounded(size);
      RoundedCovers(size);
      GrowSuffices(asize);
      ListFindsWhatWalkFinds(h, asize);
      ListServed(h, cap, size, asize);
      if Malloc(h, cap, size).Obtained? { ListGrantedSize(h, cap, size); }
    }
  }

  /** Heap and list after mm_init and one request of 24 bytes. */
  const ONE_TAKEN: Heap := Heap(ONE_LIVE, [64, SENTINEL])

  lemma OneTaken(cap: nat)
    ensures Sane(INITIAL_HEAP) && Malloc(INITIAL_HEAP, cap, 24) == Obtained(ONE_TAKEN, 1)
    ensures Sane(ONE_TAKEN) && Live(ONE_LIVE) == map[32 := 32]
  {
    InitialSane();
    OneLive(cap);
    InitialFit(32);
    FirstTaken();
    ServedFromList(INITIAL_HEAP, cap, 24, 32);
    TakeSane(INITIAL_HEAP, 1, 32);
  }

  lemma FirstTaken()
    ensures Take(INITIAL_HEAP, 1, 32) == ONE_TAKEN
  {
    assert INITIAL[..1] == EMPTY;
    SumOne(PROLOGUE);
    assert Split(CHUNKSIZE, 32, FREEBLOCKSIZE) == [Block(32, true), Block(CHUNKSIZE - 32, false)];
    assert Place(INITIAL, 1, 32, FREEBLOCKSIZE) == ONE_LIVE;
  }

  lemma InitialFit(asize: nat)
    requires 0 < asize <= CHUNKSIZE
    ensures ListFit(INITIAL, [INIT_BYTES, SENTINEL], asize) == 0
    ensures FreeSize(INITIAL, INIT_BYTES) > 0 && FreeIndex(INITIAL, INIT_BYTES) == 1
  {
    OneFree(CHUNKSIZE, INIT_BYTES);
    SumOne(PROLOGUE);
    assert INITIAL[..1] == [PROLOGUE] && INITIAL[..0] == [];
    var i := FreeIndex(INITIAL, INIT_BYTES);
    assert INITIAL[0].alloc;
  }

  /** A reallocation that writes past the new payload: from 24 bytes to 2^32 + 8. The new block holds 16 bytes
      and 32 are copied, over its footer and into the block after it. */
  lemma ListReallocOverruns(cap: nat)
    ensures Sane(ONE_TAKEN) && 32 in Live(ONE_LIVE)
    ensures Malloc(ONE_TAKEN, cap, 0x1_0000_0008).Obtained?
    ensures CopySize(Live(ONE_LIVE)[32], 0x1_0000_0008) == 32 && !ListCopyStaysIn(ONE_TAKEN, cap, 0x1_0000_0008, 32)
  {
    OneTaken(cap);
    assert Rounded(0x1_0000_0008) == 24;
    var k := ListHolds(ONE_TAKEN, 2);
    assert ListFit(ONE_LIVE, ONE_TAKEN.list, 24) == 0;
    ListServed(ONE_TAKEN, cap, 0x1_0000_0008, 24);
    ListCopyFitsIff(ONE_TAKEN, cap, 0x1_0000_0008, 32);
  }

  /** The block mm_realloc moves to, next to the block it moves from and all others. */
  lemma ListReallocLaw(h: Heap, cap: nat, size: uint64, ptr: nat)
    requires Sane(h) && ptr in Live(h.blocks) && Malloc(h, cap, size).Obtained?
    ensures var o := Malloc(h, cap, size);
            var g, newp := o.heap, Addr(o.heap.blocks, o.i);
            && Sane(g) && newp in Live(g.blocks) && ptr in Live(g.blocks) && newp != ptr && newp !in Live(h.blocks)
            && Live(g.blocks)[newp] == g.blocks[o.i].size <= Rounded(size) + 16
            && (size + OVERHEAD <= Live(g.blocks)[newp] <==> size <= MAX_REQUEST)
            && FREEBLOCKSIZE <= Live(g.blocks)[ptr] == Live(h.blocks)[ptr]
            && (forall p :: p in Live(h.blocks) ==> p in Live(g.blocks) && Live(g.blocks)[p] == Live(h.blocks)[p])
            && Live(g.blocks) - {newp} == Live(h.blocks)
            && Sane(Release(g, ptr))
            && Live(Release(g, ptr).blocks) == Live(h.blocks)[newp := Live(g.blocks)[newp]] - {ptr}
  {
    ListMallocLaw(h, cap, size);
    var o := Malloc(h, cap, size);
    MovedLive(h, o.heap, Addr(o.heap.blocks, o.i), o.heap.blocks[o.i].size, ptr);
  }

  /** From h to g one block has been handed out, at newp; then the one at ptr is freed. */
  lemma MovedLive(h: Heap, g: Heap, newp: nat, size: nat, ptr: nat)
    requires Sane(h) && Sane(g) && ptr in Live(h.blocks) && newp !in Live(h.blocks)
    requires Live(g.blocks) == Live(h.blocks)[newp := size]
    ensures FREEBLOCKSIZE <= Live(h.blocks)[ptr] && ptr in Live(g.blocks) && Live(g.blocks)[ptr] == Live(h.blocks)[ptr]
    ensures Live(g.blocks) - {newp} == Live(h.blocks)
    ensures Sane(Release(g, ptr)) && Live(Release(g, ptr).blocks) == Live(h.blocks)[newp := size] - {ptr}
  {
    LiveSized(h.blocks, FREEBLOCKSIZE, ptr);
    ReleaseLaw(g, ptr);
  }

  // ---------------------------------------------------------------- whole runs

  datatype Call = CallMalloc(size: uint64) | CallFree(p: nat) | CallRealloc(p: nat, size: uint64)

  /** Only live blocks are freed or reallocated, and these not to sizes whose rounding loses the payload. */
  predicate Proper(h: Heap, cap: nat, call: Call)
    requires h.blocks != [] && h.list != []
  {
    match call
    case CallMalloc(size) => true
    case CallFree(p) => p in Live(h.blocks)
    case CallRealloc(p, size) => p in Live(h.blocks) && ListCopyFits(h, cap, size, p)
  }

  ghost function Do(h: Heap, cap: nat, call: Call): (g: Heap)
    requires Sane(h) && Proper(h, cap, call)
    ensures Sane(g) && Sum(h.blocks) <= Sum(g.blocks) && (8 + Sum(h.blocks) <= cap ==> 8 + Sum(g.blocks) <= cap)
  {
    match call
    case CallFree(p) =>
      ReleaseLaw(h, p);
      Release(h, p)
    case CallMalloc(size) =>
      ListMallocLaw(h, cap, size);
      (match Malloc(h, cap, size)
       case Refused => h
       case Obtained(g, _) => g)
    case CallRealloc(p, size) =>
      ListMallocLaw(h, cap, size);
      (match Malloc(h, cap, size)
       case Refused => h
       case Obtained(g, _) =>
         ListReallocLaw(h, cap, size, p);
         ReleaseLaw(g, p);
         Release(g, p))
  }

  /** What a call does: a free takes the block back, a malloc that is not refused hands one out, and a realloc
      that is not refused does both, the free last. */
  lemma DoLaw(h: Heap, cap: nat, call: Call)
    requires Sane(h) && Proper(h, cap, call)
    ensures match call
            case CallFree(p) =>
              Do(h, cap, call) == Release(h, p) && Live(Do(h, cap, call).blocks) == Live(h.blocks) - {p}
            case CallMalloc(size) =>
              var o := Malloc(h, cap, size);
              if o.Refused? then Do(h, cap, call) == h
              else Do(h, cap, call) == o.heap && |Live(o.heap.blocks)| == |Live(h.blocks)| + 1
            case CallRealloc(p, size) =>
              var o := Malloc(h, cap, size);
              if o.Refused? then Do(h, cap, call) == h
              else p in Live(o.heap.blocks) && Do(h, cap, call) == Release(o.heap, p)
                   && |Live(Do(h, cap, call).blocks)| == |Live(h.blocks)|
  {
    match call
    case CallFree(p) => ReleaseLaw(h, p);
    case CallMalloc(size) => ListMallocLaw(h, cap, size);
    case CallRealloc(p, size) =>
      if Malloc(h, cap, size).Obtained? {
        ListReallocLaw(h, cap, size, p);
        OneForAnother(h, cap, p, size);
      }
  }

  lemma OneForAnother(h: Heap, cap: nat, p: nat, size: uint64)
    requires Sane(h) && p in Live(h.blocks) && Malloc(h, cap, size).Obtained?
    requires p in Live(Malloc(h, cap, size).heap.blocks)
    ensures |Live(Release(Malloc(h, cap, size).heap, p).blocks)| == |Live(h.blocks)|
  {
    ListMallocLaw(h, cap, size);
    var g := Malloc(h, cap, size).heap;
    ReleaseLaw(g, p);
    var more, fewer := Live(g.blocks), Live(Release(g, p).blocks);
    assert fewer.Keys == more.Keys - {p};
    assert more.Keys == Live(h.blocks).Keys + {Addr(g.blocks, Malloc(h, cap, size).i)};
  }

  ghost predicate ProperRun(h: Heap, cap: nat, calls: seq<Call>)
    requires Sane(h)
    decreases calls
  {
    calls == [] || (Proper(h, cap, calls[0]) && ProperRun(Do(h, cap, calls[0]), cap, calls[1..]))
  }

  ghost function RunCalls(h: Heap, cap: nat, calls: seq<Call>): (g: Heap)
    requires Sane(h) && ProperRun(h, cap, calls)
    ensures Sane(g) && Sum(h.blocks) <= Sum(g.blocks) && (8 + Sum(h.blocks) <= cap ==> 8 + Sum(g.blocks) <= cap)
    decreases calls
  {
    if calls == [] then h else RunCalls(Do(h, cap, calls[0]), cap, calls[1..])
  }

  /** The heap and the list that mm_init leaves. */
  const INITIAL_HEAP: Heap := Heap(INITIAL, [INIT_BYTES, SENTINEL])

  lemma InitialSane()
    ensures Sane(INITIAL_HEAP)
  {
    var big := Block(CHUNKSIZE, false);
    assert INITIAL[1..] == [big];
    forall p: nat ensures FreeSize(INITIAL, p) == if p == 32 then CHUNKSIZE else 0 {
      OneFree(CHUNKSIZE, p);
    }
    forall i, j | 0 <= i < 2 && 0 <= j < 2 && i != j ensures Far(INITIAL_HEAP.list, i, j) {}
  }

  lemma OneFree(size: nat, p: nat)
    requires size > 0
    ensures FreeSize([PROLOGUE, Block(size, false)], p) == if p == 32 then size else 0
  {
    SumOne(PROLOGUE);
    FreeAppend([PROLOGUE], Block(size, false), p);
    assert [PROLOGUE] + [Block(size, false)] == [PROLOGUE, Block(size, false)];
    FlipAt([PROLOGUE]);
    SizeAtFree(Flip([PROLOGUE]), 8, p);
  }

  /** After any run that leaves nothing allocated, all the bytes are in one free block and the list holds
      just that block. */
  lemma {:induction false} EverythingFreed(cap: nat, calls: seq<Call>)
    requires Sane(INITIAL_HEAP) && ProperRun(INITIAL_HEAP, cap, calls)
    requires Live(RunCalls(INITIAL_HEAP, cap, calls).blocks) == map[]
    ensures var g := RunCalls(INITIAL_HEAP, cap, calls);
            g == Heap([PROLOGUE, Block(Sum(g.blocks) - 24, false)], [INIT_BYTES, SENTINEL])
  {
    SumTwo(PROLOGUE, Block(CHUNKSIZE, false));
    OneBlockLeft(RunCalls(INITIAL_HEAP, cap, calls));
  }

  lemma OneBlockLeft(h: Heap)
    requires Sane(h) && Live(h.blocks) == map[] && Sum(h.blocks) > 24
    ensures h == Heap([PROLOGUE, Block(Sum(h.blocks) - 24, false)], [INIT_BYTES, SENTINEL])
  {
    NothingLive(h.blocks, FREEBLOCKSIZE);
    OnlyNode(h.blocks, h.list, Sum(h.blocks) - 24);
  }

  lemma OnlyNode(bs: seq<Block>, ns: seq<nat>, size: nat)
    requires size > 0 && bs == [PROLOGUE, Block(size, false)] && Listed(bs, ns, {})
    ensures ns == [INIT_BYTES, SENTINEL]
  {
    OneFree(size, 32);
    assert 32 in ns;
    forall k | 0 <= k < |ns| - 1 ensures ns[k] == 32 {
      assert Far(ns, k, |ns| - 1);
      assert ns[k] in ns;
      OneFree(size, ns[k]);
    }
    assert |ns| > 2 ==> Far(ns, 0, 1);
  }
}
