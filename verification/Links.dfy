/** The explicit free list over the heap's bytes. A node is the block pointer of a free block, or the
    prologue at 8, the end of the list; a free block keeps its next pointer in the 8 bytes at bp and its
    prev pointer in the 8 bytes at bp+8, and NULL is 0. */
module Links {
  import opened Words
  import opened Blocks

  /** The end of every list: the block pointer of the prologue. */
  const SENTINEL: nat := 8
  /** Bytes taken by the two pointers. */
  const SLOTS: nat := 16

  // ---------------------------------------------------------------- free blocks by address

  /** The same blocks with free and allocated exchanged. */
  function Flip(bs: seq<Block>): seq<Block> {
    if bs == [] then [] else [Block(bs[0].size, !bs[0].alloc)] + Flip(bs[1..])
  }

  lemma FlipAt(bs: seq<Block>)
    ensures |Flip(bs)| == |bs| && Sum(Flip(bs)) == Sum(bs)
    ensures forall i :: 0 <= i < |bs| ==> Flip(bs)[i] == Block(bs[i].size, !bs[i].alloc)
  {
    if bs != [] { FlipAt(bs[1..]); }
  }

  lemma FlipAppend(x: seq<Block>, y: seq<Block>)
    ensures Flip(x + y) == Flip(x) + Flip(y)
  {
    if x == [] {
      assert x + y == y;
    } else {
      assert (x + y)[1..] == x[1..] + y;
      FlipAppend(x[1..], y);
    }
  }

  lemma FlipPrefix(bs: seq<Block>, i: nat)
    requires i <= |bs|
    ensures |Flip(bs)| == |bs| && Flip(bs)[..i] == Flip(bs[..i]) && Flip(bs)[i..] == Flip(bs[i..])
    ensures Addr(Flip(bs), i) == Addr(bs, i)
  {
    assert bs == bs[..i] + bs[i..];
    FlipAppend(bs[..i], bs[i..]);
    FlipAt(bs);
    FlipAt(bs[..i]);
  }

  /** Size of the free block at block pointer p; 0 if there is none. */
  function FreeSize(bs: seq<Block>, p: nat): nat {
    SizeAt(Flip(bs), 8, p)
  }

  lemma FreeSplice(bs: seq<Block>, lo: nat, hi: nat, mid: seq<Block>, p: nat)
    requires lo <= hi <= |bs| && Sum(mid) == Sum(bs[lo..hi]) && Positive(bs) && Positive(mid)
    ensures FreeSize(Splice(bs, lo, hi, mid), p)
         == if Addr(bs, lo) <= p < Addr(bs, hi) then SizeAt(Flip(mid), Addr(bs, lo), p) else FreeSize(bs, p)
  {
    FlipAppend(bs[..lo] + mid, bs[hi..]);
    FlipAppend(bs[..lo], mid);
    FlipPrefix(bs, lo);
    FlipPrefix(bs, hi);
    FlipPrefix(bs[..hi], lo);
    assert bs[..hi][..lo] == bs[..lo] && bs[..hi][lo..] == bs[lo..hi];
    assert Flip(bs)[lo..hi] == Flip(bs)[..hi][lo..];
    FlipAt(bs);
    FlipAt(mid);
    FlipAt(bs[lo..hi]);
    SizeAtSplice(Flip(bs), lo, hi, Flip(mid), p);
  }

  lemma FreeAppend(bs: seq<Block>, b: Block, p: nat)
    requires Positive(bs)
    ensures FreeSize(bs + [b], p) == if p == 8 + Sum(bs) then (if b.alloc then 0 else b.size) else FreeSize(bs, p)
  {
    FlipAppend(bs, [b]);
    FlipAt(bs);
    SizeAtAppend(Flip(bs), Flip([b]), 8, p);
    if FreeSize(bs, p) > 0 { SizeAtBounds(Flip(bs), 8, p); }
  }

  lemma FreeAt(bs: seq<Block>, i: nat)
    requires Positive(bs) && i < |bs|
    ensures FreeSize(bs, Addr(bs, i)) == if bs[i].alloc then 0 else bs[i].size
  {
    FlipAt(bs);
    FlipPrefix(bs, i);
    SizeAtIndex(Flip(bs), i);
  }

  /** The index of the free block at p. */
  function FreeIndex(bs: seq<Block>, p: nat): (i: nat)
    requires FreeSize(bs, p) > 0
    ensures i < |bs| && bs[i] == Block(FreeSize(bs, p), false) && Addr(bs, i) == p
  {
    FlipAt(bs);
    var i := IndexFrom(Flip(bs), 8, p);
    FlipPrefix(bs, i);
    i
  }

  // ---------------------------------------------------------------- the nodes

  ghost predicate Far(ns: seq<nat>, i: int, j: int)
    requires 0 <= i < |ns| && 0 <= j < |ns|
  {
    ns[i] + SLOTS <= ns[j] || ns[j] + SLOTS <= ns[i]
  }

  /** No two nodes overlap; in particular no node is listed twice. */
  ghost predicate Spaced(ns: seq<nat>) {
    forall i, j {:trigger Far(ns, i, j)} :: 0 <= i < |ns| && 0 <= j < |ns| && i != j ==> Far(ns, i, j)
  }

  /** The list ends at the prologue and holds each free block, but those in out, exactly once. */
  ghost predicate Listed(bs: seq<Block>, ns: seq<nat>, out: set<nat>) {
    && ns != [] && ns[|ns| - 1] == SENTINEL && Spaced(ns)
    && forall p: nat {:trigger FreeSize(bs, p)} {:trigger p in ns} ::
         p in ns <==> p == SENTINEL || (FreeSize(bs, p) > 0 && p !in out)
  }

  function Remove(ns: seq<nat>, k: nat): seq<nat>
    requires k < |ns|
  {
    ns[..k] + ns[k + 1..]
  }

  /** ns without its first p. */
  function Without(ns: seq<nat>, p: nat): seq<nat> {
    if ns == [] then [] else if ns[0] == p then ns[1..] else [ns[0]] + Without(ns[1..], p)
  }

  lemma RemoveLater(ns: seq<nat>, k: nat)
    requires 0 < k < |ns|
    ensures Remove(ns, k) == [ns[0]] + Remove(ns[1..], k - 1)
  {
    assert ns[..k] == [ns[0]] + ns[1..][..k - 1];
    assert ns[1..][k..] == ns[k + 1..];
  }

  lemma {:induction false} WithoutRemoves(ns: seq<nat>, k: nat)
    requires k < |ns| && ns[k] !in ns[..k]
    ensures Without(ns, ns[k]) == Remove(ns, k)
  {
    if k > 0 {
      assert ns[..k] == [ns[0]] + ns[1..][..k - 1];
      RemoveLater(ns, k);
      WithoutRemoves(ns[1..], k - 1);
    }
  }

  /** ns without the nodes in gone. */
  function Thin(ns: seq<nat>, gone: set<int>): seq<nat> {
    if ns == [] then []
    else (if ns[0] in gone then [] else [ns[0]]) + Thin(ns[1..], gone)
  }

  lemma {:induction false} ThinMembers(ns: seq<nat>, gone: set<int>, p: nat)
    ensures p in Thin(ns, gone) <==> p in ns && p !in gone
  {
    if ns != [] {
      ThinMembers(ns[1..], gone, p);
      assert ns == [ns[0]] + ns[1..];
    }
  }

  /** p comes before q in ns. */
  ghost predicate Before(ns: seq<nat>, p: nat, q: nat) {
    exists a, b :: 0 <= a < b < |ns| && ns[a] == p && ns[b] == q
  }

  lemma BeforeLater(p: nat, ns: seq<nat>, q: nat, r: nat)
    requires Before(ns, q, r)
    ensures Before([p] + ns, q, r)
  {
    var a, b :| 0 <= a < b < |ns| && ns[a] == q && ns[b] == r;
    assert ([p] + ns)[a + 1] == q && ([p] + ns)[b + 1] == r;
  }

  lemma BeforeFirst(p: nat, ns: seq<nat>, q: nat)
    requires q in ns
    ensures Before([p] + ns, p, q)
  {
    var b :| 0 <= b < |ns| && ns[b] == q;
    assert ([p] + ns)[0] == p && ([p] + ns)[b + 1] == q;
  }

  lemma {:induction false} ThinKeepsOrder(ns: seq<nat>, gone: set<int>, j: nat, k: nat)
    requires j < k < |Thin(ns, gone)|
    ensures Before(ns, Thin(ns, gone)[j], Thin(ns, gone)[k])
  {
    var rest := Thin(ns[1..], gone);
    assert ns == [ns[0]] + ns[1..];
    if ns[0] in gone {
      ThinKeepsOrder(ns[1..], gone, j, k);
      BeforeLater(ns[0], ns[1..], rest[j], rest[k]);
    } else if j == 0 {
      ThinMembers(ns[1..], gone, rest[k - 1]);
      assert rest[k - 1] in rest;
      BeforeFirst(ns[0], ns[1..], rest[k - 1]);
    } else {
      ThinKeepsOrder(ns[1..], gone, j - 1, k - 1);
      BeforeLater(ns[0], ns[1..], rest[j - 1], rest[k - 1]);
    }
  }

  /** The other nodes, in their old order. */
  lemma ThinMeans(ns: seq<nat>, gone: set<int>)
    ensures forall p :: p in Thin(ns, gone) <==> p in ns && p !in gone
    ensures forall j, k :: 0 <= j < k < |Thin(ns, gone)| ==>
              exists a, b :: 0 <= a < b < |ns| && ns[a] == Thin(ns, gone)[j] && ns[b] == Thin(ns, gone)[k]
  {
    forall p ensures p in Thin(ns, gone) <==> p in ns && p !in gone {
      ThinMembers(ns, gone, p);
    }
    forall j, k | 0 <= j < k < |Thin(ns, gone)| ensures Before(ns, Thin(ns, gone)[j], Thin(ns, gone)[k]) {
      ThinKeepsOrder(ns, gone, j, k);
    }
  }

  lemma {:induction false} ThinAbsent(ns: seq<nat>, p: nat)
    requires multiset(ns)[p] == 0
    ensures Thin(ns, {p}) == ns
  {
    if ns != [] {
      assert ns == [ns[0]] + ns[1..];
      ThinAbsent(ns[1..], p);
    }
  }

  lemma {:induction false} ThinTwice(ns: seq<nat>, gone: set<int>, more: set<int>)
    ensures Thin(Thin(ns, gone), more) == Thin(ns, gone + more)
  {
    if ns != [] {
      ThinTwice(ns[1..], gone, more);
      var rest := Thin(ns[1..], gone);
      if ns[0] !in gone {
        assert ([ns[0]] + rest)[1..] == rest;
      } else {
        assert [] + rest == rest;
      }
    }
  }

  lemma {:induction false} ThinCount(ns: seq<nat>, gone: set<int>, p: nat)
    ensures multiset(Thin(ns, gone))[p] <= multiset(ns)[p]
  {
    if ns != [] {
      assert ns == [ns[0]] + ns[1..];
      ThinCount(ns[1..], gone, p);
    }
  }

  lemma {:induction false} WithoutOnce(ns: seq<nat>, p: nat)
    requires multiset(ns)[p] <= 1
    ensures Without(ns, p) == Thin(ns, {p})
  {
    if ns != [] {
      assert ns == [ns[0]] + ns[1..];
      if ns[0] == p { ThinAbsent(ns[1..], p); } else { WithoutOnce(ns[1..], p); }
    }
  }

  lemma SpacedOnce(ns: seq<nat>, p: nat)
    requires Spaced(ns)
    ensures multiset(ns)[p] <= 1
  {
    if p in ns {
      var k :| 0 <= k < |ns| && ns[k] == p;
      var after := ns[k + 1..];
      ListedOnce(ns, k);
      forall j | 0 <= j < |after| ensures after[j] != p { assert Far(ns, j + k + 1, k); }
      assert ns == ns[..k] + [p] + after;
    }
  }

  /** A listed node is taken out of its one place. */
  lemma WithoutThins(ns: seq<nat>, p: nat)
    requires Spaced(ns)
    ensures Without(ns, p) == Thin(ns, {p})
  {
    SpacedOnce(ns, p);
    WithoutOnce(ns, p);
  }

  /** Where the nodes of a shortened list come from. */
  function Source(k: nat, j: nat): nat {
    if j < k then j else j + 1
  }

  lemma RemoveAt(ns: seq<nat>, k: nat, j: nat)
    requires k < |ns| && j < |ns| - 1
    ensures |Remove(ns, k)| == |ns| - 1 && Remove(ns, k)[j] == ns[Source(k, j)] && Source(k, j) != k
  {
  }

  lemma RemoveSpaced(ns: seq<nat>, k: nat)
    requires Spaced(ns) && k < |ns|
    ensures Spaced(Remove(ns, k))
  {
    var r := Remove(ns, k);
    forall i, j | 0 <= i < |r| && 0 <= j < |r| && i != j ensures Far(r, i, j) {
      RemoveAt(ns, k, i);
      RemoveAt(ns, k, j);
      assert Far(ns, Source(k, i), Source(k, j));
    }
  }

  lemma RemoveMembers(ns: seq<nat>, k: nat, p: nat)
    requires Spaced(ns) && k < |ns|
    ensures p in Remove(ns, k) <==> p in ns && p != ns[k]
  {
    if p in ns && p != ns[k] {
      var i :| 0 <= i < |ns| && ns[i] == p;
      assert Remove(ns, k)[if i < k then i else i - 1] == p;
    }
    if p in Remove(ns, k) {
      var j :| 0 <= j < |Remove(ns, k)| && Remove(ns, k)[j] == p;
      RemoveAt(ns, k, j);
      assert Far(ns, Source(k, j), k);
    }
  }

  lemma ListedOnce(ns: seq<nat>, k: nat)
    requires Spaced(ns) && k < |ns|
    ensures ns[k] !in ns[..k]
  {
    forall j | 0 <= j < k ensures ns[..k][j] != ns[k] {
      assert Far(ns, j, k);
    }
  }

  /** The end of the list stays, and is none of the others. */
  lemma RemoveEnd(ns: seq<nat>, k: nat)
    requires Spaced(ns) && k < |ns| - 1
    ensures |Remove(ns, k)| == |ns| - 1 && Remove(ns, k)[|ns| - 2] == ns[|ns| - 1] != ns[k]
  {
    RemoveAt(ns, k, |ns| - 2);
    assert Far(ns, |ns| - 1, k);
  }

  lemma ListedMember(bs: seq<Block>, ns: seq<nat>, out: set<nat>, k: nat, p: nat)
    requires Listed(bs, ns, out) && k < |ns| - 1
    ensures p in Remove(ns, k) <==> p == SENTINEL || (FreeSize(bs, p) > 0 && p !in out + {ns[k]})
  {
    RemoveMembers(ns, k, p);
    RemoveEnd(ns, k);
  }

  lemma ListedMembers(bs: seq<Block>, ns: seq<nat>, rest: seq<nat>, out: set<nat>, out': set<nat>, k: nat)
    requires Listed(bs, ns, out) && k < |ns| - 1 && rest == Remove(ns, k) && out' == out + {ns[k]}
    ensures forall p: nat {:trigger FreeSize(bs, p)} {:trigger p in rest} ::
              p in rest <==> p == SENTINEL || (FreeSize(bs, p) > 0 && p !in out')
  {
    forall p: nat ensures p in rest <==> p == SENTINEL || (FreeSize(bs, p) > 0 && p !in out') {
      ListedMember(bs, ns, out, k, p);
    }
  }

  lemma ListedRemove(bs: seq<Block>, ns: seq<nat>, out: set<nat>, k: nat)
    requires Listed(bs, ns, out) && k < |ns| - 1
    ensures Listed(bs, Remove(ns, k), out + {ns[k]}) && Without(ns, ns[k]) == Remove(ns, k)
  {
    RemoveSpaced(ns, k);
    RemoveEnd(ns, k);
    ListedMembers(bs, ns, Remove(ns, k), out, out + {ns[k]}, k);
    WithoutIsRemove(ns, k);
  }

  lemma WithoutIsRemove(ns: seq<nat>, k: nat)
    requires Spaced(ns) && k < |ns|
    ensures Without(ns, ns[k]) == Remove(ns, k)
  {
    ListedOnce(ns, k);
    WithoutRemoves(ns, k);
  }

  /** The block a node belongs to. */
  function NodeIndex(bs: seq<Block>, p: nat): (i: nat)
    requires bs != [] && (p == SENTINEL || FreeSize(bs, p) > 0)
    ensures i < |bs| && Addr(bs, i) == p && (i == 0 || !bs[i].alloc)
    ensures p != SENTINEL ==> bs[i] == Block(FreeSize(bs, p), false)
  {
    if p == SENTINEL then 0 else FreeIndex(bs, p)
  }

  lemma NodesApart(bs: seq<Block>, p: nat, q: nat)
    requires Framed(bs, FREEBLOCKSIZE) && p != q
    requires p == SENTINEL || FreeSize(bs, p) > 0
    requires q == SENTINEL || FreeSize(bs, q) > 0
    ensures p + FREEBLOCKSIZE <= q || q + FREEBLOCKSIZE <= p
  {
    var i, j := NodeIndex(bs, p), NodeIndex(bs, q);
    if i < j { AddrMonotone(bs, i, j); } else { AddrMonotone(bs, j, i); }
  }

  lemma ListedPush(bs: seq<Block>, ns: seq<nat>, out: set<nat>, p: nat)
    requires Framed(bs, FREEBLOCKSIZE) && Listed(bs, ns, out) && p in out && FreeSize(bs, p) > 0 && p != SENTINEL
    ensures Listed(bs, [p] + ns, out - {p})
  {
    var r := [p] + ns;
    forall i, j | 0 <= i < |r| && 0 <= j < |r| && i != j ensures Far(r, i, j) {
      if i > 0 && j > 0 {
        assert Far(ns, i - 1, j - 1);
      } else {
        var other := ns[if i == 0 then j - 1 else i - 1];
        assert other in ns;
        NodesApart(bs, p, other);
      }
    }
    assert r[|r| - 1] == ns[|ns| - 1];
    forall q: nat ensures q in r <==> q == SENTINEL || (FreeSize(bs, q) > 0 && q !in out - {p}) {
      assert q in r <==> q == p || q in ns;
    }
  }

  /** Replacing blocks lo..hi-1, of whose free blocks none is listed, leaves the list right, the new free
      blocks not being listed. */
  lemma ListedSplice(bs: seq<Block>, lo: nat, hi: nat, mid: seq<Block>, ns: seq<nat>, out: set<nat>, out': set<nat>)
    requires lo <= hi <= |bs| && Sum(mid) == Sum(bs[lo..hi]) && Positive(bs) && Positive(mid) && 0 < lo
    requires Listed(bs, ns, out)
    requires forall p: nat {:trigger p in out} :: p in out <==> Addr(bs, lo) <= p < Addr(bs, hi) && FreeSize(bs, p) > 0
    requires forall p: nat {:trigger p in out'} ::
               p in out' <==> Addr(bs, lo) <= p < Addr(bs, hi) && SizeAt(Flip(mid), Addr(bs, lo), p) > 0
    ensures Listed(Splice(bs, lo, hi, mid), ns, out')
  {
    var cs := Splice(bs, lo, hi, mid);
    AddrMonotone(bs, 0, lo);
    forall p: nat ensures p in ns <==> p == SENTINEL || (FreeSize(cs, p) > 0 && p !in out') {
      FreeSplice(bs, lo, hi, mid, p);
      assert p in out <==> Addr(bs, lo) <= p < Addr(bs, hi) && FreeSize(bs, p) > 0;
      assert p in out' <==> Addr(bs, lo) <= p < Addr(bs, hi) && SizeAt(Flip(mid), Addr(bs, lo), p) > 0;
    }
  }

  lemma ListedAppend(bs: seq<Block>, size: nat, ns: seq<nat>)
    requires Positive(bs) && bs != [] && Listed(bs, ns, {}) && size > 0
    ensures Listed(bs + [Block(size, false)], ns, {8 + Sum(bs)})
  {
    var cs := bs + [Block(size, false)];
    forall p: nat ensures p in ns <==> p == SENTINEL || (FreeSize(cs, p) > 0 && p !in {8 + Sum(bs)}) {
      FreeAppend(bs, Block(size, false), p);
      if FreeSize(bs, p) > 0 { FlipAt(bs); SizeAtBounds(Flip(bs), 8, p); }
    }
  }

  // ---------------------------------------------------------------- the pointers in memory

  /** Node k points at its two neighbours in the list, or NULL. */
  ghost predicate Node(m: seq<byte>, ns: seq<nat>, k: int)
    requires 0 <= k < |ns|
  {
    && ns[k] + SLOTS <= |m|
    && GetLong(m, ns[k]) == (if k + 1 < |ns| then ns[k + 1] else 0)
    && GetLong(m, ns[k] + 8) == (if k > 0 then ns[k - 1] else 0)
  }

  ghost predicate Linked(m: seq<byte>, ns: seq<nat>) {
    forall k {:trigger Node(m, ns, k)} :: 0 <= k < |ns| ==> Node(m, ns, k)
  }

  lemma SameLong(m: seq<byte>, m': seq<byte>, lo: int, hi: int, p: int)
    requires SameOutside(m, m', lo, hi) && 0 <= p <= |m| - 8 && (p + 8 <= lo || hi <= p)
    ensures GetLong(m', p) == GetLong(m, p)
  {
    SameValue(m, m', p, p + 8);
  }

  /** Writes outside the nodes leave the list linked. */
  lemma LinkedOutside(m: seq<byte>, m': seq<byte>, lo: int, hi: int, ns: seq<nat>)
    requires Linked(m, ns) && SameOutside(m, m', lo, hi)
    requires forall p :: p in ns ==> p + SLOTS <= lo || hi <= p
    ensures Linked(m', ns)
  {
    forall k | 0 <= k < |ns| ensures Node(m', ns, k) {
      assert Node(m, ns, k) && ns[k] in ns;
      SameLong(m, m', lo, hi, ns[k]);
      SameLong(m, m', lo, hi, ns[k] + 8);
    }
  }

  /** Writes inside blocks lo..hi-1 touch no listed node, when no free block there is listed. */
  lemma LinkedSplice(m: seq<byte>, m': seq<byte>, bs: seq<Block>, lo: nat, hi: nat, ns: seq<nat>, out: set<nat>)
    requires Framed(bs, FREEBLOCKSIZE) && 0 < lo <= hi <= |bs| && Listed(bs, ns, out) && Linked(m, ns)
    requires forall i :: lo <= i < hi && !bs[i].alloc ==> Addr(bs, i) in out
    requires SameOutside(m, m', Addr(bs, lo) - 4, Addr(bs, hi) - 4)
    ensures Linked(m', ns)
  {
    forall p | p in ns ensures p + SLOTS <= Addr(bs, lo) - 4 || Addr(bs, hi) - 4 <= p {
      var i := NodeIndex(bs, p);
      if i < lo { AddrMonotone(bs, i, lo); }
      if hi < i { AddrMonotone(bs, hi, i); }
    }
    LinkedOutside(m, m', Addr(bs, lo) - 4, Addr(bs, hi) - 4, ns);
  }

  /** A store into a pointer slot of a node. */
  lemma SlotWrite(m: seq<byte>, m': seq<byte>, brk: nat, bs: seq<Block>, p: nat)
    requires Encodes(m, brk, bs) && Framed(bs, FREEBLOCKSIZE) && (p == SENTINEL || FreeSize(bs, p) > 0)
    requires SameOutside(m, m', p, p + SLOTS)
    ensures Encodes(m', brk, bs) && SamePayloads(m, m', Live(bs))
  {
    var i := NodeIndex(bs, p);
    TaggedAt(m, brk, bs, i);
    SameWiden(m, m', p, p + bs[i].size - 8, p, p + SLOTS);
    WriteInside(m, m', brk, bs, i);
    NotLive(bs, i);
    SpliceSamePayloads(m, m', bs, i, i + 1, Live(bs));
  }

  /** The block of a node is not live: it is free, or the prologue. */
  lemma NotLive(bs: seq<Block>, i: nat)
    requires i < |bs| && (i == 0 || !bs[i].alloc)
    ensures forall p :: p in Live(bs) ==> IndexOf(bs, p) != i
  {
  }

  /** m1 and then m2 are m after the node before node k, if there is one, has been pointed at the node after,
      and after the node after has been pointed back. */
  ghost predicate Bypassed(m: seq<byte>, m1: seq<byte>, m2: seq<byte>, ns: seq<nat>, k: nat)
    requires k < |ns| - 1
  {
    && |m1| == |m| == |m2|
    && (if k > 0
        then SameOutside(m, m1, ns[k - 1], ns[k - 1] + 8) && ns[k - 1] + 8 <= |m| && GetLong(m1, ns[k - 1]) == ns[k + 1]
        else m1 == m)
    && SameOutside(m1, m2, ns[k + 1] + 8, ns[k + 1] + 16) && ns[k + 1] + 16 <= |m|
    && GetLong(m2, ns[k + 1] + 8) == if k > 0 then ns[k - 1] else 0
  }

  /** The two stores that take node k out of the list. */
  lemma Unlinked(m: seq<byte>, m1: seq<byte>, m2: seq<byte>, ns: seq<nat>, k: nat)
    requires Linked(m, ns) && Spaced(ns) && k < |ns| - 1
    requires Bypassed(m, m1, m2, ns, k)
    ensures Linked(m2, Remove(ns, k))
  {
    forall j | 0 <= j < |ns| - 1 ensures |Remove(ns, k)| == |ns| - 1 && Node(m2, Remove(ns, k), j) {
      RemoveAt(ns, k, j);
      UnlinkedNode(m, m1, m2, ns, k, Source(k, j));
      if j + 1 < |ns| - 1 { RemoveAt(ns, k, j + 1); }
      if j > 0 { RemoveAt(ns, k, j - 1); }
    }
  }

  lemma UnlinkedNode(m: seq<byte>, m1: seq<byte>, m2: seq<byte>, ns: seq<nat>, k: nat, i: nat)
    requires Linked(m, ns) && Spaced(ns) && k < |ns| - 1 && i < |ns| && i != k
    requires Bypassed(m, m1, m2, ns, k)
    ensures ns[i] + SLOTS <= |m|
    ensures GetLong(m2, ns[i]) == if i + 1 == k then ns[k + 1] else if i + 1 < |ns| then ns[i + 1] else 0
    ensures GetLong(m2, ns[i] + 8)
         == if i == k + 1 then (if k > 0 then ns[k - 1] else 0) else if i > 0 then ns[i - 1] else 0
  {
    assert Node(m, ns, i);
    if i != k + 1 { assert Far(ns, i, k + 1); }
    SameLong(m1, m2, ns[k + 1] + 8, ns[k + 1] + 16, ns[i]);
    if i != k + 1 { SameLong(m1, m2, ns[k + 1] + 8, ns[k + 1] + 16, ns[i] + 8); }
    if k > 0 {
      if i != k - 1 { assert Far(ns, i, k - 1); }
      SameLong(m, m1, ns[k - 1], ns[k - 1] + 8, ns[i] + 8);
      if i != k - 1 { SameLong(m, m1, ns[k - 1], ns[k - 1] + 8, ns[i]); }
    }
  }

  /** The three stores that put p in front of the list. */
  lemma Pushed(m: seq<byte>, m1: seq<byte>, m2: seq<byte>, m3: seq<byte>, ns: seq<nat>, p: nat)
    requires ns != [] && Linked(m, ns) && Spaced([p] + ns) && p + SLOTS <= |m| == |m1| == |m2| == |m3|
    requires ns[0] + SLOTS <= |m|
    requires SameOutside(m, m1, ns[0] + 8, ns[0] + 16) && GetLong(m1, ns[0] + 8) == p
    requires SameOutside(m1, m2, p, p + 8) && GetLong(m2, p) == ns[0]
    requires SameOutside(m2, m3, p + 8, p + 16) && GetLong(m3, p + 8) == 0
    ensures Linked(m3, [p] + ns)
  {
    var r := [p] + ns;
    SameLong(m2, m3, p + 8, p + 16, p);
    forall k | 0 <= k < |r| ensures Node(m3, r, k) {
      if k > 0 {
        PushedNode(m, m1, m2, m3, ns, p, k - 1);
      }
    }
  }

  lemma PushedNode(m: seq<byte>, m1: seq<byte>, m2: seq<byte>, m3: seq<byte>, ns: seq<nat>, p: nat, k: nat)
    requires ns != [] && Linked(m, ns) && Spaced([p] + ns) && p + SLOTS <= |m| == |m1| == |m2| == |m3|
    requires ns[0] + SLOTS <= |m| && k < |ns|
    requires SameOutside(m, m1, ns[0] + 8, ns[0] + 16) && GetLong(m1, ns[0] + 8) == p
    requires SameOutside(m1, m2, p, p + 8) && SameOutside(m2, m3, p + 8, p + 16)
    ensures ns[k] + SLOTS <= |m|
    ensures GetLong(m3, ns[k]) == if k + 1 < |ns| then ns[k + 1] else 0
    ensures GetLong(m3, ns[k] + 8) == if k > 0 then ns[k - 1] else p
  {
    var r := [p] + ns;
    assert Node(m, ns, k);
    assert Far(r, k + 1, 0) && r[k + 1] == ns[k];
    if k > 0 { assert Far(r, k + 1, 1) && r[1] == ns[0]; }
    SameLong(m, m1, ns[0] + 8, ns[0] + 16, ns[k]);
    if k > 0 { SameLong(m, m1, ns[0] + 8, ns[0] + 16, ns[k] + 8); }
    SameLong(m1, m2, p, p + 8, ns[k]);
    SameLong(m1, m2, p, p + 8, ns[k] + 8);
    SameLong(m2, m3, p + 8, p + 16, ns[k]);
    SameLong(m2, m3, p + 8, p + 16, ns[k] + 8);
  }
}
