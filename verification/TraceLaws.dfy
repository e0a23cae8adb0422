/** What is true of every well-formed trace: payload ranges, conservation, complete coalescing, utilisation. */
module TraceLaws {
  import opened Words
  import opened Blocks
  import opened Policy
  import opened Traces
  import opened Sums

  /** range_t, without its link. */
  datatype Range = Range(lo: int, hi: int)

  function RangeOf(h: Held): Range {
    Range(h.addr, h.addr + h.size - 1)
  }

  predicate Overlap(a: Range, b: Range) {
    a.lo <= b.hi && b.lo <= a.hi
  }

  predicate Covers(r: Range, x: int) {
    r.lo <= x <= r.hi
  }

  /** Two ranges overlap exactly when they have an address in common. */
  lemma OverlapMeans(a: Range, b: Range)
    requires a.lo <= a.hi && b.lo <= b.hi
    ensures Overlap(a, b) <==> exists x :: Covers(a, x) && Covers(b, x)
  {
    if Overlap(a, b) {
      var x := if a.lo > b.lo then a.lo else b.lo;
      assert Covers(a, x) && Covers(b, x);
    }
  }

  /** In every reachable state the payload of a live id is 8-aligned, inside the heap, and disjoint from the
      payload of every other id; between them lie at least the two tags. */
  lemma PayloadsApart(s: State, i: nat, j: nat)
    requires Inv(s) && i in s.ids && j in s.ids && i != j
    ensures s.ids[i].addr % 8 == 0 && 32 <= s.ids[i].addr && RangeOf(s.ids[i]).hi < 8 + Sum(s.bs) - 8
    ensures !Overlap(RangeOf(s.ids[i]), RangeOf(s.ids[j]))
    ensures s.ids[i].addr + s.ids[i].size + 8 <= s.ids[j].addr || s.ids[j].addr + s.ids[j].size + 8 <= s.ids[i].addr
  {
    PayloadInside(s, i);
    assert Holds(Live(s.bs), s.ids[i]) && Holds(Live(s.bs), s.ids[j]) && Unshared(s.ids, i, j);
    var p, q := s.ids[i].addr, s.ids[j].addr;
    if p < q { LiveDisjoint(s.bs, p, q); } else if q < p { LiveDisjoint(s.bs, q, p); }
  }

  lemma PayloadInside(s: State, i: nat)
    requires Inv(s) && i in s.ids
    ensures s.ids[i].addr % 8 == 0 && 32 <= s.ids[i].addr && RangeOf(s.ids[i]).hi < 8 + Sum(s.bs) - 8
  {
    assert Holds(Live(s.bs), s.ids[i]);
    var p := s.ids[i].addr;
    LiveSized(s.bs, MINBLOCK, p);
    LiveEnd(s.bs, p);
    var k := IndexOf(s.bs, p);
    assert k != 0;
    AddrMonotone(s.bs, 0, k);
  }

  // ---------------------------------------------------------------- freeing everything

  /** Whatever a trace did, once it holds nothing the heap is the prologue and one free block of all the
      bytes between prologue and epilogue. */
  lemma NothingHeld(s: State)
    requires Inv(s) && s.ids == map[] && Sum(s.bs) > 24
    ensures s.bs == [PROLOGUE, Block(Sum(s.bs) - 24, false)]
  {
    forall p: nat ensures p !in Live(s.bs) {
      assert p in Live(s.bs) ==> HasOwner(s.ids, p);
    }
    assert Live(s.bs) == map[];
    NothingLive(s.bs, MINBLOCK);
  }

  lemma BalancedTrace(cap: nat, ops: seq<Op>)
    requires WellFormedTrace(ops, {}) && RunTrace(cap, ops).Done? && RunTrace(cap, ops).s.ids == map[]
    ensures var bs := RunTrace(cap, ops).s.bs;
            bs == [PROLOGUE, Block(Sum(bs) - 24, false)] && CHUNKSIZE <= bs[1].size
  {
    NothingHeld(RunTrace(cap, ops).s);
  }

  // ---------------------------------------------------------------- the coalescing trace

  /** One iteration of gen_coalescing.pl, with ids k, k+1 and k+2, and then the rest of the trace. */
  function CoalescingOps(k: nat, size: nat, rest: seq<Op>): seq<Op> {
    [Alloc(k, size)] + ([Alloc(k + 1, size)] + ([Release(k)] + ([Release(k + 1)]
      + ([Alloc(k + 2, 2 * size)] + ([Release(k + 2)] + rest)))))
  }

  function CoalescingTrace(k: nat, n: nat, size: nat): seq<Op>
    decreases n
  {
    if n == 0 then [] else CoalescingOps(k, size, CoalescingTrace(k + 3, n - 1, size))
  }

  /** The trace of the generator, request by request. */
  lemma {:induction false} CoalescingTraceIs(k: nat, n: nat, size: nat, j: nat)
    requires j < n
    ensures |CoalescingTrace(k, n, size)| == 6 * n
    ensures var t, i, x := CoalescingTrace(k, n, size), 6 * j, k + 3 * j;
            && t[i] == Alloc(x, size) && t[i + 1] == Alloc(x + 1, size)
            && t[i + 2] == Release(x) && t[i + 3] == Release(x + 1)
            && t[i + 4] == Alloc(x + 2, 2 * size) && t[i + 5] == Release(x + 2)
    decreases n
  {
    CoalescingLength(k, n, size);
    FirstIteration(k, n, size);
    if j > 0 {
      CoalescingTraceIs(k + 3, n - 1, size, j - 1);
    }
  }

  lemma FirstIteration(k: nat, n: nat, size: nat)
    requires n > 0
    ensures var t, rest := CoalescingTrace(k, n, size), CoalescingTrace(k + 3, n - 1, size);
            && |t| == 6 + |rest| && t[0] == Alloc(k, size) && t[1] == Alloc(k + 1, size)
            && t[2] == Release(k) && t[3] == Release(k + 1)
            && t[4] == Alloc(k + 2, 2 * size) && t[5] == Release(k + 2)
            && forall i :: 6 <= i < 6 + |rest| ==> t[i] == rest[i - 6]
  {
    SixOps(k, size, CoalescingTrace(k + 3, n - 1, size));
  }

  lemma SixOps(k: nat, size: nat, rest: seq<Op>)
    ensures var t := CoalescingOps(k, size, rest);
            && |t| == 6 + |rest| && t[0] == Alloc(k, size) && t[1] == Alloc(k + 1, size)
            && t[2] == Release(k) && t[3] == Release(k + 1)
            && t[4] == Alloc(k + 2, 2 * size) && t[5] == Release(k + 2)
            && forall i :: 6 <= i < 6 + |rest| ==> t[i] == rest[i - 6]
  {
  }

  lemma {:induction false} CoalescingLength(k: nat, n: nat, size: nat)
    ensures |CoalescingTrace(k, n, size)| == 6 * n
    decreases n
  {
    if n > 0 {
      CoalescingLength(k + 3, n - 1, size);
    }
  }

  lemma RunOne(s: State, cap: nat, op: Op, rest: seq<Op>, opnum: nat)
    requires Inv(s) && Allowed(op, s.ids.Keys) && Step(s, cap, op, opnum).Done?
    requires WellFormedTrace(rest, LiveAfter(op, s.ids.Keys))
    ensures var t := Step(s, cap, op, opnum).s;
            && Inv(t) && t.ids.Keys == LiveAfter(op, s.ids.Keys) && WellFormedTrace([op] + rest, s.ids.Keys)
            && Run(s, cap, [op] + rest, opnum) == Run(t, cap, rest, opnum + 1)
  {
    StepInv(s, cap, op, opnum);
    assert ([op] + rest)[1..] == rest;
  }

  /** A request that some free block fits is served without growing the heap. */
  lemma ServedInPlace(bs: seq<Block>, cap: nat, size: uint64, j: nat)
    requires WellFormed(bs, MINBLOCK) && 0 < size <= MAX_REQUEST && j < |bs| && Fits(bs[j], AdjustedSize(size))
    ensures Malloc(bs, cap, size).Granted? && Sum(Malloc(bs, cap, size).bs) == Sum(bs)
    ensures var i := FirstFit(bs, AdjustedSize(size));
            && i <= j && MINBLOCK <= AdjustedSize(size) <= bs[i].size
            && Malloc(bs, cap, size) == Granted(Place(bs, i, AdjustedSize(size), MINBLOCK), i)
  {
    AdjustedSizeCovers(size);
    PlaceWellFormed(bs, FirstFit(bs, AdjustedSize(size)), AdjustedSize(size), MINBLOCK);
  }

  /** The initial heap serves two requests of half its size at most. */
  lemma TwoFit(cap: nat, size: uint64)
    requires size > 0 && 2 * AdjustedSize(size) <= CHUNKSIZE && size <= CHUNKSIZE
    ensures WellFormed(INITIAL, MINBLOCK) && Malloc(INITIAL, cap, size).Granted?
    ensures var bs := Malloc(INITIAL, cap, size).bs;
            && WellFormed(bs, MINBLOCK) && Sum(bs) == Sum(INITIAL)
            && Malloc(bs, cap, size).Granted? && Sum(Malloc(bs, cap, size).bs) == Sum(INITIAL)
  {
    InitialLaw(cap);
    AdjustedSizeCovers(size);
    ServedInPlace(INITIAL, cap, size, 1);
    MallocLaw(INITIAL, cap, size);
    assert FirstFit(INITIAL, AdjustedSize(size)) == 1;
    var bs := Malloc(INITIAL, cap, size).bs;
    SpliceIndex(INITIAL, 1, 2, Split(CHUNKSIZE, AdjustedSize(size), MINBLOCK));
    assert bs[2] == Block(CHUNKSIZE - AdjustedSize(size), false);
    ServedInPlace(bs, cap, size, 2);
  }

  /** Allocating twice and freeing both, in order, leaves the initial heap as it was. */
  lemma AllocTwoFreeTwo(cap: nat, k: nat, size: nat, rest: seq<Op>, opnum: nat)
    requires 0 < size && 2 * size <= CHUNKSIZE && 2 * AdjustedSize(size) <= CHUNKSIZE
    requires WellFormedTrace(rest, {})
    ensures var ops := [Alloc(k, size)] + ([Alloc(k + 1, size)] + ([Release(k)] + ([Release(k + 1)] + rest)));
            && Inv(START) && START.ids.Keys == {} && WellFormedTrace(ops, {})
            && Run(START, cap, ops, opnum) == Run(START, cap, rest, opnum + 4)
  {
    var s1, s2 := TwoAllocated(cap, k, size, opnum);
    var frees := [Release(k)] + ([Release(k + 1)] + rest);
    FreeTwo(s2, cap, k, rest, opnum + 2);
    assert LiveAfter(Alloc(k + 1, size), s1.ids.Keys) == s2.ids.Keys;
    assert LiveAfter(Alloc(k, size), START.ids.Keys) == s1.ids.Keys;
    RunOne(s1, cap, Alloc(k + 1, size), frees, opnum + 1);
    RunOne(START, cap, Alloc(k, size), [Alloc(k + 1, size)] + frees, opnum);
  }

  lemma FreeTwo(s: State, cap: nat, k: nat, rest: seq<Op>, opnum: nat)
    requires Inv(s) && s.ids.Keys == {k, k + 1} && Sum(s.bs) == Sum(INITIAL) && WellFormedTrace(rest, {})
    ensures Inv(START) && START.ids.Keys == {}
    ensures WellFormedTrace([Release(k)] + ([Release(k + 1)] + rest), s.ids.Keys)
    ensures Run(s, cap, [Release(k)] + ([Release(k + 1)] + rest), opnum) == Run(START, cap, rest, opnum + 2)
  {
    StartInv();
    var s3 := Step(s, cap, Release(k), opnum).s;
    ReleaseStep(s, cap, k, opnum);
    ReleaseStep(s3, cap, k + 1, opnum + 1);
    assert {k, k + 1} - {k} == {k + 1} && {k + 1} - {k + 1} == {};
    BackToStart(Step(s3, cap, Release(k + 1), opnum + 1).s);
    RunOne(s3, cap, Release(k + 1), rest, opnum + 1);
    RunOne(s, cap, Release(k), [Release(k + 1)] + rest, opnum);
  }

  /** The first two requests of an iteration are served without growing the heap. */
  lemma TwoAllocated(cap: nat, k: nat, size: nat, opnum: nat) returns (s1: State, s2: State)
    requires 0 < size && 2 * size <= CHUNKSIZE && 2 * AdjustedSize(size) <= CHUNKSIZE
    ensures Inv(START) && START.ids.Keys == {}
    ensures Step(START, cap, Alloc(k, size), opnum) == Done(s1) && Inv(s1) && s1.ids.Keys == {k}
    ensures Step(s1, cap, Alloc(k + 1, size), opnum + 1) == Done(s2) && Inv(s2) && s2.ids.Keys == {k, k + 1}
    ensures Sum(s2.bs) == Sum(INITIAL)
  {
    StartInv();
    TwoFit(cap, size);
    s1 := Step(START, cap, Alloc(k, size), opnum).s;
    StepInv(START, cap, Alloc(k, size), opnum);
    s2 := Step(s1, cap, Alloc(k + 1, size), opnum + 1).s;
    StepInv(s1, cap, Alloc(k + 1, size), opnum + 1);
  }

  lemma ReleaseStep(s: State, cap: nat, i: nat, opnum: nat)
    requires Inv(s) && i in s.ids
    ensures var r := Step(s, cap, Release(i), opnum);
            r.Done? && Inv(r.s) && r.s.ids.Keys == s.ids.Keys - {i} && Sum(r.s.bs) == Sum(s.bs)
  {
    StepInv(s, cap, Release(i), opnum);
    OwnedRemove(Live(s.bs), s.ids, i);
    FreeLaw(s.bs, s.ids[i].addr, MINBLOCK);
  }

  /** So does allocating and freeing a block that fits it. */
  lemma AllocFree(cap: nat, k: nat, size: nat, rest: seq<Op>, opnum: nat)
    requires 0 < size <= CHUNKSIZE && AdjustedSize(size) <= CHUNKSIZE && WellFormedTrace(rest, {})
    ensures var ops := [Alloc(k, size)] + ([Release(k)] + rest);
            && Inv(START) && START.ids.Keys == {} && WellFormedTrace(ops, {})
            && Run(START, cap, ops, opnum) == Run(START, cap, rest, opnum + 2)
  {
    StartInv();
    ServedInPlace(INITIAL, cap, size, 1);
    var s1 := Step(START, cap, Alloc(k, size), opnum).s;
    StepInv(START, cap, Alloc(k, size), opnum);
    ReleaseStep(s1, cap, k, opnum + 1);
    assert {k} - {k} == {};
    BackToStart(Step(s1, cap, Release(k), opnum + 1).s);
    RunOne(s1, cap, Release(k), rest, opnum + 1);
    RunOne(START, cap, Alloc(k, size), [Release(k)] + rest, opnum);
  }

  /** One iteration of the coalescing pattern leaves the initial heap exactly as it was. */
  lemma OneIteration(cap: nat, k: nat, size: nat, rest: seq<Op>, opnum: nat)
    requires 0 < size && 2 * size <= CHUNKSIZE && 2 * AdjustedSize(size) <= CHUNKSIZE
    requires WellFormedTrace(rest, {})
    ensures Inv(START) && START.ids.Keys == {} && WellFormedTrace(CoalescingOps(k, size, rest), {})
    ensures Run(START, cap, CoalescingOps(k, size, rest), opnum) == Run(START, cap, rest, opnum + 6)
  {
    AdjustedSizeCovers(size);
    AdjustedSizeCovers(2 * size);
    AllocFree(cap, k + 2, 2 * size, rest, opnum + 4);
    AllocTwoFreeTwo(cap, k, size, [Alloc(k + 2, 2 * size)] + ([Release(k + 2)] + rest), opnum);
  }

  lemma BackToStart(s: State)
    requires Inv(s) && s.ids.Keys == {} && Sum(s.bs) == Sum(INITIAL)
    ensures s == START
  {
    InitialLaw(0);
    assert s.ids == map[];
    NothingHeld(s);
  }

  lemma RunNone(cap: nat, opnum: nat)
    ensures Inv(START) && START.ids.Keys == {} && WellFormedTrace([], {}) && Run(START, cap, [], opnum) == Done(START)
  {
    StartInv();
  }

  /** Allocate two, free two, allocate double, free: the initial heap never grows, for any number of
      iterations and any arena that mm_init accepts. */
  lemma {:induction false} CoalescingNeverGrows(cap: nat, k: nat, n: nat, size: nat, opnum: nat)
    requires 0 < size && 2 * size <= CHUNKSIZE && 2 * AdjustedSize(size) <= CHUNKSIZE
    ensures Inv(START) && START.ids.Keys == {} && WellFormedTrace(CoalescingTrace(k, n, size), {})
    ensures Run(START, cap, CoalescingTrace(k, n, size), opnum) == Done(START)
    decreases n
  {
    if n == 0 {
      RunNone(cap, opnum);
    } else {
      CoalescingNeverGrows(cap, k + 3, n - 1, size, opnum + 6);
      OneIteration(cap, k, size, CoalescingTrace(k + 3, n - 1, size), opnum);
    }
  }

  /** The generated trace: blocks of 4095 bytes, 2400 iterations. */
  lemma CoalescingRep(cap: nat)
    requires INIT_BYTES + CHUNKSIZE <= cap
    ensures WellFormedTrace(CoalescingTrace(0, 2400, 4095), {})
    ensures RunTrace(cap, CoalescingTrace(0, 2400, 4095)) == Done(START)
  {
    CoalescingNeverGrows(cap, 0, 2400, 4095, 0);
  }

  // ---------------------------------------------------------------- utilisation

  /** Bytes asked for, by id. */
  function Sizes(ids: map<nat, Held>): map<nat, nat> {
    map i | i in ids :: ids[i].size
  }

  /** Block sizes of the allocated blocks of bs laid out from a on. */
  function LiveFrom(bs: seq<Block>, a: nat): map<nat, nat> {
    map p: nat | p < a + Sum(bs) && SizeAt(bs, a, p) > 0 :: SizeAt(bs, a, p)
  }

  lemma {:induction false} LiveSum(bs: seq<Block>, a: nat)
    requires Positive(bs)
    ensures SumMap(LiveFrom(bs, a)) <= Sum(bs)
  {
    if bs == [] {
      assert LiveFrom(bs, a) == map[];
    } else {
      assert forall i :: 0 <= i < |bs[1..]| ==> bs[1..][i] == bs[i + 1];
      var a', rest := a + bs[0].size, bs[1..];
      LiveSum(rest, a');
      if SizeAt(rest, a', a) > 0 { SizeAtBounds(rest, a', a); }
      forall p: nat ensures p in LiveFrom(bs, a) <==> p in LiveFrom(rest, a') || (p == a && bs[0].alloc) {
        if SizeAt(bs, a, p) > 0 { SizeAtBounds(bs, a, p); }
      }
      if bs[0].alloc {
        assert LiveFrom(bs, a) == LiveFrom(rest, a')[a := bs[0].size];
        SumMapPut(LiveFrom(rest, a'), a, bs[0].size);
      } else {
        assert LiveFrom(bs, a) == LiveFrom(rest, a');
      }
    }
  }

  /** The user blocks always make up the heap less 32 bytes of pad, prologue and epilogue, and the bytes a
      program holds never exceed them. */
  lemma HeldFits(s: State)
    requires Inv(s)
    ensures Sum(s.bs[1..]) == (8 + Sum(s.bs)) - 32
    ensures SumMap(Sizes(s.ids)) <= Sum(s.bs[1..])
  {
    var rest := s.bs[1..];
    assert forall i :: 0 <= i < |rest| ==> rest[i] == s.bs[i + 1];
    LiveSum(rest, 32);
    var f := map i | i in s.ids :: s.ids[i].addr;
    forall i | i in s.ids ensures f[i] in LiveFrom(rest, 32) && s.ids[i].size <= LiveFrom(rest, 32)[f[i]] {
      assert Holds(Live(s.bs), s.ids[i]);
    }
    forall i, j | i in s.ids && j in s.ids && f[i] == f[j] ensures i == j {
      assert Unshared(s.ids, i, j);
    }
    SumMapInto(Sizes(s.ids), LiveFrom(rest, 32), f);
  }

  /** Live request sizes after one more request. */
  function SizesAfter(op: Op, sizes: map<nat, nat>): map<nat, nat> {
    match op
    case Alloc(i, n) => sizes[i := n]
    case Realloc(i, n) => sizes[i := n]
    case Release(i) => sizes - {i}
  }

  /** Live request sizes after a trace. */
  function LiveSizes(ops: seq<Op>): map<nat, nat> {
    if ops == [] then map[] else SizesAfter(ops[|ops| - 1], LiveSizes(ops[..|ops| - 1]))
  }

  /** Request k is the last that names id i, and asks for n bytes. */
  ghost predicate LastNaming(ops: seq<Op>, i: nat, n: nat, k: int) {
    0 <= k < |ops| && (ops[k] == Alloc(i, n) || ops[k] == Realloc(i, n))
    && forall j :: k < j < |ops| ==> ops[j].index != i
  }

  /** An id is live with size n exactly when the last request that names it allocates or reallocates n bytes. */
  lemma {:induction false} LiveSizesMeans(ops: seq<Op>, i: nat, n: nat)
    ensures i in LiveSizes(ops) && LiveSizes(ops)[i] == n <==> exists k :: LastNaming(ops, i, n, k)
  {
    if ops != [] {
      var m := |ops| - 1;
      var front := ops[..m];
      LiveSizesMeans(front, i, n);
      if ops[m].index == i {
        assert ops[m] == Alloc(i, n) || ops[m] == Realloc(i, n) ==> LastNaming(ops, i, n, m);
      } else {
        if k :| LastNaming(front, i, n, k) { assert LastNaming(ops, i, n, k); }
        if k :| LastNaming(ops, i, n, k) { assert LastNaming(front, i, n, k); }
      }
    }
  }

  lemma LiveSizesNext(ops: seq<Op>, k: nat)
    requires k < |ops|
    ensures LiveSizes(ops[..k + 1]) == SizesAfter(ops[k], LiveSizes(ops[..k]))
  {
    assert ops[..k + 1][..k] == ops[..k];
  }

  // ---------------------------------------------------------------- the high-water mark

  /** Live request bytes after the first j requests. */
  ghost function BytesAfter(ops: seq<Op>, j: nat): nat
    requires j <= |ops|
  {
    SumMap(LiveSizes(ops[..j]))
  }

  /** high is the largest of 65536 and the live request bytes after each of the first k requests. */
  ghost predicate HighWater(ops: seq<Op>, k: nat, high: int)
    requires k <= |ops|
  {
    && 0x1_0000 <= high && (forall j :: 0 <= j <= k ==> BytesAfter(ops, j) <= high)
    && (high == 0x1_0000 || exists j :: 0 <= j <= k && high == BytesAfter(ops, j))
  }

  lemma HighWaterStart(ops: seq<Op>)
    ensures HighWater(ops, 0, 0x1_0000)
  {
    assert ops[..0] == [];
  }

  lemma HighWaterNow(ops: seq<Op>, k: nat, high: int)
    requires k <= |ops| && HighWater(ops, k, high)
    ensures SumMap(LiveSizes(ops[..k])) <= high
  {
    assert BytesAfter(ops, k) <= high;
  }

  lemma HighWaterNext(ops: seq<Op>, k: nat, high: int, total: int)
    requires k < |ops| && HighWater(ops, k, high) && total == BytesAfter(ops, k + 1)
    requires ops[k].Release? ==> total <= high
    ensures HighWater(ops, k + 1, if !ops[k].Release? && total > high then total else high)
  {
  }

  lemma HighWaterMeans(ops: seq<Op>, high: int)
    requires HighWater(ops, |ops|, high)
    ensures 0x1_0000 <= high && forall j :: 0 <= j <= |ops| ==> SumMap(LiveSizes(ops[..j])) <= high
    ensures high == 0x1_0000 || exists j :: 0 <= j <= |ops| && high == SumMap(LiveSizes(ops[..j]))
  {
    forall j | 0 <= j <= |ops| ensures SumMap(LiveSizes(ops[..j])) <= high {
      assert BytesAfter(ops, j) <= high;
    }
    if high != 0x1_0000 {
      var j :| 0 <= j <= |ops| && high == BytesAfter(ops, j);
      assert high == SumMap(LiveSizes(ops[..j]));
    }
  }

  // ---------------------------------------------------------------- where a run stops

  lemma {:induction false} PrefixWellFormed(ops: seq<Op>, k: nat, live: set<nat>)
    requires k <= |ops| && WellFormedTrace(ops, live)
    ensures WellFormedTrace(ops[..k], live)
    decreases ops
  {
    if k > 0 {
      PrefixWellFormed(ops[1..], k - 1, LiveAfter(ops[0], live));
      assert ops[..k][1..] == ops[1..][..k - 1];
    }
  }

  /** The first k requests are served, and mm_malloc then returns NULL on request k. */
  ghost predicate RunStopsAt(s: State, cap: nat, ops: seq<Op>, opnum: nat, k: nat)
    requires Inv(s) && WellFormedTrace(ops, s.ids.Keys)
  {
    && k < |ops| && !ops[k].Release? && WellFormedTrace(ops[..k], s.ids.Keys)
    && var r := Run(s, cap, ops[..k], opnum);
       r.Done? && ops[k].size <= INT_MAX && Malloc(r.s.bs, cap, ops[k].size).Denied?
  }

  /** r is how the run of ops from s fails, if it does. */
  ghost predicate FailsAs(s: State, cap: nat, ops: seq<Op>, opnum: nat, r: Outcome)
    requires Inv(s) && WellFormedTrace(ops, s.ids.Keys)
  {
    match r
    case Done(_) => true
    case InitFailed => false
    case MallocFailed(m) => opnum <= m && RunStopsAt(s, cap, ops, opnum, m - opnum) && ops[m - opnum].Alloc?
    case ReallocExited(m) => opnum <= m && RunStopsAt(s, cap, ops, opnum, m - opnum) && ops[m - opnum].Realloc?
  }

  lemma FailsNow(s: State, cap: nat, ops: seq<Op>, opnum: nat)
    requires Inv(s) && WellFormedTrace(ops, s.ids.Keys) && ops != []
    ensures FailsAs(s, cap, ops, opnum, Step(s, cap, ops[0], opnum))
  {
    assert ops[..0] == [];
  }

  lemma FailsLater(s: State, cap: nat, ops: seq<Op>, opnum: nat, t: State, r: Outcome)
    requires Inv(s) && ops != [] && WellFormedTrace(ops, s.ids.Keys) && Step(s, cap, ops[0], opnum) == Done(t)
    requires Inv(t) && t.ids.Keys == LiveAfter(ops[0], s.ids.Keys) && FailsAs(t, cap, ops[1..], opnum + 1, r)
    ensures FailsAs(s, cap, ops, opnum, r)
  {
    if !r.Done? { StopsLater(s, cap, ops, opnum, r.opnum - opnum - 1); }
  }

  lemma {:induction false} RunFails(s: State, cap: nat, ops: seq<Op>, opnum: nat)
    requires Inv(s) && WellFormedTrace(ops, s.ids.Keys)
    ensures FailsAs(s, cap, ops, opnum, Run(s, cap, ops, opnum))
    decreases ops
  {
    if ops != [] {
      var t := Step(s, cap, ops[0], opnum);
      StepInv(s, cap, ops[0], opnum);
      if t.Done? {
        RunFails(t.s, cap, ops[1..], opnum + 1);
        FailsLater(s, cap, ops, opnum, t.s, Run(t.s, cap, ops[1..], opnum + 1));
      } else {
        FailsNow(s, cap, ops, opnum);
      }
    }
  }

  lemma StopsLater(s: State, cap: nat, ops: seq<Op>, opnum: nat, k: nat)
    requires Inv(s) && ops != [] && WellFormedTrace(ops, s.ids.Keys) && Step(s, cap, ops[0], opnum).Done?
    requires var t := Step(s, cap, ops[0], opnum).s;
             Inv(t) && t.ids.Keys == LiveAfter(ops[0], s.ids.Keys) && RunStopsAt(t, cap, ops[1..], opnum + 1, k)
    ensures RunStopsAt(s, cap, ops, opnum, k + 1)
  {
    PrefixWellFormed(ops, k + 1, s.ids.Keys);
    assert ops[..k + 1][1..] == ops[1..][..k];
    assert ops[..k + 1][0] == ops[0];
  }

  /** The trace is served up to request k, on which mm_malloc returns NULL. */
  ghost predicate StopsAt(cap: nat, ops: seq<Op>, k: nat)
    requires WellFormedTrace(ops, {})
  {
    && k < |ops| && !ops[k].Release? && WellFormedTrace(ops[..k], {})
    && var r := RunTrace(cap, ops[..k]);
       r.Done? && ops[k].size <= INT_MAX && Malloc(r.s.bs, cap, ops[k].size).Denied?
  }

  /** How a trace fails: mm_init, or at the request that mm_malloc, called for itself or by mm_realloc, refuses. */
  lemma {:induction false} FailureMeans(cap: nat, ops: seq<Op>)
    requires WellFormedTrace(ops, {})
    ensures match RunTrace(cap, ops)
            case Done(_) => true
            case InitFailed => cap < 32 + 0x1_0000
            case MallocFailed(k) => StopsAt(cap, ops, k) && ops[k].Alloc?
            case ReallocExited(k) => StopsAt(cap, ops, k) && ops[k].Realloc?
    ensures RunTrace(cap, ops).InitFailed? <==> cap < 32 + 0x1_0000
  {
    StartInv();
    assert START.ids.Keys == {};
    if cap >= INIT_BYTES + CHUNKSIZE {
      RunFails(START, cap, ops, 0);
      var r := RunTrace(cap, ops);
      if !r.Done? { FromStart(cap, ops, r.opnum); }
    }
  }

  lemma FromStart(cap: nat, ops: seq<Op>, k: nat)
    requires Inv(START) && START.ids.Keys == {} && WellFormedTrace(ops, {}) && cap >= INIT_BYTES + CHUNKSIZE
    requires RunStopsAt(START, cap, ops, 0, k)
    ensures StopsAt(cap, ops, k)
  {
  }
}
