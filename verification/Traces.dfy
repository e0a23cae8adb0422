/** Whole runs of the allocator: the traces of mdriver.c as sequences of requests, carried out on block
    lists, and what holds of every state of every well-formed trace. */
module Traces {
  import opened Blocks
  import opened Policy

  /** traceop_t */
  datatype Op = Alloc(index: nat, size: nat) | Realloc(index: nat, size: nat) | Release(index: nat)

  const INT_MAX: nat := 0x7FFF_FFFF

  /** A payload handed to the program under some id: its address and the size that was asked for. */
  datatype Held = Held(addr: nat, size: nat)

  datatype State = State(bs: seq<Block>, ids: map<nat, Held>)

  /** How a run ends; opnum is the request that could not be served. */
  datatype Outcome = Done(s: State) | InitFailed | MallocFailed(opnum: nat) | ReallocExited(opnum: nat)

  predicate Allowed(op: Op, live: set<nat>) {
    match op
    case Alloc(i, n) => i !in live && 0 < n <= INT_MAX
    case Realloc(i, n) => i in live && 0 < n <= INT_MAX
    case Release(i) => i in live
  }

  function LiveAfter(op: Op, live: set<nat>): set<nat> {
    match op
    case Alloc(i, _) => live + {i}
    case Realloc(_, _) => live
    case Release(i) => live - {i}
  }

  /** Sizes positive, and only live ids freed or reallocated. */
  predicate WellFormedTrace(ops: seq<Op>, live: set<nat>) {
    ops == [] || (Allowed(ops[0], live) && WellFormedTrace(ops[1..], LiveAfter(ops[0], live)))
  }

  // ---------------------------------------------------------------- states

  ghost predicate Holds(live: map<nat, nat>, h: Held) {
    && h.addr in live && 0 < h.size <= INT_MAX
    && h.size + OVERHEAD <= live[h.addr] <= h.size + 23
  }

  ghost predicate HasOwner(ids: map<nat, Held>, p: nat) {
    exists i :: i in ids && ids[i].addr == p
  }

  ghost predicate Unshared(ids: map<nat, Held>, i: nat, j: nat)
    requires i in ids && j in ids
  {
    ids[i].addr == ids[j].addr ==> i == j
  }

  /** The ids hold exactly the live blocks, one each, and each block is big enough but not much bigger. */
  ghost predicate Owned(live: map<nat, nat>, ids: map<nat, Held>) {
    && (forall i {:trigger Holds(live, ids[i])} :: i in ids ==> Holds(live, ids[i]))
    && (forall i, j {:trigger Unshared(ids, i, j)} :: i in ids && j in ids ==> Unshared(ids, i, j))
    && (forall p {:trigger HasOwner(ids, p)} :: p in live ==> HasOwner(ids, p))
  }

  ghost predicate Inv(s: State) {
    WellFormed(s.bs, MINBLOCK) && Owned(Live(s.bs), s.ids)
  }

  lemma OwnedAdd(live: map<nat, nat>, ids: map<nat, Held>, i: nat, h: Held, v: nat)
    requires Owned(live, ids) && i !in ids && h.addr !in live && Holds(map[h.addr := v], h)
    ensures Owned(live[h.addr := v], ids[i := h])
  {
    var live', ids' := live[h.addr := v], ids[i := h];
    forall j | j in ids' ensures Holds(live', ids'[j]) {
      assert j != i ==> Holds(live, ids[j]);
    }
    forall j, k | j in ids' && k in ids' ensures Unshared(ids', j, k) {
      assert j != i ==> Holds(live, ids[j]);
      assert k != i ==> Holds(live, ids[k]);
      assert j != i && k != i ==> Unshared(ids, j, k);
    }
    forall p | p in live' ensures HasOwner(ids', p) {
      if p == h.addr {
        assert ids'[i].addr == p;
      } else {
        assert HasOwner(ids, p);
        var j :| j in ids && ids[j].addr == p;
        assert ids'[j].addr == p;
      }
    }
  }

  lemma OwnedRemove(live: map<nat, nat>, ids: map<nat, Held>, i: nat)
    requires Owned(live, ids) && i in ids
    ensures ids[i].addr in live && Owned(live - {ids[i].addr}, ids - {i})
  {
    assert Holds(live, ids[i]);
    var p0 := ids[i].addr;
    var live', ids' := live - {p0}, ids - {i};
    forall j | j in ids' ensures Holds(live', ids'[j]) {
      assert Holds(live, ids[j]) && Unshared(ids, j, i);
    }
    forall j, k | j in ids' && k in ids' ensures Unshared(ids', j, k) {
      assert Unshared(ids, j, k);
    }
    forall p | p in live' ensures HasOwner(ids', p) {
      assert HasOwner(ids, p);
      var j :| j in ids && ids[j].addr == p;
      assert j in ids' && ids'[j].addr == p;
    }
  }

  const START := State(INITIAL, map[])

  lemma StartInv()
    ensures Inv(START)
  {
    InitialLaw(0);
  }

  /** The state after a request has been served, or how it fails. */
  ghost function Step(s: State, cap: nat, op: Op, opnum: nat): Outcome
    requires Inv(s) && Allowed(op, s.ids.Keys)
  {
    match op
    case Alloc(i, n) =>
      (match Malloc(s.bs, cap, n)
       case Denied => MallocFailed(opnum)
       case Granted(cs, k) => Done(State(cs, s.ids[i := Held(Addr(cs, k), n)])))
    case Realloc(i, n) =>
      OwnedRemove(Live(s.bs), s.ids, i);
      (match Malloc(s.bs, cap, n)
       case Denied => ReallocExited(opnum)
       case Granted(cs, k) =>
         AdjustedSizeCovers(n);
         ReallocLaw(s.bs, cap, n, s.ids[i].addr);
         Done(State(Free(cs, s.ids[i].addr), s.ids[i := Held(Addr(cs, k), n)])))
    case Release(i) =>
      OwnedRemove(Live(s.bs), s.ids, i);
      Done(State(Free(s.bs, s.ids[i].addr), s.ids - {i}))
  }

  lemma AllocInv(s: State, cap: nat, i: nat, n: nat)
    requires Inv(s) && Allowed(Alloc(i, n), s.ids.Keys) && Malloc(s.bs, cap, n).Granted?
    ensures var g := Malloc(s.bs, cap, n);
            && g.i <= |g.bs| && Inv(State(g.bs, s.ids[i := Held(Addr(g.bs, g.i), n)]))
            && Sum(s.bs) <= Sum(g.bs) && (8 + Sum(s.bs) <= cap ==> 8 + Sum(g.bs) <= cap)
  {
    MallocLaw(s.bs, cap, n);
    var g := Malloc(s.bs, cap, n);
    OwnedAdd(Live(s.bs), s.ids, i, Held(Addr(g.bs, g.i), n), g.bs[g.i].size);
  }

  lemma ReallocInv(s: State, cap: nat, i: nat, n: nat)
    requires Inv(s) && Allowed(Realloc(i, n), s.ids.Keys) && Malloc(s.bs, cap, n).Granted?
    ensures var g := Malloc(s.bs, cap, n);
            && s.ids[i].addr in Live(g.bs) && g.i <= |g.bs|
            && Inv(State(Free(g.bs, s.ids[i].addr), s.ids[i := Held(Addr(g.bs, g.i), n)]))
            && Sum(s.bs) <= Sum(Free(g.bs, s.ids[i].addr)) == Sum(g.bs)
            && (8 + Sum(s.bs) <= cap ==> 8 + Sum(g.bs) <= cap)
  {
    MallocLaw(s.bs, cap, n);
    OwnedRemove(Live(s.bs), s.ids, i);
    AdjustedSizeCovers(n);
    ReallocLaw(s.bs, cap, n, s.ids[i].addr);
    var g := Malloc(s.bs, cap, n);
    Exchange(Live(s.bs), s.ids, i, Held(Addr(g.bs, g.i), n), Live(g.bs)[Addr(g.bs, g.i)]);
  }

  /** The id of a block moves to another block. */
  lemma Exchange(live: map<nat, nat>, ids: map<nat, Held>, i: nat, h: Held, v: nat)
    requires Owned(live, ids) && i in ids && h.addr !in live && Holds(map[h.addr := v], h)
    ensures Owned(live[h.addr := v] - {ids[i].addr}, ids[i := h])
  {
    var p := ids[i].addr;
    OwnedRemove(live, ids, i);
    OwnedAdd(live - {p}, ids - {i}, i, h, v);
    assert (live - {p})[h.addr := v] == live[h.addr := v] - {p};
    assert (ids - {i})[i := h] == ids[i := h];
  }

  /** Every request that is served keeps the invariant; the heap only grows, and only inside the arena. */
  lemma StepInv(s: State, cap: nat, op: Op, opnum: nat)
    requires Inv(s) && Allowed(op, s.ids.Keys)
    ensures var r := Step(s, cap, op, opnum);
            r.Done? ==> && Inv(r.s) && r.s.ids.Keys == LiveAfter(op, s.ids.Keys)
                        && Sum(s.bs) <= Sum(r.s.bs) && (8 + Sum(s.bs) <= cap ==> 8 + Sum(r.s.bs) <= cap)
  {
    if op.Release? {
      OwnedRemove(Live(s.bs), s.ids, op.index);
      FreeLaw(s.bs, s.ids[op.index].addr, MINBLOCK);
    } else if Malloc(s.bs, cap, op.size).Granted? {
      if op.Alloc? {
        AllocInv(s, cap, op.index, op.size);
      } else {
        ReallocInv(s, cap, op.index, op.size);
      }
    }
  }

  // ---------------------------------------------------------------- runs

  /** The run of ops from s, whose first request is request opnum of the trace. */
  ghost function Run(s: State, cap: nat, ops: seq<Op>, opnum: nat): (r: Outcome)
    requires Inv(s) && WellFormedTrace(ops, s.ids.Keys)
    ensures r.Done? ==> Inv(r.s) && Sum(s.bs) <= Sum(r.s.bs)
    ensures r.Done? && 8 + Sum(s.bs) <= cap ==> 8 + Sum(r.s.bs) <= cap
    decreases ops
  {
    if ops == [] then Done(s)
    else
      StepInv(s, cap, ops[0], opnum);
      var r := Step(s, cap, ops[0], opnum);
      if r.Done? then Run(r.s, cap, ops[1..], opnum + 1) else r
  }

  /** What eval_mm_valid and eval_mm_util do to the heap. */
  ghost function RunTrace(cap: nat, ops: seq<Op>): (r: Outcome)
    requires WellFormedTrace(ops, {})
    ensures r.Done? ==> Inv(r.s) && INIT_BYTES + CHUNKSIZE <= 8 + Sum(r.s.bs) <= cap
  {
    StartInv();
    InitialLaw(cap);
    assert START.ids.Keys == {};
    if cap < INIT_BYTES + CHUNKSIZE then InitFailed
    else Run(START, cap, ops, 0)
  }
}
