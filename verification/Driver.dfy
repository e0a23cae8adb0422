/** mdriver.c: eval_mm_valid and eval_mm_util driving the allocator through a trace. */
module Driver {
  import opened Words
  import opened Blocks
  import opened Policy
  import opened Memlib
  import opened Mm
  import opened Traces
  import opened TraceLaws
  import opened Sums
  import opened Ranges

  /** How an evaluation ends. The last two are the driver's own complaints. */
  datatype Verdict = Accepted | NoInit | NoMemory(opnum: nat) | Exited(opnum: nat)
                   | BadRange(opnum: nat) | LostData(opnum: nat)

  /** FREE_HEAP */
  const FREE_HEAP: nat := 65536

  /** The verdict the run of the trace on block lists calls for. */
  function VerdictOf(r: Outcome): Verdict {
    match r
    case Done(_) => Accepted
    case InitFailed => NoInit
    case MallocFailed(k) => NoMemory(k)
    case ReallocExited(k) => Exited(k)
  }

  /** What a verdict says about the trace and the arena. */
  ghost predicate Justified(v: Verdict, cap: nat, ops: seq<Op>)
    requires WellFormedTrace(ops, {})
  {
    match v
    case Accepted => RunTrace(cap, ops).Done?
    case NoInit => cap < 32 + 0x1_0000
    case NoMemory(k) => k < |ops| && ops[k].Alloc? && StopsAt(cap, ops, k)
    case Exited(k) => k < |ops| && ops[k].Realloc? && StopsAt(cap, ops, k)
    case BadRange(_) => false
    case LostData(_) => false
  }

  lemma {:induction false} VerdictJustified(cap: nat, ops: seq<Op>)
    requires WellFormedTrace(ops, {})
    ensures Justified(VerdictOf(RunTrace(cap, ops)), cap, ops)
  {
    FailureMeans(cap, ops);
  }

  // ---------------------------------------------------------------- what the payloads hold

  ghost predicate Filled(m: seq<byte>, h: Held, v: int) {
    h.addr + h.size <= |m| && forall k :: h.addr <= k < h.addr + h.size ==> m[k] == v
  }

  /** Every held payload is filled with the low byte of its id. */
  ghost predicate Contents(m: seq<byte>, ids: map<nat, Held>) {
    forall i {:trigger Filled(m, ids[i], i % 0x100)} :: i in ids ==> Filled(m, ids[i], i % 0x100)
  }

  /** Payloads that an operation leaves alone keep their contents. */
  lemma ContentsKept(m: seq<byte>, m': seq<byte>, live: map<nat, nat>, ids: map<nat, Held>)
    requires Contents(m, ids) && SamePayloads(m, m', live)
    requires forall i :: i in ids ==> ids[i].addr in live && ids[i].size + OVERHEAD <= live[ids[i].addr]
    ensures Contents(m', ids)
  {
    forall i | i in ids ensures Filled(m', ids[i], i % 0x100) {
      var h := ids[i];
      assert Filled(m, h, i % 0x100);
      forall k | h.addr <= k < h.addr + h.size ensures m'[k] == i % 0x100 {
        assert SameAt(m, m', k);
      }
    }
  }

  /** memset */
  method Memset(mem: array<byte>, p: nat, v: byte, n: nat)
    requires p + n <= mem.Length
    modifies mem
    ensures Filled(mem[..], Held(p, n), v) && SameOutside(old(mem[..]), mem[..], p, p + n)
  {
    var j := p;
    while j < p + n
      invariant p <= j <= p + n
      invariant forall k :: p <= k < j ==> mem[k] == v
      invariant forall k :: 0 <= k < mem.Length && !(p <= k < p + n) ==> mem[k] == old(mem[k])
    {
      mem[j] := v;
      j := j + 1;
    }
  }

  /** trace->blocks and trace->block_sizes agree with what the ids hold. */
  ghost predicate TablesMatch(blocks: seq<nat>, sizes: seq<nat>, ids: map<nat, Held>) {
    |blocks| == |sizes| && forall i :: i in ids ==> i < |blocks| && ids[i] == Held(blocks[i], sizes[i])
  }

  /** The run of a trace: the allocator, the id tables of trace_t and the range list. The ghost field state
      is the block-list state the run has reached. */
  class Evaluation {
    const mm: Allocator
    const list: RangeList
    const blocks: array<nat>
    const blockSizes: array<nat>
    ghost var state: State

    /** The heap is the one of state, and the tables say where its ids are. */
    ghost predicate Tracks()
      reads this, mm, mm.arena, mm.arena.data, blocks, blockSizes
    {
      && blocks != blockSizes
      && mm.Valid() && Inv(state) && mm.blocks == state.bs
      && TablesMatch(blocks[..], blockSizes[..], state.ids)
    }

    /** ... and so do the range list and the payload bytes. */
    ghost predicate Checked()
      reads this, mm, mm.arena, mm.arena.data, blocks, blockSizes, list
    {
      Tracks() && RangesMatch(list.ranges, state.ids) && Contents(mm.arena.data[..], state.ids)
    }

    constructor (m: Allocator, numIds: nat)
      ensures mm == m && fresh(list) && fresh(blocks) && fresh(blockSizes)
      ensures blocks != blockSizes && blocks.Length == blockSizes.Length == numIds
    {
      mm := m;
      list := new RangeList();
      blocks := new nat[numIds];
      blockSizes := new nat[numIds];
      state := START;
    }

    // -------------------------------------------------------------- eval_mm_valid

    /** The checks of add_range pass for a payload just handed out. */
    static lemma RecordFits(rs: seq<Range>, s: State, i: nat)
      requires Inv(s) && i in s.ids && RangesMatch(rs, s.ids - {i})
      ensures var h := s.ids[i];
              && h.size > 0 && h.addr % 8 == 0 && h.addr + h.size <= 8 + Sum(s.bs)
              && (forall p :: p in rs ==> !Flagged(h.addr, h.addr + h.size - 1, p))
              && RangesMatch([RangeOf(h)] + rs, s.ids)
    {
      var h := s.ids[i];
      PayloadInside(s, i);
      assert Holds(Live(s.bs), h);
      forall p | p in rs ensures !Flagged(h.addr, h.addr + h.size - 1, p) {
        assert HasRange(s.ids - {i}, p);
        var j :| j in s.ids - {i} && RangeOf((s.ids - {i})[j]) == p;
        NotFlagged(s, i, j);
      }
      forall j | j in s.ids - {i} ensures (s.ids - {i})[j].addr != h.addr {
        assert Unshared(s.ids, i, j);
      }
      MatchAdd(rs, s.ids - {i}, i, h);
      assert (s.ids - {i})[i := h] == s.ids;
    }

    static lemma NotFlagged(s: State, i: nat, j: nat)
      requires Inv(s) && i in s.ids && j in s.ids && i != j
      ensures !Flagged(s.ids[i].addr, s.ids[i].addr + s.ids[i].size - 1, RangeOf(s.ids[j]))
    {
      PayloadsApart(s, i, j);
      assert Holds(Live(s.bs), s.ids[i]) && Holds(Live(s.bs), s.ids[j]);
      FlaggedIff(s.ids[i].addr, s.ids[i].addr + s.ids[i].size - 1, RangeOf(s.ids[j]));
    }

    /** add_range for a payload just handed out. */
    method Record(i: nat, p: nat, n: nat, ghost t: State) returns (ok: bool)
      requires mm.arena.brk == 8 + Sum(t.bs) && Inv(t) && i in t.ids && t.ids[i] == Held(p, n)
      requires RangesMatch(list.ranges, t.ids - {i})
      modifies list
      ensures ok && RangesMatch(list.ranges, t.ids)
    {
      RecordFits(list.ranges, t, i);
      ok := list.Add(mm.arena, p, n);
    }

    /** memset of a payload just handed out. */
    method Fill(i: nat, p: nat, n: nat, ghost t: State)
      requires mm.Valid() && mm.blocks == t.bs && Inv(t) && i in t.ids && t.ids[i] == Held(p, n)
      requires Contents(mm.arena.data[..], t.ids - {i})
      modifies mm.arena.data
      ensures mm.Valid() && Contents(mm.arena.data[..], t.ids)
    {
      ghost var m := mm.arena.data[..];
      PayloadInside(t, i);
      Memset(mm.arena.data, p, i % 0x100, n);
      RememberedContents(m, mm.arena.data[..], mm.arena.brk, t, i);
    }

    /** Remember region and size. */
    method Store(i: nat, p: nat, n: nat, ghost ids: map<nat, Held>)
      requires TablesMatch(blocks[..], blockSizes[..], ids - {i}) && i < blocks.Length && blocks != blockSizes
      requires i in ids && ids[i] == Held(p, n)
      modifies blocks, blockSizes
      ensures TablesMatch(blocks[..], blockSizes[..], ids)
    {
      blocks[i] := p;
      blockSizes[i] := n;
      assert forall j :: j in ids && j != i ==> j in ids - {i} && (ids - {i})[j] == ids[j];
    }

    /** What follows a successful mm_malloc, and ends a successful mm_realloc. */
    method Remember(i: nat, p: nat, n: nat, ghost t: State) returns (ok: bool)
      requires mm.Valid() && mm.blocks == t.bs && Inv(t) && i in t.ids && t.ids[i] == Held(p, n)
      requires blocks != blockSizes && i < blocks.Length
      requires TablesMatch(blocks[..], blockSizes[..], t.ids - {i})
      requires RangesMatch(list.ranges, t.ids - {i})
      requires Contents(mm.arena.data[..], t.ids - {i})
      modifies this`state, mm.arena.data, list, blocks, blockSizes
      ensures ok && Checked() && state == t
    {
      ok := Record(i, p, n, t);
      if ok {
        Fill(i, p, n, t);
        Store(i, p, n, t.ids);
      }
      state := t;
    }

    /** After the memset every held payload carries the byte of its id, and the tags are intact. */
    static lemma RememberedContents(m: seq<byte>, m': seq<byte>, brk: nat, t: State, i: nat)
      requires Encodes(m, brk, t.bs) && Inv(t) && i in t.ids && Contents(m, t.ids - {i})
      requires SameOutside(m, m', t.ids[i].addr, t.ids[i].addr + t.ids[i].size)
      requires Filled(m', t.ids[i], i % 0x100)
      ensures Encodes(m', brk, t.bs) && Contents(m', t.ids)
    {
      var h := t.ids[i];
      assert Holds(Live(t.bs), h);
      SameWiden(m, m', h.addr, h.addr + Live(t.bs)[h.addr] - 8, h.addr, h.addr + h.size);
      PayloadWrite(m, m', brk, t.bs, h.addr);
      forall j | j in t.ids - {i} ensures Holds(Live(t.bs) - {h.addr}, t.ids[j]) && Filled(m, t.ids[j], j % 0x100) {
        assert Holds(Live(t.bs), t.ids[j]) && Unshared(t.ids, j, i);
        assert Filled(m, (t.ids - {i})[j], j % 0x100);
      }
      ContentsKept(m, m', Live(t.bs) - {h.addr}, t.ids - {i});
      forall j | j in t.ids ensures Filled(m', t.ids[j], j % 0x100) {
        if j != i { assert j in t.ids - {i} && Filled(m', (t.ids - {i})[j], j % 0x100); }
      }
    }

    /** mm_malloc for a size of a trace, which always rounds to that of a block. */
    method MallocSmall(n: nat) returns (p: Ptr)
      requires mm.Valid() && 0 < n <= INT_MAX
      modifies mm`blocks, mm.arena`brk, mm.arena.data
      ensures mm.Valid() && old(mm.arena.brk) <= mm.arena.brk
      ensures SamePayloads(old(mm.arena.data[..]), mm.arena.data[..], Live(old(mm.blocks)))
      ensures match Policy.Malloc(old(mm.blocks), mm.arena.data.Length, n)
              case Denied => p == Null && mm.blocks == old(mm.blocks)
              case Granted(cs, k) => k < |cs| && p == At(Addr(cs, k)) && mm.blocks == cs
    {
      AdjustedSizeCovers(n);
      p := mm.Malloc(n);
    }

    /** mm_malloc for id i, as a step of the run. */
    method CallMalloc(i: nat, n: nat, opnum: nat) returns (p: Ptr, ghost t: State)
      requires mm.Valid() && Inv(state) && mm.blocks == state.bs && Allowed(Alloc(i, n), state.ids.Keys)
      modifies mm`blocks, mm.arena`brk, mm.arena.data
      ensures mm.Valid() && Inv(t) && mm.blocks == t.bs && old(mm.arena.brk) <= mm.arena.brk
      ensures p == Null ==> Step(state, mm.arena.data.Length, Alloc(i, n), opnum) == MallocFailed(opnum) && t == state
      ensures p != Null ==> Step(state, mm.arena.data.Length, Alloc(i, n), opnum) == Done(t)
                            && t.ids == state.ids[i := Held(p.addr, n)] && t.ids - {i} == state.ids
      ensures Contents(old(mm.arena.data[..]), state.ids) ==> Contents(mm.arena.data[..], state.ids)
    {
      ghost var m := mm.arena.data[..];
      p := MallocSmall(n);
      t := state;
      if p != Null {
        AllocInv(state, mm.arena.data.Length, i, n);
        t := Step(state, mm.arena.data.Length, Alloc(i, n), opnum).s;
      }
      KeptByAll(m, mm.arena.data[..], state);
    }

    static lemma KeptByAll(m: seq<byte>, m': seq<byte>, s: State)
      requires Inv(s) && SamePayloads(m, m', Live(s.bs))
      ensures Contents(m, s.ids) ==> Contents(m', s.ids)
    {
      assert forall j :: j in s.ids ==> Holds(Live(s.bs), s.ids[j]);
      if Contents(m, s.ids) { ContentsKept(m, m', Live(s.bs), s.ids); }
    }

    method EvalAlloc(i: nat, n: nat, opnum: nat) returns (v: Verdict)
      requires Checked() && Allowed(Alloc(i, n), state.ids.Keys) && i < blocks.Length
      modifies this`state, mm`blocks, mm.arena`brk, mm.arena.data, list, blocks, blockSizes
      ensures var r := Step(old(state), mm.arena.data.Length, Alloc(i, n), opnum);
              v == VerdictOf(r) && (r.Done? ==> Checked() && state == r.s)
    {
      var p, t := CallMalloc(i, n, opnum);
      if p == Null {
        return NoMemory(opnum);
      }
      var ok := Remember(i, p.addr, n, t);
      v := if ok then Accepted else BadRange(opnum);
    }

    /** The check that mm_realloc carried the old bytes over. */
    method DataKept(newp: nat, n: nat, b: byte) returns (kept: bool)
      requires newp + n <= mm.arena.data.Length
      ensures kept <==> forall k :: newp <= k < newp + n ==> mm.arena.data[k] == b
    {
      var j := newp;
      while j < newp + n
        invariant newp <= j <= newp + n
        invariant forall k :: newp <= k < j ==> mm.arena.data[k] == b
      {
        if mm.arena.data[j] != b {
          return false;
        }
        j := j + 1;
      }
      return true;
    }

    /** After a served mm_realloc the start of the new payload is still the byte of the id, and so are the
        payloads of the other ids. */
    static lemma MovedContents(m: seq<byte>, m': seq<byte>, s: State, i: nat, newp: nat, n: nat)
      requires Inv(s) && i in s.ids && Contents(m, s.ids)
      requires s.ids[i].addr in Live(s.bs) && MINBLOCK <= Live(s.bs)[s.ids[i].addr]
      requires Copied(m, s.ids[i].addr, m', newp, Allocator.Kept(Live(s.bs)[s.ids[i].addr], n))
      requires SamePayloads(m, m', Live(s.bs) - {s.ids[i].addr})
      ensures Filled(m', Held(newp, if n < s.ids[i].size then n else s.ids[i].size), i % 0x100)
      ensures Contents(m', s.ids - {i})
    {
      var h := s.ids[i];
      var kept := if n < h.size then n else h.size;
      assert Holds(Live(s.bs), h) && Filled(m, h, i % 0x100);
      CopiedFewer(m, h.addr, m', newp, Allocator.Kept(Live(s.bs)[h.addr], n), kept);
      forall k | newp <= k < newp + kept ensures m'[k] == i % 0x100 {
        assert m'[newp..newp + kept][k - newp] == m[h.addr..h.addr + kept][k - newp];
      }
      forall j | j in s.ids - {i} ensures Holds(Live(s.bs) - {h.addr}, s.ids[j]) && Filled(m, s.ids[j], j % 0x100) {
        assert Holds(Live(s.bs), s.ids[j]) && Unshared(s.ids, j, i);
      }
      ContentsKept(m, m', Live(s.bs) - {h.addr}, s.ids - {i});
    }

    /** mm_realloc for id i, as a step of the run; kept bytes of the new payload are the old ones. */
    method CallRealloc(i: nat, oldp: nat, n: nat, opnum: nat) returns (r: Reallocated, ghost t: State)
      requires mm.Valid() && Inv(state) && mm.blocks == state.bs && Allowed(Realloc(i, n), state.ids.Keys)
      requires oldp == state.ids[i].addr
      modifies mm`blocks, mm.arena`brk, mm.arena.data
      ensures mm.Valid() && Inv(t) && mm.blocks == t.bs && old(mm.arena.brk) <= mm.arena.brk
      ensures r == ExitOne ==> t == state
      ensures r == ExitOne ==> Step(state, mm.arena.data.Length, Realloc(i, n), opnum) == ReallocExited(opnum)
      ensures r != ExitOne ==> Step(state, mm.arena.data.Length, Realloc(i, n), opnum) == Done(t)
                               && t.ids == state.ids[i := Held(r.newp, n)] && t.ids - {i} == state.ids - {i}
      ensures r != ExitOne && Contents(old(mm.arena.data[..]), state.ids) ==>
        && Contents(mm.arena.data[..], state.ids - {i})
        && Filled(mm.arena.data[..], Held(r.newp, if n < state.ids[i].size then n else state.ids[i].size), i % 0x100)
    {
      ghost var m := mm.arena.data[..];
      OwnedRemove(Live(state.bs), state.ids, i);
      r := mm.Realloc(oldp, n);
      t := state;
      if r != ExitOne {
        t := State(mm.blocks, state.ids[i := Held(r.newp, n)]);
        ReallocStep(state, mm.arena.data.Length, i, n, opnum, t);
        if Contents(m, state.ids) {
          MovedContents(m, mm.arena.data[..], state, i, r.newp, n);
        }
      }
    }

    static lemma ReallocStep(s: State, cap: nat, i: nat, n: nat, opnum: nat, t: State)
      requires Inv(s) && Allowed(Realloc(i, n), s.ids.Keys) && Policy.Malloc(s.bs, cap, n).Granted?
      requires var g := Policy.Malloc(s.bs, cap, n);
               && s.ids[i].addr in Live(g.bs) && g.i <= |g.bs| && t.bs == Policy.Free(g.bs, s.ids[i].addr)
               && t.ids == s.ids[i := Held(Addr(g.bs, g.i), n)]
      ensures Step(s, cap, Realloc(i, n), opnum) == Done(t) && Inv(t) && t.ids - {i} == s.ids - {i}
      ensures var g := Policy.Malloc(s.bs, cap, n);
              && s.ids[i].addr in Live(s.bs) && MINBLOCK <= Live(s.bs)[s.ids[i].addr]
              && s.ids[i].addr in Live(g.bs) && Live(g.bs)[s.ids[i].addr] == Live(s.bs)[s.ids[i].addr]
    {
      OwnedRemove(Live(s.bs), s.ids, i);
      ReallocInv(s, cap, i, n);
      OldKept(s, cap, i, n);
    }

    /** The old block is still there after the mm_malloc of mm_realloc. */
    static lemma OldKept(s: State, cap: nat, i: nat, n: nat)
      requires Inv(s) && Allowed(Realloc(i, n), s.ids.Keys) && Policy.Malloc(s.bs, cap, n).Granted?
      ensures var g, p := Policy.Malloc(s.bs, cap, n), s.ids[i].addr;
              && p in Live(s.bs) && MINBLOCK <= Live(s.bs)[p] && p in Live(g.bs) && Live(g.bs)[p] == Live(s.bs)[p]
    {
      OwnedRemove(Live(s.bs), s.ids, i);
      AdjustedSizeCovers(n);
      ReallocLaw(s.bs, cap, n, s.ids[i].addr);
    }

    method EvalRealloc(i: nat, n: nat, opnum: nat) returns (v: Verdict)
      requires Checked() && Allowed(Realloc(i, n), state.ids.Keys)
      modifies this`state, mm`blocks, mm.arena`brk, mm.arena.data, list, blocks, blockSizes
      ensures var r := Step(old(state), mm.arena.data.Length, Realloc(i, n), opnum);
              v == VerdictOf(r) && (r.Done? ==> Checked() && state == r.s)
    {
      var oldp := blocks[i];
      var r, t := CallRealloc(i, oldp, n, opnum);
      if r == ExitOne {
        return Exited(opnum);
      }
      var oldSize := blockSizes[i];
      v := FinishRealloc(i, oldp, r.newp, n, oldSize, t, opnum);
    }

    static lemma ForgetTables(blocks: seq<nat>, sizes: seq<nat>, ids: map<nat, Held>, i: nat)
      requires TablesMatch(blocks, sizes, ids)
      ensures TablesMatch(blocks, sizes, ids - {i}) && (i in ids ==> i < |blocks|)
    {
    }

    /** What eval_mm_valid does after a successful mm_realloc. */
    method FinishRealloc(i: nat, oldp: nat, newp: nat, n: nat, oldSize0: nat, ghost t: State, opnum: nat)
      returns (v: Verdict)
      requires mm.Valid() && mm.blocks == t.bs && Inv(t) && Inv(state) && blocks != blockSizes
      requires i in state.ids && state.ids[i] == Held(oldp, oldSize0) && t.ids == state.ids[i := Held(newp, n)]
      requires t.ids - {i} == state.ids - {i}
      requires TablesMatch(blocks[..], blockSizes[..], state.ids) && RangesMatch(list.ranges, state.ids)
      requires Contents(mm.arena.data[..], state.ids - {i})
      requires Filled(mm.arena.data[..], Held(newp, if n < oldSize0 then n else oldSize0), i % 0x100)
      modifies this`state, mm.arena.data, list, blocks, blockSizes
      ensures v == Accepted && Checked() && state == t
    {
      ForgetTables(blocks[..], blockSizes[..], state.ids, i);
      MatchRemove(list.ranges, state.ids, i);
      list.Remove(oldp);
      var oldSize := oldSize0;
      if n < oldSize {
        oldSize := n;
      }
      var kept := DataKept(newp, oldSize, i % 0x100);
      assert kept;
      var ok := Remember(i, newp, n, t);
      v := if !ok then BadRange(opnum) else if kept then Accepted else LostData(opnum);
    }

    /** mm_free for id i, as a step of the run. */
    method CallFree(i: nat, p: nat, opnum: nat) returns (ghost t: State)
      requires mm.Valid() && Inv(state) && mm.blocks == state.bs && i in state.ids && p == state.ids[i].addr
      modifies mm`blocks, mm.arena.data
      ensures mm.Valid() && Inv(t) && mm.blocks == t.bs && t.ids == state.ids - {i}
      ensures Step(state, mm.arena.data.Length, Release(i), opnum) == Done(t)
      ensures Contents(old(mm.arena.data[..]), state.ids) ==> Contents(mm.arena.data[..], t.ids)
    {
      ghost var m := mm.arena.data[..];
      OwnedRemove(Live(state.bs), state.ids, i);
      StepInv(state, mm.arena.data.Length, Release(i), opnum);
      FreeLaw(state.bs, p, MINBLOCK);
      mm.Free(p);
      t := State(Policy.Free(state.bs, p), state.ids - {i});
      if Contents(m, state.ids) {
        assert Contents(m, t.ids);
        KeptByAll(m, mm.arena.data[..], t);
      }
    }

    method EvalFree(i: nat, opnum: nat) returns (v: Verdict)
      requires Checked() && i in state.ids
      modifies this`state, mm`blocks, mm.arena.data, list
      ensures var r := Step(old(state), mm.arena.data.Length, Release(i), opnum);
              v == VerdictOf(r) && r.Done? && Checked() && state == r.s
    {
      var p := blocks[i];
      MatchRemove(list.ranges, state.ids, i);
      list.Remove(p);
      state := CallFree(i, p, opnum);
      v := Accepted;
    }

    method EvalOp(op: Op, opnum: nat) returns (v: Verdict)
      requires Checked() && Allowed(op, state.ids.Keys) && op.index < blocks.Length
      modifies this`state, mm`blocks, mm.arena`brk, mm.arena.data, list, blocks, blockSizes
      ensures var r := Step(old(state), mm.arena.data.Length, op, opnum);
              v == VerdictOf(r) && (r.Done? ==> Checked() && state == r.s)
    {
      match op
      case Alloc(i, n) => v := EvalAlloc(i, n, opnum);
      case Realloc(i, n) => v := EvalRealloc(i, n, opnum);
      case Release(i) => v := EvalFree(i, opnum);
    }

    /** With requests k and later still to come, the run has reached s. */
    static ghost predicate Reached(s: State, cap: nat, ops: seq<Op>, k: nat, r: Outcome) {
      k <= |ops| && Inv(s) && WellFormedTrace(ops[k..], s.ids.Keys) && Run(s, cap, ops[k..], k) == r
    }

    /** One request of a run. */
    static lemma ReachedNext(s: State, cap: nat, ops: seq<Op>, k: nat, r: Outcome)
      requires Reached(s, cap, ops, k, r) && k < |ops|
      ensures Allowed(ops[k], s.ids.Keys)
      ensures var t := Step(s, cap, ops[k], k);
              if t.Done? then Reached(t.s, cap, ops, k + 1, r) else r == t
    {
      assert ops[k..][0] == ops[k] && ops[k..][1..] == ops[k + 1..];
      StepInv(s, cap, ops[k], k);
    }

    static lemma ReachedEnd(s: State, cap: nat, ops: seq<Op>, r: Outcome)
      requires Reached(s, cap, ops, |ops|, r)
      ensures r == Done(s)
    {
    }

    /** Both evaluations begin by resetting the arena and initialising the package. */
    method Begin(ghost ops: seq<Op>) returns (ok: bool)
      requires mm.arena.Valid() && INIT_BYTES <= mm.arena.data.Length && blocks != blockSizes
      requires blocks.Length == blockSizes.Length && WellFormedTrace(ops, {})
      modifies this`state, mm, mm.arena`brk, mm.arena.data
      ensures !ok ==> RunTrace(mm.arena.data.Length, ops) == InitFailed
      ensures ok ==> Tracks() && state == START && state.ids == map[]
                     && Reached(state, mm.arena.data.Length, ops, 0, RunTrace(mm.arena.data.Length, ops))
    {
      mm.arena.ResetBrk();
      var r := mm.Init();
      ok := r == Ready;
      StartInv();
      state := START;
      assert ops[0..] == ops && START.ids.Keys == {};
    }

    /** eval_mm_valid: on every well-formed trace the driver accepts the allocator, unless mem_sbrk runs out
        at the very request where the run on block lists does. */
    method EvalMmValid(ops: seq<Op>) returns (v: Verdict)
      requires mm.arena.Valid() && INIT_BYTES <= mm.arena.data.Length && blocks != blockSizes
      requires blocks.Length == blockSizes.Length
      requires WellFormedTrace(ops, {}) && forall k :: 0 <= k < |ops| ==> ops[k].index < blocks.Length
      modifies this`state, mm, mm.arena`brk, mm.arena.data, list, blocks, blockSizes
      ensures v == VerdictOf(RunTrace(mm.arena.data.Length, ops)) && Justified(v, mm.arena.data.Length, ops)
      ensures v == Accepted ==> Checked() && RunTrace(mm.arena.data.Length, ops) == Done(state)
    {
      v := Interpret(ops);
      VerdictJustified(mm.arena.data.Length, ops);
    }

    method Interpret(ops: seq<Op>) returns (v: Verdict)
      requires mm.arena.Valid() && INIT_BYTES <= mm.arena.data.Length && blocks != blockSizes
      requires blocks.Length == blockSizes.Length
      requires WellFormedTrace(ops, {}) && forall k :: 0 <= k < |ops| ==> ops[k].index < blocks.Length
      modifies this`state, mm, mm.arena`brk, mm.arena.data, list, blocks, blockSizes
      ensures v == VerdictOf(RunTrace(mm.arena.data.Length, ops))
      ensures v == Accepted ==> Checked() && RunTrace(mm.arena.data.Length, ops) == Done(state)
    {
      ghost var cap := mm.arena.data.Length;
      list.Clear();
      var ok := Begin(ops);
      if !ok {
        return NoInit;
      }
      var k := 0;
      while k < |ops|
        invariant 0 <= k <= |ops| && Checked()
        invariant Reached(state, cap, ops, k, RunTrace(cap, ops))
      {
        ReachedNext(state, cap, ops, k, RunTrace(cap, ops));
        v := EvalOp(ops[k], k);
        if v != Accepted {
          return;
        }
        k := k + 1;
      }
      ReachedEnd(state, cap, ops, RunTrace(cap, ops));
      v := Accepted;
    }

    // -------------------------------------------------------------- eval_mm_util

    method PlainAlloc(i: nat, size: nat, opnum: nat) returns (v: Verdict)
      requires Tracks() && Allowed(Alloc(i, size), state.ids.Keys) && i < blocks.Length
      modifies this`state, mm`blocks, mm.arena`brk, mm.arena.data, blocks, blockSizes
      ensures var r := Step(old(state), mm.arena.data.Length, Alloc(i, size), opnum);
              v == VerdictOf(r) && (r.Done? ==> Tracks() && state == r.s)
      ensures v == Accepted ==> old(mm.arena.brk) <= mm.arena.brk && IdsAfter(Alloc(i, size), old(state.ids), state.ids)
    {
      var p, t := CallMalloc(i, size, opnum);
      if p == Null {
        return NoMemory(opnum);
      }
      Store(i, p.addr, size, t.ids);
      state := t;
      v := Accepted;
    }

    method PlainRealloc(i: nat, size: nat, opnum: nat) returns (v: Verdict)
      requires Tracks() && Allowed(Realloc(i, size), state.ids.Keys)
      modifies this`state, mm`blocks, mm.arena`brk, mm.arena.data, blocks, blockSizes
      ensures var r := Step(old(state), mm.arena.data.Length, Realloc(i, size), opnum);
              v == VerdictOf(r) && (r.Done? ==> Tracks() && state == r.s)
      ensures v == Accepted ==> old(mm.arena.brk) <= mm.arena.brk
      ensures v == Accepted ==> IdsAfter(Realloc(i, size), old(state.ids), state.ids)
    {
      ForgetTables(blocks[..], blockSizes[..], state.ids, i);
      var r, t := CallRealloc(i, blocks[i], size, opnum);
      if r == ExitOne {
        return Exited(opnum);
      }
      Store(i, r.newp, size, t.ids);
      state := t;
      v := Accepted;
    }

    method PlainFree(i: nat, opnum: nat) returns (v: Verdict)
      requires Tracks() && i in state.ids
      modifies this`state, mm`blocks, mm.arena.data
      ensures var r := Step(old(state), mm.arena.data.Length, Release(i), opnum);
              v == VerdictOf(r) && (r.Done? ==> Tracks() && state == r.s)
      ensures v == Accepted ==> old(mm.arena.brk) <= mm.arena.brk && IdsAfter(Release(i), old(state.ids), state.ids)
    {
      ForgetTables(blocks[..], blockSizes[..], state.ids, i);
      state := CallFree(i, blocks[i], opnum);
      v := Accepted;
    }

    /** The effect of a served request on the ids. */
    static ghost predicate IdsAfter(op: Op, ids: map<nat, Held>, ids': map<nat, Held>) {
      match op
      case Alloc(i, n) => i in ids' && ids' == ids[i := ids'[i]] && ids'[i].size == n
      case Realloc(i, n) => i in ids' && ids' == ids[i := ids'[i]] && ids'[i].size == n
      case Release(i) => ids' == ids - {i}
    }

    static lemma SumsAfter(op: Op, ids: map<nat, Held>, ids': map<nat, Held>)
      requires Allowed(op, ids.Keys) && IdsAfter(op, ids, ids')
      ensures Sizes(ids') == SizesAfter(op, Sizes(ids))
      ensures SumMap(Sizes(ids')) == SumMap(Sizes(ids)) + Delta(op, ids)
    {
      match op
      case Alloc(i, n) => SumMapPut(Sizes(ids), i, n);
      case Realloc(i, n) => SumMapReplace(Sizes(ids), i, n);
      case Release(i) => SumMapTake(Sizes(ids), i);
    }

    /** What one request adds to total_size. */
    static function Delta(op: Op, ids: map<nat, Held>): int
      requires Allowed(op, ids.Keys)
    {
      match op
      case Alloc(_, n) => n
      case Realloc(i, n) => n - ids[i].size
      case Release(i) => 0 - ids[i].size
    }

    method PlainOp(op: Op, opnum: nat) returns (v: Verdict)
      requires Tracks() && Allowed(op, state.ids.Keys) && op.index < blocks.Length
      modifies this`state, mm`blocks, mm.arena`brk, mm.arena.data, blocks, blockSizes
      ensures var r := Step(old(state), mm.arena.data.Length, op, opnum);
              v == VerdictOf(r) && (r.Done? ==> Tracks() && state == r.s)
      ensures v == Accepted ==> old(mm.arena.brk) <= mm.arena.brk && IdsAfter(op, old(state.ids), state.ids)
    {
      match op
      case Alloc(i, size) => v := PlainAlloc(i, size, opnum);
      case Realloc(i, newSize) => v := PlainRealloc(i, newSize, opnum);
      case Release(i) => v := PlainFree(i, opnum);
    }

    /** The change of total_size for one request, from the request and the size table. */
    method ReadDelta(op: Op) returns (d: int)
      requires Tracks() && Allowed(op, state.ids.Keys)
      ensures d == Delta(op, state.ids)
    {
      match op
      case Alloc(_, size) => d := size;
      case Realloc(i, newSize) => d := newSize - blockSizes[i];
      case Release(i) =>
        var size: int := blockSizes[i];
        d := -size;
    }

    /** total is the sum of the live request sizes, which the heap always holds, and high the high-water mark
        so far, which never passes the larger of the heap size and FREE_HEAP. None leaves the range of an int. */
    static ghost predicate UtilInv(ops: seq<Op>, k: nat, ids: map<nat, Held>, heap: int, total: int, high: int) {
      && k <= |ops| && total == SumMap(Sizes(ids)) && total <= heap <= MAX_HEAP < INT_MAX
      && Sizes(ids) == LiveSizes(ops[..k])
      && high <= (if heap > FREE_HEAP then heap else FREE_HEAP) && HighWater(ops, k, high)
    }

    static lemma UtilNext(ops: seq<Op>, k: nat, ids: map<nat, Held>, ids': map<nat, Held>,
        heap: int, heap': int, total: int, high: int)
      requires UtilInv(ops, k, ids, heap, total, high) && k < |ops| && Allowed(ops[k], ids.Keys)
      requires IdsAfter(ops[k], ids, ids') && heap <= heap' <= MAX_HEAP && SumMap(Sizes(ids')) <= heap'
      ensures var total' := total + Delta(ops[k], ids);
              UtilInv(ops, k + 1, ids', heap', total', if !ops[k].Release? && total' > high then total' else high)
    {
      SumsAfter(ops[k], ids, ids');
      LiveSizesNext(ops, k);
      HighWaterNow(ops, k, high);
      HighWaterNext(ops, k, high, total + Delta(ops[k], ids));
    }

    static lemma UtilNextState(ops: seq<Op>, k: nat, ids: map<nat, Held>, t: State,
        heap: int, heap': int, total: int, total': int, high: int, high': int)
      requires UtilInv(ops, k, ids, heap, total, high) && k < |ops| && Allowed(ops[k], ids.Keys)
      requires IdsAfter(ops[k], ids, t.ids) && Inv(t) && heap <= heap' == 8 + Sum(t.bs) <= MAX_HEAP
      requires total' == total + Delta(ops[k], ids)
      requires high' == if !ops[k].Release? && total' > high then total' else high
      ensures UtilInv(ops, k + 1, t.ids, heap', total', high')
    {
      HeldFits(t);
      UtilNext(ops, k, ids, t.ids, heap, heap', total, high);
    }

    /** The mm call of one iteration of eval_mm_util, and the change of total_size it brings. */
    method UtilCall(op: Op, opnum: nat) returns (v: Verdict, delta: int)
      requires Tracks() && Allowed(op, state.ids.Keys) && op.index < blocks.Length
      modifies this`state, mm`blocks, mm.arena`brk, mm.arena.data, blocks, blockSizes
      ensures var r := Step(old(state), mm.arena.data.Length, op, opnum);
              v == VerdictOf(r) && (r.Done? ==> Tracks() && state == r.s)
      ensures v == Accepted ==> old(mm.arena.brk) <= mm.arena.brk && IdsAfter(op, old(state.ids), state.ids)
      ensures delta == Delta(op, old(state.ids))
    {
      delta := ReadDelta(op);
      v := PlainOp(op, opnum);
    }

    /** One iteration of eval_mm_util. */
    method UtilTurn(ops: seq<Op>, k: nat, total0: int, high0: int, ghost r: Outcome)
      returns (v: Verdict, total: int, high: int)
      requires Tracks() && k < |ops| && ops[k].index < blocks.Length
      requires Reached(state, mm.arena.data.Length, ops, k, r)
      requires UtilInv(ops, k, state.ids, mm.arena.brk, total0, high0)
      modifies this`state, mm`blocks, mm.arena`brk, mm.arena.data, blocks, blockSizes
      ensures v != Accepted ==> v == VerdictOf(r)
      ensures v == Accepted ==> Tracks() && Reached(state, mm.arena.data.Length, ops, k + 1, r)
      ensures v == Accepted ==> UtilInv(ops, k + 1, state.ids, mm.arena.brk, total, high)
    {
      ReachedNext(state, mm.arena.data.Length, ops, k, r);
      ghost var ids, heap := state.ids, mm.arena.brk;
      total, high := total0, high0;
      var delta;
      v, delta := UtilCall(ops[k], k);
      if v != Accepted {
        return;
      }
      total := total + delta;
      if !ops[k].Release? {
        high := if total > high then total else high;
      }
      UtilNextState(ops, k, ids, state, heap, mm.arena.brk, total0, total, high0, high);
    }

    /** The loop of eval_mm_util, for a run that ends as r. */
    method UtilLoop(ops: seq<Op>, ghost r: Outcome) returns (v: Verdict, maxTotal: int)
      requires Tracks() && state.ids == map[] && Reached(state, mm.arena.data.Length, ops, 0, r)
      requires forall k :: 0 <= k < |ops| ==> ops[k].index < blocks.Length
      modifies this`state, mm`blocks, mm.arena`brk, mm.arena.data, blocks, blockSizes
      ensures v == VerdictOf(r)
      ensures v == Accepted ==> Tracks()
      ensures v == Accepted ==>
        UtilInv(ops, |ops|, state.ids, mm.arena.brk, SumMap(Sizes(state.ids)), maxTotal)
    {
      ghost var cap := mm.arena.data.Length;
      var total := 0;
      maxTotal := FREE_HEAP;
      UtilStart(ops, state.ids, mm.arena.brk);
      var k := 0;
      while k < |ops|
        invariant 0 <= k <= |ops| && Tracks() && Reached(state, cap, ops, k, r)
        invariant UtilInv(ops, k, state.ids, mm.arena.brk, total, maxTotal)
      {
        v, total, maxTotal := UtilTurn(ops, k, total, maxTotal, r);
        if v != Accepted {
          return;
        }
        k := k + 1;
      }
      ReachedEnd(state, cap, ops, r);
      v := Accepted;
    }

    static lemma UtilStart(ops: seq<Op>, ids: map<nat, Held>, heap: int)
      requires ids == map[] && 0 <= heap <= MAX_HEAP
      ensures UtilInv(ops, 0, ids, heap, 0, FREE_HEAP)
    {
      assert ops[..0] == [] && Sizes(ids) == map[];
      HighWaterStart(ops);
    }

    /** eval_mm_util: on every well-formed trace that runs to completion the figure is the high-water mark of
        the live request bytes over the final heap size, and never more than 1. */
    method EvalMmUtil(ops: seq<Op>) returns (v: Verdict, util: real, idealMaxHeap: int, maxHeap: int)
      requires mm.arena.Valid() && INIT_BYTES <= mm.arena.data.Length && blocks != blockSizes
      requires blocks.Length == blockSizes.Length
      requires WellFormedTrace(ops, {}) && forall k :: 0 <= k < |ops| ==> ops[k].index < blocks.Length
      modifies this`state, mm, mm.arena`brk, mm.arena.data, blocks, blockSizes
      ensures v == VerdictOf(RunTrace(mm.arena.data.Length, ops)) && Justified(v, mm.arena.data.Length, ops)
      ensures v == Accepted ==>
        && maxHeap == (if mm.arena.brk > 0x1_0000 then mm.arena.brk else 0x1_0000) && maxHeap <= MAX_HEAP
        && IsRatio(util, idealMaxHeap, maxHeap) && 0.0 < util <= 1.0
      ensures v == Accepted ==>
        && 0x1_0000 <= idealMaxHeap
        && (forall j :: 0 <= j <= |ops| ==> SumMap(LiveSizes(ops[..j])) <= idealMaxHeap)
        && (idealMaxHeap == 0x1_0000 || exists j :: 0 <= j <= |ops| && idealMaxHeap == SumMap(LiveSizes(ops[..j])))
    {
      util, idealMaxHeap, maxHeap := 0.0, 0, 0;
      v, idealMaxHeap, maxHeap := Measure(ops);
      VerdictJustified(mm.arena.data.Length, ops);
      if v == Accepted {
        HighWaterMeans(ops, idealMaxHeap);
        util := Quotient(idealMaxHeap, maxHeap);
      }
    }

    method Measure(ops: seq<Op>) returns (v: Verdict, idealMaxHeap: int, maxHeap: int)
      requires mm.arena.Valid() && INIT_BYTES <= mm.arena.data.Length && blocks != blockSizes
      requires blocks.Length == blockSizes.Length
      requires WellFormedTrace(ops, {}) && forall k :: 0 <= k < |ops| ==> ops[k].index < blocks.Length
      modifies this`state, mm, mm.arena`brk, mm.arena.data, blocks, blockSizes
      ensures v == VerdictOf(RunTrace(mm.arena.data.Length, ops))
      ensures v == Accepted ==> HighWater(ops, |ops|, idealMaxHeap) && idealMaxHeap <= maxHeap <= MAX_HEAP
      ensures v == Accepted ==> maxHeap == if mm.arena.brk > 0x1_0000 then mm.arena.brk else 0x1_0000
    {
      idealMaxHeap, maxHeap := 0, 0;
      var ok := Begin(ops);
      if !ok {
        v := NoInit;
        return;
      }
      v, idealMaxHeap := UtilLoop(ops, RunTrace(mm.arena.data.Length, ops));
      maxHeap := if mm.arena.HeapSize() > FREE_HEAP then mm.arena.HeapSize() else FREE_HEAP;
    }

    static predicate IsRatio(q: real, a: int, b: int) {
      q * (b as real) == a as real
    }

    static lemma RatioMeans(q: real, a: int, b: int)
      requires b > 0
      ensures IsRatio(q, a, b) <==> q == a as real / b as real
    {
    }

    /** The quotient, at most 1 when the numerator is no more than the denominator. */
    static method Quotient(a: int, b: int) returns (q: real)
      requires 0 < a <= b
      ensures IsRatio(q, a, b) && 0.0 < q <= 1.0
    {
      q := a as real / b as real;
    }
  }
}
