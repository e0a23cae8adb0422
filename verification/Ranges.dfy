/** The range list of mdriver.c: the payload extents the driver believes to be live, newest first. */
module Ranges {
  import opened Memlib
  import opened Traces
  import opened TraceLaws

  /** The two comparisons of add_range against one old range: does an endpoint of the new one fall in it? */
  predicate Flagged(lo: int, hi: int, p: Range) {
    (lo >= p.lo && lo <= p.hi) || (hi >= p.lo && hi <= p.hi)
  }

  /** The endpoint test misses exactly the overlaps where the new range strictly surrounds an old one. */
  lemma FlaggedIff(lo: int, hi: int, p: Range)
    requires lo <= hi && p.lo <= p.hi
    ensures Flagged(lo, hi, p) <==> Overlap(Range(lo, hi), p) && !(lo < p.lo && p.hi < hi)
  {
  }

  /** For instance a range around [8, 15] passes. */
  lemma FlaggedMisses()
    ensures Overlap(Range(0, 23), Range(8, 15)) && !Flagged(0, 23, Range(8, 15))
  {
  }

  /** remove_range on the list value: the first record that starts at lo goes. */
  function RemoveLo(rs: seq<Range>, lo: int): seq<Range> {
    if rs == [] then [] else if rs[0].lo == lo then rs[1..] else [rs[0]] + RemoveLo(rs[1..], lo)
  }

  /** Only the first record that starts at lo goes, the others keeping their order. */
  lemma {:induction false} RemoveLoMeans(rs: seq<Range>, lo: int, j: nat)
    requires j <= |rs| && forall k :: 0 <= k < j ==> rs[k].lo != lo
    requires j < |rs| ==> rs[j].lo == lo
    ensures RemoveLo(rs, lo) == if j < |rs| then rs[..j] + rs[j + 1..] else rs
  {
    if 0 < j {
      RemoveLoMeans(rs[1..], lo, j - 1);
      assert rs == [rs[0]] + rs[1..];
    }
  }

  lemma RemoveHere(rs: seq<Range>, lo: int, j: nat)
    requires j < |rs| && rs[j].lo == lo
    ensures RemoveLo(rs[j..], lo) == rs[j + 1..]
  {
    assert rs[j..][1..] == rs[j + 1..];
  }

  lemma RemoveNext(rs: seq<Range>, lo: int, j: nat)
    requires j < |rs| && rs[j].lo != lo
    ensures rs[..j] + RemoveLo(rs[j..], lo) == rs[..j + 1] + RemoveLo(rs[j + 1..], lo)
  {
    assert rs[j..][1..] == rs[j + 1..];
    assert rs[..j + 1] == rs[..j] + [rs[j]];
  }

  ghost predicate DistinctLo(rs: seq<Range>) {
    forall a, b :: 0 <= a < b < |rs| ==> rs[a].lo != rs[b].lo
  }

  lemma {:induction false} RemoveLoExact(rs: seq<Range>, lo: int)
    requires DistinctLo(rs)
    ensures DistinctLo(RemoveLo(rs, lo))
    ensures forall r :: r in RemoveLo(rs, lo) <==> r in rs && r.lo != lo
  {
    if rs != [] {
      var rest := rs[1..];
      assert rs == [rs[0]] + rest;
      RemoveLoExact(rest, lo);
      forall r | r in rest ensures r.lo != rs[0].lo {
        var b :| 0 <= b < |rest| && rest[b] == r;
        assert rs[b + 1] == r;
      }
      assert forall a :: 0 <= a < |RemoveLo(rest, lo)| ==> RemoveLo(rest, lo)[a] in RemoveLo(rest, lo);
    }
  }

  /** The list holds the extents of the held payloads, each once. */
  ghost predicate RangesMatch(rs: seq<Range>, ids: map<nat, Held>) {
    && DistinctLo(rs)
    && (forall i :: i in ids ==> RangeOf(ids[i]) in rs)
    && (forall r :: r in rs ==> HasRange(ids, r))
  }

  ghost predicate HasRange(ids: map<nat, Held>, r: Range) {
    exists i :: i in ids && RangeOf(ids[i]) == r
  }

  lemma MatchAdd(rs: seq<Range>, ids: map<nat, Held>, i: nat, h: Held)
    requires RangesMatch(rs, ids) && i !in ids && forall j :: j in ids ==> ids[j].addr != h.addr
    ensures RangesMatch([RangeOf(h)] + rs, ids[i := h])
  {
    var rs', ids' := [RangeOf(h)] + rs, ids[i := h];
    assert forall j :: j in ids' ==> ids'[j] == if j == i then h else ids[j];
    forall r | r in rs' ensures HasRange(ids', r) && (r in rs ==> r.lo != h.addr) {
      if r in rs {
        assert HasRange(ids, r);
        var j :| j in ids && RangeOf(ids[j]) == r;
        assert RangeOf(ids'[j]) == r;
      } else {
        assert RangeOf(ids'[i]) == r;
      }
    }
    assert forall a :: 0 < a < |rs'| ==> rs'[a] == rs[a - 1] && rs'[a] in rs;
  }

  lemma MatchRemove(rs: seq<Range>, ids: map<nat, Held>, i: nat)
    requires RangesMatch(rs, ids) && i in ids
    requires forall j :: j in ids ==> Unshared(ids, j, i)
    ensures RangesMatch(RemoveLo(rs, ids[i].addr), ids - {i})
  {
    RemoveLoExact(rs, ids[i].addr);
    var rs', ids' := RemoveLo(rs, ids[i].addr), ids - {i};
    forall j | j in ids' ensures RangeOf(ids'[j]) in rs' {
      assert Unshared(ids, j, i);
    }
    forall r | r in rs' ensures HasRange(ids', r) {
      assert HasRange(ids, r);
      var j :| j in ids && RangeOf(ids[j]) == r;
      assert j in ids' && RangeOf(ids'[j]) == r;
    }
  }

  class RangeList {
    var ranges: seq<Range>

    constructor ()
      ensures ranges == []
    {
      ranges := [];
    }

    /** add_range: accepts, and records, exactly the ranges that are aligned, inside the heap, and flagged
        by no old range. */
    method Add(arena: Arena, lo: int, size: int) returns (ok: bool)
      requires size > 0 && arena as object != this
      modifies this
      ensures ok <==> && lo % 8 == 0 && 0 <= lo && lo + size <= arena.brk
                      && forall p :: p in old(ranges) ==> !Flagged(lo, lo + size - 1, p)
      ensures ranges == if ok then [Range(lo, lo + size - 1)] + old(ranges) else old(ranges)
    {
      var hi := lo + size - 1;
      if lo % 8 != 0 {
        return false;
      }
      if lo < 0 || lo > arena.brk - 1 || hi < 0 || hi > arena.brk - 1 {
        return false;
      }
      var j := 0;
      while j < |ranges|
        invariant 0 <= j <= |ranges| && ranges == old(ranges)
        invariant forall k :: 0 <= k < j ==> !Flagged(lo, hi, ranges[k])
      {
        assert ranges[j] in old(ranges);
        if Flagged(lo, hi, ranges[j]) {
          return false;
        }
        j := j + 1;
      }
      ranges := [Range(lo, hi)] + ranges;
      return true;
    }

    /** remove_range */
    method Remove(lo: int)
      modifies this
      ensures ranges == RemoveLo(old(ranges), lo)
    {
      var j := 0;
      while j < |ranges|
        invariant 0 <= j <= |ranges| && ranges == old(ranges)
        invariant RemoveLo(ranges, lo) == ranges[..j] + RemoveLo(ranges[j..], lo)
      {
        if ranges[j].lo == lo {
          RemoveHere(ranges, lo, j);
          ranges := ranges[..j] + ranges[j + 1..];
          return;
        }
        RemoveNext(ranges, lo, j);
        j := j + 1;
      }
    }

    /** clear_ranges */
    method Clear()
      modifies this
      ensures ranges == []
    {
      while ranges != []
        decreases |ranges|
      {
        ranges := ranges[1..];
      }
    }
  }
}
