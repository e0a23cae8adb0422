/** fcyc.c: the K-best sampler. A measured time is an arbitrary real. */
module Sampler {
  ghost predicate Sorted(s: seq<real>) {
    forall i, j :: 0 <= i < j < |s| ==> s[i] <= s[j]
  }

  /** v put into the sorted sequence a, behind its equals. */
  function Insert(a: seq<real>, v: real): (r: seq<real>)
    ensures |r| == |a| + 1
  {
    if a == [] || a[|a| - 1] <= v then a + [v]
    else Insert(a[..|a| - 1], v) + [a[|a| - 1]]
  }

  /** The K best of a stream of samples, as add_sample keeps them. */
  function Best(taken: seq<real>, k: nat): (r: seq<real>)
    ensures |r| == if |taken| < k then |taken| else k
  {
    if taken == [] then []
    else
      var b := Best(taken[..|taken| - 1], k);
      Insert(b, taken[|taken| - 1])[..if |taken| < k then |taken| else k]
  }

  /** s lists, in ascending order, min(|taken|, k) of the samples, and none left out is smaller. */
  ghost predicate KSmallest(s: seq<real>, taken: seq<real>, k: nat) {
    && Sorted(s) && |s| == (if |taken| < k then |taken| else k)
    && multiset(s) <= multiset(taken)
    && forall x, y :: x in s && y in multiset(taken) - multiset(s) ==> x <= y
  }

  lemma {:induction false} InsertMembers(a: seq<real>, v: real, i: nat)
    requires i <= |a|
    ensures Insert(a, v)[i] == v || Insert(a, v)[i] in a
    ensures multiset(Insert(a, v)) == multiset(a) + multiset{v}
  {
    var n := |a| - 1;
    if a != [] && a[n] > v {
      assert a == a[..n] + [a[n]];
      InsertMembers(a[..n], v, if i < |a| then i else 0);
    }
  }

  lemma {:induction false} InsertSorted(a: seq<real>, v: real)
    requires Sorted(a)
    ensures Sorted(Insert(a, v)) && multiset(Insert(a, v)) == multiset(a) + multiset{v}
  {
    InsertMembers(a, v, 0);
    if a != [] && a[|a| - 1] > v {
      var n := |a| - 1;
      var front := Insert(a[..n], v);
      InsertSorted(a[..n], v);
      forall i | 0 <= i < |front| ensures front[i] <= a[n] {
        InsertMembers(a[..n], v, i);
      }
      SortedSnoc(front, a[n]);
    } else {
      assert a != [] ==> a[|a| - 1] <= v;
      SortedSnoc(a, v);
    }
  }

  lemma SortedSnoc(a: seq<real>, v: real)
    requires Sorted(a) && (a == [] || a[|a| - 1] <= v)
    ensures Sorted(a + [v])
  {
  }

  /** Keeping k of a sorted sequence drops only elements at least as large. */
  lemma KeepSmallest(s: seq<real>, n: nat)
    requires Sorted(s) && n <= |s|
    ensures Sorted(s[..n]) && multiset(s) == multiset(s[..n]) + multiset(s[n..])
    ensures forall x, y :: x in s[..n] && y in s[n..] ==> x <= y
  {
    assert s == s[..n] + s[n..];
  }

  lemma {:induction false} BestIsKSmallest(taken: seq<real>, k: nat)
    ensures KSmallest(Best(taken, k), taken, k)
  {
    if taken != [] {
      var n := |taken| - 1;
      BestIsKSmallest(taken[..n], k);
      assert taken == taken[..n] + [taken[n]];
      KeepsKSmallest(Best(taken[..n], k), taken[..n], taken[n], k);
    }
  }

  /** add_sample's step: insert the new sample and keep at most k. */
  lemma KeepsKSmallest(b: seq<real>, taken: seq<real>, v: real, k: nat)
    requires KSmallest(b, taken, k)
    ensures var kept := if |taken| + 1 < k then |taken| + 1 else k;
            kept <= |b| + 1 && KSmallest(Insert(b, v)[..kept], taken + [v], k)
  {
    var all := Insert(b, v);
    var kept := if |taken| + 1 < k then |taken| + 1 else k;
    InsertSorted(b, v);
    KeepSmallest(all, kept);
    LeftOut(b, taken, v, kept);
    forall x, y | x in all[..kept] && y in multiset(taken + [v]) - multiset(all[..kept]) ensures x <= y {
      if y !in multiset(all[kept..]) {
        LeftOutIsLarge(b, v, taken, k, kept, x, y);
      }
    }
  }

  /** What is left out now was left out before or has just been dropped. */
  lemma LeftOut(b: seq<real>, taken: seq<real>, v: real, kept: nat)
    requires multiset(b) <= multiset(taken) && kept <= |b| + 1
    ensures var all := Insert(b, v);
            && multiset(all[..kept]) <= multiset(taken + [v])
            && multiset(taken + [v]) - multiset(all[..kept]) == multiset(all[kept..]) + (multiset(taken) - multiset(b))
  {
    var all := Insert(b, v);
    var left := multiset(taken) - multiset(b);
    KeptAndDropped(b, v, kept);
    OldAndNew(b, taken, v);
    MultisetMove(multiset(b), left, multiset{v}, multiset(all[..kept]), multiset(all[kept..]));
  }

  lemma KeptAndDropped(b: seq<real>, v: real, kept: nat)
    requires kept <= |b| + 1
    ensures multiset(Insert(b, v)[..kept]) + multiset(Insert(b, v)[kept..]) == multiset(b) + multiset{v}
  {
    var all := Insert(b, v);
    InsertMembers(b, v, 0);
    assert all == all[..kept] + all[kept..];
  }

  lemma OldAndNew(b: seq<real>, taken: seq<real>, v: real)
    requires multiset(b) <= multiset(taken)
    ensures multiset(taken + [v]) == multiset(b) + (multiset(taken) - multiset(b)) + multiset{v}
  {
    assert multiset(taken) == multiset(b) + (multiset(taken) - multiset(b));
  }

  lemma MultisetMove(b: multiset<real>, left: multiset<real>, v: multiset<real>,
      front: multiset<real>, back: multiset<real>)
    requires front + back == b + v
    ensures front <= b + left + v && (b + left + v) - front == back + left
  {
    forall x: real ensures (b + left + v)[x] == front[x] + back[x] + left[x] {
      assert (front + back)[x] == (b + v)[x];
    }
  }

  /** A sample left out before is no smaller than whatever is kept now. */
  lemma LeftOutIsLarge(b: seq<real>, v: real, taken: seq<real>, k: nat, kept: nat, x: real, y: real)
    requires KSmallest(b, taken, k) && kept == (if |taken| + 1 < k then |taken| + 1 else k) && kept <= |b| + 1
    requires x in Insert(b, v)[..kept] && y in multiset(taken) - multiset(b)
    ensures x <= y
  {
    var left := multiset(taken) - multiset(b);
    assert multiset(taken) == multiset(b) + left && |left| > 0;
    assert |b| == k == kept;
    var i :| 0 <= i < kept && Insert(b, v)[i] == x;
    InsertBelow(b, v, i);
    assert b[i] in b;
  }

  /** Insertion never raises an element: entry i is at most the old entry i. */
  lemma {:induction false} InsertBelow(a: seq<real>, v: real, i: nat)
    requires Sorted(a) && i < |a|
    ensures Insert(a, v)[i] <= a[i]
  {
    var n := |a| - 1;
    if a[n] > v && i < n {
      InsertBelow(a[..n], v, i);
    } else if a[n] > v {
      InsertSorted(a[..n], v);
      var w := Insert(a[..n], v)[n];
      assert w in multiset(a[..n]) + multiset{v};
    }
  }

  /** The K smallest are determined by the samples alone. */
  lemma KSmallestUnique(s: seq<real>, t: seq<real>, taken: seq<real>, k: nat)
    requires KSmallest(s, taken, k) && KSmallest(t, taken, k)
    ensures |s| == |t| && forall i :: 0 <= i < |s| ==> s[i] == t[i]
  {
    forall i | 0 <= i < |s| ensures s[i] == t[i] {
      NoneBelow(s, t, taken, k, i);
      NoneBelow(t, s, taken, k, i);
    }
  }

  lemma NoneBelow(s: seq<real>, t: seq<real>, taken: seq<real>, k: nat, i: nat)
    requires KSmallest(s, taken, k) && KSmallest(t, taken, k) && i < |s|
    ensures s[i] <= t[i]
  {
    if t[i] < s[i] {
      SmallerOnesFit(s, t, taken, k, i, i);
    }
  }

  /** If t[i] < s[p], the entries t[0..i] all have their place before p in s. */
  lemma SmallerOnesFit(s: seq<real>, t: seq<real>, taken: seq<real>, k: nat, i: nat, p: nat)
    requires KSmallest(s, taken, k) && KSmallest(t, taken, k) && i < |t| && p < |s| && t[i] < s[p]
    ensures i + 1 <= p
  {
    var low, front := t[..i + 1], s[..p];
    assert t == low + t[i + 1..];
    forall x: real ensures multiset(low)[x] <= multiset(front)[x] {
      if x in low { LowIsInFront(s, t, taken, k, i, p, x); }
    }
    assert multiset(front) == multiset(low) + (multiset(front) - multiset(low));
  }

  /** Of a value at most t[i] all samples are listed in s, and all before p. */
  lemma LowIsInFront(s: seq<real>, t: seq<real>, taken: seq<real>, k: nat, i: nat, p: nat, x: real)
    requires KSmallest(s, taken, k) && KSmallest(t, taken, k) && i < |t| && p < |s| && t[i] < s[p]
    requires x in t[..i + 1] && x < s[p]
    ensures multiset(t[..i + 1])[x] <= multiset(s[..p])[x]
  {
    assert s == s[..p] + s[p..] && t == t[..i + 1] + t[i + 1..];
    AllListed(s, taken, k, p, x);
    assert multiset(t)[x] <= multiset(taken)[x];
  }

  /** A value below s[p] is listed as often as it was sampled, and not from p on. */
  lemma AllListed(s: seq<real>, taken: seq<real>, k: nat, p: nat, x: real)
    requires KSmallest(s, taken, k) && p < |s| && x < s[p]
    ensures x !in s[p..] && multiset(taken)[x] <= multiset(s)[x]
  {
    assert s[p] in s;
    assert x !in multiset(taken) - multiset(s);
  }

  /** How the K best change with one more sample: the branches of add_sample. */
  lemma BestNext(taken: seq<real>, v: real, k: nat)
    requires k > 0
    ensures var b := Best(taken, k);
            Best(taken + [v], k) == if |taken| < k then Insert(b, v)
                                    else if v < b[k - 1] then Insert(b[..k - 1], v)
                                    else b
  {
    assert (taken + [v])[..|taken|] == taken;
    var b := Best(taken, k);
    if |taken| >= k {
      if v < b[k - 1] {
        assert Insert(b, v)[..k] == Insert(b[..k - 1], v);
      } else {
        assert Insert(b, v)[..k] == b;
      }
    } else {
      assert Insert(b, v)[..|taken| + 1] == Insert(b, v);
    }
  }

  /** vals is a with v sunk to pos, and then after; sinking it further gives Insert(a, v) + after. */
  ghost predicate Sinking(vals: seq<real>, a: seq<real>, v: real, after: seq<real>, pos: nat) {
    && pos <= |a| && vals == a[..pos] + [v] + a[pos..] + after
    && Insert(a, v) == Insert(a[..pos], v) + a[pos..]
  }

  lemma SinkStart(a: seq<real>, v: real, after: seq<real>)
    ensures Sinking(a + [v] + after, a, v, after, |a|)
  {
    assert a[..|a|] == a && a[|a|..] == [];
  }

  lemma SinkNext(vals: seq<real>, a: seq<real>, v: real, after: seq<real>, pos: nat)
    requires Sinking(vals, a, v, after, pos) && pos > 0 && vals[pos - 1] > v
    ensures vals[pos] == v && Sinking(vals[pos - 1 := v][pos := vals[pos - 1]], a, v, after, pos - 1)
  {
    assert a[..pos] == a[..pos - 1] + [a[pos - 1]] && a[pos - 1..] == [a[pos - 1]] + a[pos..];
  }

  lemma SinkEnd(vals: seq<real>, a: seq<real>, v: real, after: seq<real>, pos: nat)
    requires Sinking(vals, a, v, after, pos) && (pos == 0 || vals[pos - 1] <= vals[pos])
    ensures vals == Insert(a, v) + after
  {
    assert vals[pos] == v;
    if pos > 0 { assert vals[pos - 1] == a[..pos][pos - 1]; }
    assert Insert(a[..pos], v) == a[..pos] + [v];
    assert a[..pos] + [v] + a[pos..] + after == (a[..pos] + [v] + a[pos..]) + after;
  }

  // ---------------------------------------------------------------- the sampler

  class KBest {
    const kbest: nat
    const maxSamples: int
    const epsilon: real
    const values: array<real>
    var sampleCount: nat

    /** init_sampler */
    constructor (k: nat, max: int, eps: real)
      requires k > 0
      ensures kbest == k && maxSamples == max && epsilon == eps && Holds([]) && fresh(values)
    {
      kbest := k;
      maxSamples := max;
      epsilon := eps;
      values := new real[k](_ => 0.0);
      sampleCount := 0;
    }

    /** The valid part of values. */
    function Filled(): nat
      reads this
    {
      if sampleCount < kbest then sampleCount else kbest
    }

    /** The sampler has been given the samples taken, and holds the K best of them. */
    ghost predicate Holds(taken: seq<real>)
      reads this, values
    {
      && kbest > 0 && values.Length == kbest && sampleCount == |taken|
      && values[..Filled()] == Best(taken, kbest)
    }

    /** The loop of add_sample: values[pos] sinks to its place in the sorted entries before it. */
    method InsertionSort(pos0: nat)
      requires pos0 < values.Length && Sorted(values[..pos0])
      modifies values
      ensures values[..] == Insert(old(values[..pos0]), old(values[pos0])) + old(values[pos0 + 1..])
    {
      ghost var a, v, after := values[..pos0], values[pos0], values[pos0 + 1..];
      assert values[..] == a + [v] + after;
      SinkStart(a, v, after);
      var pos := pos0;
      while pos > 0 && values[pos - 1] > values[pos]
        invariant 0 <= pos <= pos0 && Sinking(values[..], a, v, after, pos)
      {
        ghost var vals := values[..];
        assert vals[pos - 1] == values[pos - 1] && vals[pos] == values[pos];
        SinkNext(vals, a, v, after, pos);
        SwapDown(pos);
        pos := pos - 1;
      }
      SinkEnd(values[..], a, v, after, pos);
    }

    method SwapDown(pos: nat)
      requires 0 < pos < values.Length
      modifies values
      ensures values[..] == old(values[..])[pos - 1 := old(values[pos])][pos := old(values[pos - 1])]
    {
      var temp := values[pos - 1];
      values[pos - 1] := values[pos];
      values[pos] := temp;
    }

    /** add_sample */
    method AddSample(val: real, ghost taken: seq<real>)
      requires Holds(taken)
      modifies this, values
      ensures Holds(taken + [val])
    {
      BestIsKSmallest(taken, kbest);
      var pos := Overwrite(val, taken);
      sampleCount := sampleCount + 1;
      InsertionSort(pos);
      BestNext(taken, val, kbest);
    }

    /** The first lines of add_sample: the new sample goes behind the others, or over the worst of K. */
    method Overwrite(val: real, ghost taken: seq<real>) returns (pos: nat)
      requires Holds(taken)
      modifies values
      ensures pos < values.Length
      ensures var b := Best(taken, kbest);
              if |taken| < kbest then pos == |taken| && values[..pos] == b && values[pos] == val
              else if val < b[kbest - 1] then pos == kbest - 1 && values[..pos] == b[..pos] && values[pos] == val
              else pos == 0 && values[..] == b
    {
      ghost var b := Best(taken, kbest);
      pos := 0;
      if sampleCount < kbest {
        pos := sampleCount;
        values[pos] := val;
      } else if val < values[kbest - 1] {
        pos := kbest - 1;
        values[pos] := val;
        assert values[..pos] == b[..pos];
      }
    }

    /** has_converged: there are K samples, and the K smallest all lie within (1 + epsilon) times the least. */
    method HasConverged(ghost taken: seq<real>) returns (r: bool)
      requires Holds(taken)
      ensures r == Converged(taken, kbest, epsilon)
      ensures r ==> kbest <= |taken|
      ensures r ==> forall s, x :: KSmallest(s, taken, kbest) && x in s ==> x <= (1.0 + epsilon) * s[0]
      ensures !r ==> |taken| < kbest || Spread(taken, kbest, epsilon)
    {
      r := TestConverged(taken);
      if r { ConvergedMeans(taken, kbest, epsilon); } else { NotConvergedMeans(taken, kbest, epsilon); }
    }

    method TestConverged(ghost taken: seq<real>) returns (r: bool)
      requires Holds(taken)
      ensures r == Converged(taken, kbest, epsilon)
    {
      assert sampleCount >= kbest ==> values[..kbest] == Best(taken, kbest);
      r := sampleCount >= kbest && (1.0 + epsilon) * values[0] >= values[kbest - 1];
    }

    /** One turn of the do-while loop of fcyc: measure, add, and test. */
    method Turn(samples: nat -> real, n: nat) returns (stop: bool)
      requires Holds(First(samples, n))
      modifies this, values
      ensures Holds(First(samples, n + 1))
      ensures stop == Converged(First(samples, n + 1), kbest, epsilon)
    {
      AddSample(samples(n), First(samples, n));
      stop := HasConverged(First(samples, n + 1));
    }

    /** The loop of fcyc does not stop after m samples. */
    ghost predicate GoesOn(samples: nat -> real, m: nat)
      requires kbest > 0
    {
      m < maxSamples && !Converged(First(samples, m), kbest, epsilon)
    }

    /** The sampler after n samples, none before the last having ended the loop. */
    ghost predicate After(samples: nat -> real, n: nat)
      reads this, values
    {
      && 1 <= n && (n <= maxSamples || n == 1) && Holds(First(samples, n))
      && forall m :: 1 <= m < n ==> GoesOn(samples, m)
    }

    /** After n samples the test of the loop says stop. */
    ghost predicate AtTurn(samples: nat -> real, n: nat, stop: bool)
      reads this, values
    {
      After(samples, n) && sampleCount == n && stop == Converged(First(samples, n), kbest, epsilon)
    }

    method FirstTurn(samples: nat -> real) returns (stop: bool)
      requires Holds([])
      modifies this, values
      ensures AtTurn(samples, 1, stop)
    {
      assert First(samples, 0) == [];
      stop := Turn(samples, 0);
    }

    method NextTurn(samples: nat -> real, n: nat) returns (stop: bool)
      requires AtTurn(samples, n, false) && n < maxSamples
      modifies this, values
      ensures AtTurn(samples, n + 1, stop)
    {
      assert GoesOn(samples, n);
      stop := Turn(samples, n);
    }

    /** fcyc: the do-while loop over samples(0), samples(1), ... stops at the first sample count, at least 1,
        at which the K best have converged or maxsamples is reached; the result is the least sample taken. */
    method Fcyc(samples: nat -> real) returns (result: real, n: nat)
      requires Holds([])
      modifies this, values
      ensures 1 <= n && (n <= maxSamples || n == 1)
      ensures n < maxSamples ==> kbest <= n
      ensures n < maxSamples ==> Close(First(samples, n), kbest, epsilon, result)
      ensures forall m :: 1 <= m < n ==> m < kbest || Spread(First(samples, m), kbest, epsilon)
      ensures result in First(samples, n) && forall x :: x in First(samples, n) ==> result <= x
      ensures Holds(First(samples, n))
    {
      n := TakeSamples(samples);
      result := Least(First(samples, n));
      if n < maxSamples { StoppedMeans(First(samples, n), kbest, epsilon, result); }
      WentOn(samples, n);
    }

    /** The do-while loop. */
    method TakeSamples(samples: nat -> real) returns (n: nat)
      requires Holds([])
      modifies this, values
      ensures After(samples, n) && (n < maxSamples ==> AtTurn(samples, n, true))
    {
      n := 1;
      var stop := FirstTurn(samples);
      while !stop && sampleCount < maxSamples
        invariant AtTurn(samples, n, stop)
        decreases maxSamples - n
      {
        stop := NextTurn(samples, n);
        n := n + 1;
      }
    }

    lemma WentOn(samples: nat -> real, n: nat)
      requires kbest > 0 && forall m :: 1 <= m < n ==> GoesOn(samples, m)
      ensures forall m :: 1 <= m < n ==> m < kbest || Spread(First(samples, m), kbest, epsilon)
    {
      forall m | 1 <= m < n ensures m < kbest || Spread(First(samples, m), kbest, epsilon) {
        assert GoesOn(samples, m);
        NotConvergedMeans(First(samples, m), kbest, epsilon);
      }
    }

    /** values[0] */
    method Least(ghost taken: seq<real>) returns (result: real)
      requires Holds(taken) && taken != []
      ensures result in taken && forall x :: x in taken ==> result <= x
    {
      result := values[0];
      BestIsLeast(taken, kbest);
      assert values[..Filled()][0] == values[0];
    }
  }

  /** The first n samples of a stream. */
  function First(samples: nat -> real, n: nat): (r: seq<real>)
    ensures |r| == n
  {
    if n == 0 then [] else First(samples, n - 1) + [samples(n - 1)]
  }

  lemma FirstAt(samples: nat -> real, n: nat, i: nat)
    requires i < n
    ensures First(samples, n)[i] == samples(i)
  {
  }

  /** The K best all lie within a factor 1 + epsilon of the least. */
  ghost predicate Converged(taken: seq<real>, k: nat, eps: real)
    requires k > 0
  {
    |taken| >= k && (1.0 + eps) * Best(taken, k)[0] >= Best(taken, k)[k - 1]
  }

  /** All of the K smallest are at most (1 + eps) times least. */
  ghost predicate Close(taken: seq<real>, k: nat, eps: real, least: real) {
    forall s, x :: KSmallest(s, taken, k) && x in s ==> x <= (1.0 + eps) * least
  }

  /** Some of the K smallest is more than (1 + eps) times the least of them. */
  ghost predicate Spread(taken: seq<real>, k: nat, eps: real) {
    exists s, x :: KSmallest(s, taken, k) && x in s && x > (1.0 + eps) * s[0]
  }

  lemma CloseMeans(taken: seq<real>, k: nat, eps: real, least: real, s: seq<real>, x: real)
    requires Close(taken, k, eps, least) && KSmallest(s, taken, k) && x in s
    ensures x <= (1.0 + eps) * least
  {
  }

  lemma SpreadMeans(taken: seq<real>, k: nat, eps: real)
    requires Spread(taken, k, eps)
    ensures exists s, x :: KSmallest(s, taken, k) && x in s && x > (1.0 + eps) * s[0]
  {
  }

  lemma BestWithin(s: seq<real>, taken: seq<real>, k: nat, bound: real, x: real)
    requires k > 0 && |taken| >= k && KSmallest(s, taken, k) && x in s && Best(taken, k)[k - 1] <= bound
    ensures x <= bound
  {
    OnlyBest(s, taken, k);
    BestIsKSmallest(taken, k);
    AllBelow(Best(taken, k), bound);
  }

  /** ... which is to say each of the K smallest does, the K smallest being determined by the samples. */
  lemma ConvergedMeans(taken: seq<real>, k: nat, eps: real)
    requires k > 0 && Converged(taken, k, eps)
    ensures k <= |taken|
    ensures forall s, x :: KSmallest(s, taken, k) && x in s ==> x <= (1.0 + eps) * s[0]
  {
    var bound := (1.0 + eps) * Best(taken, k)[0];
    forall s, x | KSmallest(s, taken, k) && x in s ensures x <= (1.0 + eps) * s[0] {
      BestWithin(s, taken, k, bound, x);
      OnlyBest(s, taken, k);
    }
  }

  lemma NotConvergedMeans(taken: seq<real>, k: nat, eps: real)
    requires k > 0 && !Converged(taken, k, eps)
    ensures |taken| < k || Spread(taken, k, eps)
  {
    if |taken| >= k {
      var b := Best(taken, k);
      BestIsKSmallest(taken, k);
      assert KSmallest(b, taken, k) && b[k - 1] in b && b[k - 1] > (1.0 + eps) * b[0];
    }
  }

  /** ... and the least of them is the least sample. */
  lemma StoppedMeans(taken: seq<real>, k: nat, eps: real, least: real)
    requires k > 0 && Converged(taken, k, eps)
    requires least in taken && forall x :: x in taken ==> least <= x
    ensures k <= |taken|
    ensures Close(taken, k, eps, least)
  {
    BestIsLeast(taken, k);
    assert Best(taken, k)[0] == least;
    forall s, x | KSmallest(s, taken, k) && x in s ensures x <= (1.0 + eps) * least {
      BestWithin(s, taken, k, (1.0 + eps) * least, x);
    }
  }

  lemma OnlyBest(s: seq<real>, taken: seq<real>, k: nat)
    requires KSmallest(s, taken, k)
    ensures s == Best(taken, k)
  {
    BestIsKSmallest(taken, k);
    KSmallestUnique(s, Best(taken, k), taken, k);
  }

  lemma AllBelow(b: seq<real>, bound: real)
    requires Sorted(b) && b != []
    ensures b[|b| - 1] <= bound <==> forall x :: x in b ==> x <= bound
  {
    assert b[|b| - 1] in b;
  }

  /** The first of the K best is the least sample. */
  lemma BestIsLeast(taken: seq<real>, k: nat)
    requires k > 0 && taken != []
    ensures Best(taken, k)[0] in taken && forall x :: x in taken ==> Best(taken, k)[0] <= x
  {
    BestIsKSmallest(taken, k);
    var b := Best(taken, k);
    assert b[0] in multiset(b);
    forall x | x in taken ensures b[0] <= x {
      if x in b {
        var j :| 0 <= j < |b| && b[j] == x;
      } else {
        assert b[0] in b && x in multiset(taken) - multiset(b);
      }
    }
  }
}
