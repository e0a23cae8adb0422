/** util.c and the sequential parts of thread.c: data generation, the reference buckets, histo_0, the reset
    between routines and the sum run_threads checks. */
module RunThreads {
  import opened Totals
  import opened Histogram

  /** Exclusive upper bound of the generated data. */
  const DATA_MAX: nat := 255

  /** Counts item x in its bucket. */
  method Increment(a: array<int>, x: nat, ghost s: seq<nat>, ghost base: seq<int>)
    requires a.Length > 0 && Above(a[..], base, s)
    modifies a
    ensures Above(a[..], base, s + [x])
  {
    ghost var was := a[..];
    a[x % a.Length] := a[x % a.Length] + 1;
    ghost var keys := Keys(s + [x], a.Length);
    assert keys[..|s|] == Keys(s, a.Length) && keys[..|s| + 1] == keys;
    forall b | 0 <= b < a.Length ensures a[..][b] == base[b] + Count(keys, b) {
      CountNext(keys, |s|, b);
      assert was[b] == base[b] + Count(Keys(s, a.Length), b);
    }
  }

  /** hist is base plus the histogram of s. */
  ghost predicate Above(hist: seq<int>, base: seq<int>, s: seq<nat>) {
    && |hist| > 0 && |hist| == |base|
    && forall b :: 0 <= b < |hist| ==> hist[b] == base[b] + Count(Keys(s, |hist|), b)
  }

  /** From all zeros that is the sequential histogram. */
  lemma AboveZero(hist: seq<int>, s: seq<nat>)
    requires Above(hist, Zeros(|hist|), s)
    ensures hist == Sequential(s, |hist|)
  {
  }

  /** histo_0: the whole data on thread 0, nothing on the others. */
  method Histo0(threadId: nat, data: seq<nat>, hist: array<int>)
    requires hist.Length > 0
    modifies hist
    ensures threadId == 0 ==> Above(hist[..], old(hist[..]), data)
    ensures threadId == 0 ==> forall b :: 0 <= b < hist.Length ==>
              hist[b] == old(hist[b]) + |set k | 0 <= k < |data| && data[k] % hist.Length == b|
    ensures threadId != 0 ==> hist[..] == old(hist[..])
  {
    if threadId == 0 {
      var j := 0;
      while j < |data|
        invariant 0 <= j <= |data| && Above(hist[..], old(hist[..]), data[..j])
      {
        assert data[..j + 1] == data[..j] + [data[j]];
        Increment(hist, data[j], data[..j], old(hist[..]));
        j := j + 1;
      }
      assert data[..|data|] == data;
      AllTallies(data, hist.Length);
      assert forall b :: 0 <= b < hist.Length ==> hist[b] == hist[..][b] && old(hist[b]) == old(hist[..])[b];
    }
  }

  /** Data generation: each item is a random number below DATA_MAX, and bucket counts them as it goes. */
  method Generate(rands: seq<nat>, data: array<nat>, bucket: array<int>)
    requires data.Length == |rands| && bucket.Length > 0
    requires forall b :: 0 <= b < bucket.Length ==> bucket[b] == 0
    modifies data, bucket
    ensures forall i :: 0 <= i < |rands| ==> data[i] == rands[i] % DATA_MAX
    ensures bucket[..] == Sequential(data[..], bucket.Length)
    ensures forall b :: 0 <= b < bucket.Length ==>
              bucket[b] == |set k | 0 <= k < |data[..]| && data[..][k] % bucket.Length == b|
  {
    var i := 0;
    ghost var zeros := Zeros(bucket.Length);
    assert bucket[..] == zeros;
    while i < |rands|
      invariant 0 <= i <= |rands|
      invariant forall k :: 0 <= k < i ==> data[k] == rands[k] % DATA_MAX
      invariant Above(bucket[..], zeros, data[..i])
    {
      var datum := rands[i] % DATA_MAX;
      data[i] := datum;
      assert data[..i + 1] == data[..i] + [datum];
      Increment(bucket, datum, data[..i], zeros);
      i := i + 1;
    }
    assert data[..|rands|] == data[..];
    AboveZero(bucket[..], data[..]);
    AllSequential(data[..], bucket.Length);
    assert forall b :: 0 <= b < bucket.Length ==> bucket[b] == bucket[..][b];
  }

  lemma AllTallies(data: seq<nat>, buckets: nat)
    requires buckets > 0
    ensures forall b :: 0 <= b < buckets ==>
              Count(Keys(data, buckets), b) == |set k | 0 <= k < |data| && data[k] % buckets == b|
  {
    forall b | 0 <= b < buckets
      ensures Count(Keys(data, buckets), b) == |set k | 0 <= k < |data| && data[k] % buckets == b|
    {
      CountIsTally(data, buckets, b);
    }
  }

  /** Clears every bucket. */
  method Reset(hist: array<int>)
    modifies hist
    ensures hist[..] == Zeros(hist.Length) && forall b :: 0 <= b < hist.Length ==> hist[b] == 0
  {
    var b := 0;
    while b < hist.Length
      invariant 0 <= b <= hist.Length && forall k :: 0 <= k < b ==> hist[k] == 0
    {
      hist[b] := 0;
      b := b + 1;
    }
  }

  function At(hist: seq<int>): nat -> int {
    (k: nat) => if k < |hist| then hist[k] else 0
  }

  /** The sum printHistogram returns. */
  method SumHistogram(hist: array<int>) returns (sum: int)
    ensures sum == Total(At(hist[..]), hist.Length)
  {
    sum := 0;
    var i := 0;
    while i < hist.Length
      invariant 0 <= i <= hist.Length && sum == Total(At(hist[..]), i)
    {
      sum := sum + hist[i];
      i := i + 1;
    }
  }

  /** The buckets of a histogram add up to the number of items. */
  lemma {:induction false} SumIsSize(keys: seq<nat>, buckets: nat, f: nat -> int)
    requires forall k :: 0 <= k < |keys| ==> keys[k] < buckets
    requires forall b: nat :: b < buckets ==> f(b) == Count(keys, b)
    ensures Total(f, buckets) == |keys|
  {
    if keys == [] {
      TotalZero(f, buckets);
    } else {
      var n := |keys| - 1;
      var g := (b: nat) => Count(keys[..n], b);
      SumIsSize(keys[..n], buckets, g);
      TotalUpdate(g, f, keys[n], buckets);
    }
  }

  /** The sum is DATA_SIZE after histo_0. */
  lemma SequentialFlag(data: seq<nat>, buckets: nat)
    requires buckets > 0
    ensures Total(At(Sequential(data, buckets)), buckets) == |data|
  {
    SumIsSize(Keys(data, buckets), buckets, At(Sequential(data, buckets)));
  }

  /** And it is DATA_SIZE after any finished run of histo_1 to histo_4: run_threads flags every routine correct. */
  lemma CorrectnessFlag(c: Config, s: State)
    requires Inv(c, s) && Finished(c, s)
    ensures Total(At(s.hist), c.buckets) == |c.data|
  {
    FinishedResult(c, s);
    SequentialFlag(c.data, c.buckets);
  }

  // ---------------------------------------------------------------- run_threads

  /** The thread routines: histo_0, and histo_1 to histo_4. */
  datatype Routine = Sequentially | InParallel(scheme: Scheme)

  /** thread_routine, in the order in which run_threads goes through it. */
  const ROUTINES: seq<Routine> := [Sequentially, InParallel(OneSemaphore), InParallel(PerBucket),
                                   InParallel(FetchAndAdd), InParallel(LocalCounts)]

  /** What outlives a routine: global_histogram, mutex and locks. */
  datatype Globals = Globals(hist: seq<int>, mutex: int, locks: seq<int>)

  /** As main initialises the semaphores. */
  ghost predicate SemaphoresUp(g: Globals, buckets: nat) {
    g.mutex == 1 && g.locks == seq(buckets, _ => 1)
  }

  /** The state in which the threads of a routine start. */
  function Spawn(c: Config, g: Globals): State {
    var sem := match c.scheme
               case OneSemaphore => [g.mutex]
               case FetchAndAdd => []
               case _ => g.locks;
    State(g.hist, sem, seq(c.threads, _ => Start(c)))
  }

  /** What they leave behind. */
  function Join(c: Config, g: Globals, s: State): Globals
    requires |s.sem| == Locks(c)
  {
    match c.scheme
    case OneSemaphore => Globals(s.hist, s.sem[0], g.locks)
    case FetchAndAdd => Globals(s.hist, g.mutex, g.locks)
    case _ => Globals(s.hist, g.mutex, s.sem)
  }

  /** With the histogram cleared and the semaphores up, a routine starts as if it were the first. */
  lemma SpawnIsInit(c: Config, g: Globals)
    requires ValidConfig(c) && SemaphoresUp(g, c.buckets)
    ensures Spawn(c, g.(hist := Zeros(c.buckets))) == Init(c)
  {
  }

  /** A complete schedule of the routine, for the threads of c. */
  ghost predicate Completes(c: Config, g: Globals, sched: seq<nat>) {
    && ValidConfig(c) && ShapeOk(c, Spawn(c, g)) && Executable(c, Spawn(c, g), sched)
    && Finished(c, Exec(c, Spawn(c, g), sched))
  }

  /** From the globals g, clearing the histogram and running routine r under sched leads to g2. */
  ghost predicate RoutineRuns(c: Config, r: Routine, g: Globals, sched: seq<nat>, g2: Globals)
    requires c.buckets > 0
  {
    var start := g.(hist := Zeros(c.buckets));
    match r
    case Sequentially => g2 == g.(hist := Sequential(c.data, c.buckets))
    case InParallel(scheme) =>
      var c' := c.(scheme := scheme);
      Completes(c', start, sched) && g2 == Join(c', start, Exec(c', Spawn(c', start), sched))
  }

  /** Each routine gives the sequential histogram and leaves the semaphores as it found them, whatever the
      interleaving; histo_0 does by Histo0 and AboveZero. */
  lemma RoutineResult(c: Config, r: Routine, g: Globals, sched: seq<nat>, g2: Globals)
    requires ValidConfig(c) && c.step % 4 == 0 && SemaphoresUp(g, c.buckets) && RoutineRuns(c, r, g, sched, g2)
    ensures g2.hist == Sequential(c.data, c.buckets) && SemaphoresUp(g2, c.buckets)
  {
    if r.InParallel? {
      var c' := c.(scheme := r.scheme);
      var start := g.(hist := Zeros(c.buckets));
      SpawnIsInit(c', g);
      InitInv(c');
      ExecInv(c', Init(c'), sched);
      var s := Exec(c', Init(c'), sched);
      FinishedResult(c', s);
      assert r.scheme == PerBucket || r.scheme == LocalCounts ==> s.sem == seq(c.buckets, _ => 1);
    }
  }

  /** However the globals are left, as long as the semaphores are up, every routine has a run. */
  lemma RoutineCanRun(c: Config, r: Routine, g: Globals) returns (sched: seq<nat>, g2: Globals)
    requires ValidConfig(c) && c.step % 4 == 0 && SemaphoresUp(g, c.buckets)
    ensures RoutineRuns(c, r, g, sched, g2)
  {
    if r.InParallel? {
      var c' := c.(scheme := r.scheme);
      var start := g.(hist := Zeros(c.buckets));
      SpawnIsInit(c', g);
      InitInv(c');
      sched := CompleteSchedule(c', Init(c'));
      g2 := Join(c', start, Exec(c', Init(c'), sched));
    } else {
      sched, g2 := [], g.(hist := Sequential(c.data, c.buckets));
    }
  }

  /** The globals before the first routine and after each of the routines rs. */
  ghost predicate RoutinesRun(c: Config, rs: seq<Routine>, scheds: seq<seq<nat>>, gs: seq<Globals>)
    requires c.buckets > 0
  {
    && |scheds| == |rs| && |gs| == |rs| + 1
    && forall k :: 0 <= k < |rs| ==> RoutineRuns(c, rs[k], gs[k], scheds[k], gs[k + 1])
  }

  lemma {:induction false} SemaphoresStayUp(c: Config, rs: seq<Routine>,
      scheds: seq<seq<nat>>, gs: seq<Globals>, k: nat)
    requires ValidConfig(c) && c.step % 4 == 0 && RoutinesRun(c, rs, scheds, gs)
    requires SemaphoresUp(gs[0], c.buckets) && k <= |rs|
    ensures SemaphoresUp(gs[k], c.buckets)
  {
    if k > 0 {
      SemaphoresStayUp(c, rs, scheds, gs, k - 1);
      assert RoutineRuns(c, rs[k - 1], gs[k - 1], scheds[k - 1], gs[k - 1 + 1]);
      RoutineResult(c, rs[k - 1], gs[k - 1], scheds[k - 1], gs[k]);
    }
  }

  /** run_threads: with the five routines one after another over the same semaphores, each under any complete
      interleaving, every sum is DATA_SIZE and every routine is flagged correct. */
  lemma AllFlagged(c: Config, scheds: seq<seq<nat>>, gs: seq<Globals>, k: nat)
    requires ValidConfig(c) && c.step % 4 == 0 && RoutinesRun(c, ROUTINES, scheds, gs)
    requires SemaphoresUp(gs[0], c.buckets) && k < 5
    ensures |gs[k + 1].hist| == c.buckets
    ensures var hist := gs[k + 1].hist;
            forall b :: 0 <= b < c.buckets ==>
              hist[b] == |set x | 0 <= x < |c.data| && c.data[x] % c.buckets == b|
    ensures Total(At(gs[k + 1].hist), c.buckets) == |c.data|
  {
    SemaphoresStayUp(c, ROUTINES, scheds, gs, k);
    assert RoutineRuns(c, ROUTINES[k], gs[k], scheds[k], gs[k + 1]);
    RoutineResult(c, ROUTINES[k], gs[k], scheds[k], gs[k + 1]);
    SequentialFlag(c.data, c.buckets);
    AllSequential(c.data, c.buckets);
  }
}
