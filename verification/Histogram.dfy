/** thread.c: the parallel histograms histo_1 to histo_4 as one transition system over arbitrary
    interleavings. Each addition to the global histogram under a semaphore is two steps, load and store;
    __sync_fetch_and_add is one. */
module Histogram {
  import opened Totals

  datatype Scheme = OneSemaphore | PerBucket | FetchAndAdd | LocalCounts

  /** DATA_SIZE = NTHREADS * STEP bytes of data and BUCKET_SIZE buckets, for one of the routines. */
  datatype Config = Config(data: seq<nat>, threads: nat, step: nat, buckets: nat, scheme: Scheme)

  ghost predicate ValidConfig(c: Config) {
    && c.buckets > 0 && |c.data| == c.threads * c.step
    && (c.scheme == LocalCounts ==> c.step % 4 == 0)
  }

  // ---------------------------------------------------------------- the histogram of a run of data

  /** The bucket of each item: its remainder modulo BUCKET_SIZE. */
  function Keys(data: seq<nat>, buckets: nat): (r: seq<nat>)
    requires buckets > 0
    ensures |r| == |data| && forall k :: 0 <= k < |r| ==> r[k] < buckets
  {
    seq(|data|, k requires 0 <= k < |data| => data[k] % buckets)
  }

  /** How many items of s are in bucket b. */
  function Count(s: seq<nat>, b: nat): nat {
    if s == [] then 0
    else Count(s[..|s| - 1], b) + if s[|s| - 1] == b then 1 else 0
  }

  lemma {:induction false} CountAppend(s: seq<nat>, t: seq<nat>, b: nat)
    ensures Count(s + t, b) == Count(s, b) + Count(t, b)
  {
    if t == [] {
      assert s + t == s;
    } else {
      assert (s + t)[..|s + t| - 1] == s + t[..|t| - 1];
      CountAppend(s, t[..|t| - 1], b);
    }
  }

  lemma CountNext(s: seq<nat>, q: nat, b: nat)
    requires q < |s|
    ensures Count(s[..q + 1], b) == Count(s[..q], b) + if s[q] == b then 1 else 0
  {
    assert s[..q + 1][..q] == s[..q];
  }

  lemma SliceFits(n: nat, step: nat, i: nat)
    requires i < n
    ensures i * step + step <= n * step && (i + 1) * step == i * step + step
  {
    assert (i + 1) * step <= n * step;
  }

  /** The buckets of the items of thread i, data[ind..ind+STEP]. */
  function Slice(c: Config, i: nat): (s: seq<nat>)
    requires ValidConfig(c) && i < c.threads
    ensures |s| == c.step && forall k :: 0 <= k < |s| ==> s[k] < c.buckets
  {
    SliceFits(c.threads, c.step, i);
    Keys(c.data, c.buckets)[i * c.step..i * c.step + c.step]
  }

  /** The sequential result. */
  function Sequential(data: seq<nat>, buckets: nat): seq<int>
    requires buckets > 0
  {
    seq(buckets, b requires b >= 0 => Count(Keys(data, buckets), b))
  }

  /** Each bucket counts the items whose remainder modulo BUCKET_SIZE is its number. */
  lemma SequentialMeans(data: seq<nat>, buckets: nat, b: nat)
    requires b < buckets
    ensures Sequential(data, buckets)[b] == |set k | 0 <= k < |data| && data[k] % buckets == b|
  {
    CountIsTally(data, buckets, b);
  }

  lemma AllSequential(data: seq<nat>, buckets: nat)
    requires buckets > 0
    ensures forall b :: 0 <= b < buckets ==>
              Sequential(data, buckets)[b] == |set k | 0 <= k < |data| && data[k] % buckets == b|
  {
    forall b | 0 <= b < buckets
      ensures Sequential(data, buckets)[b] == |set k | 0 <= k < |data| && data[k] % buckets == b|
    {
      SequentialMeans(data, buckets, b);
    }
  }

  lemma {:induction false} CountIsTally(data: seq<nat>, buckets: nat, b: nat)
    requires b < buckets
    ensures Count(Keys(data, buckets), b) == |set k | 0 <= k < |data| && data[k] % buckets == b|
  {
    var all := set k | 0 <= k < |data| && data[k] % buckets == b;
    if data == [] {
      assert all == {};
    } else {
      var n := |data| - 1;
      CountIsTally(data[..n], buckets, b);
      KeysNext(data, n, buckets, b);
      TallyNext(data, n, buckets, b);
    }
  }

  lemma KeysNext(data: seq<nat>, n: nat, buckets: nat, b: nat)
    requires b < buckets && |data| == n + 1
    ensures Count(Keys(data, buckets), b)
         == Count(Keys(data[..n], buckets), b) + if data[n] % buckets == b then 1 else 0
  {
    assert Keys(data, buckets)[..n] == Keys(data[..n], buckets);
  }

  lemma TallyNext(data: seq<nat>, n: nat, buckets: nat, b: nat)
    requires b < buckets && |data| == n + 1
    ensures |set k | 0 <= k < |data| && data[k] % buckets == b|
         == |set k | 0 <= k < |data[..n]| && data[..n][k] % buckets == b| + if data[n] % buckets == b then 1 else 0
  {
    var all := set k | 0 <= k < |data| && data[k] % buckets == b;
    var fewer := set k | 0 <= k < |data[..n]| && data[..n][k] % buckets == b;
    assert all == fewer + if data[n] % buckets == b then {n} else {};
    assert n !in fewer;
  }

  // ---------------------------------------------------------------- states

  /** Where a thread is: in the private counting loop of histo_4; at the head of its (merge) loop; or inside
      its section, before the load, the store or the sem_post. */
  datatype Pc = Counting | Ready | Entered | Loaded | Stored

  /** q is the loop index of the thread relative to its start. */
  datatype Thread = Thread(pc: Pc, q: nat, tmp: int, counts: seq<int>)

  datatype State = State(hist: seq<int>, sem: seq<int>, th: seq<Thread>)

  function Locks(c: Config): nat {
    match c.scheme
    case OneSemaphore => 1
    case PerBucket => c.buckets
    case FetchAndAdd => 0
    case LocalCounts => c.buckets
  }

  /** Iterations of the loop that touches the global histogram. */
  function Items(c: Config): nat {
    if c.scheme == LocalCounts then c.buckets else c.step
  }

  function Zeros(n: nat): seq<int> {
    seq(n, _ => 0)
  }

  function Start(c: Config): Thread {
    Thread(if c.scheme == LocalCounts then Counting else Ready, 0, 0, Zeros(c.buckets))
  }

  function Init(c: Config): State {
    State(Zeros(c.buckets), seq(Locks(c), _ => 1), seq(c.threads, _ => Start(c)))
  }

  predicate Inside(t: Thread) {
    t.pc == Entered || t.pc == Loaded || t.pc == Stored
  }

  predicate Done(c: Config, t: Thread) {
    t.pc == Ready && t.q >= Items(c)
  }

  predicate Finished(c: Config, s: State) {
    forall i :: 0 <= i < |s.th| ==> Done(c, s.th[i])
  }

  /** counts is the histogram of the data s. */
  ghost predicate Counted(c: Config, counts: seq<int>, s: seq<nat>) {
    |counts| == c.buckets && forall k :: 0 <= k < c.buckets ==> counts[k] == Count(s, k)
  }

  /** What holds of each thread on its own. */
  ghost predicate ThreadOk(c: Config, i: nat, t: Thread)
    requires ValidConfig(c) && i < c.threads
  {
    && |t.counts| == c.buckets
    && (t.pc == Counting ==> c.scheme == LocalCounts && t.q <= c.step && t.q % 4 == 0)
    && (t.pc != Counting ==> t.q <= Items(c))
    && (c.scheme == LocalCounts ==> Counted(c, t.counts, Slice(c, i)[..if t.pc == Counting then t.q else c.step]))
    && (Inside(t) ==> c.scheme != FetchAndAdd && t.q < Items(c))
  }

  /** The bucket the thread is at. */
  function Bucket(c: Config, i: nat, t: Thread): (b: nat)
    requires ValidConfig(c) && i < c.threads && t.q < Items(c)
    ensures b < c.buckets
  {
    if c.scheme == LocalCounts then t.q else Slice(c, i)[t.q]
  }

  /** The semaphore that guards it. */
  function Lock(c: Config, i: nat, t: Thread): (l: nat)
    requires ValidConfig(c) && i < c.threads && t.q < Items(c) && c.scheme != FetchAndAdd
    ensures l < Locks(c)
  {
    if c.scheme == OneSemaphore then 0 else Bucket(c, i, t)
  }

  /** What it adds there. */
  function Amount(c: Config, t: Thread): int
    requires t.q < Items(c) && |t.counts| == c.buckets
  {
    if c.scheme == LocalCounts then t.counts[t.q] else 1
  }

  /** Loop iterations whose store has been done. */
  function Merged(t: Thread): nat {
    if t.pc == Stored then t.q + 1 else t.q
  }

  // ---------------------------------------------------------------- steps

  ghost predicate ShapeOk(c: Config, s: State) {
    && ValidConfig(c) && |s.hist| == c.buckets && |s.sem| == Locks(c) && |s.th| == c.threads
    && forall i :: 0 <= i < c.threads ==> ThreadOk(c, i, s.th[i])
  }

  /** A thread can step unless it has finished or waits for a semaphore at 0. */
  ghost predicate Enabled(c: Config, s: State, i: nat)
    requires ShapeOk(c, s)
  {
    && i < c.threads && !Done(c, s.th[i])
    && (s.th[i].pc == Ready && c.scheme != FetchAndAdd ==> s.sem[Lock(c, i, s.th[i])] > 0)
  }

  /** One item more in bucket x of a thread's own counts. */
  function Bump(counts: seq<int>, x: nat): (r: seq<int>)
    requires x < |counts|
    ensures |r| == |counts|
  {
    counts[x := counts[x] + 1]
  }

  ghost function Step(c: Config, s: State, i: nat): State
    requires ShapeOk(c, s) && Enabled(c, s, i)
  {
    var t := s.th[i];
    match t.pc
    case Counting =>
      if t.q < c.step then
        var d := Slice(c, i);
        FourFit(t.q, c.step);
        var counts := Bump(Bump(Bump(Bump(t.counts, d[t.q]), d[t.q + 1]),
                                d[t.q + 2]), d[t.q + 3]);
        s.(th := s.th[i := t.(q := t.q + 4, counts := counts)])
      else s.(th := s.th[i := t.(pc := Ready, q := 0)])
    case Ready =>
      if c.scheme == FetchAndAdd then
        var b := Bucket(c, i, t);
        s.(hist := s.hist[b := s.hist[b] + 1], th := s.th[i := t.(q := t.q + 1)])
      else
        var l := Lock(c, i, t);
        s.(sem := s.sem[l := s.sem[l] - 1], th := s.th[i := t.(pc := Entered)])
    case Entered =>
      s.(th := s.th[i := t.(pc := Loaded, tmp := s.hist[Bucket(c, i, t)])])
    case Loaded =>
      s.(hist := s.hist[Bucket(c, i, t) := t.tmp + Amount(c, t)], th := s.th[i := t.(pc := Stored)])
    case Stored =>
      var l := Lock(c, i, t);
      s.(sem := s.sem[l := s.sem[l] + 1], th := s.th[i := t.(pc := Ready, q := t.q + 1)])
  }

  lemma FourFit(q: nat, step: nat)
    requires q % 4 == 0 && step % 4 == 0 && q < step
    ensures q + 4 <= step
  {
  }

  // ---------------------------------------------------------------- the invariant

  /** What thread i has added to bucket b so far. */
  ghost function Contribution(c: Config, i: nat, t: Thread, b: nat): int
    requires ValidConfig(c) && i < c.threads && ThreadOk(c, i, t)
  {
    if c.scheme == LocalCounts then
      if t.pc != Counting && b < Merged(t) then Count(Slice(c, i), b) else 0
    else Count(Slice(c, i)[..Merged(t)], b)
  }

  ghost function Contributions(c: Config, s: State, b: nat): nat -> int
    requires ShapeOk(c, s)
  {
    (k: nat) => if k < c.threads then Contribution(c, k, s.th[k], b) else 0
  }

  ghost predicate HoldsLock(c: Config, s: State, i: nat, l: nat)
    requires ShapeOk(c, s)
  {
    i < c.threads && Inside(s.th[i]) && Lock(c, i, s.th[i]) == l
  }

  ghost function Holders(c: Config, s: State, l: nat): nat -> int
    requires ShapeOk(c, s)
  {
    (k: nat) => if HoldsLock(c, s, k, l) then 1 else 0
  }

  /** Each semaphore is 0 or 1 and accounts for the threads inside; a loaded value is still current; and
      every bucket is the sum of what the threads have merged into it. */
  ghost predicate Inv(c: Config, s: State) {
    && ShapeOk(c, s)
    && (forall l :: 0 <= l < Locks(c) ==> s.sem[l] >= 0 && s.sem[l] + Total(Holders(c, s, l), c.threads) == 1)
    && (forall i :: 0 <= i < c.threads && s.th[i].pc == Loaded ==> s.th[i].tmp == s.hist[Bucket(c, i, s.th[i])])
    && (forall b :: 0 <= b < c.buckets ==> s.hist[b] == Total(Contributions(c, s, b), c.threads))
  }

  /** Two threads are never inside sections of the same semaphore. */
  lemma MutualExclusion(c: Config, s: State, i: nat, j: nat, l: nat)
    requires Inv(c, s) && HoldsLock(c, s, i, l) && HoldsLock(c, s, j, l)
    ensures i == j
  {
    if i < j {
      TotalTwo(Holders(c, s, l), i, j, c.threads);
    } else if j < i {
      TotalTwo(Holders(c, s, l), j, i, c.threads);
    }
  }

  /** In every reachable state a semaphore is 0 or 1, and 0 exactly when one thread is inside its section. */
  lemma SemaphoreMeaning(c: Config, s: State, l: nat)
    requires Inv(c, s) && l < Locks(c)
    ensures s.sem[l] == 0 || s.sem[l] == 1
    ensures s.sem[l] == 0 <==> exists i :: HoldsLock(c, s, i, l)
    ensures forall i, j :: HoldsLock(c, s, i, l) && HoldsLock(c, s, j, l) ==> i == j
  {
    TotalNonNegative(Holders(c, s, l), c.threads);
    if s.sem[l] == 0 {
      var i := TotalPositive(Holders(c, s, l), c.threads);
      assert HoldsLock(c, s, i, l);
    }
    if i :| HoldsLock(c, s, i, l) {
      TotalAtLeast(Holders(c, s, l), i, c.threads);
    }
    forall i, j | HoldsLock(c, s, i, l) && HoldsLock(c, s, j, l) ensures i == j {
      MutualExclusion(c, s, i, j, l);
    }
  }

  // ---------------------------------------------------------------- one step

  /** The thread after its step. */
  ghost function Stepped(c: Config, s: State, i: nat): Thread
    requires ShapeOk(c, s) && Enabled(c, s, i)
  {
    Step(c, s, i).th[i]
  }

  lemma BumpCounts(c: Config, counts: seq<int>, s: seq<nat>, q: nat)
    requires c.buckets > 0 && q < |s| && s[q] < c.buckets && Counted(c, counts, s[..q])
    ensures Counted(c, Bump(counts, s[q]), s[..q + 1])
  {
    forall k | 0 <= k < c.buckets
      ensures Bump(counts, s[q])[k] == Count(s[..q + 1], k)
    {
      CountNext(s, q, k);
    }
  }

  /** The unrolled loop body counts four items, once each. */
  lemma CountFour(c: Config, i: nat, t: Thread)
    requires ValidConfig(c) && i < c.threads && ThreadOk(c, i, t) && t.pc == Counting && t.q < c.step
    ensures t.q + 4 <= c.step
    ensures var d := Slice(c, i);
            Counted(c, Bump(Bump(Bump(Bump(t.counts, d[t.q]), d[t.q + 1]),
                                 d[t.q + 2]), d[t.q + 3]), d[..t.q + 4])
  {
    FourFit(t.q, c.step);
    var d := Slice(c, i);
    var c1 := Bump(t.counts, d[t.q]);
    BumpCounts(c, t.counts, d, t.q);
    var c2 := Bump(c1, d[t.q + 1]);
    BumpCounts(c, c1, d, t.q + 1);
    var c3 := Bump(c2, d[t.q + 2]);
    BumpCounts(c, c2, d, t.q + 2);
    BumpCounts(c, c3, d, t.q + 3);
  }

  lemma SteppedOk(c: Config, s: State, i: nat)
    requires ShapeOk(c, s) && Enabled(c, s, i)
    ensures |Step(c, s, i).th| == c.threads && ThreadOk(c, i, Stepped(c, s, i))
  {
    var t := s.th[i];
    assert ThreadOk(c, i, t);
    if t.pc == Counting {
      if t.q < c.step {
        CountFour(c, i, t);
      } else {
        assert Slice(c, i)[..t.q] == Slice(c, i)[..c.step];
      }
    }
  }

  lemma StepShape(c: Config, s: State, i: nat)
    requires ShapeOk(c, s) && Enabled(c, s, i)
    ensures ShapeOk(c, Step(c, s, i))
    ensures forall k :: 0 <= k < c.threads && k != i ==> Step(c, s, i).th[k] == s.th[k]
  {
    SteppedOk(c, s, i);
    var s' := Step(c, s, i);
    assert |s'.hist| == c.buckets && |s'.sem| == Locks(c);
    forall k | 0 <= k < c.threads ensures ThreadOk(c, k, s'.th[k]) {
      if k != i { assert s'.th[k] == s.th[k]; }
    }
  }

  /** The change a step makes to bucket b, in the histogram and in the thread's own contribution. */
  ghost function Added(c: Config, s: State, i: nat, b: nat): int
    requires ShapeOk(c, s) && Enabled(c, s, i)
  {
    var t := s.th[i];
    if t.pc == Loaded && b == Bucket(c, i, t) then Amount(c, t)
    else if t.pc == Ready && c.scheme == FetchAndAdd && b == Bucket(c, i, t) then 1
    else 0
  }

  lemma StepContribution(c: Config, s: State, i: nat, b: nat)
    requires ShapeOk(c, s) && Enabled(c, s, i) && b < c.buckets
    ensures ShapeOk(c, Step(c, s, i))
    ensures Contribution(c, i, Stepped(c, s, i), b) == Contribution(c, i, s.th[i], b) + Added(c, s, i, b)
  {
    StepShape(c, s, i);
    var t := s.th[i];
    if c.scheme != LocalCounts && t.q < c.step {
      CountNext(Slice(c, i), t.q, b);
    }
    assert Slice(c, i)[..c.step] == Slice(c, i);
  }

  lemma StepBuckets(c: Config, s: State, i: nat)
    requires Inv(c, s) && Enabled(c, s, i)
    ensures ShapeOk(c, Step(c, s, i))
    ensures forall b :: 0 <= b < c.buckets ==>
      Step(c, s, i).hist[b] == Total(Contributions(c, Step(c, s, i), b), c.threads)
  {
    StepShape(c, s, i);
    var s' := Step(c, s, i);
    forall b | 0 <= b < c.buckets ensures s'.hist[b] == Total(Contributions(c, s', b), c.threads) {
      StepContribution(c, s, i, b);
      TotalUpdate(Contributions(c, s, b), Contributions(c, s', b), i, c.threads);
    }
  }

  /** A step changes whether its own thread is inside, and by as much the semaphore. */
  lemma StepHolds(c: Config, s: State, i: nat, l: nat)
    requires Inv(c, s) && Enabled(c, s, i) && l < Locks(c)
    ensures ShapeOk(c, Step(c, s, i)) && Step(c, s, i).sem[l] >= 0
    ensures Step(c, s, i).sem[l] + Holders(c, Step(c, s, i), l)(i) == s.sem[l] + Holders(c, s, l)(i)
  {
    StepShape(c, s, i);
  }

  lemma StepSemaphore(c: Config, s: State, i: nat, l: nat)
    requires Inv(c, s) && Enabled(c, s, i) && l < Locks(c)
    ensures ShapeOk(c, Step(c, s, i)) && Step(c, s, i).sem[l] >= 0
    ensures Step(c, s, i).sem[l] + Total(Holders(c, Step(c, s, i), l), c.threads) == 1
  {
    StepHolds(c, s, i, l);
    var s' := Step(c, s, i);
    forall k: nat | k < c.threads && k != i ensures Holders(c, s', l)(k) == Holders(c, s, l)(k) {
      OthersHold(c, s, i, k, l);
    }
    TotalUpdate(Holders(c, s, l), Holders(c, s', l), i, c.threads);
  }

  lemma OthersHold(c: Config, s: State, i: nat, k: nat, l: nat)
    requires ShapeOk(c, s) && Enabled(c, s, i) && k < c.threads && k != i
    ensures ShapeOk(c, Step(c, s, i)) && HoldsLock(c, Step(c, s, i), k, l) == HoldsLock(c, s, k, l)
  {
    StepShape(c, s, i);
  }

  lemma StepSemaphores(c: Config, s: State, i: nat)
    requires Inv(c, s) && Enabled(c, s, i)
    ensures ShapeOk(c, Step(c, s, i))
    ensures forall l :: 0 <= l < Locks(c) ==>
      Step(c, s, i).sem[l] >= 0 && Step(c, s, i).sem[l] + Total(Holders(c, Step(c, s, i), l), c.threads) == 1
  {
    StepShape(c, s, i);
    forall l | 0 <= l < Locks(c)
      ensures Step(c, s, i).sem[l] >= 0 && Step(c, s, i).sem[l] + Total(Holders(c, Step(c, s, i), l), c.threads) == 1
    {
      StepSemaphore(c, s, i, l);
    }
  }

  /** A store by i never lands in the bucket another thread has loaded. */
  lemma StepLoaded(c: Config, s: State, i: nat, j: nat)
    requires Inv(c, s) && Enabled(c, s, i) && j < c.threads
    ensures ShapeOk(c, Step(c, s, i))
    ensures var s' := Step(c, s, i); s'.th[j].pc == Loaded ==> s'.th[j].tmp == s'.hist[Bucket(c, j, s'.th[j])]
  {
    StepShape(c, s, i);
    var t := s.th[j];
    if j != i && t.pc == Loaded && s.th[i].pc == Loaded && Bucket(c, i, s.th[i]) == Bucket(c, j, t) {
      MutualExclusion(c, s, i, j, Lock(c, j, t));
    }
  }

  lemma StepInv(c: Config, s: State, i: nat)
    requires Inv(c, s) && Enabled(c, s, i)
    ensures Inv(c, Step(c, s, i))
  {
    StepShape(c, s, i);
    StepSemaphores(c, s, i);
    StepBuckets(c, s, i);
    forall j | 0 <= j < c.threads && Step(c, s, i).th[j].pc == Loaded
      ensures Step(c, s, i).th[j].tmp == Step(c, s, i).hist[Bucket(c, j, Step(c, s, i).th[j])]
    {
      StepLoaded(c, s, i, j);
    }
  }

  lemma InitInv(c: Config)
    requires ValidConfig(c)
    ensures Inv(c, Init(c))
  {
    var s := Init(c);
    forall i | 0 <= i < c.threads ensures ThreadOk(c, i, s.th[i]) {
      assert Slice(c, i)[..0] == [];
    }
    forall l | 0 <= l < Locks(c) ensures s.sem[l] + Total(Holders(c, s, l), c.threads) == 1 {
      TotalZero(Holders(c, s, l), c.threads);
    }
    forall b | 0 <= b < c.buckets ensures s.hist[b] == Total(Contributions(c, s, b), c.threads) {
      forall k: nat | k < c.threads ensures Contributions(c, s, b)(k) == 0 {
        assert Slice(c, k)[..0] == [];
      }
      TotalZero(Contributions(c, s, b), c.threads);
    }
  }

  // ---------------------------------------------------------------- progress

  /** Steps thread i still has to take. */
  function Work(c: Config, t: Thread): int {
    var each := if c.scheme == FetchAndAdd then 1 else 4;
    if t.pc == Counting then (c.step - t.q) / 4 + 1 + each * Items(c)
    else each * (Items(c) - t.q)
         - match t.pc case Entered => 1 case Loaded => 2 case Stored => 3 case _ => 0
  }

  ghost function Works(c: Config, s: State): nat -> int
    requires ShapeOk(c, s)
  {
    (k: nat) => if k < c.threads then Work(c, s.th[k]) else 0
  }

  /** All steps still to be taken, by any schedule. */
  ghost function Measure(c: Config, s: State): int
    requires ShapeOk(c, s)
  {
    Total(Works(c, s), c.threads)
  }

  /** Every step takes exactly one unit off the remaining work. */
  lemma StepMeasure(c: Config, s: State, i: nat)
    requires ShapeOk(c, s) && Enabled(c, s, i)
    ensures ShapeOk(c, Step(c, s, i)) && Measure(c, Step(c, s, i)) == Measure(c, s) - 1
  {
    StepShape(c, s, i);
    var t := s.th[i];
    if t.pc == Counting && t.q < c.step { FourFit(t.q, c.step); }
    TotalUpdate(Works(c, s), Works(c, Step(c, s, i)), i, c.threads);
  }

  lemma MeasureNonNegative(c: Config, s: State)
    requires ShapeOk(c, s)
    ensures Measure(c, s) >= 0
    ensures Measure(c, s) == 0 <==> Finished(c, s)
  {
    TotalNonNegative(Works(c, s), c.threads);
    if Measure(c, s) == 0 {
      forall i | 0 <= i < |s.th| ensures Done(c, s.th[i]) {
        TotalAtLeast(Works(c, s), i, c.threads);
      }
    }
    if Finished(c, s) {
      TotalZero(Works(c, s), c.threads);
    }
  }

  /** No deadlock: while some thread has not finished, some thread can step. */
  lemma SomeThreadCanStep(c: Config, s: State) returns (i: nat)
    requires Inv(c, s) && !Finished(c, s)
    ensures Enabled(c, s, i)
  {
    i :| 0 <= i < |s.th| && !Done(c, s.th[i]);
    if !Enabled(c, s, i) {
      var l := Lock(c, i, s.th[i]);
      i := TotalPositive(Holders(c, s, l), c.threads);
    }
  }

  /** Where thread i is in the data: bucket and amount in the source's own terms. */
  lemma BucketMeans(c: Config, i: nat, t: Thread)
    requires ValidConfig(c) && i < c.threads && t.q < Items(c) && |t.counts| == c.buckets
    ensures c.scheme == LocalCounts ==> Bucket(c, i, t) == t.q && Amount(c, t) == t.counts[t.q]
    ensures c.scheme != LocalCounts ==> i * c.step + t.q < |c.data|
    ensures c.scheme != LocalCounts ==>
              Bucket(c, i, t) == c.data[i * c.step + t.q] % c.buckets && Amount(c, t) == 1
  {
    if c.scheme != LocalCounts {
      SliceFits(c.threads, c.step, i);
      ItemAt(c, i, t.q);
    }
  }

  lemma ItemAt(c: Config, i: nat, q: nat)
    requires ValidConfig(c) && i < c.threads && q < c.step && i * c.step + c.step <= |c.data|
    ensures Slice(c, i)[q] == c.data[i * c.step + q] % c.buckets
  {
  }

  /** A step writes the global histogram only at the thread's own bucket: the atomic increment of histo_3, or
      the store of what was loaded, plus the amount. */
  lemma StepWrites(c: Config, s: State, i: nat)
    requires ShapeOk(c, s) && Enabled(c, s, i)
    ensures var t, s' := s.th[i], Step(c, s, i);
            if t.pc == Loaded then s'.hist == s.hist[Bucket(c, i, t) := t.tmp + Amount(c, t)]
            else if t.pc == Ready && c.scheme == FetchAndAdd then
              s'.hist == s.hist[Bucket(c, i, t) := s.hist[Bucket(c, i, t)] + 1]
            else s'.hist == s.hist
  {
  }

  /** A thread at its sem_wait waits exactly while some thread is inside a section of the same semaphore. */
  lemma WaitsFor(c: Config, s: State, i: nat)
    requires Inv(c, s) && i < c.threads && s.th[i].pc == Ready && s.th[i].q < Items(c) && c.scheme != FetchAndAdd
    ensures !Enabled(c, s, i) <==> exists j :: HoldsLock(c, s, j, Lock(c, i, s.th[i]))
  {
    SemaphoreMeaning(c, s, Lock(c, i, s.th[i]));
  }

  /** Whose section shares a semaphore with thread i's. */
  lemma SharesLock(c: Config, s: State, i: nat, j: nat)
    requires ShapeOk(c, s) && i < c.threads && s.th[i].q < Items(c) && c.scheme != FetchAndAdd
    requires j < c.threads && Inside(s.th[j])
    ensures ThreadOk(c, j, s.th[j])
    ensures HoldsLock(c, s, j, Lock(c, i, s.th[i]))
       <==> c.scheme == OneSemaphore || Bucket(c, j, s.th[j]) == Bucket(c, i, s.th[i])
  {
    assert ThreadOk(c, j, s.th[j]);
  }

  /** histo_3 never waits. */
  lemma NeverBlocked(c: Config, s: State, i: nat)
    requires Inv(c, s) && i < c.threads && s.th[i].q < Items(c) && c.scheme == FetchAndAdd
    ensures Enabled(c, s, i)
  {
  }

  /** histo_1 waits exactly while some thread is inside. */
  lemma BlockedByAny(c: Config, s: State, i: nat)
    requires Inv(c, s) && i < c.threads && s.th[i].pc == Ready && s.th[i].q < Items(c) && c.scheme == OneSemaphore
    ensures !Enabled(c, s, i) <==> exists j :: 0 <= j < c.threads && Inside(s.th[j])
  {
    WaitsFor(c, s, i);
    if j :| 0 <= j < c.threads && Inside(s.th[j]) {
      SharesLock(c, s, i, j);
      assert HoldsLock(c, s, j, Lock(c, i, s.th[i]));
    }
    if !Enabled(c, s, i) {
      var j: nat :| HoldsLock(c, s, j, Lock(c, i, s.th[i]));
      assert 0 <= j < c.threads && Inside(s.th[j]);
    }
  }

  /** Thread j is inside its section, at bucket b. */
  ghost predicate InsideAt(c: Config, s: State, j: int, b: nat)
    requires ShapeOk(c, s)
  {
    0 <= j < c.threads && Inside(s.th[j]) && ThreadOk(c, j, s.th[j]) && Bucket(c, j, s.th[j]) == b
  }

  /** histo_2 and histo_4 wait exactly while some thread is inside at the same bucket. */
  lemma BlockedAtBucket(c: Config, s: State, i: nat)
    requires Inv(c, s) && i < c.threads && s.th[i].pc == Ready && s.th[i].q < Items(c)
    requires c.scheme == PerBucket || c.scheme == LocalCounts
    ensures !Enabled(c, s, i) <==> exists j :: InsideAt(c, s, j, Bucket(c, i, s.th[i]))
  {
    WaitsFor(c, s, i);
    if j :| InsideAt(c, s, j, Bucket(c, i, s.th[i])) {
      SharesLock(c, s, i, j);
      assert HoldsLock(c, s, j, Lock(c, i, s.th[i]));
    }
    if !Enabled(c, s, i) {
      var j: nat :| HoldsLock(c, s, j, Lock(c, i, s.th[i]));
      SharesLock(c, s, i, j);
      assert InsideAt(c, s, j, Bucket(c, i, s.th[i]));
    }
  }

  // ---------------------------------------------------------------- runs

  /** The schedule names the thread that steps next; it may only name threads that can. */
  ghost predicate Executable(c: Config, s: State, sched: seq<nat>)
    requires ShapeOk(c, s)
    decreases sched
  {
    sched == [] || (Enabled(c, s, sched[0])
                    && (StepShape(c, s, sched[0]); Executable(c, Step(c, s, sched[0]), sched[1..])))
  }

  ghost function Exec(c: Config, s: State, sched: seq<nat>): (r: State)
    requires ShapeOk(c, s) && Executable(c, s, sched)
    ensures ShapeOk(c, r)
    decreases sched
  {
    if sched == [] then s
    else
      StepShape(c, s, sched[0]);
      Exec(c, Step(c, s, sched[0]), sched[1..])
  }

  lemma {:induction false} ExecInv(c: Config, s: State, sched: seq<nat>)
    requires Inv(c, s) && Executable(c, s, sched)
    ensures Inv(c, Exec(c, s, sched))
    ensures |sched| + Measure(c, Exec(c, s, sched)) == Measure(c, s)
    decreases sched
  {
    if sched != [] {
      StepInv(c, s, sched[0]);
      StepMeasure(c, s, sched[0]);
      ExecInv(c, Step(c, s, sched[0]), sched[1..]);
    }
  }

  /** From every reachable state some schedule finishes. */
  lemma CompleteSchedule(c: Config, s: State) returns (sched: seq<nat>)
    requires Inv(c, s)
    ensures Executable(c, s, sched) && Finished(c, Exec(c, s, sched))
    decreases Measure(c, s)
  {
    MeasureNonNegative(c, s);
    if Finished(c, s) {
      sched := [];
    } else {
      var i := SomeThreadCanStep(c, s);
      StepInv(c, s, i);
      StepMeasure(c, s, i);
      MeasureNonNegative(c, Step(c, s, i));
      var rest := CompleteSchedule(c, Step(c, s, i));
      sched := [i] + rest;
      assert sched[1..] == rest;
    }
  }

  /** The slices of the threads make up the data: their counts add up to the sequential count. */
  lemma {:induction false} SlicesCover(keys: seq<nat>, step: nat, b: nat, n: nat, f: nat -> int)
    requires Offset(n, step) <= |keys|
    requires forall k: nat {:trigger f(k)} :: k < n ==> SliceCount(keys, step, b, k, f(k))
    ensures Total(f, n) == Count(keys[..Offset(n, step)], b)
    decreases n
  {
    if n > 0 {
      SlicesCover(keys, step, b, n - 1, f);
      assert SliceCount(keys, step, b, n - 1, f(n - 1));
      PrefixCount(keys, Offset(n - 1, step), step, b);
    }
  }

  /** v of the items of thread k are in bucket b. */
  ghost predicate SliceCount(keys: seq<nat>, step: nat, b: nat, k: nat, v: int) {
    Offset(k, step) + step <= |keys| && v == Count(keys[Offset(k, step)..Offset(k, step) + step], b)
  }

  /** n * step, by repeated addition. */
  function Offset(n: nat, step: nat): nat {
    if n == 0 then 0 else Offset(n - 1, step) + step
  }

  lemma OffsetIs(n: nat, step: nat)
    ensures Offset(n, step) == n * step
  {
    if n > 0 {
      OffsetIs(n - 1, step);
      assert n * step == (n - 1) * step + step;
    }
  }

  lemma SliceAt(c: Config, k: nat)
    requires ValidConfig(c) && k < c.threads
    ensures Offset(k, c.step) + c.step <= |c.data|
    ensures Slice(c, k) == Keys(c.data, c.buckets)[Offset(k, c.step)..Offset(k, c.step) + c.step]
  {
    OffsetIs(k, c.step);
    SliceFits(c.threads, c.step, k);
  }

  lemma PrefixCount(keys: seq<nat>, a: nat, step: nat, b: nat)
    requires a + step <= |keys|
    ensures Count(keys[..a + step], b) == Count(keys[..a], b) + Count(keys[a..a + step], b)
  {
    assert keys[..a + step] == keys[..a] + keys[a..a + step];
    CountAppend(keys[..a], keys[a..a + step], b);
  }

  lemma FinishedBucket(c: Config, s: State, b: nat)
    requires Inv(c, s) && Finished(c, s) && b < c.buckets
    ensures s.hist[b] == Count(Keys(c.data, c.buckets), b)
  {
    var keys, f := Keys(c.data, c.buckets), Contributions(c, s, b);
    forall k: nat | k < c.threads ensures SliceCount(keys, c.step, b, k, f(k)) {
      assert Done(c, s.th[k]) && ThreadOk(c, k, s.th[k]);
      assert Slice(c, k)[..c.step] == Slice(c, k);
      SliceAt(c, k);
    }
    OffsetIs(c.threads, c.step);
    SlicesCover(keys, c.step, b, c.threads, f);
    assert keys[..|keys|] == keys;
  }

  /** When every thread has finished, the histogram is the sequential one and every semaphore is back at 1. */
  lemma FinishedResult(c: Config, s: State)
    requires Inv(c, s) && Finished(c, s)
    ensures s.hist == Sequential(c.data, c.buckets)
    ensures forall b :: 0 <= b < c.buckets ==> s.hist[b] == |set k | 0 <= k < |c.data| && c.data[k] % c.buckets == b|
    ensures forall l :: 0 <= l < Locks(c) ==> s.sem[l] == 1
  {
    AllSequential(c.data, c.buckets);
    forall b | 0 <= b < c.buckets ensures s.hist[b] == Count(Keys(c.data, c.buckets), b) {
      FinishedBucket(c, s, b);
    }
    forall l | 0 <= l < Locks(c) ensures s.sem[l] == 1 {
      forall k: nat | k < c.threads ensures Holders(c, s, l)(k) == 0 {
        assert Done(c, s.th[k]);
      }
      TotalZero(Holders(c, s, l), c.threads);
    }
  }

  /** histo_1 to histo_4 under every interleaving of any number of threads: the run can always go on until
      all threads have finished; no schedule is longer than the work there is at the start, and a schedule
      has that length exactly when it finishes; and then the histogram is the sequential one. */
  lemma EveryInterleaving(c: Config, sched: seq<nat>)
    requires ValidConfig(c)
    ensures ShapeOk(c, Init(c))
    ensures Executable(c, Init(c), sched) ==>
      var s := Exec(c, Init(c), sched);
      && Inv(c, s)
      && |sched| <= Measure(c, Init(c))
      && (|sched| == Measure(c, Init(c)) <==> Finished(c, s))
      && (Finished(c, s) ==>
            && (forall b :: 0 <= b < c.buckets ==>
                  s.hist[b] == |set k | 0 <= k < |c.data| && c.data[k] % c.buckets == b|)
            && forall l :: 0 <= l < Locks(c) ==> s.sem[l] == 1)
      && (!Finished(c, s) ==> exists i :: Enabled(c, s, i))
  {
    InitInv(c);
    if Executable(c, Init(c), sched) {
      var s := Exec(c, Init(c), sched);
      ExecInv(c, Init(c), sched);
      MeasureNonNegative(c, s);
      if Finished(c, s) {
        FinishedResult(c, s);
      } else {
        var i := SomeThreadCanStep(c, s);
      }
    }
  }

  /** histo_4: at every moment bucket k holds the counts of exactly the threads that have merged it. */
  lemma MergedSoFar(c: Config, s: State, k: nat)
    requires Inv(c, s) && c.scheme == LocalCounts && k < c.buckets
    ensures s.hist[k] == Total((i: nat) =>
      if i < c.threads && s.th[i].pc != Counting && k < Merged(s.th[i]) then s.th[i].counts[k] else 0, c.threads)
  {
    var f := (i: nat) =>
      if i < c.threads && s.th[i].pc != Counting && k < Merged(s.th[i]) then s.th[i].counts[k] else 0;
    forall i: nat | i < c.threads ensures f(i) == Contributions(c, s, k)(i) {
      assert ThreadOk(c, i, s.th[i]);
      assert Slice(c, i)[..c.step] == Slice(c, i);
    }
    TotalSame(Contributions(c, s, k), f, c.threads);
  }

  // ---------------------------------------------------------------- range of the counters

  lemma CountAtMost(s: seq<nat>, q: nat, b: nat)
    requires q <= |s|
    ensures Count(s[..q], b) <= Count(s, b)
  {
    assert s == s[..q] + s[q..];
    CountAppend(s[..q], s[q..], b);
  }

  lemma CountIsAtMostLength(s: seq<nat>, b: nat)
    ensures Count(s, b) <= |s|
  {
  }

  lemma ContributionRange(c: Config, i: nat, t: Thread, b: nat)
    requires ValidConfig(c) && i < c.threads && ThreadOk(c, i, t)
    ensures 0 <= Contribution(c, i, t, b) <= Count(Slice(c, i), b)
  {
    if c.scheme != LocalCounts {
      CountAtMost(Slice(c, i), Merged(t), b);
    }
  }

  /** In every reachable state every counter lies between 0 and its final value, which is at most DATA_SIZE. */
  lemma CountersInRange(c: Config, s: State, b: nat)
    requires Inv(c, s) && b < c.buckets
    ensures 0 <= s.hist[b] <= Count(Keys(c.data, c.buckets), b) <= |c.data|
  {
    var keys, f := Keys(c.data, c.buckets), Contributions(c, s, b);
    var g := (k: nat) => if k < c.threads then Count(Slice(c, k), b) else 0;
    forall k: nat | k < c.threads ensures SliceCount(keys, c.step, b, k, g(k)) && 0 <= f(k) <= g(k) {
      SliceAt(c, k);
      ContributionRange(c, k, s.th[k], b);
    }
    OffsetIs(c.threads, c.step);
    SlicesCover(keys, c.step, b, c.threads, g);
    assert keys[..|keys|] == keys;
    TotalNonNegative(f, c.threads);
    TotalAtMost(f, g, c.threads);
    CountIsAtMostLength(keys, b);
  }
}
