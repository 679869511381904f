/** The parallel loop of the blocked driver: threads take their pointers from the IO chain and
    then store their blocks into one shared buffer, a store at a time and interleaved in any
    way. Whatever the schedule, the buffer ends as the serial loop leaves it. */
module ParallelBlocks {
  import opened IoChain
  import opened IoChainSafety
  import opened IoChainTheorems
  import opened IoChainSolo
  import B = BlockedRuns
  import R = Regions

  /** How one block of w places is processed: store number m turns what the block's part of the
      output holds into something else, given the input block. */
  datatype Job<!T> = Job(w: nat, stores: nat, store: (nat, seq<T>, seq<T>) -> seq<T>)

  /** No store changes the length. */
  ghost predicate Sized<T(!new)>(job: Job<T>) {
    forall m: nat, u: seq<T>, v: seq<T> {:trigger job.store(m, u, v)} :: |v| == job.w ==> |job.store(m, u, v)| == job.w
  }

  /** The part of the output after m stores. */
  ghost function After<T(!new)>(job: Job<T>, u: seq<T>, v: seq<T>, m: nat): (r: seq<T>)
    requires Sized(job) && |v| == job.w
    ensures |r| == job.w
  {
    if m == 0 then v else job.store(m - 1, u, After(job, u, v, m - 1))
  }

  /** All stores together leave g of the input block, whatever was there before. */
  ghost predicate Computes<T(!new)>(job: Job<T>, g: B.Work<T>) {
    && Sized(job) && B.Keeps(g, job.w)
    && forall u: seq<T>, v: seq<T> {:trigger After(job, u, v, job.stores)} ::
         |u| == job.w && |v| == job.w ==> After(job, u, v, job.stores) == g(u)
  }

  /** The job that stores a block one place after the other. */
  function OneByOne<T>(g: B.Work<T>, w: nat): (job: Job<T>) {
    Job(w, w, (m: nat, u: seq<T>, v: seq<T>) => if m < |g(u)| && m < |v| then v[m := g(u)[m]] else v)
  }

  lemma {:induction false} OneByOneAfter<T(!new)>(g: B.Work<T>, w: nat, u: seq<T>, v: seq<T>, m: nat)
    requires B.Keeps(g, w) && |u| == w && |v| == w && m <= w
    ensures After(OneByOne(g, w), u, v, m) == g(u)[..m] + v[m..]
  {
    if m > 0 {
      OneByOneAfter(g, w, u, v, m - 1);
    }
  }

  /** It computes the block, so the theorems below cover threads whose single stores interleave. */
  lemma OneByOneComputes<T(!new)>(g: B.Work<T>, w: nat)
    requires B.Keeps(g, w)
    ensures Computes(OneByOne(g, w), g)
  {
    var job := OneByOne(g, w);
    forall u: seq<T>, v: seq<T> | |u| == w && |v| == w
      ensures After(job, u, v, job.stores) == g(u)
    {
      OneByOneAfter(g, w, u, v, w);
    }
  }

  /** The chain, the shared output, how many stores each thread has made in its present block,
      and the bytes counted by the reduction. */
  datatype World<T> = World(chain: State, mem: seq<T>, made: seq<nat>, count: nat)

  /** Iteration k moves both pointers by w. */
  function Chain(total: nat, w: nat): Config {
    Config(total, 0, 0, (k: nat) => w, (k: nat) => w)
  }

  lemma {:induction false} ChainPointers(total: nat, w: nat, k: nat)
    ensures InOf(Chain(total, w), k) == B.Off(k, w) && OutOf(Chain(total, w), k) == B.Off(k, w)
  {
    if k > 0 {
      ChainPointers(total, w, k - 1);
    }
  }

  predicate Start<T>(x: World<T>) {
    |x.made| == |x.chain.threads| && (forall t :: 0 <= t < |x.made| ==> x.made[t] == 0) && x.count == 0
  }

  /** Thread t is in the middle of its block. */
  predicate Storing<T>(job: Job<T>, x: World<T>, t: nat) {
    t < |x.chain.threads| && t < |x.made| && x.chain.threads[t].pc == Work && x.made[t] < job.stores
  }

  predicate CanMove<T>(job: Job<T>, x: World<T>, t: nat)
    requires Shape(x.chain)
  {
    Storing(job, x, t) || CanStep(x.chain, t)
  }

  /** One store of thread t, at its own pointers. */
  function StoreBy<T>(job: Job<T>, inp: seq<T>, x: World<T>, t: nat): seq<T>
    requires Storing(job, x, t)
  {
    var p, q := x.chain.threads[t].inPtr, x.chain.threads[t].outPtr;
    if 0 <= p && p + job.w <= |inp| && 0 <= q && q + job.w <= |x.mem| then
      x.mem[..q] + job.store(x.made[t], inp[p..p + job.w], x.mem[q..q + job.w]) + x.mem[q + job.w..]
    else x.mem
  }

  /** A turn of thread t: a store, or a step on the chain; leaving a block counts its bytes. */
  function Move<T>(job: Job<T>, inp: seq<T>, c: Config, x: World<T>, t: nat): (y: World<T>)
    requires Shape(x.chain) && CanMove(job, x, t) && |x.made| == |x.chain.threads|
    ensures Shape(y.chain) && |y.made| == |y.chain.threads|
  {
    if Storing(job, x, t) then
      World(x.chain, StoreBy(job, inp, x, t), x.made[t := x.made[t] + 1], x.count)
    else
      World(Step(c, x.chain, t), x.mem, x.made[t := 0],
            if x.chain.threads[t].pc == Work then x.count + job.w else x.count)
  }

  ghost function Moves<T>(job: Job<T>, inp: seq<T>, c: Config, x: World<T>, sched: seq<nat>): (y: World<T>)
    requires Shape(x.chain) && |x.made| == |x.chain.threads|
    ensures Shape(y.chain) && |y.made| == |y.chain.threads|
  {
    if sched == [] then x
    else
      var m, t := Moves(job, inp, c, x, sched[..|sched| - 1]), sched[|sched| - 1];
      if CanMove(job, m, t) then Move(job, inp, c, m, t) else m
  }

  // ---------------------------------------------------------------------------
  // Progress of the iterations
  // ---------------------------------------------------------------------------

  /** The stores made for iteration k, which is at phase ph[k] and run by thread runner[k]. */
  ghost function Progress(ph: seq<nat>, runner: seq<nat>, made: seq<nat>, n: nat, k: nat): nat
    requires |ph| == |runner| && forall i :: 0 <= i < |runner| ==> runner[i] < |made|
  {
    if k >= |ph| then 0
    else if ph[k] == FINISHED then n
    else if ph[k] == 17 then made[runner[k]]
    else 0
  }

  /** Threads count stores only inside a block. */
  ghost predicate Counted(s: State, made: seq<nat>, n: nat) {
    && |made| == |s.threads|
    && forall t :: 0 <= t < |made| ==> made[t] <= n && (s.threads[t].pc != Work ==> made[t] == 0)
  }

  lemma MoveProgress(ph: seq<nat>, runner: seq<nat>, made: seq<nat>, n: nat, i: nat, t: nat, k: nat)
    requires |ph| == |runner| && (forall j :: 0 <= j < |runner| ==> runner[j] < |made|) && i < |ph| && runner[i] == t
    requires ph[i] < FINISHED && made[t] == if ph[i] == 17 then n else 0
    requires k < |ph| && k != i && ph[k] == 17 ==> runner[k] != t
    ensures Progress(ph[i := ph[i] + 1], runner, made[t := 0], n, k) == Progress(ph, runner, made, n, k)
  {
  }

  /** The runner of an iteration in its block runs no other. */
  lemma RunnerIsBusy(s: State, k: nat)
    requires Numbered(s) && k < s.next && Phase(s, k) < FINISHED
    ensures s.threads[s.runner[k]].iter == k && Rank(s.threads[s.runner[k]].pc) == Phase(s, k)
  {
  }

  lemma EntryProgress(c: Config, s: State, t: nat, made: seq<nat>, n: nat, k: nat)
    requires Numbered(s) && CanStep(s, t) && Counted(s, made, n) && Rank(s.threads[t].pc) < 3
    ensures Numbered(Step(c, s, t))
    ensures Progress(Phases(Step(c, s, t)), Step(c, s, t).runner, made[t := 0], n, k)
         == Progress(Phases(s), s.runner, made, n, k)
  {
    EntryPhases(s, Step(c, s, t), t, ThreadAfter(s, t));
    assert made[t := 0] == made;
  }

  lemma BumpProgress(c: Config, s: State, t: nat, made: seq<nat>, n: nat, k: nat)
    requires Numbered(s) && NextLock(s) && CanStep(s, t) && Counted(s, made, n) && s.threads[t].pc == BumpNext
    ensures Numbered(Step(c, s, t))
    ensures Progress(Phases(Step(c, s, t)), Step(c, s, t).runner, made[t := 0], n, k)
         == Progress(Phases(s), s.runner, made, n, k)
  {
    BumpPhases(s, Step(c, s, t), t, ThreadAfter(s, t));
    assert made[t := 0] == made;
  }

  lemma RunningProgress(c: Config, s: State, t: nat, made: seq<nat>, n: nat, k: nat)
    requires Numbered(s) && CanStep(s, t) && Counted(s, made, n) && Rank(s.threads[t].pc) >= 4
    requires s.threads[t].pc == Work ==> made[t] == n
    ensures Numbered(Step(c, s, t))
    ensures Progress(Phases(Step(c, s, t)), Step(c, s, t).runner, made[t := 0], n, k)
         == Progress(Phases(s), s.runner, made, n, k)
  {
    var th := ThreadAfter(s, t);
    MovePhases(s, Step(c, s, t), t, th);
    if k < s.next && k != th.iter && Phases(s)[k] == 17 {
      RunnerIsBusy(s, k);
    }
    MoveProgress(Phases(s), s.runner, made, n, th.iter, t, k);
  }

  /** A step on the chain, outside a block or at its end, is no progress in any block. */
  lemma ChainStepProgress(c: Config, s: State, t: nat, made: seq<nat>, n: nat, k: nat)
    requires Inv(c, s) && CanStep(s, t) && Counted(s, made, n) && (s.threads[t].pc == Work ==> made[t] == n)
    ensures Numbered(Step(c, s, t))
    ensures Progress(Phases(Step(c, s, t)), Step(c, s, t).runner, made[t := 0], n, k)
         == Progress(Phases(s), s.runner, made, n, k)
  {
    if Rank(s.threads[t].pc) < 3 {
      EntryProgress(c, s, t, made, n, k);
    } else if s.threads[t].pc == BumpNext {
      BumpProgress(c, s, t, made, n, k);
    } else {
      RunningProgress(c, s, t, made, n, k);
    }
  }

  lemma ChainStepCounted(c: Config, s: State, t: nat, made: seq<nat>, n: nat)
    requires Shape(s) && CanStep(s, t) && Counted(s, made, n)
    ensures Counted(Step(c, s, t), made[t := 0], n)
  {
  }

  /** A store in the block of iteration i is progress in that block only. */
  lemma StoreProgress(ph: seq<nat>, runner: seq<nat>, made: seq<nat>, n: nat, i: nat, t: nat, k: nat)
    requires |ph| == |runner| && (forall j :: 0 <= j < |runner| ==> runner[j] < |made|) && i < |ph| && runner[i] == t
    requires ph[i] == 17 && (k < |ph| && k != i && ph[k] == 17 ==> runner[k] != t)
    ensures Progress(ph, runner, made[t := made[t] + 1], n, k)
         == Progress(ph, runner, made, n, k) + if k == i then 1 else 0
  {
  }

  // ---------------------------------------------------------------------------
  // The shared output
  // ---------------------------------------------------------------------------

  /** The total blocks of w places fit. */
  ghost predicate Fits(n: nat, total: nat, w: nat) {
    B.Off(total, w) <= n
  }

  /** Part k of a buffer. */
  ghost function Part<T>(s: seq<T>, total: nat, w: nat, k: nat): (u: seq<T>)
    requires Fits(|s|, total, w) && k < total
    ensures |u| == w
  {
    B.OffGrows(k + 1, total, w);
    s[B.Off(k, w)..B.Off(k, w) + w]
  }

  /** Every part holds what its stores so far have made of it, and nothing else has changed. */
  ghost predicate Holds<T(!new)>(job: Job<T>, inp: seq<T>, mem0: seq<T>, mem: seq<T>, prog: seq<nat>) {
    && Sized(job) && |mem| == |mem0| && Fits(|inp|, |prog|, job.w) && Fits(|mem0|, |prog|, job.w)
    && mem[B.Off(|prog|, job.w)..] == mem0[B.Off(|prog|, job.w)..]
    && forall k {:trigger Part(mem, |prog|, job.w, k)} :: 0 <= k < |prog| ==>
         Part(mem, |prog|, job.w, k) == After(job, Part(inp, |prog|, job.w, k), Part(mem0, |prog|, job.w, k), prog[k])
  }

  /** Parts do not overlap. */
  lemma PartsApart(j: nat, k: nat, total: nat, w: nat)
    requires j < total && k < total && j != k
    ensures B.Off(j, w) + w <= B.Off(k, w) || B.Off(k, w) + w <= B.Off(j, w)
  {
    if j < k {
      B.OffGrows(j + 1, k, w);
    } else {
      B.OffGrows(k + 1, j, w);
    }
  }

  /** mem with part k replaced. */
  ghost function WithPart<T>(mem: seq<T>, total: nat, w: nat, k: nat, v: seq<T>): (r: seq<T>)
    requires Fits(|mem|, total, w) && k < total && |v| == w
    ensures |r| == |mem|
  {
    B.OffGrows(k + 1, total, w);
    mem[..B.Off(k, w)] + v + mem[B.Off(k, w) + w..]
  }

  lemma OtherPart<T>(mem: seq<T>, total: nat, w: nat, k: nat, v: seq<T>, j: nat)
    requires Fits(|mem|, total, w) && k < total && |v| == w && j < total
    ensures Part(WithPart(mem, total, w, k, v), total, w, j) == if j == k then v else Part(mem, total, w, j)
  {
    B.OffGrows(k + 1, total, w);
    B.OffGrows(j + 1, total, w);
    var r, x, y := WithPart(mem, total, w, k, v), B.Off(k, w), B.Off(j, w);
    if j == k {
      assert r[x..x + w] == v;
    } else {
      PartsApart(j, k, total, w);
      Beside(mem, x, v, y, w);
    }
  }

  lemma Beside<T>(mem: seq<T>, x: nat, v: seq<T>, y: nat, w: nat)
    requires x + |v| <= |mem| && y + w <= |mem| && (y + w <= x || x + |v| <= y)
    ensures (mem[..x] + v + mem[x + |v|..])[y..y + w] == mem[y..y + w]
  {
    var r := mem[..x] + v + mem[x + |v|..];
    var a, b := r[y..y + w], mem[y..y + w];
    forall i | 0 <= i < w
      ensures a[i] == b[i]
    {
      assert a[i] == r[y + i] == mem[y + i];
    }
  }

  lemma BeyondParts<T>(mem: seq<T>, total: nat, w: nat, k: nat, v: seq<T>)
    requires Fits(|mem|, total, w) && k < total && |v| == w
    ensures WithPart(mem, total, w, k, v)[B.Off(total, w)..] == mem[B.Off(total, w)..]
  {
    B.OffGrows(k + 1, total, w);
  }

  /** A store in part k. */
  lemma StoreHolds<T(!new)>(job: Job<T>, inp: seq<T>, mem0: seq<T>, mem: seq<T>, prog: seq<nat>, k: nat)
    requires Holds(job, inp, mem0, mem, prog) && k < |prog|
    ensures |job.store(prog[k], Part(inp, |prog|, job.w, k), Part(mem, |prog|, job.w, k))| == job.w
    ensures Holds(job, inp, mem0,
                  WithPart(mem, |prog|, job.w, k,
                           job.store(prog[k], Part(inp, |prog|, job.w, k), Part(mem, |prog|, job.w, k))),
                  prog[k := prog[k] + 1])
  {
    var n, w := |prog|, job.w;
    var v := job.store(prog[k], Part(inp, n, w, k), Part(mem, n, w, k));
    var mem', prog' := WithPart(mem, n, w, k, v), prog[k := prog[k] + 1];
    BeyondParts(mem, n, w, k, v);
    forall j | 0 <= j < n
      ensures Part(mem', n, w, j) == After(job, Part(inp, n, w, j), Part(mem0, n, w, j), prog'[j])
    {
      OtherPart(mem, n, w, k, v, j);
      assert Part(mem, n, w, j) == After(job, Part(inp, n, w, j), Part(mem0, n, w, j), prog[j]);
    }
  }

  /** A part that all its stores have reached. */
  lemma PartStored<T(!new)>(job: Job<T>, g: B.Work<T>, inp: seq<T>, mem0: seq<T>, mem: seq<T>, prog: seq<nat>, k: nat)
    requires Computes(job, g) && Holds(job, inp, mem0, mem, prog) && k < |prog| && prog[k] == job.stores
    ensures var x := B.Off(k, job.w);
            x + job.w <= |inp| && x + job.w <= |mem| && mem[x..x + job.w] == g(inp[x..x + job.w])
  {
    var n, w := |prog|, job.w;
    B.OffGrows(k + 1, n, w);
    assert Part(mem, n, w, k) == g(Part(inp, n, w, k));
  }

  lemma OneMorePart<T>(mem: seq<T>, x: nat, w: nat, t: seq<T>, u: seq<T>)
    requires x + w <= |mem| && mem[..x] == t && mem[x..x + w] == u
    ensures mem[..x + w] == t + u
  {
  }

  /** When all stores have been made, the parts are the blocks of the serial loop. */
  lemma {:induction false} AllStored<T(!new)>(job: Job<T>, g: B.Work<T>, inp: seq<T>, mem0: seq<T>, mem: seq<T>,
      prog: seq<nat>, n: nat)
    requires Computes(job, g) && Holds(job, inp, mem0, mem, prog) && n <= |prog|
    requires forall k :: 0 <= k < |prog| ==> prog[k] == job.stores
    ensures B.Off(n, job.w) <= |inp| && B.Off(n, job.w) <= |mem| &&
            mem[..B.Off(n, job.w)] == B.Blocks(g, inp, B.Off(n, job.w), job.w)
  {
    var w := job.w;
    B.OffGrows(n, |prog|, w);
    if n > 0 {
      var k := n - 1;
      var x := B.Off(k, w);
      AllStored(job, g, inp, mem0, mem, prog, k);
      assert x + w <= |inp| && x + w <= |mem| && mem[x..x + w] == g(inp[x..x + w]) by {
        PartStored(job, g, inp, mem0, mem, prog, k);
      }
      assert mem[..x + w] == B.Blocks(g, inp, x + w, w) by {
        B.BlocksNext(g, inp, x, w);
        OneMorePart(mem, x, w, B.Blocks(g, inp, x, w), g(inp[x..x + w]));
      }
    }
  }

  // ---------------------------------------------------------------------------
  // Every schedule
  // ---------------------------------------------------------------------------

  /** The progress of all iterations. */
  ghost function Made(s: State, made: seq<nat>, n: nat, total: nat): (prog: seq<nat>)
    requires Numbered(s) && |made| == |s.threads|
    ensures |prog| == total
  {
    seq(total, k requires 0 <= k < total => Progress(Phases(s), s.runner, made, n, k))
  }

  /** One for a thread that is in the loop body. */
  function Busy(th: Thread): int {
    if th.pc == Idle then 0 else 1
  }

  /** The iterations that are over. */
  ghost function Over(c: Config, s: State): int {
    c.total - s.todo - Sum(Busy, s.threads)
  }

  lemma BusyStep(c: Config, s: State, t: nat)
    requires Shape(s) && CanStep(s, t)
    ensures Over(c, Step(c, s, t)) == Over(c, s) + if s.threads[t].pc == Work then 1 else 0
  {
    SumUpdate(Busy, s.threads, t, ThreadAfter(s, t));
  }

  /** The reduction has counted the iterations that are over. */
  ghost predicate CountInv(c: Config, s: State, w: nat, count: nat) {
    Over(c, s) >= 0 && count == B.Off(Over(c, s), w)
  }

  /** What holds of every reachable world. */
  ghost predicate WorldInv<T(!new)>(job: Job<T>, inp: seq<T>, c: Config, mem0: seq<T>, x: World<T>) {
    && Reachable(c, x.chain) && Numbered(x.chain) && Counted(x.chain, x.made, job.stores)
    && CountInv(c, x.chain, job.w, x.count)
    && Holds(job, inp, mem0, x.mem, Made(x.chain, x.made, job.stores, c.total))
  }

  lemma ReachableStep(c: Config, r: State, t: nat)
    requires Reachable(c, r) && Shape(r) && CanStep(r, t)
    ensures Reachable(c, Step(c, r, t))
  {
    var s, sched :| Init(c, s) && r == Run(c, s, sched);
    var more := sched + [t];
    assert more[..|more| - 1] == sched;
    assert Step(c, r, t) == Run(c, s, more);
  }

  lemma NumberedBound(c: Config, r: State)
    requires Reachable(c, r)
    ensures r.next <= c.total
  {
    var s, sched :| Init(c, s) && r == Run(c, s, sched);
    RunConserves(c, s, sched);
    SumZero(Unnumbered, r.threads);
  }

  lemma SameMade(c: Config, s: State, t: nat, made: seq<nat>, n: nat)
    requires Reachable(c, s) && Numbered(s) && CanStep(s, t) && Counted(s, made, n) &&
             (s.threads[t].pc == Work ==> made[t] == n)
    ensures Numbered(Step(c, s, t)) && Counted(Step(c, s, t), made[t := 0], n)
    ensures Made(Step(c, s, t), made[t := 0], n, c.total) == Made(s, made, n, c.total)
  {
    var s' := Step(c, s, t);
    ReachableInv(c, s);
    ChainStepCounted(c, s, t, made, n);
    ChainStepProgress(c, s, t, made, n, 0);
    forall k | 0 <= k < c.total
      ensures Made(s', made[t := 0], n, c.total)[k] == Made(s, made, n, c.total)[k]
    {
      ChainStepProgress(c, s, t, made, n, k);
    }
  }

  lemma ChainMoveInv<T(!new)>(job: Job<T>, inp: seq<T>, c: Config, mem0: seq<T>, x: World<T>, t: nat)
    requires WorldInv(job, inp, c, mem0, x) && CanStep(x.chain, t) && !Storing(job, x, t)
    ensures WorldInv(job, inp, c, mem0, Move(job, inp, c, x, t))
  {
    var y := Move(job, inp, c, x, t);
    ReachableStep(c, x.chain, t);
    SameMade(c, x.chain, t, x.made, job.stores);
    StepCount(c, x.chain, t, job.w, x.count);
    assert y.chain == Step(c, x.chain, t) && y.made == x.made[t := 0] && y.mem == x.mem;
  }

  lemma StepCount(c: Config, s: State, t: nat, w: nat, count: nat)
    requires Shape(s) && CanStep(s, t) && CountInv(c, s, w, count)
    ensures CountInv(c, Step(c, s, t), w, if s.threads[t].pc == Work then count + w else count)
  {
    BusyStep(c, s, t);
  }

  lemma MadeStore(s: State, made: seq<nat>, n: nat, total: nat, t: nat, k: nat, prog: seq<nat>)
    requires Numbered(s) && |made| == |s.threads| && t < |made| && s.threads[t].pc == Work && s.next <= total
    requires k == s.threads[t].iter && prog == Made(s, made, n, total)
    ensures k < total && prog[k] == made[t] && Made(s, made[t := made[t] + 1], n, total) == prog[k := prog[k] + 1]
  {
    assert Phases(s)[k] == Phase(s, k) == 17;
    forall j | 0 <= j < total
      ensures Made(s, made[t := made[t] + 1], n, total)[j] == Made(s, made, n, total)[j] + if j == k then 1 else 0
    {
      if j < s.next && j != k && Phases(s)[j] == 17 {
        RunnerIsBusy(s, j);
      }
      StoreProgress(Phases(s), s.runner, made, n, k, t, j);
    }
  }

  /** A thread in its block stores into its own part. */
  lemma StoreIsInPart<T(!new)>(job: Job<T>, inp: seq<T>, total: nat, x: World<T>, t: nat, k: nat)
    requires Storing(job, x, t) && k == x.chain.threads[t].iter < total && Sized(job)
    requires Fits(|inp|, total, job.w) && Fits(|x.mem|, total, job.w)
    requires x.chain.threads[t].inPtr == B.Off(k, job.w) && x.chain.threads[t].outPtr == B.Off(k, job.w)
    ensures StoreBy(job, inp, x, t)
         == WithPart(x.mem, total, job.w, k,
                     job.store(x.made[t], Part(inp, total, job.w, k), Part(x.mem, total, job.w, k)))
  {
    B.OffGrows(k + 1, total, job.w);
  }

  lemma StorePart<T(!new)>(job: Job<T>, inp: seq<T>, mem0: seq<T>, x: World<T>, t: nat, k: nat, prog: seq<nat>)
    requires Storing(job, x, t) && k == x.chain.threads[t].iter < |prog| && prog[k] == x.made[t]
    requires x.chain.threads[t].inPtr == B.Off(k, job.w) && x.chain.threads[t].outPtr == B.Off(k, job.w)
    requires Holds(job, inp, mem0, x.mem, prog)
    ensures Holds(job, inp, mem0, StoreBy(job, inp, x, t), prog[k := prog[k] + 1])
  {
    StoreIsInPart(job, inp, |prog|, x, t, k);
    StoreHolds(job, inp, mem0, x.mem, prog, k);
  }

  lemma WorkPointers(c: Config, s: State, t: nat, total: nat, w: nat)
    requires Reachable(c, s) && c == Chain(total, w) && t < |s.threads| && s.threads[t].pc == Work
    ensures s.threads[t].inPtr == B.Off(s.threads[t].iter, w) && s.threads[t].outPtr == B.Off(s.threads[t].iter, w)
  {
    ReachableInv(c, s);
    ChainPointers(total, w, s.threads[t].iter);
  }

  /** What a thread in its block is about to store, and where. */
  lemma StoreFacts(c: Config, s: State, made: seq<nat>, n: nat, t: nat, total: nat, w: nat, k: nat)
    requires Reachable(c, s) && Numbered(s) && |made| == |s.threads| && c == Chain(total, w)
    requires t < |made| && s.threads[t].pc == Work && k == s.threads[t].iter
    ensures s.threads[t].inPtr == B.Off(k, w) && s.threads[t].outPtr == B.Off(k, w) && k < total
    ensures Made(s, made, n, total)[k] == made[t]
    ensures Made(s, made[t := made[t] + 1], n, total) == Made(s, made, n, total)[k := made[t] + 1]
  {
    NumberedBound(c, s);
    MadeStore(s, made, n, total, t, k, Made(s, made, n, total));
    WorkPointers(c, s, t, total, w);
  }

  lemma StoreMoveMem<T(!new)>(job: Job<T>, inp: seq<T>, mem0: seq<T>, x: World<T>, t: nat, k: nat, prog: seq<nat>,
      after: seq<nat>)
    requires Storing(job, x, t) && k == x.chain.threads[t].iter < |prog| && prog[k] == x.made[t]
    requires x.chain.threads[t].inPtr == B.Off(k, job.w) && x.chain.threads[t].outPtr == B.Off(k, job.w)
    requires Holds(job, inp, mem0, x.mem, prog) && after == prog[k := x.made[t] + 1]
    ensures Holds(job, inp, mem0, StoreBy(job, inp, x, t), after)
  {
    StorePart(job, inp, mem0, x, t, k, prog);
  }

  lemma StoreMoveHolds<T(!new)>(job: Job<T>, inp: seq<T>, c: Config, mem0: seq<T>, x: World<T>, t: nat)
    requires Reachable(c, x.chain) && Numbered(x.chain) && |x.made| == |x.chain.threads|
    requires Storing(job, x, t) && c == Chain(c.total, job.w)
    requires Holds(job, inp, mem0, x.mem, Made(x.chain, x.made, job.stores, c.total))
    ensures Holds(job, inp, mem0, StoreBy(job, inp, x, t),
                  Made(x.chain, x.made[t := x.made[t] + 1], job.stores, c.total))
  {
    var k, n := x.chain.threads[t].iter, job.stores;
    StoreFacts(c, x.chain, x.made, n, t, c.total, job.w, k);
    StoreMoveMem(job, inp, mem0, x, t, k, Made(x.chain, x.made, n, c.total),
        Made(x.chain, x.made[t := x.made[t] + 1], n, c.total));
  }

  lemma StoreMoveInv<T(!new)>(job: Job<T>, inp: seq<T>, c: Config, mem0: seq<T>, x: World<T>, t: nat)
    requires WorldInv(job, inp, c, mem0, x) && Storing(job, x, t) && c == Chain(c.total, job.w)
    ensures WorldInv(job, inp, c, mem0, Move(job, inp, c, x, t))
  {
    var y := Move(job, inp, c, x, t);
    StoreMoveHolds(job, inp, c, mem0, x, t);
    assert y.chain == x.chain && y.made == x.made[t := x.made[t] + 1] && y.mem == StoreBy(job, inp, x, t);
  }

  /** The world before the loop. */
  ghost predicate Begins<T(!new)>(job: Job<T>, c: Config, x: World<T>) {
    c == Chain(c.total, job.w) && Init(c, x.chain) && Start(x) && Sized(job)
  }

  /** And the buffers hold the blocks. */
  ghost predicate Ready<T(!new)>(job: Job<T>, inp: seq<T>, c: Config, x: World<T>) {
    Begins(job, c, x) && Fits(|inp|, c.total, job.w) && Fits(|x.mem|, c.total, job.w)
  }

  lemma StartInv<T(!new)>(job: Job<T>, inp: seq<T>, c: Config, x: World<T>)
    requires Ready(job, inp, c, x)
    ensures WorldInv(job, inp, c, x.mem, x)
  {
    assert Run(c, x.chain, []) == x.chain;
    ReachableInv(c, x.chain);
    AllIdleSum(Busy, x.chain.threads);
  }

  /** Whatever the schedule, the invariant holds after every turn. */
  lemma {:induction false} EveryWorldInv<T(!new)>(job: Job<T>, inp: seq<T>, c: Config, x: World<T>, sched: seq<nat>)
    requires Ready(job, inp, c, x)
    ensures WorldInv(job, inp, c, x.mem, Moves(job, inp, c, x, sched))
    decreases |sched|
  {
    if sched == [] {
      StartInv(job, inp, c, x);
    } else {
      var rest, t := sched[..|sched| - 1], sched[|sched| - 1];
      EveryWorldInv(job, inp, c, x, rest);
      var m := Moves(job, inp, c, x, rest);
      if Storing(job, m, t) {
        StoreMoveInv(job, inp, c, x.mem, m, t);
      } else if CanStep(m.chain, t) {
        ChainMoveInv(job, inp, c, x.mem, m, t);
      }
    }
  }

  lemma CompletedMemory<T(!new)>(job: Job<T>, g: B.Work<T>, inp: seq<T>, c: Config, mem0: seq<T>, y: World<T>)
    requires WorldInv(job, inp, c, mem0, y) && Computes(job, g) && Completed(y.chain)
    ensures var n := B.Off(c.total, job.w); n <= |inp| && n <= |mem0| && y.mem == B.Blocks(g, inp, n, job.w) + mem0[n..]
  {
    var prog := Made(y.chain, y.made, job.stores, c.total);
    AllMade(c, y.chain, y.made, job.stores);
    StoredMemory(job, g, inp, mem0, y.mem, prog);
  }

  lemma AllMade(c: Config, s: State, made: seq<nat>, n: nat)
    requires Reachable(c, s) && Numbered(s) && |made| == |s.threads| && Completed(s)
    ensures forall k :: 0 <= k < c.total ==> Made(s, made, n, c.total)[k] == n
  {
    AllNumbered(c, s);
    AllFinished(s);
  }

  lemma StoredMemory<T(!new)>(job: Job<T>, g: B.Work<T>, inp: seq<T>, mem0: seq<T>, mem: seq<T>, prog: seq<nat>)
    requires Computes(job, g) && Holds(job, inp, mem0, mem, prog)
    requires forall k :: 0 <= k < |prog| ==> prog[k] == job.stores
    ensures var n := B.Off(|prog|, job.w); n <= |inp| && n <= |mem0| && mem == B.Blocks(g, inp, n, job.w) + mem0[n..]
  {
    var n := B.Off(|prog|, job.w);
    AllStored(job, g, inp, mem0, mem, prog, |prog|);
    Cut(mem, n, B.Blocks(g, inp, n, job.w), mem0[n..]);
  }

  lemma Cut<T>(mem: seq<T>, n: nat, t: seq<T>, u: seq<T>)
    requires n <= |mem| && mem[..n] == t && mem[n..] == u
    ensures mem == t + u
  {
  }

  lemma CompletedCount(c: Config, s: State, w: nat, count: nat)
    requires CountInv(c, s, w, count) && Completed(s)
    ensures count == B.Off(c.total, w)
  {
    AllIdleSum(Busy, s.threads);
  }

  lemma CompletedPointers(c: Config, s: State, w: nat)
    requires c == Chain(c.total, w) && Reachable(c, s) && Completed(s)
    ensures Shape(s) && s.next == c.total
    ensures s.ins[At(c.total)].ptr == B.Off(c.total, w) && s.outs[At(c.total)].ptr == B.Off(c.total, w)
  {
    CompletedRun(c, s);
    ChainPointers(c.total, w, c.total);
  }

  /** In every run that completes the loop, however the turns were given, the output holds what the
      serial loop leaves there, the reduction has counted every byte of it, and the slot that comes
      next in the ring holds the place where the blocks end. */
  lemma EveryScheduleIsSerial<T(!new)>(job: Job<T>, g: B.Work<T>, inp: seq<T>, c: Config, x: World<T>, sched: seq<nat>)
    requires Ready(job, inp, c, x) && Computes(job, g) && Completed(Moves(job, inp, c, x, sched).chain)
    ensures var y, n := Moves(job, inp, c, x, sched), B.Off(c.total, job.w);
            && y.mem == B.Blocks(g, inp, n, job.w) + x.mem[n..]
            && y.count == n
            && y.chain.next == c.total
            && y.chain.ins[At(c.total)].ptr == n && y.chain.outs[At(c.total)].ptr == n
  {
    var y := Moves(job, inp, c, x, sched);
    EveryWorldInv(job, inp, c, x, sched);
    CompletedMemory(job, g, inp, c, x.mem, y);
    CompletedCount(c, y.chain, job.w, y.count);
    CompletedPointers(c, y.chain, job.w);
  }

  // ---------------------------------------------------------------------------
  // After the loop
  // ---------------------------------------------------------------------------

  function PartOf<T>(s: seq<T>, p: int, n: nat): seq<T> {
    if 0 <= p && p + n <= |s| then s[p..p + n] else []
  }

  function WrittenAt<T>(mem: seq<T>, q: int, t: seq<T>): seq<T> {
    if 0 <= q && q + |t| <= |mem| then mem[..q] + t + mem[q + |t|..] else mem
  }

  /** What one thread does after the loop: the shorter block of len places, if there is one, and the copy of rest
      places, each at the pointers that the chain gives. */
  ghost function AfterLoop<T>(s: State, mem: seq<T>, inp: seq<T>, l: B.Work<T>, len: nat, rest: nat): seq<T>
    requires Shape(s)
  {
    if len == 0 then CopyRest(s, mem, inp, rest)
    else
      var a := SerialTurn(s, len);
      CopyRest(a.chain, WrittenAt(mem, a.outPtr, l(PartOf(inp, a.inPtr, len))), inp, rest)
  }

  ghost function CopyRest<T>(s: State, mem: seq<T>, inp: seq<T>, rest: nat): seq<T>
    requires Shape(s)
  {
    var b := SerialTurn(s, rest);
    WrittenAt(mem, b.outPtr, PartOf(inp, b.inPtr, rest))
  }

  /** The slot that comes next holds x for both pointers. */
  ghost predicate NextIs(s: State, x: int) {
    Shape(s) && s.ins[At(s.next)].ptr == x && s.outs[At(s.next)].ptr == x
  }

  lemma SerialTurnIs(s: State, x: int, adv: int)
    requires NextIs(s, x)
    ensures var r := SerialTurn(s, adv); r.inPtr == x && r.outPtr == x && NextIs(r.chain, x + adv)
  {
  }

  lemma CopyRestIs<T>(s: State, mem: seq<T>, inp: seq<T>, y: nat)
    requires NextIs(s, y) && y <= |inp| <= |mem|
    ensures CopyRest(s, mem, inp, |inp| - y) == R.Patched(mem, y, inp[y..])
  {
    SerialTurnIs(s, y, |inp| - y);
    assert inp[y..y + (|inp| - y)] == inp[y..];
  }

  lemma EmptyPatch<T>(mem: seq<T>, x: nat, t: seq<T>)
    requires x <= |mem| && t == []
    ensures R.Patched(mem, x, t) == mem
  {
  }

  /** The shorter block, from x to y. */
  lemma ShorterBlockIs<T>(s: State, mem: seq<T>, inp: seq<T>, l: B.Work<T>, x: nat, y: nat, t: seq<T>)
    requires NextIs(s, x) && x <= y <= |inp| <= |mem| && t == l(inp[x..y]) && |t| == y - x
    ensures var a := SerialTurn(s, y - x);
            WrittenAt(mem, a.outPtr, l(PartOf(inp, a.inPtr, y - x))) == R.Patched(mem, x, t)
  {
    SerialTurnIs(s, x, y - x);
    assert PartOf(inp, x, y - x) == inp[x..y];
  }

  /** The pointers after the loop are where the blocks end, and where the shorter block ends. */
  lemma AfterLoopIs<T>(s: State, mem: seq<T>, inp: seq<T>, l: B.Work<T>, x: nat, y: nat, t: seq<T>)
    requires NextIs(s, x) && x <= y <= |inp| <= |mem| && t == l(inp[x..y]) && |t| == y - x
    ensures AfterLoop(s, mem, inp, l, y - x, |inp| - y) == R.Patched(R.Patched(mem, x, t), y, inp[y..])
  {
    if x == y {
      EmptyPatch(mem, x, t);
      CopyRestIs(s, mem, inp, y);
    } else {
      SerialTurnIs(s, x, y - x);
      ShorterBlockIs(s, mem, inp, l, x, y, t);
      CopyRestIs(SerialTurn(s, y - x).chain, R.Patched(mem, x, t), inp, y);
    }
  }

  lemma JoinedAfterBlocks<T(!new)>(g: B.Work<T>, l: B.Work<T>, inp: seq<T>, mem0: seq<T>, mem: seq<T>,
      w: nat, x: nat, y: nat)
    requires x <= y <= |inp| <= |mem0| && B.Keeps(g, w) && B.Keeps(l, y - x)
    requires mem == B.Blocks(g, inp, x, w) + mem0[x..]
    ensures R.Patched(R.Patched(mem, x, l(inp[x..y])), y, inp[y..]) == R.Patched(mem0, 0, B.Joined(g, l, inp, w, x, y))
  {
    R.PatchThree(mem0, mem, B.Blocks(g, inp, x, w), l(inp[x..y]), inp[y..]);
  }

  /** The whole driver: after the loop, one thread takes its pointers from the chain for the shorter block, whose end
      is y, and for the copy of the rest. For every schedule the result is the serial one and every byte is counted. */
  lemma EveryDriverIsSerial<T(!new)>(job: Job<T>, g: B.Work<T>, l: B.Work<T>, inp: seq<T>, c: Config, w: World<T>,
                                     sched: seq<nat>, v: World<T>, x: nat, y: nat)
    requires Ready(job, inp, c, w) && Computes(job, g) && v == Moves(job, inp, c, w, sched) && Completed(v.chain)
    requires x == B.Off(c.total, job.w) <= y <= |inp| <= |w.mem| && B.Keeps(l, y - x)
    ensures Shape(v.chain) && v.count + (y - x) + (|inp| - y) == |inp|
    ensures AfterLoop(v.chain, v.mem, inp, l, y - x, |inp| - y) == R.Patched(w.mem, 0, B.Joined(g, l, inp, job.w, x, y))
  {
    EveryScheduleIsSerial(job, g, inp, c, w, sched);
    AfterLoopIs(v.chain, v.mem, inp, l, x, y, l(inp[x..y]));
    JoinedAfterBlocks(g, l, inp, w.mem, v.mem, job.w, x, y);
  }

  // ---------------------------------------------------------------------------
  // Every run ends
  // ---------------------------------------------------------------------------

  /** The stores that a thread has still to make in the block it was given. */
  function StoresLeft(stores: nat, th: Thread, made: nat): nat {
    if th.pc == Idle then 0
    else if th.pc != Work then stores
    else if made < stores then stores - made else 0
  }

  ghost function StoreSum(stores: nat, ths: seq<Thread>, made: seq<nat>): nat
    requires |ths| == |made|
  {
    if ths == [] then 0
    else var n := |ths| - 1; StoreSum(stores, ths[..n], made[..n]) + StoresLeft(stores, ths[n], made[n])
  }

  lemma {:induction false} StoreSumUpdate(stores: nat, ths: seq<Thread>, made: seq<nat>, t: nat, th: Thread, m: nat)
    requires |ths| == |made| && t < |ths|
    ensures StoreSum(stores, ths[t := th], made[t := m])
         == StoreSum(stores, ths, made) - StoresLeft(stores, ths[t], made[t]) + StoresLeft(stores, th, m)
  {
    var n := |ths| - 1;
    if t == n {
      assert ths[t := th][..n] == ths[..n] && made[t := m][..n] == made[..n];
    } else {
      assert ths[t := th][..n] == ths[..n][t := th] && made[t := m][..n] == made[..n][t := m];
      StoreSumUpdate(stores, ths[..n], made[..n], t, th, m);
    }
  }

  lemma {:induction false} IdleStoreSum(stores: nat, ths: seq<Thread>, made: seq<nat>)
    requires |ths| == |made| && forall t :: 0 <= t < |ths| ==> ths[t].pc == Idle
    ensures StoreSum(stores, ths, made) == 0
  {
    if ths != [] {
      var n := |ths| - 1;
      IdleStoreSum(stores, ths[..n], made[..n]);
    }
  }

  /** The turns that are left: steps on the chain and stores. */
  ghost function TurnsLeft<T>(job: Job<T>, x: World<T>): int
    requires |x.made| == |x.chain.threads|
  {
    Left(x.chain) + B.Off(x.chain.todo, job.stores) + StoreSum(job.stores, x.chain.threads, x.made)
  }

  /** A step of a thread that is not in the middle of its block takes it a block when it was idle, and no store
      otherwise. */
  lemma StepStores(stores: nat, th: Thread, made: nat, after: Thread)
    requires after.pc == IoChain.After(th.pc) && !(th.pc == Work && made < stores)
    ensures StoresLeft(stores, after, 0) == StoresLeft(stores, th, made) + (if th.pc == Idle then stores else 0)
  {
  }

  lemma ChainLeft(c: Config, s: State, made: seq<nat>, stores: nat, t: nat)
    requires Shape(s) && CanStep(s, t) && |made| == |s.threads| && !(s.threads[t].pc == Work && made[t] < stores)
    ensures var r := Step(c, s, t);
            B.Off(r.todo, stores) + StoreSum(stores, r.threads, made[t := 0]) ==
            B.Off(s.todo, stores) + StoreSum(stores, s.threads, made)
  {
    StepStores(stores, s.threads[t], made[t], ThreadAfter(s, t));
    StoreSumUpdate(stores, s.threads, made, t, ThreadAfter(s, t), 0);
  }

  /** Every turn is progress. */
  lemma MoveLeft<T>(job: Job<T>, inp: seq<T>, c: Config, x: World<T>, t: nat)
    requires Shape(x.chain) && CanMove(job, x, t) && |x.made| == |x.chain.threads|
    ensures TurnsLeft(job, Move(job, inp, c, x, t)) == TurnsLeft(job, x) - 1
  {
    var ths := x.chain.threads;
    if Storing(job, x, t) {
      assert ths[t := ths[t]] == ths;
      StoreSumUpdate(job.stores, ths, x.made, t, ths[t], x.made[t] + 1);
    } else {
      StepLeft(c, x.chain, t);
      ChainLeft(c, x.chain, x.made, job.stores, t);
    }
  }

  ghost function TurnsTaken<T>(job: Job<T>, inp: seq<T>, c: Config, x: World<T>, sched: seq<nat>): nat
    requires Shape(x.chain) && |x.made| == |x.chain.threads|
  {
    if sched == [] then 0
    else
      var rest := sched[..|sched| - 1];
      TurnsTaken(job, inp, c, x, rest)
      + if CanMove(job, Moves(job, inp, c, x, rest), sched[|sched| - 1]) then 1 else 0
  }

  lemma TurnsLeftZero<T>(job: Job<T>, x: World<T>)
    requires |x.made| == |x.chain.threads|
    ensures TurnsLeft(job, x) >= 0 && (TurnsLeft(job, x) == 0 <==> Completed(x.chain))
  {
    LeftZero(x.chain);
    if Completed(x.chain) {
      IdleStoreSum(job.stores, x.chain.threads, x.made);
    }
  }

  /** Whatever the schedule, turns taken and turns left are the 18 steps and the stores of all iterations, and the loop
      is over exactly when all turns have been taken. */
  lemma {:induction false} EveryScheduleEnds<T(!new)>(job: Job<T>, inp: seq<T>, c: Config, x: World<T>, sched: seq<nat>)
    requires Ready(job, inp, c, x)
    ensures TurnsTaken(job, inp, c, x, sched) + TurnsLeft(job, Moves(job, inp, c, x, sched)) ==
            FINISHED * c.total + c.total * job.stores
    ensures TurnsTaken(job, inp, c, x, sched) == FINISHED * c.total + c.total * job.stores <==>
            Completed(Moves(job, inp, c, x, sched).chain)
    decreases |sched|
  {
    if sched == [] {
      AllIdleSum(StepsLeft, x.chain.threads);
      IdleStoreSum(job.stores, x.chain.threads, x.made);
      B.OffIs(c.total, job.stores);
    } else {
      var rest, t := sched[..|sched| - 1], sched[|sched| - 1];
      EveryScheduleEnds(job, inp, c, x, rest);
      if CanMove(job, Moves(job, inp, c, x, rest), t) {
        MoveLeft(job, inp, c, Moves(job, inp, c, x, rest), t);
      }
    }
    TurnsLeftZero(job, Moves(job, inp, c, x, sched));
  }

  /** As long as the loop is not over, some thread can take a turn. */
  lemma NoStall<T(!new)>(job: Job<T>, inp: seq<T>, c: Config, x: World<T>, sched: seq<nat>)
    requires Ready(job, inp, c, x) && |x.chain.threads| > 0
    requires var y := Moves(job, inp, c, x, sched); |y.chain.threads| > 0 && !Completed(y.chain)
    ensures var y := Moves(job, inp, c, x, sched); exists t :: 0 <= t < |y.chain.threads| && CanMove(job, y, t)
  {
    var y := Moves(job, inp, c, x, sched);
    EveryWorldInv(job, inp, c, x, sched);
    NoDeadlock(c, y.chain);
    var t :| 0 <= t < |y.chain.threads| && CanStep(y.chain, t);
    assert CanMove(job, y, t);
  }
}
