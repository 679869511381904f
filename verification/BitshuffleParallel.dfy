/** The blocked driver of bitshuffle in an OpenMP build: the parallel loop over the full blocks,
    then the shorter block and the leftover bytes by one thread. For every schedule the result
    is that of the serial driver. */
module BitshuffleParallel {
  import opened BitMatrix
  import opened BitshuffleBlocks
  import opened BlockedRuns
  import R = Regions
  import IoChain
  import IoChainTheorems
  import P = ParallelBlocks

  /** g and l are what the driver does to the full blocks, of w bytes, and to the shorter one, from x
      to y; t is the result of the serial driver. */
  ghost predicate Serial(f: Fun, inp: seq<byte>, size: nat, e: nat, b: nat, g: Work<byte>, l: Work<byte>,
                         w: nat, x: nat, y: nat, t: seq<byte>) {
    && |inp| == size * e && b > 0 && b % 8 == 0 && w == b * e && x == FullEnd(size, e, b) && y == LastEnd(size, e, b)
    && g == BlockFun(f, b, e) && l == BlockFun(f, LastBlock(Rest(size, b)), e)
    && t == Wrapped(f, inp, size, e, b)
  }

  lemma SerialJoined(f: Fun, inp: seq<byte>, size: nat, e: nat, b: nat, g: Work<byte>, l: Work<byte>,
                     w: nat, x: nat, y: nat, t: seq<byte>)
    requires Serial(f, inp, size, e, b, g, l, w, x, y, t)
    ensures x == Off(FullBlocks(size, b), w) <= y <= |inp| && Keeps(g, w) && Keeps(l, y - x)
    ensures t == Joined(g, l, inp, w, x, y)
  {
    var n := LastBlock(Rest(size, b));
    WrappedIs(f, inp, size, e, b, n, x, y);
    PartsJoined(f, inp, b, n, e, w, x, y);
  }

  /** The threads' stores into one block compute what the driver does to it. */
  ghost predicate BlockJob(job: P.Job<byte>, f: Fun, b: nat, e: nat) {
    b % 8 == 0 && job.w == b * e && P.Computes(job, BlockFun(f, b, e))
  }

  /** Whatever the schedule of the parallel loop, which ends in v, the shorter block l, which ends at y,
      and the copy of the rest, at the pointers that the chain gives, complete the result of the serial
      driver, and the bytes counted by the loop, the shorter block and the copy are all bytes of the
      buffer. */
  lemma EveryScheduleWraps(f: Fun, inp: seq<byte>, size: nat, e: nat, b: nat, job: P.Job<byte>, c: IoChain.Config,
                           w: P.World<byte>, sched: seq<nat>, v: P.World<byte>, l: Work<byte>, x: nat, y: nat)
    requires |inp| == size * e <= |w.mem| && b > 0 && BlockJob(job, f, b, e) && c.total == FullBlocks(size, b)
    requires P.Begins(job, c, w) && v == P.Moves(job, inp, c, w, sched) && IoChainTheorems.Completed(v.chain)
    requires l == BlockFun(f, LastBlock(Rest(size, b)), e) && x == FullEnd(size, e, b) && y == LastEnd(size, e, b)
    ensures x <= y <= |inp| && IoChain.Shape(v.chain)
    ensures P.AfterLoop(v.chain, v.mem, inp, l, y - x, |inp| - y) == R.Patched(w.mem, 0, Wrapped(f, inp, size, e, b))
    ensures v.count + (y - x) + (|inp| - y) == |inp|
  {
    var g, t := BlockFun(f, b, e), Wrapped(f, inp, size, e, b);
    SerialJoined(f, inp, size, e, b, g, l, job.w, x, y, t);
    P.EveryDriverIsSerial(job, g, l, inp, c, w, sched, v, x, y);
  }
}
