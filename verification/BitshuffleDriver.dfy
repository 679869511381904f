/** The blocked driver of bitshuffle in a build without threads: it hands the input and
    output positions from block to block through the IO chain, whose 33 slots are used in
    turn. Positions count bytes from the start of the input and of the output. */
module BitshuffleDriver {
  import opened Transposition
  import opened BitMatrix
  import opened BitshuffleSpec
  import opened BlockedRuns
  import opened BitshuffleBlocks
  import opened Bitshuffle
  import Regions
  import IoChain

  const BAD_BLOCK_SIZE: int := -81

  /** ioc_chain without its locks. */
  class Chain {
    var next: nat
    const ins: array<nat>
    const outs: array<nat>

    ghost predicate Valid() {
      ins.Length == outs.Length == IoChain.IOC_SIZE && ins != outs
    }

    /** The next block starts reading at x and writing at y. */
    ghost predicate Ready(x: nat, y: nat)
      requires Valid()
      reads this, ins, outs
    {
      ins[IoChain.At(next)] == x && outs[IoChain.At(next)] == y
    }

    /** ioc_init. */
    constructor (in0: nat, out0: nat)
      ensures Valid() && next == 0 && Ready(in0, out0) && fresh(ins) && fresh(outs)
    {
      next := 0;
      ins := new nat[IoChain.IOC_SIZE];
      outs := new nat[IoChain.IOC_SIZE];
      new;
      ins[0] := in0;
      outs[0] := out0;
    }

    /** ioc_get_in. */
    method GetIn() returns (ptr: nat, thisIter: nat)
      requires Valid()
      modifies this`next
      ensures thisIter == old(next) && next == old(next) + 1 && ptr == ins[thisIter % 33]
    {
      thisIter := next;
      next := next + 1;
      ptr := ins[thisIter % IoChain.IOC_SIZE];
    }

    /** ioc_set_next_in. */
    method SetNextIn(thisIter: nat, ptr: nat)
      requires Valid()
      modifies ins
      ensures ins[..] == old(ins[..])[(thisIter + 1) % 33 := ptr]
    {
      ins[(thisIter + 1) % IoChain.IOC_SIZE] := ptr;
    }

    /** ioc_get_out. */
    method GetOut(thisIter: nat) returns (ptr: nat)
      requires Valid()
      ensures ptr == outs[thisIter % 33]
    {
      ptr := outs[thisIter % IoChain.IOC_SIZE];
    }

    /** ioc_set_next_out. */
    method SetNextOut(thisIter: nat, ptr: nat)
      requires Valid()
      modifies outs
      ensures outs[..] == old(outs[..])[(thisIter + 1) % 33 := ptr]
    {
      outs[(thisIter + 1) % IoChain.IOC_SIZE] := ptr;
    }

    /** The four calls that every block makes, with the same length for input and output. */
    method Advance(len: nat) returns (x: nat, y: nat)
      requires Valid()
      modifies this`next, ins, outs
      ensures next == old(next) + 1
      ensures x == old(ins[IoChain.At(next)]) && y == old(outs[IoChain.At(next)])
      ensures Ready(x + len, y + len)
    {
      var thisIter;
      x, thisIter := GetIn();
      SetNextIn(thisIter, x + len);
      assert ins[..][IoChain.At(next)] == x + len;
      y := GetOut(thisIter);
      SetNextOut(thisIter, y + len);
      assert outs[..][IoChain.At(next)] == y + len;
    }
  }

  /** g is what fun does to a block of n elements of e bytes. */
  ghost predicate Does(g: Work<byte>, fun: Fun, n: nat, e: nat, w: nat) {
    && Keeps(g, w)
    && forall u: seq<byte> {:trigger Block(u)} :: Block(u) && |u| == w ==>
         w == n * e && (n % 8 == 0 ==> g(u) == BlockDone(fun, u, n, e))
  }

  /** Marks a sequence as a block to be processed. */
  ghost predicate Block(u: seq<byte>) {
    true
  }

  lemma BlockFunDoes(fun: Fun, n: nat, e: nat, w: nat)
    requires n % 8 == 0 && w == n * e
    ensures Does(BlockFun(fun, n, e), fun, n, e, w)
  {
    BlockFunKeeps(fun, n, e, w);
  }

  lemma BlockLength(g: Work<byte>, fun: Fun, n: nat, e: nat, w: nat, u: seq<byte>)
    requires Does(g, fun, n, e, w) && |u| == w
    ensures w == n * e
  {
    assert Block(u);
  }

  /** bshuf_trans_bit_elem and bshuf_untrans_bit_elem. */
  method RunKernel(fun: Fun, block: seq<byte>, out: array<byte>, o: nat, size: nat, elemSize: nat, ghost g: Work<byte>)
    returns (count: int)
    requires Does(g, fun, size, elemSize, |block|) && o + |block| <= out.Length
    modifies out
    ensures size % 8 != 0 ==> count == -80 && out[..] == old(out[..])
    ensures size % 8 == 0 ==> count == |block| && out[..] == Regions.Patched(old(out[..]), o, g(block))
  {
    assert Block(block);
    match fun
    case Shuffle => count := TransBitElemScal(block, out, o, size, elemSize);
    case Unshuffle => count := UntransBitElemScal(block, out, o, size, elemSize);
  }

  /** bshuf_bitshuffle_block and bshuf_bitunshuffle_block, on w bytes. */
  method RunBlock(fun: Fun, c: Chain, inp: seq<byte>, out: array<byte>, size: nat, elemSize: nat,
                  ghost g: Work<byte>, ghost w: nat, ghost x: nat, ghost y: nat)
    returns (count: int)
    requires c.Valid() && c.Ready(x, y) && Does(g, fun, size, elemSize, w) && x + w <= |inp| && y + w <= out.Length
    modifies c`next, c.ins, c.outs, out
    ensures c.Ready(x + w, y + w)
    ensures size % 8 != 0 ==> count == -80 && out[..] == old(out[..])
    ensures size % 8 == 0 ==> count == w && out[..] == Regions.Patched(old(out[..]), y, g(inp[x..x + w]))
  {
    var len := size * elemSize;
    BlockLength(g, fun, size, elemSize, w, inp[x..x + w]);
    var i, o := c.Advance(len);
    count := RunKernel(fun, inp[i..i + len], out, o, size, elemSize, g);
  }

  /** What the output holds once its first x bytes are done. */
  ghost function DoneTo(g: Work<byte>, inp: seq<byte>, a: seq<byte>, w: nat, x: nat): seq<byte>
    requires Keeps(g, w) && |inp| <= |a|
  {
    if x <= |inp| then Regions.Patched(a, 0, Blocks(g, inp, x, w)) else a
  }

  /** stage(x) is what the output holds once its first x bytes are done. */
  ghost predicate Stages(stage: nat -> seq<byte>, g: Work<byte>, inp: seq<byte>, a: seq<byte>, w: nat) {
    Keeps(g, w) && |inp| <= |a| && forall x: nat {:trigger Boundary(x)} :: Boundary(x) ==>
        stage(x) == DoneTo(g, inp, a, w, x)
  }

  /** Marks a boundary between blocks. */
  ghost predicate Boundary(x: nat) {
    true
  }

  /** One more full block, at byte x, after those before it. */
  method RunNext(fun: Fun, c: Chain, inp: seq<byte>, out: array<byte>, n: nat, e: nat,
                 ghost stage: nat -> seq<byte>, ghost g: Work<byte>, ghost a: seq<byte>, ghost w: nat, ghost x: nat)
    returns (count: int)
    requires c.Valid() && c.Ready(x, x) && n % 8 == 0 && Does(g, fun, n, e, w) && x + w <= |inp| <= out.Length == |a|
    requires Stages(stage, g, inp, a, w) && out[..] == stage(x)
    modifies c`next, c.ins, c.outs, out
    ensures c.Ready(x + w, x + w) && count == w && out[..] == stage(x + w)
  {
    assert Boundary(x) && Boundary(x + w);
    count := RunBlock(fun, c, inp, out, n, e, g, w, x, x);
    BlocksNext(g, inp, x, w);
    Regions.PatchNext(a, 0, Blocks(g, inp, x, w), g(inp[x..x + w]));
  }

  /** The loop over the full blocks. */
  method RunBlocks(fun: Fun, c: Chain, inp: seq<byte>, out: array<byte>, k: nat, n: nat, e: nat,
                   ghost stage: nat -> seq<byte>, ghost g: Work<byte>, ghost a: seq<byte>, ghost w: nat)
    returns (err: int, cumCount: int)
    requires c.Valid() && c.Ready(0, 0) && n % 8 == 0 && Does(g, fun, n, e, w) &&
             Off(k, w) <= |inp| <= out.Length == |a|
    requires Stages(stage, g, inp, a, w) && out[..] == stage(0)
    modifies c`next, c.ins, c.outs, out
    ensures c.Ready(Off(k, w), Off(k, w)) && err == 0 && cumCount == Off(k, w) && out[..] == stage(Off(k, w))
  {
    err, cumCount := 0, 0;
    ghost var x := 0;
    for ii := 0 to k
      invariant x == Off(ii, w) <= |inp| && err == 0 && cumCount == x
      invariant c.Ready(x, x) && out[..] == stage(x)
    {
      OffGrows(ii + 1, k, w);
      var count := RunNext(fun, c, inp, out, n, e, stage, g, a, w, x);
      if count < 0 {
        err := count;
      }
      cumCount := cumCount + count;
      x := x + w;
    }
  }

  /** The shorter block, if there is one. */
  method RunLast(fun: Fun, c: Chain, inp: seq<byte>, out: array<byte>, n: nat, e: nat,
                 ghost l: Work<byte>, ghost v: nat, ghost x: nat)
    returns (err: int, count: int)
    requires c.Valid() && c.Ready(x, x) && n % 8 == 0 && Does(l, fun, n, e, v) && x + v <= |inp| <= out.Length
    modifies c`next, c.ins, c.outs, out
    ensures c.Ready(x + v, x + v) && err == 0 && count == v
    ensures out[..] == Regions.Patched(old(out[..]), x, l(inp[x..x + v]))
  {
    err, count := 0, 0;
    ghost var u := inp[x..x + v];
    if n > 0 {
      count := RunBlock(fun, c, inp, out, n, e, l, v, x, x);
      if count < 0 {
        err := count;
      }
    } else {
      assert Block(u);
      assert v == 0 && l(u) == [];
    }
  }

  /** The copy of the last bytes. */
  method CopyRest(c: Chain, inp: seq<byte>, out: array<byte>, rest: nat, ghost y: nat)
    requires c.Valid() && c.Ready(y, y) && y + rest == |inp| <= out.Length
    modifies c`next, c.ins, c.outs, out
    ensures out[..] == Regions.Patched(old(out[..]), y, inp[y..])
  {
    var lastIn, lastOut := c.Advance(rest);
    forall k | lastOut <= k < lastOut + rest {
      out[k] := inp[lastIn + (k - lastOut)];
    }
  }

  /** The shorter block and the copy of the rest. */
  method RunTail(fun: Fun, c: Chain, inp: seq<byte>, out: array<byte>, n: nat, e: nat, rest: nat,
                 ghost l: Work<byte>, ghost x: nat, ghost y: nat)
    returns (err: int, count: int)
    requires c.Valid() && c.Ready(x, x) && n % 8 == 0 && x <= y && y + rest == |inp| <= out.Length
    requires Does(l, fun, n, e, y - x)
    modifies c`next, c.ins, c.outs, out
    ensures err == 0 && count == y - x + rest
    ensures out[..] == Regions.Patched(Regions.Patched(old(out[..]), x, l(inp[x..y])), y, inp[y..])
  {
    err, count := RunLast(fun, c, inp, out, n, e, l, y - x, x);
    if err < 0 {
      return;
    }
    CopyRest(c, inp, out, rest, y);
    count := count + rest;
  }

  /** The parts of the output together. */
  lemma JoinedParts(g: Work<byte>, l: Work<byte>, s: seq<byte>, a: seq<byte>, w: nat, x: nat, y: nat)
    requires x <= y <= |s| <= |a| && Keeps(g, w) && Keeps(l, y - x)
    ensures Regions.Patched(Regions.Patched(DoneTo(g, s, a, w, x), x, l(s[x..y])), y, s[y..]) ==
            Regions.Patched(a, 0, Joined(g, l, s, w, x, y))
  {
    var t1, t2 := Blocks(g, s, x, w), l(s[x..y]);
    Regions.PatchNext(a, 0, t1, t2);
    Regions.PatchNext(a, 0, t1 + t2, s[y..]);
  }

  /** The body of the driver, once the block size is known: k full blocks, up to byte x, and a
      shorter block of n elements, up to byte y. */
  method RunAll(fun: Fun, inp: seq<byte>, out: array<byte>, k: nat, b: nat, n: nat, e: nat, rest: nat,
                ghost g: Work<byte>, ghost l: Work<byte>, ghost w: nat, ghost x: nat, ghost y: nat)
    returns (r: int)
    requires b % 8 == 0 && n % 8 == 0 && x == Off(k, w) <= y && y + rest == |inp| <= out.Length
    requires Does(g, fun, b, e, w) && Does(l, fun, n, e, y - x)
    modifies out
    ensures r == |inp|
    ensures out[..] == Regions.Patched(old(out[..]), 0, Joined(g, l, inp, w, x, y))
  {
    var c := new Chain(0, 0);
    ghost var a := out[..];
    ghost var stage := (x: nat) => DoneTo(g, inp, a, w, x);
    assert out[..] == stage(0);
    var err, cumCount := RunBlocks(fun, c, inp, out, k, b, e, stage, g, a, w);
    JoinedParts(g, l, inp, a, w, x, y);
    if err < 0 {
      return err;
    }
    var err', count := RunTail(fun, c, inp, out, n, e, rest, l, x, y);
    if err' < 0 {
      return err';
    }
    return cumCount + count;
  }

  /** Where the parts of the buffer begin and end. */
  lemma Plan(f: Fun, s: seq<byte>, b: nat, n: nat, e: nat, x: nat, y: nat)
    returns (g: Work<byte>, l: Work<byte>, w: nat)
    requires b % 8 == 0 && n % 8 == 0 && y == x + n * e && y <= |s|
    ensures w == b * e && Does(g, f, b, e, w) && Does(l, f, n, e, y - x)
    ensures Parts(f, s, b, n, e, x, y) == Joined(g, l, s, w, x, y)
  {
    w := b * e;
    g, l := BlockFun(f, b, e), BlockFun(f, n, e);
    BlockFunDoes(f, b, e, w);
    BlockFunDoes(f, n, e, y - x);
  }

  /** bshuf_blocked_wrap_fun. */
  method BlockedWrapFun(fun: Fun, inp: seq<byte>, out: array<byte>, size: nat, elemSize: nat, blockSize: nat)
    returns (r: int)
    requires |inp| == size * elemSize <= out.Length && (blockSize == 0 ==> elemSize > 0)
    modifies out
    ensures blockSize % 8 != 0 ==> r == -81 && out[..] == old(out[..])
    ensures blockSize % 8 == 0 ==>
              && r == |inp|
              && out[..] == Regions.Patched(old(out[..]), 0,
                  Wrapped(fun, inp, size, elemSize, BlockSize(blockSize, elemSize)))
  {
    var b := BlockSize(blockSize, elemSize);
    if b % BLOCKED_MULT != 0 {
      return BAD_BLOCK_SIZE;
    }
    var k, n, rest := size / b, LastBlock(size % b), size % BLOCKED_MULT * elemSize;
    BlocksAreQuotient(size, b);
    ghost var x, y := FullEnd(size, elemSize, b), LastEnd(size, elemSize, b);
    ghost var g, l, w := Plan(fun, inp, b, n, elemSize, x, y);
    r := RunAll(fun, inp, out, k, b, n, elemSize, rest, g, l, w, x, y);
  }
}
