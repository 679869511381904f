/** What the blocked driver of bitshuffle makes of a whole buffer, and the round trip
    through it for every size, element size and block size. */
module BitshuffleBlocks {
  import opened Transposition
  import opened BitMatrix
  import opened BitshuffleSpec
  import opened BlockedRuns

  const BLOCKED_MULT: nat := 8
  const MIN_RECOMMEND_BLOCK: nat := 128
  const TARGET_BLOCK_SIZE: nat := 8192

  /** The function that the driver applies to each block. */
  datatype Fun = Shuffle | Unshuffle

  function Inverse(f: Fun): Fun {
    if f.Shuffle? then Unshuffle else Shuffle
  }

  /** bshuf_default_block_size. */
  function DefaultBlockSize(elemSize: nat): (b: nat)
    requires elemSize > 0
    ensures b % 8 == 0 && b >= 128 && 8192 < (b + 8) * elemSize && (b > 128 ==> b * elemSize <= 8192)
  {
    var q := TARGET_BLOCK_SIZE / elemSize;
    var b := q / BLOCKED_MULT * BLOCKED_MULT;
    DefaultFits(q, b, elemSize);
    RowStep(b + BLOCKED_MULT, MIN_RECOMMEND_BLOCK + BLOCKED_MULT, elemSize);
    if b > MIN_RECOMMEND_BLOCK then b else MIN_RECOMMEND_BLOCK
  }

  lemma DefaultFits(q: nat, b: nat, e: nat)
    requires e > 0 && q == TARGET_BLOCK_SIZE / e && b <= q < b + BLOCKED_MULT
    ensures b * e <= TARGET_BLOCK_SIZE < (b + BLOCKED_MULT) * e
  {
    assert TARGET_BLOCK_SIZE == q * e + TARGET_BLOCK_SIZE % e;
    RowStep(b, q, e);
    RowStep(q, b + BLOCKED_MULT, e);
  }

  /** The block size the driver works with: 0 asks for the default. */
  function BlockSize(blockSize: nat, elemSize: nat): (b: nat)
    requires blockSize == 0 ==> elemSize > 0
    ensures b > 0
  {
    if blockSize == 0 then DefaultBlockSize(elemSize) else blockSize
  }

  /** One block of n elements of e bytes. */
  ghost function BlockDone(f: Fun, s: seq<byte>, n: nat, e: nat): (t: seq<byte>)
    requires |s| == n * e && n % 8 == 0
    ensures |t| == |s|
  {
    match f
    case Shuffle => Shuffled(s, n, e)
    case Unshuffle => Unshuffled(s, n, e)
  }

  lemma BlockBack(f: Fun, s: seq<byte>, n: nat, e: nat)
    requires |s| == n * e && n % 8 == 0
    ensures BlockDone(Inverse(f), BlockDone(f, s, n, e), n, e) == s
  {
    match f
    case Shuffle => UnshuffleShuffle(s, n / 8, e);
    case Unshuffle => ShuffleUnshuffle(s, n / 8, e);
  }

  /** The function of blocks of n elements. */
  ghost function BlockFun(f: Fun, n: nat, e: nat): Work<byte>
    requires n % 8 == 0
  {
    (u: seq<byte>) => if |u| == n * e then BlockDone(f, u, n, e) else u
  }

  lemma BlockFunKeeps(f: Fun, n: nat, e: nat, w: nat)
    requires n % 8 == 0 && w == n * e
    ensures Keeps(BlockFun(f, n, e), w)
  {
  }

  lemma BlockFunBack(f: Fun, n: nat, e: nat, w: nat)
    requires n % 8 == 0 && w == n * e
    ensures Undoes(BlockFun(Inverse(f), n, e), BlockFun(f, n, e), w)
  {
    var g, h := BlockFun(f, n, e), BlockFun(Inverse(f), n, e);
    forall u: seq<byte> | |u| == w
      ensures h(g(u)) == u
    {
      BlockBack(f, u, n, e);
    }
  }

  /** The number of full blocks of b elements. */
  ghost function FullBlocks(size: nat, b: nat): (q: nat)
    requires b > 0
  {
    if size < b then 0 else 1 + FullBlocks(size - b, b)
  }

  /** The elements beyond the full blocks. */
  ghost function Rest(size: nat, b: nat): (r: nat)
    requires b > 0
    ensures r < b
  {
    if size < b then size else Rest(size - b, b)
  }

  lemma {:induction false} BlocksAndRest(size: nat, b: nat)
    requires b > 0
    ensures size == FullBlocks(size, b) * b + Rest(size, b)
  {
    if size < b {
    } else {
      BlocksAndRest(size - b, b);
      assert FullBlocks(size, b) * b == FullBlocks(size - b, b) * b + b;
    }
  }

  lemma BlocksAreQuotient(size: nat, b: nat)
    requires b > 0
    ensures FullBlocks(size, b) == size / b && Rest(size, b) == size % b
  {
    BlocksAndRest(size, b);
    DivParts(FullBlocks(size, b), b, Rest(size, b));
  }

  /** The elements of the last, shorter block. */
  function LastBlock(r: nat): (n: nat)
    ensures n % 8 == 0 && n <= r < n + 8
  {
    r - r % BLOCKED_MULT
  }

  lemma EightRest(q: nat, b: nat, r: nat)
    requires b % 8 == 0
    ensures (q * b + r) % 8 == r % 8
  {
    var c := b / 8;
    assert q * b == 8 * (q * c) by {
      assert b == 8 * c;
    }
  }

  lemma SumTimes(q: nat, b: nat, n: nat, r: nat, e: nat)
    ensures q * (b * e) + n * e + r * e == (q * b + n + r) * e
  {
    assert q * (b * e) == q * b * e;
  }

  /** Full blocks, the shorter block and the copied bytes make up the buffer. */
  lemma Bounds(size: nat, e: nat, b: nat)
    requires b > 0 && b % 8 == 0
    ensures Off(FullBlocks(size, b), b * e) + LastBlock(Rest(size, b)) * e + size % 8 * e == size * e
  {
    var q, r := FullBlocks(size, b), Rest(size, b);
    BlocksAndRest(size, b);
    EightRest(q, b, r);
    OffIs(q, b * e);
    SumTimes(q, b, LastBlock(r), size % 8, e);
  }

  /** Full blocks of b elements up to byte x, a block of n elements up to y, and a copied rest. */
  ghost function Parts(f: Fun, s: seq<byte>, b: nat, n: nat, e: nat, x: nat, y: nat): (t: seq<byte>)
    requires b % 8 == 0 && n % 8 == 0 && y == x + n * e && y <= |s|
    ensures |t| == |s|
  {
    BlockFunKeeps(f, b, e, b * e);
    BlockFunKeeps(f, n, e, n * e);
    Joined(BlockFun(f, b, e), BlockFun(f, n, e), s, b * e, x, y)
  }

  lemma PartsJoined(f: Fun, s: seq<byte>, b: nat, n: nat, e: nat, w: nat, x: nat, y: nat)
    requires b % 8 == 0 && n % 8 == 0 && w == b * e && y == x + n * e && y <= |s|
    ensures Keeps(BlockFun(f, b, e), w) && Keeps(BlockFun(f, n, e), y - x)
    ensures Parts(f, s, b, n, e, x, y) == Joined(BlockFun(f, b, e), BlockFun(f, n, e), s, w, x, y)
  {
    BlockFunKeeps(f, b, e, w);
    BlockFunKeeps(f, n, e, y - x);
  }

  lemma PartsBack(f: Fun, s: seq<byte>, b: nat, n: nat, e: nat, x: nat, y: nat)
    requires b % 8 == 0 && n % 8 == 0 && y == x + n * e && y <= |s|
    ensures Parts(Inverse(f), Parts(f, s, b, n, e, x, y), b, n, e, x, y) == s
  {
    BothWays(f, b, e, b * e);
    BothWays(f, n, e, n * e);
    JoinedBack(BlockFun(Inverse(f), b, e), BlockFun(f, b, e), BlockFun(Inverse(f), n, e), BlockFun(f, n, e), s, b * e,
        x, y);
  }

  lemma BothWays(f: Fun, n: nat, e: nat, w: nat)
    requires n % 8 == 0 && w == n * e
    ensures Keeps(BlockFun(f, n, e), w) && Keeps(BlockFun(Inverse(f), n, e), w)
    ensures Undoes(BlockFun(Inverse(f), n, e), BlockFun(f, n, e), w)
  {
    BlockFunKeeps(f, n, e, w);
    BlockFunKeeps(Inverse(f), n, e, w);
    BlockFunBack(f, n, e, w);
  }

  /** The byte where the full blocks end. */
  ghost function FullEnd(size: nat, e: nat, b: nat): nat
    requires b > 0
  {
    Off(FullBlocks(size, b), b * e)
  }

  /** The byte where the copied rest begins. */
  ghost function LastEnd(size: nat, e: nat, b: nat): (y: nat)
    requires b > 0 && b % 8 == 0
    ensures y == FullEnd(size, e, b) + LastBlock(Rest(size, b)) * e && y + size % 8 * e == size * e
  {
    Bounds(size, e, b);
    FullEnd(size, e, b) + LastBlock(Rest(size, b)) * e
  }

  /** bshuf_blocked_wrap_fun: full blocks, a shorter block, and up to seven elements copied. */
  ghost function Wrapped(f: Fun, s: seq<byte>, size: nat, e: nat, b: nat): (t: seq<byte>)
    requires |s| == size * e && b > 0 && b % 8 == 0
    ensures |t| == |s|
  {
    Parts(f, s, b, LastBlock(Rest(size, b)), e, FullEnd(size, e, b), LastEnd(size, e, b))
  }

  lemma WrappedIs(f: Fun, s: seq<byte>, size: nat, e: nat, b: nat, n: nat, x: nat, y: nat)
    requires |s| == size * e && b > 0 && b % 8 == 0 && n == LastBlock(Rest(size, b))
    requires x == FullEnd(size, e, b) && y == LastEnd(size, e, b)
    ensures y == x + n * e && y <= |s| && Wrapped(f, s, size, e, b) == Parts(f, s, b, n, e, x, y)
  {
  }

  /** The round trip, for every size, whether or not it is a multiple of eight or of the block. */
  lemma WrappedBack(f: Fun, s: seq<byte>, size: nat, e: nat, b: nat)
    requires |s| == size * e && b > 0 && b % 8 == 0
    ensures Wrapped(Inverse(f), Wrapped(f, s, size, e, b), size, e, b) == s
  {
    var n, x, y := LastBlock(Rest(size, b)), FullEnd(size, e, b), LastEnd(size, e, b);
    WrappedIs(f, s, size, e, b, n, x, y);
    var t := Parts(f, s, b, n, e, x, y);
    WrappedIs(Inverse(f), t, size, e, b, n, x, y);
    PartsBack(f, s, b, n, e, x, y);
  }
}
