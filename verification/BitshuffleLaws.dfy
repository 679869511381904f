/** Where the driver of bitshuffle puts every bit, in each direction: the full blocks, the shorter block and the copied
    rest of a buffer, by their places alone. */
module BitshuffleLaws {
  import opened Transposition
  import opened BitMatrix
  import opened BitshuffleSpec
  import opened BlockedRuns
  import opened BitshuffleBlocks

  /** n elements from byte o on are a block: one of the full blocks of b elements, or the multiple of eight that is left
      of the others. */
  ghost predicate IsBlock(size: nat, e: nat, b: nat, o: nat, n: nat)
    requires b > 0
  {
    || (n == b && exists q :: 0 <= q < size / b && o == q * (b * e))
    || (n == size % b - size % 8 && o == size / b * (b * e))
  }

  /** The places of bit k of byte j of element 8 r + i of a block of n elements at o: in bit k of byte p of the plain
      block, and in bit i of byte t of the shuffled block. */
  ghost predicate SameBit(e: nat, n: nat, o: nat, j: nat, k: nat, r: nat, i: nat, p: nat, t: nat) {
    && j < e && k < 8 && i < 8 && 8 * r + i < n
    && p == o + (8 * r + i) * e + j && t == o + (8 * j + k) * (n / 8) + r
  }

  // ---------------------------------------------------------------------------
  // Blocks of any function
  // ---------------------------------------------------------------------------

  /** y is s with q blocks of v bytes done by g, up to x, and a block done by l, up to z. */
  ghost predicate Laid(s: seq<byte>, y: seq<byte>, g: Work<byte>, l: Work<byte>, q: nat, v: nat, x: nat, z: nat) {
    x == Off(q, v) <= z <= |s| && Keeps(g, v) && Keeps(l, z - x) && y == Joined(g, l, s, v, x, z)
  }

  /** h does the block of w bytes at o: it is g and the block is number i, or it is l. */
  ghost predicate Does(h: Work<byte>, o: nat, w: nat, g: Work<byte>, l: Work<byte>, q: nat, v: nat, x: nat, z: nat,
      full: bool, i: nat) {
    if full then h == g && i < q && w == v && o == Off(i, v) else h == l && o == x && x + w == z
  }

  lemma LaidBlock(s: seq<byte>, y: seq<byte>, g: Work<byte>, l: Work<byte>, q: nat, v: nat, x: nat, z: nat,
      h: Work<byte>, o: nat, w: nat, full: bool, i: nat)
    requires Laid(s, y, g, l, q, v, x, z) && Does(h, o, w, g, l, q, v, x, z, full, i)
    ensures o + w <= |s| == |y| && |h(s[o..o + w])| == w && y[o..o + w] == h(s[o..o + w])
  {
    JoinedAt(g, l, s, v, x, z);
    if full {
      BlockAt(g, s, q, v, i);
      SliceOfPrefix(y, x, o, o + w);
    }
  }

  lemma SliceOfPrefix(t: seq<byte>, x: nat, a: nat, b: nat)
    requires a <= b <= x <= |t|
    ensures t[..x][a..b] == t[a..b]
  {
  }

  /** h takes bit k of byte c of a block of w bytes to bit i of byte d. */
  ghost predicate Moves(h: Work<byte>, w: nat, c: nat, k: nat, d: nat, i: nat) {
    && c < w && d < w && k < 8 && i < 8
    && forall u: seq<byte> {:trigger h(u)} :: |u| == w ==> |h(u)| == w && h(u)[d][i] == u[c][k]
  }

  lemma LaidBit(s: seq<byte>, y: seq<byte>, g: Work<byte>, l: Work<byte>, q: nat, v: nat, x: nat, z: nat,
      h: Work<byte>, o: nat, w: nat, full: bool, n: nat, c: nat, k: nat, d: nat, i: nat, p: nat, t: nat)
    requires Laid(s, y, g, l, q, v, x, z) && Does(h, o, w, g, l, q, v, x, z, full, n) && Moves(h, w, c, k, d, i)
    requires p == o + c && t == o + d
    ensures p < |s| && t < |s| == |y| && y[t][i] == s[p][k]
  {
    LaidBlock(s, y, g, l, q, v, x, z, h, o, w, full, n);
    var u := s[o..o + w];
    assert h(u)[d][i] == u[c][k];
    assert y[o + d] == y[o..o + w][d] && s[o + c] == u[c];
  }

  // ---------------------------------------------------------------------------
  // Blocks of the driver
  // ---------------------------------------------------------------------------

  /** The function moves the bits of a block to their places. */
  lemma ShuffleMoves(n: nat, e: nat, w: nat, j: nat, k: nat, r: nat, i: nat, c: nat, d: nat)
    requires w == n * e && n % 8 == 0 && j < e && k < 8 && i < 8 && r < n / 8
    requires c == ElemByte(r, i, e, j) < w && d == BitRow(j, k, n / 8, r) < w
    ensures Moves(BlockFun(Shuffle, n, e), w, c, k, d, i)
  {
    var h := BlockFun(Shuffle, n, e);
    forall u: seq<byte> {:trigger h(u)} | |u| == w
      ensures |h(u)| == w && h(u)[d][i] == u[c][k]
    {
      BitElemAt(u, n / 8, e, j, k, r, i);
    }
  }

  lemma UnshuffleMoves(n: nat, e: nat, w: nat, j: nat, k: nat, r: nat, i: nat, c: nat, d: nat)
    requires w == n * e && n % 8 == 0 && j < e && k < 8 && i < 8 && r < n / 8
    requires c == ElemByte(r, i, e, j) < w && d == BitRow(j, k, n / 8, r) < w
    ensures Moves(BlockFun(Unshuffle, n, e), w, d, i, c, k)
  {
    var h := BlockFun(Unshuffle, n, e);
    forall u: seq<byte> {:trigger h(u)} | |u| == w
      ensures |h(u)| == w && h(u)[c][k] == u[d][i]
    {
      UnBitElemAt(u, n / 8, e, j, k, r, i);
    }
  }

  lemma LaidWrapped(f: Fun, s: seq<byte>, size: nat, e: nat, b: nat, last: nat, q: nat, v: nat, x: nat, z: nat)
    requires |s| == size * e && b > 0 && b % 8 == 0 && v == b * e && q == FullBlocks(size, b)
    requires last == LastBlock(Rest(size, b)) && x == FullEnd(size, e, b) && z == LastEnd(size, e, b)
    ensures Laid(s, Wrapped(f, s, size, e, b), BlockFun(f, b, e), BlockFun(f, last, e), q, v, x, z)
    ensures z == x + last * e
  {
    WrappedIs(f, s, size, e, b, last, x, z);
    PartsJoined(f, s, b, last, e, v, x, z);
  }

  lemma RestOfEight(size: nat, b: nat)
    requires b > 0 && b % 8 == 0
    ensures LastBlock(Rest(size, b)) == size % b - size % 8
  {
    BlocksAreQuotient(size, b);
    BlocksAndRest(size, b);
    EightRest(FullBlocks(size, b), b, Rest(size, b));
  }

  /** n elements, of w bytes, at o are full block number i, or the shorter block. */
  ghost predicate Numbered(size: nat, e: nat, b: nat, o: nat, n: nat, w: nat, full: bool, i: nat)
    requires b > 0
  {
    if full then n == b && w == b * e && i < FullBlocks(size, b) && o == Off(i, w)
    else n == LastBlock(Rest(size, b)) && o == FullEnd(size, e, b)
  }

  /** Which block it is. */
  lemma WhichBlock(size: nat, e: nat, b: nat, o: nat, n: nat, v: nat, w: nat) returns (full: bool, i: nat)
    requires b > 0 && b % 8 == 0 && IsBlock(size, e, b, o, n) && v == b * e && w == n * e
    ensures n % 8 == 0 && Numbered(size, e, b, o, n, w, full, i)
  {
    i := 0;
    BlocksAreQuotient(size, b);
    if n == b && exists q :: 0 <= q < size / b && o == q * (b * e) {
      full := true;
      i :| 0 <= i < size / b && o == i * (b * e);
      OffIs(i, v);
    } else {
      full := false;
      OffIs(size / b, v);
      RestOfEight(size, b);
    }
  }

  lemma PlacesAre(e: nat, n: nat, o: nat, j: nat, k: nat, r: nat, i: nat, p: nat, t: nat)
    requires n % 8 == 0 && SameBit(e, n, o, j, k, r, i, p, t)
    ensures r < n / 8 && p == o + ElemByte(r, i, e, j) && t == o + BitRow(j, k, n / 8, r)
    ensures ElemByte(r, i, e, j) < n * e && BitRow(j, k, n / 8, r) < n * e
  {
    var m := n / 8;
    Places(m, e, j, k, r, i);
    IdxIs(r, 8, i);
    IdxIs(Idx(r, 8, i), e, j);
    IdxIs(j, 8, k);
    IdxIs(Idx(j, 8, k), m, r);
  }

  /** In either direction, block n at o moves bits as its function does. */
  lemma BlockMoves(f: Fun, s: seq<byte>, size: nat, e: nat, b: nat, o: nat, n: nat, w: nat, full: bool, q: nat,
      c: nat, k: nat, d: nat, i: nat, p: nat, t: nat)
    requires |s| == size * e && b > 0 && b % 8 == 0 && w == n * e && n % 8 == 0
    requires Numbered(size, e, b, o, n, w, full, q)
    requires Moves(BlockFun(f, n, e), w, c, k, d, i) && p == o + c && t == o + d
    ensures p < |s| && t < |s| && Wrapped(f, s, size, e, b)[t][i] == s[p][k]
  {
    var last, v, x, z := LastBlock(Rest(size, b)), b * e, FullEnd(size, e, b), LastEnd(size, e, b);
    LaidWrapped(f, s, size, e, b, last, FullBlocks(size, b), v, x, z);
    LaidBit(s, Wrapped(f, s, size, e, b), BlockFun(f, b, e), BlockFun(f, last, e), FullBlocks(size, b), v, x, z,
            BlockFun(f, n, e), o, w, full, q, c, k, d, i, p, t);
  }

  lemma ShuffleAt(s: seq<byte>, size: nat, e: nat, b: nat, o: nat, n: nat, w: nat, full: bool, q: nat,
      j: nat, k: nat, r: nat, i: nat, c: nat, d: nat, p: nat, t: nat)
    requires |s| == size * e && b > 0 && b % 8 == 0 && w == n * e && n % 8 == 0
    requires Numbered(size, e, b, o, n, w, full, q)
    requires j < e && k < 8 && i < 8 && r < n / 8 && c == ElemByte(r, i, e, j) < w && d == BitRow(j, k, n / 8, r) < w
    requires p == o + c && t == o + d
    ensures p < |s| && t < |s| && Wrapped(Shuffle, s, size, e, b)[t][i] == s[p][k]
  {
    ShuffleMoves(n, e, w, j, k, r, i, c, d);
    BlockMoves(Shuffle, s, size, e, b, o, n, w, full, q, c, k, d, i, p, t);
  }

  lemma UnshuffleAt(s: seq<byte>, size: nat, e: nat, b: nat, o: nat, n: nat, w: nat, full: bool, q: nat,
      j: nat, k: nat, r: nat, i: nat, c: nat, d: nat, p: nat, t: nat)
    requires |s| == size * e && b > 0 && b % 8 == 0 && w == n * e && n % 8 == 0
    requires Numbered(size, e, b, o, n, w, full, q)
    requires j < e && k < 8 && i < 8 && r < n / 8 && c == ElemByte(r, i, e, j) < w && d == BitRow(j, k, n / 8, r) < w
    requires p == o + c && t == o + d
    ensures p < |s| && t < |s| && Wrapped(Unshuffle, s, size, e, b)[p][k] == s[t][i]
  {
    UnshuffleMoves(n, e, w, j, k, r, i, c, d);
    BlockMoves(Unshuffle, s, size, e, b, o, n, w, full, q, d, i, c, k, t, p);
  }

  /** Shuffling takes bit k of byte p to bit i of byte t, and unshuffling takes it back, for every bit of every
      block. */
  lemma WrappedAt(s: seq<byte>, size: nat, e: nat, b: nat, o: nat, n: nat,
      j: nat, k: nat, r: nat, i: nat, p: nat, t: nat)
    requires |s| == size * e && b > 0 && b % 8 == 0 && IsBlock(size, e, b, o, n) && SameBit(e, n, o, j, k, r, i, p, t)
    ensures p < |s| && t < |s|
    ensures Wrapped(Shuffle, s, size, e, b)[t][i] == s[p][k]
    ensures Wrapped(Unshuffle, s, size, e, b)[p][k] == s[t][i]
  {
    var full, q := WhichBlock(size, e, b, o, n, b * e, n * e);
    PlacesAre(e, n, o, j, k, r, i, p, t);
    ShuffleAt(s, size, e, b, o, n, n * e, full, q, j, k, r, i, p - o, t - o, p, t);
    UnshuffleAt(s, size, e, b, o, n, n * e, full, q, j, k, r, i, p - o, t - o, p, t);
  }

  /** The bytes of the last elements, fewer than eight, are copied. */
  lemma RestIsCopied(f: Fun, s: seq<byte>, size: nat, e: nat, b: nat, p: nat)
    requires |s| == size * e && b > 0 && b % 8 == 0 && (size - size % 8) * e <= p < |s|
    ensures Wrapped(f, s, size, e, b)[p] == s[p]
  {
    var x, y, last := FullEnd(size, e, b), LastEnd(size, e, b), LastBlock(Rest(size, b));
    LaidWrapped(f, s, size, e, b, last, FullBlocks(size, b), b * e, x, y);
    JoinedAt(BlockFun(f, b, e), BlockFun(f, last, e), s, b * e, x, y);
    assert (size - size % 8) * e == size * e - size % 8 * e;
    assert Wrapped(f, s, size, e, b)[p] == Wrapped(f, s, size, e, b)[y..][p - y] == s[y..][p - y];
  }

  lemma BlocksAndLast(size: nat, e: nat, b: nat, q: nat, last: nat)
    requires b > 0 && b % 8 == 0 && q == size / b && last == size % b - size % 8
    ensures (size - size % 8) * e == q * (b * e) + last * e
  {
    assert size - size % 8 == q * b + last;
    assert q * (b * e) == q * b * e;
    assert (q * b + last) * e == q * b * e + last * e;
  }

  /** Every byte is in a block or among the copied ones. */
  lemma BlocksCover(size: nat, e: nat, b: nat, p: nat) returns (o: nat, n: nat)
    requires b > 0 && b % 8 == 0 && p < (size - size % 8) * e
    ensures IsBlock(size, e, b, o, n) && o <= p < o + n * e
  {
    var q := size / b;
    RestOfEight(size, b);
    var last := LastBlock(Rest(size, b));
    BlocksAndLast(size, e, b, q, last);
    if p < q * (b * e) {
      o := BlockOf(p, q, b * e);
      n := b;
    } else {
      o, n := q * (b * e), last;
    }
  }

  lemma BlockOf(p: nat, q: nat, w: nat) returns (o: nat)
    requires p < q * w
    ensures o <= p < o + w && exists i :: 0 <= i < q && o == i * w
  {
    IdxSplit(p, q, w);
    IdxIs(RowOf(p, w), w, ColOf(p, w));
    o := RowOf(p, w) * w;
  }
}
