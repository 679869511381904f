/** The vectorised part of the Blosc shuffle and unshuffle: groups of sixteen elements, for
    type sizes 2, 4, 8 and 16 and, in overlapping tiles, for larger ones. The source s holds a
    whole number of elements; each routine is proved to put its share of the transposed
    matrix in place and to spoil nothing. */
module BloscGroups {
  import opened Transposition
  import opened Regions
  import opened Sse
  import opened SseGroups

  // ---------------------------------------------------------------------------
  // Shuffle
  // ---------------------------------------------------------------------------

  /** shuffle2_sse2, shuffle4_sse2, shuffle8_sse2 and shuffle16_sse2, on groups of sixteen. */
  method ShuffleSmall<T>(s: seq<T>, dest: array<T>, groups: nat, total: nat, ts: nat)
    requires Small(ts) && |s| == total * ts <= dest.Length && 16 * groups <= total
    modifies dest
    ensures Keeps(old(dest[..]), dest[..], 0, Transposed(s, total, ts))
    ensures Filled(dest[..], 0, Transposed(s, total, ts), total, 0, ts, 0, 16 * groups)
  {
    ghost var t := Transposed(s, total, ts);
    ghost var a := dest[..];
    for g := 0 to groups
      invariant Keeps(a, dest[..], 0, t)
      invariant Filled(dest[..], 0, t, total, 0, ts, 0, 16 * g)
    {
      ghost var b := dest[..];
      GroupRight(Shuffle, s, total, ts, 16 * g, Idx(16 * g, ts, 0));
      StoreRows(s, dest, 0, total, ts, 16 * g, 0, Group(Shuffle, s, ts, Idx(16 * g, ts, 0)));
      MoreColumns(a, b, dest[..], 0, t, total, 0, ts, 0, 16 * g, 16 * g + 16);
    }
  }

  lemma TileFits(total: nat, ts: nat, j: nat, off: nat, k: nat)
    requires j + 16 <= total && off + 16 <= ts && k < 16
    ensures Idx(j + k, ts, off) + 16 <= total * ts
  {
    IdxBound(j + k, total, ts, off + 15);
    IdxShift(j + k, ts, off, 15);
  }

  /** Sixteen bytes, from byte off on, of element j + k. */
  function Piece<T>(s: seq<T>, total: nat, ts: nat, j: nat, off: nat, k: nat): (x: seq<T>)
    requires |s| == total * ts && j + 16 <= total && off + 16 <= ts && k < 16
    ensures |x| == 16
  {
    TileFits(total, ts, j, off, k);
    s[Idx(j + k, ts, off)..Idx(j + k, ts, off) + 16]
  }

  /** The pieces of the sixteen elements from j on. */
  function Tile<T>(s: seq<T>, total: nat, ts: nat, j: nat, off: nat): (xs: seq<seq<T>>)
    requires |s| == total * ts && j + 16 <= total && off + 16 <= ts
    ensures Regs(xs) && |xs| == 16
  {
    seq(16, k requires 0 <= k < 16 => Piece(s, total, ts, j, off, k))
  }

  lemma TileByte<T>(s: seq<T>, total: nat, ts: nat, j: nat, off: nat, k: nat, i: nat)
    requires |s| == total * ts && j + 16 <= total && off + 16 <= ts && k < 16 && i < 16
    ensures Idx(j + i, ts, off + k) < |s|
    ensures Tile(s, total, ts, j, off)[i][k] == s[Idx(j + i, ts, off + k)]
  {
    TileFits(total, ts, j, off, i);
    IdxShift(j + i, ts, off, k);
  }

  lemma TileColumn<T>(s: seq<T>, total: nat, ts: nat, j: nat, off: nat, k: nat, v: seq<T>)
    requires |s| == total * ts && j + 16 <= total && off + 16 <= ts && k < 16
    requires v == Contents(Shuffle16(Loaded(Tile(s, total, ts, j, off))), Digits(k))
    ensures Column(s, ts, j, off + k, v)
  {
    forall i: nat | i < 16
      ensures Idx(j + i, ts, off + k) < |s| && v[i] == s[Idx(j + i, ts, off + k)]
    {
      Shuffle16Right(Tile(s, total, ts, j, off), k, i);
      TileByte(s, total, ts, j, off, k, i);
    }
  }

  /** A tile through the registers. */
  function TileRows<T>(s: seq<T>, total: nat, ts: nat, j: nat, off: nat): (rows: seq<seq<T>>)
    requires |s| == total * ts && j + 16 <= total && off + 16 <= ts
    ensures |rows| == 16
  {
    Rows(Shuffle16(Loaded(Tile(s, total, ts, j, off))), 16)
  }

  lemma TileGathered<T>(s: seq<T>, total: nat, ts: nat, j: nat, off: nat)
    requires |s| == total * ts && j + 16 <= total && off + 16 <= ts
    ensures Gathered(s, ts, j, off, TileRows(s, total, ts, j, off))
  {
    var rows := TileRows(s, total, ts, j, off);
    forall k: nat | k < 16
      ensures Column(s, ts, j, off + k, rows[k])
    {
      TileColumn(s, total, ts, j, off, k, rows[k]);
    }
  }

  /** How far the next tile is from the one at off: the first step leaves a multiple of sixteen. */
  function TileStep(ts: nat, off: nat): (d: nat)
    requires ts > 16
    ensures 0 < d <= 16
  {
    if off == 0 && ts % 16 > 0 then ts % 16 else 16
  }

  /** off is where a tile starts, or the end. */
  ghost predicate TileStart(ts: nat, off: nat) {
    off == 0 || (off <= ts && Sixteens(ts - off))
  }

  ghost predicate Sixteens(n: nat) {
    n == 0 || (n >= 16 && Sixteens(n - 16))
  }

  lemma {:induction false} SixteensOf(n: nat)
    ensures Sixteens(n - n % 16)
    decreases n
  {
    if n >= 16 {
      SixteensOf(n - 16);
      assert n % 16 == (n - 16) % 16;
    }
  }

  lemma NextTile(ts: nat, off: nat)
    requires ts > 16 && TileStart(ts, off) && off < ts
    ensures off + 16 <= ts && TileStart(ts, off + TileStep(ts, off))
  {
    if off == 0 {
      SixteensOf(ts);
    }
  }

  /** The tiles of the sixteen elements from j on. */
  method ShuffleTiles<T>(s: seq<T>, dest: array<T>, total: nat, ts: nat, j: nat)
    requires ts > 16 && |s| == total * ts <= dest.Length && j + 16 <= total
    modifies dest
    ensures Keeps(old(dest[..]), dest[..], 0, Transposed(s, total, ts))
    ensures Filled(dest[..], 0, Transposed(s, total, ts), total, 0, ts, j, j + 16)
  {
    ghost var t := Transposed(s, total, ts);
    ghost var a := dest[..];
    var off := 0;
    while off < ts
      invariant TileStart(ts, off)
      invariant Keeps(a, dest[..], 0, t)
      invariant Filled(dest[..], 0, t, total, 0, off, j, j + 16)
    {
      ghost var b := dest[..];
      NextTile(ts, off);
      TileGathered(s, total, ts, j, off);
      StoreRows(s, dest, 0, total, ts, j, off, TileRows(s, total, ts, j, off));
      MoreRows(a, b, dest[..], 0, t, total, 0, off, off + 16, j, j + 16);
      off := off + TileStep(ts, off);
    }
  }

  /** shuffle16_tiled_sse2, on groups of sixteen. */
  method ShuffleTiled<T>(s: seq<T>, dest: array<T>, groups: nat, total: nat, ts: nat)
    requires ts > 16 && |s| == total * ts <= dest.Length && 16 * groups <= total
    modifies dest
    ensures Keeps(old(dest[..]), dest[..], 0, Transposed(s, total, ts))
    ensures Filled(dest[..], 0, Transposed(s, total, ts), total, 0, ts, 0, 16 * groups)
  {
    ghost var t := Transposed(s, total, ts);
    ghost var a := dest[..];
    for g := 0 to groups
      invariant Keeps(a, dest[..], 0, t)
      invariant Filled(dest[..], 0, t, total, 0, ts, 0, 16 * g)
    {
      ghost var b := dest[..];
      ShuffleTiles(s, dest, total, ts, 16 * g);
      MoreColumns(a, b, dest[..], 0, t, total, 0, ts, 0, 16 * g, 16 * g + 16);
    }
  }

  // ---------------------------------------------------------------------------
  // Unshuffle. The source has ts rows of total places.
  // ---------------------------------------------------------------------------

  lemma RowFits(total: nat, ts: nat, i: nat, k: nat)
    requires i + 16 <= total && k < ts
    ensures Idx(k, total, i) + 16 <= ts * total
  {
    IdxBound(k, ts, total, i + 15);
    IdxShift(k, total, i, 15);
  }

  /** Places i to i + 16 of row off + k. */
  function RowPiece<T>(s: seq<T>, total: nat, ts: nat, i: nat, off: nat, k: nat): (x: seq<T>)
    requires |s| == ts * total && i + 16 <= total && off + k < ts
    ensures |x| == 16
  {
    RowFits(total, ts, i, off + k);
    s[Idx(off + k, total, i)..Idx(off + k, total, i) + 16]
  }

  /** Registers with places i to i + 16 of the n rows from off on. */
  function Strip<T>(s: seq<T>, total: nat, ts: nat, i: nat, off: nat, n: nat): (xs: seq<seq<T>>)
    requires |s| == ts * total && i + 16 <= total && off + n <= ts && 0 < n <= 16
    ensures Regs(xs) && |xs| == n
  {
    seq(n, k requires 0 <= k < n => RowPiece(s, total, ts, i, off, k))
  }

  lemma StripByte<T>(s: seq<T>, total: nat, ts: nat, i: nat, off: nat, n: nat, k: nat, e: nat, f: nat)
    requires |s| == ts * total && i + 16 <= total && off + n <= ts && 0 < n <= 16 && k < n && e < 16 && f == off + k
    ensures Idx(i + e, ts, f) < |s|
    ensures Strip(s, total, ts, i, off, n)[k][e] == Transposed(s, ts, total)[Idx(i + e, ts, f)]
  {
    RowFits(total, ts, i, f);
    IdxShift(f, total, i, e);
    TransposedAt(s, ts, total, f, i + e);
  }

  /** Place p of the register stored as number c is byte k of element e. */
  lemma UnshuffledPlace<T>(ts: nat, xs: seq<seq<T>>, c: nat, p: nat) returns (e: nat, k: nat)
    requires Small(ts) && Regs(xs) && |xs| == ts && c < ts && p < 16
    ensures e < 16 && k < ts && Idx(e, ts, k) == 16 * c + p
    ensures Contents(Unshuffle(ts, Loaded(xs)), StoredAs(ts, Digits(c)))[p] == xs[k][e]
  {
    var d, q := Digits(c), Digits(p);
    UnshuffleRight(ts, xs, d, q);
    e, k := Num(ElementOf(ts, d, q)), Num(ByteOf(ts, q));
    PlaceOnly(ts, e, k, 16 * c + p);
  }

  /** The register stored as number c of the group of sixteen elements from i on. */
  function StripRegister<T>(s: seq<T>, total: nat, ts: nat, i: nat, c: nat): (v: seq<T>)
    requires Small(ts) && |s| == ts * total && i + 16 <= total && c < ts
    ensures |v| == 16
  {
    Contents(Unshuffle(ts, Loaded(Strip(s, total, ts, i, 0, ts))), StoredAs(ts, Digits(c)))
  }

  lemma StripRegisterByte<T>(s: seq<T>, total: nat, ts: nat, i: nat, c: nat, b: nat, p: nat)
    requires Small(ts) && |s| == ts * total && i + 16 <= total && c < ts && b == Idx(i, ts, 0) && p < 16
    ensures b + 16 * c + p < |s| && StripRegister(s, total, ts, i, c)[p] == Transposed(s, ts, total)[b + 16 * c + p]
  {
    var e, k := UnshuffledPlace(ts, Strip(s, total, ts, i, 0, ts), c, p);
    StripPlace(s, total, ts, i, b, e, k, 16 * c + p);
  }

  lemma StripPlace<T>(s: seq<T>, total: nat, ts: nat, i: nat, b: nat, e: nat, k: nat, q: nat)
    requires |s| == ts * total && i + 16 <= total && ts <= 16 && k < ts && e < 16 && b == Idx(i, ts, 0) &&
             q == Idx(e, ts, k)
    ensures b + q < |s| && Strip(s, total, ts, i, 0, ts)[k][e] == Transposed(s, ts, total)[b + q]
  {
    StripIndex(i, e, ts, k, b, q);
    StripByte(s, total, ts, i, 0, ts, k, e, k);
  }

  lemma StripIndex(i: nat, e: nat, ts: nat, k: nat, b: nat, q: nat)
    requires b == Idx(i, ts, 0) && q == Idx(e, ts, k)
    ensures Idx(i + e, ts, k) == b + q
  {
    IdxAdd(i, e, ts, k);
  }

  lemma StripRegisterRun<T>(s: seq<T>, total: nat, ts: nat, i: nat, c: nat, b: nat, v: seq<T>)
    requires Small(ts) && |s| == ts * total && i + 16 <= total && c < ts && b == Idx(i, ts, 0)
    requires v == StripRegister(s, total, ts, i, c)
    ensures b + 16 * c + 16 <= |s| && v == Transposed(s, ts, total)[b + 16 * c..b + 16 * c + 16]
  {
    StripRegisterByte(s, total, ts, i, c, b, 15);
    forall p: nat | p < 16
      ensures v[p] == Transposed(s, ts, total)[b + 16 * c + p]
    {
      StripRegisterByte(s, total, ts, i, c, b, p);
    }
    SameRun(v, Transposed(s, ts, total), b + 16 * c);
  }

  /** The stores of one group, in the order of the elements. The whole result is taken as one row. */
  method UnshuffleGroup<T>(s: seq<T>, dest: array<T>, total: nat, ts: nat, i: nat, b: nat)
    requires Small(ts) && |s| == ts * total <= dest.Length && i + 16 <= total && b == Idx(i, ts, 0)
    modifies dest
    ensures Keeps(old(dest[..]), dest[..], 0, Transposed(s, ts, total))
    ensures Filled(dest[..], 0, Transposed(s, ts, total), |s|, 0, 1, b, b + 16 * ts)
  {
    ghost var t := Transposed(s, ts, total);
    ghost var a := dest[..];
    for c := 0 to ts
      invariant Keeps(a, dest[..], 0, t)
      invariant Filled(dest[..], 0, t, |s|, 0, 1, b, b + 16 * c)
    {
      ghost var before := dest[..];
      var v := StripRegister(s, total, ts, i, c);
      StripRegisterRun(s, total, ts, i, c, b, v);
      PutRun(dest, 0, |s|, 0, b + 16 * c, b + 16 * c, v, t);
      MoreColumns(a, before, dest[..], 0, t, |s|, 0, 1, b, b + 16 * c, b + 16 * c + 16);
    }
  }

  lemma NextGroup(g: nat, ts: nat)
    ensures Idx(16 * (g + 1), ts, 0) == Idx(16 * g, ts, 0) + 16 * ts
  {
    IdxAdd(16 * g, 16, ts, 0);
    IdxIs(16, ts, 0);
  }

  /** A full stretch of the one row is full rows of ts places. */
  lemma FlatRows<T>(a: seq<T>, t: seq<T>, total: nat, ts: nat, v: nat, b: nat)
    requires |t| == ts * total && v <= total && b == Idx(v, ts, 0) && Filled(a, 0, t, |t|, 0, 1, 0, b)
    ensures Filled(a, 0, t, ts, 0, v, 0, ts)
  {
    forall j: nat, i: nat | j < v && i < ts
      ensures Idx(j, ts, i) < |t| && a[Idx(j, ts, i)] == t[Idx(j, ts, i)]
    {
      IdxBound(j, v, ts, i);
      IdxIs(v, ts, 0);
      assert Idx(0, |t|, Idx(j, ts, i)) == Idx(j, ts, i);
    }
  }

  /** unshuffle2_sse2, unshuffle4_sse2, unshuffle8_sse2 and unshuffle16_sse2, on groups of sixteen. */
  method UnshuffleSmall<T>(s: seq<T>, dest: array<T>, groups: nat, total: nat, ts: nat)
    requires Small(ts) && |s| == ts * total <= dest.Length && 16 * groups <= total
    modifies dest
    ensures Keeps(old(dest[..]), dest[..], 0, Transposed(s, ts, total))
    ensures Filled(dest[..], 0, Transposed(s, ts, total), ts, 0, 16 * groups, 0, ts)
  {
    ghost var t := Transposed(s, ts, total);
    ghost var a := dest[..];
    ghost var b := 0;
    for g := 0 to groups
      invariant b == Idx(16 * g, ts, 0)
      invariant Keeps(a, dest[..], 0, t)
      invariant Filled(dest[..], 0, t, |s|, 0, 1, 0, b)
    {
      ghost var before := dest[..];
      UnshuffleGroup(s, dest, total, ts, 16 * g, Idx(16 * g, ts, 0));
      MoreColumns(a, before, dest[..], 0, t, |s|, 0, 1, 0, b, b + 16 * ts);
      NextGroup(g, ts);
      b := b + 16 * ts;
    }
    FlatRows(dest[..], t, total, ts, 16 * groups, b);
  }

  /** The register of a tile that goes to element i + c, from byte off on. */
  function TileRegister<T>(s: seq<T>, total: nat, ts: nat, i: nat, off: nat, c: nat): (v: seq<T>)
    requires |s| == ts * total && i + 16 <= total && off + 16 <= ts && c < 16
    ensures |v| == 16
  {
    Contents(Unshuffle16(Loaded(Strip(s, total, ts, i, off, 16))), StoredAs(16, Digits(c)))
  }

  lemma TileRegisterByte<T>(s: seq<T>, total: nat, ts: nat, i: nat, off: nat, c: nat, b: nat, p: nat)
    requires |s| == ts * total && i + 16 <= total && off + 16 <= ts && c < 16 && b == Idx(i + c, ts, off) && p < 16
    ensures b + p < |s| && TileRegister(s, total, ts, i, off, c)[p] == Transposed(s, ts, total)[b + p]
  {
    Unshuffle16Right(Strip(s, total, ts, i, off, 16), Digits(c), Digits(p));
    StripByte(s, total, ts, i, off, 16, p, c, off + p);
    IdxShift(i + c, ts, off, p);
  }

  lemma TileRegisterRun<T>(s: seq<T>, total: nat, ts: nat, i: nat, off: nat, c: nat, b: nat, v: seq<T>)
    requires |s| == ts * total && i + 16 <= total && off + 16 <= ts && c < 16 && b == Idx(i + c, ts, off)
    requires v == TileRegister(s, total, ts, i, off, c)
    ensures b + 16 <= |s| && v == Transposed(s, ts, total)[b..b + 16]
  {
    TileRegisterByte(s, total, ts, i, off, c, b, 15);
    forall p: nat | p < 16
      ensures v[p] == Transposed(s, ts, total)[b + p]
    {
      TileRegisterByte(s, total, ts, i, off, c, b, p);
    }
    SameRun(v, Transposed(s, ts, total), b);
  }

  /** The stores of one tile: bytes off to off + 16 of the elements from i on. */
  method UnshuffleTile<T>(s: seq<T>, dest: array<T>, total: nat, ts: nat, i: nat, off: nat)
    requires |s| == ts * total <= dest.Length && i + 16 <= total && off + 16 <= ts
    modifies dest
    ensures Keeps(old(dest[..]), dest[..], 0, Transposed(s, ts, total))
    ensures Filled(dest[..], 0, Transposed(s, ts, total), ts, i, i + 16, off, off + 16)
  {
    ghost var t := Transposed(s, ts, total);
    ghost var a := dest[..];
    for c := 0 to 16
      invariant Keeps(a, dest[..], 0, t)
      invariant Filled(dest[..], 0, t, ts, i, i + c, off, off + 16)
    {
      ghost var before := dest[..];
      var v := TileRegister(s, total, ts, i, off, c);
      TileRegisterRun(s, total, ts, i, off, c, Idx(i + c, ts, off), v);
      PutRun(dest, 0, ts, i + c, off, Idx(i + c, ts, off), v, t);
      MoreRows(a, before, dest[..], 0, t, ts, i, i + c, i + c + 1, off, off + 16);
    }
  }

  /** The inner loop of unshuffle16_tiled_sse2. */
  method UnshuffleTiles<T>(s: seq<T>, dest: array<T>, groups: nat, total: nat, ts: nat, off: nat)
    requires |s| == ts * total <= dest.Length && 16 * groups <= total && off + 16 <= ts
    modifies dest
    ensures Keeps(old(dest[..]), dest[..], 0, Transposed(s, ts, total))
    ensures Filled(dest[..], 0, Transposed(s, ts, total), ts, 0, 16 * groups, off, off + 16)
  {
    ghost var t := Transposed(s, ts, total);
    ghost var a := dest[..];
    for g := 0 to groups
      invariant Keeps(a, dest[..], 0, t)
      invariant Filled(dest[..], 0, t, ts, 0, 16 * g, off, off + 16)
    {
      ghost var before := dest[..];
      UnshuffleTile(s, dest, total, ts, 16 * g, off);
      MoreRows(a, before, dest[..], 0, t, ts, 0, 16 * g, 16 * g + 16, off, off + 16);
    }
  }

  /** unshuffle16_tiled_sse2, on groups of sixteen. */
  method UnshuffleTiled<T>(s: seq<T>, dest: array<T>, groups: nat, total: nat, ts: nat)
    requires ts > 16 && |s| == ts * total <= dest.Length && 16 * groups <= total
    modifies dest
    ensures Keeps(old(dest[..]), dest[..], 0, Transposed(s, ts, total))
    ensures Filled(dest[..], 0, Transposed(s, ts, total), ts, 0, 16 * groups, 0, ts)
  {
    ghost var t := Transposed(s, ts, total);
    ghost var a := dest[..];
    var off := 0;
    while off < ts
      invariant TileStart(ts, off)
      invariant Keeps(a, dest[..], 0, t)
      invariant Filled(dest[..], 0, t, ts, 0, 16 * groups, 0, off)
    {
      ghost var before := dest[..];
      NextTile(ts, off);
      UnshuffleTiles(s, dest, groups, total, ts, off);
      MoreColumns(a, before, dest[..], 0, t, ts, 0, 16 * groups, 0, off, off + 16);
      off := off + TileStep(ts, off);
    }
  }
}
