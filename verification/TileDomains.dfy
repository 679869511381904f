/** Tile domains: the tiles that a slice of a domain meets, their positions, and the parts of the slice that
    lie in each of them, with tile numbers, tile bounds and offsets in the type of the coordinates. */
module TileDomains {
  import opened Values
  import opened Widths
  import opened Transposition
  import opened MixedRadix
  import opened CellBox
  import opened CellPositions
  import opened DomainGrid
  import opened Offsets
  import opened Coordinates
  import opened CellNumbers
  import opened DimensionTiles
  import opened TileSlices

  /** A slice of a domain whose bounds and extents have the type. */
  ghost predicate SliceOf(ty: IntType, s: Slice) {
    Sliced(s) && forall d :: 0 <= d < |s.dims| ==> DimOf(ty, s.dims[d])
  }

  // ---------------------------------------------------------------------------
  // Tile numbers
  // ---------------------------------------------------------------------------

  ghost function TileLoIn(ty: IntType, s: Slice): (t: seq<int>)
    requires Sliced(s)
    ensures |t| == |s.dims|
  {
    seq(|s.dims|, d requires 0 <= d < |s.dims| => TileIn(ty, s.lo[d], s.dims[d]))
  }

  ghost function TileHiIn(ty: IntType, s: Slice): (t: seq<int>)
    requires Sliced(s)
    ensures |t| == |s.dims|
  {
    seq(|s.dims|, d requires 0 <= d < |s.dims| => TileIn(ty, s.hi[d], s.dims[d]))
  }

  /** compute_tile_domain. */
  method TileDomainOf(ty: IntType, s: Slice) returns (lo: seq<int>, hi: seq<int>)
    requires Sliced(s)
    ensures lo == TileLoIn(ty, s) && hi == TileHiIn(ty, s)
  {
    lo, hi := [], [];
    for d := 0 to |s.dims|
      invariant |lo| == |hi| == d
      invariant forall i :: 0 <= i < d ==> lo[i] == TileLoIn(ty, s)[i] && hi[i] == TileHiIn(ty, s)[i]
    {
      var dim := s.dims[d];
      lo := lo + [Store(ty, Div(Store(Promoted(ty), s.lo[d] - dim.lo), dim.extent))];
      hi := hi + [Store(ty, Div(Store(Promoted(ty), s.hi[d] - dim.lo), dim.extent))];
    }
  }

  /** One dimension of the slice, with the upper bound of the slice. */
  ghost function UpTo(s: Slice, d: nat): Dimension
    requires Sliced(s) && d < |s.dims|
  {
    s.dims[d].(hi := s.hi[d])
  }

  /** The tile numbers of the slice have the type, and the differences they come from do not overflow. */
  ghost predicate NumbersFit(ty: IntType, s: Slice)
    requires Sliced(s)
  {
    forall d :: 0 <= d < |s.dims| ==> TilesFit(ty, UpTo(s, d))
  }

  /** The tile domain is that of the slice. */
  lemma TileDomainRight(ty: IntType, s: Slice)
    requires SliceOf(ty, s) && NumbersFit(ty, s)
    ensures TileLoIn(ty, s) == TileLo(s) && TileHiIn(ty, s) == TileHi(s)
  {
    forall d | 0 <= d < |s.dims|
      ensures TileLoIn(ty, s)[d] == TileLo(s)[d] && TileHiIn(ty, s)[d] == TileHi(s)[d]
    {
      TileRight(ty, s.lo[d], UpTo(s, d));
      TileRight(ty, s.hi[d], UpTo(s, d));
    }
  }

  /** Otherwise the last tile is above the tile domain. */
  lemma LastTileOutside(ty: IntType, s: Slice)
    requires SliceOf(ty, s) && !NumbersFit(ty, s)
    ensures !InBox(TileHi(s), TileLoIn(ty, s), TileHiIn(ty, s))
  {
    var d :| 0 <= d < |s.dims| && !TilesFit(ty, UpTo(s, d));
    LastTileWrong(ty, UpTo(s, d));
    assert TileHiIn(ty, s)[d] < TileHi(s)[d];
  }

  /** The tile domain is that of the slice exactly when its tile numbers fit. */
  lemma TileDomainIff(ty: IntType, s: Slice)
    requires SliceOf(ty, s)
    ensures TileLoIn(ty, s) == TileLo(s) && TileHiIn(ty, s) == TileHi(s) <==> NumbersFit(ty, s)
  {
    TileBox(s);
    if NumbersFit(ty, s) {
      TileDomainRight(ty, s);
    } else {
      LastTileOutside(ty, s);
    }
  }

  // ---------------------------------------------------------------------------
  // Overlaps
  // ---------------------------------------------------------------------------

  /** tile_subarray: the first and the last cell of a tile. */
  function FirstIn(ty: IntType, dim: Dimension, t: int): int {
    Store(ty, t * dim.extent + dim.lo)
  }

  function LastIn(ty: IntType, dim: Dimension, t: int): int {
    Store(ty, FirstIn(ty, dim, t) + dim.extent - 1)
  }

  function OverlapLoIn(ty: IntType, dim: Dimension, lo: int, t: int): int {
    if FirstIn(ty, dim, t) > lo then FirstIn(ty, dim, t) else lo
  }

  function OverlapHiIn(ty: IntType, dim: Dimension, hi: int, t: int): int {
    if LastIn(ty, dim, t) < hi then LastIn(ty, dim, t) else hi
  }

  /** Along one dimension the overlap with a tile is right exactly when the last cell of the tile has the type. */
  lemma OverlapAlongIff(ty: IntType, dim: Dimension, lo: int, hi: int, t: nat)
    requires DimOf(ty, dim) && dim.lo <= lo <= hi <= dim.hi && Tile(dim, lo) <= t <= Tile(dim, hi)
    ensures OverlapLoIn(ty, dim, lo, t) == OverlapLo(dim, lo, t)
    ensures OverlapHiIn(ty, dim, hi, t) == OverlapHi(dim, hi, t) <==> First(dim, t + 1) - 1 <= ty.max
  {
    TileCells(dim, t);
    TileBounds(dim, hi);
    FirstGrows(dim, Tile(dim, hi), t);
    FirstTile(dim, t);
    var last := First(dim, t + 1) - 1;
    assert FirstIn(ty, dim, t) == First(dim, t);
    if last > ty.max {
      assert Store(ty, last) == last - Size(ty) < First(dim, t);
    }
  }

  ghost function LowCellIn(ty: IntType, s: Slice, t: seq<int>): (c: seq<int>)
    requires |t| == |s.dims| == |s.lo| == |s.hi|
    ensures |c| == |t|
  {
    seq(|t|, d requires 0 <= d < |t| => OverlapLoIn(ty, s.dims[d], s.lo[d], t[d]))
  }

  ghost function HighCellIn(ty: IntType, s: Slice, t: seq<int>): (c: seq<int>)
    requires |t| == |s.dims| == |s.lo| == |s.hi|
    ensures |c| == |t|
  {
    seq(|t|, d requires 0 <= d < |t| => OverlapHiIn(ty, s.dims[d], s.hi[d], t[d]))
  }

  /** The last cells of the last tiles of the slice have the type. */
  ghost predicate EndsFit(ty: IntType, s: Slice)
    requires Sliced(s)
  {
    forall d :: 0 <= d < |s.dims| ==> First(s.dims[d], Tile(s.dims[d], s.hi[d]) + 1) - 1 <= ty.max
  }

  /** It is enough that the expanded domain fits. */
  lemma ExpandedEndsFit(ty: IntType, s: Slice)
    requires Sliced(s) && forall d :: 0 <= d < |s.dims| ==> ExpandedMax(s.dims[d]) <= ty.max
    ensures EndsFit(ty, s)
  {
    forall d | 0 <= d < |s.dims|
      ensures First(s.dims[d], Tile(s.dims[d], s.hi[d]) + 1) - 1 <= ty.max
    {
      var r := Range(s.lo[d], s.hi[d]);
      ExpandIs(s.dims[d], r);
      ExpandedMaxIsMax(s.dims[d], r);
    }
  }

  lemma CornersRight(ty: IntType, s: Slice, t: seq<int>)
    requires SliceOf(ty, s) && IsTile(t, s) && EndsFit(ty, s)
    ensures LowCellIn(ty, s, t) == LowCell(s, t) && HighCellIn(ty, s, t) == HighCell(s, t)
  {
    TileBox(s);
    forall d | 0 <= d < |t|
      ensures LowCellIn(ty, s, t)[d] == LowCell(s, t)[d] && HighCellIn(ty, s, t)[d] == HighCell(s, t)[d]
    {
      assert TileLo(s)[d] <= t[d] <= TileHi(s)[d];
      FirstGrows(s.dims[d], Tile(s.dims[d], s.hi[d]) + 1, t[d] + 1);
      OverlapAlongIff(ty, s.dims[d], s.lo[d], s.hi[d], t[d]);
    }
  }

  /** The part of the slice in a tile: none outside the tile domain. */
  ghost function Overlap(s: Slice, t: seq<int>): Option<(seq<int>, seq<int>)>
    requires Sliced(s) && |t| == |s.dims|
  {
    if IsTile(t, s) then Some((LowCell(s, t), HighCell(s, t))) else None
  }

  /** The same as tile_overlap computes it: none outside the computed tile domain. */
  ghost function OverlapIn(ty: IntType, s: Slice, t: seq<int>): Option<(seq<int>, seq<int>)>
    requires Sliced(s) && |t| == |s.dims|
  {
    if InBox(t, TileLoIn(ty, s), TileHiIn(ty, s)) then Some((LowCellIn(ty, s, t), HighCellIn(ty, s, t))) else None
  }

  ghost predicate OverlapIsRight(ty: IntType, s: Slice, t: seq<int>)
    requires Sliced(s)
  {
    |t| == |s.dims| ==> OverlapIn(ty, s, t) == Overlap(s, t)
  }

  lemma OverlapRight(ty: IntType, s: Slice, t: seq<int>)
    requires SliceOf(ty, s) && NumbersFit(ty, s) && EndsFit(ty, s)
    ensures OverlapIsRight(ty, s, t)
  {
    TileDomainRight(ty, s);
    if |t| == |s.dims| && IsTile(t, s) {
      CornersRight(ty, s, t);
    }
  }

  /** The overlap with the last tile is right only if tile numbers and ends fit. */
  lemma LastOverlapWrong(ty: IntType, s: Slice)
    requires SliceOf(ty, s) && !(NumbersFit(ty, s) && EndsFit(ty, s))
    ensures IsTile(TileHi(s), s) && !OverlapIsRight(ty, s, TileHi(s))
  {
    var t := TileHi(s);
    TileBox(s);
    assert IsTile(t, s);
    if !NumbersFit(ty, s) {
      LastTileOutside(ty, s);
    } else {
      var d :| 0 <= d < |s.dims| && First(s.dims[d], Tile(s.dims[d], s.hi[d]) + 1) - 1 > ty.max;
      TileMonotone(s.dims[d], s.lo[d], s.hi[d]);
      OverlapAlongIff(ty, s.dims[d], s.lo[d], s.hi[d], t[d]);
      assert HighCellIn(ty, s, t)[d] != HighCell(s, t)[d];
    }
  }

  /** The overlaps with all tiles of a slice, and with all others too, are right exactly when the tile numbers of the
      slice and the last cells of its last tiles have the type. */
  lemma OverlapsAreRightIff(ty: IntType, s: Slice)
    requires SliceOf(ty, s)
    ensures (forall t :: IsTile(t, s) ==> OverlapIsRight(ty, s, t)) <==> NumbersFit(ty, s) && EndsFit(ty, s)
    ensures (forall t :: OverlapIsRight(ty, s, t)) <==> NumbersFit(ty, s) && EndsFit(ty, s)
  {
    if NumbersFit(ty, s) && EndsFit(ty, s) {
      forall t
        ensures OverlapIsRight(ty, s, t)
      {
        OverlapRight(ty, s, t);
      }
    } else {
      LastOverlapWrong(ty, s);
    }
  }

  /** The cells of the overlap with a tile. */
  ghost predicate InOverlapIn(ty: IntType, c: seq<int>, t: seq<int>, s: Slice)
    requires Sliced(s) && |t| == |s.dims|
  {
    var r := OverlapIn(ty, s, t);
    r.Some? && InBox(c, r.value.0, r.value.1)
  }

  lemma InCorners(s: Slice, c: seq<int>, t: seq<int>)
    requires Sliced(s) && |t| == |s.dims|
    ensures InBox(c, LowCell(s, t), HighCell(s, t)) <==> InOverlap(c, t, s)
  {
    assert forall d :: 0 <= d < |t| ==>
      && LowCell(s, t)[d] == OverlapLo(s.dims[d], s.lo[d], t[d])
      && HighCell(s, t)[d] == OverlapHi(s.dims[d], s.hi[d], t[d]);
  }

  /** The computed overlaps partition the slice: none is empty, and a cell is in that of a tile exactly when it is a
      cell of the slice and the tile is its own. */
  lemma ComputedOverlapsPartition(ty: IntType, s: Slice, c: seq<int>, t: seq<int>)
    requires SliceOf(ty, s) && NumbersFit(ty, s) && EndsFit(ty, s) && |t| == |s.dims|
    ensures var r := OverlapIn(ty, s, t); r.Some? ==> Box(r.value.0, r.value.1)
    ensures InOverlapIn(ty, c, t, s) <==> InBox(c, s.lo, s.hi) && TileOfCell(c, s) == t
    ensures InBox(c, s.lo, s.hi) ==> IsTile(TileOfCell(c, s), s)
  {
    OverlapRight(ty, s, t);
    if InBox(c, s.lo, s.hi) {
      CellTile(s, c);
    }
    if IsTile(t, s) {
      InCorners(s, c, t);
      OverlapsPartition(s, c, t);
      CornersInOverlap(s, t);
      InCorners(s, LowCell(s, t), t);
    }
  }

  /** In 8 bits, from -100 to 99 with tiles of one cell, which the check accepts, all ends of tiles fit and every
      overlap is empty. */
  const TINY: Slice := Slice([Dimension(-100, 99, 1)], [-100], [99])

  lemma NoOverlapExample(t: seq<int>)
    requires |t| == 1
    ensures CheckTileExtent(INT8, -100, 99, 1) == Accepted && SliceOf(INT8, TINY) && EndsFit(INT8, TINY)
    ensures OverlapIn(INT8, TINY, t) == None
    ensures IsTile([0], TINY)
  {
    NarrowExample();
    TinyTiles();
    assert TileLoIn(INT8, TINY)[0] == 0 && TileHiIn(INT8, TINY)[0] == -57;
  }

  lemma TinyTiles()
    ensures SliceOf(INT8, TINY) && EndsFit(INT8, TINY) && IsTile([0], TINY) && TileLoIn(INT8, TINY)[0] == 0
  {
    var dim := TINY.dims[0];
    DivIs(0, 1);
    TileBounds(dim, 99);
    TileMonotone(dim, -100, 99);
    OneCellTile(dim, 99);
  }

  lemma OneCellTile(dim: Dimension, x: int)
    requires Tiled(dim) && dim.lo <= x && dim.extent == 1
    ensures First(dim, Tile(dim, x) + 1) - 1 == x
  {
    TileBounds(dim, x);
    IdxIs(Tile(dim, x), 1, 0);
  }

  /** In 8 bits, with a domain up to 250 and an extent of 100, the overlap with the last tile is empty. */
  lemma NarrowOverlapExample()
    ensures OverlapLoIn(UINT8, Dimension(0, 250, 100), 0, 2) == 200 &&
            OverlapHiIn(UINT8, Dimension(0, 250, 100), 250, 2) == 43
  {
    assert Store(UINT8, 299) == Store(UINT8, 43);
  }

  /** covers, by the computed corners. */
  ghost predicate CoversIn(ty: IntType, s: Slice, o: Slice, t: seq<int>)
    requires Sliced(s) && Sliced(o) && s.dims == o.dims && |t| == |s.dims|
  {
    && InBox(t, TileLoIn(ty, s), TileHiIn(ty, s)) && InBox(t, TileLoIn(ty, o), TileHiIn(ty, o))
    && forall d :: 0 <= d < |t| ==>
         LowCellIn(ty, s, t)[d] <= LowCellIn(ty, o, t)[d] && HighCellIn(ty, o, t)[d] <= HighCellIn(ty, s, t)[d]
  }

  /** It means that the tile belongs to both tile domains and that every cell the other slice has there is one
      of this slice. */
  lemma ComputedCoversIff(ty: IntType, s: Slice, o: Slice, t: seq<int>)
    requires SliceOf(ty, s) && SliceOf(ty, o) && s.dims == o.dims && |t| == |s.dims|
    requires NumbersFit(ty, s) && NumbersFit(ty, o) && EndsFit(ty, s) && EndsFit(ty, o)
    ensures CoversIn(ty, s, o, t) <==>
              IsTile(t, s) && IsTile(t, o) && forall c {:trigger InOverlap(c, t, s)} {:trigger InOverlap(c, t, o)} ::
                InOverlap(c, t, o) ==> InOverlap(c, t, s)
  {
    TileDomainRight(ty, s);
    TileDomainRight(ty, o);
    if IsTile(t, s) && IsTile(t, o) {
      CornersRight(ty, s, t);
      CornersRight(ty, o, t);
      CoversByCorners(s, o, t);
    }
    CoversIff(s, o, t);
  }

  lemma ComputedCoversTransitive(ty: IntType, s: Slice, o: Slice, u: Slice, t: seq<int>)
    requires Sliced(s) && Sliced(o) && Sliced(u) && s.dims == o.dims == u.dims && |t| == |s.dims|
    requires CoversIn(ty, s, o, t) && CoversIn(ty, o, u, t)
    ensures CoversIn(ty, s, u, t)
  {
    forall d | 0 <= d < |t|
      ensures LowCellIn(ty, s, t)[d] <= LowCellIn(ty, u, t)[d] && HighCellIn(ty, u, t)[d] <= HighCellIn(ty, s, t)[d]
    {
      assert LowCellIn(ty, s, t)[d] <= LowCellIn(ty, o, t)[d] && HighCellIn(ty, o, t)[d] <= HighCellIn(ty, s, t)[d];
    }
  }

  // ---------------------------------------------------------------------------
  // Offsets
  // ---------------------------------------------------------------------------

  /** Each offset is the one before, times the number of tiles there, stored in the type. */
  ghost predicate OffsetsIn(ty: IntType, l: Layout, n: seq<int>, o: seq<int>) {
    && |o| == |n| > 0
    && if l == RowMajor then
         o[|n| - 1] == 1 && forall d :: 0 <= d < |n| - 1 ==> o[d] == Store(ty, o[d + 1] * n[d + 1])
       else
         o[0] == 1 && forall d :: 0 < d < |n| ==> o[d] == Store(ty, o[d - 1] * n[d - 1])
  }

  /** compute_tile_offsets_col. */
  method TileOffsetsCol(ty: IntType, n: seq<int>) returns (o: seq<int>)
    requires |n| > 0
    ensures OffsetsIn(ty, ColMajor, n, o)
  {
    o := [1];
    for d := 1 to |n|
      invariant |o| == d && o[0] == 1
      invariant forall i :: 0 < i < d ==> o[i] == Store(ty, o[i - 1] * n[i - 1])
    {
      o := o + [Store(ty, o[d - 1] * n[d - 1])];
    }
  }

  /** compute_tile_offsets_row. */
  method TileOffsetsRow(ty: IntType, n: seq<int>) returns (o: seq<int>)
    requires |n| > 0
    ensures OffsetsIn(ty, RowMajor, n, o)
  {
    o := [1];
    var d := |n| - 1;
    while d > 0
      invariant 0 <= d < |n| && |o| == |n| - d && o[|o| - 1] == 1
      invariant forall i :: 0 <= i < |o| - 1 ==> o[i] == Store(ty, o[i + 1] * n[d + i + 1])
    {
      o := [Store(ty, o[0] * n[d])] + o;
      d := d - 1;
    }
  }

  lemma OffsetHolds(ty: IntType, l: Layout, n: seq<int>, o: seq<int>, d: nat)
    requires OffsetsIn(ty, l, n, o) && d < |n|
    ensures Holds(ty, o[d])
  {
    if l == RowMajor && d < |n| - 1 {
      assert o[d] == Store(ty, o[d + 1] * n[d + 1]);
    } else if l == ColMajor && d > 0 {
      assert o[d] == Store(ty, o[d - 1] * n[d - 1]);
    }
  }

  lemma Larger(x: nat, y: nat)
    requires y > 0
    ensures x <= x * y
  {
  }

  /** An offset that has the type is computed right. */
  lemma {:induction false} OffsetRight(ty: IntType, l: Layout, n: seq<nat>, o: seq<int>, d: nat)
    requires OffsetsIn(ty, l, n, o) && d < |n| && (forall i :: 0 <= i < |n| ==> n[i] > 0) && Offset(l, n, d) <= ty.max
    ensures o[d] == Offset(l, n, d)
    decreases if l == RowMajor then |n| - d else d
  {
    if l == RowMajor {
      if d < |n| - 1 {
        assert From(n, d + 1) == n[d + 1] * From(n, d + 2);
        Larger(From(n, d + 2), n[d + 1]);
        OffsetRight(ty, l, n, o, d + 1);
      }
    } else if d > 0 {
      assert n[..d][..d - 1] == n[..d - 1];
      Larger(Prod(n[..d - 1]), n[d - 1]);
      OffsetRight(ty, l, n, o, d - 1);
    }
  }

  // ---------------------------------------------------------------------------
  // Positions
  // ---------------------------------------------------------------------------

  /** The sum of tile_pos, whose products are in the arithmetic type. */
  ghost function TermSum(ty: IntType, v: seq<int>, o: seq<int>): int
    requires |v| == |o|
  {
    if v == [] then 0 else var m := |v| - 1; TermSum(ty, v[..m], o[..m]) + Times(ty, v[m], o[m])
  }

  lemma TermTake(ty: IntType, v: seq<int>, o: seq<int>, d: nat)
    requires |v| == |o| && d < |v|
    ensures TermSum(ty, v[..d + 1], o[..d + 1]) == TermSum(ty, v[..d], o[..d]) + Times(ty, v[d], o[d])
  {
    assert v[..d + 1][..d] == v[..d] && o[..d + 1][..d] == o[..d];
  }

  /** Wherever there is more than one tile, the offset has the type, and its largest multiple the arithmetic type. */
  ghost predicate PositionsFit(ty: IntType, l: Layout, n: seq<nat>) {
    forall d :: 0 <= d < |n| && n[d] > 1 ==>
      Offset(l, n, d) <= ty.max && (n[d] - 1) * Offset(l, n, d) <= Promoted(ty).max
  }

  lemma {:induction false} TermsAreDot(ty: IntType, v: seq<int>, o: seq<int>, a: seq<int>)
    requires |v| == |o| == |a| && forall d :: 0 <= d < |v| ==> Times(ty, v[d], o[d]) == v[d] * a[d]
    ensures TermSum(ty, v, o) == Dot(v, a)
  {
    if v != [] {
      var m := |v| - 1;
      TermsAreDot(ty, v[..m], o[..m], a[..m]);
    }
  }

  lemma TermRight(ty: IntType, l: Layout, v: seq<nat>, n: seq<nat>, o: seq<int>, d: nat)
    requires Within(v, n) && d < |n| && OffsetsIn(ty, l, n, o) && (forall i :: 0 <= i < |n| ==> n[i] > 0) &&
             PositionsFit(ty, l, n)
    ensures Times(ty, v[d], o[d]) == v[d] * Offset(l, n, d)
  {
    if n[d] > 1 {
      OffsetRight(ty, l, n, o, d);
      TwoFit(ty, v[d], n[d], Offset(l, n, d));
    } else {
      TimesZero(ty, o[d]);
    }
  }

  lemma TermsRight(ty: IntType, l: Layout, v: seq<nat>, n: seq<nat>, o: seq<int>)
    requires Within(v, n) && OffsetsIn(ty, l, n, o) && (forall i :: 0 <= i < |n| ==> n[i] > 0) && PositionsFit(ty, l, n)
    ensures TermSum(ty, v, o) == Number(l, v, n)
  {
    var a: seq<int> := seq(|n|, d requires 0 <= d < |n| => Offset(l, n, d));
    forall d | 0 <= d < |n|
      ensures Times(ty, v[d], o[d]) == v[d] * a[d]
    {
      TermRight(ty, l, v, n, o, d);
    }
    TermsAreDot(ty, v, o, a);
    DotIsNumber(l, v, n, a);
  }

  lemma {:induction false} TermsOfZeros(ty: IntType, v: seq<int>, o: seq<int>)
    requires |v| == |o| && forall d :: 0 <= d < |v| ==> v[d] == 0
    ensures TermSum(ty, v, o) == 0
  {
    if v != [] {
      var m := |v| - 1;
      TermsOfZeros(ty, v[..m], o[..m]);
      TimesZero(ty, o[m]);
    }
  }

  lemma {:induction false} TermOfUnit(ty: IntType, d: nat, x: nat, o: seq<int>)
    requires d < |o|
    ensures TermSum(ty, Unit(|o|, d, x), o) == Times(ty, x, o[d])
    decreases |o|
  {
    var m, v := |o| - 1, Unit(|o|, d, x);
    if d < m {
      assert v[..m] == Unit(m, d, x);
      TermOfUnit(ty, d, x, o[..m]);
      TimesZero(ty, o[m]);
    } else {
      TermsOfZeros(ty, v[..m], o[..m]);
    }
  }

  /** A tile, along one dimension from the low corner, whose position is wrong. */
  lemma WrongTile(ty: IntType, l: Layout, n: seq<nat>, o: seq<int>, d: nat) returns (v: seq<nat>)
    requires OffsetsIn(ty, l, n, o) && (forall i :: 0 <= i < |n| ==> n[i] > 0) && Prod(n) <= MAX_CELLS
    requires d < |n| && n[d] > 1 && !(Offset(l, n, d) <= ty.max && (n[d] - 1) * Offset(l, n, d) <= Promoted(ty).max)
    ensures Within(v, n) && AsPosition(TermSum(ty, v, o)) != Number(l, v, n)
  {
    var x := if Offset(l, n, d) <= ty.max then n[d] - 1 else 1;
    v := Unit(|n|, d, x);
    TermOfUnit(ty, d, x, o);
    UnitNumber(l, n, d, x);
    NumberBound(l, v, n);
    if Offset(l, n, d) <= ty.max {
      OffsetRight(ty, l, n, o, d);
      Overflows(Promoted(ty), x * Offset(l, n, d), Times(ty, x, o[d]));
    } else {
      OffsetHolds(ty, l, n, o, d);
      assert Times(ty, 1, o[d]) == o[d];
      Overflows(ty, Offset(l, n, d), o[d]);
    }
  }

  /** The computed position of every tile of a tile domain of n tiles is its number exactly when the positions
      fit. */
  lemma TilePositionsIff(ty: IntType, l: Layout, n: seq<nat>, o: seq<int>)
    requires OffsetsIn(ty, l, n, o) && (forall i :: 0 <= i < |n| ==> n[i] > 0) && Prod(n) <= MAX_CELLS
    ensures (forall v: seq<nat> {:trigger Within(v, n)} ::
               Within(v, n) ==> AsPosition(TermSum(ty, v, o)) == Number(l, v, n))
       <==> PositionsFit(ty, l, n)
  {
    if PositionsFit(ty, l, n) {
      forall v: seq<nat> | Within(v, n)
        ensures AsPosition(TermSum(ty, v, o)) == Number(l, v, n)
      {
        TermsRight(ty, l, v, n, o);
        NumberBound(l, v, n);
      }
    } else {
      var d :| 0 <= d < |n| && n[d] > 1 &&
               !(Offset(l, n, d) <= ty.max && (n[d] - 1) * Offset(l, n, d) <= Promoted(ty).max);
      var v := WrongTile(ty, l, n, o, d);
    }
  }

  /** With 20 x 20 x 20 tiles and coordinates of 8 bits, two tiles have the same position. */
  lemma CollisionExample()
    ensures OffsetsIn(UINT8, RowMajor, [20, 20, 20], [144, 20, 1])
    ensures TermSum(UINT8, [1, 0, 0], [144, 20, 1]) == 144 && TermSum(UINT8, [0, 7, 4], [144, 20, 1]) == 144
  {
    assert Store(UINT8, 400) == Store(UINT8, 144);
    var o := [144, 20, 1];
    assert [1, 0, 0] == Unit(3, 0, 1);
    TermOfUnit(UINT8, 0, 1, o);
    var v := [0, 7, 4];
    TermTake(UINT8, v, o, 0);
    TermTake(UINT8, v, o, 1);
    TermTake(UINT8, v, o, 2);
    assert v[..3] == v && o[..3] == o && v[..0] == [] && o[..0] == [];
  }

  // ---------------------------------------------------------------------------
  // The tile domain
  // ---------------------------------------------------------------------------

  /** The number of tiles along each dimension, as the source takes it. */
  ghost function CountsIn(ty: IntType, lo: seq<int>, hi: seq<int>): (n: seq<int>)
    requires |lo| == |hi|
    ensures |n| == |lo|
  {
    seq(|lo|, d requires 0 <= d < |lo| => Store(Promoted(ty), hi[d] - lo[d] + 1))
  }

  method TileCounts(ty: IntType, lo: seq<int>, hi: seq<int>) returns (n: seq<int>)
    requires |lo| == |hi|
    ensures n == CountsIn(ty, lo, hi)
  {
    n := [];
    for d := 0 to |lo|
      invariant |n| == d && forall i :: 0 <= i < d ==> n[i] == CountsIn(ty, lo, hi)[i]
    {
      n := n + [Store(Promoted(ty), hi[d] - lo[d] + 1)];
    }
  }

  /** The digits of a tile: its distance from the first tile, in the arithmetic type. */
  ghost function DigitsIn(ty: IntType, t: seq<int>, lo: seq<int>): (v: seq<int>)
    requires |t| == |lo|
    ensures |v| == |t|
  {
    seq(|t|, d requires 0 <= d < |t| => Store(Promoted(ty), t[d] - lo[d]))
  }

  /** The loop of covers: the second box contains the first. */
  method Inside(lo: seq<int>, hi: seq<int>, outerLo: seq<int>, outerHi: seq<int>) returns (inside: bool)
    requires |lo| == |hi| == |outerLo| == |outerHi|
    ensures inside <==> forall d :: 0 <= d < |lo| ==> outerLo[d] <= lo[d] && hi[d] <= outerHi[d]
  {
    for d := 0 to |lo|
      invariant forall i :: 0 <= i < d ==> outerLo[i] <= lo[i] && hi[i] <= outerHi[i]
    {
      if lo[d] < outerLo[d] || hi[d] > outerHi[d] {
        return false;
      }
    }
    return true;
  }

  class TileDomain {
    const ty: IntType
    const slice: Slice
    const layout: Layout
    var tileLo: seq<int>
    var tileHi: seq<int>
    var offsets: seq<int>

    ghost predicate Valid()
      reads this
    {
      && Sliced(slice) && tileLo == TileLoIn(ty, slice) && tileHi == TileHiIn(ty, slice)
      && OffsetsIn(ty, layout, CountsIn(ty, tileLo, tileHi), offsets)
    }

    /** The constructor: the tile domain of a slice, and the offsets for its layout. */
    constructor (ty: IntType, s: Slice, l: Layout)
      requires Sliced(s)
      ensures Valid() && this.ty == ty && slice == s && layout == l
    {
      var lo, hi := TileDomainOf(ty, s);
      var n := TileCounts(ty, lo, hi);
      var o;
      if l == RowMajor {
        o := TileOffsetsRow(ty, n);
      } else {
        o := TileOffsetsCol(ty, n);
      }
      this.ty, slice, layout, tileLo, tileHi, offsets := ty, s, l, lo, hi, o;
    }

    /** in_tile_domain. */
    method InTileDomain(t: seq<int>) returns (inside: bool)
      requires Valid() && |t| == |slice.dims|
      ensures inside == InBox(t, TileLoIn(ty, slice), TileHiIn(ty, slice))
    {
      for d := 0 to |t|
        invariant forall i :: 0 <= i < d ==> tileLo[i] <= t[i] <= tileHi[i]
      {
        if t[d] < tileLo[d] || t[d] > tileHi[d] {
          return false;
        }
      }
      return true;
    }

    /** tile_overlap: None for a tile outside the tile domain. */
    method TileOverlap(t: seq<int>) returns (r: Option<(seq<int>, seq<int>)>)
      requires Valid() && |t| == |slice.dims|
      ensures r == OverlapIn(ty, slice, t)
    {
      var inside := InTileDomain(t);
      if !inside {
        return None;
      }
      var lo, hi := OverlapOf(ty, slice, t);
      return Some((lo, hi));
    }

    /** covers. */
    method CoversOther(t: seq<int>, other: TileDomain) returns (covered: bool)
      requires Valid() && other.Valid() && ty == other.ty && slice.dims == other.slice.dims && |t| == |slice.dims|
      ensures covered == CoversIn(ty, slice, other.slice, t)
    {
      var r1 := TileOverlap(t);
      var r2 := other.TileOverlap(t);
      if r1.None? || r2.None? {
        return false;
      }
      covered := Inside(r2.value.0, r2.value.1, r1.value.0, r1.value.1);
    }

    /** tile_pos. */
    method TilePos(t: seq<int>) returns (pos: nat)
      requires Valid() && |t| == |slice.dims|
      ensures pos == TilePosIn(ty, slice, offsets, t)
    {
      pos := PosLoop(ty, t, tileLo, tileHi, offsets);
    }

    /** For a slice whose tiles can be counted, tile_pos is the number of the tile, for every tile of the tile domain,
        exactly when the positions fit. */
    lemma TilePosIff()
      requires Valid() && Countable(ty, slice)
      ensures (forall t {:trigger IsTile(t, slice)} :: IsTile(t, slice) ==> PosIsRight(ty, layout, slice, offsets, t))
         <==> PositionsFit(ty, layout, SliceCounts(slice))
    {
      TileDomainRight(ty, slice);
      SliceCountsAre(ty, slice);
      PositionsOfTilesIff(ty, layout, slice, offsets);
    }

    /** Then no two tiles share a position, all positions are below the number of tiles, and a tile outside, and no
        other, has the invalid one. */
    lemma TilePosOneToOne(t: seq<int>, u: seq<int>)
      requires Valid() && Countable(ty, slice) && PositionsFit(ty, layout, SliceCounts(slice))
      requires |t| == |u| == |slice.dims|
      ensures IsTile(t, slice) <==> TilePosIn(ty, slice, offsets, t) < Prod(SliceCounts(slice))
      ensures !IsTile(t, slice) <==> TilePosIn(ty, slice, offsets, t) == UINT64_MAX
      ensures IsTile(t, slice) && TilePosIn(ty, slice, offsets, t) == TilePosIn(ty, slice, offsets, u) ==> t == u
    {
      TilePosIff();
      TileDomainRight(ty, slice);
      TileBox(slice);
      if IsTile(t, slice) {
        PosBound(layout, t, TileLo(slice), TileHi(slice));
      }
      if IsTile(t, slice) && IsTile(u, slice) && TilePosIn(ty, slice, offsets, t) == TilePosIn(ty, slice, offsets, u) {
        PosInjective(layout, t, u, TileLo(slice), TileHi(slice));
      }
    }

    /** And every number below the number of tiles is the position of one. */
    lemma TilePosOnto(p: nat) returns (t: seq<int>)
      requires Valid() && Countable(ty, slice) && PositionsFit(ty, layout, SliceCounts(slice)) &&
               p < Prod(SliceCounts(slice))
      ensures IsTile(t, slice) && TilePosIn(ty, slice, offsets, t) == p
    {
      TilePosIff();
      TileDomainRight(ty, slice);
      TileBox(slice);
      t := PosOnto(layout, slice, p);
    }
  }

  /** The position that the source computes for a tile. */
  ghost function TilePosIn(ty: IntType, s: Slice, o: seq<int>, t: seq<int>): nat
    requires Sliced(s) && |t| == |s.dims| == |o|
  {
    if InBox(t, TileLoIn(ty, s), TileHiIn(ty, s)) then AsPosition(TermSum(ty, DigitsIn(ty, t, TileLoIn(ty, s)), o))
    else UINT64_MAX
  }

  /** The loop of tile_pos. */
  method PosLoop(ty: IntType, t: seq<int>, lo: seq<int>, hi: seq<int>, offsets: seq<int>) returns (pos: nat)
    requires |t| == |lo| == |hi| == |offsets|
    ensures pos == if InBox(t, lo, hi) then AsPosition(TermSum(ty, DigitsIn(ty, t, lo), offsets)) else UINT64_MAX
  {
    var sum := 0;
    ghost var v := DigitsIn(ty, t, lo);
    for d := 0 to |t|
      invariant forall i :: 0 <= i < d ==> lo[i] <= t[i] <= hi[i]
      invariant sum == TermSum(ty, v[..d], offsets[..d])
    {
      if t[d] < lo[d] || t[d] > hi[d] {
        return UINT64_MAX;
      }
      TermTake(ty, v, offsets, d);
      sum := sum + Times(ty, Store(Promoted(ty), t[d] - lo[d]), offsets[d]);
    }
    assert v[..|t|] == v && offsets[..|t|] == offsets;
    pos := AsPosition(sum);
  }

  /** The loop of tile_overlap. */
  method OverlapOf(ty: IntType, s: Slice, t: seq<int>) returns (lo: seq<int>, hi: seq<int>)
    requires Sliced(s) && |t| == |s.dims|
    ensures lo == LowCellIn(ty, s, t) && hi == HighCellIn(ty, s, t)
  {
    lo, hi := [], [];
    for d := 0 to |t|
      invariant |lo| == |hi| == d
      invariant forall i :: 0 <= i < d ==> lo[i] == LowCellIn(ty, s, t)[i] && hi[i] == HighCellIn(ty, s, t)[i]
    {
      var first := Store(ty, t[d] * s.dims[d].extent + s.dims[d].lo);
      var last := Store(ty, first + s.dims[d].extent - 1);
      lo := lo + [if first > s.lo[d] then first else s.lo[d]];
      hi := hi + [if last < s.hi[d] then last else s.hi[d]];
    }
  }

  // ---------------------------------------------------------------------------
  // Positions of the tiles of a slice
  // ---------------------------------------------------------------------------

  /** The number of tiles of the slice along each dimension. */
  ghost function SliceCounts(s: Slice): (n: seq<nat>)
    requires Sliced(s)
    ensures |n| == |s.dims|
  {
    TileBox(s);
    Sizes(TileLo(s), TileHi(s))
  }

  ghost predicate CountsHold(ty: IntType, s: Slice)
    requires Sliced(s)
  {
    forall d :: 0 <= d < |s.dims| ==> SliceCounts(s)[d] <= Promoted(ty).max
  }

  /** Tile numbers have the type, numbers of tiles the arithmetic type, and the number of all tiles 64 bits. */
  ghost predicate Countable(ty: IntType, s: Slice) {
    SliceOf(ty, s) && NumbersFit(ty, s) && CountsHold(ty, s) && Prod(SliceCounts(s)) <= MAX_CELLS
  }

  lemma SliceCountsAre(ty: IntType, s: Slice)
    requires SliceOf(ty, s) && NumbersFit(ty, s) && CountsHold(ty, s)
    ensures CountsIn(ty, TileLo(s), TileHi(s)) == SliceCounts(s)
    ensures forall d :: 0 <= d < |s.dims| ==> SliceCounts(s)[d] > 0
  {
    TileBox(s);
    forall d | 0 <= d < |s.dims|
      ensures CountsIn(ty, TileLo(s), TileHi(s))[d] == SliceCounts(s)[d] > 0
    {
      assert TileLo(s)[d] <= TileHi(s)[d];
      assert SliceCounts(s)[d] == TileHi(s)[d] - TileLo(s)[d] + 1 <= Promoted(ty).max;
    }
  }

  /** The computed position of a tile of the slice is its number. */
  ghost predicate PosIsRight(ty: IntType, l: Layout, s: Slice, o: seq<int>, t: seq<int>)
    requires Sliced(s) && IsTile(t, s) && |o| == |s.dims|
  {
    TilePosIn(ty, s, o, t) == Pos(l, t, TileLo(s), TileHi(s))
  }

  lemma DigitsRight(ty: IntType, s: Slice, t: seq<int>)
    requires Sliced(s) && CountsHold(ty, s) && IsTile(t, s)
    ensures DigitsIn(ty, t, TileLo(s)) == Rel(t, TileLo(s)) && Within(Rel(t, TileLo(s)), SliceCounts(s))
  {
    TileBox(s);
    RelWithin(t, TileLo(s), TileHi(s));
    forall d | 0 <= d < |t|
      ensures DigitsIn(ty, t, TileLo(s))[d] == Rel(t, TileLo(s))[d]
    {
      assert SliceCounts(s)[d] <= Promoted(ty).max && TileLo(s)[d] <= t[d] <= TileHi(s)[d];
    }
  }

  /** The tile with given digits. */
  lemma TileOfDigits(s: Slice, v: seq<nat>) returns (t: seq<int>)
    requires Sliced(s) && Within(v, SliceCounts(s))
    ensures IsTile(t, s) && Rel(t, TileLo(s)) == v
  {
    TileBox(s);
    t := seq(|v|, d requires 0 <= d < |v| => TileLo(s)[d] + v[d]);
    assert forall d :: 0 <= d < |v| ==> v[d] < SliceCounts(s)[d];
  }

  lemma PositionsOfTilesIff(ty: IntType, l: Layout, s: Slice, o: seq<int>)
    requires Countable(ty, s) && OffsetsIn(ty, l, SliceCounts(s), o)
    requires forall d :: 0 <= d < |s.dims| ==> SliceCounts(s)[d] > 0
    ensures (forall t {:trigger IsTile(t, s)} :: IsTile(t, s) ==> PosIsRight(ty, l, s, o, t))
       <==> PositionsFit(ty, l, SliceCounts(s))
  {
    var n := SliceCounts(s);
    TileDomainRight(ty, s);
    TilePositionsIff(ty, l, n, o);
    if PositionsFit(ty, l, n) {
      forall t | IsTile(t, s)
        ensures PosIsRight(ty, l, s, o, t)
      {
        DigitsRight(ty, s, t);
        assert Within(Rel(t, TileLo(s)), n);
      }
    } else {
      var v: seq<nat> :| Within(v, n) && AsPosition(TermSum(ty, v, o)) != Number(l, v, n);
      var t := TileOfDigits(s, v);
      DigitsRight(ty, s, t);
      assert !PosIsRight(ty, l, s, o, t);
    }
  }
}
