/** The last cell of a tile of a range, where the source splits the range: computed in the type of the coordinates,
    and exactly when that is the last cell. */
module RangeCeilings {
  import opened Transposition
  import opened Widths
  import opened DomainGrid
  import opened Coordinates
  import opened DimensionTiles
  import opened RangeRounding

  // ---------------------------------------------------------------------------
  // Rounding a distance that overflows
  // ---------------------------------------------------------------------------

  /** A value that has wrapped is right only if it has done so by the whole number of values. */
  lemma WrappedBy(ty: IntType, y: int, x: int, rest: nat)
    requires Holds(ty, y) && rest < Size(ty) && x == y - Size(ty) + rest
    ensures Store(ty, x) == y <==> rest == 0
  {
    assert Store(ty, x) == if x >= ty.min then x else x + Size(ty);
  }

  /** A distance p that overflows, rounded down to whole tiles, is right exactly when nothing was rounded. */
  lemma FloorIff(ty: IntType, p: nat, e: nat, b: int)
    requires ty.min < 0 && ty.max < p < Size(ty) && 0 < e <= ty.max && Holds(ty, RowOf(p, e) * e + b)
    ensures Store(ty, Div(Store(ty, p), e) * e + b) == RowOf(p, e) * e + b <==> p % e == 0 && Size(ty) % e == 0
  {
    var k := Size(ty) - p;
    var q, j := RowOf(p, e), RowOf(k, e);
    Wraps(ty, p);
    Quotient(p, e);
    Quotient(k, e);
    NegativeTimes(j, e);
    BothWhole(p, k, e);
    WrappedBy(ty, q * e + b, 0 - j * e + b, p % e + k % e);
  }

  // ---------------------------------------------------------------------------
  // A distance that fits, or wraps
  // ---------------------------------------------------------------------------

  /** The distance of a cell from the lower bound, once the cell has been stored in the type. */
  function DistanceIn(ty: IntType, dim: Dimension, x: int): int {
    DistanceOf(ty, dim, Store(ty, x))
  }

  /** The last cell before the tile at distance d. */
  function CellBefore(ty: IntType, dim: Dimension, d: int): int
    requires dim.extent > 0
  {
    Store(ty, Store(ty, Div(d, dim.extent)) * dim.extent + dim.lo - 1)
  }

  /** ceil_to_tile, for integers: mid, its tile and the result have the type of the coordinates. */
  function CeilIn(ty: IntType, dim: Dimension, r: Range, k: nat): int
    requires dim.extent > 0
  {
    CellBefore(ty, dim, DistanceIn(ty, dim, Mid(dim, r, k)))
  }

  /** The cell x has the type, or at least its distance from the lower bound has when that is computed in the type. */
  predicate MidFits(ty: IntType, dim: Dimension, x: int) {
    x - dim.lo <= Promoted(ty).max && (Promoted(ty) == ty || x <= ty.max)
  }

  lemma DistanceRight(ty: IntType, dim: Dimension, x: int)
    requires DimOf(ty, dim) && dim.lo <= x && MidFits(ty, dim, x)
    ensures DistanceIn(ty, dim, x) == x - dim.lo
  {
    if x > ty.max {
      assert Store(ty, x) == x - Size(ty);
      assert Store(ty, x - Size(ty) - dim.lo) == x - dim.lo;
    }
  }

  lemma FewTiles(q: nat, e: nat, m: nat)
    requires e > 0 && q * e <= m
    ensures q <= m && (e >= 2 ==> 2 * q <= m)
  {
    if e >= 2 {
      assert q * e == q * 2 + q * (e - 2);
    }
  }

  /** The number q of a tile, stored and multiplied again: only with tiles of one cell it may have wrapped. */
  lemma QuotientRight(ty: IntType, e: nat, lo: int, q: nat, x: int)
    requires 0 < e && Holds(ty, lo) && x == q * e && Holds(ty, x + lo - 1)
    requires q <= ty.max || e == 1
    ensures Store(ty, Store(ty, q) * e + lo - 1) == x + lo - 1
  {
    if q <= ty.max {
      SameTimes(Store(ty, q), q, e);
    } else {
      WrappedQuotient(ty, lo, q);
      SameTimes(Store(ty, q), Store(ty, q), e);
    }
  }

  lemma SameTimes(s: int, q: int, e: nat)
    requires s == q
    ensures s * e == q * e && (e == 1 ==> s * e == q)
  {
  }

  lemma WrappedQuotient(ty: IntType, lo: int, q: nat)
    requires Holds(ty, lo) && Holds(ty, q + lo - 1) && q > ty.max
    ensures Store(ty, Store(ty, q) + lo - 1) == q + lo - 1
  {
    assert Store(ty, q) == q - Size(ty);
    assert Store(ty, q - Size(ty) + lo - 1) == q + lo - 1;
  }

  lemma TileNumberFits(ty: IntType, dim: Dimension, x: int, q: nat)
    requires DimOf(ty, dim) && dim.lo <= x && MidFits(ty, dim, x) && q * dim.extent <= x - dim.lo
    ensures q <= ty.max || dim.extent == 1
  {
    FewTiles(q, dim.extent, x - dim.lo);
  }

  lemma CellBeforeRight(ty: IntType, dim: Dimension, d: nat, q: nat, x: int)
    requires DimOf(ty, dim) && q == Div(d, dim.extent) && x == q * dim.extent && Holds(ty, x + dim.lo - 1)
    requires q <= ty.max || dim.extent == 1
    ensures CellBefore(ty, dim, d) == x + dim.lo - 1
  {
    QuotientRight(ty, dim.extent, dim.lo, q, x);
  }

  /** The tile q of a cell x, times the extent. */
  lemma TileTimes(dim: Dimension, x: int, q: nat)
    requires Tiled(dim) && dim.lo <= x && q == Tile(dim, x)
    ensures Div(x - dim.lo, dim.extent) == q && q * dim.extent <= x - dim.lo
  {
    TileBounds(dim, x);
    IdxIs(q, dim.extent, 0);
  }

  lemma CeilIsProduct(dim: Dimension, r: Range, k: nat, q: nat)
    requires Tiled(dim) && Above(r, dim) && q == Tile(dim, r.lo) + k + 1
    ensures dim.lo <= Mid(dim, r, k) && Div(Mid(dim, r, k) - dim.lo, dim.extent) == q
    ensures q * dim.extent <= Mid(dim, r, k) - dim.lo && CeilToTile(dim, r, k) == q * dim.extent + dim.lo - 1
  {
    CeilIs(dim, r, k);
    TileTimes(dim, Mid(dim, r, k), q);
  }

  lemma CeilRight(ty: IntType, dim: Dimension, r: Range, k: nat)
    requires DimOf(ty, dim) && InDimension(r, dim) && k < TileNum(dim, r) - 1
    requires MidFits(ty, dim, Mid(dim, r, k))
    ensures CeilIn(ty, dim, r, k) == CeilToTile(dim, r, k)
  {
    var mid, q := Mid(dim, r, k), Tile(dim, r.lo) + k + 1;
    CeilInside(dim, r, k);
    CeilIsProduct(dim, r, k, q);
    DistanceRight(ty, dim, mid);
    TileNumberFits(ty, dim, mid, q);
    CellBeforeRight(ty, dim, mid - dim.lo, q, q * dim.extent);
  }

  /** Mid is less than an extent above the range. */
  lemma MidBound(dim: Dimension, r: Range, k: nat)
    requires Tiled(dim) && Above(r, dim) && k < TileNum(dim, r) - 1
    ensures Mid(dim, r, k) < First(dim, Tile(dim, r.hi) + 1) <= r.hi + dim.extent
  {
    var mid := Mid(dim, r, k);
    TileNumCounts(dim, r, 0);
    CeilIs(dim, r, k);
    TileBounds(dim, mid);
    TileBounds(dim, r.hi);
    FirstGrows(dim, Tile(dim, r.hi) + 1, Tile(dim, mid) + 1);
  }

  /** A result that is not in the range is wrong. */
  lemma MidWrong(ty: IntType, dim: Dimension, r: Range, k: nat, mid: int)
    requires DimOf(ty, dim) && InDimension(r, dim) && k < TileNum(dim, r) - 1 && mid == Mid(dim, r, k)
    requires !MidFits(ty, dim, mid) && !MayOverflow(ty)
    ensures CeilIn(ty, dim, r, k) < r.lo || CeilIn(ty, dim, r, k) >= r.hi
  {
    MidBound(dim, r, k);
    CeilIs(dim, r, k);
    if Promoted(ty) == ty {
      UnsignedWrong(ty, dim, mid);
    } else {
      NarrowWrong(ty, dim, mid);
    }
  }

  /** The result is below the domain, or the greatest value of the type. */
  ghost predicate Outside(ty: IntType, dim: Dimension, x: int) {
    x < dim.lo || x == ty.max
  }

  lemma BelowIsOutside(ty: IntType, dim: Dimension, x: int)
    requires DimOf(ty, dim) && ty.min - 1 <= x < dim.lo
    ensures Outside(ty, dim, Store(ty, x))
  {
    if x < ty.min {
      assert Store(ty, x) == Store(ty, x + Size(ty));
    }
  }

  /** At less than an extent. */
  lemma CellBeforeNear(ty: IntType, dim: Dimension, d: int)
    requires DimOf(ty, dim) && 0 <= d < dim.extent
    ensures Outside(ty, dim, CellBefore(ty, dim, d))
  {
    assert Div(d, dim.extent) == 0 && Store(ty, 0) == 0;
    assert CellBefore(ty, dim, d) == Store(ty, dim.lo - 1);
    BelowIsOutside(ty, dim, dim.lo - 1);
  }

  /** At a negative distance, with tiles of more than one cell. */
  lemma CellBeforeBelow(ty: IntType, dim: Dimension, k: int)
    requires DimOf(ty, dim) && dim.extent >= 2 && 0 < k <= dim.lo - ty.min
    ensures Outside(ty, dim, CellBefore(ty, dim, -k))
  {
    var e := dim.extent;
    var j: int := RowOf(k, e);
    Quotient(k, e);
    FewTiles(j, e, k);
    NegativeTimes(j, e);
    if ty.min < 0 || j == 0 {
      assert Store(ty, 0 - j) == 0 - j;
    } else {
      UnsignedTimes(ty, j, e, dim.lo - 1);
      assert Store(ty, 0 - j) * e + (dim.lo - 1) == Store(ty, 0 - j) * e + dim.lo - 1;
    }
    BelowIsOutside(ty, dim, dim.lo - j * e - 1);
  }

  /** A negative number that has been stored in an unsigned type may be multiplied all the same. */
  lemma UnsignedTimes(ty: IntType, j: int, e: nat, x: int)
    requires ty.min == 0 && 0 < j <= ty.max
    ensures Store(ty, Store(ty, 0 - j) * e + x) == Store(ty, x - j * e)
  {
    var m := Size(ty);
    assert Store(ty, 0 - j) == m - j;
    assert (m - j) * e == e * m - j * e;
    StoreShift(ty, x - j * e, e);
  }

  /** The distance has wrapped to less than an extent. */
  lemma UnsignedWrong(ty: IntType, dim: Dimension, mid: int)
    requires DimOf(ty, dim) && dim.lo <= mid < dim.hi + dim.extent && mid - dim.lo > ty.max && ty.min == 0 &&
             Promoted(ty) == ty
    ensures Outside(ty, dim, CellBefore(ty, dim, DistanceIn(ty, dim, mid)))
  {
    var d := mid - dim.lo - Size(ty);
    assert Store(ty, mid) == mid - Size(ty);
    assert Store(ty, mid - Size(ty) - dim.lo) == d;
    CellBeforeNear(ty, dim, d);
  }

  /** Mid itself has wrapped, to below the domain or to less than an extent above its lower bound. */
  lemma NarrowWrong(ty: IntType, dim: Dimension, mid: int)
    requires DimOf(ty, dim) && ty.max < mid < dim.hi + dim.extent && Promoted(ty) != ty
    ensures Outside(ty, dim, CellBefore(ty, dim, DistanceIn(ty, dim, mid)))
  {
    var m := mid - Size(ty);
    assert Store(ty, mid) == m && DistanceIn(ty, dim, mid) == m - dim.lo;
    if m >= dim.lo {
      CellBeforeNear(ty, dim, m - dim.lo);
    } else {
      CellBeforeBelow(ty, dim, dim.lo - m);
    }
  }

  /** The distance of mid overflows a signed type: what is rounded down is negative. */
  lemma SignedIff(ty: IntType, dim: Dimension, mid: int, q: nat)
    requires DimOf(ty, dim) && MayOverflow(ty) && ty.max < mid - dim.lo < Size(ty) && mid < dim.hi + dim.extent
    requires q == RowOf(mid - dim.lo, dim.extent) && Holds(ty, q * dim.extent + dim.lo - 1)
    ensures CellBefore(ty, dim, DistanceIn(ty, dim, mid)) == q * dim.extent + dim.lo - 1 <==>
              (mid - dim.lo) % dim.extent == 0 && Size(ty) % dim.extent == 0
  {
    var d, e := mid - dim.lo, dim.extent;
    SignedDistance(ty, dim, mid);
    NegativeQuotient(Size(ty) - d, e);
    Wraps(ty, d);
    FloorIff(ty, d, e, dim.lo - 1);
    assert Store(ty, Div(d - Size(ty), e)) == Div(d - Size(ty), e);
    assert Div(d - Size(ty), e) * e + (dim.lo - 1) == Div(d - Size(ty), e) * e + dim.lo - 1;
  }

  lemma SignedDistance(ty: IntType, dim: Dimension, mid: int)
    requires DimOf(ty, dim) && MayOverflow(ty) && ty.max < mid - dim.lo < Size(ty) && mid < dim.hi + dim.extent
    ensures DistanceIn(ty, dim, mid) == Store(ty, mid - dim.lo)
  {
    if mid > ty.max {
      assert Store(ty, mid) == mid - Size(ty);
      StoreAgain(ty, mid - Size(ty) - dim.lo);
    }
  }

  /** It overflows by even more: the distance has wrapped to less than an extent. */
  lemma SignedFar(ty: IntType, dim: Dimension, mid: int)
    requires DimOf(ty, dim) && MayOverflow(ty) && Size(ty) <= mid - dim.lo && mid < dim.hi + dim.extent
    ensures Outside(ty, dim, CellBefore(ty, dim, DistanceIn(ty, dim, mid)))
  {
    var d := mid - dim.lo - Size(ty);
    assert Store(ty, mid) == mid - Size(ty);
    assert Store(ty, mid - Size(ty) - dim.lo) == d;
    CellBeforeNear(ty, dim, d);
  }

  /** Mid fits, or nothing is rounded when a signed distance overflows. */
  ghost predicate CeilFits(ty: IntType, dim: Dimension, mid: int)
    requires dim.extent > 0
  {
    || MidFits(ty, dim, mid)
    || (MayOverflow(ty) && (mid - dim.lo) % dim.extent == 0 && Size(ty) % dim.extent == 0)
  }

  lemma CeilOverflows(ty: IntType, dim: Dimension, r: Range, k: nat, mid: int)
    requires DimOf(ty, dim) && InDimension(r, dim) && k < TileNum(dim, r) - 1 && mid == Mid(dim, r, k)
    requires MayOverflow(ty) && !MidFits(ty, dim, mid)
    ensures CeilIn(ty, dim, r, k) == CeilToTile(dim, r, k) <==> CeilFits(ty, dim, mid)
  {
    var q := Tile(dim, r.lo) + k + 1;
    MidBound(dim, r, k);
    CeilIs(dim, r, k);
    CeilInside(dim, r, k);
    CeilIsProduct(dim, r, k, q);
    if mid - dim.lo < Size(ty) {
      SignedIff(ty, dim, mid, q);
    } else {
      SignedFar(ty, dim, mid);
      if (mid - dim.lo) % dim.extent == 0 {
        Quotient(mid - dim.lo, dim.extent);
      }
    }
  }

  /** Exactly when ceil_to_tile gives what it is for. */
  lemma CeilIff(ty: IntType, dim: Dimension, r: Range, k: nat)
    requires DimOf(ty, dim) && InDimension(r, dim) && k < TileNum(dim, r) - 1
    ensures CeilIn(ty, dim, r, k) == CeilToTile(dim, r, k) <==> CeilFits(ty, dim, Mid(dim, r, k))
  {
    if MidFits(ty, dim, Mid(dim, r, k)) {
      CeilRight(ty, dim, r, k);
    } else if MayOverflow(ty) {
      CeilOverflows(ty, dim, r, k, Mid(dim, r, k));
    } else {
      MidWrong(ty, dim, r, k, Mid(dim, r, k));
      CeilInside(dim, r, k);
    }
  }

  ghost predicate CeilIsRight(ty: IntType, dim: Dimension, r: Range, k: nat)
    requires Tiled(dim)
  {
    InDimension(r, dim) && k < TileNum(dim, r) - 1 ==> CeilIn(ty, dim, r, k) == CeilToTile(dim, r, k)
  }

  /** The dimension is one tile, or has tiles of one cell, or the expanded dimension fits. */
  ghost predicate CeilsFit(ty: IntType, dim: Dimension)
    requires Tiled(dim)
  {
    Tile(dim, dim.hi) == 0 || dim.extent == 1 || MidFits(ty, dim, ExpandedMax(dim))
  }

  /** All ceil_to_tile of a dimension are right exactly when they fit. */
  lemma CeilsAreRightIff(ty: IntType, dim: Dimension)
    requires DimOf(ty, dim)
    ensures (forall r, k: nat :: CeilIsRight(ty, dim, r, k)) <==> CeilsFit(ty, dim)
  {
    if CeilsFit(ty, dim) {
      forall r, k: nat
        ensures CeilIsRight(ty, dim, r, k)
      {
        CeilsRight(ty, dim, r, k);
      }
    } else {
      var r := LastTwoTiles(dim);
      CeilIff(ty, dim, r, 0);
      EndIsNotWhole(dim);
      assert !CeilIsRight(ty, dim, r, 0);
    }
  }

  lemma CeilsRight(ty: IntType, dim: Dimension, r: Range, k: nat)
    requires DimOf(ty, dim) && CeilsFit(ty, dim)
    ensures CeilIsRight(ty, dim, r, k)
  {
    if InDimension(r, dim) && k < TileNum(dim, r) - 1 {
      MidAtMost(dim, r, k);
      if dim.extent == 1 {
        OneCellFits(ty, dim, ExpandedMax(dim));
      }
      CeilIff(ty, dim, r, k);
    }
  }

  /** With tiles of one cell nothing is rounded. */
  lemma OneCellFits(ty: IntType, dim: Dimension, x: int)
    requires DimOf(ty, dim) && x == ExpandedMax(dim) && dim.extent == 1
    ensures MidFits(ty, dim, x) || MayOverflow(ty)
  {
    ExpandIs(dim, Range(dim.lo, dim.hi));
    TileBounds(dim, dim.hi);
  }

  /** The end of the expanded dimension is the last cell of a tile. */
  lemma EndIsNotWhole(dim: Dimension)
    requires Tiled(dim) && dim.extent > 1
    ensures (ExpandedMax(dim) - dim.lo) % dim.extent == dim.extent - 1
  {
    var t, e := Tile(dim, dim.hi), dim.extent;
    ExpandIs(dim, Range(dim.lo, dim.hi));
    IdxIs(t + 1, e, 0);
    OneMore(t, e);
    DivParts(t, e, e - 1);
  }

  lemma MidAtMost(dim: Dimension, r: Range, k: nat)
    requires Tiled(dim) && InDimension(r, dim) && k < TileNum(dim, r) - 1
    ensures Mid(dim, r, k) <= ExpandedMax(dim) && Tile(dim, dim.hi) > 0
  {
    MidBound(dim, r, k);
    TileNumCounts(dim, r, 0);
    TileMonotone(dim, r.hi, dim.hi);
    FirstGrows(dim, Tile(dim, dim.hi) + 1, Tile(dim, r.hi) + 1);
    ExpandIs(dim, Range(dim.lo, dim.hi));
  }

  /** The range of the last cell of the last tile but one and the last tile. */
  lemma LastTwoTiles(dim: Dimension) returns (r: Range)
    requires Tiled(dim) && Tile(dim, dim.hi) > 0
    ensures Above(r, dim) && r.hi == dim.hi && TileNum(dim, r) == 2 && Mid(dim, r, 0) == ExpandedMax(dim)
  {
    var t := Tile(dim, dim.hi);
    r := Range(First(dim, t) - 1, dim.hi);
    FirstTile(dim, t);
    TileBounds(dim, dim.hi);
    TileNumCounts(dim, r, 0);
    ExpandIs(dim, Range(dim.lo, dim.hi));
    IdxParts(t, dim.extent, 0);
  }

  /** Splitting at ceil_to_tile(r, k), for k below the last tile of the range, leaves exactly k + 1 tiles
      on the left, and no tile is counted on both sides. */
  lemma CeilSplits(ty: IntType, dim: Dimension, r: Range, k: nat)
    requires DimOf(ty, dim) && InDimension(r, dim) && k < TileNum(dim, r) - 1
    requires CeilFits(ty, dim, Mid(dim, r, k))
    ensures var v := CeilIn(ty, dim, r, k); var (r1, r2) := SplitRange(r, v);
            && r.lo <= v < r.hi
            && TileNum(dim, r1) == k + 1
            && TileNum(dim, r1) + TileNum(dim, r2) == TileNum(dim, r)
  {
    CeilIff(ty, dim, r, k);
    CeilInside(dim, r, k);
    CeilToTileSplits(dim, r, k);
  }

  /** In 8 bits, with a domain up to 250 and an extent of 100, splitting the range from 99 to 250 after two tiles
      gives 255. */
  lemma NarrowCeilExample()
    ensures TileNum(Dimension(0, 250, 100), Range(99, 250)) == 3
    ensures CeilIn(UINT8, Dimension(0, 250, 100), Range(99, 250), 1) == 255
  {
    assert Store(UINT8, 299) == Store(UINT8, 43) && Store(UINT8, -1) == Store(UINT8, 255);
  }

  /** With 32-bit coordinates and an extent that the check accepts, the cell before the second tile. */
  lemma SignedCeilExample()
    ensures var dim, r := Dimension(0, 2147483646, 1073741825), Range(1073741824, 2147483646);
            && CheckTileExtent(INT32, dim.lo, dim.hi, dim.extent) == Accepted && TileNum(dim, r) == 2
            && CeilToTile(dim, r, 0) == 1073741824 && CeilIn(INT32, dim, r, 0) == -1073741826
  {
    DivIs(2147483646, 1073741825);
    DivIs(1073741824, 1073741825);
    DivIs(2147483649, 1073741825);
    DivIs(-2147483647, 1073741825);
    assert Store(INT32, 2147483649) == Store(INT32, -2147483647);
  }
}
