/** One coordinate of a cell: its tile and its place in the tile, computed in the type of the coordinates. */
module Coordinates {
  import opened Widths
  import opened Transposition
  import opened DomainGrid

  /** A dimension whose bounds and extent have the type. */
  ghost predicate DimOf(ty: IntType, dim: Dimension) {
    Holds(ty, dim.lo) && Holds(ty, dim.hi) && dim.lo <= dim.hi && 0 < dim.extent <= ty.max
  }

  /** A coordinate of a dimension that is one too large for the type when it is counted from the lower bound. */
  lemma Wraps(ty: IntType, p: int)
    requires ty.max < p < Size(ty)
    ensures Store(ty, p) == p - Size(ty) < 0
  {
  }

  // ---------------------------------------------------------------------------
  // The place in the tile
  // ---------------------------------------------------------------------------

  /** The normalised coordinate: stored in the type, and then reduced by whole extents. */
  function NormIn(ty: IntType, x: int, dim: Dimension): int
    requires dim.extent > 0
  {
    var norm := Store(ty, x - dim.lo);
    norm - Div(norm, dim.extent) * dim.extent
  }

  lemma NormExact(ty: IntType, x: int, dim: Dimension)
    requires DimOf(ty, dim) && dim.lo <= x && x - dim.lo <= ty.max
    ensures NormIn(ty, x, dim) == ColOf(x - dim.lo, dim.extent)
  {
    Quotient(x - dim.lo, dim.extent);
  }

  /** A coordinate that has wrapped is right only if it is zero. */
  lemma NormWrapped(ty: IntType, x: int, dim: Dimension, k: nat)
    requires DimOf(ty, dim) && dim.lo <= x <= dim.hi && x - dim.lo > ty.max && k == Size(ty) - (x - dim.lo)
    ensures NormIn(ty, x, dim) == ColOf(x - dim.lo, dim.extent) <==>
            k % dim.extent == 0 && (x - dim.lo) % dim.extent == 0
  {
    Wraps(ty, x - dim.lo);
    Quotient(x - dim.lo, dim.extent);
    NegativeRest(k, dim.extent);
  }

  lemma NegativeRest(k: nat, e: nat)
    requires e > 0
    ensures (0 - k) - Div(0 - k, e) * e == 0 - k % e
  {
    Quotient(k, e);
    assert (0 - RowOf(k, e)) * e == 0 - RowOf(k, e) * e;
  }

  /** The coordinates fit, or what does not fit is a multiple of the extent. */
  ghost predicate NormFits(ty: IntType, dim: Dimension)
    requires dim.extent > 0
  {
    || dim.hi - dim.lo <= ty.max
    || dim.extent == 1
    || (dim.hi - dim.lo == ty.max + 1 && (ty.max + 1) % dim.extent == 0)
  }

  lemma NormRight(ty: IntType, x: int, dim: Dimension)
    requires DimOf(ty, dim) && dim.lo <= x <= dim.hi && NormFits(ty, dim)
    ensures NormIn(ty, x, dim) == ColOf(x - dim.lo, dim.extent)
  {
    if x - dim.lo <= ty.max {
      NormExact(ty, x, dim);
    } else {
      NormWrapped(ty, x, dim, Size(ty) - (x - dim.lo));
    }
  }

  lemma TwoMultiples(a: nat, e: nat)
    requires e > 0 && a % e == 0 && (a + 1) % e == 0
    ensures e == 1
  {
    var p, q := a / e, (a + 1) / e;
    assert (q - p) * e == 1;
    assert q - p >= 2 ==> (q - p) * e >= 2;
  }

  /** A coordinate whose place in its tile is wrong. */
  lemma WrongNorm(ty: IntType, dim: Dimension) returns (x: int)
    requires DimOf(ty, dim) && !NormFits(ty, dim)
    ensures dim.lo <= x <= dim.hi && NormIn(ty, x, dim) != ColOf(x - dim.lo, dim.extent)
  {
    x := dim.lo + ty.max + 1;
    NormWrapped(ty, x, dim, ty.max + 1);
    if (ty.max + 1) % dim.extent == 0 {
      x := x + 1;
      NormWrapped(ty, x, dim, ty.max);
      if ty.max % dim.extent == 0 {
        TwoMultiples(ty.max, dim.extent);
      }
    }
  }

  /** Every coordinate of the dimension has its place in its tile exactly when the coordinates fit. */
  lemma NormsIff(ty: IntType, dim: Dimension)
    requires DimOf(ty, dim)
    ensures (forall x {:trigger NormIn(ty, x, dim)} ::
               dim.lo <= x <= dim.hi ==> NormIn(ty, x, dim) == ColOf(x - dim.lo, dim.extent))
       <==> NormFits(ty, dim)
  {
    if NormFits(ty, dim) {
      forall x {:trigger NormIn(ty, x, dim)} | dim.lo <= x <= dim.hi
        ensures NormIn(ty, x, dim) == ColOf(x - dim.lo, dim.extent)
      {
        NormRight(ty, x, dim);
      }
    } else {
      var x := WrongNorm(ty, dim);
    }
  }

  // ---------------------------------------------------------------------------
  // The tile
  // ---------------------------------------------------------------------------

  /** The tile of a coordinate: the difference in the arithmetic type, the quotient in the type. */
  function TileIn(ty: IntType, x: int, dim: Dimension): int
    requires dim.extent > 0
  {
    Store(ty, Div(Store(Promoted(ty), x - dim.lo), dim.extent))
  }

  /** No difference of coordinates overflows, and every tile number has the type. */
  ghost predicate TilesFit(ty: IntType, dim: Dimension)
    requires dim.extent > 0 && dim.lo <= dim.hi
  {
    dim.hi - dim.lo <= Promoted(ty).max && RowOf(dim.hi - dim.lo, dim.extent) <= ty.max
  }

  lemma TileRight(ty: IntType, x: int, dim: Dimension)
    requires DimOf(ty, dim) && dim.lo <= x <= dim.hi && TilesFit(ty, dim)
    ensures TileIn(ty, x, dim) == RowOf(x - dim.lo, dim.extent)
  {
    Quotient(x - dim.lo, dim.extent);
    RowOfMonotone(x - dim.lo, dim.hi - dim.lo, dim.extent);
  }

  /** A difference that overflows does so in the type itself. */
  lemma OverflowsItself(ty: IntType, q: int)
    requires Promoted(ty).max < q < Size(ty)
    ensures Promoted(ty) == ty
  {
  }

  /** The difference wraps, so the tile number is not positive. */
  lemma DifferenceWraps(ty: IntType, q: int, e: nat)
    requires 0 < e <= ty.max < q < Size(ty)
    ensures Store(ty, Div(Store(ty, q), e)) <= 0 < RowOf(q, e)
  {
    Wraps(ty, q);
    NegativeQuotient(Size(ty) - q, e);
    StoreNotAbove(ty, Div(q - Size(ty), e));
  }

  lemma StoreNotAbove(ty: IntType, x: int)
    requires ty.min <= x <= 0
    ensures Store(ty, x) <= 0
  {
  }

  lemma LastTileWrong(ty: IntType, dim: Dimension)
    requires DimOf(ty, dim) && !TilesFit(ty, dim)
    ensures TileIn(ty, dim.hi, dim) < RowOf(dim.hi - dim.lo, dim.extent)
  {
    if dim.hi - dim.lo > Promoted(ty).max {
      OverflowsItself(ty, dim.hi - dim.lo);
      DifferenceWraps(ty, dim.hi - dim.lo, dim.extent);
    }
  }

  lemma NegativeQuotient(k: nat, e: nat)
    requires e > 0
    ensures 0 - k <= Div(0 - k, e) <= 0
  {
    RowOfAtMost(k, e);
  }

  /** Every coordinate of the dimension gets its tile exactly when the tiles fit. */
  lemma TilesIff(ty: IntType, dim: Dimension)
    requires DimOf(ty, dim)
    ensures (forall x {:trigger TileIn(ty, x, dim)} ::
               dim.lo <= x <= dim.hi ==> TileIn(ty, x, dim) == RowOf(x - dim.lo, dim.extent))
       <==> TilesFit(ty, dim)
  {
    if TilesFit(ty, dim) {
      forall x {:trigger TileIn(ty, x, dim)} | dim.lo <= x <= dim.hi
        ensures TileIn(ty, x, dim) == RowOf(x - dim.lo, dim.extent)
      {
        TileRight(ty, x, dim);
      }
    } else {
      LastTileWrong(ty, dim);
    }
  }

  /** Coordinates from -100 to 99 in 8 bits, with tiles of 50 and of 1. */
  lemma NarrowExample()
    ensures DimOf(INT8, Dimension(-100, 99, 50)) && DimOf(INT8, Dimension(-100, 99, 1))
    ensures NormIn(INT8, 55, Dimension(-100, 99, 50)) == -1 && NormIn(INT8, 56, Dimension(-100, 99, 50)) == 0
    ensures TileIn(INT8, 99, Dimension(-100, 99, 1)) == -57
  {
    DivIs(-101, 50);
    DivIs(-100, 50);
    DivIs(199, 1);
    assert Store(INT8, 155) == Store(INT8, -101) && Store(INT8, 156) == Store(INT8, -100) &&
           Store(INT8, 199) == Store(INT8, -57);
  }
}
