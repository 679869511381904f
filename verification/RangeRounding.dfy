/** Rounding ranges of a dimension to its tiles in the type of the coordinates: exactly when the rounded values are
    those of the tiles. */
module RangeRounding {
  import opened Transposition
  import opened Widths
  import opened DomainGrid
  import opened Coordinates
  import opened DimensionTiles

  /** A range of the dimension. */
  ghost predicate InDimension(r: Range, dim: Dimension) {
    dim.lo <= r.lo <= r.hi <= dim.hi
  }

  lemma NegativeTimes(j: nat, e: nat)
    ensures (0 - j) * e == 0 - j * e
  {
  }

  // ---------------------------------------------------------------------------
  // Rounding down
  // ---------------------------------------------------------------------------

  /** The multiple of e next to w on the side of zero. */
  function Rounded(w: int, e: nat): int
    requires e > 0
    decreases if w >= 0 then w else 0 - w
  {
    if w >= e then Rounded(w - e, e) + e else if 0 - w >= e then Rounded(w + e, e) - e else 0
  }

  /** It is a quotient times e, and what is left has the sign of w. */
  lemma {:induction false} RoundedIs(w: int, e: nat)
    requires e > 0
    ensures Rounded(w, e) == Div(w, e) * e
    ensures w - Rounded(w, e) == if w >= 0 then w % e else 0 - (0 - w) % e
  {
    RoundedUp(if w >= 0 then w else 0 - w, e);
    if w >= 0 {
      Quotient(w, e);
    } else {
      Quotient(0 - w, e);
      NegativeTimes(RowOf(0 - w, e), e);
    }
  }

  lemma {:induction false} RoundedUp(p: nat, e: nat)
    requires e > 0
    ensures Rounded(p, e) == RowOf(p, e) * e && Rounded(0 - p, e) == 0 - RowOf(p, e) * e
  {
    if p >= e {
      RoundedUp(p - e, e);
      OneMore(RowOf(p - e, e), e);
    }
  }

  /** Two numbers of whole tiles add up to one. */
  lemma BothWhole(p: nat, k: nat, e: nat)
    requires e > 0
    ensures p % e == 0 && k % e == 0 <==> p % e == 0 && (p + k) % e == 0
  {
    if p % e == 0 {
      var q, j := p / e, k / e;
      assert p + k == (q + j) * e + k % e;
      DivParts(q + j, e, k % e);
    }
  }

  /** The distance of a cell from the lower bound. */
  function DistanceOf(ty: IntType, dim: Dimension, x: int): int {
    Store(Promoted(ty), x - dim.lo)
  }

  // ---------------------------------------------------------------------------
  // Expanding to tiles
  // ---------------------------------------------------------------------------

  /** The first and the last cell of the tile at distance w. */
  function FirstAt(ty: IntType, dim: Dimension, w: int): int
    requires dim.extent > 0
  {
    Store(ty, Rounded(w, dim.extent) + dim.lo)
  }

  function LastAt(ty: IntType, dim: Dimension, w: int): int
    requires dim.extent > 0
  {
    Store(ty, Rounded(w, dim.extent) + dim.extent - 1 + dim.lo)
  }

  /** expand_to_tile, for integers: both ends of the result have the type of the coordinates. */
  function ExpandIn(ty: IntType, dim: Dimension, r: Range): Range
    requires dim.extent > 0
  {
    Range(FirstAt(ty, dim, DistanceOf(ty, dim, r.lo)), LastAt(ty, dim, DistanceOf(ty, dim, r.hi)))
  }

  lemma ExpandInIs(ty: IntType, dim: Dimension, r: Range, a: int, b: int)
    requires dim.extent > 0
    requires a == Div(Store(Promoted(ty), r.lo - dim.lo), dim.extent)
    requires b == Div(Store(Promoted(ty), r.hi - dim.lo), dim.extent)
    ensures ExpandIn(ty, dim, r) == Range(Store(ty, a * dim.extent + dim.lo),
                                          Store(ty, (b + 1) * dim.extent - 1 + dim.lo))
  {
    RoundedIs(Store(Promoted(ty), r.lo - dim.lo), dim.extent);
    RoundedIs(Store(Promoted(ty), r.hi - dim.lo), dim.extent);
    OneMore(b, dim.extent);
  }

  /** A range above the lower bound of the dimension, in the type. */
  ghost predicate AboveIn(ty: IntType, r: Range, dim: Dimension) {
    Above(r, dim) && r.hi <= ty.max
  }

  /** The distance of x from the lower bound does not overflow, or nothing is rounded when it does. */
  ghost predicate DistanceFits(ty: IntType, dim: Dimension, x: int)
    requires dim.extent > 0
  {
    x - dim.lo <= Promoted(ty).max || ((x - dim.lo) % dim.extent == 0 && Size(ty) % dim.extent == 0)
  }

  /** The distances of both ends fit, and so does the end of the last tile. */
  ghost predicate ExpansionFits(ty: IntType, dim: Dimension, r: Range)
    requires dim.extent > 0
  {
    DistanceFits(ty, dim, r.lo) && DistanceFits(ty, dim, r.hi) && ExpandToTile(dim, r).hi <= ty.max
  }

  /** The remainder of a distance by the extent. */
  function RestIn(ty: IntType, dim: Dimension, x: int): int
    requires dim.extent > 0
  {
    var w := DistanceOf(ty, dim, x);
    w - Rounded(w, dim.extent)
  }

  /** p, or p and the number of values more or less. */
  ghost predicate Near(ty: IntType, w: int, p: int) {
    w == p || w == p - Size(ty) || w == p + Size(ty)
  }

  lemma DistanceNear(ty: IntType, dim: Dimension, x: int)
    requires DimOf(ty, dim) && Holds(ty, x)
    ensures Near(ty, DistanceOf(ty, dim, x), x - dim.lo)
  {
    var p := x - dim.lo;
    if p > Promoted(ty).max {
      OverflowsItself(ty, p);
    }
  }

  lemma NearStore(ty: IntType, w: int, p: int, y: int)
    requires Near(ty, w, p)
    ensures Store(ty, w + y) == Store(ty, p + y)
  {
    StoreAgain(ty, p + y);
    StoreAgain(ty, p + y - Size(ty));
  }

  /** Rounding to m takes the remainder away. */
  lemma NearRounded(ty: IntType, w: int, p: int, m: int, b: int)
    requires Near(ty, w, p)
    ensures Store(ty, m + b) == Store(ty, p + b - (w - m))
  {
    NearStore(ty, w, p, b + m - w);
  }

  lemma FirstAtIs(ty: IntType, dim: Dimension, x: int, w: int)
    requires dim.extent > 0 && Near(ty, w, x - dim.lo)
    ensures FirstAt(ty, dim, w) == Store(ty, x - (w - Rounded(w, dim.extent)))
  {
    NearRounded(ty, w, x - dim.lo, Rounded(w, dim.extent), dim.lo);
  }

  lemma LastAtIs(ty: IntType, dim: Dimension, x: int, w: int)
    requires dim.extent > 0 && Near(ty, w, x - dim.lo)
    ensures LastAt(ty, dim, w) == Store(ty, x - (w - Rounded(w, dim.extent)) + dim.extent - 1)
  {
    NearRounded(ty, w, x - dim.lo, Rounded(w, dim.extent), dim.lo + dim.extent - 1);
  }

  lemma LoByRest(ty: IntType, dim: Dimension, r: Range)
    requires DimOf(ty, dim) && Holds(ty, r.lo)
    ensures ExpandIn(ty, dim, r).lo == Store(ty, r.lo - RestIn(ty, dim, r.lo))
  {
    DistanceNear(ty, dim, r.lo);
    FirstAtIs(ty, dim, r.lo, DistanceOf(ty, dim, r.lo));
  }

  lemma HiByRest(ty: IntType, dim: Dimension, r: Range)
    requires DimOf(ty, dim) && Holds(ty, r.hi)
    ensures ExpandIn(ty, dim, r).hi == Store(ty, r.hi - RestIn(ty, dim, r.hi) + dim.extent - 1)
  {
    DistanceNear(ty, dim, r.hi);
    LastAtIs(ty, dim, r.hi, DistanceOf(ty, dim, r.hi));
  }

  /** The remainder is right exactly when the distance fits. */
  lemma RestIff(ty: IntType, dim: Dimension, x: int)
    requires DimOf(ty, dim) && dim.lo <= x <= ty.max
    ensures RestIn(ty, dim, x) == (x - dim.lo) % dim.extent <==> DistanceFits(ty, dim, x)
    ensures RestIn(ty, dim, x) != (x - dim.lo) % dim.extent ==>
            MayOverflow(ty) && 0 - dim.extent < RestIn(ty, dim, x) <= 0
  {
    var p, e := x - dim.lo, dim.extent;
    RoundedIs(Store(Promoted(ty), p), e);
    if p > Promoted(ty).max {
      OverflowsItself(ty, p);
      Wraps(ty, p);
      BothWhole(p, Size(ty) - p, e);
    }
  }

  /** A value that is off by less than the number of values is right only if it is off by nothing. */
  lemma OffBy(ty: IntType, y: int, x: int)
    requires Holds(ty, y) && y - Size(ty) < x < y + Size(ty)
    ensures Store(ty, x) == y <==> x == y
  {
    assert Store(ty, x) == if x > ty.max then x - Size(ty) else if x < ty.min then x + Size(ty) else x;
  }

  /** Rounding x down and going b further. */
  lemma EndIff(ty: IntType, dim: Dimension, x: int, b: nat)
    requires DimOf(ty, dim) && dim.lo <= x <= ty.max && b < dim.extent
    ensures Store(ty, x - RestIn(ty, dim, x) + b) == x - (x - dim.lo) % dim.extent + b <==>
              DistanceFits(ty, dim, x) && x - (x - dim.lo) % dim.extent + b <= ty.max
  {
    var y := x - (x - dim.lo) % dim.extent + b;
    RestIff(ty, dim, x);
    Quotient(x - dim.lo, dim.extent);
    if y <= ty.max {
      OffBy(ty, y, x - RestIn(ty, dim, x) + b);
    }
  }

  lemma ExpandEnds(dim: Dimension, r: Range)
    requires Tiled(dim) && Above(r, dim)
    ensures ExpandToTile(dim, r).lo == r.lo - (r.lo - dim.lo) % dim.extent
    ensures ExpandToTile(dim, r).hi == r.hi - (r.hi - dim.lo) % dim.extent + (dim.extent - 1)
  {
    Quotient(r.lo - dim.lo, dim.extent);
    Quotient(r.hi - dim.lo, dim.extent);
    OneMore(RowOf(r.hi - dim.lo, dim.extent), dim.extent);
  }

  lemma ExpandLoIff(ty: IntType, dim: Dimension, r: Range)
    requires DimOf(ty, dim) && AboveIn(ty, r, dim)
    ensures ExpandIn(ty, dim, r).lo == ExpandToTile(dim, r).lo <==> DistanceFits(ty, dim, r.lo)
  {
    LoByRest(ty, dim, r);
    ExpandEnds(dim, r);
    EndIff(ty, dim, r.lo, 0);
  }

  lemma ExpandHiIff(ty: IntType, dim: Dimension, r: Range)
    requires DimOf(ty, dim) && AboveIn(ty, r, dim)
    ensures ExpandIn(ty, dim, r).hi == ExpandToTile(dim, r).hi <==>
              DistanceFits(ty, dim, r.hi) && ExpandToTile(dim, r).hi <= ty.max
  {
    HiByRest(ty, dim, r);
    ExpandEnds(dim, r);
    EndIff(ty, dim, r.hi, dim.extent - 1);
  }

  /** Exactly when a range is expanded to its tiles. */
  lemma ExpandIff(ty: IntType, dim: Dimension, r: Range)
    requires DimOf(ty, dim) && AboveIn(ty, r, dim)
    ensures ExpandIn(ty, dim, r) == ExpandToTile(dim, r) <==> ExpansionFits(ty, dim, r)
  {
    ExpandLoIff(ty, dim, r);
    ExpandHiIff(ty, dim, r);
  }

  /** No difference of the dimension overflows, or those that do are not rounded. */
  ghost predicate DistancesFit(ty: IntType, dim: Dimension)
    requires dim.extent > 0
  {
    var max := Promoted(ty).max;
    dim.hi - dim.lo <= max || dim.extent == 1 || (dim.hi - dim.lo == max + 1 && (max + 1) % dim.extent == 0)
  }

  lemma Twice(n: nat, e: nat)
    requires e > 0 && n % e == 0
    ensures (n + n) % e == 0
  {
    BothWhole(n, n, e);
  }

  lemma DistanceRightAt(ty: IntType, dim: Dimension, x: int)
    requires DimOf(ty, dim) && dim.lo <= x <= dim.hi && DistancesFit(ty, dim)
    ensures DistanceFits(ty, dim, x)
  {
    if x - dim.lo > Promoted(ty).max {
      OverflowsItself(ty, x - dim.lo);
      if dim.extent > 1 {
        Twice(ty.max + 1, dim.extent);
      }
    }
  }

  /** A cell whose distance does not fit. */
  lemma WrongDistance(ty: IntType, dim: Dimension) returns (x: int)
    requires DimOf(ty, dim) && !DistancesFit(ty, dim)
    ensures dim.lo <= x <= dim.hi && !DistanceFits(ty, dim, x)
  {
    OverflowsItself(ty, dim.hi - dim.lo);
    x := dim.lo + ty.max + 1;
    if (ty.max + 1) % dim.extent == 0 {
      x := x + 1;
      if (ty.max + 2) % dim.extent == 0 {
        TwoMultiples(ty.max + 1, dim.extent);
      }
    }
  }

  ghost predicate ExpandIsRight(ty: IntType, dim: Dimension, r: Range)
    requires Tiled(dim)
  {
    InDimension(r, dim) ==> ExpandIn(ty, dim, r) == ExpandToTile(dim, r)
  }

  /** All ranges of a dimension are expanded to their tiles exactly when the distances fit and so does the expanded
      dimension. */
  lemma ExpandsAreRightIff(ty: IntType, dim: Dimension)
    requires DimOf(ty, dim)
    ensures (forall r :: ExpandIsRight(ty, dim, r)) <==> DistancesFit(ty, dim) && ExpandedMax(dim) <= ty.max
  {
    if DistancesFit(ty, dim) && ExpandedMax(dim) <= ty.max {
      forall r
        ensures ExpandIsRight(ty, dim, r)
      {
        ExpandRight(ty, dim, r);
      }
    } else if DistancesFit(ty, dim) {
      ExpandIff(ty, dim, Range(dim.lo, dim.hi));
      assert !ExpandIsRight(ty, dim, Range(dim.lo, dim.hi));
    } else {
      var x := WrongDistance(ty, dim);
      ExpandIff(ty, dim, Range(x, x));
      assert !ExpandIsRight(ty, dim, Range(x, x));
    }
  }

  lemma ExpandRight(ty: IntType, dim: Dimension, r: Range)
    requires DimOf(ty, dim) && DistancesFit(ty, dim) && ExpandedMax(dim) <= ty.max
    ensures ExpandIsRight(ty, dim, r)
  {
    if InDimension(r, dim) {
      DistanceRightAt(ty, dim, r.lo);
      DistanceRightAt(ty, dim, r.hi);
      ExpandedMaxIsMax(dim, r);
      ExpandIff(ty, dim, r);
    }
  }

  /** In 8 bits, with a domain up to 250 and an extent of 100 that the check accepts. */
  lemma NarrowExpandExample()
    ensures CheckTileExtent(UINT8, 0, 250, 100) == Accepted
    ensures ExpandIn(UINT8, Dimension(0, 250, 100), Range(200, 250)) == Range(200, 43)
  {
    NarrowTypeCounterexample();
    RoundedIs(200, 100);
    RoundedIs(250, 100);
    assert Store(UINT8, 299) == Store(UINT8, 43);
  }

  /** In 64 bits, with more than 2^63 cells and an extent of 3 that the check accepts, the cell 0 is expanded to the
      cells from 2 to 4. */
  lemma WideExpandExample()
    ensures CheckTileExtent(INT64, INT64.min, INT64.max - 3, 3) == Accepted
    ensures ExpandIn(INT64, Dimension(INT64.min, INT64.max - 3, 3), Range(0, 0)) == Range(2, 4)
  {
    var n := INT64.max + 1;
    assert Store(INT64, n) == Store(INT64, INT64.min);
    RoundedIs(INT64.min, 3);
    assert Rounded(INT64.min, 3) == 2 - n;
    assert Store(INT64, 2 - n + INT64.min) == Store(INT64, 2);
    assert Store(INT64, 4 - n + INT64.min) == Store(INT64, 4);
    WideAccepted();
  }

  lemma WideAccepted()
    ensures CheckTileExtent(INT64, INT64.min, INT64.max - 3, 3) == Accepted
  {
    CellsInIs(INT64, INT64.min, INT64.max - 3);
  }

  /** The expanded range is aligned, contains the range, and meets the same tiles. */
  lemma ExpandedIsAligned(ty: IntType, dim: Dimension, r: Range)
    requires DimOf(ty, dim) && AboveIn(ty, r, dim) && ExpansionFits(ty, dim, r)
    ensures var x := ExpandIn(ty, dim, r);
            && Above(x, dim) && Contains(x, r) && CoincidesWithTiles(dim, x) && TileNum(dim, x) == TileNum(dim, r)
  {
    ExpandIff(ty, dim, r);
    ExpandAligns(dim, r);
  }

  /** No smaller aligned range contains the range. */
  lemma ExpandedIsLeast(ty: IntType, dim: Dimension, r: Range, s: Range)
    requires DimOf(ty, dim) && AboveIn(ty, r, dim) && ExpansionFits(ty, dim, r)
    requires Above(s, dim) && Contains(s, r) && CoincidesWithTiles(dim, s)
    ensures Contains(s, ExpandIn(ty, dim, r))
  {
    ExpandIff(ty, dim, r);
    ExpandIsLeast(dim, r, s);
  }

  /** An end that does not fit is not left alone. */
  lemma EndMoves(ty: IntType, dim: Dimension, r: Range)
    requires DimOf(ty, dim) && AboveIn(ty, r, dim) && DistanceFits(ty, dim, r.hi)
    ensures ExpandIn(ty, dim, r).hi == r.hi ==> (r.hi - dim.lo) % dim.extent == dim.extent - 1
  {
    HiByRest(ty, dim, r);
    RestIff(ty, dim, r.hi);
    OffBy(ty, r.hi, r.hi - RestIn(ty, dim, r.hi) + dim.extent - 1);
  }

  /** The aligned ranges are exactly those that expanding leaves alone, also when other ranges do not fit. */
  lemma ExpandedIsFixed(ty: IntType, dim: Dimension, r: Range)
    requires DimOf(ty, dim) && AboveIn(ty, r, dim) && DistanceFits(ty, dim, r.lo) && DistanceFits(ty, dim, r.hi)
    ensures ExpandIn(ty, dim, r) == r <==> CoincidesWithTiles(dim, r)
  {
    ExpandIff(ty, dim, r);
    ExpandFixed(dim, r);
    if !ExpansionFits(ty, dim, r) {
      EndMoves(ty, dim, r);
      ExpandEnds(dim, r);
    }
  }

  /** Expanding an expanded range changes nothing exactly when the distance of its end fits. */
  lemma ExpandTwiceIff(ty: IntType, dim: Dimension, r: Range)
    requires DimOf(ty, dim) && AboveIn(ty, r, dim) && ExpansionFits(ty, dim, r)
    ensures ExpandIn(ty, dim, ExpandIn(ty, dim, r)) == ExpandIn(ty, dim, r) <==>
              DistanceFits(ty, dim, ExpandToTile(dim, r).hi)
  {
    var x := ExpandToTile(dim, r);
    ExpandIff(ty, dim, r);
    ExpandAligns(dim, r);
    ExpandFixed(dim, r);
    ExpandIff(ty, dim, x);
    LowDistanceFits(ty, dim, r);
  }

  lemma LowDistanceFits(ty: IntType, dim: Dimension, r: Range)
    requires DimOf(ty, dim) && AboveIn(ty, r, dim) && DistanceFits(ty, dim, r.lo)
    ensures DistanceFits(ty, dim, ExpandToTile(dim, r).lo)
  {
    ExpandEnds(dim, r);
  }

  // ---------------------------------------------------------------------------
  // Coinciding with tiles
  // ---------------------------------------------------------------------------

  /** coincides_with_tiles: the first distance is computed in the arithmetic type, the second one in 64 bits. */
  predicate CoincidesIn(ty: IntType, dim: Dimension, r: Range)
    requires dim.extent > 0
  {
    var a, b := AsPosition(DistanceOf(ty, dim, r.lo)), AsPosition(r.hi - dim.lo + 1);
    a / dim.extent * dim.extent == a && b / dim.extent * dim.extent == b
  }

  lemma WholeIff(p: nat, e: nat)
    requires e > 0
    ensures p / e * e == p <==> p % e == 0
  {
    Quotient(p, e);
  }

  /** Exactly when it is right that the range is, or is not, a number of whole tiles. */
  lemma CoincidesIff(ty: IntType, dim: Dimension, r: Range)
    requires DimOf(ty, dim) && InDimension(r, dim) && r.hi - dim.lo < UINT64_MAX
    ensures (CoincidesIn(ty, dim, r) <==> CoincidesWithTiles(dim, r)) <==>
              || Kept(ty, r.lo - dim.lo) || (r.hi - dim.lo + 1) % dim.extent != 0
              || ((r.lo - dim.lo) % dim.extent == 0 <==> (r.lo - dim.lo + Size(UINT64) - Size(ty)) % dim.extent == 0)
  {
    var p, e := r.lo - dim.lo, dim.extent;
    KeptIff(ty, p);
    if !Kept(ty, p) {
      assert AsPosition(p - Size(ty)) == p + Size(UINT64) - Size(ty);
    }
    WholeIff(AsPosition(DistanceOf(ty, dim, r.lo)), e);
    WholeIff(r.hi - dim.lo + 1, e);
    CoincidesByRest(dim, r);
  }

  lemma CoincidesByRest(dim: Dimension, r: Range)
    requires Tiled(dim) && Above(r, dim)
    ensures CoincidesWithTiles(dim, r) <==> (r.lo - dim.lo) % dim.extent == 0 && (r.hi - dim.lo + 1) % dim.extent == 0
  {
    DivIs(r.lo - dim.lo, dim.extent);
    DivIs(r.hi - dim.lo + 1, dim.extent);
    WholeIff(r.lo - dim.lo, dim.extent);
    WholeIff(r.hi - dim.lo + 1, dim.extent);
  }

  // ---------------------------------------------------------------------------
  // Ranges below the domain
  // ---------------------------------------------------------------------------

  /** The lower end of the expansion is not above the range. */
  ghost predicate LowFits(ty: IntType, x: int, rest: int) {
    if rest >= 0 then x - rest >= ty.min else x - rest > ty.max
  }

  /** The upper end of the expansion, which is y before it is stored, is not below the range. */
  ghost predicate HighFits(ty: IntType, x: int, y: int) {
    y <= ty.max || x + Size(ty) <= y
  }

  lemma RestWithin(ty: IntType, dim: Dimension, x: int)
    requires DimOf(ty, dim) && Holds(ty, x)
    ensures 0 - dim.extent < RestIn(ty, dim, x) < dim.extent
    ensures RestIn(ty, dim, x) < 0 && ty.min == 0 ==> x - RestIn(ty, dim, x) <= dim.lo
  {
    var w := Store(Promoted(ty), x - dim.lo);
    RoundedIs(w, dim.extent);
    if w < 0 {
      Quotient(0 - w, dim.extent);
    }
  }

  lemma LowIff(ty: IntType, dim: Dimension, x: int)
    requires DimOf(ty, dim) && Holds(ty, x)
    ensures Store(ty, x - RestIn(ty, dim, x)) <= x <==> LowFits(ty, x, RestIn(ty, dim, x))
  {
    var y := x - RestIn(ty, dim, x);
    RestWithin(ty, dim, x);
    assert Store(ty, y) == if y > ty.max then y - Size(ty) else if y < ty.min then y + Size(ty) else y;
  }

  lemma HighIff(ty: IntType, dim: Dimension, x: int)
    requires DimOf(ty, dim) && Holds(ty, x)
    ensures x <= Store(ty, x - RestIn(ty, dim, x) + dim.extent - 1) <==>
              HighFits(ty, x, x - RestIn(ty, dim, x) + dim.extent - 1)
  {
    var y := x - RestIn(ty, dim, x) + dim.extent - 1;
    RestWithin(ty, dim, x);
    assert Store(ty, y) == if y > ty.max then y - Size(ty) else y;
  }

  /** Division rounds toward zero, and unsigned differences wrap below the domain. Exactly which ranges, anywhere in
      the type, are contained in their expansion. */
  lemma ExpandContainsIff(ty: IntType, dim: Dimension, r: Range)
    requires DimOf(ty, dim) && Holds(ty, r.lo) && Holds(ty, r.hi) && r.lo <= r.hi
    ensures Contains(ExpandIn(ty, dim, r), r) <==>
              && LowFits(ty, r.lo, RestIn(ty, dim, r.lo))
              && HighFits(ty, r.hi, r.hi - RestIn(ty, dim, r.hi) + dim.extent - 1)
  {
    LoByRest(ty, dim, r);
    HiByRest(ty, dim, r);
    LowIff(ty, dim, r.lo);
    HighIff(ty, dim, r.hi);
  }

  lemma RestExact(ty: IntType, dim: Dimension, x: int)
    requires DimOf(ty, dim) && Holds(ty, x) && Holds(Promoted(ty), x - dim.lo)
    ensures RestIn(ty, dim, x) == if x >= dim.lo then (x - dim.lo) % dim.extent else 0 - (dim.lo - x) % dim.extent
    ensures Div(x - dim.lo, dim.extent) * dim.extent == x - dim.lo - RestIn(ty, dim, x)
  {
    RoundedIs(x - dim.lo, dim.extent);
  }

  lemma LowExact(ty: IntType, dim: Dimension, x: int)
    requires DimOf(ty, dim) && Holds(ty, x) && Holds(Promoted(ty), x - dim.lo)
    ensures LowFits(ty, x, RestIn(ty, dim, x)) <==> dim.lo <= x || (dim.lo - x) % dim.extent == 0
  {
    RestExact(ty, dim, x);
    Quotient(if x >= dim.lo then x - dim.lo else dim.lo - x, dim.extent);
  }

  /** Where the differences do not overflow: the range does not start below the domain or starts on a tile boundary,
      and the end of its expansion fits or, for a range below a domain smaller than a tile, wraps to beyond the
      range. */
  lemma ExpandContainsExactIff(ty: IntType, dim: Dimension, r: Range)
    requires DimOf(ty, dim) && Holds(ty, r.lo) && Holds(ty, r.hi) && r.lo <= r.hi
    requires Holds(Promoted(ty), r.lo - dim.lo) && Holds(Promoted(ty), r.hi - dim.lo)
    ensures Contains(ExpandIn(ty, dim, r), r) <==>
              && (dim.lo <= r.lo || (dim.lo - r.lo) % dim.extent == 0)
              && HighFits(ty, r.hi, ExpandToTile(dim, r).hi)
    ensures dim.lo <= r.hi || dim.extent <= dim.hi - dim.lo + 1 ==>
              (HighFits(ty, r.hi, ExpandToTile(dim, r).hi) <==> ExpandToTile(dim, r).hi <= ty.max)
  {
    ExpandContainsIff(ty, dim, r);
    LowExact(ty, dim, r.lo);
    HighExact(ty, dim, r);
  }

  lemma HighExact(ty: IntType, dim: Dimension, r: Range)
    requires DimOf(ty, dim) && Holds(ty, r.hi) && Holds(Promoted(ty), r.hi - dim.lo)
    ensures ExpandToTile(dim, r).hi == r.hi - RestIn(ty, dim, r.hi) + dim.extent - 1
    ensures dim.lo <= r.hi ==> ExpandToTile(dim, r).hi < r.hi + dim.extent
    ensures r.hi < dim.lo ==> ExpandToTile(dim, r).hi < dim.lo + dim.extent
  {
    RestExact(ty, dim, r.hi);
    Quotient(if r.hi >= dim.lo then r.hi - dim.lo else dim.lo - r.hi, dim.extent);
    OneMore(Div(r.hi - dim.lo, dim.extent), dim.extent);
  }

  /** A range below the domain that is not contained in its expansion. */
  lemma ExpandBelowDomain()
    ensures ExpandIn(INT8, Dimension(0, 9, 10), Range(-5, 5)) == Range(0, 9)
  {
  }

  /** Below the domain an unsigned difference wraps, and the expansion may contain the range after all. */
  lemma UnsignedBelowExample()
    ensures ExpandIn(UINT64, Dimension(10, 19, 10), Range(5, 5)) == Range(4, 13)
  {
    var w := UINT64_MAX - 4;
    assert Store(UINT64, -5) == Store(UINT64, w);
    RoundedIs(w, 10);
    assert Rounded(w, 10) == 18446744073709551610;
    assert Store(UINT64, 18446744073709551620) == Store(UINT64, 4);
    assert Store(UINT64, 18446744073709551629) == Store(UINT64, 13);
  }

  // ---------------------------------------------------------------------------
  // Accepted extents
  // ---------------------------------------------------------------------------

  /** For a 64-bit type an accepted extent keeps the expanded dimension in the type. */
  lemma AcceptedFits(ty: IntType, dim: Dimension)
    requires DimOf(ty, dim) && ty.max == FloorType(ty).max && Fits(ty, dim.lo, dim.hi)
    requires CheckTileExtent(ty, dim.lo, dim.hi, dim.extent) == Accepted
    ensures ExpandedMax(dim) <= ty.max
  {
    CellsInIs(ty, dim.lo, dim.hi);
    ExpandedFitsIff(ty, dim);
    UpperFloor(dim.hi - dim.lo, dim.extent);
  }

  lemma UpperFloor(n: nat, e: nat)
    requires e > 0
    ensures 0 <= n / e * e <= n
  {
    Quotient(n, e);
  }

  /** A domain that fills a 64-bit type has no cells for the check. */
  lemma NoCells(ty: IntType, lo: int, hi: int)
    requires Holds(ty, lo) && Holds(ty, hi) && ty.max == FloorType(ty).max && hi - lo == UINT64_MAX
    ensures CellsIn(ty, lo, hi) == 0
  {
    assert Store(ty, hi - lo + 1) == Store(ty, 0);
  }

  lemma AcceptedCells(ty: IntType, dim: Dimension)
    requires DimOf(ty, dim) && ty.max == FloorType(ty).max
    requires CheckTileExtent(ty, dim.lo, dim.hi, dim.extent) == Accepted
    ensures Fits(ty, dim.lo, dim.hi)
  {
    if dim.hi - dim.lo == UINT64_MAX {
      NoCells(ty, dim.lo, dim.hi);
    }
  }

  /** So with an accepted extent all ranges of the dimension are expanded to their tiles exactly when the distances
      fit. */
  lemma AcceptedExpandsIff(ty: IntType, dim: Dimension)
    requires DimOf(ty, dim) && ty.max == FloorType(ty).max
    requires CheckTileExtent(ty, dim.lo, dim.hi, dim.extent) == Accepted
    ensures (forall r :: ExpandIsRight(ty, dim, r)) <==> DistancesFit(ty, dim)
  {
    AcceptedCells(ty, dim);
    AcceptedFits(ty, dim);
    ExpandsAreRightIff(ty, dim);
  }
}
