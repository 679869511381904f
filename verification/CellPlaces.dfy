/** Exactly when every cell of a domain gets its position in its tile. */
module CellPlaces {
  import opened Transposition
  import opened Widths
  import opened MixedRadix
  import opened CellBox
  import opened CellPositions
  import opened DomainGrid
  import opened Offsets
  import opened Coordinates
  import opened PositionLoops
  import opened CellNumbers
  import opened DomainMethods

  // ---------------------------------------------------------------------------
  // Negative coordinates in a tile
  // ---------------------------------------------------------------------------

  /** The coordinates with the other sign. */
  ghost function Negated(v: seq<nat>): (w: seq<int>)
    ensures |w| == |v|
  {
    seq(|v|, d requires 0 <= d < |v| => var x: int := v[d]; -x)
  }

  lemma NegatedTwo(ty: IntType, x: nat, m: nat, y: nat)
    requires ty.min < 0 && x < m && (m - 1) * y <= Promoted(ty).max
    ensures Times(ty, 0 - x, y) == 0 - x * y
  {
    TwoFit(ty, x, m, y);
    AtMost(x, m - 1, y);
    assert (0 - x) * y == 0 - x * y;
  }

  lemma NegatedThree(ty: IntType, x: nat, m: nat, y: nat, z: nat)
    requires ty.min < 0 && x < m && (m - 1) * y * z <= Promoted(ty).max && z > 0
    ensures Times(ty, Times(ty, 0 - x, y), z) == 0 - x * y * z
  {
    AtMost(x, m - 1, y);
    AtMost(x * y, (m - 1) * y, z);
    AtMost((m - 1) * y, (m - 1) * y, z);
    AtMost(1, z, (m - 1) * y);
    assert z * ((m - 1) * y) == (m - 1) * y * z;
    NegatedTwo(ty, x, m, y);
    NegatedTwo(ty, x * y, (m - 1) * y + 1, z);
  }

  lemma NegatedRow(ty: IntType, v: seq<nat>, n: seq<nat>)
    requires ty.min < 0 && Within(v, n) && |n| <= 3 && ExtentsOf(ty, n) && ProductsFit(RowMajor, ty, n)
    ensures UnrolledRow(ty, Negated(v), n) == 0 - Row(v, n)
  {
    if |n| == 1 {
      One(v, n);
      Whole(v, n, 1);
    } else if |n| == 2 {
      Two(v, n);
      Whole(v, n, 2);
      NegatedTwo(ty, v[0], n[0], n[1]);
    } else {
      RowThree(v, n);
      NegatedThree(ty, v[0], n[0], n[1], n[2]);
      NegatedTwo(ty, v[1], n[1], n[2]);
    }
  }

  lemma NegatedCol(ty: IntType, v: seq<nat>, n: seq<nat>)
    requires ty.min < 0 && Within(v, n) && |n| <= 3 && ExtentsOf(ty, n) && ProductsFit(ColMajor, ty, n)
    ensures UnrolledCol(ty, Negated(v), n) == 0 - Col(v, n)
  {
    if |n| == 1 {
      One(v, n);
      Whole(v, n, 1);
    } else if |n| == 2 {
      Two(v, n);
      Whole(v, n, 2);
      NegatedTwo(ty, v[1], n[1], n[0]);
    } else {
      NegatedColThree(ty, v, n);
    }
  }

  lemma NegatedColThree(ty: IntType, v: seq<nat>, n: seq<nat>)
    requires ty.min < 0 && Within(v, n) && |n| == 3 && ExtentsOf(ty, n) && ProductsFit(ColMajor, ty, n)
    ensures UnrolledCol(ty, Negated(v), n) == 0 - Col(v, n)
  {
    var w := Negated(v);
    ColThree(v, n);
    NegatedTwo(ty, v[1], n[1], n[0]);
    NegatedThree(ty, v[2], n[2], n[0], n[1]);
    assert UnrolledCol(ty, w, n) == w[0] + Times(ty, w[1], n[0]) + Times(ty, Times(ty, w[2], n[0]), n[1]);
  }

  /** A cell that differs from the first one of its tile along dimension d only, by -j. */
  lemma NegatedFar(l: Layout, n: seq<nat>, d: nat, j: nat)
    requires |n| > 3 && Positive(n) && Prod(n) <= MAX_CELLS && d < |n|
    ensures PositionOf(l, Positions(Negated(Unit(|n|, d, j))), n) == AsPosition(0 - j * Offset(l, n, d))
  {
    var x := AsPosition(0 - j);
    assert Positions(Negated(Unit(|n|, d, j))) == Unit(|n|, d, x);
    PositionIsNumber(l, Unit(|n|, d, x), n);
    UnitNumber(l, n, d, x);
    NegatedTerm(j, Offset(l, n, d));
  }

  lemma NegatedTerm(j: nat, o: nat)
    ensures AsPosition(AsPosition(0 - j) * o) == AsPosition(0 - j * o)
  {
    StoreTimes(UINT64, 0 - j, o);
    assert (0 - j) * o == 0 - j * o;
  }

  lemma NegatedUnit(l: Layout, ty: IntType, n: seq<nat>, d: nat, j: nat)
    requires ty.min < 0 && ExtentsOf(ty, n) && ProductsFit(l, ty, n) && Prod(n) <= MAX_CELLS && d < |n| && j < n[d]
    ensures CellNumber(l, ty, Negated(Unit(|n|, d, j)), n) == AsPosition(0 - j * Offset(l, n, d))
  {
    var v := Unit(|n|, d, j);
    if |n| > 3 {
      NegatedFar(l, n, d, j);
    } else {
      NegatedNear(l, ty, v, n);
      UnitNumber(l, n, d, j);
    }
  }

  lemma NegatedNear(l: Layout, ty: IntType, v: seq<nat>, n: seq<nat>)
    requires ty.min < 0 && ExtentsOf(ty, n) && ProductsFit(l, ty, n) && Within(v, n) && |n| <= 3
    ensures CellNumber(l, ty, Negated(v), n) == AsPosition(0 - Number(l, v, n))
  {
    if l == RowMajor {
      NegatedRow(ty, v, n);
    } else {
      NegatedCol(ty, v, n);
    }
  }

  // ---------------------------------------------------------------------------
  // Cells with a wrong position
  // ---------------------------------------------------------------------------

  /** The tiles do not exceed the domain, which the check of the tile extent demands, and have at most 2^63 cells. */
  ghost predicate TilesInside(ty: IntType, dom: Domain) {
    && DomainOf(ty, dom) && Prod(Extents(dom)) <= MAX_CELLS
    && forall d :: 0 <= d < |dom.dims| ==> dom.dims[d].extent <= dom.dims[d].hi - dom.dims[d].lo + 1
  }

  ghost predicate PlaceIsRight(ty: IntType, c: seq<int>, dom: Domain)
    requires HasExtents(dom)
  {
    InDomain(c, dom) ==> CellPosIn(ty, c, dom) == CellPos(c, dom)
  }

  /** The cell of the first tile at a place in the tile. */
  ghost function FirstTileCell(v: seq<nat>, dom: Domain): (c: seq<int>)
    requires |v| == |dom.dims|
    ensures |c| == |v|
  {
    seq(|v|, d requires 0 <= d < |v| => dom.dims[d].lo + v[d])
  }

  lemma FirstTilePlace(ty: IntType, v: seq<nat>, dom: Domain)
    requires TilesInside(ty, dom) && Within(v, Extents(dom))
    ensures InDomain(FirstTileCell(v, dom), dom)
    ensures NormsIn(ty, FirstTileCell(v, dom), dom) == v && InTile(FirstTileCell(v, dom), dom) == v
  {
    var c := FirstTileCell(v, dom);
    forall d | 0 <= d < |v|
      ensures dom.dims[d].lo <= c[d] <= dom.dims[d].hi
      ensures NormIn(ty, c[d], dom.dims[d]) == v[d] && ColOf(c[d] - dom.dims[d].lo, dom.dims[d].extent) == v[d]
    {
      assert v[d] < Extents(dom)[d];
      NormExact(ty, c[d], dom.dims[d]);
    }
  }

  /** A cell of the first tile, when a product does not fit. */
  lemma WrongProduct(ty: IntType, dom: Domain) returns (c: seq<int>)
    requires TilesInside(ty, dom) && ExtentsOf(ty, Extents(dom)) && !ProductsFit(dom.cellOrder, ty, Extents(dom))
    ensures !PlaceIsRight(ty, c, dom)
  {
    var v := WrongCell(dom.cellOrder, ty, Extents(dom));
    c := FirstTileCell(v, dom);
    FirstTilePlace(ty, v, dom);
  }

  /** A coordinate that does not fit is normalised to -j. */
  lemma NegativeNorm(ty: IntType, dim: Dimension) returns (x: int, j: nat)
    requires DimOf(ty, dim) && !NormFits(ty, dim)
    ensures ty.min < 0 && dim.lo <= x <= dim.hi && j < dim.extent
    ensures NormIn(ty, x, dim) == 0 - j != ColOf(x - dim.lo, dim.extent)
  {
    x := WrongNorm(ty, dim);
    if x - dim.lo <= ty.max {
      NormExact(ty, x, dim);
    }
    j := (Size(ty) - (x - dim.lo)) % dim.extent;
    Wraps(ty, x - dim.lo);
    NegativeRest(Size(ty) - (x - dim.lo), dim.extent);
  }

  /** -j and a are not the same place. */
  lemma PlacesDiffer(l: Layout, n: seq<nat>, d: nat, a: nat, j: nat)
    requires Positive(n) && Prod(n) <= MAX_CELLS && d < |n| && a < n[d] && j < n[d] && a + j > 0
    ensures AsPosition(0 - j * Offset(l, n, d)) != a * Offset(l, n, d)
  {
    var m := n[d] - 1;
    OffsetPositive(l, n, d);
    UnitNumber(l, n, d, m);
    NumberBound(l, Unit(|n|, d, m), n);
    TermsDiffer(a, j, m, Offset(l, n, d));
  }

  lemma TermsDiffer(a: nat, j: nat, m: nat, o: nat)
    requires a <= m && j <= m && a + j > 0 && o > 0 && m * o < MAX_CELLS
    ensures AsPosition(0 - j * o) != a * o
  {
    TermBounds(a, j, m, o);
    Lost(a * o, a * o + j * o);
  }

  lemma TermBounds(a: nat, j: nat, m: nat, o: nat)
    requires a <= m && j <= m && a + j > 0 && o > 0
    ensures 0 < a * o + j * o <= 2 * (m * o) && a * o <= m * o
  {
    AtMost(a, m, o);
    AtMost(j, m, o);
    AtMost(1, a + j, o);
    Distribute(a, j, o);
  }

  /** A cell along dimension d, when a coordinate does not fit. */
  lemma WrongCoordinate(ty: IntType, dom: Domain, d: nat) returns (c: seq<int>)
    requires TilesInside(ty, dom) && ExtentsOf(ty, Extents(dom)) && ProductsFit(dom.cellOrder, ty, Extents(dom))
    requires d < |dom.dims| && !NormFits(ty, dom.dims[d])
    ensures !PlaceIsRight(ty, c, dom)
  {
    var n := Extents(dom);
    var x, j := NegativeNorm(ty, dom.dims[d]);
    var a := ColOf(x - dom.dims[d].lo, dom.dims[d].extent);
    c := FirstTileCell(Unit(|n|, d, x - dom.dims[d].lo), dom);
    AlongOne(ty, dom, d, x, a);
    AlongNorm(ty, dom, d, x, j);
    NegatedUnit(dom.cellOrder, ty, n, d, j);
    UnitNumber(dom.cellOrder, n, d, a);
    PlacesDiffer(dom.cellOrder, n, d, a, j);
  }

  lemma AlongOne(ty: IntType, dom: Domain, d: nat, x: int, a: nat)
    requires DomainOf(ty, dom) && d < |dom.dims| && dom.dims[d].lo <= x <= dom.dims[d].hi
    requires a == ColOf(x - dom.dims[d].lo, dom.dims[d].extent)
    ensures var c := FirstTileCell(Unit(|dom.dims|, d, x - dom.dims[d].lo), dom);
            InDomain(c, dom) && InTile(c, dom) == Unit(|dom.dims|, d, a)
  {
    var c := FirstTileCell(Unit(|dom.dims|, d, x - dom.dims[d].lo), dom);
    forall i | 0 <= i < |c|
      ensures InDomain(c, dom) && InTile(c, dom)[i] == Unit(|dom.dims|, d, a)[i]
    {
    }
  }

  lemma AlongNorm(ty: IntType, dom: Domain, d: nat, x: int, j: nat)
    requires DomainOf(ty, dom) && d < |dom.dims| && dom.dims[d].lo <= x && NormIn(ty, x, dom.dims[d]) == 0 - j
    ensures NormsIn(ty, FirstTileCell(Unit(|dom.dims|, d, x - dom.dims[d].lo), dom), dom)
         == Negated(Unit(|dom.dims|, d, j))
  {
    var c := FirstTileCell(Unit(|dom.dims|, d, x - dom.dims[d].lo), dom);
    forall i | 0 <= i < |c|
      ensures NormIn(ty, c[i], dom.dims[i]) == Negated(Unit(|dom.dims|, d, j))[i]
    {
      if i != d {
        NormExact(ty, c[i], dom.dims[i]);
      }
    }
  }

  /** Every cell of the domain gets its position in its tile exactly when coordinates and products fit. */
  lemma CellPosIff(ty: IntType, dom: Domain)
    requires DomainOf(ty, dom) && Prod(Extents(dom)) <= MAX_CELLS
    requires forall d :: 0 <= d < |dom.dims| ==> dom.dims[d].extent <= dom.dims[d].hi - dom.dims[d].lo + 1
    ensures (forall c :: PlaceIsRight(ty, c, dom)) <==> CellsFit(ty, dom)
  {
    if CellsFit(ty, dom) {
      forall c
        ensures PlaceIsRight(ty, c, dom)
      {
        if InDomain(c, dom) {
          CellPosRight(ty, c, dom);
        }
      }
    } else {
      assert ExtentsOf(ty, Extents(dom));
      var c;
      if ProductsFit(dom.cellOrder, ty, Extents(dom)) {
        var d :| 0 <= d < |dom.dims| && !NormFits(ty, dom.dims[d]);
        c := WrongCoordinate(ty, dom, d);
      } else {
        c := WrongProduct(ty, dom);
      }
      assert !PlaceIsRight(ty, c, dom);
    }
  }
}
