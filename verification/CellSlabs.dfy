/** Cell slabs: the longest run of cells that is contiguous both in a tile and in the layout of a
    subarray, and the distance in a tile between neighbours of the other layout. */
module CellSlabs {
  import opened Widths
  import opened Transposition
  import opened MixedRadix
  import opened CellBox
  import opened CellPositions
  import opened DomainGrid
  import opened Coordinates
  import opened DimensionTiles
  import opened RangeRounding
  import opened Offsets
  import opened CellNumbers
  import opened DomainMethods

  /** The layout of a subarray: the global order, or an order of its own. */
  datatype Order = GlobalOrder | Ordered(layout: Layout)

  /** Layouts in which the cells of a tile are contiguous. */
  predicate AsStored(order: Order, dom: Domain) {
    order == GlobalOrder || order == Ordered(dom.cellOrder)
  }

  /** The dimension along which a layout counts fastest. */
  function Fastest(l: Layout, dimNum: nat): (d: nat)
    requires dimNum > 0
    ensures d < dimNum
  {
    if l == RowMajor then dimNum - 1 else 0
  }

  /** The cell k further along dimension d. */
  ghost function Along(c: seq<int>, d: nat, k: int): (r: seq<int>)
    requires d < |c|
    ensures |r| == |c|
  {
    c[d := c[d] + k]
  }

  // ---------------------------------------------------------------------------
  // Moving along one dimension
  // ---------------------------------------------------------------------------

  lemma RowAlongLast(v: seq<nat>, n: seq<nat>, k: nat)
    requires |v| == |n| > 0
    ensures Row(v[|v| - 1 := v[|v| - 1] + k], n) == Row(v, n) + k
  {
    var m := |v| - 1;
    assert v[m := v[m] + k][..m] == v[..m];
    IdxShift(Row(v[..m], n[..m]), n[m], v[m], k);
  }

  lemma {:induction false} ColAlongFirst(v: seq<nat>, n: seq<nat>, k: nat)
    requires |v| == |n| > 0
    ensures Col(v[0 := v[0] + k], n) == Col(v, n) + k
    decreases |v|
  {
    var m := |v| - 1;
    if m > 0 {
      ColAlongFirst(v[..m], n[..m], k);
      assert v[0 := v[0] + k][..m] == v[..m][0 := v[0] + k];
      IdxShift(v[m], Prod(n[..m]), Col(v[..m], n[..m]), k);
    } else {
      ColOne(v, n);
      ColOne(v[0 := v[0] + k], n);
    }
  }

  lemma ColOne(v: seq<nat>, n: seq<nat>)
    requires |v| == |n| == 1
    ensures Col(v, n) == v[0]
  {
    assert v[..0] == [] && n[..0] == [];
    IdxIs(v[0], 1, 0);
  }

  lemma {:induction false} FromLast(n: seq<nat>, d: nat)
    requires d < |n|
    ensures From(n, d) == From(n[..|n| - 1], d) * n[|n| - 1]
    decreases |n| - d
  {
    var m := |n| - 1;
    if d < m {
      FromLast(n, d + 1);
      assert n[..m][d] == n[d];
      assert n[d] * (From(n[..m], d + 1) * n[m]) == n[d] * From(n[..m], d + 1) * n[m];
    }
  }

  lemma {:induction false} RowAlongFirst(v: seq<nat>, n: seq<nat>)
    requires |v| == |n| > 0
    ensures Row(v[0 := v[0] + 1], n) == Row(v, n) + From(n, 1)
    decreases |v|
  {
    var m := |v| - 1;
    if m > 0 {
      var p, f := Row(v[..m], n[..m]), From(n[..m], 1);
      RowAlongFirst(v[..m], n[..m]);
      assert v[0 := v[0] + 1][..m] == v[..m][0 := v[0] + 1];
      IdxAdd(f, p, n[m], v[m]);
      IdxIs(f, n[m], 0);
      FromLast(n, 1);
    } else {
      assert v[..0] == [] && v[0 := v[0] + 1][..0] == [];
    }
  }

  lemma ColAlongLast(v: seq<nat>, n: seq<nat>)
    requires |v| == |n| > 0
    ensures Col(v[|v| - 1 := v[|v| - 1] + 1], n) == Col(v, n) + Prod(n[..|n| - 1])
  {
    var m := |v| - 1;
    assert v[m := v[m] + 1][..m] == v[..m];
  }

  /** Along the fastest dimension the numbers are consecutive. */
  lemma NumberAlong(l: Layout, v: seq<nat>, n: seq<nat>, k: nat)
    requires |v| == |n| > 0
    ensures var d := Fastest(l, |n|); Number(l, v[d := v[d] + k], n) == Number(l, v, n) + k
  {
    if l == RowMajor {
      RowAlongLast(v, n, k);
    } else {
      ColAlongFirst(v, n, k);
    }
  }

  // ---------------------------------------------------------------------------
  // Slabs
  // ---------------------------------------------------------------------------

  /** The last cell of the tile of x. */
  ghost function TileEnd(x: int, dim: Dimension): int
    requires dim.lo <= x && dim.extent > 0
  {
    x + dim.extent - ColOf(x - dim.lo, dim.extent) - 1
  }

  /** The last coordinate of the slab along its dimension. */
  ghost function SlabEnd(x: int, dim: Dimension, subHi: int): int
    requires dim.lo <= x && dim.extent > 0
  {
    if TileEnd(x, dim) < subHi then TileEnd(x, dim) else subHi
  }

  /** The same as the source computes it: the end of the tile is stored in the type of the coordinates. */
  function SlabEndIn(ty: IntType, x: int, dim: Dimension, subHi: int): int
    requires dim.extent > 0
  {
    var e := Store(ty, x + (dim.extent - RestIn(ty, dim, x) - 1));
    if e < subHi then e else subHi
  }

  /** The last cell of the slab from a start, for a layout of the subarray. */
  ghost function SlabEndCell(ty: IntType, dom: Domain, subHi: seq<int>, start: seq<int>, order: Order): (end: seq<int>)
    requires HasExtents(dom) && |subHi| == |start| == |dom.dims|
    ensures |end| == |start|
  {
    if AsStored(order, dom) then
      var d := Fastest(dom.cellOrder, |start|);
      start[d := SlabEndIn(ty, start[d], dom.dims[d], subHi[d])]
    else start
  }

  /** get_end_of_cell_slab. */
  method GetEndOfCellSlab(ty: IntType, dom: Domain, subHi: seq<int>, start: seq<int>, order: Order)
    returns (end: seq<int>)
    requires HasExtents(dom) && |subHi| == |start| == |dom.dims|
    ensures end == SlabEndCell(ty, dom, subHi, start, order)
  {
    end := start;
    if order == GlobalOrder || order == Ordered(dom.cellOrder) {
      var d := if dom.cellOrder == RowMajor then |start| - 1 else 0;
      var dim := dom.dims[d];
      var norm := Store(Promoted(ty), start[d] - dim.lo);
      RoundedIs(norm, dim.extent);
      var rest := norm - Div(norm, dim.extent) * dim.extent;
      end := end[d := Store(ty, end[d] + (dim.extent - rest - 1))];
      end := end[d := if end[d] < subHi[d] then end[d] else subHi[d]];
    }
  }

  /** The end of the tile of x as it is before it is stored: too far when the distance of x overflows. */
  ghost function EndBefore(ty: IntType, x: int, dim: Dimension): int
    requires dim.extent > 0 && dim.lo <= x <= dim.lo + Size(ty)
  {
    if x - dim.lo <= Promoted(ty).max then TileEnd(x, dim)
    else x + dim.extent - 1 + (Size(ty) - (x - dim.lo)) % dim.extent
  }

  /** That end has the type, and it is right or the subarray ends before it. */
  ghost predicate SlabFits(ty: IntType, x: int, dim: Dimension, subHi: int)
    requires dim.extent > 0 && dim.lo <= x <= dim.lo + Size(ty)
  {
    EndBefore(ty, x, dim) <= ty.max && (subHi <= TileEnd(x, dim) || DistanceFits(ty, dim, x))
  }

  lemma EndBeforeIs(ty: IntType, x: int, dim: Dimension)
    requires DimOf(ty, dim) && dim.lo <= x <= dim.hi
    ensures EndBefore(ty, x, dim) == x - RestIn(ty, dim, x) + dim.extent - 1
    ensures TileEnd(x, dim) <= EndBefore(ty, x, dim) < x + Size(ty)
    ensures TileEnd(x, dim) == EndBefore(ty, x, dim) <==> DistanceFits(ty, dim, x)
  {
    var p := x - dim.lo;
    RestIff(ty, dim, x);
    Quotient(p, dim.extent);
    RoundedIs(DistanceOf(ty, dim, x), dim.extent);
    if p > Promoted(ty).max {
      OverflowsItself(ty, p);
      Wraps(ty, p);
    }
  }

  /** Exactly when the end of a slab is right. */
  lemma SlabEndIff(ty: IntType, x: int, dim: Dimension, subHi: int)
    requires DimOf(ty, dim) && dim.lo <= x <= subHi <= dim.hi
    ensures SlabEndIn(ty, x, dim, subHi) == SlabEnd(x, dim, subHi) <==> SlabFits(ty, x, dim, subHi)
  {
    var e := EndBefore(ty, x, dim);
    EndBeforeIs(ty, x, dim);
    assert Store(ty, e) == if e > ty.max then e - Size(ty) else e;
  }

  lemma TileEndIs(x: int, dim: Dimension)
    requires Tiled(dim) && dim.lo <= x
    ensures TileEnd(x, dim) == First(dim, Tile(dim, x) + 1) - 1
  {
    var p, e := x - dim.lo, dim.extent;
    Reassembled(p, e);
    IdxShift(RowOf(p, e), e, 0, ColOf(p, e));
  }

  lemma TileEndAtMost(x: int, dim: Dimension)
    requires Tiled(dim) && dim.lo <= x <= dim.hi
    ensures TileEnd(x, dim) <= TileEnd(dim.hi, dim) == ExpandedMax(dim)
  {
    TileEndIs(x, dim);
    TileEndIs(dim.hi, dim);
    TileMonotone(dim, x, dim.hi);
    FirstGrows(dim, Tile(dim, dim.hi) + 1, Tile(dim, x) + 1);
    ExpandIs(dim, Range(dim.lo, dim.hi));
  }

  /** No distance overflows and the expanded dimension has the type; or the tiles have one cell; or all cells whose
      distance overflows are in the last tile, and its end has the type even so. */
  ghost predicate SlabsFit(ty: IntType, dim: Dimension)
    requires Tiled(dim) && dim.hi <= dim.lo + Size(ty)
  {
    if dim.hi - dim.lo <= Promoted(ty).max then ExpandedMax(dim) <= ty.max
    else
      || dim.extent == 1
      || (Tile(dim, dim.lo + Promoted(ty).max + 1) == Tile(dim, dim.hi) && EndBefore(ty, dim.hi, dim) <= ty.max)
  }

  lemma OneFurther(n: nat, e: nat)
    requires e > 0
    ensures (n + 1) % e <= n % e + 1
  {
    if n % e + 1 < e {
      DivParts(n / e, e, n % e + 1);
    } else {
      OneMore(n / e, e);
      DivParts(n / e + 1, e, 0);
    }
  }

  lemma {:induction false} EndBeforeGrows(ty: IntType, x: int, y: int, dim: Dimension)
    requires DimOf(ty, dim) && dim.lo + Promoted(ty).max < x <= y <= dim.hi
    ensures EndBefore(ty, x, dim) <= EndBefore(ty, y, dim)
    decreases y - x
  {
    if x < y {
      EndBeforeGrows(ty, x, y - 1, dim);
      OneFurther(Size(ty) - (y - dim.lo), dim.extent);
    }
  }

  lemma SlabsRight(ty: IntType, x: int, dim: Dimension, h: int)
    requires DimOf(ty, dim) && dim.lo <= x <= h <= dim.hi && SlabsFit(ty, dim)
    ensures SlabFits(ty, x, dim, h)
  {
    TileEndAtMost(x, dim);
    if x - dim.lo <= Promoted(ty).max {
      if dim.hi - dim.lo > Promoted(ty).max {
        EndBeforeIs(ty, dim.hi, dim);
      }
    } else if dim.extent > 1 {
      TileMonotone(dim, dim.lo + Promoted(ty).max + 1, x);
      TileMonotone(dim, x, dim.hi);
      TileEndIs(x, dim);
      TileBounds(dim, dim.hi);
      EndBeforeGrows(ty, x, dim.hi, dim);
    }
  }

  /** A slab that ends in the wrong place. */
  lemma WrongSlab(ty: IntType, dim: Dimension) returns (x: int, h: int)
    requires DimOf(ty, dim) && !SlabsFit(ty, dim)
    ensures dim.lo <= x <= h <= dim.hi && !SlabFits(ty, x, dim, h)
  {
    x, h := dim.hi, dim.hi;
    TileEndAtMost(dim.hi, dim);
    if dim.hi - dim.lo > Promoted(ty).max && EndBefore(ty, dim.hi, dim) <= ty.max {
      OverflowsItself(ty, dim.hi - dim.lo);
      x := LateCell(ty, dim);
    }
  }

  /** A cell whose distance overflows and is rounded, in a tile that is not the last one. */
  lemma LateCell(ty: IntType, dim: Dimension) returns (x: int)
    requires DimOf(ty, dim) && dim.extent > 1 && Promoted(ty) == ty && ty.max < dim.hi - dim.lo
    requires Tile(dim, dim.lo + ty.max + 1) != Tile(dim, dim.hi)
    ensures dim.lo <= x <= dim.hi && !DistanceFits(ty, dim, x) && TileEnd(x, dim) < dim.hi
  {
    x := dim.lo + ty.max + 1;
    TileEndIs(x, dim);
    TileMonotone(dim, x, dim.hi);
    TileBounds(dim, dim.hi);
    FirstGrows(dim, Tile(dim, dim.hi), Tile(dim, x) + 1);
    if (ty.max + 1) % dim.extent == 0 {
      Quotient(ty.max + 1, dim.extent);
      StayInTile(ty.max + 1, dim.extent, 1);
      x := x + 1;
      if (ty.max + 2) % dim.extent == 0 {
        TwoMultiples(ty.max + 1, dim.extent);
      }
    }
  }

  /** All slabs along a dimension end where they should exactly when they fit. */
  lemma SlabEndsAreRightIff(ty: IntType, dim: Dimension)
    requires DimOf(ty, dim)
    ensures (forall x, h {:trigger SlabEndIn(ty, x, dim, h)} ::
               dim.lo <= x <= h <= dim.hi ==> SlabEndIn(ty, x, dim, h) == SlabEnd(x, dim, h))
       <==> SlabsFit(ty, dim)
  {
    if SlabsFit(ty, dim) {
      forall x, h {:trigger SlabEndIn(ty, x, dim, h)} | dim.lo <= x <= h <= dim.hi
        ensures SlabEndIn(ty, x, dim, h) == SlabEnd(x, dim, h)
      {
        SlabsRight(ty, x, dim, h);
        SlabEndIff(ty, x, dim, h);
      }
    } else {
      var x, h := WrongSlab(ty, dim);
      SlabEndIff(ty, x, dim, h);
      assert SlabEndIn(ty, x, dim, h) != SlabEnd(x, dim, h);
    }
  }

  /** In 8 bits, with a domain up to 250 and an extent of 100, the slab from 200 ends at 43. */
  lemma NarrowSlabExample()
    ensures SlabEndIn(UINT8, 200, Dimension(0, 250, 100), 250) == 43
  {
    assert Store(UINT8, 299) == Store(UINT8, 43);
  }

  /** In 32 bits, with more than 2^31 cells and an extent of 1000 that the check accepts, the slab from 0 ends at 1647,
      beyond its tile, which ends at 351. */
  lemma WideSlabExample()
    ensures var dim := Dimension(INT32.min, 2147483000, 1000);
            && CheckTileExtent(INT32, dim.lo, dim.hi, dim.extent) == Accepted
            && TileEnd(0, dim) == 351 && SlabEndIn(INT32, 0, dim, 5000) == 1647
  {
    assert Store(INT32, 2147483648) == Store(INT32, INT32.min);
    RoundedIs(INT32.min, 1000);
    Quotient(2147483648, 1000);
    WideAccepted32();
  }

  lemma WideAccepted32()
    ensures CheckTileExtent(INT32, INT32.min, 2147483000, 1000) == Accepted
  {
    assert Store(INT32, 4294966649) == Store(INT32, -647);
    assert Store(UINT64, -647) == Store(UINT64, UINT64_MAX - 646);
    var y := (UINT64_MAX - 647) / 1000 * 1000 + INT32.min;
    assert Store(INT64, y) == Store(INT64, y - UINT64_MAX - 1);
  }

  /** Moving k places inside a tile. */
  lemma {:induction false} StayInTile(p: nat, e: nat, k: nat)
    requires e > 0 && ColOf(p, e) + k < e
    ensures RowOf(p + k, e) == RowOf(p, e) && ColOf(p + k, e) == ColOf(p, e) + k
    decreases p
  {
    if p >= e {
      StayInTile(p - e, e, k);
    }
  }

  /** Moving to the end of a tile and one further. */
  lemma {:induction false} LeaveTile(p: nat, e: nat, k: nat)
    requires e > 0 && ColOf(p, e) + k == e
    ensures RowOf(p + k, e) == RowOf(p, e) + 1
    decreases p
  {
    if p >= e {
      LeaveTile(p - e, e, k);
    }
  }

  /** A cell k further along d in the same tile. */
  lemma AlongInTile(c: seq<int>, dom: Domain, d: nat, k: nat)
    requires Regular(dom) && InDomain(c, dom) && d < |c|
    requires ColOf(c[d] - dom.dims[d].lo, dom.dims[d].extent) + k < dom.dims[d].extent && c[d] + k <= dom.dims[d].hi
    ensures InDomain(Along(c, d, k), dom)
    ensures TileOf(Along(c, d, k), dom) == TileOf(c, dom)
    ensures InTile(Along(c, d, k), dom) == InTile(c, dom)[d := InTile(c, dom)[d] + k]
  {
    StayInTile(c[d] - dom.dims[d].lo, dom.dims[d].extent, k);
  }

  /** The start of a slab along dimension d: a cell of the domain and of the subarray, which lies in the domain. The
      slab fits. */
  ghost predicate SlabStart(ty: IntType, dom: Domain, subHi: seq<int>, start: seq<int>, d: nat) {
    && DomainOf(ty, dom) && InDomain(start, dom) && |subHi| == |start|
    && d == Fastest(dom.cellOrder, |start|) && start[d] <= subHi[d] <= dom.dims[d].hi
    && SlabFits(ty, start[d], dom.dims[d], subHi[d])
  }

  lemma SlabEndOf(ty: IntType, dom: Domain, subHi: seq<int>, start: seq<int>, d: nat)
    requires SlabStart(ty, dom, subHi, start, d)
    ensures SlabEndIn(ty, start[d], dom.dims[d], subHi[d]) == SlabEnd(start[d], dom.dims[d], subHi[d])
  {
    SlabEndIff(ty, start[d], dom.dims[d], subHi[d]);
  }

  /** The cells from the start of a slab to its end lie in one tile, at consecutive computed positions. */
  lemma SlabIsContiguous(ty: IntType, dom: Domain, subHi: seq<int>, start: seq<int>, d: nat, k: nat)
    requires SlabStart(ty, dom, subHi, start, d) && CellsFit(ty, dom)
    requires start[d] + k <= SlabEndIn(ty, start[d], dom.dims[d], subHi[d])
    ensures var c := Along(start, d, k);
            && InDomain(c, dom) && TileOf(c, dom) == TileOf(start, dom)
            && CellPosIn(ty, c, dom) == CellPosIn(ty, start, dom) + k
  {
    assert ColOf(start[d] - dom.dims[d].lo, dom.dims[d].extent) + k < dom.dims[d].extent by {
      SlabEndOf(ty, dom, subHi, start, d);
    }
    assert start[d] + k <= dom.dims[d].hi by {
      SlabEndOf(ty, dom, subHi, start, d);
    }
    AlongInTile(start, dom, d, k);
    assert CellPos(Along(start, d, k), dom) == CellPos(start, dom) + k by {
      NumberAlong(dom.cellOrder, InTile(start, dom), Extents(dom), k);
    }
    CellPosRight(ty, start, dom);
    CellPosRight(ty, Along(start, d, k), dom);
  }

  /** The slab contains its start, and the cell after its end is in another tile or outside the
      subarray. */
  lemma SlabIsMaximal(ty: IntType, dom: Domain, subHi: seq<int>, start: seq<int>, d: nat)
    requires SlabStart(ty, dom, subHi, start, d)
    ensures var e := SlabEndIn(ty, start[d], dom.dims[d], subHi[d]);
            && start[d] <= e <= subHi[d]
            && (e == subHi[d] || Tile(dom.dims[d], e + 1) != Tile(dom.dims[d], start[d]))
  {
    SlabEndOf(ty, dom, subHi, start, d);
    var p, x := start[d] - dom.dims[d].lo, dom.dims[d].extent;
    LeaveTile(p, x, x - ColOf(p, x));
  }

  // ---------------------------------------------------------------------------
  // Stride
  // ---------------------------------------------------------------------------

  /** The product of the sizes of all dimensions but the slowest. */
  ghost function StrideOf(l: Layout, n: seq<nat>): nat
    requires |n| > 0
  {
    if l == RowMajor then From(n, 1) else Prod(n[..|n| - 1])
  }

  /** Along the slowest dimension the numbers are a stride apart. */
  lemma NumberAcross(l: Layout, v: seq<nat>, n: seq<nat>, d: nat)
    requires |v| == |n| > 1 && d == Fastest(if l == RowMajor then ColMajor else RowMajor, |n|)
    ensures Number(l, v[d := v[d] + 1], n) == Number(l, v, n) + StrideOf(l, n)
  {
    if l == RowMajor {
      RowAlongFirst(v, n);
    } else {
      ColAlongLast(v, n);
    }
  }

  /** The stride for a layout of the subarray. */
  ghost function StrideIn(dom: Domain, order: Order): nat
    requires |dom.dims| > 0
  {
    if |dom.dims| == 1 || AsStored(order, dom) then UINT64_MAX else StrideOf(dom.cellOrder, Extents(dom))
  }

  /** stride. */
  method Stride(dom: Domain, order: Order) returns (s: nat)
    requires |dom.dims| > 0
    ensures s == StrideIn(dom, order)
  {
    if |dom.dims| == 1 || order == GlobalOrder || order == Ordered(dom.cellOrder) {
      return UINT64_MAX;
    }
    ghost var n := Extents(dom);
    s := 1;
    if dom.cellOrder == RowMajor {
      for i := 1 to |dom.dims|
        invariant s * From(n, i) == From(n, 1)
      {
        assert s * (n[i] * From(n, i + 1)) == s * n[i] * From(n, i + 1);
        s := s * dom.dims[i].extent;
      }
    } else {
      for i := 0 to |dom.dims| - 1
        invariant s == Prod(n[..i])
      {
        ProdNext(n, i);
        s := s * dom.dims[i].extent;
      }
    }
  }

  /** Neighbours along the fastest dimension of the other layout are a stride apart in their tile. */
  lemma NeighboursAreAStrideApart(ty: IntType, dom: Domain, c: seq<int>, d: nat)
    requires DomainOf(ty, dom) && InDomain(c, dom) && |c| > 1 && CellsFit(ty, dom)
    requires d == Fastest(if dom.cellOrder == RowMajor then ColMajor else RowMajor, |c|)
    requires c[d] + 1 <= dom.dims[d].hi && ColOf(c[d] - dom.dims[d].lo, dom.dims[d].extent) + 1 < dom.dims[d].extent
    ensures InDomain(Along(c, d, 1), dom) && TileOf(Along(c, d, 1), dom) == TileOf(c, dom)
    ensures CellPosIn(ty, Along(c, d, 1), dom) - CellPosIn(ty, c, dom) == StrideOf(dom.cellOrder, Extents(dom))
  {
    AlongInTile(c, dom, d, 1);
    assert CellPos(Along(c, d, 1), dom) == CellPos(c, dom) + StrideOf(dom.cellOrder, Extents(dom)) by {
      NumberAcross(dom.cellOrder, InTile(c, dom), Extents(dom), d);
    }
    CellPosRight(ty, c, dom);
    CellPosRight(ty, Along(c, d, 1), dom);
  }
}
