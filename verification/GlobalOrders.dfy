/** The global order of cells as the source computes it: the position of the tile times the cells of a
    tile, plus the position of the cell in its tile, against the comparisons of tiles and cells. */
module GlobalOrders {
  import opened Widths
  import opened Transposition
  import opened MixedRadix
  import opened CellBox
  import opened DomainGrid
  import opened Coordinates
  import opened CellNumbers
  import opened DomainMethods

  /** get_tile_pos of get_tile_coords. */
  ghost function TilePosIn(ty: IntType, c: seq<int>, dom: Domain): nat
    requires HasExtents(dom) && |c| == |dom.dims|
  {
    AsPosition(Number(dom.tileOrder, Positions(TilesIn(ty, c, dom)), TileNumsIn(ty, dom)))
  }

  ghost function GlobalIn(ty: IntType, c: seq<int>, dom: Domain): nat
    requires HasExtents(dom) && |c| == |dom.dims|
  {
    Idx(TilePosIn(ty, c, dom), Prod(Extents(dom)), CellPosIn(ty, c, dom))
  }

  /** tile_order_cmp, and cell_order_cmp for cells of one tile. */
  ghost function OrderIn(ty: IntType, a: seq<int>, b: seq<int>, dom: Domain): int
    requires HasExtents(dom) && |a| == |b| == |dom.dims|
  {
    var t := Lex(dom.tileOrder, TileKeys(ty, a, dom), TileKeys(ty, b, dom));
    if t != 0 then t else Lex(dom.cellOrder, a, b)
  }

  /** Everything the source keeps in the type of the coordinates fits it, and tile positions 64 bits. */
  ghost predicate DomainFits(ty: IntType, dom: Domain) {
    && DomainOf(ty, dom) && CellsFit(ty, dom)
    && (forall d :: 0 <= d < |dom.dims| ==> TilesFit(ty, dom.dims[d]) && CountFits(ty, dom.dims[d]))
    && Prod(Tiles(dom)) <= Size(UINT64)
  }

  lemma TilePosRight(ty: IntType, c: seq<int>, dom: Domain)
    requires Expanded(dom) && InDomain(c, dom) && DomainFits(ty, dom)
    ensures TilePosIn(ty, c, dom) == TilePos(c, dom)
  {
    TileCoordsRight(ty, c, dom);
    TileNumsIff(ty, dom);
    forall d | 0 <= d < |c|
      ensures Positions(TilesIn(ty, c, dom))[d] == TileOf(c, dom)[d]
    {
      RowOfMonotone(c[d] - dom.dims[d].lo, dom.dims[d].hi - dom.dims[d].lo, dom.dims[d].extent);
    }
    assert Positions(TilesIn(ty, c, dom)) == TileOf(c, dom);
    GridWithin(c, dom);
    NumberBound(dom.tileOrder, TileOf(c, dom), Tiles(dom));
  }

  /** The computed global position is the position in the global order. */
  lemma GlobalRight(ty: IntType, c: seq<int>, dom: Domain)
    requires Expanded(dom) && InDomain(c, dom) && DomainFits(ty, dom)
    ensures GlobalIn(ty, c, dom) == Global(c, dom)
  {
    TilePosRight(ty, c, dom);
    CellPosRight(ty, c, dom);
  }

  /** Comparing computed positions agrees with the comparisons of tiles and cells, for every tile order and
      every cell order. */
  lemma PositionsAgreeWithOrder(ty: IntType, a: seq<int>, b: seq<int>, dom: Domain)
    requires Expanded(dom) && InDomain(a, dom) && InDomain(b, dom) && DomainFits(ty, dom)
    ensures Cmp(GlobalIn(ty, a, dom), GlobalIn(ty, b, dom)) == OrderIn(ty, a, b, dom)
  {
    GlobalRight(ty, a, dom);
    GlobalRight(ty, b, dom);
    assert forall d :: 0 <= d < |dom.dims| && TilesFit(ty, dom.dims[d]) ==> KeyFits(ty, dom.dims[d]);
    TileKeysRight(ty, a, dom);
    TileKeysRight(ty, b, dom);
    GlobalOrder(a, b, dom);
  }

  /** Computed positions are a bijection of the cells onto the numbers below their count. */
  lemma PositionsAreOneToOne(ty: IntType, a: seq<int>, b: seq<int>, dom: Domain)
    requires Expanded(dom) && InDomain(a, dom) && InDomain(b, dom) && DomainFits(ty, dom)
    ensures GlobalIn(ty, a, dom) < CellCount(dom)
    ensures GlobalIn(ty, a, dom) == GlobalIn(ty, b, dom) <==> a == b
  {
    GlobalRight(ty, a, dom);
    GlobalRight(ty, b, dom);
    GlobalBound(a, dom);
    if Global(a, dom) == Global(b, dom) {
      GlobalInjective(a, b, dom);
    }
  }

  lemma PositionsAreOnto(ty: IntType, p: nat, dom: Domain) returns (c: seq<int>)
    requires Expanded(dom) && DomainFits(ty, dom) && p < CellCount(dom)
    ensures InDomain(c, dom) && GlobalIn(ty, c, dom) == p
  {
    c := GlobalOnto(p, dom);
    GlobalRight(ty, c, dom);
  }

  /** Four tiles of 50 cells with coordinates of 8 bits from -100. */
  const NARROW: Domain := Domain([Dimension(-100, 99, 50)], RowMajor, RowMajor)

  /** Cell 55 has the greatest 64-bit number as its position, beyond the tile, and cell 56 has position 0. */
  lemma NarrowPositions()
    ensures DomainOf(INT8, NARROW) && CellPosIn(INT8, [55], NARROW) == UINT64_MAX && CellPosIn(INT8, [56], NARROW) == 0
  {
    NarrowExample();
    assert NormsIn(INT8, [55], NARROW) == [-1] && NormsIn(INT8, [56], NARROW) == [0];
    assert Store(UINT64, -1) == Store(UINT64, UINT64_MAX);
  }

  lemma NarrowTiles()
    ensures TilesIn(INT8, [55], NARROW) == TilesIn(INT8, [56], NARROW)
    ensures TileKeys(INT8, [55], NARROW) == TileKeys(INT8, [56], NARROW)
  {
    DivIs(155, 50);
    DivIs(156, 50);
  }

  /** So the first of the two cells is after the second one by their positions, and before it in the order. */
  lemma NarrowDomainExample()
    ensures GlobalIn(INT8, [55], NARROW) > GlobalIn(INT8, [56], NARROW) && OrderIn(INT8, [55], [56], NARROW) == -1
  {
    NarrowPositions();
    NarrowTiles();
    var n, t := Prod(Extents(NARROW)), TilePosIn(INT8, [56], NARROW);
    IdxIs(t, n, UINT64_MAX);
    IdxIs(t, n, 0);
    LexZero(TileKeys(INT8, [55], NARROW), TileKeys(INT8, [56], NARROW));
    FirstDecides([55], [56], 0);
  }
}
