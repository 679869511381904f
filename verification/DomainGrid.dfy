/** The tile and cell geometry of a dense integer domain: tile and cell positions, and the order
    of cells in tiles. */
module DomainGrid {
  import opened Transposition
  import opened MixedRadix
  import opened CellBox

  datatype Dimension = Dimension(lo: int, hi: int, extent: nat)

  datatype Domain = Domain(dims: seq<Dimension>, tileOrder: Layout, cellOrder: Layout)

  /** A grid of regular tiles, the last of which may reach beyond the domain. */
  ghost predicate Regular(dom: Domain) {
    |dom.dims| > 0 && forall d :: 0 <= d < |dom.dims| ==> dom.dims[d].lo <= dom.dims[d].hi && dom.dims[d].extent > 0
  }

  /** Every dimension is a whole number of tiles: the domain expanded to its tiles. */
  ghost predicate Expanded(dom: Domain) {
    Regular(dom) && forall d :: 0 <= d < |dom.dims| ==>
        ColOf(dom.dims[d].hi - dom.dims[d].lo + 1, dom.dims[d].extent) == 0
  }

  ghost predicate InDomain(c: seq<int>, dom: Domain) {
    |c| == |dom.dims| && forall d :: 0 <= d < |c| ==> dom.dims[d].lo <= c[d] <= dom.dims[d].hi
  }

  ghost function Extents(dom: Domain): (n: seq<nat>)
    ensures |n| == |dom.dims|
  {
    seq(|dom.dims|, d requires 0 <= d < |dom.dims| => dom.dims[d].extent)
  }

  /** The number of whole tiles along each dimension. */
  ghost function Tiles(dom: Domain): (n: seq<nat>)
    requires Regular(dom)
    ensures |n| == |dom.dims|
  {
    seq(|dom.dims|, d requires 0 <= d < |dom.dims| => RowOf(dom.dims[d].hi - dom.dims[d].lo + 1, dom.dims[d].extent))
  }

  /** Which tile a cell is in. */
  ghost function TileOf(c: seq<int>, dom: Domain): (t: seq<nat>)
    requires InDomain(c, dom)
    ensures |t| == |c|
  {
    seq(|c|, d requires 0 <= d < |c| => RowOf(c[d] - dom.dims[d].lo, dom.dims[d].extent))
  }

  /** Where in its tile a cell is. */
  ghost function InTile(c: seq<int>, dom: Domain): (v: seq<nat>)
    requires InDomain(c, dom)
    ensures |v| == |c|
  {
    seq(|c|, d requires 0 <= d < |c| => ColOf(c[d] - dom.dims[d].lo, dom.dims[d].extent))
  }

  /** A place in a whole number of tiles is in one of them. */
  lemma {:induction false} WithinTiles(p: nat, n: nat, e: nat)
    requires e > 0 && p < n && ColOf(n, e) == 0
    ensures RowOf(p, e) < RowOf(n, e)
  {
    if p >= e {
      WithinTiles(p - e, n - e, e);
    }
  }

  lemma GridWithin(c: seq<int>, dom: Domain)
    requires Expanded(dom) && InDomain(c, dom)
    ensures Within(TileOf(c, dom), Tiles(dom)) && Within(InTile(c, dom), Extents(dom))
  {
    forall d | 0 <= d < |c|
      ensures TileOf(c, dom)[d] < Tiles(dom)[d]
    {
      WithinTiles(c[d] - dom.dims[d].lo, dom.dims[d].hi - dom.dims[d].lo + 1, dom.dims[d].extent);
    }
  }

  ghost function Number(l: Layout, v: seq<nat>, n: seq<nat>): nat
    requires |v| == |n|
  {
    if l == RowMajor then Row(v, n) else Col(v, n)
  }

  /** get_tile_pos, for the tile of a cell. */
  ghost function TilePos(c: seq<int>, dom: Domain): nat
    requires Expanded(dom) && InDomain(c, dom)
  {
    Number(dom.tileOrder, TileOf(c, dom), Tiles(dom))
  }

  /** get_cell_pos. */
  ghost function CellPos(c: seq<int>, dom: Domain): nat
    requires InDomain(c, dom)
  {
    Number(dom.cellOrder, InTile(c, dom), Extents(dom))
  }

  /** The position of a cell in the global order. */
  ghost function Global(c: seq<int>, dom: Domain): nat
    requires Expanded(dom) && InDomain(c, dom)
  {
    Idx(TilePos(c, dom), Prod(Extents(dom)), CellPos(c, dom))
  }

  // ---------------------------------------------------------------------------
  // Orders
  // ---------------------------------------------------------------------------

  ghost function Lex(l: Layout, a: seq<int>, b: seq<int>): int
    requires |a| == |b|
  {
    if l == RowMajor then LexFirst(a, b) else LexLast(a, b)
  }

  lemma {:induction false} LexSame(a: seq<int>, b: seq<int>, a': seq<int>, b': seq<int>)
    requires |a| == |b| == |a'| == |b'| && forall d :: 0 <= d < |a| ==> Cmp(a[d], b[d]) == Cmp(a'[d], b'[d])
    ensures LexFirst(a, b) == LexFirst(a', b') && LexLast(a, b) == LexLast(a', b')
  {
    if a != [] {
      var m := |a| - 1;
      LexSame(a[..m], b[..m], a'[..m], b'[..m]);
    }
  }

  /** In one tile the order of the cells is the order of their places in the tile. */
  lemma SameTileOrder(a: seq<int>, b: seq<int>, dom: Domain)
    requires Regular(dom) && InDomain(a, dom) && InDomain(b, dom) && TileOf(a, dom) == TileOf(b, dom)
    ensures Lex(dom.cellOrder, a, b) == Lex(dom.cellOrder, InTile(a, dom), InTile(b, dom))
  {
    forall d | 0 <= d < |a|
      ensures Cmp(a[d], b[d]) == Cmp(InTile(a, dom)[d], InTile(b, dom)[d])
    {
      var x, y, e := a[d] - dom.dims[d].lo, b[d] - dom.dims[d].lo, dom.dims[d].extent;
      assert RowOf(x, e) == TileOf(a, dom)[d] == TileOf(b, dom)[d] == RowOf(y, e);
      Reassembled(x, e);
      Reassembled(y, e);
      IdxOrder(RowOf(x, e), RowOf(y, e), e, ColOf(x, e), ColOf(y, e));
    }
    LexSame(a, b, InTile(a, dom), InTile(b, dom));
  }

  lemma NumberOrder(l: Layout, a: seq<nat>, b: seq<nat>, n: seq<nat>)
    requires Within(a, n) && Within(b, n)
    ensures Cmp(Number(l, a, n), Number(l, b, n)) == Lex(l, a, b)
    ensures Number(l, a, n) < Prod(n)
  {
    RowOrder(a, b, n);
    ColOrder(a, b, n);
    RowBound(a, n);
    ColBound(a, n);
  }

  /** Comparing tiles and then, in the same tile, cells is comparing global positions, for every
      tile order and every cell order. */
  lemma GlobalOrder(a: seq<int>, b: seq<int>, dom: Domain)
    requires Expanded(dom) && InDomain(a, dom) && InDomain(b, dom)
    ensures Cmp(Global(a, dom), Global(b, dom))
         == var t := Lex(dom.tileOrder, TileOf(a, dom), TileOf(b, dom)); if t != 0 then t else Lex(dom.cellOrder, a, b)
  {
    GridWithin(a, dom);
    GridWithin(b, dom);
    NumberOrder(dom.tileOrder, TileOf(a, dom), TileOf(b, dom), Tiles(dom));
    NumberOrder(dom.cellOrder, InTile(a, dom), InTile(b, dom), Extents(dom));
    NumberOrder(dom.cellOrder, InTile(b, dom), InTile(a, dom), Extents(dom));
    IdxOrder(TilePos(a, dom), TilePos(b, dom), Prod(Extents(dom)), CellPos(a, dom), CellPos(b, dom));
    LexZero(TileOf(a, dom), TileOf(b, dom));
    if TileOf(a, dom) == TileOf(b, dom) {
      SameTileOrder(a, b, dom);
    }
  }

  /** The number of cells of the expanded domain. */
  ghost function CellCount(dom: Domain): nat
    requires Expanded(dom)
  {
    Prod(Tiles(dom)) * Prod(Extents(dom))
  }

  lemma GlobalBound(c: seq<int>, dom: Domain)
    requires Expanded(dom) && InDomain(c, dom)
    ensures Global(c, dom) < CellCount(dom)
  {
    GridWithin(c, dom);
    NumberOrder(dom.tileOrder, TileOf(c, dom), TileOf(c, dom), Tiles(dom));
    NumberOrder(dom.cellOrder, InTile(c, dom), InTile(c, dom), Extents(dom));
    IdxBound(TilePos(c, dom), Prod(Tiles(dom)), Prod(Extents(dom)), CellPos(c, dom));
  }

  /** No two cells have the same global position. */
  lemma GlobalInjective(a: seq<int>, b: seq<int>, dom: Domain)
    requires Expanded(dom) && InDomain(a, dom) && InDomain(b, dom) && Global(a, dom) == Global(b, dom)
    ensures a == b
  {
    GlobalOrder(a, b, dom);
    LexZero(a, b);
  }

  lemma NumberOnto(l: Layout, p: nat, n: seq<nat>) returns (v: seq<nat>)
    requires p < Prod(n)
    ensures Within(v, n) && Number(l, v, n) == p
  {
    if l == RowMajor {
      v := RowOnto(p, n);
    } else {
      v := ColOnto(p, n);
    }
  }

  /** The cell of a tile at a place in the tile. */
  ghost function CellAt(t: seq<nat>, v: seq<nat>, dom: Domain): (c: seq<int>)
    requires |t| == |v| == |dom.dims|
    ensures |c| == |t|
  {
    seq(|t|, d requires 0 <= d < |t| => dom.dims[d].lo + Idx(t[d], dom.dims[d].extent, v[d]))
  }

  lemma CellAtIs(t: seq<nat>, v: seq<nat>, dom: Domain)
    requires Expanded(dom) && Within(t, Tiles(dom)) && Within(v, Extents(dom))
    ensures InDomain(CellAt(t, v, dom), dom)
    ensures TileOf(CellAt(t, v, dom), dom) == t && InTile(CellAt(t, v, dom), dom) == v
  {
    var c := CellAt(t, v, dom);
    forall d | 0 <= d < |c|
      ensures dom.dims[d].lo <= c[d] <= dom.dims[d].hi
      ensures RowOf(c[d] - dom.dims[d].lo, dom.dims[d].extent) == t[d]
      ensures ColOf(c[d] - dom.dims[d].lo, dom.dims[d].extent) == v[d]
    {
      var e, n := dom.dims[d].extent, dom.dims[d].hi - dom.dims[d].lo + 1;
      assert t[d] < Tiles(dom)[d] && v[d] < Extents(dom)[d];
      IdxParts(t[d], e, v[d]);
      Reassembled(n, e);
      IdxOrder(t[d], RowOf(n, e), e, v[d], 0);
    }
  }

  /** Every number below the cell count is the global position of a cell. */
  lemma GlobalOnto(p: nat, dom: Domain) returns (c: seq<int>)
    requires Expanded(dom) && p < CellCount(dom)
    ensures InDomain(c, dom) && Global(c, dom) == p
  {
    var m := Prod(Extents(dom));
    IdxSplit(p, Prod(Tiles(dom)), m);
    var t := NumberOnto(dom.tileOrder, RowOf(p, m), Tiles(dom));
    var v := NumberOnto(dom.cellOrder, ColOf(p, m), Extents(dom));
    c := CellAt(t, v, dom);
    CellAtIs(t, v, dom);
  }
}
