/** The methods of the domain over coordinates: tile coordinates, cell and tile positions, and order
    comparisons, with every value in the type in which the source keeps it. */
module DomainMethods {
  import opened Widths
  import opened Transposition
  import opened MixedRadix
  import opened CellBox
  import opened CellPositions
  import opened DomainGrid
  import opened Offsets
  import opened Coordinates
  import opened PositionLoops
  import opened CellNumbers

  /** All bounds and extents have the type of the coordinates. */
  ghost predicate DomainOf(ty: IntType, dom: Domain) {
    |dom.dims| > 0 && forall d :: 0 <= d < |dom.dims| ==> DimOf(ty, dom.dims[d])
  }

  ghost predicate HasExtents(dom: Domain) {
    |dom.dims| > 0 && forall d :: 0 <= d < |dom.dims| ==> dom.dims[d].extent > 0
  }

  // ---------------------------------------------------------------------------
  // Tile coordinates
  // ---------------------------------------------------------------------------

  ghost function TilesIn(ty: IntType, c: seq<int>, dom: Domain): (t: seq<int>)
    requires HasExtents(dom) && |c| == |dom.dims|
    ensures |t| == |c|
  {
    seq(|c|, d requires 0 <= d < |c| => TileIn(ty, c[d], dom.dims[d]))
  }

  /** get_tile_coords. */
  method GetTileCoords(ty: IntType, c: seq<int>, dom: Domain) returns (t: seq<int>)
    requires HasExtents(dom) && |c| == |dom.dims|
    ensures t == TilesIn(ty, c, dom)
  {
    t := [];
    for d := 0 to |c|
      invariant |t| == d && forall i :: 0 <= i < d ==> t[i] == TilesIn(ty, c, dom)[i]
    {
      var norm := Store(Promoted(ty), c[d] - dom.dims[d].lo);
      t := t + [Store(ty, Div(norm, dom.dims[d].extent))];
    }
  }

  /** The tile coordinates are those of the tile of the cell. */
  lemma TileCoordsRight(ty: IntType, c: seq<int>, dom: Domain)
    requires DomainOf(ty, dom) && InDomain(c, dom) && forall d :: 0 <= d < |c| ==> TilesFit(ty, dom.dims[d])
    ensures TilesIn(ty, c, dom) == TileOf(c, dom)
  {
    forall d | 0 <= d < |c|
      ensures TilesIn(ty, c, dom)[d] == TileOf(c, dom)[d]
    {
      TileRight(ty, c[d], dom.dims[d]);
    }
  }

  // ---------------------------------------------------------------------------
  // Cell positions
  // ---------------------------------------------------------------------------

  ghost function NormsIn(ty: IntType, c: seq<int>, dom: Domain): (v: seq<int>)
    requires HasExtents(dom) && |c| == |dom.dims|
    ensures |v| == |c|
  {
    seq(|c|, d requires 0 <= d < |c| => NormIn(ty, c[d], dom.dims[d]))
  }

  /** The coordinates of a cell in its tile, as get_cell_pos_row and get_cell_pos_col normalise them. */
  method Normalised(ty: IntType, c: seq<int>, dom: Domain) returns (v: seq<int>, n: seq<nat>)
    requires HasExtents(dom) && |c| == |dom.dims|
    ensures v == NormsIn(ty, c, dom) && n == Extents(dom)
  {
    v, n := [], [];
    for d := 0 to |c|
      invariant |v| == |n| == d
      invariant forall i :: 0 <= i < d ==> v[i] == NormsIn(ty, c, dom)[i] && n[i] == Extents(dom)[i]
    {
      var norm := Store(ty, c[d] - dom.dims[d].lo);
      norm := norm - Div(norm, dom.dims[d].extent) * dom.dims[d].extent;
      v, n := v + [norm], n + [dom.dims[d].extent];
    }
  }

  /** The position of a cell in its tile that the source computes. */
  ghost function CellPosIn(ty: IntType, c: seq<int>, dom: Domain): nat
    requires HasExtents(dom) && |c| == |dom.dims|
  {
    CellNumber(dom.cellOrder, ty, NormsIn(ty, c, dom), Extents(dom))
  }

  /** get_cell_pos. */
  method GetCellPos(ty: IntType, c: seq<int>, dom: Domain) returns (pos: nat)
    requires HasExtents(dom) && |c| == |dom.dims|
    ensures pos == CellPosIn(ty, c, dom)
  {
    var v, n := Normalised(ty, c, dom);
    if dom.cellOrder == RowMajor {
      pos := CellNumberRow(ty, v, n);
    } else {
      pos := CellNumberCol(ty, v, n);
    }
  }

  /** The coordinates counted from the lower bounds, and the numbers of cells of a tile, fit. */
  ghost predicate CellsFit(ty: IntType, dom: Domain)
    requires DomainOf(ty, dom)
  {
    && (forall d :: 0 <= d < |dom.dims| ==> NormFits(ty, dom.dims[d]))
    && ExtentsOf(ty, Extents(dom)) && ProductsFit(dom.cellOrder, ty, Extents(dom)) && Prod(Extents(dom)) <= MAX_CELLS
  }

  /** Then the computed position is the position in the tile. */
  lemma CellPosRight(ty: IntType, c: seq<int>, dom: Domain)
    requires DomainOf(ty, dom) && InDomain(c, dom) && CellsFit(ty, dom)
    ensures CellPosIn(ty, c, dom) == CellPos(c, dom)
  {
    forall d | 0 <= d < |c|
      ensures NormsIn(ty, c, dom)[d] == InTile(c, dom)[d] < Extents(dom)[d]
    {
      NormRight(ty, c[d], dom.dims[d]);
    }
    assert NormsIn(ty, c, dom) == InTile(c, dom);
    CellNumberRight(dom.cellOrder, ty, InTile(c, dom), Extents(dom));
  }

  // ---------------------------------------------------------------------------
  // Tile positions
  // ---------------------------------------------------------------------------

  ghost function TileNumsIn(ty: IntType, dom: Domain): (n: seq<nat>)
    requires HasExtents(dom)
    ensures |n| == |dom.dims|
  {
    seq(|dom.dims|, d requires 0 <= d < |dom.dims| =>
      AsPosition(Div(Store(Promoted(ty), dom.dims[d].hi - dom.dims[d].lo + 1), dom.dims[d].extent)))
  }

  /** The number of tiles along every dimension, as get_tile_pos_row and get_tile_pos_col take it. */
  method TileNums(ty: IntType, dom: Domain) returns (n: seq<nat>)
    requires HasExtents(dom)
    ensures n == TileNumsIn(ty, dom)
  {
    n := [];
    for d := 0 to |dom.dims|
      invariant |n| == d && forall i :: 0 <= i < d ==> n[i] == TileNumsIn(ty, dom)[i]
    {
      var cells := Store(Promoted(ty), dom.dims[d].hi - dom.dims[d].lo + 1);
      n := n + [AsPosition(Div(cells, dom.dims[d].extent))];
    }
  }

  /** A difference or count n that does not overflow; or that wraps as a position does, in tiles of one cell. */
  ghost predicate QuotientFits(ty: IntType, n: nat, e: nat) {
    n <= Promoted(ty).max || (Size(ty) == Size(UINT64) && e == 1 && n <= UINT64_MAX)
  }

  /** A quotient that is computed in the arithmetic type and taken to 64 bits is right exactly then. */
  lemma QuotientIff(ty: IntType, n: nat, e: nat)
    requires 0 < e <= ty.max && n <= Size(ty)
    ensures AsPosition(Div(Store(Promoted(ty), n), e)) == RowOf(n, e) <==> QuotientFits(ty, n, e)
  {
    RowOfAtMost(n, e);
    if n > Promoted(ty).max {
      var k := Size(ty) - n;
      assert Promoted(ty) == ty && Store(ty, n) == 0 - k;
      WrappedQuotient(ty, n, k, e);
    }
  }

  lemma WrappedQuotient(ty: IntType, n: nat, k: nat, e: nat)
    requires 0 < e <= ty.max < n && n + k == Size(ty)
    ensures AsPosition(Div(0 - k, e)) == RowOf(n, e) <==> Size(ty) == Size(UINT64) && e == 1 && n <= UINT64_MAX
  {
    var q, j: int := RowOf(n, e), RowOf(k, e);
    Quotient(n, e);
    Quotient(k, e);
    RowOfAtMost(k, e);
    RowOfMonotone(e, n, e);
    assert Div(0 - k, e) == 0 - j;
    assert AsPosition(0 - j) == if j == 0 then 0 else Size(UINT64) - j;
    FewTogether(q, j, e, Size(ty));
  }

  lemma FewTogether(q: nat, j: nat, e: nat, s: nat)
    requires e > 0 && q * e + j * e <= s
    ensures e == 1 ==> q + j <= s
    ensures e > 1 ==> 2 * (q + j) <= s
  {
    assert q * e + j * e == (q + j) * e;
    if e > 1 {
      assert (q + j) * e == (q + j) * 2 + (q + j) * (e - 2);
    }
  }

  /** The number of cells along dimension d gives the number of tiles. */
  ghost predicate CountFits(ty: IntType, dim: Dimension)
    requires dim.lo <= dim.hi
  {
    QuotientFits(ty, dim.hi - dim.lo + 1, dim.extent)
  }

  /** The counts are the numbers of whole tiles exactly when they fit. */
  lemma TileNumsIff(ty: IntType, dom: Domain)
    requires DomainOf(ty, dom)
    ensures TileNumsIn(ty, dom) == Tiles(dom) <==> forall d :: 0 <= d < |dom.dims| ==> CountFits(ty, dom.dims[d])
  {
    forall d | 0 <= d < |dom.dims|
      ensures TileNumsIn(ty, dom)[d] == Tiles(dom)[d] <==> CountFits(ty, dom.dims[d])
    {
      QuotientIff(ty, dom.dims[d].hi - dom.dims[d].lo + 1, dom.dims[d].extent);
    }
  }

  /** The offsets of get_tile_pos_col: the number of tiles in the dimensions before. */
  method ColOffsets(n: seq<nat>) returns (offsets: seq<nat>)
    requires |n| > 0
    ensures AreOffsets(ColMajor, n, offsets)
  {
    offsets := [1];
    for d := 1 to |n|
      invariant |offsets| == d && forall i :: 0 <= i < d ==> offsets[i] == Prod(n[..i])
    {
      ProdNext(n, d - 1);
      offsets := offsets + [offsets[d - 1] * n[d - 1]];
    }
  }

  /** The offsets of get_tile_pos_row, from the last dimension back: the number of tiles in the
      dimensions after. */
  method RowOffsets(n: seq<nat>) returns (offsets: seq<nat>)
    requires |n| > 0
    ensures AreOffsets(RowMajor, n, offsets)
  {
    offsets := [1];
    var d := |n| - 1;
    while d > 0
      invariant 0 <= d < |n| && |offsets| == |n| - d
      invariant forall i :: 0 <= i < |offsets| ==> offsets[i] == From(n, d + i + 1)
    {
      offsets := [offsets[0] * n[d]] + offsets;
      d := d - 1;
    }
  }

  /** The sum over the dimensions. */
  method SumOf(t: seq<nat>, offsets: seq<nat>) returns (pos: nat)
    requires |t| == |offsets|
    ensures pos == Dot(t, offsets)
  {
    pos := 0;
    for d := 0 to |t|
      invariant pos == Dot(t[..d], offsets[..d])
    {
      DotTake(t, offsets, d);
      pos := pos + t[d] * offsets[d];
    }
    assert t[..|t|] == t && offsets[..|t|] == offsets;
  }

  /** get_tile_pos_col. */
  method GetTilePosCol(t: seq<nat>, n: seq<nat>) returns (pos: nat)
    requires |t| == |n| > 0
    ensures pos == AsPosition(Col(t, n))
  {
    var offsets := ColOffsets(n);
    var sum := SumOf(t, offsets);
    DotIsNumber(ColMajor, t, n, offsets);
    pos := AsPosition(sum);
  }

  /** get_tile_pos_row. */
  method GetTilePosRow(t: seq<nat>, n: seq<nat>) returns (pos: nat)
    requires |t| == |n| > 0
    ensures pos == AsPosition(Row(t, n))
  {
    var offsets := RowOffsets(n);
    var sum := SumOf(t, offsets);
    DotIsNumber(RowMajor, t, n, offsets);
    pos := AsPosition(sum);
  }

  /** get_tile_pos. */
  method GetTilePos(ty: IntType, t: seq<int>, dom: Domain) returns (pos: nat)
    requires HasExtents(dom) && |t| == |dom.dims|
    ensures pos == AsPosition(Number(dom.tileOrder, Positions(t), TileNumsIn(ty, dom)))
  {
    var n := TileNums(ty, dom);
    if dom.tileOrder == RowMajor {
      pos := GetTilePosRow(Positions(t), n);
    } else {
      pos := GetTilePosCol(Positions(t), n);
    }
  }

  // ---------------------------------------------------------------------------
  // Comparisons
  // ---------------------------------------------------------------------------

  lemma {:induction false} FirstDecides(a: seq<int>, b: seq<int>, d: nat)
    requires |a| == |b| && d < |a| && a[..d] == b[..d] && a[d] != b[d]
    ensures LexFirst(a, b) == Cmp(a[d], b[d])
    decreases |a|
  {
    var m := |a| - 1;
    if d < m {
      assert a[..m][..d] == a[..d] && b[..m][..d] == b[..d];
      FirstDecides(a[..m], b[..m], d);
    } else {
      LexZero(a[..m], b[..m]);
    }
  }

  lemma {:induction false} LastDecides(a: seq<int>, b: seq<int>, d: nat)
    requires |a| == |b| && d < |a| && a[d + 1..] == b[d + 1..] && a[d] != b[d]
    ensures LexLast(a, b) == Cmp(a[d], b[d])
    decreases |a|
  {
    var m := |a| - 1;
    if d < m {
      assert a[m] == a[d + 1..][m - d - 1] == b[d + 1..][m - d - 1] == b[m];
      assert a[..m][d + 1..] == a[d + 1..][..m - d - 1] && b[..m][d + 1..] == b[d + 1..][..m - d - 1];
      LastDecides(a[..m], b[..m], d);
    }
  }

  /** The loop of cell_order_cmp and of tile_order_cmp over the dimensions. */
  method OrderCmp(l: Layout, a: seq<int>, b: seq<int>) returns (res: int)
    requires |a| == |b| > 0
    ensures res == Lex(l, a, b)
  {
    if l == RowMajor {
      for d := 0 to |a|
        invariant a[..d] == b[..d]
      {
        res := if a[d] < b[d] then -1 else if a[d] > b[d] then 1 else 0;
        if res == 1 || res == -1 {
          FirstDecides(a, b, d);
          return;
        }
      }
    } else {
      var d := |a|;
      while d > 0
        invariant 0 <= d <= |a| && a[d..] == b[d..]
      {
        d := d - 1;
        res := if a[d] < b[d] then -1 else if a[d] > b[d] then 1 else 0;
        if res == 1 || res == -1 {
          LastDecides(a, b, d);
          return;
        }
        assert a[d..] == [a[d]] + a[d + 1..] && b[d..] == [b[d]] + b[d + 1..];
      }
    }
    assert a == b;
    LexZero(a, b);
    res := 0;
  }

  /** cell_order_cmp. */
  method CellOrderCmp(a: seq<int>, b: seq<int>, dom: Domain) returns (res: int)
    requires |a| == |b| == |dom.dims| > 0
    ensures res == Lex(dom.cellOrder, a, b)
  {
    res := OrderCmp(dom.cellOrder, a, b);
  }

  /** The tile numbers that are compared: they are not stored in the type of the coordinates. */
  ghost function TileKeys(ty: IntType, c: seq<int>, dom: Domain): (t: seq<nat>)
    requires HasExtents(dom) && |c| == |dom.dims|
    ensures |t| == |c|
  {
    seq(|c|, d requires 0 <= d < |c| => AsPosition(Div(Store(Promoted(ty), c[d] - dom.dims[d].lo), dom.dims[d].extent)))
  }

  method KeysOf(ty: IntType, c: seq<int>, dom: Domain) returns (t: seq<nat>)
    requires HasExtents(dom) && |c| == |dom.dims|
    ensures t == TileKeys(ty, c, dom)
  {
    t := [];
    for d := 0 to |c|
      invariant |t| == d && forall i :: 0 <= i < d ==> t[i] == TileKeys(ty, c, dom)[i]
    {
      t := t + [AsPosition(Div(Store(Promoted(ty), c[d] - dom.dims[d].lo), dom.dims[d].extent))];
    }
  }

  /** tile_order_cmp. */
  method TileOrderCmp(ty: IntType, a: seq<int>, b: seq<int>, dom: Domain) returns (res: int)
    requires HasExtents(dom) && |a| == |b| == |dom.dims|
    ensures res == Lex(dom.tileOrder, TileKeys(ty, a, dom), TileKeys(ty, b, dom))
  {
    var ta := KeysOf(ty, a, dom);
    var tb := KeysOf(ty, b, dom);
    res := OrderCmp(dom.tileOrder, ta, tb);
  }

  /** The difference of the bounds gives the number of the last tile. */
  ghost predicate KeyFits(ty: IntType, dim: Dimension)
    requires dim.lo <= dim.hi
  {
    QuotientFits(ty, dim.hi - dim.lo, dim.extent)
  }

  lemma KeyAt(ty: IntType, c: seq<int>, dom: Domain, d: nat)
    requires DomainOf(ty, dom) && InDomain(c, dom) && d < |c|
    ensures TileKeys(ty, c, dom)[d] == TileOf(c, dom)[d] <==>
              QuotientFits(ty, c[d] - dom.dims[d].lo, dom.dims[d].extent)
  {
    QuotientIff(ty, c[d] - dom.dims[d].lo, dom.dims[d].extent);
  }

  lemma TileKeysRight(ty: IntType, c: seq<int>, dom: Domain)
    requires DomainOf(ty, dom) && InDomain(c, dom) && forall d :: 0 <= d < |dom.dims| ==> KeyFits(ty, dom.dims[d])
    ensures TileKeys(ty, c, dom) == TileOf(c, dom)
  {
    forall d | 0 <= d < |c|
      ensures TileKeys(ty, c, dom)[d] == TileOf(c, dom)[d]
    {
      assert KeyFits(ty, dom.dims[d]);
      KeyAt(ty, c, dom, d);
    }
  }

  ghost predicate KeysAreRight(ty: IntType, c: seq<int>, dom: Domain)
    requires HasExtents(dom)
  {
    InDomain(c, dom) ==> TileKeys(ty, c, dom) == TileOf(c, dom)
  }

  /** The compared numbers are the tiles of the cells, for all cells, exactly when they fit. */
  lemma TileKeysIff(ty: IntType, dom: Domain)
    requires DomainOf(ty, dom)
    ensures (forall c :: KeysAreRight(ty, c, dom)) <==> forall d :: 0 <= d < |dom.dims| ==> KeyFits(ty, dom.dims[d])
  {
    if forall d :: 0 <= d < |dom.dims| ==> KeyFits(ty, dom.dims[d]) {
      forall c
        ensures KeysAreRight(ty, c, dom)
      {
        if InDomain(c, dom) {
          TileKeysRight(ty, c, dom);
        }
      }
    } else {
      var d :| 0 <= d < |dom.dims| && !KeyFits(ty, dom.dims[d]);
      var c := seq(|dom.dims|, i requires 0 <= i < |dom.dims| => dom.dims[i].hi);
      KeyAt(ty, c, dom, d);
      assert !KeysAreRight(ty, c, dom);
    }
  }
}
