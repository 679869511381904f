/** Cell slabs and strides against the layout that is asked for: the successor of a cell in that layout is the next
    cell of its slab, or a stride further on in its tile. */
module SlabOrders {
  import opened Widths
  import opened Transposition
  import opened MixedRadix
  import opened CellBox
  import opened DomainGrid
  import opened Coordinates
  import opened DimensionTiles
  import opened CellNumbers
  import opened DomainMethods
  import opened GlobalOrders
  import opened CellSlabs

  /** A cell of a subarray of the domain. */
  ghost predicate InSubarray(ty: IntType, dom: Domain, subLo: seq<int>, subHi: seq<int>, c: seq<int>) {
    DomainOf(ty, dom) && InDomain(subLo, dom) && InDomain(subHi, dom) && InBox(c, subLo, subHi)
  }

  lemma CellInDomain(ty: IntType, dom: Domain, subLo: seq<int>, subHi: seq<int>, c: seq<int>)
    requires InSubarray(ty, dom, subLo, subHi, c)
    ensures InDomain(c, dom)
  {
  }

  /** While the fastest coordinate of a layout is below its bound, the successor moves along it. */
  lemma NextAlong(l: Layout, c: seq<int>, lo: seq<int>, hi: seq<int>, d: nat)
    requires |c| == |lo| == |hi| > 0 && d == Fastest(l, |c|) && c[d] < hi[d]
    ensures Next(l, c, lo, hi) == Along(c, d, 1)
  {
    if l == ColMajor {
      ColNextAlong(c, lo, hi);
    }
  }

  lemma {:induction false} ColNextAlong(c: seq<int>, lo: seq<int>, hi: seq<int>)
    requires |c| == |lo| == |hi| > 0 && c[0] < hi[0]
    ensures ColNext(c, lo, hi) == Along(c, 0, 1)
    decreases |c|
  {
    var m := |c| - 1;
    if m > 0 {
      assert c[..m][0] < hi[..m][0];
      ColNextAlong(c[..m], lo[..m], hi[..m]);
    }
  }

  /** A cell of a slab along d, other than its end. */
  ghost predicate BeforeEnd(c: seq<int>, start: seq<int>, end: seq<int>) {
    InBox(c, start, end) && c != end
  }

  /** The slab fits, along the fastest dimension of the cell order. */
  ghost predicate Fitting(ty: IntType, dom: Domain, subHi: seq<int>, start: seq<int>)
    requires DomainOf(ty, dom) && InDomain(start, dom) && |subHi| == |start|
  {
    var d := Fastest(dom.cellOrder, |start|);
    SlabFits(ty, start[d], dom.dims[d], subHi[d])
  }

  /** A cell of a slab is the start moved k places along d. */
  lemma OfSlab(start: seq<int>, end: seq<int>, c: seq<int>, d: nat, x: int)
    requires d < |start| && end == start[d := x] && BeforeEnd(c, start, end)
    ensures c == Along(start, d, c[d] - start[d]) && start[d] <= c[d] < x
  {
    forall i | 0 <= i < |c| && i != d
      ensures c[i] == start[i]
    {
      assert start[i] <= c[i] <= end[i];
    }
    assert start[d] <= c[d] <= end[d];
    assert c == start[d := c[d]];
  }

  lemma NothingBefore(c: seq<int>, start: seq<int>)
    ensures !BeforeEnd(c, start, start)
  {
    if InBox(c, start, start) {
      assert c == start;
    }
  }

  /** Cell number k of a slab and the next one: in one tile, at consecutive computed positions. */
  lemma Consecutive(ty: IntType, dom: Domain, subHi: seq<int>, start: seq<int>, d: nat, k: nat,
      a: seq<int>, b: seq<int>)
    requires SlabStart(ty, dom, subHi, start, d) && CellsFit(ty, dom)
    requires a == Along(start, d, k) && b == Along(start, d, k + 1)
    requires start[d] + k < SlabEndIn(ty, start[d], dom.dims[d], subHi[d])
    ensures InDomain(a, dom) && InDomain(b, dom) && TileOf(b, dom) == TileOf(a, dom)
    ensures CellPosIn(ty, b, dom) == CellPosIn(ty, a, dom) + 1
  {
    SlabIsContiguous(ty, dom, subHi, start, d, k);
    SlabIsContiguous(ty, dom, subHi, start, d, k + 1);
  }

  lemma Neighbours(ty: IntType, dom: Domain, subHi: seq<int>, start: seq<int>, d: nat, c: seq<int>, x: int)
    requires SlabStart(ty, dom, subHi, start, d) && CellsFit(ty, dom)
    requires x == SlabEndIn(ty, start[d], dom.dims[d], subHi[d]) && BeforeEnd(c, start, start[d := x])
    ensures var n := Along(c, d, 1);
            && InBox(n, start, start[d := x]) && c[d] < subHi[d]
            && InDomain(c, dom) && InDomain(n, dom) && TileOf(n, dom) == TileOf(c, dom)
            && CellPosIn(ty, n, dom) == CellPosIn(ty, c, dom) + 1
  {
    OfSlab(start, start[d := x], c, d, x);
    SlabIsMaximal(ty, dom, subHi, start, d);
    assert Along(c, d, 1) == Along(start, d, c[d] - start[d] + 1);
    Consecutive(ty, dom, subHi, start, d, c[d] - start[d], c, Along(c, d, 1));
  }

  /** The slab for an order of its own: from every cell but the last, the successor in that order is the next cell of
      the slab, in the same tile and at the next computed position. */
  lemma SlabFollowsOrder(ty: IntType, dom: Domain, subLo: seq<int>, subHi: seq<int>, start: seq<int>, l: Layout,
      c: seq<int>)
    requires InSubarray(ty, dom, subLo, subHi, start) && InDomain(start, dom) && Fitting(ty, dom, subHi, start)
    requires CellsFit(ty, dom) && BeforeEnd(c, start, SlabEndCell(ty, dom, subHi, start, Ordered(l)))
    ensures var n := Next(l, c, subLo, subHi);
            && InBox(n, start, SlabEndCell(ty, dom, subHi, start, Ordered(l)))
            && InDomain(c, dom) && InDomain(n, dom) && TileOf(n, dom) == TileOf(c, dom)
            && CellPosIn(ty, n, dom) == CellPosIn(ty, c, dom) + 1
  {
    var d := Fastest(l, |start|);
    if l == dom.cellOrder {
      Neighbours(ty, dom, subHi, start, d, c, SlabEndIn(ty, start[d], dom.dims[d], subHi[d]));
      NextAlong(l, c, subLo, subHi, d);
    } else {
      NothingBefore(c, start);
    }
  }

  /** The slab for the global order: the next cell along it is the next one in the global order. */
  lemma SlabFollowsGlobalOrder(ty: IntType, dom: Domain, subLo: seq<int>, subHi: seq<int>, start: seq<int>, d: nat,
      c: seq<int>)
    requires InSubarray(ty, dom, subLo, subHi, start) && InDomain(start, dom) && Fitting(ty, dom, subHi, start)
    requires d == Fastest(dom.cellOrder, |start|) && TilesFit(ty, dom.dims[d])
    requires CellsFit(ty, dom) && BeforeEnd(c, start, SlabEndCell(ty, dom, subHi, start, GlobalOrder))
    ensures var n := Along(c, d, 1);
            && InBox(n, start, SlabEndCell(ty, dom, subHi, start, GlobalOrder))
            && InDomain(c, dom) && InDomain(n, dom) && GlobalIn(ty, n, dom) == GlobalIn(ty, c, dom) + 1
  {
    var n := Along(c, d, 1);
    Neighbours(ty, dom, subHi, start, d, c, SlabEndIn(ty, start[d], dom.dims[d], subHi[d]));
    SameTilesIn(ty, dom, c, d);
    NextGlobal(ty, dom, c, n);
  }

  lemma NextGlobal(ty: IntType, dom: Domain, c: seq<int>, n: seq<int>)
    requires HasExtents(dom) && |c| == |n| == |dom.dims| && TilesIn(ty, n, dom) == TilesIn(ty, c, dom)
    requires CellPosIn(ty, n, dom) == CellPosIn(ty, c, dom) + 1
    ensures GlobalIn(ty, n, dom) == GlobalIn(ty, c, dom) + 1
  {
    IdxShift(TilePosIn(ty, c, dom), Prod(Extents(dom)), CellPosIn(ty, c, dom), 1);
  }

  lemma SameTilesIn(ty: IntType, dom: Domain, c: seq<int>, d: nat)
    requires DomainOf(ty, dom) && InDomain(c, dom) && d < |c| && InDomain(Along(c, d, 1), dom)
    requires TileOf(Along(c, d, 1), dom) == TileOf(c, dom) && TilesFit(ty, dom.dims[d])
    ensures TilesIn(ty, Along(c, d, 1), dom) == TilesIn(ty, c, dom)
  {
    var n := Along(c, d, 1);
    assert TileOf(n, dom)[d] == TileOf(c, dom)[d];
    TileRight(ty, c[d], dom.dims[d]);
    TileRight(ty, n[d], dom.dims[d]);
  }

  /** For the global order and for the cell order the slab goes as far as it can along the fastest dimension of the cell
      order, and there is no stride. */
  lemma SlabGoesToTheEnd(ty: IntType, dom: Domain, subHi: seq<int>, start: seq<int>, order: Order, d: nat)
    requires DomainOf(ty, dom) && InDomain(start, dom) && InDomain(subHi, dom) && d == Fastest(dom.cellOrder, |start|)
    requires start[d] <= subHi[d] && Fitting(ty, dom, subHi, start)
    requires order == GlobalOrder || order.layout == dom.cellOrder
    ensures var end := SlabEndCell(ty, dom, subHi, start, order);
            && start[d] <= end[d] <= subHi[d] && end == start[d := end[d]]
            && (end[d] == subHi[d] || Tile(dom.dims[d], end[d] + 1) != Tile(dom.dims[d], start[d]))
    ensures StrideIn(dom, order) == UINT64_MAX
  {
    SlabIsMaximal(ty, dom, subHi, start, d);
  }

  /** For the other order a slab is one cell, and the successor in that order, while it moves along a row of the
      subarray and stays in the tile, is a stride further on. */
  lemma OtherOrderStrides(ty: IntType, dom: Domain, subLo: seq<int>, subHi: seq<int>, c: seq<int>, l: Layout, d: nat)
    requires InSubarray(ty, dom, subLo, subHi, c) && CellsFit(ty, dom) && |c| > 1 && l != dom.cellOrder
    requires d == Fastest(l, |c|) && c[d] < subHi[d]
    ensures SlabEndCell(ty, dom, subHi, c, Ordered(l)) == c && InDomain(c, dom)
    ensures var n := Next(l, c, subLo, subHi);
            && n == Along(c, d, 1) && InDomain(n, dom)
            && (TileOf(n, dom) == TileOf(c, dom) ==>
                  CellPosIn(ty, n, dom) - CellPosIn(ty, c, dom) == StrideIn(dom, Ordered(l)))
  {
    var n := Along(c, d, 1);
    CellInDomain(ty, dom, subLo, subHi, c);
    NextAlong(l, c, subLo, subHi, d);
    if TileOf(n, dom) == TileOf(c, dom) {
      StaysInTile(c[d] - dom.dims[d].lo, dom.dims[d].extent, TileOf(n, dom)[d], TileOf(c, dom)[d]);
      NeighboursAreAStrideApart(ty, dom, c, d);
    }
  }

  lemma StaysInTile(p: nat, e: nat, t: nat, u: nat)
    requires e > 0 && t == RowOf(p + 1, e) && u == RowOf(p, e) && t == u
    ensures ColOf(p, e) + 1 < e
  {
    if ColOf(p, e) + 1 == e {
      LeaveTile(p, e, 1);
    }
  }
}
