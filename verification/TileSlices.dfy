/** Slices of a domain: the tiles that a slice meets, their positions, and the parts of the slice that lie in
    each of them. */
module TileSlices {
  import opened Transposition
  import opened CellBox
  import opened DomainGrid
  import opened DimensionTiles

  /** A slice of a domain. */
  datatype Slice = Slice(dims: seq<Dimension>, lo: seq<int>, hi: seq<int>)

  /** The slice is not empty and lies in the domain. */
  ghost predicate Sliced(s: Slice) {
    && |s.dims| == |s.lo| == |s.hi| > 0
    && forall d :: 0 <= d < |s.dims| ==> Tiled(s.dims[d]) && s.dims[d].lo <= s.lo[d] <= s.hi[d] <= s.dims[d].hi
  }

  /** The first tile of the tile domain, along each dimension. */
  ghost function TileLo(s: Slice): (t: seq<int>)
    requires Sliced(s)
    ensures |t| == |s.dims|
  {
    seq(|s.dims|, d requires 0 <= d < |s.dims| => Tile(s.dims[d], s.lo[d]))
  }

  /** The last tile of the tile domain, along each dimension. */
  ghost function TileHi(s: Slice): (t: seq<int>)
    requires Sliced(s)
    ensures |t| == |s.dims|
  {
    seq(|s.dims|, d requires 0 <= d < |s.dims| => Tile(s.dims[d], s.hi[d]))
  }

  lemma TileBox(s: Slice)
    requires Sliced(s)
    ensures Box(TileLo(s), TileHi(s)) && forall d :: 0 <= d < |s.dims| ==> TileLo(s)[d] >= 0
  {
    forall d | 0 <= d < |s.dims|
      ensures TileLo(s)[d] <= TileHi(s)[d]
    {
      TileMonotone(s.dims[d], s.lo[d], s.hi[d]);
    }
  }

  /** t is a tile of the tile domain. */
  ghost predicate IsTile(t: seq<int>, s: Slice)
    requires Sliced(s)
  {
    InBox(t, TileLo(s), TileHi(s))
  }

  /** The part of a slice in tile t of one dimension. */
  ghost function OverlapLo(dim: Dimension, lo: int, t: int): int {
    if dim.lo + t * dim.extent > lo then dim.lo + t * dim.extent else lo
  }

  ghost function OverlapHi(dim: Dimension, hi: int, t: int): int {
    if dim.lo + t * dim.extent + dim.extent - 1 < hi then dim.lo + t * dim.extent + dim.extent - 1 else hi
  }

  /** c is in the part of the slice that lies in tile t. */
  ghost predicate InOverlap(c: seq<int>, t: seq<int>, s: Slice) {
    |c| == |t| == |s.dims| == |s.lo| == |s.hi| && forall d :: 0 <= d < |c| ==>
      OverlapLo(s.dims[d], s.lo[d], t[d]) <= c[d] <= OverlapHi(s.dims[d], s.hi[d], t[d])
  }

  lemma TileCells(dim: Dimension, t: nat)
    requires Tiled(dim)
    ensures dim.lo + t * dim.extent == First(dim, t) && dim.lo + t * dim.extent + dim.extent == First(dim, t + 1)
  {
    IdxIs(t, dim.extent, 0);
  }

  /** The cells of tile t. */
  lemma TileHolds(dim: Dimension, t: nat, x: int)
    requires Tiled(dim)
    ensures First(dim, t) <= x < First(dim, t + 1) <==> dim.lo <= x && Tile(dim, x) == t
  {
    FirstTile(dim, t);
    if dim.lo <= x {
      TileBounds(dim, x);
      FirstGrows(dim, Tile(dim, x), t + 1);
      FirstGrows(dim, t, Tile(dim, x) + 1);
    }
  }

  /** A tile of the tile domain meets the slice: its part is not empty. */
  lemma OverlapNotEmpty(s: Slice, t: seq<int>, d: nat)
    requires Sliced(s) && IsTile(t, s) && d < |s.dims|
    ensures OverlapLo(s.dims[d], s.lo[d], t[d]) <= OverlapHi(s.dims[d], s.hi[d], t[d])
  {
    var dim := s.dims[d];
    TileBox(s);
    assert TileLo(s)[d] <= t[d] <= TileHi(s)[d];
    TileCells(dim, t[d]);
    TileBounds(dim, s.lo[d]);
    TileBounds(dim, s.hi[d]);
    FirstGrows(dim, t[d], Tile(dim, s.lo[d]));
    FirstGrows(dim, Tile(dim, s.hi[d]), t[d]);
    FirstGrows(dim, t[d] + 1, Tile(dim, s.lo[d]) + 1);
  }

  /** The tile of a cell of the slice. */
  ghost function TileOfCell(c: seq<int>, s: Slice): (t: seq<int>)
    requires Sliced(s) && InBox(c, s.lo, s.hi)
    ensures |t| == |c|
  {
    seq(|c|, d requires 0 <= d < |c| => Tile(s.dims[d], c[d]))
  }

  lemma OverlapAlong(dim: Dimension, lo: int, hi: int, t: nat, x: int)
    requires Tiled(dim) && dim.lo <= lo
    ensures OverlapLo(dim, lo, t) <= x <= OverlapHi(dim, hi, t) <==> lo <= x <= hi && dim.lo <= x && Tile(dim, x) == t
  {
    TileCells(dim, t);
    TileHolds(dim, t, x);
  }

  /** The parts of the tiles partition the slice: a cell of the slice is in the part of exactly one tile of the
      tile domain, its own, and the parts hold no other cells. */
  lemma OverlapsPartition(s: Slice, c: seq<int>, t: seq<int>)
    requires Sliced(s) && IsTile(t, s)
    ensures InOverlap(c, t, s) <==> InBox(c, s.lo, s.hi) && TileOfCell(c, s) == t
    ensures InBox(c, s.lo, s.hi) ==> IsTile(TileOfCell(c, s), s)
  {
    TileBox(s);
    if |c| == |t| {
      forall d | 0 <= d < |c|
        ensures OverlapLo(s.dims[d], s.lo[d], t[d]) <= c[d] <= OverlapHi(s.dims[d], s.hi[d], t[d])
           <==> s.lo[d] <= c[d] <= s.hi[d] && s.dims[d].lo <= c[d] && Tile(s.dims[d], c[d]) == t[d]
      {
        assert TileLo(s)[d] <= t[d];
        OverlapAlong(s.dims[d], s.lo[d], s.hi[d], t[d], c[d]);
      }
      assert InBox(c, s.lo, s.hi) && TileOfCell(c, s) == t ==> forall d :: 0 <= d < |c| ==> TileOfCell(c, s)[d] == t[d];
    }
    if InBox(c, s.lo, s.hi) {
      CellTile(s, c);
    }
  }

  lemma CellTile(s: Slice, c: seq<int>)
    requires Sliced(s) && InBox(c, s.lo, s.hi)
    ensures IsTile(TileOfCell(c, s), s)
  {
    forall d | 0 <= d < |c|
      ensures TileLo(s)[d] <= TileOfCell(c, s)[d] <= TileHi(s)[d]
    {
      TileMonotone(s.dims[d], s.lo[d], c[d]);
      TileMonotone(s.dims[d], c[d], s.hi[d]);
    }
  }

  /** This slice covers another one in tile t. */
  ghost predicate Covers(s: Slice, o: Slice, t: seq<int>)
    requires Sliced(s) && Sliced(o)
  {
    && IsTile(t, s) && IsTile(t, o)
    && forall d :: 0 <= d < |t| ==>
         && OverlapLo(s.dims[d], s.lo[d], t[d]) <= OverlapLo(o.dims[d], o.lo[d], t[d])
         && OverlapHi(o.dims[d], o.hi[d], t[d]) <= OverlapHi(s.dims[d], s.hi[d], t[d])
  }

  /** The corners of the part of a slice in a tile are in it. */
  ghost function LowCell(s: Slice, t: seq<int>): (c: seq<int>)
    requires |t| == |s.dims| == |s.lo| == |s.hi|
    ensures |c| == |t|
  {
    seq(|t|, d requires 0 <= d < |t| => OverlapLo(s.dims[d], s.lo[d], t[d]))
  }

  ghost function HighCell(s: Slice, t: seq<int>): (c: seq<int>)
    requires |t| == |s.dims| == |s.lo| == |s.hi|
    ensures |c| == |t|
  {
    seq(|t|, d requires 0 <= d < |t| => OverlapHi(s.dims[d], s.hi[d], t[d]))
  }

  lemma CornersInOverlap(s: Slice, t: seq<int>)
    requires Sliced(s) && IsTile(t, s)
    ensures InOverlap(LowCell(s, t), t, s) && InOverlap(HighCell(s, t), t, s)
  {
    forall d | 0 <= d < |t|
      ensures OverlapLo(s.dims[d], s.lo[d], t[d]) <= OverlapHi(s.dims[d], s.hi[d], t[d])
    {
      OverlapNotEmpty(s, t, d);
    }
  }

  /** Covering in a tile means that the tile belongs to both tile domains and that every cell the other slice
      has there is one of this slice. */
  lemma CoversIff(s: Slice, o: Slice, t: seq<int>)
    requires Sliced(s) && Sliced(o) && s.dims == o.dims
    ensures Covers(s, o, t) <==>
              IsTile(t, s) && IsTile(t, o) && forall c {:trigger InOverlap(c, t, s)} {:trigger InOverlap(c, t, o)} ::
                InOverlap(c, t, o) ==> InOverlap(c, t, s)
  {
    if IsTile(t, s) && IsTile(t, o) {
      CornersInOverlap(o, t);
      if forall c {:trigger InOverlap(c, t, s)} {:trigger InOverlap(c, t, o)} ::
           InOverlap(c, t, o) ==> InOverlap(c, t, s) {
        assert InOverlap(LowCell(o, t), t, s) && InOverlap(HighCell(o, t), t, s);
        forall d | 0 <= d < |t|
          ensures OverlapLo(s.dims[d], s.lo[d], t[d]) <= OverlapLo(o.dims[d], o.lo[d], t[d])
          ensures OverlapHi(o.dims[d], o.hi[d], t[d]) <= OverlapHi(s.dims[d], s.hi[d], t[d])
        {
          assert LowCell(o, t)[d] == OverlapLo(o.dims[d], o.lo[d], t[d]);
          assert HighCell(o, t)[d] == OverlapHi(o.dims[d], o.hi[d], t[d]);
        }
      }
    }
  }

  lemma CoversByCorners(s: Slice, o: Slice, t: seq<int>)
    requires Sliced(s) && Sliced(o) && |t| == |s.dims| == |o.dims|
    ensures Covers(s, o, t) <==>
              IsTile(t, s) && IsTile(t, o) && forall d :: 0 <= d < |t| ==>
                LowCell(s, t)[d] <= LowCell(o, t)[d] && HighCell(o, t)[d] <= HighCell(s, t)[d]
  {
    assert forall d :: 0 <= d < |t| ==>
      && LowCell(s, t)[d] == OverlapLo(s.dims[d], s.lo[d], t[d])
      && HighCell(s, t)[d] == OverlapHi(s.dims[d], s.hi[d], t[d]);
    assert forall d :: 0 <= d < |t| ==>
      && LowCell(o, t)[d] == OverlapLo(o.dims[d], o.lo[d], t[d])
      && HighCell(o, t)[d] == OverlapHi(o.dims[d], o.hi[d], t[d]);
  }

  // ---------------------------------------------------------------------------
  // Positions
  // ---------------------------------------------------------------------------

  /** Positions of tiles are a bijection onto an initial segment: every number below the tile count is the
      position of a tile. (That no two tiles share one is PosInjective, that none is too high PosBound.) */
  lemma PosOnto(l: Layout, s: Slice, p: nat) returns (t: seq<int>)
    requires Sliced(s) && Box(TileLo(s), TileHi(s)) && p < Cells(TileLo(s), TileHi(s))
    ensures IsTile(t, s) && Pos(l, t, TileLo(s), TileHi(s)) == p
  {
    Visits(l, TileLo(s), TileHi(s), p);
    t := Nth(l, TileLo(s), TileHi(s), p);
  }
}
