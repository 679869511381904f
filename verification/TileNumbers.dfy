/** Tile positions that are not always right: those with the offsets that a domain caches, and those in a domain that is
    no whole number of tiles. Exactly when they are. */
module TileNumbers {
  import opened Transposition
  import opened MixedRadix
  import opened CellBox
  import opened CellPositions
  import opened DomainGrid
  import opened Offsets
  import opened DomainMethods

  /** The number of tiles that a dimension meets, the last of which may reach beyond it. */
  ghost function MetTiles(dom: Domain): (n: seq<nat>)
    requires Regular(dom)
    ensures |n| == |dom.dims|
  {
    seq(|dom.dims|, d requires 0 <= d < |dom.dims| => RowOf(dom.dims[d].hi - dom.dims[d].lo, dom.dims[d].extent) + 1)
  }

  // ---------------------------------------------------------------------------
  // Cached offsets
  // ---------------------------------------------------------------------------

  /** Each cached offset is the one before, times the number of tiles of its own dimension. */
  ghost predicate CachedOffsets(l: Layout, n: seq<nat>, o: seq<nat>) {
    && |o| == |n| > 0
    && if l == RowMajor then
         o[|n| - 1] == 1 && forall d :: 0 <= d < |n| - 1 ==> o[d] == o[d + 1] * n[d]
       else
         o[0] == 1 && forall d :: 0 < d < |n| ==> o[d] == o[d - 1] * n[d]
  }

  /** compute_tile_offsets, for the column-major order. */
  method CachedOffsetsCol(n: seq<nat>) returns (o: seq<nat>)
    requires |n| > 0
    ensures CachedOffsets(ColMajor, n, o)
  {
    o := [1];
    for d := 1 to |n|
      invariant |o| == d && o[0] == 1 && forall i :: 0 < i < d ==> o[i] == o[i - 1] * n[i]
    {
      o := o + [o[d - 1] * n[d]];
    }
  }

  /** compute_tile_offsets, for the row-major order. */
  method CachedOffsetsRow(n: seq<nat>) returns (o: seq<nat>)
    requires |n| > 0
    ensures CachedOffsets(RowMajor, n, o)
  {
    o := [1];
    var d := |n| - 1;
    while d > 0
      invariant 0 <= d < |n| && |o| == |n| - d && o[|o| - 1] == 1
      invariant forall i :: 0 <= i < |o| - 1 ==> o[i] == o[i + 1] * n[d + i]
    {
      d := d - 1;
      o := [o[0] * n[d]] + o;
    }
  }

  /** get_tile_pos with cached offsets. */
  method CachedTilePos(t: seq<nat>, o: seq<nat>) returns (pos: nat)
    requires |t| == |o|
    ensures pos == Dot(t, o)
  {
    pos := SumOf(t, o);
  }

  lemma Swap(a: nat, b: nat, x: nat, y: nat, z: nat)
    requires a * z == b * x
    ensures a * y * z == y * (b * x)
  {
    assert a * y * z == y * (a * z);
  }

  /** A cached offset is off by the ratio of two tile counts. */
  lemma {:induction false} CachedIs(l: Layout, n: seq<nat>, o: seq<nat>, d: nat)
    requires CachedOffsets(l, n, o) && d < |n|
    ensures l == RowMajor ==> o[d] * n[|n| - 1] == n[d] * Offset(l, n, d)
    ensures l == ColMajor ==> o[d] * n[0] == n[d] * Offset(l, n, d)
    decreases if l == RowMajor then |n| - d else d
  {
    if l == RowMajor {
      if d < |n| - 1 {
        CachedIs(l, n, o, d + 1);
        assert Offset(l, n, d) == n[d + 1] * Offset(l, n, d + 1);
        Swap(o[d + 1], n[d + 1], Offset(l, n, d + 1), n[d], n[|n| - 1]);
      }
    } else if d > 0 {
      CachedIs(l, n, o, d - 1);
      ProdNext(n, d - 1);
      assert Offset(l, n, d) == n[d - 1] * Offset(l, n, d - 1);
      Swap(o[d - 1], n[d - 1], Offset(l, n, d - 1), n[d], n[0]);
    }
  }

  lemma Ratio(a: nat, x: nat, b: nat, y: nat)
    requires a * x == b * y && a > 0 && x > 0 && y > 0
    ensures a == y <==> b == x
  {
    if a == y {
      Cancel(x, b, y);
    }
    if b == x {
      Cancel(a, y, x);
    }
  }

  lemma Cancel(a: nat, b: nat, c: nat)
    requires a * c == b * c && c > 0
    ensures a == b
  {
    RowStep(a, b, c);
    RowStep(b, a, c);
  }

  lemma {:induction false} CachedPositive(l: Layout, n: seq<nat>, o: seq<nat>, d: nat)
    requires CachedOffsets(l, n, o) && d < |n| && forall i :: 0 <= i < |n| ==> n[i] > 0
    ensures o[d] > 0
    decreases if l == RowMajor then |n| - d else d
  {
    if l == RowMajor {
      if d < |n| - 1 {
        CachedPositive(l, n, o, d + 1);
      }
    } else if d > 0 {
      CachedPositive(l, n, o, d - 1);
    }
  }

  /** The dimension whose tile count a cached offset takes for the others. */
  function Taken(l: Layout, dimNum: nat): nat
    requires dimNum > 0
    ensures Taken(l, dimNum) < dimNum
  {
    if l == RowMajor then dimNum - 1 else 0
  }

  lemma CachedRightAt(l: Layout, n: seq<nat>, o: seq<nat>, d: nat)
    requires CachedOffsets(l, n, o) && d < |n| && forall i :: 0 <= i < |n| ==> n[i] > 0
    ensures o[d] == Offset(l, n, d) <==> n[d] == n[Taken(l, |n|)]
  {
    CachedIs(l, n, o, d);
    CachedPositive(l, n, o, d);
    OffsetPositive(l, n, d);
    Ratio(o[d], n[Taken(l, |n|)], n[d], Offset(l, n, d));
  }

  /** With cached offsets every tile has its position exactly when each dimension has one tile or as many as the last
      one, in row-major order, or as the first one, in column-major order. */
  lemma CachedPositionsIff(l: Layout, n: seq<nat>, o: seq<nat>)
    requires CachedOffsets(l, n, o) && forall i :: 0 <= i < |n| ==> n[i] > 0
    ensures (forall v: seq<nat> {:trigger Within(v, n)} :: Within(v, n) ==> Dot(v, o) == Number(l, v, n))
       <==> (forall d :: 0 <= d < |n| ==> n[d] == 1 || n[d] == n[Taken(l, |n|)])
  {
    var a: seq<int> := seq(|n|, d requires 0 <= d < |n| => Offset(l, n, d));
    SameDotsIff(n, o, a);
    forall v: seq<nat> | Within(v, n)
      ensures Dot(v, a) == Number(l, v, n)
    {
      DotIsNumber(l, v, n, a);
    }
    forall d | 0 <= d < |n|
      ensures o[d] == a[d] <==> n[d] == n[Taken(l, |n|)]
    {
      CachedRightAt(l, n, o, d);
    }
  }

  /** With 2 x 3 tiles two tiles have the same cached position. */
  lemma CachedExample()
    ensures CachedOffsets(RowMajor, [2, 3], [2, 1]) && Dot([0, 2], [2, 1]) == Dot([1, 0], [2, 1])
  {
    assert [0, 2] == Unit(2, 1, 2) && [1, 0] == Unit(2, 0, 1);
    DotUnit(2, 1, 2, [2, 1]);
    DotUnit(2, 0, 1, [2, 1]);
  }

  // ---------------------------------------------------------------------------
  // Domains that are no whole number of tiles
  // ---------------------------------------------------------------------------

  /** Wherever a slower dimension has more than one tile, the dimension is a whole number f of tiles. */
  ghost predicate WholeInside(l: Layout, f: seq<nat>, m: seq<nat>)
    requires |f| == |m|
  {
    forall d, e :: 0 <= d < |m| && 0 <= e < |m| && (if l == RowMajor then d < e else e < d) && m[d] > 1 ==> f[e] == m[e]
  }

  ghost predicate Partial(f: seq<nat>, m: seq<nat>) {
    |f| == |m| > 0 && forall d :: 0 <= d < |m| ==> 1 <= f[d] <= m[d] <= f[d] + 1
  }

  /** Then whole tiles and met tiles give a tile the same number. */
  lemma SameNumbers(l: Layout, f: seq<nat>, m: seq<nat>, v: seq<nat>)
    requires Partial(f, m) && WholeInside(l, f, m) && Within(v, m)
    ensures Number(l, v, f) == Number(l, v, m)
  {
    var a: seq<int> := seq(|f|, d requires 0 <= d < |f| => Offset(l, f, d));
    var b: seq<int> := seq(|m|, d requires 0 <= d < |m| => Offset(l, m, d));
    forall d | 0 <= d < |v|
      ensures v[d] == 0 || a[d] == b[d]
    {
      if m[d] > 1 {
        if l == RowMajor {
          FromSame(f, m, d + 1);
        } else {
          assert f[..d] == m[..d];
        }
      }
    }
    DotEqual(v, a, b);
    DotIsNumber(l, v, f, a);
    DotIsNumber(l, v, m, b);
  }

  ghost predicate SameNumber(l: Layout, u: seq<nat>, v: seq<nat>, n: seq<nat>)
    requires |u| == |v| == |n|
  {
    Number(l, u, n) == Number(l, v, n)
  }

  /** Two tiles with the same number, in a dimension e that is no whole number of tiles and the nearest slower
      dimension d with more than one tile. */
  lemma Collide(l: Layout, f: seq<nat>, m: seq<nat>, d: nat, e: nat) returns (u: seq<nat>, v: seq<nat>)
    requires Partial(f, m) && d < |m| && e < |m| && m[d] > 1 && f[e] != m[e]
    requires if l == RowMajor then d < e && forall i :: d < i < e ==> m[i] == 1
             else e < d && forall i :: e < i < d ==> m[i] == 1
    ensures Within(u, m) && Within(v, m) && u != v && SameNumber(l, u, v, f)
  {
    u, v := Unit(|m|, d, 1), Unit(|m|, e, f[e]);
    UnitNumber(l, f, d, 1);
    UnitNumber(l, f, e, f[e]);
    StepIsRow(l, f, d, e);
    assert u[d] == 1 && v[d] == 0;
  }

  /** No two of the tiles that are met have the same number among whole tiles exactly when every dimension inside one
      with more than one tile is a whole number of tiles. */
  lemma OneToOneIff(l: Layout, f: seq<nat>, m: seq<nat>)
    requires Partial(f, m)
    ensures (forall u: seq<nat>, v: seq<nat> {:trigger Within(u, m), Within(v, m)} ::
               Within(u, m) && Within(v, m) && SameNumber(l, u, v, f) ==> u == v)
       <==> WholeInside(l, f, m)
  {
    if WholeInside(l, f, m) {
      forall u: seq<nat>, v: seq<nat> | Within(u, m) && Within(v, m) && SameNumber(l, u, v, f)
        ensures u == v
      {
        SameNumbers(l, f, m, u);
        SameNumbers(l, f, m, v);
        Injective(u, v, m);
      }
    } else {
      var d, e :| 0 <= d < |m| && 0 <= e < |m| && (if l == RowMajor then d < e else e < d) && m[d] > 1 && f[e] != m[e];
      var k := Nearest(l, m, d, e);
      var u, v := Collide(l, f, m, k, e);
    }
  }

  /** A dimension meets as many tiles as it has whole ones, or one more. */
  lemma {:induction false} MetOrWhole(n: nat, e: nat)
    requires 0 < e
    ensures RowOf(n + 1, e) <= RowOf(n, e) + 1 <= RowOf(n + 1, e) + 1 && (e <= n + 1 ==> 1 <= RowOf(n + 1, e))
    ensures RowOf(n + 1, e) == RowOf(n, e) + 1 <==> ColOf(n + 1, e) == 0
  {
    if n >= e {
      MetOrWhole(n - e, e);
    }
  }

  /** get_tile_pos gives different tiles of a regular domain different positions exactly when every dimension inside
      one with more than one tile is a whole number of tiles. */
  lemma TilePosOneToOneIff(dom: Domain)
    requires Regular(dom) && forall d :: 0 <= d < |dom.dims| ==>
             dom.dims[d].extent <= dom.dims[d].hi - dom.dims[d].lo + 1
    ensures (forall u: seq<nat>, v: seq<nat> {:trigger Within(u, MetTiles(dom)), Within(v, MetTiles(dom))} ::
               Within(u, MetTiles(dom)) && Within(v, MetTiles(dom)) && SameNumber(dom.tileOrder, u, v, Tiles(dom))
               ==> u == v)
       <==> WholeInside(dom.tileOrder, Tiles(dom), MetTiles(dom))
  {
    forall d | 0 <= d < |dom.dims|
      ensures 1 <= Tiles(dom)[d] <= MetTiles(dom)[d] <= Tiles(dom)[d] + 1
    {
      MetOrWhole(dom.dims[d].hi - dom.dims[d].lo, dom.dims[d].extent);
    }
    OneToOneIff(dom.tileOrder, Tiles(dom), MetTiles(dom));
  }

  /** In the domain from 0 to 10 in two dimensions, with tiles of 4 x 4, two tiles have position 2. */
  lemma PartialExample()
    ensures var dom := Domain([Dimension(0, 10, 4), Dimension(0, 10, 4)], RowMajor, RowMajor);
            && Within([0, 2], MetTiles(dom)) && Within([1, 0], MetTiles(dom))
            && Row([0, 2], Tiles(dom)) == 2 && Row([1, 0], Tiles(dom)) == 2
  {
    var dom := Domain([Dimension(0, 10, 4), Dimension(0, 10, 4)], RowMajor, RowMajor);
    Quotient(10, 4);
    Quotient(11, 4);
    assert Tiles(dom) == [2, 2] && MetTiles(dom) == [3, 3];
    Two([0, 2], [2, 2]);
    Two([1, 0], [2, 2]);
    Whole([0, 2], [2, 2], 2);
    Whole([1, 0], [2, 2], 2);
  }
}
