/** The number of a cell in its tile, from its coordinates in the tile. In up to three dimensions the source
    multiplies coordinates by tile extents in the arithmetic type of the coordinates; with more dimensions
    it multiplies by a 64-bit offset. */
module CellNumbers {
  import opened Widths
  import opened MixedRadix
  import opened CellBox
  import opened CellPositions
  import opened DomainGrid
  import opened Offsets
  import opened PositionLoops

  /** A product in the arithmetic type of the coordinates. */
  function Times(ty: IntType, x: int, y: int): (p: int)
    ensures Holds(Promoted(ty), p)
    ensures Holds(Promoted(ty), x * y) ==> p == x * y
  {
    Store(Promoted(ty), x * y)
  }

  function UnrolledRow(ty: IntType, v: seq<int>, n: seq<nat>): int
    requires 1 <= |v| == |n| <= 3
  {
    if |n| == 1 then v[0]
    else if |n| == 2 then Times(ty, v[0], n[1]) + v[1]
    else Times(ty, Times(ty, v[0], n[1]), n[2]) + Times(ty, v[1], n[2]) + v[2]
  }

  function UnrolledCol(ty: IntType, v: seq<int>, n: seq<nat>): int
    requires 1 <= |v| == |n| <= 3
  {
    if |n| == 1 then v[0]
    else if |n| == 2 then v[0] + Times(ty, v[1], n[0])
    else v[0] + Times(ty, v[1], n[0]) + Times(ty, Times(ty, v[2], n[0]), n[1])
  }

  function Positions(v: seq<int>): (w: seq<nat>)
    ensures |w| == |v|
  {
    seq(|v|, d requires 0 <= d < |v| => AsPosition(v[d]))
  }

  /** The number that the source computes. */
  ghost function CellNumber(l: Layout, ty: IntType, v: seq<int>, n: seq<nat>): nat
    requires |v| == |n| > 0 && (l == RowMajor && |n| > 3 ==> Positive(n))
  {
    if |n| > 3 then PositionOf(l, Positions(v), n)
    else AsPosition(if l == RowMajor then UnrolledRow(ty, v, n) else UnrolledCol(ty, v, n))
  }

  /** get_cell_pos_row, once the coordinates are normalised. */
  method CellNumberRow(ty: IntType, v: seq<int>, n: seq<nat>) returns (pos: nat)
    requires |v| == |n| > 0 && (|n| > 3 ==> Positive(n))
    ensures pos == CellNumber(RowMajor, ty, v, n)
  {
    if |n| <= 3 {
      pos := AsPosition(UnrolledRow(ty, v, n));
    } else {
      pos := PosRowLoop(Positions(v), n);
    }
  }

  /** get_cell_pos_col, once the coordinates are normalised. */
  method CellNumberCol(ty: IntType, v: seq<int>, n: seq<nat>) returns (pos: nat)
    requires |v| == |n| > 0
    ensures pos == CellNumber(ColMajor, ty, v, n)
  {
    if |n| <= 3 {
      pos := AsPosition(UnrolledCol(ty, v, n));
    } else {
      pos := PosColLoop(Positions(v), n);
    }
  }

  // ---------------------------------------------------------------------------
  // When the number is right
  // ---------------------------------------------------------------------------

  /** The number of cells of a tile, so that positions and their differences have 64 bits. */
  const MAX_CELLS: nat := 0x8000_0000_0000_0000

  /** The sizes are tile extents, which have the type of the coordinates. */
  ghost predicate ExtentsOf(ty: IntType, n: seq<nat>) {
    |n| > 0 && forall d :: 0 <= d < |n| ==> 0 < n[d] <= ty.max
  }

  /** The largest products of the unrolled forms fit the arithmetic type. */
  ghost predicate ProductsFit(l: Layout, ty: IntType, n: seq<nat>)
    requires ExtentsOf(ty, n)
  {
    var max := Promoted(ty).max;
    if |n| == 2 then
      if l == RowMajor then (n[0] - 1) * n[1] <= max else (n[1] - 1) * n[0] <= max
    else if |n| == 3 then
      if l == RowMajor then (n[0] - 1) * n[1] * n[2] <= max && (n[1] - 1) * n[2] <= max
      else (n[1] - 1) * n[0] <= max && (n[2] - 1) * n[0] * n[1] <= max
    else true
  }

  lemma AtMost(x: nat, y: nat, z: nat)
    requires x <= y
    ensures 0 <= x * z <= y * z
  {
  }

  /** A product of two that is not too large. */
  lemma TwoFit(ty: IntType, x: nat, m: nat, y: nat)
    requires x < m && (m - 1) * y <= Promoted(ty).max
    ensures Times(ty, x, y) == x * y
  {
    AtMost(x, m - 1, y);
  }

  /** A product of three that is not too large. */
  lemma ThreeFit(ty: IntType, x: nat, m: nat, y: nat, z: nat)
    requires x < m && (m - 1) * y * z <= Promoted(ty).max && z > 0
    ensures Times(ty, Times(ty, x, y), z) == x * y * z
  {
    AtMost(x, m - 1, y);
    AtMost(x * y, (m - 1) * y, z);
    AtMost(1, z, x * y);
    assert z * (x * y) == x * y * z;
  }

  lemma UnrolledRowRight(ty: IntType, v: seq<nat>, n: seq<nat>)
    requires Within(v, n) && |n| <= 3 && ExtentsOf(ty, n) && ProductsFit(RowMajor, ty, n)
    ensures UnrolledRow(ty, v, n) == Row(v, n)
  {
    if |n| == 1 {
      One(v, n);
      Whole(v, n, 1);
    } else if |n| == 2 {
      Two(v, n);
      Whole(v, n, 2);
      TwoFit(ty, v[0], n[0], n[1]);
    } else {
      RowThree(v, n);
      ThreeFit(ty, v[0], n[0], n[1], n[2]);
      TwoFit(ty, v[1], n[1], n[2]);
    }
  }

  lemma UnrolledColRight(ty: IntType, v: seq<nat>, n: seq<nat>)
    requires Within(v, n) && |n| <= 3 && ExtentsOf(ty, n) && ProductsFit(ColMajor, ty, n)
    ensures UnrolledCol(ty, v, n) == Col(v, n)
  {
    if |n| == 1 {
      One(v, n);
      Whole(v, n, 1);
    } else if |n| == 2 {
      Two(v, n);
      Whole(v, n, 2);
      TwoFit(ty, v[1], n[1], n[0]);
    } else {
      ColThree(v, n);
      TwoFit(ty, v[1], n[1], n[0]);
      ThreeFit(ty, v[2], n[2], n[0], n[1]);
    }
  }

  lemma NumberBound(l: Layout, v: seq<nat>, n: seq<nat>)
    requires Within(v, n)
    ensures Number(l, v, n) < Prod(n)
  {
    RowBound(v, n);
    ColBound(v, n);
  }

  lemma CellNumberRight(l: Layout, ty: IntType, v: seq<nat>, n: seq<nat>)
    requires Within(v, n) && ExtentsOf(ty, n) && ProductsFit(l, ty, n) && Prod(n) <= MAX_CELLS
    ensures CellNumber(l, ty, v, n) == Number(l, v, n)
  {
    NumberBound(l, v, n);
    if |n| > 3 {
      assert Positions(v) == v;
      PositionRight(l, v, n);
    } else if l == RowMajor {
      UnrolledRowRight(ty, v, n);
    } else {
      UnrolledColRight(ty, v, n);
    }
  }

  /** A cell whose number is wrong because a product does not fit. */
  lemma WrongOfTwo(l: Layout, ty: IntType, n: seq<nat>) returns (v: seq<nat>)
    requires |n| == 2 && ExtentsOf(ty, n) && !ProductsFit(l, ty, n) && Prod(n) <= MAX_CELLS
    ensures Within(v, n) && CellNumber(l, ty, v, n) != Number(l, v, n)
  {
    v := if l == RowMajor then [n[0] - 1, 0] else [0, n[1] - 1];
    NumberBound(l, v, n);
    Two(v, n);
    Whole(v, n, 2);
    if l == RowMajor {
      Overflows(Promoted(ty), (n[0] - 1) * n[1], Times(ty, n[0] - 1, n[1]));
    } else {
      Overflows(Promoted(ty), (n[1] - 1) * n[0], Times(ty, n[1] - 1, n[0]));
    }
  }

  lemma TimesZero(ty: IntType, y: int)
    ensures Times(ty, 0, y) == 0
  {
  }

  /** Only the first, the middle or the last coordinate is not zero. */
  lemma RowFirst(ty: IntType, x: nat, n: seq<nat>)
    requires |n| == 3
    ensures Row([x, 0, 0], n) == x * n[1] * n[2]
    ensures UnrolledRow(ty, [x, 0, 0], n) == Times(ty, Times(ty, x, n[1]), n[2])
  {
    RowThree([x, 0, 0], n);
    TimesZero(ty, n[2]);
  }

  lemma RowMiddle(ty: IntType, x: nat, n: seq<nat>)
    requires |n| == 3
    ensures Row([0, x, 0], n) == x * n[2]
    ensures UnrolledRow(ty, [0, x, 0], n) == Times(ty, x, n[2])
  {
    RowThree([0, x, 0], n);
    TimesZero(ty, n[1]);
    TimesZero(ty, n[2]);
  }

  lemma ColMiddle(ty: IntType, x: nat, n: seq<nat>)
    requires |n| == 3
    ensures Col([0, x, 0], n) == x * n[0]
    ensures UnrolledCol(ty, [0, x, 0], n) == Times(ty, x, n[0])
  {
    ColThree([0, x, 0], n);
    TimesZero(ty, n[0]);
    TimesZero(ty, n[1]);
  }

  lemma ColLast(ty: IntType, x: nat, n: seq<nat>)
    requires |n| == 3
    ensures Col([0, 0, x], n) == x * n[0] * n[1]
    ensures UnrolledCol(ty, [0, 0, x], n) == Times(ty, Times(ty, x, n[0]), n[1])
  {
    ColThree([0, 0, x], n);
    TimesZero(ty, n[0]);
  }

  lemma WrongOfThree(l: Layout, ty: IntType, n: seq<nat>) returns (v: seq<nat>)
    requires |n| == 3 && ExtentsOf(ty, n) && !ProductsFit(l, ty, n) && Prod(n) <= MAX_CELLS
    ensures Within(v, n) && CellNumber(l, ty, v, n) != Number(l, v, n)
  {
    var p, m := Promoted(ty), n[1] - 1;
    if l == RowMajor {
      if m * n[2] > p.max {
        v := [0, m, 0];
        RowMiddle(ty, m, n);
      } else {
        v := [n[0] - 1, 0, 0];
        RowFirst(ty, n[0] - 1, n);
      }
    } else if m * n[0] > p.max {
      v := [0, m, 0];
      ColMiddle(ty, m, n);
    } else {
      v := [0, 0, n[2] - 1];
      ColLast(ty, n[2] - 1, n);
    }
    NumberBound(l, v, n);
    Overflows(p, Number(l, v, n), if l == RowMajor then UnrolledRow(ty, v, n) else UnrolledCol(ty, v, n));
  }

  lemma WrongCell(l: Layout, ty: IntType, n: seq<nat>) returns (v: seq<nat>)
    requires ExtentsOf(ty, n) && !ProductsFit(l, ty, n) && Prod(n) <= MAX_CELLS
    ensures Within(v, n) && CellNumber(l, ty, v, n) != Number(l, v, n)
  {
    if |n| == 2 {
      v := WrongOfTwo(l, ty, n);
    } else {
      v := WrongOfThree(l, ty, n);
    }
  }

  /** The unrolled forms number all cells of a tile as the loop does exactly when their products fit. */
  lemma CellNumbersIff(l: Layout, ty: IntType, n: seq<nat>)
    requires ExtentsOf(ty, n) && Prod(n) <= MAX_CELLS
    ensures (forall v: seq<nat> {:trigger Within(v, n)} :: Within(v, n) ==> CellNumber(l, ty, v, n) == Number(l, v, n))
       <==> ProductsFit(l, ty, n)
  {
    if ProductsFit(l, ty, n) {
      forall v: seq<nat> | Within(v, n)
        ensures CellNumber(l, ty, v, n) == Number(l, v, n)
      {
        CellNumberRight(l, ty, v, n);
      }
    } else {
      var v := WrongCell(l, ty, n);
    }
  }

  /** Two cells of a tile of 65537 x 65537 cells with 32-bit coordinates that get the same number. */
  lemma ProductExample()
    ensures CellNumber(RowMajor, UINT32, [65536, 0], [65537, 65537]) == 65536
    ensures CellNumber(RowMajor, UINT32, [0, 65536], [65537, 65537]) == 65536
  {
    assert Store(UINT32, 65536 * 65537) == Store(UINT32, 65536);
  }
}
