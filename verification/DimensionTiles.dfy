/** Ranges of an integer dimension and its tiles: splitting ranges, counting the tiles a range
    meets, aligning ranges with tiles, and the check of a tile extent. The type of the coordinates is
    a parameter where a value may not fit it. */
module DimensionTiles {
  import opened Transposition
  import opened Widths
  import opened DomainGrid
  import opened Coordinates

  datatype Range = Range(lo: int, hi: int)

  ghost predicate Tiled(dim: Dimension) {
    dim.extent > 0 && dim.lo <= dim.hi
  }

  /** A range that does not start below the domain. */
  ghost predicate Above(r: Range, dim: Dimension) {
    dim.lo <= r.lo <= r.hi
  }

  /** The number of the tile that holds x. */
  ghost function Tile(dim: Dimension, x: int): nat
    requires Tiled(dim) && dim.lo <= x
  {
    RowOf(x - dim.lo, dim.extent)
  }

  /** The first cell of tile t. */
  ghost function First(dim: Dimension, t: nat): int {
    dim.lo + Idx(t, dim.extent, 0)
  }

  /** A cell is in the tile whose first cell is the last one not above it. */
  lemma TileBounds(dim: Dimension, x: int)
    requires Tiled(dim) && dim.lo <= x
    ensures First(dim, Tile(dim, x)) <= x < First(dim, Tile(dim, x) + 1)
    ensures Div(x - dim.lo, dim.extent) == Tile(dim, x)
  {
    var p, e := x - dim.lo, dim.extent;
    Reassembled(p, e);
    IdxShift(RowOf(p, e), e, 0, ColOf(p, e));
    Quotient(p, e);
  }

  lemma {:induction false} FirstTile(dim: Dimension, t: nat)
    requires Tiled(dim)
    ensures dim.lo <= First(dim, t) && Tile(dim, First(dim, t)) == t
    ensures t > 0 ==> Tile(dim, First(dim, t) - 1) == t - 1 && dim.lo <= First(dim, t) - 1
  {
    IdxParts(t, dim.extent, 0);
    if t > 0 {
      IdxParts(t - 1, dim.extent, dim.extent - 1);
      IdxShift(t - 1, dim.extent, 0, dim.extent - 1);
    }
  }

  lemma {:induction false} FirstGrows(dim: Dimension, t: nat, u: nat)
    requires Tiled(dim)
    ensures t < u <==> First(dim, t) < First(dim, u)
    decreases t + u
  {
    if t > 0 && u > 0 {
      FirstGrows(dim, t - 1, u - 1);
    }
  }

  lemma TileMonotone(dim: Dimension, x: int, y: int)
    requires Tiled(dim) && dim.lo <= x <= y
    ensures Tile(dim, x) <= Tile(dim, y)
  {
    TileBounds(dim, x);
    TileBounds(dim, y);
    FirstGrows(dim, Tile(dim, x), Tile(dim, y) + 1);
  }

  // ---------------------------------------------------------------------------
  // Splitting
  // ---------------------------------------------------------------------------

  /** splitting_value, and whether the range cannot be split. */
  function SplittingValue(r: Range): (int, bool) {
    var sp := r.lo + Div(r.hi - r.lo, 2);
    (sp, sp == r.hi)
  }

  /** The same in the type of the coordinates. */
  function SplittingValueIn(ty: IntType, r: Range): (int, bool) {
    var sp := Store(ty, r.lo + Div(Store(Promoted(ty), r.hi - r.lo), 2));
    (sp, sp == r.hi)
  }

  /** It is the splitting value exactly when the difference does not overflow, which it does for signed types of 32
      and 64 bits and ranges longer than the greatest value. Whether the range can be split is always right. */
  lemma SplittingValueIff(ty: IntType, r: Range)
    requires Holds(ty, r.lo) && Holds(ty, r.hi) && r.lo <= r.hi
    ensures SplittingValueIn(ty, r).0 == SplittingValue(r).0 <==> (MayOverflow(ty) ==> r.hi - r.lo <= ty.max)
    ensures SplittingValueIn(ty, r).1 == SplittingValue(r).1
  {
    var n := r.hi - r.lo;
    SplittingValueSplits(r);
    if MayOverflow(ty) && n > ty.max {
      var k := Size(ty) - n;
      assert Store(ty, n) == 0 - k;
      DivIs(0 - k, 2);
      DivIs(n, 2);
      var x := r.lo - k / 2;
      assert Store(ty, x) == if x >= ty.min then x else x + Size(ty);
    }
  }

  /** A range of 32-bit coordinates that is split at a value outside it. */
  lemma SplitOutsideExample()
    ensures SplittingValueIn(INT32, Range(-1073741825, 1073741824)) == (-2147483648, false)
  {
    DivIs(-2147483647, 2);
    assert Store(INT32, 2147483649) == Store(INT32, -2147483647);
    assert Store(INT32, -2147483648) == -2147483648;
  }

  /** split_range. */
  function SplitRange(r: Range, v: int): (Range, Range) {
    (Range(r.lo, v), Range(v + 1, r.hi))
  }

  /** Ranges that have been split again and again, at v each time. */
  datatype Tree = Leaf | Node(v: int, left: Tree, right: Tree)

  /** Every split is at a value that leaves both parts non-empty. */
  ghost predicate Splits(t: Tree, r: Range) {
    match t
    case Leaf => true
    case Node(v, left, right) =>
      r.lo <= v < r.hi && Splits(left, SplitRange(r, v).0) && Splits(right, SplitRange(r, v).1)
  }

  ghost function Leaves(t: Tree, r: Range): seq<Range> {
    match t
    case Leaf => [r]
    case Node(v, left, right) => Leaves(left, SplitRange(r, v).0) + Leaves(right, SplitRange(r, v).1)
  }

  ghost function SplitCount(t: Tree): nat {
    match t
    case Leaf => 0
    case Node(v, left, right) => 1 + SplitCount(left) + SplitCount(right)
  }

  /** No leaf can be split any more. */
  ghost predicate Complete(t: Tree, r: Range) {
    match t
    case Leaf => SplittingValue(r).1
    case Node(v, left, right) => Complete(left, SplitRange(r, v).0) && Complete(right, SplitRange(r, v).1)
  }

  /** splitting_value gives a proper split exactly when the range is not a single point. */
  lemma SplittingValueSplits(r: Range)
    requires r.lo <= r.hi
    ensures SplittingValue(r).1 <==> r.lo == r.hi
    ensures !SplittingValue(r).1 ==> r.lo <= SplittingValue(r).0 < r.hi
  {
    DivIs(r.hi - r.lo, 2);
  }

  /** It splits in the middle: both parts have as many points, or the first has one more. */
  lemma SplitsInHalves(r: Range)
    requires r.lo < r.hi
    ensures var (r1, r2) := SplitRange(r, SplittingValue(r).0);
            0 <= (r1.hi - r1.lo + 1) - (r2.hi - r2.lo + 1) <= 1
  {
    DivIs(r.hi - r.lo, 2);
  }

  /** Every split is at the splitting value. */
  ghost predicate SplitsByValue(t: Tree, r: Range) {
    match t
    case Leaf => true
    case Node(v, left, right) =>
      v == SplittingValue(r).0 && SplitsByValue(left, SplitRange(r, v).0) && SplitsByValue(right, SplitRange(r, v).1)
  }

  ghost function Depth(t: Tree): nat {
    match t
    case Leaf => 0
    case Node(v, left, right) => 1 + if Depth(left) > Depth(right) then Depth(left) else Depth(right)
  }

  /** The number of binary digits of n. */
  ghost function Digits(n: nat): nat {
    if n == 0 then 0 else 1 + Digits(n / 2)
  }

  lemma {:induction false} DigitsGrow(m: nat, n: nat)
    requires m <= n
    ensures Digits(m) <= Digits(n)
  {
    if m > 0 {
      DigitsGrow(m / 2, n / 2);
    }
  }

  /** Splitting at the splitting value goes on until nothing can be split. */
  lemma {:induction false} SplitToTheEnd(r: Range) returns (t: Tree)
    requires r.lo <= r.hi
    ensures Splits(t, r) && SplitsByValue(t, r) && Complete(t, r)
    decreases r.hi - r.lo
  {
    SplittingValueSplits(r);
    var (v, unsplittable) := SplittingValue(r);
    if unsplittable {
      t := Leaf;
    } else {
      var left := SplitToTheEnd(SplitRange(r, v).0);
      var right := SplitToTheEnd(SplitRange(r, v).1);
      t := Node(v, left, right);
    }
  }

  /** The digits of the longer half are those of the range but one. */
  lemma HalfDigits(r: Range)
    requires r.lo < r.hi
    ensures var v := SplittingValue(r).0;
            && r.lo <= v < r.hi && Digits(r.hi - r.lo) == 1 + Digits(v - r.lo)
            && Digits(r.hi - (v + 1)) <= Digits(v - r.lo)
  {
    DivIs(r.hi - r.lo, 2);
    DigitsGrow(r.hi - (SplittingValue(r).0 + 1), SplittingValue(r).0 - r.lo);
  }

  /** So splitting a range down to its points takes as many rounds as its length has binary digits. */
  lemma {:induction false} RoundsAreDigits(t: Tree, r: Range)
    requires r.lo <= r.hi && Splits(t, r) && SplitsByValue(t, r) && Complete(t, r)
    ensures Depth(t) == Digits(r.hi - r.lo)
    decreases t
  {
    match t
    case Leaf =>
      SplittingValueSplits(r);
    case Node(v, left, right) =>
      RoundsAreDigits(left, SplitRange(r, v).0);
      RoundsAreDigits(right, SplitRange(r, v).1);
      HalfDigits(r);
  }

  /** However a range is split, there are at most as many splits as it has gaps between points: no
      order of splitting goes on for ever. */
  lemma {:induction false} SplittingEnds(t: Tree, r: Range)
    requires Splits(t, r) && r.lo <= r.hi
    ensures SplitCount(t) <= r.hi - r.lo
    decreases t
  {
    match t
    case Leaf =>
    case Node(v, left, right) =>
      SplittingEnds(left, SplitRange(r, v).0);
      SplittingEnds(right, SplitRange(r, v).1);
  }

  /** The points of a range, in order. */
  ghost function Points(r: Range): (s: seq<Range>)
    requires r.lo <= r.hi + 1
    decreases r.hi + 1 - r.lo
  {
    if r.lo > r.hi then [] else Points(Range(r.lo, r.hi - 1)) + [Range(r.hi, r.hi)]
  }

  lemma {:induction false} PointsJoin(a: int, b: int, c: int)
    requires a <= b + 1 && b <= c
    ensures Points(Range(a, b)) + Points(Range(b + 1, c)) == Points(Range(a, c))
    decreases c - b
  {
    if b == c {
      assert Points(Range(b + 1, c)) == [];
    } else {
      PointsJoin(a, b, c - 1);
    }
  }

  /** Splitting until nothing can be split leaves exactly the points of the range, each once. */
  lemma {:induction false} LeavesArePoints(t: Tree, r: Range)
    requires Splits(t, r) && r.lo <= r.hi && Complete(t, r)
    ensures Leaves(t, r) == Points(r) && SplitCount(t) == r.hi - r.lo
    decreases t
  {
    match t
    case Leaf =>
      SplittingValueSplits(r);
      assert Points(Range(r.lo, r.hi - 1)) == [];
    case Node(v, left, right) =>
      var (r1, r2) := SplitRange(r, v);
      LeavesArePoints(left, r1);
      LeavesArePoints(right, r2);
      PointsJoin(r.lo, v, r.hi);
  }

  // ---------------------------------------------------------------------------
  // Tiles of a range
  // ---------------------------------------------------------------------------

  /** tile_num. */
  function TileNum(dim: Dimension, r: Range): int
    requires dim.extent > 0
  {
    Div(r.hi - dim.lo, dim.extent) - Div(r.lo - dim.lo, dim.extent) + 1
  }

  /** tile_num counts the tiles that the range meets. */
  lemma TileNumCounts(dim: Dimension, r: Range, t: nat)
    requires Tiled(dim) && Above(r, dim)
    ensures TileNum(dim, r) == Tile(dim, r.hi) - Tile(dim, r.lo) + 1
    ensures Tile(dim, r.lo) <= t <= Tile(dim, r.hi) <==>
            exists x {:trigger Tile(dim, x)} :: r.lo <= x <= r.hi && Tile(dim, x) == t
  {
    TileBounds(dim, r.lo);
    TileBounds(dim, r.hi);
    if Tile(dim, r.lo) <= t <= Tile(dim, r.hi) {
      var x := if t == Tile(dim, r.lo) then r.lo else First(dim, t);
      FirstTile(dim, t);
      FirstGrows(dim, t, Tile(dim, r.lo) + 1);
      FirstGrows(dim, Tile(dim, r.hi), t);
      FirstGrows(dim, Tile(dim, r.lo), t);
      assert r.lo <= x <= r.hi && Tile(dim, x) == t;
    }
    if x :| r.lo <= x <= r.hi && Tile(dim, x) == t {
      TileMonotone(dim, r.lo, x);
      TileMonotone(dim, x, r.hi);
    }
  }

  /** The cell k + 1 extents above the start of a range. */
  function Mid(dim: Dimension, r: Range, k: nat): int {
    r.lo + (k + 1) * dim.extent
  }

  /** What ceil_to_tile is for: the last cell of the k-th tile after the one where the range starts. */
  function CeilToTile(dim: Dimension, r: Range, k: nat): int
    requires dim.extent > 0
  {
    Div(Mid(dim, r, k) - dim.lo, dim.extent) * dim.extent + dim.lo - 1
  }

  lemma CeilIs(dim: Dimension, r: Range, k: nat)
    requires Tiled(dim) && Above(r, dim)
    ensures CeilToTile(dim, r, k) == First(dim, Tile(dim, r.lo) + k + 1) - 1
    ensures dim.lo <= Mid(dim, r, k) && Tile(dim, Mid(dim, r, k)) == Tile(dim, r.lo) + k + 1
  {
    var p, e := r.lo - dim.lo, dim.extent;
    IdxIs(k + 1, e, 0);
    TilesOn(p, e, k + 1);
    Quotient(p + (k + 1) * e, e);
    IdxIs(RowOf(p, e) + k + 1, e, 0);
  }

  lemma {:induction false} TilesOn(p: nat, e: nat, k: nat)
    requires e > 0
    ensures RowOf(p + Idx(k, e, 0), e) == RowOf(p, e) + k
    decreases k
  {
    if k > 0 {
      TilesOn(p, e, k - 1);
    }
  }

  /** The result lies in the range, below its last cell. */
  lemma CeilInside(dim: Dimension, r: Range, k: nat)
    requires Tiled(dim) && Above(r, dim) && k < TileNum(dim, r) - 1
    ensures r.lo <= CeilToTile(dim, r, k) < r.hi
  {
    var t := Tile(dim, r.lo);
    TileNumCounts(dim, r, 0);
    CeilIs(dim, r, k);
    TileBounds(dim, r.lo);
    TileBounds(dim, r.hi);
    FirstGrows(dim, t + k + 1, t + 1);
    FirstGrows(dim, Tile(dim, r.hi), t + k + 1);
  }

  lemma CeilToTileSplits(dim: Dimension, r: Range, k: nat)
    requires Tiled(dim) && Above(r, dim) && k < TileNum(dim, r) - 1
    ensures var v := CeilToTile(dim, r, k); var (r1, r2) := SplitRange(r, v);
            TileNum(dim, r1) == k + 1 && TileNum(dim, r1) + TileNum(dim, r2) == TileNum(dim, r)
  {
    var v, t := CeilToTile(dim, r, k), Tile(dim, r.lo);
    CeilInside(dim, r, k);
    CeilIs(dim, r, k);
    FirstTile(dim, t + k + 1);
    TileBounds(dim, r.lo);
    TileBounds(dim, v);
    TileBounds(dim, v + 1);
  }

  // ---------------------------------------------------------------------------
  // Alignment
  // ---------------------------------------------------------------------------

  /** expand_to_tile. */
  function ExpandToTile(dim: Dimension, r: Range): Range
    requires dim.extent > 0
  {
    Range(Div(r.lo - dim.lo, dim.extent) * dim.extent + dim.lo,
          (Div(r.hi - dim.lo, dim.extent) + 1) * dim.extent - 1 + dim.lo)
  }

  /** coincides_with_tiles. */
  predicate CoincidesWithTiles(dim: Dimension, r: Range)
    requires dim.extent > 0
  {
    && Div(r.lo - dim.lo, dim.extent) * dim.extent == r.lo - dim.lo
    && Div(r.hi - dim.lo + 1, dim.extent) * dim.extent == r.hi - dim.lo + 1
  }

  ghost predicate Contains(r: Range, s: Range) {
    r.lo <= s.lo && s.hi <= r.hi
  }

  lemma ExpandIs(dim: Dimension, r: Range)
    requires Tiled(dim) && Above(r, dim)
    ensures ExpandToTile(dim, r) == Range(First(dim, Tile(dim, r.lo)), First(dim, Tile(dim, r.hi) + 1) - 1)
  {
    TileBounds(dim, r.lo);
    TileBounds(dim, r.hi);
    IdxIs(Tile(dim, r.lo), dim.extent, 0);
    IdxIs(Tile(dim, r.hi) + 1, dim.extent, 0);
  }

  lemma CoincidesIs(dim: Dimension, r: Range)
    requires Tiled(dim) && Above(r, dim)
    ensures CoincidesWithTiles(dim, r) <==>
              r.lo == First(dim, Tile(dim, r.lo)) && r.hi + 1 == First(dim, Tile(dim, r.hi + 1))
  {
    TileBounds(dim, r.lo);
    TileBounds(dim, r.hi + 1);
    IdxIs(Tile(dim, r.lo), dim.extent, 0);
    IdxIs(Tile(dim, r.hi + 1), dim.extent, 0);
  }

  /** The expanded range is aligned, contains the range, and meets the same tiles. */
  lemma ExpandAligns(dim: Dimension, r: Range)
    requires Tiled(dim) && Above(r, dim)
    ensures var x := ExpandToTile(dim, r);
            && Above(x, dim) && Contains(x, r) && CoincidesWithTiles(dim, x) && TileNum(dim, x) == TileNum(dim, r)
  {
    var x := ExpandToTile(dim, r);
    var t, u := Tile(dim, r.lo), Tile(dim, r.hi);
    ExpandIs(dim, r);
    TileBounds(dim, r.lo);
    TileBounds(dim, r.hi);
    FirstTile(dim, t);
    FirstTile(dim, u + 1);
    CoincidesIs(dim, x);
    TileNumCounts(dim, r, 0);
    TileNumCounts(dim, x, 0);
  }

  /** No smaller aligned range contains the range. */
  lemma ExpandIsLeast(dim: Dimension, r: Range, s: Range)
    requires Tiled(dim) && Above(r, dim) && Above(s, dim) && Contains(s, r) && CoincidesWithTiles(dim, s)
    ensures Contains(s, ExpandToTile(dim, r))
  {
    ExpandIs(dim, r);
    CoincidesIs(dim, s);
    TileMonotone(dim, s.lo, r.lo);
    FirstGrows(dim, Tile(dim, r.lo), Tile(dim, s.lo));
    TileMonotone(dim, r.hi, s.hi);
    TileBounds(dim, r.hi);
    FirstGrows(dim, Tile(dim, r.hi), Tile(dim, s.hi + 1));
    FirstGrows(dim, Tile(dim, s.hi + 1), Tile(dim, r.hi) + 1);
  }

  /** The aligned ranges are exactly those that expanding leaves alone. */
  lemma ExpandFixed(dim: Dimension, r: Range)
    requires Tiled(dim) && Above(r, dim)
    ensures ExpandToTile(dim, r) == r <==> CoincidesWithTiles(dim, r)
    ensures ExpandToTile(dim, ExpandToTile(dim, r)) == ExpandToTile(dim, r)
  {
    var x := ExpandToTile(dim, r);
    ExpandAligns(dim, r);
    if CoincidesWithTiles(dim, r) {
      ExpandIsLeast(dim, r, r);
    }
    ExpandAligns(dim, x);
    ExpandIsLeast(dim, x, x);
  }

  // ---------------------------------------------------------------------------
  // The check of a tile extent
  // ---------------------------------------------------------------------------

  /** The 64-bit type with the same sign. */
  function FloorType(ty: IntType): IntType {
    if ty.min == 0 then UINT64 else INT64
  }

  datatype Checked = Accepted | ExtentNotPositive | ExtentExceedsDomain | ExpansionExceedsType

  /** The number of cells, computed in the arithmetic type and taken to 64 bits. */
  function CellsIn(ty: IntType, lo: int, hi: int): nat {
    AsPosition(Store(Promoted(ty), hi - lo + 1))
  }

  /** check_tile_extent_upper_floor. */
  function CheckUpperFloor(ty: IntType, lo: int, cells: nat, extent: nat): Checked
    requires cells > 0 && extent > 0
  {
    var upperFloor := Store(FloorType(ty), (cells - 1) / extent * extent + lo);
    if upperFloor > FloorType(ty).max - (extent - 1) || upperFloor > ty.max then ExpansionExceedsType else Accepted
  }

  /** check_tile_extent, for an integer dimension with a domain and a tile extent. */
  function CheckTileExtent(ty: IntType, lo: int, hi: int, extent: int): Checked
    requires lo <= hi
  {
    var cells := CellsIn(ty, lo, hi);
    if extent <= 0 then ExtentNotPositive
    else if extent > cells then ExtentExceedsDomain
    else if cells % extent != 0 then CheckUpperFloor(ty, lo, cells, extent)
    else Accepted
  }

  lemma CellsInIs(ty: IntType, lo: int, hi: int)
    requires Fits(ty, lo, hi) && ty.max == FloorType(ty).max
    ensures CellsIn(ty, lo, hi) == hi - lo + 1
  {
    var n := hi - lo + 1;
    if n > ty.max {
      assert Store(ty, n) == n - Size(ty);
      assert Store(UINT64, n - Size(ty)) == n;
    }
  }

  /** A domain of the type, whose number of cells fits 64 bits. */
  ghost predicate Fits(ty: IntType, lo: int, hi: int) {
    ty.min <= lo <= hi <= ty.max && hi - lo + 1 <= UINT64_MAX
  }

  /** The upper bound of the expanded domain. */
  ghost function ExpandedMax(dim: Dimension): int
    requires dim.extent > 0
  {
    ExpandToTile(dim, Range(dim.lo, dim.hi)).hi
  }

  /** The expanded domain reaches furthest. */
  lemma ExpandedMaxIsMax(dim: Dimension, r: Range)
    requires Tiled(dim) && Above(r, dim) && r.hi <= dim.hi
    ensures ExpandToTile(dim, r).hi <= ExpandedMax(dim) && dim.lo <= ExpandToTile(dim, r).lo
  {
    var whole := Range(dim.lo, dim.hi);
    ExpandAligns(dim, whole);
    ExpandAligns(dim, r);
    ExpandIsLeast(dim, r, ExpandToTile(dim, whole));
  }

  /** The expanded domain is representable exactly when the domain is a whole number
      of tiles or its last tile starts at least an extent below the greatest value of the type. */
  lemma ExpandedFitsIff(ty: IntType, dim: Dimension)
    requires Tiled(dim) && Fits(ty, dim.lo, dim.hi)
    ensures ExpandedMax(dim) <= ty.max <==>
              (dim.hi - dim.lo + 1) % dim.extent == 0
              || (dim.hi - dim.lo) / dim.extent * dim.extent + dim.lo <= ty.max - (dim.extent - 1)
  {
    var n, e := dim.hi - dim.lo, dim.extent;
    Quotient(n, e);
    OneMore(n / e, e);
    if (n + 1) % e == 0 {
      WholeTiles(n, e);
    }
  }

  lemma WholeTiles(n: nat, e: nat)
    requires e > 0 && (n + 1) % e == 0
    ensures n / e * e + e == n + 1
  {
    var q := (n + 1) / e;
    assert n + 1 == q * e;
    assert q * e == (q - 1) * e + e;
    DivParts(q - 1, e, e - 1);
  }

  /** For a narrower type the check lets through an extent that does not fit. */
  lemma NarrowTypeCounterexample()
    ensures Fits(UINT8, 0, 250) && CheckTileExtent(UINT8, 0, 250, 100) == Accepted &&
            ExpandedMax(Dimension(0, 250, 100)) == 299
  {
    DivIs(250, 100);
  }

  /** A domain that fills a 32-bit type has no cells for the check, which then refuses every extent. */
  lemma FullTypeExample(extent: int)
    requires extent > 0
    ensures CheckTileExtent(UINT32, 0, UINT32.max, extent) == ExtentExceedsDomain
  {
    assert Store(UINT32, 0x1_0000_0000) == Store(UINT32, 0);
  }

  // ---------------------------------------------------------------------------
  // Which extents are accepted
  // ---------------------------------------------------------------------------

  /** The upper floor of a domain of n cells is a cell of the domain. */
  lemma UpperFloorInside(lo: int, n: nat, e: nat)
    requires n > 0 && e > 0
    ensures lo <= (n - 1) / e * e + lo <= lo + n - 1
  {
    Quotient(n - 1, e);
  }

  /** For a 64-bit type: exactly which extents are accepted, and why another one is refused. A domain that fills the
      type has no cells for the check. */
  lemma CheckWideIff(ty: IntType, lo: int, hi: int, extent: int)
    requires ty.max == FloorType(ty).max && Holds(ty, lo) && Holds(ty, hi) && lo <= hi && extent <= ty.max
    ensures var n := hi - lo + 1; var c := CheckTileExtent(ty, lo, hi, extent);
            && (c == ExtentNotPositive <==> extent <= 0)
            && (c == ExtentExceedsDomain <==> 0 < extent && (extent > n || n > UINT64_MAX))
            && (c == ExpansionExceedsType <==>
                  0 < extent <= n <= UINT64_MAX && ExpandedMax(Dimension(lo, hi, extent)) > ty.max)
            && (c == Accepted <==>
                  0 < extent <= n <= UINT64_MAX && ExpandedMax(Dimension(lo, hi, extent)) <= ty.max)
  {
    var n := hi - lo + 1;
    if n > UINT64_MAX {
      FullIsEmpty(ty, lo, hi);
    } else if 0 < extent <= n {
      CellsInIs(ty, lo, hi);
      ExpandedFitsIff(ty, Dimension(lo, hi, extent));
      UpperFloorInside(lo, n, extent);
    } else {
      CellsInIs(ty, lo, hi);
    }
  }

  lemma FullIsEmpty(ty: IntType, lo: int, hi: int)
    requires Promoted(ty) == ty && Holds(ty, lo) && Holds(ty, hi) && hi - lo + 1 == Size(ty)
    ensures CellsIn(ty, lo, hi) == 0
  {
    assert Store(ty, hi - lo + 1) == Store(ty, 0);
  }

  /** For a type of at most 32 bits every positive extent up to the number of cells is accepted, whether the expanded
      domain fits or not, unless the domain fills a 32-bit type. */
  lemma CheckNarrowIff(ty: IntType, lo: int, hi: int, extent: int)
    requires Size(ty) <= Size(UINT32) && Holds(ty, lo) && Holds(ty, hi) && lo <= hi && extent <= ty.max
    ensures var n := hi - lo + 1; var c := CheckTileExtent(ty, lo, hi, extent);
            && (c == ExtentNotPositive <==> extent <= 0)
            && (c == ExtentExceedsDomain <==> 0 < extent && (extent > n || n > UINT32.max))
            && (c == Accepted <==> 0 < extent <= n <= UINT32.max)
  {
    var n := hi - lo + 1;
    if n <= Promoted(ty).max {
      assert CellsIn(ty, lo, hi) == n;
      if 0 < extent <= n {
        UpperFloorInside(lo, n, extent);
      }
    } else if n > UINT32.max {
      FullIsEmpty(ty, lo, hi);
    } else {
      SignedCells(ty, lo, hi, n);
      if 0 < extent {
        SignedUpperFloor(lo, n, extent);
      }
    }
  }

  /** The number of cells of a signed 32-bit domain that is too large for the type. */
  lemma SignedCells(ty: IntType, lo: int, hi: int, n: nat)
    requires Size(ty) <= Size(UINT32) && Holds(ty, lo) && Holds(ty, hi) && n == hi - lo + 1
    requires Promoted(ty).max < n <= UINT32.max
    ensures ty == INT32 && CellsIn(ty, lo, hi) == n + (Size(UINT64) - Size(INT32))
  {
    assert Store(ty, n) == n - Size(ty);
    assert AsPosition(n - Size(ty)) == n - Size(ty) + Size(UINT64);
  }

  /** Its upper floor is far below the domain. */
  lemma SignedUpperFloor(lo: int, n: nat, e: nat)
    requires Holds(INT32, lo) && 0 < e <= INT32.max < n <= UINT32.max && lo + n - 1 <= INT32.max
    ensures Store(INT64, (n + (Size(UINT64) - Size(INT32)) - 1) / e * e + lo) < 0
  {
    var m := n + (Size(UINT64) - Size(INT32)) - 1;
    Quotient(m, e);
    var x := m / e * e + lo;
    assert Store(INT64, x) == x - Size(INT64);
  }
}
