/** The position of a cell in a subarray: differences and sizes are computed in the arithmetic type of the coordinates
    and taken to 64 bits. Exactly when that is the position. */
module SubarrayPositions {
  import opened Transposition
  import opened Widths
  import opened MixedRadix
  import opened CellBox
  import opened CellPositions
  import opened DomainGrid
  import opened Offsets
  import opened PositionLoops
  import opened CellNumbers
  import opened DimensionTiles

  /** A difference or a size as the source takes it. */
  function Taken(ty: IntType, x: int): nat {
    AsPosition(Store(Promoted(ty), x))
  }

  function TakenAll(ty: IntType, s: seq<int>): (t: seq<nat>)
    ensures |t| == |s|
  {
    seq(|s|, d requires 0 <= d < |s| => Taken(ty, s[d]))
  }

  ghost function RelIn(ty: IntType, c: seq<int>, lo: seq<int>): (v: seq<nat>)
    requires |c| == |lo|
    ensures |v| == |c|
  {
    seq(|c|, d requires 0 <= d < |c| => Taken(ty, c[d] - lo[d]))
  }

  ghost function SizesIn(ty: IntType, lo: seq<int>, hi: seq<int>): (n: seq<nat>)
    requires |lo| == |hi|
    ensures |n| == |lo|
  {
    seq(|lo|, d requires 0 <= d < |lo| => Taken(ty, hi[d] - lo[d] + 1))
  }

  /** The numbers of cells of a subarray and the coordinates in it. */
  method Relative(ty: IntType, c: seq<int>, lo: seq<int>, hi: seq<int>) returns (v: seq<nat>, n: seq<nat>)
    requires |c| == |lo| == |hi|
    ensures v == RelIn(ty, c, lo) && n == SizesIn(ty, lo, hi)
  {
    v, n := [], [];
    for d := 0 to |c|
      invariant |v| == |n| == d
      invariant forall i :: 0 <= i < d ==> v[i] == RelIn(ty, c, lo)[i] && n[i] == SizesIn(ty, lo, hi)[i]
    {
      v := v + [AsPosition(Store(Promoted(ty), c[d] - lo[d]))];
      n := n + [AsPosition(Store(Promoted(ty), hi[d] - lo[d] + 1))];
    }
  }

  /** The row-major loop for more than three dimensions divides by the sizes. (A size is taken for 0 only if it is
      that of a type of 32 or 64 bits, and the check of the tile extent refuses a dimension of that size.) */
  ghost predicate Divides(ty: IntType, l: Layout, lo: seq<int>, hi: seq<int>)
    requires |lo| == |hi|
  {
    l == RowMajor && |lo| > 3 ==> Positive(SizesIn(ty, lo, hi))
  }

  /** The position that the source computes. */
  ghost function SubPosIn(ty: IntType, l: Layout, c: seq<int>, lo: seq<int>, hi: seq<int>): nat
    requires |c| == |lo| == |hi| && Divides(ty, l, lo, hi)
  {
    PositionOf(l, RelIn(ty, c, lo), SizesIn(ty, lo, hi))
  }

  /** get_cell_pos_row and get_cell_pos_col in a subarray. */
  method GetCellPosIn(ty: IntType, l: Layout, c: seq<int>, lo: seq<int>, hi: seq<int>) returns (pos: nat)
    requires |c| == |lo| == |hi| > 0 && (l == RowMajor && |lo| > 3 ==> Positive(SizesIn(ty, lo, hi)))
    ensures pos == SubPosIn(ty, l, c, lo, hi)
  {
    var v, n := Relative(ty, c, lo, hi);
    if l == RowMajor {
      pos := PosRow(v, n);
    } else {
      pos := PosCol(v, n);
    }
  }

  // ---------------------------------------------------------------------------
  // Sizes that fit
  // ---------------------------------------------------------------------------

  /** Dimension i is counted slower than dimension d. */
  predicate Slower(l: Layout, i: nat, d: nat) {
    if l == RowMajor then i < d else i > d
  }

  /** The size of dimension d does not matter: nothing moves along the slower dimensions or, where the loop divides by
      it, along any other one. */
  ghost predicate Unused(l: Layout, n: seq<nat>, d: nat)
    requires d < |n|
  {
    forall i :: 0 <= i < |n| && i != d && (Slower(l, i, d) || (l == RowMajor && |n| > 3 && d > 0)) ==> n[i] == 1
  }

  ghost predicate SizeFits(ty: IntType, l: Layout, n: seq<nat>, d: nat)
    requires d < |n|
  {
    var size: int := n[d];
    Kept(ty, size - 1) && (Kept(ty, size) || Unused(l, n, d))
  }

  /** All differences are kept, and all sizes that matter. */
  ghost predicate SizesFit(ty: IntType, l: Layout, n: seq<nat>) {
    forall d :: 0 <= d < |n| ==> SizeFits(ty, l, n, d)
  }

  /** Sizes of a subarray of the type with at most 2^63 cells, by which the loop can divide. */
  ghost predicate Subarray(ty: IntType, l: Layout, n: seq<nat>) {
    && |n| > 0 && Prod(n) <= MAX_CELLS && (forall d :: 0 <= d < |n| ==> 0 < n[d] <= Size(ty))
    && (l == RowMajor && |n| > 3 ==> Positive(TakenAll(ty, n)))
  }

  lemma {:induction false} FromAbove(n: seq<nat>, d: nat, i: nat)
    requires d <= i < |n| && Positive(n)
    ensures From(n, d) >= n[i]
    decreases i - d
  {
    FromPositive(n, d + 1);
    if d < i {
      FromAbove(n, d + 1, i);
      AtMost(1, n[d], From(n, d + 1));
    } else {
      AtMost(1, From(n, d + 1), n[d]);
    }
  }

  lemma {:induction false} FromPositive(n: seq<nat>, d: nat)
    requires d <= |n| && Positive(n)
    ensures From(n, d) > 0
    decreases |n| - d
  {
    if d < |n| {
      FromPositive(n, d + 1);
    }
  }

  lemma SizeAtMost(n: seq<nat>, d: nat)
    requires d < |n| && Positive(n)
    ensures n[d] <= Prod(n)
  {
    ProdFrom(n, 0);
    FromAbove(n, 0, d);
  }

  lemma TakenIs(ty: IntType, l: Layout, n: seq<nat>, d: nat)
    requires Subarray(ty, l, n) && d < |n|
    ensures TakenAll(ty, n)[d] == n[d] <==> Kept(ty, n[d])
    ensures !Kept(ty, n[d]) ==> TakenAll(ty, n)[d] == AsPosition(n[d] - Size(ty)) && 2 * n[d] >= Size(ty)
  {
    SizeAtMost(n, d);
    KeptIff(ty, n[d]);
  }

  lemma DigitIs(ty: IntType, l: Layout, n: seq<nat>, d: nat, x: nat)
    requires Subarray(ty, l, n) && d < |n| && x < n[d]
    ensures Kept(ty, x) ==> Taken(ty, x) == x
    ensures !Kept(ty, x) ==> Taken(ty, x) == AsPosition(x - Size(ty)) && 2 * x >= Size(ty)
  {
    SizeAtMost(n, d);
    KeptIff(ty, x);
  }

  // ---------------------------------------------------------------------------
  // They are enough
  // ---------------------------------------------------------------------------

  lemma DigitsRight(ty: IntType, l: Layout, v: seq<nat>, n: seq<nat>)
    requires Subarray(ty, l, n) && SizesFit(ty, l, n) && Within(v, n)
    ensures TakenAll(ty, v) == v
  {
    forall d | 0 <= d < |v|
      ensures TakenAll(ty, v)[d] == v[d]
    {
      assert SizeFits(ty, l, n, d);
      DigitIs(ty, l, n, d, v[d]);
    }
  }

  /** With sizes that are kept in the faster dimensions, the offset is right. */
  lemma FasterOffset(ty: IntType, l: Layout, n: seq<nat>, d: nat)
    requires Subarray(ty, l, n) && d < |n| && forall i :: 0 <= i < |n| && Slower(l, d, i) ==> Kept(ty, n[i])
    ensures Offset(l, TakenAll(ty, n), d) == Offset(l, n, d)
  {
    var m := TakenAll(ty, n);
    forall e | 0 <= e < |n| && Slower(l, d, e)
      ensures m[e] == n[e]
    {
      TakenIs(ty, l, n, e);
    }
    if l == RowMajor {
      FromSame(m, n, d + 1);
    } else {
      assert m[..d] == n[..d];
    }
  }

  lemma OffsetsRight(ty: IntType, l: Layout, n: seq<nat>, d: nat)
    requires Subarray(ty, l, n) && SizesFit(ty, l, n) && d < |n| && n[d] > 1
    ensures Offset(l, TakenAll(ty, n), d) == Offset(l, n, d)
  {
    forall e | 0 <= e < |n| && Slower(l, d, e)
      ensures Kept(ty, n[e])
    {
      assert SizeFits(ty, l, n, e);
    }
    FasterOffset(ty, l, n, d);
  }

  /** The product with which the loop starts has 64 bits. */
  lemma StartFits(ty: IntType, n: seq<nat>)
    requires Subarray(ty, RowMajor, n) && SizesFit(ty, RowMajor, n) && |n| > 3
    ensures From(TakenAll(ty, n), 1) <= UINT64_MAX
  {
    var m := TakenAll(ty, n);
    if e :| 0 < e < |n| && !Kept(ty, n[e]) {
      assert SizeFits(ty, RowMajor, n, e);
      forall i | 0 <= i < |n| && i != e
        ensures m[i] == 1
      {
        TakenIs(ty, RowMajor, n, i);
      }
      FromOnes(m, 1, e);
      FromOnes(m, e + 1, |n|);
    } else {
      forall i | 1 <= i < |n|
        ensures m[i] == n[i]
      {
        TakenIs(ty, RowMajor, n, i);
      }
      FromSame(m, n, 1);
      ProdFrom(n, 0);
      FromAtMost(n);
    }
  }

  /** The offset that is used for dimension d. */
  ghost function UsedOffset(ty: IntType, l: Layout, n: seq<nat>, d: nat): nat
    requires Subarray(ty, l, n) && d < |n|
  {
    if l == RowMajor && |n| > 3 then LoopOffset(TakenAll(ty, n), d) else Offset(l, TakenAll(ty, n), d)
  }

  ghost function UsedOffsets(ty: IntType, l: Layout, n: seq<nat>): (o: seq<int>)
    requires Subarray(ty, l, n)
    ensures |o| == |n|
  {
    seq(|n|, d requires 0 <= d < |n| => UsedOffset(ty, l, n, d))
  }

  lemma PositionIsDot(ty: IntType, l: Layout, w: seq<nat>, n: seq<nat>)
    requires Subarray(ty, l, n) && |w| == |n|
    ensures PositionOf(l, w, TakenAll(ty, n)) == AsPosition(Dot(w, UsedOffsets(ty, l, n)))
  {
    var m, o := TakenAll(ty, n), UsedOffsets(ty, l, n);
    if l == RowMajor && |n| > 3 {
      assert o == LoopOffsets(m);
    } else {
      DotIsNumber(l, w, m, o);
    }
  }

  lemma UsedOffsetRight(ty: IntType, l: Layout, n: seq<nat>, d: nat)
    requires Subarray(ty, l, n) && SizesFit(ty, l, n) && d < |n| && n[d] > 1
    ensures UsedOffset(ty, l, n, d) == Offset(l, n, d)
  {
    OffsetsRight(ty, l, n, d);
    if l == RowMajor && |n| > 3 {
      StartFits(ty, n);
      LoopOffsetIs(TakenAll(ty, n), d);
    }
  }

  lemma SizesAreEnough(ty: IntType, l: Layout, v: seq<nat>, n: seq<nat>)
    requires Subarray(ty, l, n) && SizesFit(ty, l, n) && Within(v, n)
    ensures PositionOf(l, TakenAll(ty, v), TakenAll(ty, n)) == Number(l, v, n)
  {
    var a: seq<int> := seq(|n|, d requires 0 <= d < |n| => Offset(l, n, d));
    DigitsRight(ty, l, v, n);
    PositionIsDot(ty, l, v, n);
    forall d | 0 <= d < |n|
      ensures v[d] == 0 || UsedOffsets(ty, l, n)[d] == a[d]
    {
      if v[d] > 0 {
        UsedOffsetRight(ty, l, n, d);
      }
    }
    DotEqual(v, UsedOffsets(ty, l, n), a);
    DotIsNumber(l, v, n, a);
    NumberBound(l, v, n);
  }

  // ---------------------------------------------------------------------------
  // Nothing less is enough
  // ---------------------------------------------------------------------------

  ghost predicate Wrong(ty: IntType, l: Layout, v: seq<nat>, n: seq<nat>) {
    Subarray(ty, l, n) && Within(v, n) && PositionOf(l, TakenAll(ty, v), TakenAll(ty, n)) != Number(l, v, n)
  }

  /** A cell that differs from the first one along dimension d only. */
  lemma UnitPosition(ty: IntType, l: Layout, n: seq<nat>, d: nat, x: nat)
    requires Subarray(ty, l, n) && d < |n| && x < n[d]
    ensures Within(Unit(|n|, d, x), n)
    ensures PositionOf(l, TakenAll(ty, Unit(|n|, d, x)), TakenAll(ty, n)) ==
            AsPosition(Taken(ty, x) * UsedOffset(ty, l, n, d))
    ensures Number(l, Unit(|n|, d, x), n) == x * Offset(l, n, d) < MAX_CELLS
  {
    var v, o := Unit(|n|, d, x), UsedOffsets(ty, l, n);
    assert TakenAll(ty, v) == Unit(|n|, d, Taken(ty, x));
    PositionIsDot(ty, l, TakenAll(ty, v), n);
    DotUnit(|n|, d, Taken(ty, x), o);
    UnitNumber(l, n, d, x);
    NumberBound(l, v, n);
  }

  /** What is lost when x loses the number of values s and is multiplied by r. */
  lemma LostTimes(x: nat, s: nat, r: nat)
    requires 0 < r && 0 < s <= 2 * x && x * r < MAX_CELLS
    ensures AsPosition(AsPosition(x - s) * r) != x * r
  {
    StoreTimes(UINT64, x - s, r);
    LossBounds(x, s, r);
    Lost(x * r, s * r);
  }

  lemma LossBounds(x: nat, s: nat, r: nat)
    requires 0 < r && 0 < s <= 2 * x
    ensures (x - s) * r == x * r - s * r && 0 < s * r <= 2 * (x * r)
  {
    AtMost(s, 2 * x, r);
    AtMost(1, s, r);
  }

  /** A difference that is not kept, with the right offset. */
  lemma WrongDifference(ty: IntType, l: Layout, n: seq<nat>, d: nat, x: nat)
    requires Subarray(ty, l, n) && d < |n| && x == n[d] - 1 && !Kept(ty, x)
    requires UsedOffset(ty, l, n, d) == Offset(l, n, d)
    ensures Wrong(ty, l, Unit(|n|, d, x), n)
  {
    UnitPosition(ty, l, n, d, x);
    OffsetPositive(l, n, d);
    DigitIs(ty, l, n, d, x);
    LostTimes(x, Size(ty), Offset(l, n, d));
  }

  /** A wrong offset. */
  lemma WrongOffset(ty: IntType, l: Layout, n: seq<nat>, d: nat)
    requires Subarray(ty, l, n) && d < |n| && n[d] > 1 && AsPosition(UsedOffset(ty, l, n, d)) != Offset(l, n, d)
    ensures Wrong(ty, l, Unit(|n|, d, 1), n)
  {
    UnitPosition(ty, l, n, d, 1);
    TakenOne(ty);
    assert 1 * UsedOffset(ty, l, n, d) == UsedOffset(ty, l, n, d) && 1 * Offset(l, n, d) == Offset(l, n, d);
  }

  lemma TakenOne(ty: IntType)
    ensures Taken(ty, 1) == 1
  {
    KeptIff(ty, 1);
  }

  // ---------------------------------------------------------------------------
  // Sums of products
  // ---------------------------------------------------------------------------

  /** The fastest dimension, from e on, whose size is not kept. */
  lemma {:induction false} Fastest(ty: IntType, l: Layout, n: seq<nat>, e: nat) returns (f: nat)
    requires e < |n| && !Kept(ty, n[e])
    ensures f < |n| && !Kept(ty, n[f]) && (f == e || Slower(l, e, f))
    ensures forall i :: 0 <= i < |n| && Slower(l, f, i) ==> Kept(ty, n[i])
    decreases if l == RowMajor then |n| - e else e
  {
    if i :| 0 <= i < |n| && Slower(l, e, i) && !Kept(ty, n[i]) {
      f := Fastest(ty, l, n, i);
    } else {
      f := e;
    }
  }

  /** The nearest slower dimension k that moves has the size of e, which is not kept, in its offset. */
  lemma WrongStep(ty: IntType, l: Layout, n: seq<nat>, k: nat, e: nat)
    requires Subarray(ty, l, n) && !(l == RowMajor && |n| > 3) && k < |n| && e < |n| && n[k] > 1 && !Kept(ty, n[e])
    requires forall i :: 0 <= i < |n| && Slower(l, e, i) ==> Kept(ty, n[i])
    requires if l == RowMajor then k < e && forall i :: k < i < e ==> n[i] == 1
             else e < k && forall i :: e < i < k ==> n[i] == 1
    ensures Wrong(ty, l, Unit(|n|, k, 1), n)
  {
    StepIsRow(l, n, k, e);
    StepTaken(ty, l, n, k, e);
    TakenIs(ty, l, n, e);
    OffsetPositive(l, n, e);
    UnitPosition(ty, l, n, k, 1);
    LostTimes(n[e], Size(ty), Offset(l, n, e));
    WrongOffset(ty, l, n, k);
  }

  lemma StepTaken(ty: IntType, l: Layout, n: seq<nat>, k: nat, e: nat)
    requires Subarray(ty, l, n) && !(l == RowMajor && |n| > 3) && k < |n| && e < |n|
    requires forall i :: 0 <= i < |n| && Slower(l, e, i) ==> Kept(ty, n[i])
    requires if l == RowMajor then k < e && forall i :: k < i < e ==> n[i] == 1
             else e < k && forall i :: e < i < k ==> n[i] == 1
    ensures UsedOffset(ty, l, n, k) == TakenAll(ty, n)[e] * Offset(l, n, e)
  {
    TakenOne(ty);
    StepIsRow(l, TakenAll(ty, n), k, e);
    FasterOffset(ty, l, n, e);
  }

  lemma WrongSum(ty: IntType, l: Layout, n: seq<nat>, d: nat) returns (v: seq<nat>)
    requires Subarray(ty, l, n) && !(l == RowMajor && |n| > 3) && d < |n| && !SizeFits(ty, l, n, d)
    ensures Wrong(ty, l, v, n)
  {
    var e := Fastest(ty, l, n, d);
    if i :| 0 <= i < |n| && Slower(l, i, e) && n[i] > 1 {
      var k := Nearest(l, n, i, e);
      WrongStep(ty, l, n, k, e);
      v := Unit(|n|, k, 1);
    } else {
      var x := n[e] - 1;
      FasterOffset(ty, l, n, e);
      WrongDifference(ty, l, n, e, x);
      v := Unit(|n|, e, x);
    }
  }

  // ---------------------------------------------------------------------------
  // The loop that divides
  // ---------------------------------------------------------------------------

  lemma {:induction false} LoopOffsetsFall(n: seq<nat>, i: nat, d: nat)
    requires i <= d < |n| && Positive(n)
    ensures LoopOffset(n, d) <= LoopOffset(n, i)
    decreases d - i
  {
    if i < d {
      LoopOffsetsFall(n, i, d - 1);
      Quotient(LoopOffset(n, d - 1), n[d]);
      RowOfAtMost(LoopOffset(n, d - 1), n[d]);
    }
  }

  /** Divided by more than half of 2^64, an offset is 0 or 1, and it is 1 only if it was as large as that. */
  lemma LargeDivisor(o: nat, m: nat)
    requires o <= UINT64_MAX && m >= MAX_CELLS
    ensures o / m <= 1 && (o / m == 1 ==> o >= m)
  {
    Quotient(o, m);
  }

  /** A size that is not kept is taken for one of more than half of 2^64. */
  lemma LargeSize(ty: IntType, n: seq<nat>, e: nat)
    requires Subarray(ty, RowMajor, n) && |n| > 3 && e < |n| && !Kept(ty, n[e])
    ensures TakenAll(ty, n)[e] >= MAX_CELLS
  {
    TakenIs(ty, RowMajor, n, e);
    assert TakenAll(ty, n)[e] > 0;
    assert n[e] < Size(ty);
    assert AsPosition(n[e] - Size(ty)) == n[e] - Size(ty) + Size(UINT64);
  }

  /** An offset of more than half of 2^64. */
  lemma LargeOffset(ty: IntType, n: seq<nat>, i: nat)
    requires Subarray(ty, RowMajor, n) && |n| > 3 && i < |n| && n[i] > 1 && LoopOffset(TakenAll(ty, n), i) >= MAX_CELLS
    ensures Wrong(ty, RowMajor, Unit(|n|, i, 1), n)
  {
    UnitPosition(ty, RowMajor, n, i, 1);
    WrongOffset(ty, RowMajor, n, i);
  }

  /** A dimension after the first whose size is not kept, and does matter. */
  lemma WrongLater(ty: IntType, n: seq<nat>, e: nat) returns (v: seq<nat>)
    requires Subarray(ty, RowMajor, n) && |n| > 3 && 0 < e < |n| && !Kept(ty, n[e]) && !SizeFits(ty, RowMajor, n, e)
    ensures Wrong(ty, RowMajor, v, n)
  {
    var m := TakenAll(ty, n);
    var o := LoopOffset(m, e);
    LargeSize(ty, n, e);
    LargeDivisor(LoopOffset(m, e - 1), m[e]);
    if o != From(n, e + 1) {
      WrongOffset(ty, RowMajor, n, e);
      v := Unit(|n|, e, 1);
    } else if i :| 0 <= i < |n| && i != e && n[i] > 1 {
      FromPositive(n, e + 1);
      if i > e {
        FromAbove(n, e + 1, i);
      }
      LoopOffsetsFall(m, i, e - 1);
      LargeOffset(ty, n, i);
      v := Unit(|n|, i, 1);
    } else {
      var x := n[e] - 1;
      WrongDifference(ty, RowMajor, n, e, x);
      v := Unit(|n|, e, x);
    }
  }

  lemma WrongLoop(ty: IntType, n: seq<nat>, d: nat) returns (v: seq<nat>)
    requires Subarray(ty, RowMajor, n) && |n| > 3 && d < |n| && !SizeFits(ty, RowMajor, n, d)
    ensures Wrong(ty, RowMajor, v, n)
  {
    if e :| 0 < e < |n| && !Kept(ty, n[e]) && !SizeFits(ty, RowMajor, n, e) {
      v := WrongLater(ty, n, e);
    } else {
      var x := n[0] - 1;
      FirstOffset(ty, n);
      WrongDifference(ty, RowMajor, n, 0, x);
      v := Unit(|n|, 0, x);
    }
  }

  /** With sizes that are kept in all dimensions but the first. */
  lemma FirstOffset(ty: IntType, n: seq<nat>)
    requires Subarray(ty, RowMajor, n) && |n| > 3 && forall e :: 0 < e < |n| ==> Kept(ty, n[e])
    ensures UsedOffset(ty, RowMajor, n, 0) == Offset(RowMajor, n, 0)
  {
    FasterOffset(ty, RowMajor, n, 0);
    ProdFrom(n, 0);
    FromAtMost(n);
  }

  // ---------------------------------------------------------------------------
  // Exactly when positions are right
  // ---------------------------------------------------------------------------

  lemma SizesIff(ty: IntType, l: Layout, n: seq<nat>)
    requires Subarray(ty, l, n)
    ensures (forall v: seq<nat> {:trigger Within(v, n)} ::
               Within(v, n) ==> PositionOf(l, TakenAll(ty, v), TakenAll(ty, n)) == Number(l, v, n))
       <==> SizesFit(ty, l, n)
  {
    if SizesFit(ty, l, n) {
      forall v: seq<nat> | Within(v, n)
        ensures PositionOf(l, TakenAll(ty, v), TakenAll(ty, n)) == Number(l, v, n)
      {
        SizesAreEnough(ty, l, v, n);
      }
    } else {
      var d :| 0 <= d < |n| && !SizeFits(ty, l, n, d);
      var v;
      if l == RowMajor && |n| > 3 {
        v := WrongLoop(ty, n, d);
      } else {
        v := WrongSum(ty, l, n, d);
      }
    }
  }

  /** A subarray whose bounds have the type. */
  ghost predicate BoxOf(ty: IntType, lo: seq<int>, hi: seq<int>) {
    Box(lo, hi) && forall d :: 0 <= d < |lo| ==> Holds(ty, lo[d]) && Holds(ty, hi[d])
  }

  lemma SizesTaken(ty: IntType, lo: seq<int>, hi: seq<int>)
    requires Box(lo, hi)
    ensures SizesIn(ty, lo, hi) == TakenAll(ty, Sizes(lo, hi))
    ensures forall c :: InBox(c, lo, hi) ==> RelIn(ty, c, lo) == TakenAll(ty, Rel(c, lo))
  {
  }

  lemma CellAt(lo: seq<int>, hi: seq<int>, v: seq<nat>) returns (c: seq<int>)
    requires Box(lo, hi) && Within(v, Sizes(lo, hi))
    ensures InBox(c, lo, hi) && Rel(c, lo) == v
  {
    c := seq(|v|, d requires 0 <= d < |v| => lo[d] + v[d]);
    assert forall d :: 0 <= d < |v| ==> v[d] < Sizes(lo, hi)[d];
  }

  ghost predicate SubPosIsRight(ty: IntType, l: Layout, c: seq<int>, lo: seq<int>, hi: seq<int>)
    requires |lo| == |hi| && Divides(ty, l, lo, hi)
  {
    InBox(c, lo, hi) ==> SubPosIn(ty, l, c, lo, hi) == Pos(l, c, lo, hi)
  }

  /** Every cell of a subarray of at most 2^63 cells gets its position exactly when the sizes fit. */
  lemma CellPosInIff(ty: IntType, l: Layout, lo: seq<int>, hi: seq<int>)
    requires BoxOf(ty, lo, hi) && Cells(lo, hi) <= MAX_CELLS && Divides(ty, l, lo, hi)
    ensures (forall c :: SubPosIsRight(ty, l, c, lo, hi)) <==> SizesFit(ty, l, Sizes(lo, hi))
  {
    var n := Sizes(lo, hi);
    SizesTaken(ty, lo, hi);
    SizesIff(ty, l, n);
    if SizesFit(ty, l, n) {
      forall c
        ensures SubPosIsRight(ty, l, c, lo, hi)
      {
        if InBox(c, lo, hi) {
          RelWithin(c, lo, hi);
        }
      }
    } else {
      var v: seq<nat> :| Within(v, n) && PositionOf(l, TakenAll(ty, v), TakenAll(ty, n)) != Number(l, v, n);
      var c := CellAt(lo, hi, v);
      assert !SubPosIsRight(ty, l, c, lo, hi);
    }
  }

  /** So the position is always right with coordinates of 64 bits, and with those of up to 16. */
  lemma CellPosInRight(ty: IntType, l: Layout, c: seq<int>, lo: seq<int>, hi: seq<int>)
    requires BoxOf(ty, lo, hi) && Cells(lo, hi) <= MAX_CELLS && InBox(c, lo, hi)
    requires Size(ty) == Size(UINT64) || Promoted(ty) != ty
    ensures Divides(ty, l, lo, hi) && SubPosIn(ty, l, c, lo, hi) == Pos(l, c, lo, hi)
  {
    var n := Sizes(lo, hi);
    SizesTaken(ty, lo, hi);
    forall d | 0 <= d < |n|
      ensures TakenAll(ty, n)[d] == n[d] && Kept(ty, n[d])
    {
      SizeAtMost(n, d);
      KeptIff(ty, n[d]);
    }
    CellPosInIff(ty, l, lo, hi);
    assert SubPosIsRight(ty, l, c, lo, hi);
  }

  /** In 32 bits, two rows of 2^31 cells, of a dimension whose extent of 1 the check accepts: the second row starts at
      2^64 - 2^31. */
  lemma WideSubarrayExample()
    ensures var lo, hi := [0, -0x4000_0000], [1, 0x3FFF_FFFF];
            && CheckTileExtent(INT32, lo[1], hi[1], 1) == Accepted
            && BoxOf(INT32, lo, hi) && Divides(INT32, RowMajor, lo, hi)
            && SubPosIn(INT32, RowMajor, [1, lo[1]], lo, hi) == 0xFFFF_FFFF_8000_0000
            && Pos(RowMajor, [1, lo[1]], lo, hi) == 0x8000_0000
  {
    var lo, hi := [0, -0x4000_0000], [1, 0x3FFF_FFFF];
    var c := [1, lo[1]];
    assert Store(INT32, 0x8000_0000) == Store(INT32, INT32.min);
    assert Store(UINT64, INT32.min) == Store(UINT64, 0xFFFF_FFFF_8000_0000);
    var v, n, r, s := RelIn(INT32, c, lo), SizesIn(INT32, lo, hi), Rel(c, lo), Sizes(lo, hi);
    assert v == r == [1, 0] && n[1] == 0xFFFF_FFFF_8000_0000 && s[1] == 0x8000_0000;
    Two(v, n);
    Whole(v, n, 2);
    Two(r, s);
    Whole(r, s, 2);
  }
}
