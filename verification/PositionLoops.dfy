/** The loops that compute positions, in 64 bits. Sums and products wrap. The row-major loop divides its offset, which
    wrapping does not go with. */
module PositionLoops {
  import opened Transposition
  import opened Widths
  import opened MixedRadix
  import opened CellBox
  import opened CellPositions
  import opened DomainGrid
  import opened Offsets

  ghost predicate Positive(n: seq<nat>) {
    forall d :: 0 <= d < |n| ==> n[d] > 0
  }

  // ---------------------------------------------------------------------------
  // Steps
  // ---------------------------------------------------------------------------

  /** A term added to a sum. */
  method Added(pos: nat, x: nat, offset: nat, ghost sum: int, ghost term: int) returns (r: nat)
    requires pos == AsPosition(sum) && AsPosition(term) == AsPosition(x * offset)
    ensures r == AsPosition(sum + term)
  {
    r := AsPosition(pos + x * offset);
    StorePlus(UINT64, sum, x * offset);
    StorePlus(UINT64, x * offset, sum);
    StorePlus(UINT64, term, sum);
  }

  lemma TermOf(x: nat, o: int, offset: nat)
    requires offset == AsPosition(o)
    ensures AsPosition(x * o) == AsPosition(x * offset)
  {
    StoreTimes(UINT64, o, x);
    assert x * o == o * x && x * offset == offset * x;
  }

  /** An offset multiplied by a size. */
  method Scaled(offset: nat, n: nat, ghost product: int) returns (r: nat)
    requires offset == AsPosition(product)
    ensures r == AsPosition(product * n)
  {
    r := AsPosition(offset * n);
    StoreTimes(UINT64, product, n);
  }

  // ---------------------------------------------------------------------------
  // Row-major
  // ---------------------------------------------------------------------------

  /** The row-major loop starts with the product of the sizes of all dimensions but the first, and divides it by the
      size of the dimension it comes to. */
  ghost function LoopOffset(n: seq<nat>, d: nat): (o: nat)
    requires d < |n| && Positive(n)
    ensures o <= UINT64_MAX
  {
    if d == 0 then AsPosition(From(n, 1))
    else
      Quotient(LoopOffset(n, d - 1), n[d]);
      RowOfAtMost(LoopOffset(n, d - 1), n[d]);
      LoopOffset(n, d - 1) / n[d]
  }

  ghost function LoopOffsets(n: seq<nat>): (o: seq<nat>)
    requires Positive(n)
    ensures |o| == |n|
  {
    seq(|n|, d requires 0 <= d < |n| => LoopOffset(n, d))
  }

  /** The product of the sizes of all dimensions but the first. */
  method OffsetLoop(n: seq<nat>) returns (offset: nat)
    requires |n| > 0
    ensures offset == AsPosition(From(n, 1))
  {
    offset := 1;
    ghost var product := 1;
    for d := 1 to |n|
      invariant product * From(n, d) == From(n, 1) && offset == AsPosition(product)
    {
      offset := Scaled(offset, n[d], product);
      assert product * (n[d] * From(n, d + 1)) == product * n[d] * From(n, d + 1);
      product := product * n[d];
    }
  }

  /** The general loop of get_cell_pos_row. */
  method PosRowLoop(v: seq<nat>, n: seq<nat>) returns (pos: nat)
    requires |v| == |n| > 0 && Positive(n)
    ensures pos == AsPosition(Dot(v, LoopOffsets(n)))
  {
    var offset := OffsetLoop(n);
    ghost var o: seq<int> := LoopOffsets(n);
    pos := 0;
    for d := 0 to |n|
      invariant pos == AsPosition(Dot(v[..d], o[..d]))
      invariant d < |n| ==> offset == LoopOffset(n, d)
    {
      DotTake(v, o, d);
      pos := Added(pos, v[d], offset, Dot(v[..d], o[..d]), v[d] * o[d]);
      if d < |n| - 1 {
        offset := offset / n[d + 1];
      }
    }
    assert v[..|n|] == v && o[..|n|] == o;
  }

  /** As long as the product has 64 bits, the divisions are exact and the offsets those of the row-major order. */
  lemma {:induction false} LoopOffsetIs(n: seq<nat>, d: nat)
    requires d < |n| && Positive(n) && From(n, 1) <= UINT64_MAX
    ensures LoopOffset(n, d) == From(n, d + 1)
  {
    if d > 0 {
      LoopOffsetIs(n, d - 1);
      DivParts(From(n, d + 1), n[d], 0);
      assert n[d] * From(n, d + 1) == From(n, d + 1) * n[d] + 0;
    }
  }

  // ---------------------------------------------------------------------------
  // Column-major
  // ---------------------------------------------------------------------------

  method ColStep(pos: nat, offset: nat, x: nat, size: nat, ghost sum: int, ghost product: int) returns (p: nat, o: nat)
    requires pos == AsPosition(sum) && offset == AsPosition(product)
    ensures p == AsPosition(sum + x * product) && o == AsPosition(product * size)
  {
    TermOf(x, product, offset);
    p := Added(pos, x, offset, sum, x * product);
    o := Scaled(offset, size, product);
  }

  /** The general loop of get_cell_pos_col. */
  method PosColLoop(v: seq<nat>, n: seq<nat>) returns (pos: nat)
    requires |v| == |n|
    ensures pos == AsPosition(Col(v, n))
  {
    pos := 0;
    var offset := 1;
    for d := 0 to |n|
      invariant pos == AsPosition(Col(v[..d], n[..d])) && offset == AsPosition(Prod(n[..d]))
    {
      pos, offset := ColStep(pos, offset, v[d], n[d], Col(v[..d], n[..d]), Prod(n[..d]));
      ColTake(v, n, d);
    }
    assert v[..|n|] == v && n[..|n|] == n;
  }

  // ---------------------------------------------------------------------------
  // Positions
  // ---------------------------------------------------------------------------

  /** The position that digits v in dimensions of sizes n get: with more than three dimensions in row-major order by the
      loop that divides, and otherwise the number. */
  ghost function PositionOf(l: Layout, v: seq<nat>, n: seq<nat>): nat
    requires |v| == |n| && (l == RowMajor && |n| > 3 ==> Positive(n))
  {
    AsPosition(if l == RowMajor && |n| > 3 then Dot(v, LoopOffsets(n)) else Number(l, v, n))
  }

  /** get_cell_pos_row in a subarray, for digits v in dimensions of sizes n. */
  method PosRow(v: seq<nat>, n: seq<nat>) returns (pos: nat)
    requires |v| == |n| > 0 && (|n| > 3 ==> Positive(n))
    ensures pos == PositionOf(RowMajor, v, n)
  {
    if |n| <= 3 {
      PlainIs(v, n);
      pos := AsPosition(PlainRow(v, n));
    } else {
      pos := PosRowLoop(v, n);
    }
  }

  /** get_cell_pos_col in a subarray, for digits v in dimensions of sizes n. */
  method PosCol(v: seq<nat>, n: seq<nat>) returns (pos: nat)
    requires |v| == |n| > 0
    ensures pos == PositionOf(ColMajor, v, n)
  {
    if |n| <= 3 {
      PlainIs(v, n);
      pos := AsPosition(PlainCol(v, n));
    } else {
      pos := PosColLoop(v, n);
    }
  }

  lemma {:induction false} ProdFrom(n: seq<nat>, d: nat)
    requires d <= |n|
    ensures Prod(n[..d]) * From(n, d) == Prod(n)
    decreases |n| - d
  {
    if d == |n| {
      assert n[..d] == n;
    } else {
      ProdFrom(n, d + 1);
      ProdNext(n, d);
      assert Prod(n[..d]) * n[d] * From(n, d + 1) == Prod(n[..d]) * (n[d] * From(n, d + 1));
    }
  }

  lemma FromAtMost(n: seq<nat>)
    requires |n| > 0 && Positive(n)
    ensures From(n, 1) <= n[0] * From(n, 1) == From(n, 0)
  {
  }

  /** With no more than 2^64 - 1 places nothing wraps before it is divided. */
  lemma PositionIsNumber(l: Layout, v: seq<nat>, n: seq<nat>)
    requires |v| == |n| > 0 && Positive(n) && Prod(n) <= UINT64_MAX
    ensures PositionOf(l, v, n) == AsPosition(Number(l, v, n))
  {
    if l == RowMajor && |n| > 3 {
      ProdFrom(n, 0);
      FromAtMost(n);
      forall d | 0 <= d < |n|
        ensures LoopOffsets(n)[d] == Offset(l, n, d)
      {
        LoopOffsetIs(n, d);
      }
      DotIsNumber(l, v, n, LoopOffsets(n));
    }
  }

  /** Then the position of digits within the sizes is the number. */
  lemma PositionRight(l: Layout, v: seq<nat>, n: seq<nat>)
    requires Within(v, n) && |n| > 0 && Positive(n) && Prod(n) <= UINT64_MAX
    ensures PositionOf(l, v, n) == Number(l, v, n)
  {
    RowBound(v, n);
    ColBound(v, n);
    PositionIsNumber(l, v, n);
  }

  /** A position that has lost b, up to 2^64. */
  lemma Lost(a: nat, b: nat)
    requires a <= UINT64_MAX && 0 < b <= UINT64_MAX
    ensures AsPosition(a - b) != a
  {
    assert AsPosition(a - b) == if a >= b then a - b else a - b + Size(UINT64);
  }
}
