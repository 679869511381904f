/** Stepping from cell to cell, or from tile to tile, in place. The coordinates are incremented in
    their own type, so a coordinate at the greatest value of the type wraps. */
module CellSteps {
  import opened Widths
  import opened MixedRadix
  import opened CellBox

  /** Coordinate x, incremented in its type. */
  function Inc(ty: IntType, x: int): int {
    Store(ty, x + 1)
  }

  // ---------------------------------------------------------------------------
  // One step
  // ---------------------------------------------------------------------------

  /** The row-major step: the new coordinates, and whether they are reported to be in the box. */
  ghost function RowStepIn(ty: IntType, c: seq<int>, lo: seq<int>, hi: seq<int>): (r: (seq<int>, bool))
    requires |c| == |lo| == |hi| > 0
    ensures |r.0| == |c|
    decreases |c|
  {
    var m := |c| - 1;
    var x := Inc(ty, c[m]);
    if m > 0 && x > hi[m] then
      var r := RowStepIn(ty, c[..m], lo[..m], hi[..m]);
      (r.0 + [lo[m]], r.1)
    else
      (c[..m] + [x], !(m == 0 && x > hi[m]))
  }

  /** Every dimension of c passes its highest coordinate. */
  ghost predicate AllCarry(ty: IntType, c: seq<int>, hi: seq<int>)
    requires |c| == |hi|
  {
    forall d :: 0 <= d < |c| ==> Inc(ty, c[d]) > hi[d]
  }

  /** The column-major step. */
  ghost function ColStepIn(ty: IntType, c: seq<int>, lo: seq<int>, hi: seq<int>): (r: (seq<int>, bool))
    requires |c| == |lo| == |hi| > 0
    ensures |r.0| == |c|
    decreases |c|
  {
    var m := |c| - 1;
    var x := Inc(ty, c[m]);
    if m > 0 && !AllCarry(ty, c[..m], hi[..m]) then
      (ColStepIn(ty, c[..m], lo[..m], hi[..m]).0 + [c[m]], true)
    else
      (lo[..m] + [x], !(x > hi[m]))
  }

  /** A row-major step whose carry ends at dimension i. */
  lemma {:induction false} RowStop(ty: IntType, c: seq<int>, lo: seq<int>, hi: seq<int>, i: nat)
    requires |c| == |lo| == |hi| && i < |c|
    requires (forall d :: i < d < |c| ==> Inc(ty, c[d]) > hi[d]) && (i == 0 || Inc(ty, c[i]) <= hi[i])
    ensures RowStepIn(ty, c, lo, hi).0 == c[..i] + [Inc(ty, c[i])] + lo[i + 1..]
    ensures RowStepIn(ty, c, lo, hi).1 == !(i == 0 && Inc(ty, c[i]) > hi[i])
    decreases |c|
  {
    var m := |c| - 1;
    if i < m {
      RowStop(ty, c[..m], lo[..m], hi[..m], i);
      assert lo[i + 1..] == lo[..m][i + 1..] + [lo[m]];
      assert c[..m][..i] == c[..i];
    } else {
      assert lo[i + 1..] == [];
    }
  }

  /** A column-major step whose carry ends at dimension i. */
  lemma {:induction false} ColStop(ty: IntType, c: seq<int>, lo: seq<int>, hi: seq<int>, i: nat)
    requires |c| == |lo| == |hi| && i < |c|
    requires (forall d :: 0 <= d < i ==> Inc(ty, c[d]) > hi[d]) && (i == |c| - 1 || Inc(ty, c[i]) <= hi[i])
    ensures ColStepIn(ty, c, lo, hi).0 == lo[..i] + [Inc(ty, c[i])] + c[i + 1..]
    ensures ColStepIn(ty, c, lo, hi).1 == !(i == |c| - 1 && Inc(ty, c[i]) > hi[i])
    decreases |c|
  {
    var m := |c| - 1;
    if i < m {
      assert !(Inc(ty, c[..m][i]) > hi[..m][i]);
      ColStop(ty, c[..m], lo[..m], hi[..m], i);
      assert c[i + 1..] == c[..m][i + 1..] + [c[m]];
      assert lo[..m][..i] == lo[..i];
    } else {
      assert c[i + 1..] == [];
    }
  }

  /** One more dimension carries. */
  lemma CarryRow(lo: seq<int>, c: seq<int>, x: int, i: nat, y: int)
    requires |lo| == |c| && 0 < i < |c|
    ensures (c[..i] + [x] + lo[i + 1..])[i := lo[i]][i - 1 := y] == c[..i - 1] + [y] + lo[i..]
  {
    assert lo[i..] == [lo[i]] + lo[i + 1..];
  }

  lemma CarryCol(lo: seq<int>, c: seq<int>, x: int, i: nat, y: int)
    requires |lo| == |c| && i + 1 < |c|
    ensures (lo[..i] + [x] + c[i + 1..])[i := lo[i]][i + 1 := y] == lo[..i + 1] + [y] + c[i + 2..]
  {
    assert lo[..i + 1] == lo[..i] + [lo[i]];
  }

  /** get_next_cell_coords_row and get_next_tile_coords_row. */
  method NextCoordsRow(ty: IntType, lo: seq<int>, hi: seq<int>, c: array<int>) returns (retrieved: bool)
    requires c.Length == |lo| == |hi| > 0
    modifies c
    ensures (c[..], retrieved) == RowStepIn(ty, old(c[..]), lo, hi)
  {
    ghost var c0 := c[..];
    var i := c.Length - 1;
    c[i] := Inc(ty, c[i]);
    while i > 0 && c[i] > hi[i]
      invariant 0 <= i < c.Length
      invariant c[..] == c0[..i] + [Inc(ty, c0[i])] + lo[i + 1..]
      invariant forall d :: i < d < |c0| ==> Inc(ty, c0[d]) > hi[d]
    {
      CarryRow(lo, c0, Inc(ty, c0[i]), i, Inc(ty, c0[i - 1]));
      c[i] := lo[i];
      i := i - 1;
      c[i] := Inc(ty, c[i]);
    }
    RowStop(ty, c0, lo, hi, i);
    assert c[i] == c[..][i] == Inc(ty, c0[i]);
    retrieved := !(i == 0 && c[i] > hi[i]);
  }

  /** get_next_cell_coords_col and get_next_tile_coords_col. */
  method NextCoordsCol(ty: IntType, lo: seq<int>, hi: seq<int>, c: array<int>) returns (retrieved: bool)
    requires c.Length == |lo| == |hi| > 0
    modifies c
    ensures (c[..], retrieved) == ColStepIn(ty, old(c[..]), lo, hi)
  {
    ghost var c0 := c[..];
    var i := 0;
    c[i] := Inc(ty, c[i]);
    while i < c.Length - 1 && c[i] > hi[i]
      invariant 0 <= i < c.Length
      invariant c[..] == lo[..i] + [Inc(ty, c0[i])] + c0[i + 1..]
      invariant forall d :: 0 <= d < i ==> Inc(ty, c0[d]) > hi[d]
    {
      CarryCol(lo, c0, Inc(ty, c0[i]), i, Inc(ty, c0[i + 1]));
      c[i] := lo[i];
      i := i + 1;
      c[i] := Inc(ty, c[i]);
    }
    ColStop(ty, c0, lo, hi, i);
    assert c[i] == c[..][i] == Inc(ty, c0[i]);
    retrieved := !(i == c.Length - 1 && c[i] > hi[i]);
  }

  // ---------------------------------------------------------------------------
  // When a step is right
  // ---------------------------------------------------------------------------

  /** The bounds of a box are coordinates of the type. */
  ghost predicate BoxOf(ty: IntType, lo: seq<int>, hi: seq<int>) {
    Box(lo, hi) && forall d :: 0 <= d < |lo| ==> Holds(ty, lo[d]) && Holds(ty, hi[d])
  }

  /** No upper bound is the greatest value of the type. */
  ghost predicate RoomAbove(ty: IntType, hi: seq<int>) {
    forall d :: 0 <= d < |hi| ==> hi[d] < ty.max
  }

  /** Coordinates of the box do not wrap. */
  lemma IncIs(ty: IntType, c: seq<int>, lo: seq<int>, hi: seq<int>)
    requires InBox(c, lo, hi) && RoomAbove(ty, hi) && forall d :: 0 <= d < |lo| ==> Holds(ty, lo[d])
    ensures forall d :: 0 <= d < |c| ==> Inc(ty, c[d]) == c[d] + 1
    ensures AllCarry(ty, c, hi) <==> !More(c, hi)
  {
    forall d | 0 <= d < |c|
      ensures Inc(ty, c[d]) == c[d] + 1
    {
      assert lo[d] <= c[d] <= hi[d] < ty.max;
    }
  }

  lemma {:induction false} RowStepRight(ty: IntType, c: seq<int>, lo: seq<int>, hi: seq<int>)
    requires InBox(c, lo, hi) && |c| > 0 && RoomAbove(ty, hi) && forall d :: 0 <= d < |lo| ==> Holds(ty, lo[d])
    ensures RowStepIn(ty, c, lo, hi) == (RowNext(c, lo, hi), More(c, hi))
    decreases |c|
  {
    var m := |c| - 1;
    IncIs(ty, c, lo, hi);
    MorePrefix(c, hi);
    if m > 0 && c[m] >= hi[m] {
      RowStepRight(ty, c[..m], lo[..m], hi[..m]);
    }
  }

  lemma {:induction false} ColStepRight(ty: IntType, c: seq<int>, lo: seq<int>, hi: seq<int>)
    requires InBox(c, lo, hi) && |c| > 0 && RoomAbove(ty, hi) && forall d :: 0 <= d < |lo| ==> Holds(ty, lo[d])
    ensures ColStepIn(ty, c, lo, hi) == (ColNext(c, lo, hi), More(c, hi))
    decreases |c|
  {
    var m := |c| - 1;
    IncIs(ty, c, lo, hi);
    IncIs(ty, c[..m], lo[..m], hi[..m]);
    MorePrefix(c, hi);
    if m > 0 && More(c[..m], hi[..m]) {
      ColStepRight(ty, c[..m], lo[..m], hi[..m]);
    }
  }

  ghost function StepIn(l: Layout, ty: IntType, c: seq<int>, lo: seq<int>, hi: seq<int>): (r: (seq<int>, bool))
    requires |c| == |lo| == |hi| > 0
    ensures |r.0| == |c|
  {
    if l == RowMajor then RowStepIn(ty, c, lo, hi) else ColStepIn(ty, c, lo, hi)
  }

  /** The end of the box is reported only where all dimensions carry, and none at the greatest value of
      the type does. */
  lemma {:induction false} RowEnd(ty: IntType, c: seq<int>, lo: seq<int>, hi: seq<int>)
    requires |c| == |lo| == |hi| > 0 && !RowStepIn(ty, c, lo, hi).1
    ensures AllCarry(ty, c, hi)
    decreases |c|
  {
    var m := |c| - 1;
    if m > 0 {
      RowEnd(ty, c[..m], lo[..m], hi[..m]);
      assert forall d :: 0 <= d < m ==> c[..m][d] == c[d] && hi[..m][d] == hi[d];
    }
  }

  lemma ColEnd(ty: IntType, c: seq<int>, lo: seq<int>, hi: seq<int>)
    requires |c| == |lo| == |hi| > 0 && !ColStepIn(ty, c, lo, hi).1
    ensures AllCarry(ty, c, hi)
  {
    var m := |c| - 1;
    if m > 0 {
      assert AllCarry(ty, c[..m], hi[..m]);
      assert forall d :: 0 <= d < m ==> c[..m][d] == c[d] && hi[..m][d] == hi[d];
    }
  }

  lemma EndNeedsRoom(l: Layout, ty: IntType, c: seq<int>, lo: seq<int>, hi: seq<int>)
    requires |c| == |lo| == |hi| > 0 && !StepIn(l, ty, c, lo, hi).1
    ensures RoomAbove(ty, hi)
  {
    if l == RowMajor {
      RowEnd(ty, c, lo, hi);
    } else {
      ColEnd(ty, c, lo, hi);
    }
    forall d | 0 <= d < |hi|
      ensures hi[d] < ty.max
    {
      assert hi[d] < Inc(ty, c[d]) <= ty.max;
    }
  }

  /** A step from c is to the next cell, and a further cell is reported exactly if there is one. */
  ghost predicate StepIsRight(l: Layout, ty: IntType, c: seq<int>, lo: seq<int>, hi: seq<int>)
    requires |c| == |lo| == |hi| > 0
  {
    StepIn(l, ty, c, lo, hi) == (Next(l, c, lo, hi), More(c, hi))
  }

  lemma StepRight(l: Layout, ty: IntType, c: seq<int>, lo: seq<int>, hi: seq<int>)
    requires BoxOf(ty, lo, hi) && RoomAbove(ty, hi) && InBox(c, lo, hi)
    ensures StepIsRight(l, ty, c, lo, hi)
  {
    if l == RowMajor {
      RowStepRight(ty, c, lo, hi);
    } else {
      ColStepRight(ty, c, lo, hi);
    }
  }

  /** All steps in a box are right exactly when no upper bound is the greatest value of the type. */
  lemma StepsAreRightIff(l: Layout, ty: IntType, lo: seq<int>, hi: seq<int>)
    requires BoxOf(ty, lo, hi)
    ensures (forall c {:trigger InBox(c, lo, hi)} :: InBox(c, lo, hi) ==> StepIsRight(l, ty, c, lo, hi)) <==>
            RoomAbove(ty, hi)
  {
    if RoomAbove(ty, hi) {
      forall c | InBox(c, lo, hi)
        ensures StepIsRight(l, ty, c, lo, hi)
      {
        StepRight(l, ty, c, lo, hi);
      }
    }
    if StepIsRight(l, ty, hi, lo, hi) {
      EndNeedsRoom(l, ty, hi, lo, hi);
    }
    assert InBox(hi, lo, hi);
  }

  // ---------------------------------------------------------------------------
  // Runs
  // ---------------------------------------------------------------------------

  /** The coordinates after k steps from the lowest corner. */
  ghost function NthIn(l: Layout, ty: IntType, lo: seq<int>, hi: seq<int>, k: nat): (c: seq<int>)
    requires |lo| == |hi| > 0
    ensures |c| == |lo|
  {
    if k == 0 then lo else StepIn(l, ty, NthIn(l, ty, lo, hi, k - 1), lo, hi).0
  }

  /** Whether the step after k steps reports a further cell. */
  ghost predicate Reports(l: Layout, ty: IntType, lo: seq<int>, hi: seq<int>, k: nat)
    requires |lo| == |hi| > 0
  {
    StepIn(l, ty, NthIn(l, ty, lo, hi, k), lo, hi).1
  }

  lemma {:induction false} NthInIsNth(l: Layout, ty: IntType, lo: seq<int>, hi: seq<int>, k: nat)
    requires BoxOf(ty, lo, hi) && RoomAbove(ty, hi) && k < Cells(lo, hi)
    ensures NthIn(l, ty, lo, hi, k) == Nth(l, lo, hi, k)
  {
    if k > 0 {
      NthInIsNth(l, ty, lo, hi, k - 1);
      var c := Nth(l, lo, hi, k - 1);
      assert InBox(c, lo, hi) by {
        Visits(l, lo, hi, k - 1);
      }
      assert StepIn(l, ty, c, lo, hi).0 == Nth(l, lo, hi, k) by {
        StepRight(l, ty, c, lo, hi);
      }
    }
  }

  /** Steps visit the cells in the order of their positions, and a further cell is reported until the last one
      has been visited. */
  lemma VisitsIn(l: Layout, ty: IntType, lo: seq<int>, hi: seq<int>, k: nat)
    requires BoxOf(ty, lo, hi) && RoomAbove(ty, hi) && k < Cells(lo, hi)
    ensures InBox(NthIn(l, ty, lo, hi, k), lo, hi) && Pos(l, NthIn(l, ty, lo, hi, k), lo, hi) == k
    ensures Reports(l, ty, lo, hi, k) <==> k + 1 < Cells(lo, hi)
  {
    NthInIsNth(l, ty, lo, hi, k);
    Visits(l, lo, hi, k);
    StepRight(l, ty, Nth(l, lo, hi, k), lo, hi);
  }

  /** Every cell is reached after as many steps as its position says, and after no other number below the
      number of cells. */
  lemma VisitsEachOnceIn(l: Layout, ty: IntType, c: seq<int>, lo: seq<int>, hi: seq<int>, k: nat)
    requires BoxOf(ty, lo, hi) && RoomAbove(ty, hi) && InBox(c, lo, hi) && k < Cells(lo, hi)
    ensures NthIn(l, ty, lo, hi, k) == c <==> k == Pos(l, c, lo, hi)
  {
    NthInIsNth(l, ty, lo, hi, k);
    VisitsEachOnce(l, c, lo, hi, k);
  }

  /** A run from the lowest corner ever reports the end exactly when no upper bound is the greatest value of
      the type; otherwise it goes on for ever. */
  lemma EndIsReportedIff(l: Layout, ty: IntType, lo: seq<int>, hi: seq<int>)
    requires BoxOf(ty, lo, hi)
    ensures (exists k: nat :: !Reports(l, ty, lo, hi, k)) <==> RoomAbove(ty, hi)
  {
    if RoomAbove(ty, hi) {
      var last := LastStep(l, ty, lo, hi);
    }
    if k: nat :| !Reports(l, ty, lo, hi, k) {
      EndNeedsRoom(l, ty, NthIn(l, ty, lo, hi, k), lo, hi);
    }
  }

  lemma LastStep(l: Layout, ty: IntType, lo: seq<int>, hi: seq<int>) returns (k: nat)
    requires BoxOf(ty, lo, hi) && RoomAbove(ty, hi)
    ensures !Reports(l, ty, lo, hi, k)
  {
    LowCorner(lo, hi);
    PosBound(l, lo, lo, hi);
    k := Cells(lo, hi) - 1;
    VisitsIn(l, ty, lo, hi, k);
  }

  /** The last cell of a box that fills an 8-bit type: the step goes back to the first one and reports it. */
  lemma WrapExample()
    ensures StepIn(RowMajor, UINT8, [255], [0], [255]) == ([0], true)
  {
    assert Inc(UINT8, 255) == 0;
    RowStop(UINT8, [255], [0], [255], 0);
    assert [255][..0] + [0] + [0][1..] == [0];
  }

  /** In a dimension before another one there is no carry. */
  lemma NoCarryExample()
    ensures StepIn(ColMajor, UINT8, [255, 0], [0, 0], [255, 9]) == ([0, 0], true)
  {
    assert Inc(UINT8, 255) == 0;
    ColStop(UINT8, [255, 0], [0, 0], [255, 9], 0);
    assert [0, 0][..0] + [0] + [255, 0][1..] == [0, 0];
  }
}
