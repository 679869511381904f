/** Boxes of cells: the position of a cell in a box, and stepping from each cell to the next one
    in place. A box has lowest corner lo and highest corner hi. */
module CellBox {
  import opened Transposition
  import opened MixedRadix

  ghost predicate Box(lo: seq<int>, hi: seq<int>) {
    |lo| == |hi| > 0 && forall d :: 0 <= d < |lo| ==> lo[d] <= hi[d]
  }

  ghost predicate InBox(c: seq<int>, lo: seq<int>, hi: seq<int>) {
    |c| == |lo| == |hi| && forall d :: 0 <= d < |lo| ==> lo[d] <= c[d] <= hi[d]
  }

  /** The number of cells along each dimension. */
  ghost function Sizes(lo: seq<int>, hi: seq<int>): (n: seq<nat>)
    requires |lo| == |hi| && forall d :: 0 <= d < |lo| ==> lo[d] <= hi[d]
    ensures |n| == |lo|
  {
    seq(|lo|, d requires 0 <= d < |lo| => hi[d] - lo[d] + 1)
  }

  /** Coordinates relative to the lowest corner. */
  ghost function Rel(c: seq<int>, lo: seq<int>): (v: seq<nat>)
    requires |c| == |lo| && forall d :: 0 <= d < |lo| ==> lo[d] <= c[d]
    ensures |v| == |c|
  {
    seq(|c|, d requires 0 <= d < |c| => c[d] - lo[d])
  }

  lemma RelWithin(c: seq<int>, lo: seq<int>, hi: seq<int>)
    requires InBox(c, lo, hi)
    ensures Within(Rel(c, lo), Sizes(lo, hi))
  {
  }

  lemma Prefixes(c: seq<int>, lo: seq<int>, hi: seq<int>)
    requires InBox(c, lo, hi) && |c| > 0
    ensures var m := |c| - 1;
            && InBox(c[..m], lo[..m], hi[..m])
            && Sizes(lo, hi)[..m] == Sizes(lo[..m], hi[..m]) && Rel(c, lo)[..m] == Rel(c[..m], lo[..m])
  {
  }

  // ---------------------------------------------------------------------------
  // The next cell
  // ---------------------------------------------------------------------------

  /** Whether a cell of the box comes after c. */
  ghost predicate More(c: seq<int>, hi: seq<int>)
    requires |c| == |hi|
  {
    exists d :: 0 <= d < |c| && c[d] < hi[d]
  }

  /** The next cell in row-major order; after the last one, the first coordinate is one too high. */
  ghost function RowNext(c: seq<int>, lo: seq<int>, hi: seq<int>): (r: seq<int>)
    requires |c| == |lo| == |hi| > 0
    ensures |r| == |c|
    decreases |c|
  {
    var m := |c| - 1;
    if m > 0 && c[m] >= hi[m] then RowNext(c[..m], lo[..m], hi[..m]) + [lo[m]] else c[..m] + [c[m] + 1]
  }

  /** The next cell in column-major order; after the last one, the last coordinate is one too high. */
  ghost function ColNext(c: seq<int>, lo: seq<int>, hi: seq<int>): (r: seq<int>)
    requires |c| == |lo| == |hi| > 0
    ensures |r| == |c|
    decreases |c|
  {
    var m := |c| - 1;
    if m > 0 && More(c[..m], hi[..m]) then ColNext(c[..m], lo[..m], hi[..m]) + [c[m]] else lo[..m] + [c[m] + 1]
  }

  lemma MorePrefix(c: seq<int>, hi: seq<int>)
    requires |c| == |hi| > 0
    ensures var m := |c| - 1; More(c, hi) <==> More(c[..m], hi[..m]) || c[m] < hi[m]
  {
    var m := |c| - 1;
    if d :| 0 <= d < |c| && c[d] < hi[d] {
      if d < m {
        assert c[..m][d] < hi[..m][d];
      }
    }
    if e :| 0 <= e < m && c[..m][e] < hi[..m][e] {
      assert c[e] < hi[e];
    }
  }

  /** The last cell has the highest number. */
  lemma {:induction false} LastCell(c: seq<int>, lo: seq<int>, hi: seq<int>)
    requires InBox(c, lo, hi)
    ensures More(c, hi) <==> Row(Rel(c, lo), Sizes(lo, hi)) + 1 < Prod(Sizes(lo, hi))
    ensures More(c, hi) <==> Col(Rel(c, lo), Sizes(lo, hi)) + 1 < Prod(Sizes(lo, hi))
    decreases |c|
  {
    if c != [] {
      var m := |c| - 1;
      Prefixes(c, lo, hi);
      MorePrefix(c, hi);
      LastCell(c[..m], lo[..m], hi[..m]);
      var v, n := Rel(c, lo), Sizes(lo, hi);
      RelWithin(c[..m], lo[..m], hi[..m]);
      RowBound(v[..m], n[..m]);
      ColBound(v[..m], n[..m]);
      IdxLast(Row(v[..m], n[..m]), Prod(n[..m]), n[m], v[m]);
      IdxLast(v[m], n[m], Prod(n[..m]), Col(v[..m], n[..m]));
      assert n[m] * Prod(n[..m]) == Prod(n[..m]) * n[m];
    }
  }

  lemma IdxLast(i: nat, m: nat, n: nat, j: nat)
    requires i < m && j < n
    ensures Idx(i, n, j) + 1 < m * n <==> i + 1 < m || j + 1 < n
  {
    IdxIs(i, n, j);
    RowStep(i, m, n);
    RowStep(i + 1, m, n);
    if i + 1 == m {
      assert m * n == i * n + n;
    }
  }

  /** The row-major position of a cell in a box. */
  ghost function RowPos(c: seq<int>, lo: seq<int>, hi: seq<int>): nat
    requires InBox(c, lo, hi)
  {
    Row(Rel(c, lo), Sizes(lo, hi))
  }

  /** The column-major position of a cell in a box. */
  ghost function ColPos(c: seq<int>, lo: seq<int>, hi: seq<int>): nat
    requires InBox(c, lo, hi)
  {
    Col(Rel(c, lo), Sizes(lo, hi))
  }

  /** The number of cells in a box. */
  ghost function Cells(lo: seq<int>, hi: seq<int>): nat
    requires |lo| == |hi| && forall d :: 0 <= d < |lo| ==> lo[d] <= hi[d]
  {
    Prod(Sizes(lo, hi))
  }

  /** The last dimension, apart from the others. */
  lemma SplitPos(c: seq<int>, lo: seq<int>, hi: seq<int>, m: nat)
    requires InBox(c, lo, hi) && |c| == m + 1
    ensures InBox(c[..m], lo[..m], hi[..m])
    ensures RowPos(c, lo, hi) == Idx(RowPos(c[..m], lo[..m], hi[..m]), hi[m] - lo[m] + 1, c[m] - lo[m])
    ensures ColPos(c, lo, hi) == Idx(c[m] - lo[m], Cells(lo[..m], hi[..m]), ColPos(c[..m], lo[..m], hi[..m]))
  {
    Prefixes(c, lo, hi);
  }

  lemma {:induction false} RowNextInBox(c: seq<int>, lo: seq<int>, hi: seq<int>)
    requires InBox(c, lo, hi) && More(c, hi)
    ensures InBox(RowNext(c, lo, hi), lo, hi)
    decreases |c|
  {
    var m := |c| - 1;
    MorePrefix(c, hi);
    if m > 0 && c[m] >= hi[m] {
      RowNextInBox(c[..m], lo[..m], hi[..m]);
    }
  }

  lemma {:induction false} ColNextInBox(c: seq<int>, lo: seq<int>, hi: seq<int>)
    requires InBox(c, lo, hi) && More(c, hi)
    ensures InBox(ColNext(c, lo, hi), lo, hi)
    decreases |c|
  {
    var m := |c| - 1;
    MorePrefix(c, hi);
    if m > 0 && More(c[..m], hi[..m]) {
      ColNextInBox(c[..m], lo[..m], hi[..m]);
    }
  }

  lemma IdxCarry(i: nat, n: nat)
    requires n > 0
    ensures Idx(i, n, n - 1) + 1 == Idx(i + 1, n, 0)
  {
    IdxShift(i, n, 0, n - 1);
  }

  /** The last coordinate goes on, the others stay. */
  lemma RowOn(c: seq<int>, r: seq<int>, lo: seq<int>, hi: seq<int>, m: nat)
    requires InBox(c, lo, hi) && InBox(r, lo, hi) && |c| == m + 1 && r[m] == c[m] + 1 && r[..m] == c[..m]
    ensures RowPos(r, lo, hi) == RowPos(c, lo, hi) + 1
  {
    SplitPos(c, lo, hi, m);
    SplitPos(r, lo, hi, m);
    IdxShift(RowPos(c[..m], lo[..m], hi[..m]), hi[m] - lo[m] + 1, c[m] - lo[m], 1);
  }

  /** The last coordinate starts again, the others go on. */
  lemma RowAgain(c: seq<int>, r: seq<int>, lo: seq<int>, hi: seq<int>, m: nat)
    requires InBox(c, lo, hi) && InBox(r, lo, hi) && |c| == m + 1 && c[m] == hi[m] && r[m] == lo[m]
    requires RowPos(r[..m], lo[..m], hi[..m]) == RowPos(c[..m], lo[..m], hi[..m]) + 1
    ensures RowPos(r, lo, hi) == RowPos(c, lo, hi) + 1
  {
    SplitPos(c, lo, hi, m);
    SplitPos(r, lo, hi, m);
    IdxCarry(RowPos(c[..m], lo[..m], hi[..m]), hi[m] - lo[m] + 1);
  }

  /** Stepping in row-major order raises the position by one. */
  lemma {:induction false} RowNextIsNext(c: seq<int>, lo: seq<int>, hi: seq<int>)
    requires InBox(c, lo, hi) && More(c, hi) && InBox(RowNext(c, lo, hi), lo, hi)
    ensures RowPos(RowNext(c, lo, hi), lo, hi) == RowPos(c, lo, hi) + 1
    decreases |c|
  {
    var m, r := |c| - 1, RowNext(c, lo, hi);
    MorePrefix(c, hi);
    if m > 0 && c[m] >= hi[m] {
      assert r[..m] == RowNext(c[..m], lo[..m], hi[..m]);
      RowNextIsNext(c[..m], lo[..m], hi[..m]);
      RowAgain(c, r, lo, hi, m);
    } else {
      assert r[..m] == c[..m];
      RowOn(c, r, lo, hi, m);
    }
  }

  /** The first coordinates go on, the last one stays. */
  lemma ColOn(c: seq<int>, r: seq<int>, lo: seq<int>, hi: seq<int>, m: nat)
    requires InBox(c, lo, hi) && InBox(r, lo, hi) && |c| == m + 1 && r[m] == c[m]
    requires ColPos(r[..m], lo[..m], hi[..m]) == ColPos(c[..m], lo[..m], hi[..m]) + 1
    ensures ColPos(r, lo, hi) == ColPos(c, lo, hi) + 1
  {
    SplitPos(c, lo, hi, m);
    SplitPos(r, lo, hi, m);
    IdxShift(c[m] - lo[m], Cells(lo[..m], hi[..m]), ColPos(c[..m], lo[..m], hi[..m]), 1);
  }

  /** The first coordinates start again, the last one goes on. */
  lemma ColAgain(c: seq<int>, r: seq<int>, lo: seq<int>, hi: seq<int>, m: nat)
    requires InBox(c, lo, hi) && InBox(r, lo, hi) && |c| == m + 1 && r[m] == c[m] + 1
    requires r[..m] == lo[..m] && !More(c[..m], hi[..m])
    ensures ColPos(r, lo, hi) == ColPos(c, lo, hi) + 1
  {
    SplitPos(c, lo, hi, m);
    SplitPos(r, lo, hi, m);
    LowCorner(lo[..m], hi[..m]);
    LastIsLast(c[..m], lo[..m], hi[..m]);
    IdxCarry(c[m] - lo[m], Cells(lo[..m], hi[..m]));
  }

  /** Stepping in column-major order raises the position by one. */
  lemma {:induction false} ColNextIsNext(c: seq<int>, lo: seq<int>, hi: seq<int>)
    requires InBox(c, lo, hi) && More(c, hi) && InBox(ColNext(c, lo, hi), lo, hi)
    ensures ColPos(ColNext(c, lo, hi), lo, hi) == ColPos(c, lo, hi) + 1
    decreases |c|
  {
    var m, r := |c| - 1, ColNext(c, lo, hi);
    if m > 0 && More(c[..m], hi[..m]) {
      assert r[..m] == ColNext(c[..m], lo[..m], hi[..m]);
      ColNextIsNext(c[..m], lo[..m], hi[..m]);
      ColOn(c, r, lo, hi, m);
    } else {
      assert r[..m] == lo[..m];
      ColAgain(c, r, lo, hi, m);
    }
  }

  /** The cell after which there is none has the highest number. */
  lemma LastIsLast(c: seq<int>, lo: seq<int>, hi: seq<int>)
    requires InBox(c, lo, hi) && !More(c, hi)
    ensures RowPos(c, lo, hi) + 1 == Cells(lo, hi) && ColPos(c, lo, hi) + 1 == Cells(lo, hi)
  {
    LastCell(c, lo, hi);
    RelWithin(c, lo, hi);
    RowBound(Rel(c, lo), Sizes(lo, hi));
    ColBound(Rel(c, lo), Sizes(lo, hi));
  }

  /** The lowest corner has number 0. */
  lemma {:induction false} LowCorner(lo: seq<int>, hi: seq<int>)
    requires |lo| == |hi| && forall d :: 0 <= d < |lo| ==> lo[d] <= hi[d]
    ensures InBox(lo, lo, hi) && RowPos(lo, lo, hi) == 0 && ColPos(lo, lo, hi) == 0
    decreases |lo|
  {
    if lo != [] {
      var m := |lo| - 1;
      LowCorner(lo[..m], hi[..m]);
      SplitPos(lo, lo, hi, m);
    }
  }

  // ---------------------------------------------------------------------------
  // Enumeration
  // ---------------------------------------------------------------------------

  datatype Layout = RowMajor | ColMajor

  ghost function Next(l: Layout, c: seq<int>, lo: seq<int>, hi: seq<int>): (r: seq<int>)
    requires |c| == |lo| == |hi| > 0
    ensures |r| == |c|
  {
    if l == RowMajor then RowNext(c, lo, hi) else ColNext(c, lo, hi)
  }

  ghost function Pos(l: Layout, c: seq<int>, lo: seq<int>, hi: seq<int>): nat
    requires InBox(c, lo, hi)
  {
    if l == RowMajor then RowPos(c, lo, hi) else ColPos(c, lo, hi)
  }

  /** The cell reached from the lowest corner in k steps. */
  ghost function Nth(l: Layout, lo: seq<int>, hi: seq<int>, k: nat): (c: seq<int>)
    requires |lo| == |hi| > 0
    ensures |c| == |lo|
  {
    if k == 0 then lo else Next(l, Nth(l, lo, hi, k - 1), lo, hi)
  }

  /** A step from c: to the cell with the next number, unless c is the last cell. */
  lemma StepFrom(l: Layout, c: seq<int>, lo: seq<int>, hi: seq<int>)
    requires Box(lo, hi) && InBox(c, lo, hi)
    ensures More(c, hi) <==> Pos(l, c, lo, hi) + 1 < Cells(lo, hi)
    ensures More(c, hi) ==>
              InBox(Next(l, c, lo, hi), lo, hi) && Pos(l, Next(l, c, lo, hi), lo, hi) == Pos(l, c, lo, hi) + 1
  {
    LastCell(c, lo, hi);
    if More(c, hi) {
      RowNextInBox(c, lo, hi);
      ColNextInBox(c, lo, hi);
      RowNextIsNext(c, lo, hi);
      ColNextIsNext(c, lo, hi);
    }
  }

  /** Steps from the lowest corner visit the cells in the order of their numbers, and a further cell is
      reported until the last one has been visited. */
  lemma {:induction false} Visits(l: Layout, lo: seq<int>, hi: seq<int>, k: nat)
    requires Box(lo, hi) && k < Cells(lo, hi)
    ensures InBox(Nth(l, lo, hi, k), lo, hi) && Pos(l, Nth(l, lo, hi, k), lo, hi) == k
    ensures More(Nth(l, lo, hi, k), hi) <==> k + 1 < Cells(lo, hi)
  {
    if k == 0 {
      LowCorner(lo, hi);
    } else {
      Visits(l, lo, hi, k - 1);
    }
    if k > 0 {
      StepFrom(l, Nth(l, lo, hi, k - 1), lo, hi);
    }
    StepFrom(l, Nth(l, lo, hi, k), lo, hi);
  }

  /** Two cells with the same number are the same. */
  lemma PosInjective(l: Layout, a: seq<int>, b: seq<int>, lo: seq<int>, hi: seq<int>)
    requires InBox(a, lo, hi) && InBox(b, lo, hi) && Pos(l, a, lo, hi) == Pos(l, b, lo, hi)
    ensures a == b
  {
    RelWithin(a, lo, hi);
    RelWithin(b, lo, hi);
    Injective(Rel(a, lo), Rel(b, lo), Sizes(lo, hi));
    forall d | 0 <= d < |a|
      ensures a[d] == b[d]
    {
      assert Rel(a, lo)[d] == Rel(b, lo)[d];
    }
  }

  lemma PosBound(l: Layout, c: seq<int>, lo: seq<int>, hi: seq<int>)
    requires InBox(c, lo, hi)
    ensures Pos(l, c, lo, hi) < Cells(lo, hi)
  {
    RelWithin(c, lo, hi);
    RowBound(Rel(c, lo), Sizes(lo, hi));
    ColBound(Rel(c, lo), Sizes(lo, hi));
  }

  /** Every cell is visited, and only once. */
  lemma VisitsEachOnce(l: Layout, c: seq<int>, lo: seq<int>, hi: seq<int>, k: nat)
    requires Box(lo, hi) && InBox(c, lo, hi) && k < Cells(lo, hi)
    ensures Nth(l, lo, hi, k) == c <==> k == Pos(l, c, lo, hi)
  {
    PosBound(l, c, lo, hi);
    Visits(l, lo, hi, k);
    if k == Pos(l, c, lo, hi) {
      PosInjective(l, Nth(l, lo, hi, k), c, lo, hi);
    }
  }
}
