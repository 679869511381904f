/** Transposition of matrices stored row by row in a flat sequence: the meaning of all
    byte-moving passes of bitshuffle and of the Blosc shuffle. */
module Transposition {

  /** The place of column j of row i when rows are n long: i * n + j. */
  function Idx(i: nat, n: nat, j: nat): nat {
    if i == 0 then j else n + Idx(i - 1, n, j)
  }

  lemma {:induction false} IdxIs(i: nat, n: nat, j: nat)
    ensures Idx(i, n, j) == i * n + j
  {
    if i > 0 {
      IdxIs(i - 1, n, j);
      assert i * n == (i - 1) * n + n;
    }
  }

  lemma {:induction false} IdxShift(i: nat, n: nat, j: nat, d: nat)
    ensures Idx(i, n, j + d) == Idx(i, n, j) + d
  {
    if i > 0 {
      IdxShift(i - 1, n, j, d);
    }
  }

  /** The row of a place: p / n. */
  function RowOf(p: nat, n: nat): nat {
    if n == 0 || p < n then 0 else 1 + RowOf(p - n, n)
  }

  /** The column of a place: p % n. */
  ghost function ColOf(p: nat, n: nat): (j: nat)
    ensures n > 0 ==> j < n
  {
    if n == 0 || p < n then p else ColOf(p - n, n)
  }

  lemma IdxBound(i: nat, m: nat, n: nat, j: nat)
    requires i < m && j < n
    ensures Idx(i, n, j) < m * n
  {
    IdxIs(i, n, j);
    RowStep(i, m, n);
  }

  lemma {:induction false} IdxAdd(a: nat, b: nat, n: nat, j: nat)
    ensures Idx(a + b, n, j) == Idx(a, n, 0) + Idx(b, n, j)
  {
    if a > 0 {
      IdxAdd(a - 1, b, n, j);
    }
  }

  /** A matrix of matrices, regrouped. */
  lemma {:induction false} IdxNest(i: nat, m: nat, j: nat, n: nat, k: nat)
    ensures Idx(Idx(i, m, j), n, k) == Idx(i, m * n, Idx(j, n, k))
  {
    if i > 0 {
      IdxNest(i - 1, m, j, n, k);
      IdxAdd(m, Idx(i - 1, m, j), n, k);
      IdxIs(m, n, 0);
    }
  }

  lemma {:induction false} RowStep(a: nat, b: nat, n: nat)
    ensures a < b ==> a * n + n <= b * n
    decreases b
  {
    if a < b {
      assert b * n == (b - 1) * n + n;
      RowStep(a, b - 1, n);
    }
  }

  lemma {:induction false} IdxParts(i: nat, n: nat, j: nat)
    requires j < n
    ensures RowOf(Idx(i, n, j), n) == i && ColOf(Idx(i, n, j), n) == j
  {
    if i > 0 {
      IdxParts(i - 1, n, j);
    }
  }

  lemma DivParts(q: nat, n: nat, r: nat)
    requires r < n
    ensures (q * n + r) / n == q && (q * n + r) % n == r
  {
    var d, m := (q * n + r) / n, (q * n + r) % n;
    assert d * n + m == q * n + r;
    RowStep(d, q, n);
    RowStep(q, d, n);
  }

  /** A place, from its row and its column. */
  lemma {:induction false} Reassembled(p: nat, n: nat)
    requires n > 0
    ensures Idx(RowOf(p, n), n, ColOf(p, n)) == p
  {
    if p >= n {
      Reassembled(p - n, n);
    }
  }

  lemma Quotient(p: nat, n: nat)
    requires n > 0
    ensures p / n == RowOf(p, n) && p % n == ColOf(p, n) && p == RowOf(p, n) * n + ColOf(p, n)
  {
    Reassembled(p, n);
    IdxIs(RowOf(p, n), n, ColOf(p, n));
    DivParts(RowOf(p, n), n, ColOf(p, n));
  }

  lemma {:induction false} RowOfMonotone(p: nat, q: nat, e: nat)
    requires p <= q && e > 0
    ensures RowOf(p, e) <= RowOf(q, e)
  {
    if p >= e {
      RowOfMonotone(p - e, q - e, e);
    }
  }

  lemma {:induction false} RowOfAtMost(p: nat, e: nat)
    requires e > 0
    ensures RowOf(p, e) <= p
  {
    if p >= e {
      RowOfAtMost(p - e, e);
    }
  }

  /** Every place below m * n is column j of one row i below m. */
  lemma {:induction false} IdxSplit(p: nat, m: nat, n: nat)
    requires p < m * n
    ensures RowOf(p, n) < m && ColOf(p, n) < n && Idx(RowOf(p, n), n, ColOf(p, n)) == p
  {
    assert n == 0 ==> m * n == 0;
    assert m == 0 ==> m * n == 0;
    if p >= n {
      assert (m - 1) * n == m * n - n;
      IdxSplit(p - n, m - 1, n);
      assert Idx(RowOf(p, n), n, ColOf(p, n)) == Idx(RowOf(p - n, n), n, ColOf(p - n, n)) + n;
    }
  }

  /** A sequence of rows * cols items, seen as rows, rearranged as columns. */
  ghost function Transposed<T>(s: seq<T>, rows: nat, cols: nat): (t: seq<T>)
    requires |s| == rows * cols
    ensures |t| == |s|
  {
    seq(rows * cols, p requires 0 <= p < rows * cols =>
      assert cols * rows == rows * cols;
      IdxSplit(p, cols, rows);
      IdxBound(ColOf(p, rows), rows, cols, RowOf(p, rows));
      s[Idx(ColOf(p, rows), cols, RowOf(p, rows))])
  }

  lemma TransposedAt<T>(s: seq<T>, rows: nat, cols: nat, i: nat, j: nat)
    requires |s| == rows * cols && i < rows && j < cols
    ensures Idx(j, rows, i) < rows * cols && Idx(i, cols, j) < rows * cols
    ensures Transposed(s, rows, cols)[Idx(j, rows, i)] == s[Idx(i, cols, j)]
  {
    assert cols * rows == rows * cols;
    IdxBound(j, cols, rows, i);
    IdxBound(i, rows, cols, j);
    IdxParts(j, rows, i);
  }

  /** Transposing back. */
  lemma TransposedTwice<T>(s: seq<T>, rows: nat, cols: nat)
    requires |s| == rows * cols
    ensures rows * cols == cols * rows
    ensures Transposed(Transposed(s, rows, cols), cols, rows) == s
  {
    assert rows * cols == cols * rows;
    var t := Transposed(s, rows, cols);
    forall p: nat | p < |s|
      ensures Transposed(t, cols, rows)[p] == s[p]
    {
      IdxSplit(p, rows, cols);
      TransposedAt(s, rows, cols, RowOf(p, cols), ColOf(p, cols));
      TransposedAt(t, cols, rows, ColOf(p, cols), RowOf(p, cols));
    }
  }
}
