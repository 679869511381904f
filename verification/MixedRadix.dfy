/** Numbering the places of an N-dimensional grid. Dimension d has n[d] places; row-major order
    counts the last dimension fastest, column-major order the first. */
module MixedRadix {
  import opened Transposition

  ghost predicate Within(v: seq<nat>, n: seq<nat>) {
    |v| == |n| && forall d :: 0 <= d < |n| ==> v[d] < n[d]
  }

  /** The number of places. */
  ghost function Prod(n: seq<nat>): nat {
    if n == [] then 1 else Prod(n[..|n| - 1]) * n[|n| - 1]
  }

  ghost function Row(v: seq<nat>, n: seq<nat>): nat
    requires |v| == |n|
  {
    if v == [] then 0 else
      var m := |v| - 1;
      Idx(Row(v[..m], n[..m]), n[m], v[m])
  }

  ghost function Col(v: seq<nat>, n: seq<nat>): nat
    requires |v| == |n|
  {
    if v == [] then 0 else
      var m := |v| - 1;
      Idx(v[m], Prod(n[..m]), Col(v[..m], n[..m]))
  }

  lemma {:induction false} RowBound(v: seq<nat>, n: seq<nat>)
    requires Within(v, n)
    ensures Row(v, n) < Prod(n)
  {
    if v != [] {
      var m := |v| - 1;
      RowBound(v[..m], n[..m]);
      IdxBound(Row(v[..m], n[..m]), Prod(n[..m]), n[m], v[m]);
    }
  }

  lemma {:induction false} ColBound(v: seq<nat>, n: seq<nat>)
    requires Within(v, n)
    ensures Col(v, n) < Prod(n)
  {
    if v != [] {
      var m := |v| - 1;
      ColBound(v[..m], n[..m]);
      IdxBound(v[m], n[m], Prod(n[..m]), Col(v[..m], n[..m]));
      assert n[m] * Prod(n[..m]) == Prod(n[..m]) * n[m];
    }
  }

  // ---------------------------------------------------------------------------
  // Numbering agrees with lexicographic order
  // ---------------------------------------------------------------------------

  /** -1, 0 or 1, as a three-way comparison reports it. */
  function Cmp(x: int, y: int): int {
    if x < y then -1 else if x > y then 1 else 0
  }

  /** The first dimension that differs decides. */
  ghost function LexFirst(a: seq<int>, b: seq<int>): int
    requires |a| == |b|
  {
    if a == [] then 0 else
      var m := |a| - 1;
      var c := LexFirst(a[..m], b[..m]);
      if c != 0 then c else Cmp(a[m], b[m])
  }

  /** The last dimension that differs decides. */
  ghost function LexLast(a: seq<int>, b: seq<int>): int
    requires |a| == |b|
  {
    if a == [] then 0 else
      var m := |a| - 1;
      if Cmp(a[m], b[m]) != 0 then Cmp(a[m], b[m]) else LexLast(a[..m], b[..m])
  }

  lemma {:induction false} IdxOrder(i: nat, i': nat, n: nat, j: nat, j': nat)
    requires j < n && j' < n
    ensures Cmp(Idx(i, n, j), Idx(i', n, j')) == if i != i' then Cmp(i, i') else Cmp(j, j')
    decreases i + i'
  {
    if i > 0 && i' > 0 {
      IdxOrder(i - 1, i' - 1, n, j, j');
    }
  }

  lemma {:induction false} RowOrder(a: seq<nat>, b: seq<nat>, n: seq<nat>)
    requires Within(a, n) && Within(b, n)
    ensures Cmp(Row(a, n), Row(b, n)) == LexFirst(a, b)
  {
    if a != [] {
      var m := |a| - 1;
      RowOrder(a[..m], b[..m], n[..m]);
      IdxOrder(Row(a[..m], n[..m]), Row(b[..m], n[..m]), n[m], a[m], b[m]);
    }
  }

  lemma {:induction false} ColOrder(a: seq<nat>, b: seq<nat>, n: seq<nat>)
    requires Within(a, n) && Within(b, n)
    ensures Cmp(Col(a, n), Col(b, n)) == LexLast(a, b)
  {
    if a != [] {
      var m := |a| - 1;
      ColOrder(a[..m], b[..m], n[..m]);
      ColBound(a[..m], n[..m]);
      ColBound(b[..m], n[..m]);
      IdxOrder(a[m], b[m], Prod(n[..m]), Col(a[..m], n[..m]), Col(b[..m], n[..m]));
    }
  }

  lemma {:induction false} LexZero(a: seq<int>, b: seq<int>)
    requires |a| == |b|
    ensures (LexFirst(a, b) == 0 <==> a == b) && (LexLast(a, b) == 0 <==> a == b)
  {
    if a != [] {
      var m := |a| - 1;
      LexZero(a[..m], b[..m]);
      assert a == a[..m] + [a[m]] && b == b[..m] + [b[m]];
    }
  }

  /** No two places have the same number. */
  lemma Injective(a: seq<nat>, b: seq<nat>, n: seq<nat>)
    requires Within(a, n) && Within(b, n)
    ensures Row(a, n) == Row(b, n) ==> a == b
    ensures Col(a, n) == Col(b, n) ==> a == b
  {
    RowOrder(a, b, n);
    ColOrder(a, b, n);
    LexZero(a, b);
  }

  // ---------------------------------------------------------------------------
  // Every number is taken
  // ---------------------------------------------------------------------------

  lemma {:induction false} RowOnto(p: nat, n: seq<nat>) returns (v: seq<nat>)
    requires p < Prod(n)
    ensures Within(v, n) && Row(v, n) == p
    decreases |n|
  {
    if n == [] {
      v := [];
    } else {
      var m := |n| - 1;
      IdxSplit(p, Prod(n[..m]), n[m]);
      var u := RowOnto(RowOf(p, n[m]), n[..m]);
      v := u + [ColOf(p, n[m])];
      assert v[..m] == u;
    }
  }

  lemma {:induction false} ColOnto(p: nat, n: seq<nat>) returns (v: seq<nat>)
    requires p < Prod(n)
    ensures Within(v, n) && Col(v, n) == p
    decreases |n|
  {
    if n == [] {
      v := [];
    } else {
      var m := |n| - 1;
      assert n[m] * Prod(n[..m]) == Prod(n[..m]) * n[m];
      IdxSplit(p, n[m], Prod(n[..m]));
      var u := ColOnto(ColOf(p, Prod(n[..m])), n[..m]);
      v := u + [RowOf(p, Prod(n[..m]))];
      assert v[..m] == u;
    }
  }
}
