/** Positions as sums of digits times offsets: the offset of a dimension is how far apart the positions
    of two neighbours along it are. */
module Offsets {
  import opened Transposition
  import opened MixedRadix
  import opened CellBox
  import opened CellPositions
  import opened DomainGrid

  /** The offset of dimension d. */
  ghost function Offset(l: Layout, n: seq<nat>, d: nat): nat
    requires d < |n|
  {
    if l == RowMajor then From(n, d + 1) else Prod(n[..d])
  }

  ghost predicate AreOffsets(l: Layout, n: seq<nat>, o: seq<int>) {
    |o| == |n| && forall d :: 0 <= d < |n| ==> o[d] == Offset(l, n, d)
  }

  ghost function Dot(v: seq<int>, o: seq<int>): int
    requires |v| == |o|
  {
    if v == [] then 0 else var m := |v| - 1; Dot(v[..m], o[..m]) + v[m] * o[m]
  }

  lemma DotTake(v: seq<int>, o: seq<int>, d: nat)
    requires |v| == |o| && d < |v|
    ensures Dot(v[..d + 1], o[..d + 1]) == Dot(v[..d], o[..d]) + v[d] * o[d]
  {
    assert v[..d + 1][..d] == v[..d] && o[..d + 1][..d] == o[..d];
  }

  lemma {:induction false} DotPrefix(l: Layout, v: seq<nat>, n: seq<nat>, o: seq<int>, d: nat)
    requires |v| == |n| && AreOffsets(l, n, o) && d <= |n|
    ensures Dot(v[..d], o[..d]) == if l == RowMajor then Row(v[..d], n[..d]) * From(n, d) else Col(v[..d], n[..d])
  {
    if d > 0 {
      var k := d - 1;
      DotPrefix(l, v, n, o, k);
      DotTake(v, o, k);
      assert o[k] == Offset(l, n, k);
      if l == RowMajor {
        RowTake(v, n, k);
        RowSum(Row(v[..k], n[..k]), n[k], v[k], From(n, d));
      } else {
        ColTake(v, n, k);
      }
    }
  }

  /** With the offsets of the layout, the sum is the number. */
  lemma DotIsNumber(l: Layout, v: seq<nat>, n: seq<nat>, o: seq<int>)
    requires |v| == |n| && AreOffsets(l, n, o)
    ensures Dot(v, o) == Number(l, v, n)
  {
    DotPrefix(l, v, n, o, |n|);
    assert v[..|n|] == v && o[..|n|] == o && n[..|n|] == n;
  }

  // ---------------------------------------------------------------------------
  // Units
  // ---------------------------------------------------------------------------

  /** The digits with x at d and 0 elsewhere. */
  ghost function Unit(k: nat, d: nat, x: nat): (v: seq<nat>)
    ensures |v| == k
  {
    seq(k, i => if i == d then x else 0)
  }

  lemma {:induction false} DotZeros(v: seq<int>, o: seq<int>)
    requires |v| == |o| && forall d :: 0 <= d < |v| ==> v[d] == 0
    ensures Dot(v, o) == 0
  {
    if v != [] {
      DotZeros(v[..|v| - 1], o[..|v| - 1]);
    }
  }

  lemma {:induction false} DotUnit(k: nat, d: nat, x: nat, o: seq<int>)
    requires |o| == k && d < k
    ensures Dot(Unit(k, d, x), o) == x * o[d]
  {
    var m, v := k - 1, Unit(k, d, x);
    if d < m {
      assert v[..m] == Unit(m, d, x);
      DotUnit(m, d, x, o[..m]);
    } else {
      DotZeros(v[..m], o[..m]);
    }
  }

  /** The position of a tile at x along d and at 0 elsewhere. */
  lemma UnitNumber(l: Layout, n: seq<nat>, d: nat, x: nat)
    requires d < |n|
    ensures Number(l, Unit(|n|, d, x), n) == x * Offset(l, n, d)
  {
    var o: seq<int> := seq(|n|, i requires 0 <= i < |n| => Offset(l, n, i));
    DotIsNumber(l, Unit(|n|, d, x), n, o);
    DotUnit(|n|, d, x, o);
  }

  lemma {:induction false} DotEqual(v: seq<int>, a: seq<int>, b: seq<int>)
    requires |v| == |a| == |b| && forall d :: 0 <= d < |v| ==> v[d] == 0 || a[d] == b[d]
    ensures Dot(v, a) == Dot(v, b)
  {
    if v != [] {
      var m := |v| - 1;
      DotEqual(v[..m], a[..m], b[..m]);
    }
  }

  /** Two lists of offsets give every digits in n the same sum exactly when they agree wherever there is more
      than one digit. */
  lemma SameDotsIff(n: seq<nat>, a: seq<int>, b: seq<int>)
    requires |n| == |a| == |b| && forall d :: 0 <= d < |n| ==> n[d] > 0
    ensures (forall v: seq<nat> {:trigger Within(v, n)} :: Within(v, n) ==> Dot(v, a) == Dot(v, b))
       <==> (forall d :: 0 <= d < |n| && n[d] > 1 ==> a[d] == b[d])
  {
    if forall d :: 0 <= d < |n| && n[d] > 1 ==> a[d] == b[d] {
      forall v: seq<nat> | Within(v, n)
        ensures Dot(v, a) == Dot(v, b)
      {
        assert forall d :: 0 <= d < |n| ==> v[d] < n[d];
        DotEqual(v, a, b);
      }
    }
    if forall v: seq<nat> {:trigger Within(v, n)} :: Within(v, n) ==> Dot(v, a) == Dot(v, b) {
      forall d | 0 <= d < |n| && n[d] > 1
        ensures a[d] == b[d]
      {
        assert Within(Unit(|n|, d, 1), n);
        DotUnit(|n|, d, 1, a);
        DotUnit(|n|, d, 1, b);
      }
    }
  }

  // ---------------------------------------------------------------------------
  // Offsets of neighbouring dimensions
  // ---------------------------------------------------------------------------

  lemma ProdNext(n: seq<nat>, d: nat)
    requires d < |n|
    ensures Prod(n[..d + 1]) == Prod(n[..d]) * n[d]
  {
    assert n[..d + 1][..d] == n[..d];
  }

  lemma {:induction false} OffsetPositive(l: Layout, n: seq<nat>, d: nat)
    requires d < |n| && forall i :: 0 <= i < |n| ==> n[i] > 0
    ensures Offset(l, n, d) > 0
    decreases if l == RowMajor then |n| - d else d
  {
    if l == RowMajor {
      if d < |n| - 1 {
        OffsetPositive(l, n, d + 1);
      }
    } else if d > 0 {
      OffsetPositive(l, n, d - 1);
      ProdNext(n, d - 1);
    }
  }

  lemma {:induction false} FromSame(f: seq<nat>, m: seq<nat>, d: nat)
    requires |f| == |m| && d <= |m| && forall e :: d <= e < |m| ==> f[e] == m[e]
    ensures From(f, d) == From(m, d)
    decreases |m| - d
  {
    if d < |m| {
      FromSame(f, m, d + 1);
    }
  }

  lemma {:induction false} FromOnes(f: seq<nat>, d: nat, e: nat)
    requires d <= e <= |f| && forall i :: d <= i < e ==> f[i] == 1
    ensures From(f, d) == From(f, e)
    decreases e - d
  {
    if d < e {
      FromOnes(f, d + 1, e);
    }
  }

  lemma {:induction false} ProdOnes(f: seq<nat>, d: nat, e: nat)
    requires d <= e <= |f| && forall i :: d <= i < e ==> f[i] == 1
    ensures Prod(f[..d]) == Prod(f[..e])
    decreases e - d
  {
    if d < e {
      ProdOnes(f, d, e - 1);
      ProdNext(f, e - 1);
    }
  }

  /** One step along d is as far as all places along e when the dimensions between have one place. */
  lemma StepIsRow(l: Layout, f: seq<nat>, d: nat, e: nat)
    requires d < |f| && e < |f|
    requires if l == RowMajor then d < e && forall i :: d < i < e ==> f[i] == 1
             else e < d && forall i :: e < i < d ==> f[i] == 1
    ensures Offset(l, f, d) == f[e] * Offset(l, f, e)
  {
    if l == RowMajor {
      FromOnes(f, d + 1, e);
    } else {
      ProdOnes(f, e + 1, d);
      ProdNext(f, e);
    }
  }

  /** The nearest dimension slower than e that has more than one place. */
  lemma {:induction false} Nearest(l: Layout, m: seq<nat>, d: nat, e: nat) returns (k: nat)
    requires d < |m| && e < |m| && m[d] > 1 && (if l == RowMajor then d < e else e < d)
    requires forall i :: 0 <= i < |m| ==> m[i] > 0
    ensures k < |m| && m[k] > 1
    ensures if l == RowMajor then d <= k < e && forall i :: k < i < e ==> m[i] == 1
            else e < k <= d && forall i :: e < i < k ==> m[i] == 1
  {
    k := if l == RowMajor then e - 1 else e + 1;
    while m[k] == 1
      invariant if l == RowMajor then d <= k < e && forall i :: k < i < e ==> m[i] == 1
                else e < k <= d && forall i :: e < i < k ==> m[i] == 1
      decreases if l == RowMajor then k - d else d - k
    {
      k := if l == RowMajor then k - 1 else k + 1;
    }
  }
}
