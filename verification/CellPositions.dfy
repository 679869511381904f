/** The position of a cell in a box as a sum over the dimensions, and its unrolled forms. */
module CellPositions {
  import opened Transposition
  import opened MixedRadix
  import opened CellBox

  /** The product of the sizes from dimension d on. */
  ghost function From(n: seq<nat>, d: nat): nat
    requires d <= |n|
    decreases |n| - d
  {
    if d == |n| then 1 else n[d] * From(n, d + 1)
  }

  /** A Horner step of the sum. */
  lemma RowSum(p: nat, s: nat, x: nat, f: nat)
    ensures p * (s * f) + x * f == (p * s + x) * f
  {
    assert p * (s * f) == p * s * f;
  }

  lemma RowTake(v: seq<nat>, n: seq<nat>, d: nat)
    requires |v| == |n| && d < |v|
    ensures Row(v[..d + 1], n[..d + 1]) == Row(v[..d], n[..d]) * n[d] + v[d]
  {
    assert v[..d + 1][..d] == v[..d] && n[..d + 1][..d] == n[..d];
    IdxIs(Row(v[..d], n[..d]), n[d], v[d]);
  }

  lemma ColTake(v: seq<nat>, n: seq<nat>, d: nat)
    requires |v| == |n| && d < |v|
    ensures Col(v[..d + 1], n[..d + 1]) == Col(v[..d], n[..d]) + v[d] * Prod(n[..d])
    ensures Prod(n[..d + 1]) == Prod(n[..d]) * n[d]
  {
    assert v[..d + 1][..d] == v[..d] && n[..d + 1][..d] == n[..d];
    IdxIs(v[d], Prod(n[..d]), Col(v[..d], n[..d]));
  }

  lemma Whole(v: seq<nat>, n: seq<nat>, k: nat)
    requires |v| == |n| == k
    ensures v[..k] == v && n[..k] == n
  {
  }

  lemma One(v: seq<nat>, n: seq<nat>)
    requires |v| == |n| >= 1
    ensures Row(v[..1], n[..1]) == v[0] && Col(v[..1], n[..1]) == v[0] && Prod(n[..1]) == n[0]
  {
    RowTake(v, n, 0);
    ColTake(v, n, 0);
  }

  lemma Two(v: seq<nat>, n: seq<nat>)
    requires |v| == |n| >= 2
    ensures Row(v[..2], n[..2]) == v[0] * n[1] + v[1]
    ensures Col(v[..2], n[..2]) == v[0] + v[1] * n[0] && Prod(n[..2]) == n[0] * n[1]
  {
    One(v, n);
    RowTake(v, n, 1);
    ColTake(v, n, 1);
  }

  lemma RowThree(v: seq<nat>, n: seq<nat>)
    requires |v| == |n| == 3
    ensures Row(v, n) == v[0] * n[1] * n[2] + v[1] * n[2] + v[2]
  {
    Two(v, n);
    RowTake(v, n, 2);
    Whole(v, n, 3);
    Distribute(v[0] * n[1], v[1], n[2]);
  }

  lemma ColThree(v: seq<nat>, n: seq<nat>)
    requires |v| == |n| == 3
    ensures Col(v, n) == v[0] + v[1] * n[0] + v[2] * n[0] * n[1]
  {
    Two(v, n);
    ColTake(v, n, 2);
    Whole(v, n, 3);
    Associate(v[2], n[0], n[1]);
  }

  lemma Distribute(x: nat, y: nat, z: nat)
    ensures (x + y) * z == x * z + y * z
  {
  }

  lemma Associate(x: nat, y: nat, z: nat)
    ensures x * (y * z) == x * y * z
  {
  }

  /** The unrolled forms for up to three dimensions. */
  function PlainRow(v: seq<nat>, n: seq<nat>): nat
    requires 1 <= |v| == |n| <= 3
  {
    if |n| == 1 then v[0] else if |n| == 2 then v[0] * n[1] + v[1] else v[0] * n[1] * n[2] + v[1] * n[2] + v[2]
  }

  function PlainCol(v: seq<nat>, n: seq<nat>): nat
    requires 1 <= |v| == |n| <= 3
  {
    if |n| == 1 then v[0] else if |n| == 2 then v[0] + v[1] * n[0] else v[0] + v[1] * n[0] + v[2] * n[0] * n[1]
  }

  lemma PlainIs(v: seq<nat>, n: seq<nat>)
    requires 1 <= |v| == |n| <= 3
    ensures PlainRow(v, n) == Row(v, n) && PlainCol(v, n) == Col(v, n)
  {
    Whole(v, n, |n|);
    if |n| == 1 {
      One(v, n);
    } else if |n| == 2 {
      Two(v, n);
    } else {
      RowThree(v, n);
      ColThree(v, n);
    }
  }
}
