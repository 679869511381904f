/** Filling a region of a buffer in any order, with writes that may overlap.

    The region that starts at o is to become t. Every write puts at a place what t has
    there, so a later write never spoils an earlier one, and it is enough to know which
    places have been written. */
module Regions {
  import opened Transposition

  /** The n places from p on hold what t has there. */
  ghost predicate Stored<T>(a: seq<T>, o: nat, t: seq<T>, p: nat, n: nat) {
    p + n <= |t| && o + |t| <= |a| && forall q :: o + p <= q < o + p + n ==> a[q] == t[q - o]
  }

  /** Every place (j, i) of the rectangle holds what t, in rows of n places, has there. */
  ghost predicate Filled<T>(a: seq<T>, o: nat, t: seq<T>, n: nat, j0: int, j1: int, i0: int, i1: int) {
    && o + |t| <= |a|
    && forall j: nat, i: nat {:trigger Idx(j, n, i)} :: j0 <= j < j1 && i0 <= i < i1 ==>
         Idx(j, n, i) < |t| && a[o + Idx(j, n, i)] == t[Idx(j, n, i)]
  }

  /** From a to b nothing outside the region has changed and nothing in it that was right
      has been spoilt. */
  ghost predicate Keeps<T>(a: seq<T>, b: seq<T>, o: nat, t: seq<T>) {
    && |a| == |b| && o + |t| <= |a|
    && (forall q :: 0 <= q < |a| && !(o <= q < o + |t|) ==> b[q] == a[q])
    && (forall q :: o <= q < o + |t| && a[q] == t[q - o] ==> b[q] == t[q - o])
  }

  lemma KeepsTrans<T>(a: seq<T>, b: seq<T>, c: seq<T>, o: nat, t: seq<T>)
    requires Keeps(a, b, o, t) && Keeps(b, c, o, t)
    ensures Keeps(a, c, o, t)
  {
  }

  lemma FilledKept<T>(a: seq<T>, b: seq<T>, o: nat, t: seq<T>, n: nat, j0: int, j1: int, i0: int, i1: int)
    requires Keeps(a, b, o, t) && Filled(a, o, t, n, j0, j1, i0, i1)
    ensures Filled(b, o, t, n, j0, j1, i0, i1)
  {
  }

  /** More columns of the same rows. */
  lemma MoreColumns<T>(a: seq<T>, b: seq<T>, c: seq<T>, o: nat, t: seq<T>, n: nat, j0: int, j1: int,
                       i0: int, i1: int, i2: int)
    requires Keeps(a, b, o, t) && Filled(b, o, t, n, j0, j1, i0, i1)
    requires Keeps(b, c, o, t) && Filled(c, o, t, n, j0, j1, i1, i2)
    ensures Keeps(a, c, o, t) && Filled(c, o, t, n, j0, j1, i0, i2)
  {
    KeepsTrans(a, b, c, o, t);
    FilledKept(b, c, o, t, n, j0, j1, i0, i1);
  }

  /** More rows of the same columns. */
  lemma MoreRows<T>(a: seq<T>, b: seq<T>, c: seq<T>, o: nat, t: seq<T>, n: nat, j0: int, j1: int, j2: int,
                    i0: int, i1: int)
    requires Keeps(a, b, o, t) && Filled(b, o, t, n, j0, j1, i0, i1)
    requires Keeps(b, c, o, t) && Filled(c, o, t, n, j1, j2, i0, i1)
    ensures Keeps(a, c, o, t) && Filled(c, o, t, n, j0, j2, i0, i1)
  {
    KeepsTrans(a, b, c, o, t);
    FilledKept(b, c, o, t, n, j0, j1, i0, i1);
  }

  /** The buffer a with t in place of what it has from o on. */
  ghost function Patched<T>(a: seq<T>, o: nat, t: seq<T>): (b: seq<T>)
    requires o + |t| <= |a|
    ensures |b| == |a|
  {
    a[..o] + t + a[o + |t|..]
  }

  /** Place by place. */
  lemma PatchedAt<T>(a: seq<T>, o: nat, t: seq<T>, k: nat)
    requires o + |t| <= |a| && k < |a|
    ensures Patched(a, o, t)[k] == if o <= k < o + |t| then t[k - o] else a[k]
  {
  }

  lemma PatchedTwice<T>(a: seq<T>, o: nat, s: seq<T>, t: seq<T>)
    requires o + |s| <= |a| && |s| == |t|
    ensures Patched(a, o, s)[o..o + |s|] == s
    ensures Patched(Patched(a, o, s), o, t) == Patched(a, o, t)
  {
  }

  lemma PatchNext<T>(a: seq<T>, o: nat, s: seq<T>, t: seq<T>)
    requires o + |s| + |t| <= |a|
    ensures Patched(Patched(a, o, s), o + |s|, t) == Patched(a, o, s + t)
  {
  }

  /** Three pieces, the first in place already. */
  lemma PatchThree<T>(a: seq<T>, b: seq<T>, t1: seq<T>, t2: seq<T>, t3: seq<T>)
    requires |t1| + |t2| + |t3| <= |a| && b == t1 + a[|t1|..]
    ensures Patched(Patched(b, |t1|, t2), |t1| + |t2|, t3) == Patched(a, 0, t1 + t2 + t3)
  {
    assert b == Patched(a, 0, t1);
    PatchNext(a, 0, t1, t2);
    PatchNext(a, 0, t1 + t2, t3);
  }

  /** A stored run of n places is one more piece of a row. */
  lemma StoredFills<T>(a: seq<T>, o: nat, t: seq<T>, n: nat, j: nat, i: nat, len: nat)
    requires Stored(a, o, t, Idx(j, n, i), len)
    ensures Filled(a, o, t, n, j, j + 1, i, i + len)
  {
    forall j': nat, i': nat | j <= j' < j + 1 && i <= i' < i + len
      ensures Idx(j', n, i') < |t| && a[o + Idx(j', n, i')] == t[Idx(j', n, i')]
    {
      IdxShift(j, n, i, i' - i);
    }
  }

  /** When the whole matrix is filled, the region is t. */
  lemma FilledAll<T>(a: seq<T>, b: seq<T>, o: nat, t: seq<T>, rows: nat, n: nat)
    requires |t| == rows * n && Keeps(a, b, o, t) && Filled(b, o, t, n, 0, rows, 0, n)
    ensures b == Patched(a, o, t)
  {
    forall p: nat | p < |t|
      ensures b[o + p] == t[p]
    {
      IdxSplit(p, rows, n);
      assert Idx(RowOf(p, n), n, ColOf(p, n)) == p;
    }
  }

  /** A store of one or more places: a byte, a memcpy or a vector register. */
  method Put<T>(out: array<T>, o: nat, p: nat, v: seq<T>, ghost t: seq<T>)
    requires o + |t| <= out.Length && p + |v| <= |t| && v == t[p..p + |v|]
    modifies out
    ensures Keeps(old(out[..]), out[..], o, t)
    ensures Stored(out[..], o, t, p, |v|)
  {
    ghost var a := out[..];
    for k := 0 to |v|
      invariant Keeps(a, out[..], o, t)
      invariant Stored(out[..], o, t, p, k)
    {
      assert v[k] == t[p + k];
      out[o + p + k] := v[k];
    }
  }

  /** A store of a run of places of row j, from column i on. */
  method PutRun<T>(out: array<T>, o: nat, ghost n: nat, ghost j: nat, ghost i: nat, p: nat, v: seq<T>, ghost t: seq<T>)
    requires o + |t| <= out.Length && p == Idx(j, n, i) && p + |v| <= |t| && v == t[p..p + |v|]
    modifies out
    ensures Keeps(old(out[..]), out[..], o, t)
    ensures Filled(out[..], o, t, n, j, j + 1, i, i + |v|)
  {
    Put(out, o, p, v, t);
    StoredFills(out[..], o, t, n, j, i, |v|);
  }

  /** A store of one place: column i of row j, in rows of n places. */
  method PutAt<T>(out: array<T>, o: nat, n: nat, j: nat, i: nat, v: T, ghost t: seq<T>)
    requires o + |t| <= out.Length && Idx(j, n, i) < |t| && v == t[Idx(j, n, i)]
    modifies out
    ensures Keeps(old(out[..]), out[..], o, t)
    ensures Filled(out[..], o, t, n, j, j + 1, i, i + 1)
  {
    Put(out, o, Idx(j, n, i), [v], t);
    StoredFills(out[..], o, t, n, j, i, 1);
  }
}
