/** The Blosc byte shuffle: the generic routines, and the SSE2 routines that hand the part of
    the block that is not a multiple of sixteen elements to them. Both compute the same
    transpose, for every type size and block size, and unshuffling undoes shuffling. */
module Blosc {
  import opened Transposition
  import opened Regions
  import opened SseGroups
  import opened BloscGroups

  /** q whole elements of ts bytes transposed, and the bytes that are left over unchanged. */
  ghost function Shuffled<T>(s: seq<T>, ts: nat, q: nat): (t: seq<T>)
    requires q * ts <= |s|
    ensures |t| == |s|
  {
    Transposed(s[..q * ts], q, ts) + s[q * ts..]
  }

  ghost function Unshuffled<T>(s: seq<T>, ts: nat, q: nat): (t: seq<T>)
    requires ts * q <= |s|
    ensures |t| == |s|
  {
    Transposed(s[..ts * q], ts, q) + s[ts * q..]
  }

  /** Where shuffling puts byte j of element i, where unshuffling takes it from, and the bytes that stay. */
  lemma ShuffledAt<T>(s: seq<T>, ts: nat, q: nat, i: nat, j: nat)
    requires q * ts <= |s| && i < q && j < ts
    ensures ts * q == q * ts && j * q + i < q * ts && i * ts + j < q * ts
    ensures Shuffled(s, ts, q)[j * q + i] == s[i * ts + j] && Unshuffled(s, ts, q)[i * ts + j] == s[j * q + i]
  {
    var m := q * ts;
    assert ts * q == m;
    TransposedAt(s[..m], q, ts, i, j);
    TransposedAt(s[..m], ts, q, j, i);
    IdxIs(j, q, i);
    IdxIs(i, ts, j);
  }

  lemma LeftOver<T>(s: seq<T>, ts: nat, q: nat, k: nat)
    requires q * ts <= k < |s|
    ensures ts * q == q * ts && Shuffled(s, ts, q)[k] == s[k] && Unshuffled(s, ts, q)[k] == s[k]
  {
    assert ts * q == q * ts;
  }

  /** Unshuffling undoes shuffling. */
  lemma UnshuffleShuffle<T>(s: seq<T>, ts: nat, q: nat)
    requires q * ts <= |s|
    ensures ts * q == q * ts && Unshuffled(Shuffled(s, ts, q), ts, q) == s
  {
    var m := q * ts;
    assert ts * q == m;
    TransposedTwice(s[..m], q, ts);
    assert Shuffled(s, ts, q)[..m] == Transposed(s[..m], q, ts);
  }

  /** Shuffling undoes unshuffling. */
  lemma ShuffleUnshuffle<T>(s: seq<T>, ts: nat, q: nat)
    requires ts * q <= |s|
    ensures q * ts == ts * q && Shuffled(Unshuffled(s, ts, q), ts, q) == s
  {
    var m := ts * q;
    assert q * ts == m;
    TransposedTwice(s[..m], ts, q);
    assert Unshuffled(s, ts, q)[..m] == Transposed(s[..m], ts, q);
  }

  /** memcpy of the bytes from m on. */
  method CopyTail<T>(src: seq<T>, dest: array<T>, m: nat)
    requires m <= |src| <= dest.Length
    modifies dest
    ensures dest[..] == Patched(old(dest[..]), m, src[m..])
  {
    forall k | m <= k < |src| {
      dest[k] := src[k];
    }
  }

  // ---------------------------------------------------------------------------
  // Generic routines
  // ---------------------------------------------------------------------------

  /** Byte j of the elements from v on. */
  method ShuffleRow<T>(s: seq<T>, dest: array<T>, ts: nat, q: nat, v: nat, j: nat)
    requires |s| == q * ts <= dest.Length && v <= q && j < ts
    modifies dest
    ensures Keeps(old(dest[..]), dest[..], 0, Transposed(s, q, ts))
    ensures Filled(dest[..], 0, Transposed(s, q, ts), q, j, j + 1, v, q)
  {
    ghost var t := Transposed(s, q, ts);
    ghost var a := dest[..];
    for i := v to q
      invariant Keeps(a, dest[..], 0, t)
      invariant Filled(dest[..], 0, t, q, j, j + 1, v, i)
    {
      ghost var b := dest[..];
      TransposedAt(s, q, ts, i, j);
      PutAt(dest, 0, q, j, i, s[Idx(i, ts, j)], t);
      MoreColumns(a, b, dest[..], 0, t, q, j, j + 1, v, i, i + 1);
    }
  }

  /** The loops of shuffle_generic_inline: the elements from v on. */
  method ShuffleRest<T>(s: seq<T>, dest: array<T>, ts: nat, q: nat, v: nat)
    requires |s| == q * ts <= dest.Length && v <= q
    modifies dest
    ensures Keeps(old(dest[..]), dest[..], 0, Transposed(s, q, ts))
    ensures Filled(dest[..], 0, Transposed(s, q, ts), q, 0, ts, v, q)
  {
    ghost var t := Transposed(s, q, ts);
    ghost var a := dest[..];
    for j := 0 to ts
      invariant Keeps(a, dest[..], 0, t)
      invariant Filled(dest[..], 0, t, q, 0, j, v, q)
    {
      ghost var b := dest[..];
      ShuffleRow(s, dest, ts, q, v, j);
      MoreRows(a, b, dest[..], 0, t, q, 0, j, j + 1, v, q);
    }
  }

  /** All bytes of element i. */
  method UnshuffleElement<T>(s: seq<T>, dest: array<T>, ts: nat, q: nat, i: nat)
    requires |s| == ts * q <= dest.Length && i < q
    modifies dest
    ensures Keeps(old(dest[..]), dest[..], 0, Transposed(s, ts, q))
    ensures Filled(dest[..], 0, Transposed(s, ts, q), ts, i, i + 1, 0, ts)
  {
    ghost var t := Transposed(s, ts, q);
    ghost var a := dest[..];
    for j := 0 to ts
      invariant Keeps(a, dest[..], 0, t)
      invariant Filled(dest[..], 0, t, ts, i, i + 1, 0, j)
    {
      ghost var b := dest[..];
      TransposedAt(s, ts, q, j, i);
      PutAt(dest, 0, ts, i, j, s[Idx(j, q, i)], t);
      MoreColumns(a, b, dest[..], 0, t, ts, i, i + 1, 0, j, j + 1);
    }
  }

  /** The loops of unshuffle_generic_inline: the elements from v on. */
  method UnshuffleRest<T>(s: seq<T>, dest: array<T>, ts: nat, q: nat, v: nat)
    requires |s| == ts * q <= dest.Length && v <= q
    modifies dest
    ensures Keeps(old(dest[..]), dest[..], 0, Transposed(s, ts, q))
    ensures Filled(dest[..], 0, Transposed(s, ts, q), ts, v, q, 0, ts)
  {
    ghost var t := Transposed(s, ts, q);
    ghost var a := dest[..];
    for i := v to q
      invariant Keeps(a, dest[..], 0, t)
      invariant Filled(dest[..], 0, t, ts, v, i, 0, ts)
    {
      ghost var b := dest[..];
      UnshuffleElement(s, dest, ts, q, i);
      MoreRows(a, b, dest[..], 0, t, ts, v, i, i + 1, 0, ts);
    }
  }

  /** q and r are quotient and remainder of the block size by the type size. */
  ghost predicate Divided(size: nat, ts: nat, q: nat, r: nat) {
    size == q * ts + r && r < ts
  }

  lemma DividedIs(size: nat, ts: nat)
    requires ts > 0
    ensures Divided(size, ts, size / ts, size % ts)
  {
    assert size == size / ts * ts + size % ts;
  }

  /** shuffle_generic. */
  method ShuffleGeneric<T>(ts: nat, src: seq<T>, dest: array<T>)
    requires ts > 0 && |src| <= dest.Length
    modifies dest
    ensures Divided(|src|, ts, |src| / ts, |src| % ts)
    ensures dest[..] == Patched(old(dest[..]), 0, Shuffled(src, ts, |src| / ts))
  {
    DividedIs(|src|, ts);
    var q, r := |src| / ts, |src| % ts;
    ShuffleGenericFrom(ts, src, dest, q, r, 0, dest[..]);
  }

  /** shuffle_generic_inline, after the first v elements of a block have been shuffled. */
  method ShuffleGenericFrom<T>(ts: nat, src: seq<T>, dest: array<T>, q: nat, r: nat, v: nat, ghost a: seq<T>)
    requires Divided(|src|, ts, q, r) && |src| <= dest.Length && v <= q
    requires Keeps(a, dest[..], 0, Transposed(src[..q * ts], q, ts))
    requires Filled(dest[..], 0, Transposed(src[..q * ts], q, ts), q, 0, ts, 0, v)
    modifies dest
    ensures dest[..] == Patched(a, 0, Shuffled(src, ts, q))
  {
    var m := q * ts;
    var s := src[..m];
    ghost var t := Transposed(s, q, ts);
    ghost var b := dest[..];
    ShuffleRest(s, dest, ts, q, v);
    MoreColumns(a, b, dest[..], 0, t, q, 0, ts, 0, v, q);
    assert m == ts * q;
    FilledAll(a, dest[..], 0, t, ts, q);
    CopyTail(src, dest, |src| - r);
    PatchNext(a, 0, t, src[m..]);
  }

  /** unshuffle_generic. */
  method UnshuffleGeneric<T>(ts: nat, src: seq<T>, dest: array<T>)
    requires ts > 0 && |src| <= dest.Length
    modifies dest
    ensures Divided(|src|, ts, |src| / ts, |src| % ts)
    ensures dest[..] == Patched(old(dest[..]), 0, Unshuffled(src, ts, |src| / ts))
  {
    DividedIs(|src|, ts);
    var q, r := |src| / ts, |src| % ts;
    UnshuffleGenericFrom(ts, src, dest, q, r, 0, dest[..]);
  }

  /** unshuffle_generic_inline, after the first v elements of a block have been unshuffled. */
  method UnshuffleGenericFrom<T>(ts: nat, src: seq<T>, dest: array<T>, q: nat, r: nat, v: nat, ghost a: seq<T>)
    requires Divided(|src|, ts, q, r) && |src| <= dest.Length && v <= q && ts * q == q * ts
    requires Keeps(a, dest[..], 0, Transposed(src[..ts * q], ts, q))
    requires Filled(dest[..], 0, Transposed(src[..ts * q], ts, q), ts, 0, v, 0, ts)
    modifies dest
    ensures dest[..] == Patched(a, 0, Unshuffled(src, ts, q))
  {
    var m := ts * q;
    var s := src[..m];
    ghost var t := Transposed(s, ts, q);
    ghost var b := dest[..];
    UnshuffleRest(s, dest, ts, q, v);
    MoreRows(a, b, dest[..], 0, t, ts, 0, v, q, 0, ts);
    FilledAll(a, dest[..], 0, t, q, ts);
    CopyTail(src, dest, |src| - r);
    PatchNext(a, 0, t, src[m..]);
  }

  // ---------------------------------------------------------------------------
  // SSE2 routines
  // ---------------------------------------------------------------------------

  /** The vectorised routine for the type size, if there is one: on the first 16 * groups elements. */
  method ShuffleVectors<T>(s: seq<T>, dest: array<T>, groups: nat, total: nat, ts: nat)
    requires (Small(ts) || ts > 16) && |s| == total * ts <= dest.Length && 16 * groups <= total
    modifies dest
    ensures Keeps(old(dest[..]), dest[..], 0, Transposed(s, total, ts))
    ensures Filled(dest[..], 0, Transposed(s, total, ts), total, 0, ts, 0, 16 * groups)
  {
    if ts > 16 {
      ShuffleTiled(s, dest, groups, total, ts);
    } else {
      ShuffleSmall(s, dest, groups, total, ts);
    }
  }

  method UnshuffleVectors<T>(s: seq<T>, dest: array<T>, groups: nat, total: nat, ts: nat)
    requires (Small(ts) || ts > 16) && |s| == ts * total <= dest.Length && 16 * groups <= total
    modifies dest
    ensures Keeps(old(dest[..]), dest[..], 0, Transposed(s, ts, total))
    ensures Filled(dest[..], 0, Transposed(s, ts, total), ts, 0, 16 * groups, 0, ts)
  {
    if ts > 16 {
      UnshuffleTiled(s, dest, groups, total, ts);
    } else {
      UnshuffleSmall(s, dest, groups, total, ts);
    }
  }

  /** The sizes that shuffle_sse2 works out: vectorizable_elements is 16 * groups. */
  lemma VectorSizes(size: nat, ts: nat, q: nat, r: nat, groups: nat)
    requires Divided(size, ts, q, r) && groups == size / (ts * 16)
    ensures (size - size % (ts * 16)) / ts == 16 * groups <= q
    ensures size % (ts * 16) == 0 ==> q == 16 * groups && r == 0
  {
    var w := ts * 16;
    var rest := size % w;
    assert size == groups * w + rest;
    assert groups * w == 16 * groups * ts;
    DivParts(16 * groups, ts, 0);
    RowStep(q, 16 * groups, ts);
    if rest == 0 {
      RowStep(16 * groups, q, ts);
    }
  }

  /** shuffle_sse2. */
  method ShuffleSse2<T>(ts: nat, src: seq<T>, dest: array<T>)
    requires ts > 0 && |src| <= dest.Length
    modifies dest
    ensures Divided(|src|, ts, |src| / ts, |src| % ts)
    ensures dest[..] == Patched(old(dest[..]), 0, Shuffled(src, ts, |src| / ts))
  {
    DividedIs(|src|, ts);
    if |src| < ts * 16 || (ts < 16 && ts != 2 && ts != 4 && ts != 8) {
      ShuffleGeneric(ts, src, dest);
      return;
    }
    var q, r, groups := |src| / ts, |src| % ts, |src| / (ts * 16);
    VectorSizes(|src|, ts, q, r, groups);
    ghost var a := dest[..];
    ShuffleVectors(src[..q * ts], dest, groups, q, ts);
    if |src| % (ts * 16) > 0 {
      ShuffleGenericFrom(ts, src, dest, q, r, 16 * groups, a);
    } else {
      ShuffledWhole(a, dest[..], src, ts, q);
    }
  }

  lemma ShuffledWhole<T>(a: seq<T>, b: seq<T>, src: seq<T>, ts: nat, q: nat)
    requires |src| == q * ts <= |a| && Keeps(a, b, 0, Transposed(src[..q * ts], q, ts))
    requires Filled(b, 0, Transposed(src[..q * ts], q, ts), q, 0, ts, 0, q)
    ensures b == Patched(a, 0, Shuffled(src, ts, q))
  {
    assert q * ts == ts * q;
    FilledAll(a, b, 0, Transposed(src[..q * ts], q, ts), ts, q);
    assert Shuffled(src, ts, q) == Transposed(src[..q * ts], q, ts);
  }

  lemma UnshuffledWhole<T>(a: seq<T>, b: seq<T>, src: seq<T>, ts: nat, q: nat)
    requires |src| == ts * q <= |a| && Keeps(a, b, 0, Transposed(src[..ts * q], ts, q))
    requires Filled(b, 0, Transposed(src[..ts * q], ts, q), ts, 0, q, 0, ts)
    ensures b == Patched(a, 0, Unshuffled(src, ts, q))
  {
    assert q * ts == ts * q;
    FilledAll(a, b, 0, Transposed(src[..ts * q], ts, q), q, ts);
    assert Unshuffled(src, ts, q) == Transposed(src[..ts * q], ts, q);
  }

  /** unshuffle_sse2. */
  method UnshuffleSse2<T>(ts: nat, src: seq<T>, dest: array<T>)
    requires ts > 0 && |src| <= dest.Length
    modifies dest
    ensures Divided(|src|, ts, |src| / ts, |src| % ts)
    ensures dest[..] == Patched(old(dest[..]), 0, Unshuffled(src, ts, |src| / ts))
  {
    DividedIs(|src|, ts);
    if |src| < ts * 16 || (ts < 16 && ts != 2 && ts != 4 && ts != 8) {
      UnshuffleGeneric(ts, src, dest);
      return;
    }
    var q, r, groups := |src| / ts, |src| % ts, |src| / (ts * 16);
    VectorSizes(|src|, ts, q, r, groups);
    assert q * ts == ts * q;
    ghost var a := dest[..];
    UnshuffleVectors(src[..ts * q], dest, groups, q, ts);
    if |src| % (ts * 16) > 0 {
      UnshuffleGenericFrom(ts, src, dest, q, r, 16 * groups, a);
    } else {
      UnshuffledWhole(a, dest[..], src, ts, q);
    }
  }
}
