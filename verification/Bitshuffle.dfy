/** The scalar passes of bitshuffle, as loops over an output buffer. The input, which no
    pass changes, is the sequence of its bytes; the output is the part of a buffer that
    starts at o. Each pass is proved to leave there what its specification says and to
    change nothing else. */
module Bitshuffle {
  import opened Transposition
  import opened BitMatrix
  import opened BitshuffleSpec
  import opened Regions

  /** What a pass returns for a size that is not a multiple of eight. */
  const NOT_MULTIPLE_OF_EIGHT: int := -80

  // ---------------------------------------------------------------------------
  // Byte transpose
  // ---------------------------------------------------------------------------

  /** One byte of the byte transpose: byte jj of element k. */
  method PutElemByte(inp: seq<byte>, out: array<byte>, o: nat, size: nat, elemSize: nat, k: nat, jj: nat)
    requires |inp| == size * elemSize && o + |inp| <= out.Length && k < size && jj < elemSize
    modifies out
    ensures Keeps(old(out[..]), out[..], o, Transposed(inp, size, elemSize))
    ensures Filled(out[..], o, Transposed(inp, size, elemSize), size, jj, jj + 1, k, k + 1)
  {
    TransposedAt(inp, size, elemSize, k, jj);
    PutAt(out, o, size, jj, k, inp[Idx(k, elemSize, jj)], Transposed(inp, size, elemSize));
  }

  /** Bytes jj of the len elements from ii on. */
  method PutElemBytes(inp: seq<byte>, out: array<byte>, o: nat, size: nat, elemSize: nat, ii: nat, len: nat, jj: nat)
    requires |inp| == size * elemSize && o + |inp| <= out.Length && ii + len <= size && jj < elemSize
    modifies out
    ensures Keeps(old(out[..]), out[..], o, Transposed(inp, size, elemSize))
    ensures Filled(out[..], o, Transposed(inp, size, elemSize), size, jj, jj + 1, ii, ii + len)
  {
    ghost var t := Transposed(inp, size, elemSize);
    ghost var a := out[..];
    for kk := 0 to len
      invariant Keeps(a, out[..], o, t)
      invariant Filled(out[..], o, t, size, jj, jj + 1, ii, ii + kk)
    {
      ghost var b := out[..];
      PutElemByte(inp, out, o, size, elemSize, ii + kk, jj);
      MoreColumns(a, b, out[..], o, t, size, jj, jj + 1, ii, ii + kk, ii + kk + 1);
    }
  }

  /** All bytes of the len elements from ii on: the two inner loops. */
  method PutElems(inp: seq<byte>, out: array<byte>, o: nat, size: nat, elemSize: nat, ii: nat, len: nat)
    requires |inp| == size * elemSize && o + |inp| <= out.Length && ii + len <= size
    modifies out
    ensures Keeps(old(out[..]), out[..], o, Transposed(inp, size, elemSize))
    ensures Filled(out[..], o, Transposed(inp, size, elemSize), size, 0, elemSize, ii, ii + len)
  {
    ghost var t := Transposed(inp, size, elemSize);
    ghost var a := out[..];
    for jj := 0 to elemSize
      invariant Keeps(a, out[..], o, t)
      invariant Filled(out[..], o, t, size, 0, jj, ii, ii + len)
    {
      ghost var b := out[..];
      PutElemBytes(inp, out, o, size, elemSize, ii, len, jj);
      MoreRows(a, b, out[..], o, t, size, 0, jj, jj + 1, ii, ii + len);
    }
  }

  /** Where the last whole group of w ends. */
  lemma LastGroup(g: nat, w: nat, n: nat)
    requires w == 8 || w == 16
    requires w * g <= n < w * g + w
    ensures n - n % w == w * g
  {
  }

  /** The groups of eight elements from start on. */
  method PutElemGroups(inp: seq<byte>, out: array<byte>, o: nat, size: nat, elemSize: nat, start: nat)
    returns (ii: nat)
    requires |inp| == size * elemSize && o + |inp| <= out.Length && start < size && start % 8 == 0
    modifies out
    ensures ii == size - size % 8 && start <= ii
    ensures Keeps(old(out[..]), out[..], o, Transposed(inp, size, elemSize))
    ensures Filled(out[..], o, Transposed(inp, size, elemSize), size, 0, elemSize, start, ii)
  {
    ghost var t := Transposed(inp, size, elemSize);
    ghost var a := out[..];
    ii := start;
    ghost var g := start / 8;
    while ii + 7 < size
      invariant start <= ii <= size && ii == 8 * g
      invariant Keeps(a, out[..], o, t)
      invariant Filled(out[..], o, t, size, 0, elemSize, start, ii)
    {
      ghost var b := out[..];
      PutElems(inp, out, o, size, elemSize, ii, 8);
      MoreColumns(a, b, out[..], o, t, size, 0, elemSize, start, ii, ii + 8);
      ii, g := ii + 8, g + 1;
    }
    LastGroup(g, 8, size);
  }

  /** The elements from start on, one by one. */
  method PutLastElems(inp: seq<byte>, out: array<byte>, o: nat, size: nat, elemSize: nat, start: nat)
    requires |inp| == size * elemSize && o + |inp| <= out.Length && start <= size
    modifies out
    ensures Keeps(old(out[..]), out[..], o, Transposed(inp, size, elemSize))
    ensures Filled(out[..], o, Transposed(inp, size, elemSize), size, 0, elemSize, start, size)
  {
    ghost var t := Transposed(inp, size, elemSize);
    ghost var a := out[..];
    for ii := start to size
      invariant Keeps(a, out[..], o, t)
      invariant Filled(out[..], o, t, size, 0, elemSize, start, ii)
    {
      ghost var b := out[..];
      PutElems(inp, out, o, size, elemSize, ii, 1);
      MoreColumns(a, b, out[..], o, t, size, 0, elemSize, start, ii, ii + 1);
    }
  }

  /** bshuf_trans_byte_elem_remainder: from element start on, eight elements at a time and
      the last size % 8 one by one. */
  method TransByteElemRemainder(inp: seq<byte>, out: array<byte>, o: nat, size: nat, elemSize: nat, start: nat)
    returns (count: int)
    requires |inp| == size * elemSize && o + |inp| <= out.Length
    modifies out
    ensures start % 8 != 0 ==> count == -80 && out[..] == old(out[..])
    ensures start % 8 == 0 ==> count == |inp|
    ensures Keeps(old(out[..]), out[..], o, Transposed(inp, size, elemSize))
    ensures start % 8 == 0 ==> Filled(out[..], o, Transposed(inp, size, elemSize), size, 0, elemSize, start, size)
  {
    ghost var t := Transposed(inp, size, elemSize);
    ghost var a := out[..];
    if start % 8 != 0 {
      return NOT_MULTIPLE_OF_EIGHT;
    }
    if size > start {
      var ii := PutElemGroups(inp, out, o, size, elemSize, start);
      ghost var b := out[..];
      PutLastElems(inp, out, o, size, elemSize, ii);
      MoreColumns(a, b, out[..], o, t, size, 0, elemSize, start, ii, size);
    }
    return size * elemSize;
  }

  /** bshuf_trans_byte_elem_scal. */
  method TransByteElemScal(inp: seq<byte>, out: array<byte>, o: nat, size: nat, elemSize: nat) returns (count: int)
    requires |inp| == size * elemSize && o + |inp| <= out.Length
    modifies out
    ensures count == |inp|
    ensures out[..] == Patched(old(out[..]), o, Transposed(inp, size, elemSize))
  {
    ghost var a := out[..];
    count := TransByteElemRemainder(inp, out, o, size, elemSize, 0);
    assert size * elemSize == elemSize * size;
    FilledAll(a, out[..], o, Transposed(inp, size, elemSize), elemSize, size);
  }

  // ---------------------------------------------------------------------------
  // Bit transpose of words
  // ---------------------------------------------------------------------------

  /** Byte kk of a transposed word, to its row. */
  method PutBitRow(inp: seq<byte>, out: array<byte>, o: nat, nb: nat, ii: nat, kk: nat, v: byte)
    requires |inp| == 8 * nb && o + |inp| <= out.Length && ii < nb && kk < 8
    requires v == BitsTransposed(Octet(inp, ii))[kk]
    modifies out
    ensures Keeps(old(out[..]), out[..], o, BitByte(inp, nb))
    ensures Filled(out[..], o, BitByte(inp, nb), nb, kk, kk + 1, ii, ii + 1)
  {
    BitByteAt(inp, nb, kk, ii);
    PutAt(out, o, nb, kk, ii, v, BitByte(inp, nb));
  }

  /** The eight bytes of a transposed word, each to its own row. */
  method PutBitRows(inp: seq<byte>, out: array<byte>, o: nat, nb: nat, ii: nat)
    requires |inp| == 8 * nb && o + |inp| <= out.Length && ii < nb
    modifies out
    ensures Keeps(old(out[..]), out[..], o, BitByte(inp, nb))
    ensures Filled(out[..], o, BitByte(inp, nb), nb, 0, 8, ii, ii + 1)
  {
    ghost var t := BitByte(inp, nb);
    ghost var a := out[..];
    var x := TransposeEight(inp[8 * ii..8 * ii + 8]);
    for kk := 0 to 8
      invariant Keeps(a, out[..], o, t)
      invariant Filled(out[..], o, t, nb, 0, kk, ii, ii + 1)
    {
      ghost var b := out[..];
      PutBitRow(inp, out, o, nb, ii, kk, x[kk]);
      MoreRows(a, b, out[..], o, t, nb, 0, kk, kk + 1, ii, ii + 1);
    }
  }

  /** bshuf_trans_bit_byte_remainder on a little-endian machine. */
  method TransBitByteRemainder(inp: seq<byte>, out: array<byte>, o: nat, size: nat, elemSize: nat, startByte: nat)
    returns (count: int)
    requires |inp| == size * elemSize && o + |inp| <= out.Length
    modifies out
    ensures |inp| % 8 != 0 || startByte % 8 != 0 ==> count == -80 && out[..] == old(out[..])
    ensures |inp| % 8 == 0 && startByte % 8 == 0 ==> count == |inp|
    ensures |inp| % 8 == 0 && startByte % 8 == 0 ==>
              && Keeps(old(out[..]), out[..], o, BitByte(inp, |inp| / 8))
              && Filled(out[..], o, BitByte(inp, |inp| / 8), |inp| / 8, 0, 8, startByte / 8, |inp| / 8)
  {
    var nbyte := elemSize * size;
    assert nbyte == |inp|;
    var nbyteBitrow := nbyte / 8;
    if nbyte % 8 != 0 {
      return NOT_MULTIPLE_OF_EIGHT;
    }
    if startByte % 8 != 0 {
      return NOT_MULTIPLE_OF_EIGHT;
    }
    ghost var t := BitByte(inp, nbyteBitrow);
    ghost var a := out[..];
    var ii := startByte / 8;
    while ii < nbyteBitrow
      invariant startByte / 8 <= ii
      invariant startByte / 8 <= nbyteBitrow ==> ii <= nbyteBitrow
      invariant Keeps(a, out[..], o, t)
      invariant Filled(out[..], o, t, nbyteBitrow, 0, 8, startByte / 8, ii)
    {
      ghost var b := out[..];
      PutBitRows(inp, out, o, nbyteBitrow, ii);
      MoreColumns(a, b, out[..], o, t, nbyteBitrow, 0, 8, startByte / 8, ii, ii + 1);
      ii := ii + 1;
    }
    return size * elemSize;
  }

  /** bshuf_trans_bit_byte_scal. */
  method TransBitByteScal(inp: seq<byte>, out: array<byte>, o: nat, size: nat, elemSize: nat) returns (count: int)
    requires |inp| == size * elemSize && o + |inp| <= out.Length
    modifies out
    ensures |inp| % 8 != 0 ==> count == -80 && out[..] == old(out[..])
    ensures |inp| % 8 == 0 ==> count == |inp| && out[..] == Patched(old(out[..]), o, BitByte(inp, |inp| / 8))
  {
    ghost var a := out[..];
    count := TransBitByteRemainder(inp, out, o, size, elemSize, 0);
    if |inp| % 8 == 0 {
      FilledAll(a, out[..], o, BitByte(inp, |inp| / 8), 8, |inp| / 8);
    }
  }

  // ---------------------------------------------------------------------------
  // Transpose of large elements
  // ---------------------------------------------------------------------------

  lemma BlockRow(lda: nat, bs: nat, jj: nat, ii: nat)
    ensures Idx(Idx(jj, lda, ii), bs, 0) == Idx(jj, lda * bs, ii * bs)
  {
    IdxNest(jj, lda, ii, bs, 0);
    IdxIs(ii, bs, 0);
  }

  lemma BlockByte(inp: seq<byte>, lda: nat, ldb: nat, bs: nat, ii: nat, jj: nat, p: nat, q: nat, d: nat)
    requires |inp| == lda * ldb * bs && ii < lda && jj < ldb && d < bs
    requires p == Idx(Idx(jj, lda, ii), bs, 0) && q == Idx(Idx(ii, ldb, jj), bs, 0)
    ensures p + d < |inp| && q + d < |inp| && BlockTransposed(inp, lda, ldb, bs)[p + d] == inp[q + d]
  {
    BlockTransposedAt(inp, lda, ldb, bs, ii, jj, d);
    IdxShift(Idx(jj, lda, ii), bs, 0, d);
    IdxShift(Idx(ii, ldb, jj), bs, 0, d);
  }

  /** The block that memcpy moves is a run of the transposed matrix. */
  lemma BlockIsRun(inp: seq<byte>, lda: nat, ldb: nat, bs: nat, ii: nat, jj: nat, p: nat, q: nat)
    requires |inp| == lda * ldb * bs && ii < lda && jj < ldb
    requires p == Idx(Idx(jj, lda, ii), bs, 0) && q == Idx(Idx(ii, ldb, jj), bs, 0)
    ensures p + bs <= |inp| && q + bs <= |inp|
    ensures inp[q..q + bs] == BlockTransposed(inp, lda, ldb, bs)[p..p + bs]
  {
    var t := BlockTransposed(inp, lda, ldb, bs);
    BlockEnds(lda, ldb, bs, ii, jj);
    var u, v := inp[q..q + bs], t[p..p + bs];
    forall d | 0 <= d < bs
      ensures u[d] == v[d]
    {
      BlockByte(inp, lda, ldb, bs, ii, jj, p, q, d);
    }
  }

  lemma BlockEnds(lda: nat, ldb: nat, bs: nat, ii: nat, jj: nat)
    requires ii < lda && jj < ldb
    ensures Idx(Idx(jj, lda, ii), bs, 0) + bs <= lda * ldb * bs
    ensures Idx(Idx(ii, ldb, jj), bs, 0) + bs <= lda * ldb * bs
  {
    assert lda * ldb == ldb * lda;
    IdxBound(jj, ldb, lda, ii);
    IdxBound(ii, lda, ldb, jj);
    IdxIs(Idx(jj, lda, ii), bs, 0);
    IdxIs(Idx(ii, ldb, jj), bs, 0);
    RowStep(Idx(jj, lda, ii), lda * ldb, bs);
    RowStep(Idx(ii, ldb, jj), lda * ldb, bs);
  }

  /** One block of bs bytes: block jj of row ii becomes block ii of row jj. Rows of blocks are n
      bytes long, and c is where block ii starts. */
  method PutBlock(inp: seq<byte>, out: array<byte>, o: nat, lda: nat, ldb: nat, bs: nat, ii: nat, jj: nat,
                  ghost n: nat, ghost c: nat)
    requires |inp| == lda * ldb * bs && o + |inp| <= out.Length && ii < lda && jj < ldb && n == lda * bs && c == ii * bs
    modifies out
    ensures Keeps(old(out[..]), out[..], o, BlockTransposed(inp, lda, ldb, bs))
    ensures Filled(out[..], o, BlockTransposed(inp, lda, ldb, bs), n, jj, jj + 1, c, c + bs)
  {
    BlockRow(lda, bs, jj, ii);
    var p, q := Idx(Idx(jj, lda, ii), bs, 0), Idx(Idx(ii, ldb, jj), bs, 0);
    BlockIsRun(inp, lda, ldb, bs, ii, jj, p, q);
    PutRun(out, o, n, jj, c, p, inp[q..q + bs], BlockTransposed(inp, lda, ldb, bs));
  }

  /** The inner loop of bshuf_trans_elem: a row of blocks becomes a column of blocks. */
  method PutBlocks(inp: seq<byte>, out: array<byte>, o: nat, lda: nat, ldb: nat, bs: nat, ii: nat,
                   ghost n: nat, ghost c: nat)
    requires |inp| == lda * ldb * bs && o + |inp| <= out.Length && ii < lda && n == lda * bs && c == ii * bs
    modifies out
    ensures Keeps(old(out[..]), out[..], o, BlockTransposed(inp, lda, ldb, bs))
    ensures Filled(out[..], o, BlockTransposed(inp, lda, ldb, bs), n, 0, ldb, c, c + bs)
  {
    ghost var t := BlockTransposed(inp, lda, ldb, bs);
    ghost var a := out[..];
    for jj := 0 to ldb
      invariant Keeps(a, out[..], o, t)
      invariant Filled(out[..], o, t, n, 0, jj, c, c + bs)
    {
      ghost var b := out[..];
      PutBlock(inp, out, o, lda, ldb, bs, ii, jj, n, c);
      MoreRows(a, b, out[..], o, t, n, 0, jj, jj + 1, c, c + bs);
    }
  }

  lemma NextBlock(ii: nat, bs: nat)
    ensures (ii + 1) * bs == ii * bs + bs
  {
  }

  lemma BlockBytes(lda: nat, ldb: nat, bs: nat)
    ensures lda * ldb * bs == ldb * (lda * bs)
  {
    assert lda * ldb == ldb * lda;
  }

  /** bshuf_trans_elem. */
  method TransElem(inp: seq<byte>, out: array<byte>, o: nat, lda: nat, ldb: nat, elemSize: nat) returns (count: int)
    requires |inp| == lda * ldb * elemSize && o + |inp| <= out.Length
    modifies out
    ensures count == |inp|
    ensures out[..] == Patched(old(out[..]), o, BlockTransposed(inp, lda, ldb, elemSize))
  {
    ghost var t := BlockTransposed(inp, lda, ldb, elemSize);
    ghost var a := out[..];
    ghost var n, c := lda * elemSize, 0;
    for ii := 0 to lda
      invariant c == ii * elemSize
      invariant Keeps(a, out[..], o, t)
      invariant Filled(out[..], o, t, n, 0, ldb, 0, c)
    {
      ghost var b := out[..];
      PutBlocks(inp, out, o, lda, ldb, elemSize, ii, n, c);
      MoreColumns(a, b, out[..], o, t, n, 0, ldb, 0, c, c + elemSize);
      NextBlock(ii, elemSize);
      c := c + elemSize;
    }
    BlockBytes(lda, ldb, elemSize);
    FilledAll(a, out[..], o, t, ldb, n);
    return lda * ldb * elemSize;
  }

  /** bshuf_trans_bitrow_eight. */
  method TransBitrowEight(inp: seq<byte>, out: array<byte>, o: nat, size: nat, elemSize: nat) returns (count: int)
    requires |inp| == size * elemSize && o + |inp| <= out.Length
    modifies out
    ensures size % 8 != 0 ==> count == -80 && out[..] == old(out[..])
    ensures size % 8 == 0 ==>
              && count == |inp| == 8 * elemSize * (size / 8)
              && out[..] == Patched(old(out[..]), o, BlockTransposed(inp, 8, elemSize, size / 8))
  {
    var nbyteBitrow := size / 8;
    if size % 8 != 0 {
      return NOT_MULTIPLE_OF_EIGHT;
    }
    Sizes(nbyteBitrow, elemSize);
    count := TransElem(inp, out, o, 8, elemSize, nbyteBitrow);
  }

  // ---------------------------------------------------------------------------
  // The whole transpose and its inverse
  // ---------------------------------------------------------------------------

  /** bshuf_trans_bit_elem_scal: three passes, through out and a buffer of its own. */
  method TransBitElemScal(inp: seq<byte>, out: array<byte>, o: nat, size: nat, elemSize: nat) returns (count: int)
    requires |inp| == size * elemSize && o + |inp| <= out.Length
    modifies out
    ensures size % 8 != 0 ==> count == -80 && out[..] == old(out[..])
    ensures size % 8 == 0 ==>
              && count == |inp|
              && out[..] == Patched(old(out[..]), o, Shuffled(inp, size, elemSize))
  {
    if size % 8 != 0 {
      return NOT_MULTIPLE_OF_EIGHT;
    }
    ghost var a := out[..];
    ghost var m := size / 8;
    Sizes(m, elemSize);
    var tmp := new byte[size * elemSize];
    count := TransByteElemScal(inp, out, o, size, elemSize);
    var pass1 := out[o..o + size * elemSize];
    PatchedTwice(a, o, Transposed(inp, size, elemSize), BitElem(inp, m, elemSize));
    assert pass1 == Transposed(inp, size, elemSize);
    count := TransBitByteScal(pass1, tmp, 0, size, elemSize);
    if count < 0 {
      return count;
    }
    assert tmp[..] == BitByte(pass1, elemSize * m);
    count := TransBitrowEight(tmp[..], out, o, size, elemSize);
  }

  /** One byte of bshuf_trans_byte_bitrow_scal. */
  method PutBitrowByte(inp: seq<byte>, out: array<byte>, o: nat, m: nat, e: nat, jj: nat, ii: nat, kk: nat)
    requires |inp| == e * 8 * m && o + |inp| <= out.Length && jj < e && ii < m && kk < 8
    modifies out
    ensures Keeps(old(out[..]), out[..], o, Transposed(inp, e * 8, m))
    ensures Filled(out[..], o, Transposed(inp, e * 8, m), e * 8, ii, ii + 1, 8 * jj + kk, 8 * jj + kk + 1)
  {
    TransposedAt(inp, e * 8, m, 8 * jj + kk, ii);
    PutAt(out, o, e * 8, ii, 8 * jj + kk, inp[Idx(8 * jj + kk, m, ii)], Transposed(inp, e * 8, m));
  }

  /** The inner loop of bshuf_trans_byte_bitrow_scal: column ii of the eight rows of byte jj. */
  method PutBitrowBytes(inp: seq<byte>, out: array<byte>, o: nat, m: nat, e: nat, jj: nat, ii: nat)
    requires |inp| == e * 8 * m && o + |inp| <= out.Length && jj < e && ii < m
    modifies out
    ensures Keeps(old(out[..]), out[..], o, Transposed(inp, e * 8, m))
    ensures Filled(out[..], o, Transposed(inp, e * 8, m), e * 8, ii, ii + 1, 8 * jj, 8 * jj + 8)
  {
    ghost var t := Transposed(inp, e * 8, m);
    ghost var a := out[..];
    for kk := 0 to 8
      invariant Keeps(a, out[..], o, t)
      invariant Filled(out[..], o, t, e * 8, ii, ii + 1, 8 * jj, 8 * jj + kk)
    {
      ghost var b := out[..];
      PutBitrowByte(inp, out, o, m, e, jj, ii, kk);
      MoreColumns(a, b, out[..], o, t, e * 8, ii, ii + 1, 8 * jj, 8 * jj + kk, 8 * jj + kk + 1);
    }
  }

  /** The middle loop of bshuf_trans_byte_bitrow_scal. */
  method PutBitrows(inp: seq<byte>, out: array<byte>, o: nat, m: nat, e: nat, jj: nat)
    requires |inp| == e * 8 * m && o + |inp| <= out.Length && jj < e
    modifies out
    ensures Keeps(old(out[..]), out[..], o, Transposed(inp, e * 8, m))
    ensures Filled(out[..], o, Transposed(inp, e * 8, m), e * 8, 0, m, 8 * jj, 8 * jj + 8)
  {
    ghost var t := Transposed(inp, e * 8, m);
    ghost var a := out[..];
    for ii := 0 to m
      invariant Keeps(a, out[..], o, t)
      invariant Filled(out[..], o, t, e * 8, 0, ii, 8 * jj, 8 * jj + 8)
    {
      ghost var b := out[..];
      PutBitrowBytes(inp, out, o, m, e, jj, ii);
      MoreRows(a, b, out[..], o, t, e * 8, 0, ii, ii + 1, 8 * jj, 8 * jj + 8);
    }
  }

  /** bshuf_trans_byte_bitrow_scal. */
  method TransByteBitrowScal(inp: seq<byte>, out: array<byte>, o: nat, size: nat, e: nat) returns (count: int)
    requires |inp| == size * e && o + |inp| <= out.Length
    modifies out
    ensures size % 8 != 0 ==> count == -80 && out[..] == old(out[..])
    ensures size % 8 == 0 ==>
              && count == |inp| == e * 8 * (size / 8)
              && out[..] == Patched(old(out[..]), o, Transposed(inp, e * 8, size / 8))
  {
    var nbyteRow := size / 8;
    if size % 8 != 0 {
      return NOT_MULTIPLE_OF_EIGHT;
    }
    Sizes(nbyteRow, e);
    ghost var t := Transposed(inp, e * 8, nbyteRow);
    ghost var a := out[..];
    for jj := 0 to e
      invariant Keeps(a, out[..], o, t)
      invariant Filled(out[..], o, t, e * 8, 0, nbyteRow, 0, 8 * jj)
    {
      ghost var b := out[..];
      PutBitrows(inp, out, o, nbyteRow, e, jj);
      MoreColumns(a, b, out[..], o, t, e * 8, 0, nbyteRow, 0, 8 * jj, 8 * (jj + 1));
    }
    assert e * 8 * nbyteRow == nbyteRow * (e * 8);
    FilledAll(a, out[..], o, t, nbyteRow, e * 8);
    return size * e;
  }

  lemma EightIndex(r: nat, e: nat, j: nat)
    ensures r * (8 * e) + 8 * j == 8 * Idx(r, e, j)
  {
    IdxIs(r, e, j);
    assert 8 * r * e == r * (8 * e);
  }

  /** Byte kk of a transposed word, to element kk of its group. */
  method PutEighth(out: array<byte>, o: nat, elemSize: nat, r: nat, j: nat, kk: nat, v: byte, ghost t: seq<byte>)
    requires o + |t| <= out.Length && Idx(Idx(r, 8, kk), elemSize, j) < |t| && v == t[Idx(Idx(r, 8, kk), elemSize, j)]
    modifies out
    ensures Keeps(old(out[..]), out[..], o, t)
    ensures Filled(out[..], o, t, elemSize, 8 * r + kk, 8 * r + kk + 1, j, j + 1)
  {
    EightRow(r, kk);
    PutAt(out, o, elemSize, 8 * r + kk, j, v, t);
  }

  lemma EightRow(r: nat, kk: nat)
    ensures Idx(r, 8, kk) == 8 * r + kk
  {
    IdxIs(r, 8, kk);
  }

  /** The load and the transpose of one word of an eight-element group. */
  method TransposeGroupByte(inp: seq<byte>, m: nat, elemSize: nat, r: nat, j: nat) returns (x: seq<byte>)
    requires |inp| == m * 8 * elemSize && r < m && j < elemSize
    ensures 8 * Idx(r, elemSize, j) + 8 <= |inp| && x == BitsTransposed(Octet(inp, Idx(r, elemSize, j)))
  {
    var at := r * (8 * elemSize) + 8 * j;
    assert at == 8 * Idx(r, elemSize, j) <= |inp| - 8 by {
      EightElemAt(inp, m, elemSize, r, 0, j);
      EightIndex(r, elemSize, j);
    }
    x := TransposeEight(inp[at..at + 8]);
  }

  /** The eight bytes of one transposed word of an eight-element group. */
  method PutEight(inp: seq<byte>, out: array<byte>, o: nat, m: nat, elemSize: nat, r: nat, j: nat)
    requires |inp| == m * 8 * elemSize && o + |inp| <= out.Length && r < m && j < elemSize
    modifies out
    ensures Keeps(old(out[..]), out[..], o, EightElem(inp, m, elemSize))
    ensures Filled(out[..], o, EightElem(inp, m, elemSize), elemSize, 8 * r, 8 * r + 8, j, j + 1)
  {
    ghost var t := EightElem(inp, m, elemSize);
    ghost var a := out[..];
    var x := TransposeGroupByte(inp, m, elemSize, r, j);
    for kk := 0 to 8
      invariant Keeps(a, out[..], o, t)
      invariant Filled(out[..], o, t, elemSize, 8 * r, 8 * r + kk, j, j + 1)
    {
      ghost var b := out[..];
      EightElemAt(inp, m, elemSize, r, kk, j);
      PutEighth(out, o, elemSize, r, j, kk, x[kk], t);
      MoreRows(a, b, out[..], o, t, elemSize, 8 * r, 8 * r + kk, 8 * r + kk + 1, j, j + 1);
    }
  }

  lemma GroupFits(r: nat, m: nat, e: nat)
    requires e > 0
    ensures r * (8 * e) + 8 * e - 1 < m * 8 * e <==> r < m
    ensures (r + 1) * (8 * e) == r * (8 * e) + 8 * e
  {
    assert m * 8 * e == m * (8 * e);
    RowStep(r, m, 8 * e);
    RowStep(m, r + 1, 8 * e);
  }

  /** The middle loop of bshuf_shuffle_bit_eightelem_scal: byte j of all elements. */
  method PutEights(inp: seq<byte>, out: array<byte>, o: nat, m: nat, elemSize: nat, j: nat)
    requires |inp| == m * 8 * elemSize && o + |inp| <= out.Length && j < elemSize
    modifies out
    ensures Keeps(old(out[..]), out[..], o, EightElem(inp, m, elemSize))
    ensures Filled(out[..], o, EightElem(inp, m, elemSize), elemSize, 0, 8 * m, j, j + 1)
  {
    ghost var t := EightElem(inp, m, elemSize);
    ghost var a := out[..];
    var ii, r := 0, 0;
    while ii + 8 * elemSize - 1 < |inp|
      invariant ii == r * (8 * elemSize) && r <= m
      invariant Keeps(a, out[..], o, t)
      invariant Filled(out[..], o, t, elemSize, 0, 8 * r, j, j + 1)
      decreases m - r
    {
      ghost var b := out[..];
      GroupFits(r, m, elemSize);
      PutEight(inp, out, o, m, elemSize, r, j);
      MoreRows(a, b, out[..], o, t, elemSize, 0, 8 * r, 8 * r + 8, j, j + 1);
      ii, r := ii + 8 * elemSize, r + 1;
    }
    GroupFits(r, m, elemSize);
  }

  /** bshuf_shuffle_bit_eightelem_scal on a little-endian machine. */
  method ShuffleBitEightelemScal(inp: seq<byte>, out: array<byte>, o: nat, size: nat, elemSize: nat)
    returns (count: int)
    requires |inp| == size * elemSize && o + |inp| <= out.Length
    modifies out
    ensures size % 8 != 0 ==> count == -80 && out[..] == old(out[..])
    ensures size % 8 == 0 ==>
              && count == |inp| == size / 8 * 8 * elemSize
              && out[..] == Patched(old(out[..]), o, EightElem(inp, size / 8, elemSize))
  {
    if size % 8 != 0 {
      return NOT_MULTIPLE_OF_EIGHT;
    }
    ghost var m := size / 8;
    ghost var t := EightElem(inp, m, elemSize);
    ghost var a := out[..];
    for j := 0 to elemSize
      invariant Keeps(a, out[..], o, t)
      invariant Filled(out[..], o, t, elemSize, 0, 8 * m, 0, j)
    {
      ghost var b := out[..];
      PutEights(inp, out, o, size / 8, elemSize, j);
      MoreColumns(a, b, out[..], o, t, elemSize, 0, 8 * m, 0, j, j + 1);
    }
    FilledAll(a, out[..], o, t, 8 * m, elemSize);
    return size * elemSize;
  }

  /** bshuf_untrans_bit_elem_scal: two passes, through a buffer of its own. */
  method UntransBitElemScal(inp: seq<byte>, out: array<byte>, o: nat, size: nat, elemSize: nat) returns (count: int)
    requires |inp| == size * elemSize && o + |inp| <= out.Length
    modifies out
    ensures size % 8 != 0 ==> count == -80 && out[..] == old(out[..])
    ensures size % 8 == 0 ==>
              && count == |inp|
              && out[..] == Patched(old(out[..]), o, Unshuffled(inp, size, elemSize))
  {
    if size % 8 != 0 {
      return NOT_MULTIPLE_OF_EIGHT;
    }
    Sizes(size / 8, elemSize);
    var tmp := new byte[size * elemSize];
    count := TransByteBitrowScal(inp, tmp, 0, size, elemSize);
    if count < 0 {
      return count;
    }
    assert tmp[..] == Transposed(inp, elemSize * 8, size / 8);
    count := ShuffleBitEightelemScal(tmp[..], out, o, size, elemSize);
  }
}
