/** The SSE2 byte transpose of bitshuffle: sixteen elements at a time for elements of 2, 4 and
    8 bytes, and through three passes for other multiples of 4. It is the same transpose as
    the scalar one for every element size. */
module ByteElemSse {
  import opened Transposition
  import opened BitMatrix
  import opened BitshuffleSpec
  import opened Regions
  import opened Bitshuffle
  import opened Sse
  import opened SseGroups

  /** bshuf_trans_byte_elem_SSE_16, SSE_32 and SSE_64, for e == 2, 4 and 8. */
  method TransByteElemGroups(inp: seq<byte>, out: array<byte>, o: nat, size: nat, e: nat) returns (count: int)
    requires HasKernel(Trans, e) && |inp| == size * e && o + |inp| <= out.Length
    modifies out
    ensures count == |inp|
    ensures out[..] == Patched(old(out[..]), o, Transposed(inp, size, e))
  {
    ghost var t := Transposed(inp, size, e);
    ghost var a := out[..];
    var ii, g := RunGroups(inp, out, o, size, e);
    ghost var b := out[..];
    SixteenIsEight(g);
    count := TransByteElemRemainder(inp, out, o, size, e, ii);
    MoreColumns(a, b, out[..], o, t, size, 0, e, 0, ii, size);
    assert size * e == e * size;
    FilledAll(a, out[..], o, t, e, size);
  }

  lemma SixteenIsEight(g: nat)
    ensures 16 * g % 8 == 0
  {
  }

  /** The loop over groups of sixteen elements. */
  method RunGroups(inp: seq<byte>, out: array<byte>, o: nat, size: nat, e: nat) returns (ii: nat, ghost g: nat)
    requires HasKernel(Trans, e) && |inp| == size * e && o + |inp| <= out.Length
    modifies out
    ensures ii == 16 * g && ii <= size < ii + 16
    ensures Keeps(old(out[..]), out[..], o, Transposed(inp, size, e))
    ensures Filled(out[..], o, Transposed(inp, size, e), size, 0, e, 0, ii)
  {
    ghost var t := Transposed(inp, size, e);
    ghost var a := out[..];
    ii, g := 0, 0;
    while ii + 15 < size
      invariant ii <= size && ii == 16 * g
      invariant Keeps(a, out[..], o, t)
      invariant Filled(out[..], o, t, size, 0, e, 0, ii)
    {
      ghost var b := out[..];
      RunGroup(inp, out, o, size, e, ii);
      MoreColumns(a, b, out[..], o, t, size, 0, e, 0, ii, ii + 16);
      ii, g := ii + 16, g + 1;
    }
  }

  /** One group, from element ii on. */
  method RunGroup(inp: seq<byte>, out: array<byte>, o: nat, size: nat, e: nat, ii: nat)
    requires HasKernel(Trans, e) && |inp| == size * e && o + |inp| <= out.Length && ii + 16 <= size
    modifies out
    ensures Keeps(old(out[..]), out[..], o, Transposed(inp, size, e))
    ensures Filled(out[..], o, Transposed(inp, size, e), size, 0, e, ii, ii + 16)
  {
    var b := Idx(ii, e, 0);
    GroupRight(Trans, inp, size, e, ii, b);
    StoreRows(inp, out, o, size, e, ii, 0, Group(Trans, inp, e, b));
  }

  // ---------------------------------------------------------------------------
  // Three passes
  // ---------------------------------------------------------------------------

  /** The innermost loop of TRANS_ELEM_TYPE: block jj of the len rows from ii on. Rows of blocks
      are n bytes long and block ii starts at c; e is where the last block ends. */
  method PutItems(inp: seq<byte>, out: array<byte>, o: nat, lda: nat, ldb: nat, bs: nat, ii: nat, len: nat, jj: nat,
                  ghost n: nat, ghost c: nat)
    returns (ghost e: nat)
    requires |inp| == lda * ldb * bs && o + |inp| <= out.Length && ii + len <= lda && jj < ldb
    requires n == lda * bs && c == ii * bs
    modifies out
    ensures e == (ii + len) * bs
    ensures Keeps(old(out[..]), out[..], o, BlockTransposed(inp, lda, ldb, bs))
    ensures Filled(out[..], o, BlockTransposed(inp, lda, ldb, bs), n, jj, jj + 1, c, e)
  {
    ghost var t := BlockTransposed(inp, lda, ldb, bs);
    ghost var a := out[..];
    e := c;
    for kk := 0 to len
      invariant e == (ii + kk) * bs
      invariant Keeps(a, out[..], o, t)
      invariant Filled(out[..], o, t, n, jj, jj + 1, c, e)
    {
      ghost var b := out[..];
      PutBlock(inp, out, o, lda, ldb, bs, ii + kk, jj, n, e);
      MoreColumns(a, b, out[..], o, t, n, jj, jj + 1, c, e, e + bs);
      NextBlock(ii + kk, bs);
      e := e + bs;
    }
  }

  /** The two inner loops of TRANS_ELEM_TYPE. */
  method PutItemRows(inp: seq<byte>, out: array<byte>, o: nat, lda: nat, ldb: nat, bs: nat, ii: nat, len: nat,
                     ghost n: nat, ghost c: nat)
    returns (ghost e: nat)
    requires |inp| == lda * ldb * bs && o + |inp| <= out.Length && ii + len <= lda
    requires n == lda * bs && c == ii * bs
    modifies out
    ensures e == (ii + len) * bs
    ensures Keeps(old(out[..]), out[..], o, BlockTransposed(inp, lda, ldb, bs))
    ensures Filled(out[..], o, BlockTransposed(inp, lda, ldb, bs), n, 0, ldb, c, e)
  {
    ghost var t := BlockTransposed(inp, lda, ldb, bs);
    ghost var a := out[..];
    e := (ii + len) * bs;
    for jj := 0 to ldb
      invariant Keeps(a, out[..], o, t)
      invariant Filled(out[..], o, t, n, 0, jj, c, e)
    {
      ghost var b := out[..];
      ghost var _ := PutItems(inp, out, o, lda, ldb, bs, ii, len, jj, n, c);
      MoreRows(a, b, out[..], o, t, n, 0, jj, jj + 1, c, e);
    }
  }

  /** The loop of TRANS_ELEM_TYPE over groups of eight rows. */
  method PutItemGroups(inp: seq<byte>, out: array<byte>, o: nat, lda: nat, ldb: nat, bs: nat, ghost n: nat)
    returns (ii: nat, ghost c: nat)
    requires |inp| == lda * ldb * bs && o + |inp| <= out.Length && n == lda * bs
    modifies out
    ensures ii == lda - lda % 8 && c == ii * bs
    ensures Keeps(old(out[..]), out[..], o, BlockTransposed(inp, lda, ldb, bs))
    ensures Filled(out[..], o, BlockTransposed(inp, lda, ldb, bs), n, 0, ldb, 0, c)
  {
    ghost var t := BlockTransposed(inp, lda, ldb, bs);
    ghost var a := out[..];
    ii, c := 0, 0;
    ghost var g := 0;
    while ii + 7 < lda
      invariant ii <= lda && ii == 8 * g && c == ii * bs
      invariant Keeps(a, out[..], o, t)
      invariant Filled(out[..], o, t, n, 0, ldb, 0, c)
    {
      ghost var b := out[..];
      ghost var e := PutItemRows(inp, out, o, lda, ldb, bs, ii, 8, n, c);
      MoreColumns(a, b, out[..], o, t, n, 0, ldb, 0, c, e);
      ii, c, g := ii + 8, e, g + 1;
    }
    LastGroup(g, 8, lda);
  }

  /** TRANS_ELEM_TYPE for a type of bs bytes: rows in groups of eight, the last ones singly. */
  method TransElemType(inp: seq<byte>, out: array<byte>, o: nat, lda: nat, ldb: nat, bs: nat)
    requires |inp| == lda * ldb * bs && o + |inp| <= out.Length
    modifies out
    ensures out[..] == Patched(old(out[..]), o, BlockTransposed(inp, lda, ldb, bs))
  {
    ghost var t := BlockTransposed(inp, lda, ldb, bs);
    ghost var a := out[..];
    ghost var n := lda * bs;
    ghost var c;
    var ii;
    ii, c := PutItemGroups(inp, out, o, lda, ldb, bs, n);
    while ii < lda
      invariant ii <= lda && c == ii * bs
      invariant Keeps(a, out[..], o, t)
      invariant Filled(out[..], o, t, n, 0, ldb, 0, c)
    {
      ghost var b := out[..];
      ghost var e := PutItemRows(inp, out, o, lda, ldb, bs, ii, 1, n, c);
      MoreColumns(a, b, out[..], o, t, n, 0, ldb, 0, c, e);
      ii, c := ii + 1, e;
    }
    BlockBytes(lda, ldb, bs);
    FilledAll(a, out[..], o, t, ldb, n);
  }

  /** Elements of q chunks of c bytes: transposing the chunks, then the bytes of all chunks, then
      the rows of bytes, transposes the bytes of the elements. */
  ghost function ThreePasses(s: seq<byte>, size: nat, q: nat, c: nat): (t: seq<byte>)
    requires |s| == size * q * c
    ensures |t| == |s|
  {
    assert size * q * c == c * q * size;
    BlockTransposed(Transposed(BlockTransposed(s, size, q, c), size * q, c), c, q, size)
  }

  /** Byte ii of chunk jj of element b, through the three passes. */
  lemma ThreePassesAt(s: seq<byte>, size: nat, q: nat, c: nat, b: nat, jj: nat, ii: nat)
    requires |s| == size * q * c && b < size && jj < q && ii < c
    ensures Idx(Idx(jj, c, ii), size, b) < |s| && Idx(b, q * c, Idx(jj, c, ii)) < |s|
    ensures ThreePasses(s, size, q, c)[Idx(Idx(jj, c, ii), size, b)] == s[Idx(b, q * c, Idx(jj, c, ii))]
  {
    assert size * q * c == c * q * size;
    var mid := BlockTransposed(s, size, q, c);
    var tmp := Transposed(mid, size * q, c);
    assert q * size == size * q;
    IdxNest(ii, q, jj, size, b);
    IdxNest(b, q, jj, c, ii);
    BlockTransposedAt(tmp, c, q, size, ii, jj, b);
    IdxBound(jj, q, size, b);
    TransposedAt(mid, size * q, c, Idx(jj, size, b), ii);
    BlockTransposedAt(s, size, q, c, b, jj, ii);
  }

  lemma ThreePassesTranspose(s: seq<byte>, size: nat, q: nat, c: nat)
    requires |s| == size * q * c
    ensures |s| == size * (q * c) && ThreePasses(s, size, q, c) == Transposed(s, size, q * c)
  {
    assert size * q * c == size * (q * c) == q * c * size;
    var t, u := ThreePasses(s, size, q, c), Transposed(s, size, q * c);
    forall p: nat | p < |s|
      ensures t[p] == u[p]
    {
      var k, b := RowOf(p, size), ColOf(p, size);
      IdxSplit(p, q * c, size);
      IdxSplit(k, q, c);
      ThreePassesAt(s, size, q, c, b, RowOf(k, c), ColOf(k, c));
      TransposedAt(s, size, q * c, b, k);
    }
  }

  /** The first two passes: through out, to a buffer of its own. */
  method TwoPasses(inp: seq<byte>, out: array<byte>, o: nat, size: nat, q: nat, c: nat)
    returns (count: int, tmp: seq<byte>)
    requires HasKernel(Trans, c) && |inp| == size * q * c && o + |inp| <= out.Length
    modifies out
    ensures count == |inp| == |BlockTransposed(inp, size, q, c)|
    ensures tmp == Transposed(BlockTransposed(inp, size, q, c), size * q, c)
    ensures out[..] == Patched(old(out[..]), o, BlockTransposed(inp, size, q, c))
  {
    ghost var a, mid := out[..], BlockTransposed(inp, size, q, c);
    TransElemType(inp, out, o, size, q, c);
    PatchedTwice(a, o, mid, mid);
    var pass1 := out[o..o + size * q * c];
    var buffer := new byte[size * q * c];
    count := TransByteElemGroups(pass1, buffer, 0, size * q, c);
    tmp := buffer[..];
  }

  /** The three passes, through out and a buffer of its own, for elements of q chunks of c bytes. */
  method TransByThreePasses(inp: seq<byte>, out: array<byte>, o: nat, size: nat, q: nat, c: nat) returns (count: int)
    requires HasKernel(Trans, c) && |inp| == size * q * c && o + |inp| <= out.Length
    modifies out
    ensures count == |inp| == size * (q * c)
    ensures out[..] == Patched(old(out[..]), o, Transposed(inp, size, q * c))
  {
    ghost var a := out[..];
    ThreePassesTranspose(inp, size, q, c);
    var tmp;
    count, tmp := TwoPasses(inp, out, o, size, q, c);
    assert size * q * c == c * q * size;
    PatchedTwice(a, o, BlockTransposed(inp, size, q, c), Transposed(inp, size, q * c));
    var _ := TransElem(tmp, out, o, c, q, size);
  }

  lemma Chunks(size: nat, e: nat, q: nat, c: nat)
    requires e == q * c
    ensures size * e == size * q * c
  {
  }

  /** bshuf_trans_byte_elem_SSE. */
  method TransByteElem(inp: seq<byte>, out: array<byte>, o: nat, size: nat, elemSize: nat) returns (count: int)
    requires |inp| == size * elemSize && o + |inp| <= out.Length
    modifies out
    ensures count == |inp|
    ensures out[..] == Patched(old(out[..]), o, Transposed(inp, size, elemSize))
  {
    if elemSize == 1 {
      OneByte(inp, size);
      ghost var a := out[..];
      Put(out, o, 0, inp, inp);
      assert out[..] == Patched(a, o, inp);
      return size * elemSize;
    } else if elemSize == 2 || elemSize == 4 || elemSize == 8 {
      count := TransByteElemGroups(inp, out, o, size, elemSize);
    } else if elemSize % 4 != 0 {
      count := TransByteElemScal(inp, out, o, size, elemSize);
    } else if elemSize % 8 == 0 {
      Chunks(size, elemSize, elemSize / 8, 8);
      count := TransByThreePasses(inp, out, o, size, elemSize / 8, 8);
    } else {
      Chunks(size, elemSize, elemSize / 4, 4);
      count := TransByThreePasses(inp, out, o, size, elemSize / 4, 4);
    }
  }

  /** Transposing elements of one byte changes nothing. */
  lemma OneByte(s: seq<byte>, size: nat)
    requires |s| == size
    ensures Transposed(s, size, 1) == s
  {
    forall p: nat | p < size
      ensures Transposed(s, size, 1)[p] == s[p]
    {
      TransposedAt(s, size, 1, p, 0);
      IdxIs(0, size, p);
      IdxIs(p, 1, 0);
    }
  }
}
