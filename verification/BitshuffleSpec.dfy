/** What the passes of bitshuffle compute, and the laws between them: the three scalar
    passes together are one bit-matrix transpose, and the two passes of the inverse, which
    are organised differently, undo it. */
module BitshuffleSpec {
  import opened Transposition
  import opened BitMatrix

  /** Octet number i: eight consecutive bytes, loaded as one word. */
  ghost function Octet(s: seq<byte>, i: nat): (b: seq<byte>)
    requires 8 * i + 8 <= |s|
    ensures |b| == 8
  {
    s[8 * i..8 * i + 8]
  }

  /** The pass over nb words: the k-th byte of the transposed octet i goes to row k. */
  ghost function BitByte(s: seq<byte>, nb: nat): (t: seq<byte>)
    requires |s| == 8 * nb
    ensures |t| == |s|
  {
    seq(|s|, p requires 0 <= p < |s| =>
      IdxSplit(p, 8, nb);
      BitsTransposed(Octet(s, ColOf(p, nb)))[RowOf(p, nb)])
  }

  lemma BitByteAt(s: seq<byte>, nb: nat, k: nat, i: nat)
    requires |s| == 8 * nb && k < 8 && i < nb
    ensures Idx(k, nb, i) < |s| && BitByte(s, nb)[Idx(k, nb, i)] == BitsTransposed(Octet(s, i))[k]
  {
    IdxBound(k, 8, nb, i);
    IdxParts(k, nb, i);
  }

  /** Where the block transpose takes byte p from. */
  ghost function BlockSource(p: nat, rows: nat, cols: nat, bs: nat): (q: nat)
    requires p < rows * cols * bs
    ensures q < rows * cols * bs
  {
    var t := RowOf(p, bs);
    IdxSplit(p, rows * cols, bs);
    assert rows * cols == cols * rows;
    IdxSplit(t, cols, rows);
    IdxBound(ColOf(t, rows), rows, cols, RowOf(t, rows));
    IdxBound(Idx(ColOf(t, rows), cols, RowOf(t, rows)), rows * cols, bs, ColOf(p, bs));
    Idx(Idx(ColOf(t, rows), cols, RowOf(t, rows)), bs, ColOf(p, bs))
  }

  /** A transpose of a matrix whose items are blocks of bs bytes. */
  ghost function BlockTransposed(s: seq<byte>, rows: nat, cols: nat, bs: nat): (t: seq<byte>)
    requires |s| == rows * cols * bs
    ensures |t| == |s|
  {
    seq(|s|, p requires 0 <= p < |s| => s[BlockSource(p, rows, cols, bs)])
  }

  lemma BlockTransposedAt(s: seq<byte>, rows: nat, cols: nat, bs: nat, i: nat, j: nat, b: nat)
    requires |s| == rows * cols * bs && i < rows && j < cols && b < bs
    ensures Idx(Idx(j, rows, i), bs, b) < |s| && Idx(Idx(i, cols, j), bs, b) < |s|
    ensures BlockTransposed(s, rows, cols, bs)[Idx(Idx(j, rows, i), bs, b)] == s[Idx(Idx(i, cols, j), bs, b)]
  {
    assert rows * cols == cols * rows;
    IdxBound(j, cols, rows, i);
    IdxBound(i, rows, cols, j);
    IdxBound(Idx(j, rows, i), rows * cols, bs, b);
    IdxBound(Idx(i, cols, j), rows * cols, bs, b);
    IdxParts(Idx(j, rows, i), bs, b);
    IdxParts(j, rows, i);
  }

  /** The octet that byte p of the second pass of the inverse comes from. */
  ghost function EightSource(p: nat, m: nat, e: nat): (i: nat)
    requires p < m * 8 * e
    ensures 8 * i + 8 <= m * 8 * e
  {
    var t := RowOf(p, e);
    IdxSplit(p, m * 8, e);
    IdxSplit(t, m, 8);
    IdxBound(RowOf(t, 8), m, e, ColOf(p, e));
    Sizes(m, e);
    Idx(RowOf(t, 8), e, ColOf(p, e))
  }

  /** The second pass of the inverse: octet (r, j) of the input becomes, transposed, byte j
      of the eight elements of group r. */
  ghost function EightElem(s: seq<byte>, m: nat, e: nat): (t: seq<byte>)
    requires |s| == m * 8 * e
    ensures |t| == |s|
  {
    seq(|s|, p requires 0 <= p < |s| => BitsTransposed(Octet(s, EightSource(p, m, e)))[ColOf(RowOf(p, e), 8)])
  }

  lemma EightElemAt(s: seq<byte>, m: nat, e: nat, r: nat, k: nat, j: nat)
    requires |s| == m * 8 * e && r < m && k < 8 && j < e
    ensures Idx(Idx(r, 8, k), e, j) < |s| && 8 * Idx(r, e, j) + 8 <= |s|
    ensures EightElem(s, m, e)[Idx(Idx(r, 8, k), e, j)] == BitsTransposed(Octet(s, Idx(r, e, j)))[k]
  {
    IdxBound(r, m, 8, k);
    IdxBound(Idx(r, 8, k), m * 8, e, j);
    IdxParts(Idx(r, 8, k), e, j);
    IdxParts(r, 8, k);
    IdxBound(r, m, e, j);
    Sizes(m, e);
  }

  // ---------------------------------------------------------------------------
  // The two directions. There are m * 8 elements of e bytes.
  // ---------------------------------------------------------------------------

  lemma Sizes(m: nat, e: nat)
    ensures m * 8 * e == 8 * (e * m) == 8 * e * m == e * 8 * m
    ensures m * 8 * e % 8 == 0
  {
    assert m * 8 * e == 8 * (e * m);
    assert 8 * e == e * 8;
  }

  /** bshuf_trans_bit_elem_scal: byte transpose, bit transpose of words, row transpose. */
  ghost function BitElem(s: seq<byte>, m: nat, e: nat): (t: seq<byte>)
    requires |s| == m * 8 * e
    ensures |t| == |s|
  {
    Sizes(m, e);
    BlockTransposed(BitByte(Transposed(s, m * 8, e), e * m), 8, e, m)
  }

  /** bshuf_untrans_bit_elem_scal: transpose of the bit rows, bit transpose of words. */
  ghost function UnBitElem(s: seq<byte>, m: nat, e: nat): (t: seq<byte>)
    requires |s| == m * 8 * e
    ensures |t| == |s|
  {
    Sizes(m, e);
    EightElem(Transposed(s, e * 8, m), m, e)
  }

  /** The place, in the shuffled block, of byte r of the row for bit k of byte j. */
  function BitRow(j: nat, k: nat, m: nat, r: nat): nat {
    Idx(Idx(j, 8, k), m, r)
  }

  /** The place, in the plain block, of byte j of element 8 r + b. */
  function ElemByte(r: nat, b: nat, e: nat, j: nat): nat {
    Idx(Idx(r, 8, b), e, j)
  }

  lemma Places(m: nat, e: nat, j: nat, k: nat, r: nat, b: nat)
    requires j < e && k < 8 && r < m && b < 8
    ensures BitRow(j, k, m, r) < m * 8 * e && ElemByte(r, b, e, j) < m * 8 * e
  {
    Sizes(m, e);
    IdxBound(j, e, 8, k);
    IdxBound(Idx(j, 8, k), e * 8, m, r);
    IdxBound(r, m, 8, b);
    IdxBound(Idx(r, 8, b), m * 8, e, j);
  }

  /** Byte b of an octet, as a byte of the sequence. */
  lemma OctetAt(t: seq<byte>, i: nat, b: nat)
    requires 8 * i + 8 <= |t| && b < 8
    ensures Idx(i, 8, b) < |t| && Octet(t, i)[b] == t[Idx(i, 8, b)]
  {
    IdxIs(i, 8, b);
  }

  /** The byte transpose and the word pass, bit by bit. */
  lemma WordPassAt(s: seq<byte>, m: nat, e: nat, j: nat, k: nat, r: nat, b: nat, nb: nat, q: nat)
    requires |s| == m * 8 * e == 8 * nb && nb == e * m && j < e && k < 8 && r < m && b < 8 &&
             q == Idx(Idx(k, e, j), m, r)
    ensures ElemByte(r, b, e, j) < |s| && q < |s|
    ensures BitByte(Transposed(s, m * 8, e), nb)[q][b] == s[ElemByte(r, b, e, j)][k]
  {
    Places(m, e, j, k, r, b);
    var t := Transposed(s, m * 8, e);
    var i := Idx(j, m, r);
    IdxBound(j, e, m, r);
    BitByteAt(t, nb, k, i);
    IdxNest(k, e, j, m, r);
    OctetAt(t, i, b);
    IdxNest(j, m, r, 8, b);
    IdxBound(r, m, 8, b);
    TransposedAt(s, m * 8, e, Idx(r, 8, b), j);
  }

  /** The three scalar passes are one bit-matrix transpose: bit b of byte r of the row for
      bit k of byte j is bit k of byte j of element 8 r + b. */
  lemma BitElemAt(s: seq<byte>, m: nat, e: nat, j: nat, k: nat, r: nat, b: nat)
    requires |s| == m * 8 * e && j < e && k < 8 && r < m && b < 8
    ensures BitRow(j, k, m, r) < |s| && ElemByte(r, b, e, j) < |s|
    ensures BitElem(s, m, e)[BitRow(j, k, m, r)][b] == s[ElemByte(r, b, e, j)][k]
  {
    Sizes(m, e);
    Places(m, e, j, k, r, b);
    WordPassAt(s, m, e, j, k, r, b, e * m, Idx(Idx(k, e, j), m, r));
    BlockTransposedAt(BitByte(Transposed(s, m * 8, e), e * m), 8, e, m, k, j, r);
  }

  /** The two passes of the inverse are the transpose back. */
  lemma UnBitElemAt(s: seq<byte>, m: nat, e: nat, j: nat, k: nat, r: nat, b: nat)
    requires |s| == m * 8 * e && j < e && k < 8 && r < m && b < 8
    ensures BitRow(j, k, m, r) < |s| && ElemByte(r, b, e, j) < |s|
    ensures UnBitElem(s, m, e)[ElemByte(r, b, e, j)][k] == s[BitRow(j, k, m, r)][b]
  {
    Sizes(m, e);
    Places(m, e, j, k, r, b);
    var t := Transposed(s, e * 8, m);
    var i := Idx(r, e, j);
    EightElemAt(t, m, e, r, b, j);
    OctetAt(t, i, k);
    IdxNest(r, e, j, 8, k);
    IdxBound(j, e, 8, k);
    TransposedAt(s, e * 8, m, Idx(j, 8, k), r);
  }

  /** Every place of a block is byte j of one element 8 r + b. */
  lemma ElemPlace(p: nat, m: nat, e: nat) returns (r: nat, b: nat, j: nat)
    requires p < m * 8 * e
    ensures r < m && b < 8 && j < e && p == ElemByte(r, b, e, j)
  {
    IdxSplit(p, m * 8, e);
    IdxSplit(RowOf(p, e), m, 8);
    r, b, j := RowOf(RowOf(p, e), 8), ColOf(RowOf(p, e), 8), ColOf(p, e);
  }

  /** Every place of a block is byte r of the row for one bit k of one byte j. */
  lemma RowPlace(p: nat, m: nat, e: nat) returns (j: nat, k: nat, r: nat)
    requires p < m * 8 * e
    ensures r < m && k < 8 && j < e && p == BitRow(j, k, m, r)
  {
    Sizes(m, e);
    IdxSplit(p, e * 8, m);
    IdxSplit(RowOf(p, m), e, 8);
    r, k, j := ColOf(p, m), ColOf(RowOf(p, m), 8), RowOf(RowOf(p, m), 8);
  }

  /** The inverse undoes the transpose. */
  lemma UnshuffleShuffle(s: seq<byte>, m: nat, e: nat)
    requires |s| == m * 8 * e
    ensures UnBitElem(BitElem(s, m, e), m, e) == s
  {
    var t := BitElem(s, m, e);
    var u := UnBitElem(t, m, e);
    forall p: nat | p < |s|
      ensures u[p] == s[p]
    {
      var r, b, j := ElemPlace(p, m, e);
      forall k: nat | k < 8
        ensures u[p][k] == s[p][k]
      {
        BitElemAt(s, m, e, j, k, r, b);
        UnBitElemAt(t, m, e, j, k, r, b);
      }
    }
  }

  /** The transpose undoes the inverse. */
  lemma ShuffleUnshuffle(s: seq<byte>, m: nat, e: nat)
    requires |s| == m * 8 * e
    ensures BitElem(UnBitElem(s, m, e), m, e) == s
  {
    var t := UnBitElem(s, m, e);
    var u := BitElem(t, m, e);
    forall p: nat | p < |s|
      ensures u[p] == s[p]
    {
      var j, k, r := RowPlace(p, m, e);
      forall b: nat | b < 8
        ensures u[p][b] == s[p][b]
      {
        BitElemAt(t, m, e, j, k, r, b);
        UnBitElemAt(s, m, e, j, k, r, b);
      }
    }
  }

  /** The transpose of n elements of e bytes, n a multiple of eight. */
  ghost function Shuffled(s: seq<byte>, n: nat, e: nat): (t: seq<byte>)
    requires |s| == n * e && n % 8 == 0
    ensures |t| == |s|
  {
    BitElem(s, n / 8, e)
  }

  /** The inverse transpose of n elements of e bytes, n a multiple of eight. */
  ghost function Unshuffled(s: seq<byte>, n: nat, e: nat): (t: seq<byte>)
    requires |s| == n * e && n % 8 == 0
    ensures |t| == |s|
  {
    UnBitElem(s, n / 8, e)
  }
}
