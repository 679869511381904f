/** The streaming part of MD5: a context takes a message in pieces of any size, transforms each
    complete block of 64 bytes, and pads the rest as sections 3.1 and 3.2 of RFC 1321 say. The
    block transformation is a parameter. Words have 32 bits, as the header of the source says. */
module Md5 {
  import opened Values

  type word = w: nat | w < 0x1_0000_0000

  const TWO32: nat := 0x1_0000_0000
  const TWO64: nat := 0x1_0000_0000_0000_0000

  type Transform = (seq<word>, seq<word>) -> seq<word>

  /** The transformation of a state of four words by a block of sixteen words. */
  ghost predicate Sized(f: Transform) {
    forall b: seq<word>, x: seq<word> {:trigger f(b, x)} :: |b| == 4 && |x| == 16 ==> |f(b, x)| == 4
  }

  const INITIAL: seq<word> := [0x6745_2301, 0xefcd_ab89, 0x98ba_dcfe, 0x1032_5476]

  /** Four bytes as a word, low-order byte first. */
  function Word(s: seq<byte>): (w: word)
    requires |s| == 4
  {
    s[0] as nat + 0x100 * (s[1] as nat) + 0x1_0000 * (s[2] as nat) + 0x100_0000 * (s[3] as nat)
  }

  function Words(s: seq<byte>, n: nat): (x: seq<word>)
    requires |s| == 4 * n
    ensures |x| == n
  {
    seq(n, i requires 0 <= i < n => Word(s[4 * i..4 * i + 4]))
  }

  /** A word as four bytes, low-order byte first. */
  function Bytes(w: word): (s: seq<byte>)
    ensures |s| == 4
  {
    [w % 0x100, w / 0x100 % 0x100, w / 0x1_0000 % 0x100, w / 0x100_0000]
  }

  lemma WordOfBytes(w: word)
    ensures Word(Bytes(w)) == w
  {
    var a := w / 0x100;
    var b := a / 0x100;
    assert w / 0x1_0000 == b && w / 0x100_0000 == b / 0x100;
    assert w == 0x100 * a + w % 0x100 && a == 0x100 * b + a % 0x100 && b == 0x100 * (b / 0x100) + b % 0x100;
  }

  /** Byte i of a number, the low-order byte being byte 0. */
  function ByteOf(n: nat, i: nat): byte {
    if i == 0 then n % 0x100 else ByteOf(n / 0x100, i - 1)
  }

  /** The first byte of a word is its low-order byte. */
  lemma WordAt(s: seq<byte>)
    requires |s| == 4
    ensures Word(s) % 0x100 == s[0] && Word(s) / 0x100 % 0x100 == s[1]
    ensures Word(s) / 0x1_0000 % 0x100 == s[2] && Word(s) / 0x100_0000 == s[3]
    ensures forall i :: 0 <= i < 4 ==> ByteOf(Word(s), i) == s[i]
  {
    var a, b, c, d := s[0] as nat, s[1] as nat, s[2] as nat, s[3] as nat;
    assert Word(s) / 0x100 == b + 0x100 * c + 0x1_0000 * d;
    assert Word(s) / 0x1_0000 == c + 0x100 * d;
    FourBytes(Word(s));
  }

  lemma FourBytes(w: word)
    ensures ByteOf(w, 0) == w % 0x100 && ByteOf(w, 1) == w / 0x100 % 0x100
    ensures ByteOf(w, 2) == w / 0x1_0000 % 0x100 && ByteOf(w, 3) == w / 0x100_0000
  {
    var a := w / 0x100;
    var b := a / 0x100;
    var c := b / 0x100;
    assert w / 0x1_0000 == b && w / 0x100_0000 == c;
    assert ByteOf(w, 1) == ByteOf(a, 0) && ByteOf(w, 2) == ByteOf(a, 1) == ByteOf(b, 0);
    assert ByteOf(w, 3) == ByteOf(a, 2) == ByteOf(b, 1) == ByteOf(c, 0);
  }

  /** So it is in both directions. */
  lemma BytesAt(w: word)
    ensures forall i :: 0 <= i < 4 ==> Bytes(w)[i] == ByteOf(w, i)
  {
    WordAt(Bytes(w));
    WordOfBytes(w);
  }

  lemma WordsAt(s: seq<byte>, n: nat, i: nat, j: nat)
    requires |s| == 4 * n && i < n && j < 4
    ensures ByteOf(Words(s, n)[i], j) == s[4 * i + j]
  {
    WordAt(s[4 * i..4 * i + 4]);
  }

  // ---------------------------------------------------------------------------
  // The digest of a message
  // ---------------------------------------------------------------------------

  /** The state after the first k blocks of a message. */
  ghost function Fold(f: Transform, msg: seq<byte>, k: nat): (b: seq<word>)
    requires Sized(f) && 64 * k <= |msg|
    ensures |b| == 4
  {
    if k == 0 then INITIAL else f(Fold(f, msg, k - 1), Words(msg[64 * k - 64..64 * k], 16))
  }

  lemma {:induction false} FoldPrefix(f: Transform, msg: seq<byte>, more: seq<byte>, k: nat)
    requires Sized(f) && 64 * k <= |msg|
    ensures Fold(f, msg + more, k) == Fold(f, msg, k)
  {
    if k > 0 {
      FoldPrefix(f, msg, more, k - 1);
      assert (msg + more)[64 * k - 64..64 * k] == msg[64 * k - 64..64 * k];
    }
  }

  /** The number of zero bytes of the padding: the length becomes 56 modulo 64. */
  function Zeros(n: nat): nat {
    (119 - n % 64) % 64
  }

  function ZeroBytes(n: nat): (s: seq<byte>)
    ensures |s| == n
  {
    seq(n, i => 0)
  }

  /** The bits of a message, modulo 2^64, as two words. */
  ghost function BitsLow(n: nat): word {
    8 * n % TWO64 % TWO32
  }

  ghost function BitsHigh(n: nat): word {
    8 * n % TWO64 / TWO32
  }

  /** Section 3.1: a bit 1 and then bits 0. Section 3.2: the length, low-order word first. */
  ghost function Padded(msg: seq<byte>): seq<byte> {
    msg + [0x80] + ZeroBytes(Zeros(|msg|)) + Bytes(BitsLow(|msg|)) + Bytes(BitsHigh(|msg|))
  }

  lemma PaddedLength(msg: seq<byte>)
    ensures |Padded(msg)| % 64 == 0
  {
    RoundedUp(|msg|);
  }

  lemma RoundedUp(n: nat)
    ensures (n + 1 + Zeros(n) + 8) % 64 == 0
  {
    var k, r := n / 64, n % 64;
    assert Zeros(n) == if r < 56 then 55 - r else 119 - r;
    assert n + 9 + Zeros(n) == if r < 56 then 64 * (k + 1) else 64 * (k + 2);
  }

  ghost function BytesOf(b: seq<word>): (s: seq<byte>)
    requires |b| == 4
    ensures |s| == 16
  {
    Bytes(b[0]) + Bytes(b[1]) + Bytes(b[2]) + Bytes(b[3])
  }

  /** Sections 3.4 and 3.5: the padded message, block by block, and the state as bytes. */
  ghost function Digest(f: Transform, msg: seq<byte>): seq<byte>
    requires Sized(f)
  {
    PaddedLength(msg);
    BytesOf(Fold(f, Padded(msg), |Padded(msg)| / 64))
  }

  /** Section 3.3: the initial state, as bytes. */
  lemma InitialBytes()
    ensures BytesOf(INITIAL) == [0x01, 0x23, 0x45, 0x67, 0x89, 0xab, 0xcd, 0xef,
                                 0xfe, 0xdc, 0xba, 0x98, 0x76, 0x54, 0x32, 0x10]
  {
  }

  lemma StateBytes(b: seq<word>, i: nat, j: nat)
    requires |b| == 4 && i < 4 && j < 4
    ensures BytesOf(b)[4 * i + j] == ByteOf(b[i], j)
  {
    BytesAt(b[i]);
    assert i == 0 || i == 1 || i == 2 || i == 3;
  }

  /** The digest is the state after all blocks of the padded message, word by word, each low-order byte first. */
  lemma DigestAt(f: Transform, msg: seq<byte>, i: nat, j: nat)
    requires Sized(f) && i < 4 && j < 4
    ensures |Padded(msg)| % 64 == 0 && |Digest(f, msg)| == 16
    ensures Digest(f, msg)[4 * i + j] == ByteOf(Fold(f, Padded(msg), |Padded(msg)| / 64)[i], j)
  {
    PaddedLength(msg);
    StateBytes(Fold(f, Padded(msg), |Padded(msg)| / 64), i, j);
  }

  /** Bytes below a multiple of 2^32, 2^24, 2^16 and 2^8. */
  lemma LowFour(q: nat, r: nat, i: nat)
    requires i < 4
    ensures ByteOf(0x1_0000_0000 * q + r, i) == ByteOf(r, i)
  {
    if i > 0 {
      assert (0x1_0000_0000 * q + r) / 0x100 == 0x100_0000 * q + r / 0x100;
      LowThree(q, r / 0x100, i - 1);
    }
  }

  lemma LowThree(q: nat, r: nat, i: nat)
    requires i < 3
    ensures ByteOf(0x100_0000 * q + r, i) == ByteOf(r, i)
  {
    if i > 0 {
      assert (0x100_0000 * q + r) / 0x100 == 0x1_0000 * q + r / 0x100;
      LowTwo(q, r / 0x100, i - 1);
    }
  }

  lemma LowTwo(q: nat, r: nat, i: nat)
    requires i < 2
    ensures ByteOf(0x1_0000 * q + r, i) == ByteOf(r, i)
  {
    if i > 0 {
      assert (0x1_0000 * q + r) / 0x100 == 0x100 * q + r / 0x100;
    }
  }

  lemma LowBytes(n: nat, i: nat)
    requires i < 4
    ensures ByteOf(n % TWO32, i) == ByteOf(n, i)
  {
    LowFour(n / TWO32, n % TWO32, i);
  }

  lemma HighBytes(n: nat, i: nat)
    ensures ByteOf(n, i + 4) == ByteOf(n / TWO32, i)
  {
    var a := n / 0x100;
    var b := a / 0x100;
    var c := b / 0x100;
    assert ByteOf(n, i + 4) == ByteOf(a, i + 3);
    assert ByteOf(a, i + 3) == ByteOf(b, i + 2);
    assert ByteOf(b, i + 2) == ByteOf(c, i + 1);
    assert ByteOf(c, i + 1) == ByteOf(c / 0x100, i);
    assert c / 0x100 == n / TWO32;
  }

  lemma LengthWords(n: nat)
    ensures BitsLow(n) == 8 * n % TWO32 && BitsHigh(n) == 8 * n / TWO32 % TWO32
  {
  }

  /** The eight bytes of the length. */
  lemma LengthBytes(n: nat, i: nat)
    requires i < 8
    ensures (Bytes(BitsLow(n)) + Bytes(BitsHigh(n)))[i] == ByteOf(8 * n, i)
  {
    LengthWords(n);
    if i < 4 {
      BytesAt(BitsLow(n));
      LowBytes(8 * n, i);
    } else {
      BytesAt(BitsHigh(n));
      LowBytes(8 * n / TWO32, i - 4);
      HighBytes(8 * n, i - 4);
    }
  }

  /** Sections 3.1 and 3.2: after the message come the byte 0x80, fewer than 64 zero bytes, and the number of bits of
      the message in eight bytes, the low-order byte first; together they fill blocks of 64 bytes. */
  lemma PaddedAt(msg: seq<byte>, i: nat)
    requires i < 8
    ensures var p := Padded(msg); var z := |p| - |msg| - 9;
            && 0 <= z < 64 && |p| % 64 == 0 && p[..|msg|] == msg && p[|msg|] == 0x80
            && (forall k :: |msg| < k < |p| - 8 ==> p[k] == 0)
            && p[|p| - 8 + i] == ByteOf(8 * |msg|, i)
  {
    PaddedLength(msg);
    LengthBytes(|msg|, i);
    var t := Bytes(BitsLow(|msg|)) + Bytes(BitsHigh(|msg|));
    assert Padded(msg) == msg + [0x80] + ZeroBytes(Zeros(|msg|)) + t;
  }

  // ---------------------------------------------------------------------------
  // The count of bits
  // ---------------------------------------------------------------------------

  /** i0 and i1 are the bits of n bytes, with q for what is beyond 64 bits. */
  ghost predicate Counts(n: nat, i0: nat, i1: nat, q: nat) {
    i0 < TWO32 && i1 < TWO32 && 8 * n == i0 + TWO32 * i1 + TWO64 * q
  }

  lemma CountsAre(n: nat, i0: nat, i1: nat, q: nat)
    requires Counts(n, i0, i1, q)
    ensures i0 == BitsLow(n) && i1 == BitsHigh(n)
  {
    var x := i0 + TWO32 * i1;
    assert x < TWO64;
    assert 8 * n % TWO64 == x;
  }

  /** The pending bytes of the current block. */
  lemma Pending(n: nat, k: nat, i0: nat, i1: nat, q: nat)
    requires Counts(n, i0, i1, q) && 64 * k <= n < 64 * k + 64
    ensures i0 / 8 % 64 == n - 64 * k
  {
    var r := n - 64 * k;
    var j := k - 0x80_0000 * i1 - 0x80_0000_0000_0000 * q;
    assert i0 == 512 * j + 8 * r;
    assert i0 / 8 == 64 * j + r;
  }

  /** Adding len bytes to the count, with carries. */
  method AddBits(i0: word, i1: word, len: nat, ghost n: nat, ghost q: nat) returns (j0: word, j1: word, ghost p: nat)
    requires len < TWO32 && Counts(n, i0, i1, q)
    ensures Counts(n + len, j0, j1, p)
    ensures j0 == BitsLow(n + len) && j1 == BitsHigh(n + len)
  {
    var bits := 8 * len % TWO32;
    j0 := (i0 + bits) % TWO32;
    var high := i1 as nat;
    if j0 < i0 {
      high := (high + 1) % TWO32;
    }
    j1 := (high + len / 0x2000_0000) % TWO32;
    ghost var carry := if j0 < i0 then 1 else 0;
    LowWord(i0, len, bits, j0, carry);
    ghost var sum := i1 + carry + len / 0x2000_0000;
    HighWord(i1, carry, len / 0x2000_0000, high, j1, sum);
    p := q + sum / TWO32;
    CountsAre(n + len, j0, j1, p);
  }

  /** The low words add up with a carry. */
  lemma LowWord(i0: word, len: nat, bits: nat, j0: word, carry: nat)
    requires len < TWO32 && bits == 8 * len % TWO32 && j0 == (i0 + bits) % TWO32 && carry == if j0 < i0 then 1 else 0
    ensures i0 + 8 * len == j0 + TWO32 * (carry + len / 0x2000_0000)
  {
    assert 8 * len == bits + TWO32 * (len / 0x2000_0000);
    assert i0 + bits == j0 + TWO32 * carry;
  }

  /** The high words, the carry and the high bits of the length add up modulo 2^32. */
  lemma HighWord(i1: word, carry: nat, more: nat, high: nat, j1: word, sum: nat)
    requires carry <= 1 && high == (if carry == 1 then (i1 + 1) % TWO32 else i1)
    requires j1 == (high + more) % TWO32 && sum == i1 + carry + more
    ensures sum == j1 + TWO32 * (sum / TWO32)
  {
    var h := i1 + carry;
    assert high == if h < TWO32 then h else h - TWO32;
    var m := high + more;
    assert m == j1 + TWO32 * (m / TWO32);
    assert sum == m || sum == m + TWO32;
  }

  // ---------------------------------------------------------------------------
  // The context
  // ---------------------------------------------------------------------------

  /** The state after k blocks and the pending bytes stand for the message m. */
  ghost predicate Absorbed(f: Transform, m: seq<byte>, k: nat, buf: seq<word>, pending: seq<byte>) {
    && Sized(f) && |m| == 64 * k + |pending|
    && buf == Fold(f, m, k) && pending == m[64 * k..]
  }

  /** One more byte that does not complete a block. */
  lemma AbsorbByte(f: Transform, m: seq<byte>, k: nat, buf: seq<word>, pending: seq<byte>, b: byte)
    requires Absorbed(f, m, k, buf, pending)
    ensures Absorbed(f, m + [b], k, buf, pending + [b])
  {
    FoldPrefix(f, m, [b], k);
  }

  /** A complete block. */
  lemma AbsorbBlock(f: Transform, m: seq<byte>, k: nat, buf: seq<word>, pending: seq<byte>)
    requires Absorbed(f, m, k, buf, pending) && |pending| == 64
    ensures Absorbed(f, m, k + 1, f(buf, Words(pending, 16)), [])
  {
    assert m[64 * k..64 * k + 64] == pending;
  }

  const PADDING: seq<byte> := [0x80] + ZeroBytes(63)

  /** Words of a block whose last two words are given. */
  lemma LastWords(s: seq<byte>, w0: word, w1: word)
    requires |s| == 56
    ensures Words(s + Bytes(w0) + Bytes(w1), 16) == Words(s, 14) + [w0, w1]
  {
    var t := s + Bytes(w0) + Bytes(w1);
    WordOfBytes(w0);
    WordOfBytes(w1);
    forall i | 0 <= i < 16
      ensures Words(t, 16)[i] == (Words(s, 14) + [w0, w1])[i]
    {
      if i < 14 {
        assert t[4 * i..4 * i + 4] == s[4 * i..4 * i + 4];
      } else if i == 14 {
        assert t[56..60] == Bytes(w0);
      } else {
        assert t[60..64] == Bytes(w1);
      }
    }
  }

  /** The words of the first 4 * n bytes of the input buffer. */
  method LoadWords(inp: array<byte>, n: nat) returns (x: seq<word>)
    requires 4 * n <= inp.Length
    ensures x == Words(inp[..4 * n], n)
    ensures forall i, j :: 0 <= i < n && 0 <= j < 4 ==> ByteOf(x[i], j) == inp[4 * i + j]
  {
    x := [];
    var ii := 0;
    for i := 0 to n
      invariant ii == 4 * i && |x| == i
      invariant forall j :: 0 <= j < i ==> x[j] == Word(inp[4 * j..4 * j + 4])
    {
      x := x + [Word(inp[ii..ii + 4])];
      ii := ii + 4;
    }
    forall j | 0 <= j < n
      ensures x[j] == Words(inp[..4 * n], n)[j]
    {
      assert inp[..4 * n][4 * j..4 * j + 4] == inp[4 * j..4 * j + 4];
    }
    forall i, j | 0 <= i < n && 0 <= j < 4
      ensures ByteOf(x[i], j) == inp[4 * i + j]
    {
      WordsAt(inp[..4 * n], n, i, j);
    }
  }

  /** The bytes of the four words of the state. */
  method StoreDigest(buf: seq<word>) returns (digest: seq<byte>)
    requires |buf| == 4
    ensures digest == BytesOf(buf)
    ensures forall i, j :: 0 <= i < 4 && 0 <= j < 4 ==> digest[4 * i + j] == ByteOf(buf[i], j)
  {
    forall i, j | 0 <= i < 4 && 0 <= j < 4
      ensures BytesOf(buf)[4 * i + j] == ByteOf(buf[i], j)
    {
      StateBytes(buf, i, j);
    }
    digest := [];
    for i := 0 to 4
      invariant digest == BytesOf(buf)[..4 * i]
    {
      digest := digest + Bytes(buf[i]);
    }
  }

  class Context {
    const transform: Transform
    var i0: word
    var i1: word
    var buf: seq<word>
    const inp: array<byte>
    var digest: seq<byte>

    /** The message so far, its complete blocks, and the count of bits beyond 64 bits. */
    ghost var msg: seq<byte>
    ghost var blocks: nat
    ghost var beyond: nat

    ghost predicate Valid()
      reads this, inp
    {
      && inp.Length == 64 && 64 * blocks <= |msg| < 64 * blocks + 64
      && Absorbed(transform, msg, blocks, buf, inp[..|msg| - 64 * blocks])
      && Counts(|msg|, i0, i1, beyond)
    }

    /** MD5Init. */
    constructor (f: Transform)
      requires Sized(f)
      ensures Valid() && msg == [] && transform == f && fresh(inp)
    {
      transform := f;
      i0, i1 := 0, 0;
      buf := INITIAL;
      inp := new byte[64](i => 0);
      digest := [];
      msg, blocks, beyond := [], 0, 0;
    }

    /** One byte of the loop of MD5Update: into the buffer, and a transformation when it is full. */
    method Feed(mdi: nat, b: byte, ghost m: seq<byte>, ghost k: nat) returns (mdi': nat, ghost k': nat)
      requires inp.Length == 64 && mdi < 64 && Absorbed(transform, m, k, buf, inp[..mdi])
      modifies this`buf, inp
      ensures mdi' < 64 && Absorbed(transform, m + [b], k', buf, inp[..mdi'])
    {
      AbsorbByte(transform, m, k, buf, inp[..mdi], b);
      inp[mdi] := b;
      mdi', k' := mdi + 1, k;
      assert inp[..mdi'] == old(inp[..mdi]) + [b];
      if mdi' == 64 {
        assert inp[..64] == inp[..];
        AbsorbBlock(transform, m + [b], k, buf, inp[..]);
        var block := LoadWords(inp, 16);
        buf := transform(buf, block);
        mdi', k' := 0, k + 1;
        assert inp[..0] == [];
      }
    }

    /** The loop of MD5Update. */
    method FeedAll(mdi: nat, inBuf: seq<byte>)
      requires inp.Length == 64 && mdi < 64 && Absorbed(transform, msg, blocks, buf, inp[..mdi])
      modifies this`buf, this`msg, this`blocks, inp
      ensures msg == old(msg) + inBuf
      ensures 64 * blocks <= |msg| < 64 * blocks + 64
      ensures Absorbed(transform, msg, blocks, buf, inp[..|msg| - 64 * blocks])
    {
      var at := mdi;
      ghost var m, k := msg, blocks;
      for i := 0 to |inBuf|
        invariant m == old(msg) + inBuf[..i]
        invariant at < 64 && Absorbed(transform, m, k, buf, inp[..at])
      {
        ghost var k';
        at, k' := Feed(at, inBuf[i], m, k);
        m, k := m + [inBuf[i]], k';
        assert inBuf[..i + 1] == inBuf[..i] + [inBuf[i]];
      }
      assert inBuf[..|inBuf|] == inBuf;
      msg, blocks := m, k;
      assert |inp[..at]| == at;
    }

    /** MD5Update. */
    method Update(inBuf: seq<byte>)
      requires Valid() && |inBuf| < TWO32
      modifies this`i0, this`i1, this`buf, this`msg, this`blocks, this`beyond, inp
      ensures Valid() && msg == old(msg) + inBuf
    {
      var mdi := i0 / 8 % 64;
      Pending(|msg|, blocks, i0, i1, beyond);
      i0, i1, beyond := AddBits(i0, i1, |inBuf|, |msg|, beyond);
      FeedAll(mdi, inBuf);
    }

    /** MD5Final. */
    method Final()
      requires Valid()
      modifies this`i0, this`i1, this`buf, this`msg, this`blocks, this`beyond, this`digest, inp
      ensures digest == Digest(transform, old(msg))
    {
      ghost var m := msg;
      var w0, w1 := i0, i1;
      CountsAre(|msg|, i0, i1, beyond);
      Pending(|msg|, blocks, i0, i1, beyond);
      var mdi := i0 / 8 % 64;
      var padLen := if mdi < 56 then 56 - mdi else 120 - mdi;
      PadLength(|m|, blocks, mdi, padLen);
      Update(PADDING[..padLen]);
      BlockEnd(|msg|, blocks);
      LastBlock(transform, m, msg, blocks, buf, inp[..56], w0, w1);
      var block := LoadWords(inp, 14);
      buf := transform(buf, block + [w0, w1]);
      digest := StoreDigest(buf);
    }
  }

  lemma PadLength(n: nat, k: nat, mdi: nat, padLen: nat)
    requires n == 64 * k + mdi && mdi < 64 && padLen == if mdi < 56 then 56 - mdi else 120 - mdi
    ensures 0 < padLen <= 64 && (n + padLen) % 64 == 56
    ensures PADDING[..padLen] == [0x80] + ZeroBytes(Zeros(n))
  {
    assert n % 64 == mdi;
    assert padLen == Zeros(n) + 1;
  }

  lemma BlockEnd(n: nat, k: nat)
    requires 64 * k <= n < 64 * k + 64 && n % 64 == 56
    ensures n - 64 * k == 56
  {
  }

  /** The padding and the length complete the last block. */
  lemma LastBlock(f: Transform, m: seq<byte>, p: seq<byte>, k: nat, buf: seq<word>, pending: seq<byte>,
      w0: word, w1: word)
    requires Absorbed(f, p, k, buf, pending) && |pending| == 56
    requires p == m + ([0x80] + ZeroBytes(Zeros(|m|))) && w0 == BitsLow(|m|) && w1 == BitsHigh(|m|)
    ensures |f(buf, Words(pending, 14) + [w0, w1])| == 4
    ensures Digest(f, m) == BytesOf(f(buf, Words(pending, 14) + [w0, w1]))
  {
    LastFold(f, p, k, buf, pending, w0, w1);
    PaddedIs(m, p, Zeros(|m|), w0, w1);
    DigestIs(f, m, p + (Bytes(w0) + Bytes(w1)), k + 1);
  }

  lemma PaddedIs(m: seq<byte>, p: seq<byte>, z: nat, w0: word, w1: word)
    requires z == Zeros(|m|) && w0 == BitsLow(|m|) && w1 == BitsHigh(|m|) && p == m + ([0x80] + ZeroBytes(z))
    ensures Padded(m) == p + (Bytes(w0) + Bytes(w1))
  {
    var a, b := Bytes(w0), Bytes(w1);
    assert m + [0x80] + ZeroBytes(z) + a + b == p + (a + b);
  }

  lemma DigestIs(f: Transform, m: seq<byte>, padded: seq<byte>, k: nat)
    requires Sized(f) && padded == Padded(m) && |padded| == 64 * k
    ensures Digest(f, m) == BytesOf(Fold(f, padded, k))
  {
    assert 64 * k / 64 == k;
  }

  lemma LastFold(f: Transform, p: seq<byte>, k: nat, buf: seq<word>, pending: seq<byte>, w0: word, w1: word)
    requires Absorbed(f, p, k, buf, pending) && |pending| == 56
    ensures Fold(f, p + (Bytes(w0) + Bytes(w1)), k + 1) == f(buf, Words(pending, 14) + [w0, w1])
  {
    var tail := Bytes(w0) + Bytes(w1);
    FoldPrefix(f, p, tail, k);
    assert (p + tail)[64 * k..64 * k + 64] == pending + Bytes(w0) + Bytes(w1);
    LastWords(pending, w0, w1);
  }

  ghost function Concat(chunks: seq<seq<byte>>): seq<byte> {
    if chunks == [] then [] else Concat(chunks[..|chunks| - 1]) + chunks[|chunks| - 1]
  }

  /** However a message is cut into calls of MD5Update, its digest is that of the whole message. */
  method HashChunks(f: Transform, chunks: seq<seq<byte>>) returns (digest: seq<byte>)
    requires Sized(f) && forall i :: 0 <= i < |chunks| ==> |chunks[i]| < TWO32
    ensures digest == Digest(f, Concat(chunks))
  {
    var c := new Context(f);
    for i := 0 to |chunks|
      invariant c.Valid() && c.transform == f && fresh(c) && fresh(c.inp) && c.msg == Concat(chunks[..i])
    {
      c.Update(chunks[i]);
      assert chunks[..i + 1][..i] == chunks[..i];
    }
    assert chunks[..|chunks|] == chunks;
    c.Final();
    digest := c.digest;
  }
}
