/** The 8 x 8 bit transpose that bitshuffle does in one 64-bit word.

    A byte is the sequence of its eight bits and a word the sequence of its 64 bits, the
    least significant first; the operators of the macro act on them bit by bit. */
module BitMatrix {
  type byte = b: seq<bool> | |b| == 8 witness [false, false, false, false, false, false, false, false]
  type word = w: seq<bool> | |w| == 64 witness seq(64, n => false)

  function Xor(a: word, b: word): word {
    seq(64, n requires 0 <= n < 64 => a[n] != b[n])
  }

  function And(a: word, b: word): word {
    seq(64, n requires 0 <= n < 64 => a[n] && b[n])
  }

  function ShiftRight(a: word, d: nat): word {
    seq(64, n requires 0 <= n < 64 => n + d < 64 && a[n + d])
  }

  function ShiftLeft(a: word, d: nat): word {
    seq(64, n requires 0 <= n < 64 => n >= d && a[n - d])
  }

  /** Bit i of a byte value. */
  predicate BitOf(v: nat, i: nat) {
    if i == 0 then v % 2 == 1
    else if i == 1 then v / 2 % 2 == 1
    else if i == 2 then v / 4 % 2 == 1
    else if i == 3 then v / 8 % 2 == 1
    else if i == 4 then v / 16 % 2 == 1
    else if i == 5 then v / 32 % 2 == 1
    else if i == 6 then v / 64 % 2 == 1
    else v / 128 % 2 == 1
  }

  /** The word constant with the given byte values, the least significant first. */
  function Constant(v: seq<nat>): word
    requires |v| == 8
  {
    seq(64, n requires 0 <= n < 64 => BitOf(v[n / 8], n % 8))
  }

  /** A little-endian load of eight bytes. */
  function Load(b: seq<byte>): word
    requires |b| == 8
  {
    seq(64, n requires 0 <= n < 64 => b[n / 8][n % 8])
  }

  /** 0x00AA00AA00AA00AA, 0x0000CCCC0000CCCC and 0x00000000F0F0F0F0. */
  const MASK_1: word := Constant([0xAA, 0x00, 0xAA, 0x00, 0xAA, 0x00, 0xAA, 0x00])
  const MASK_2: word := Constant([0xCC, 0xCC, 0x00, 0x00, 0xCC, 0xCC, 0x00, 0x00])
  const MASK_3: word := Constant([0xF0, 0xF0, 0xF0, 0xF0, 0x00, 0x00, 0x00, 0x00])

  /** One exchange step of the macro: bits selected by the mask change places with the
      bits d further up. */
  function Exchange(x: word, d: nat, mask: word): word {
    var t := And(Xor(x, ShiftRight(x, d)), mask);
    Xor(Xor(x, t), ShiftLeft(t, d))
  }

  /** TRANS_BIT_8X8. */
  function Trans8x8(x: word): word {
    Exchange(Exchange(Exchange(x, 7, MASK_1), 14, MASK_2), 28, MASK_3)
  }

  lemma ByteBits(i: nat)
    requires i < 8
    ensures !BitOf(0x00, i)
    ensures BitOf(0xAA, i) <==> i % 2 == 1
    ensures BitOf(0xCC, i) <==> i % 4 >= 2
    ensures BitOf(0xF0, i) <==> i >= 4
  {
  }

  /** The place of bit b of byte a. */
  function At8(a: nat, b: nat): nat {
    8 * a + b
  }

  // The bits of a and b in binary are r2 r1 r0 and c2 c1 c0. The three exchanges change
  // places between r0 and c0, between r1 and c1, and between r2 and c2.

  predicate Mask1(a: nat, b: nat) {
    a % 2 == 0 && b % 2 == 1
  }

  predicate Mask2(a: nat, b: nat) {
    (a < 2 || 4 <= a < 6) && (2 <= b < 4 || 6 <= b)
  }

  predicate Mask3(a: nat, b: nat) {
    a < 4 && 4 <= b
  }

  ghost predicate IsMask(m: word, p: (nat, nat) -> bool) {
    forall a: nat, b: nat {:trigger At8(a, b)} :: a < 8 && b < 8 ==> (m[At8(a, b)] <==> p(a, b))
  }

  lemma ConstantAt(v: seq<nat>, a: nat, b: nat)
    requires |v| == 8 && a < 8 && b < 8
    ensures Constant(v)[At8(a, b)] == BitOf(v[a], b)
  {
    assert At8(a, b) / 8 == a && At8(a, b) % 8 == b;
  }

  lemma Mask1IsRight()
    ensures IsMask(MASK_1, Mask1)
  {
    forall a: nat, b: nat | a < 8 && b < 8
      ensures MASK_1[At8(a, b)] <==> Mask1(a, b)
    {
      var v := [0xAA, 0x00, 0xAA, 0x00, 0xAA, 0x00, 0xAA, 0x00];
      ConstantAt(v, a, b);
      ByteBits(b);
      assert v[a] == if a % 2 == 0 then 0xAA else 0x00;
    }
  }

  lemma Mask2IsRight()
    ensures IsMask(MASK_2, Mask2)
  {
    forall a: nat, b: nat | a < 8 && b < 8
      ensures MASK_2[At8(a, b)] <==> Mask2(a, b)
    {
      var v := [0xCC, 0xCC, 0x00, 0x00, 0xCC, 0xCC, 0x00, 0x00];
      ConstantAt(v, a, b);
      ByteBits(b);
      assert v[a] == if a < 2 || 4 <= a < 6 then 0xCC else 0x00;
    }
  }

  lemma Mask3IsRight()
    ensures IsMask(MASK_3, Mask3)
  {
    forall a: nat, b: nat | a < 8 && b < 8
      ensures MASK_3[At8(a, b)] <==> Mask3(a, b)
    {
      var v := [0xF0, 0xF0, 0xF0, 0xF0, 0x00, 0x00, 0x00, 0x00];
      ConstantAt(v, a, b);
      ByteBits(b);
      assert v[a] == if a < 4 then 0xF0 else 0x00;
    }
  }

  lemma ExchangeAt(x: word, d: nat, mask: word, n: nat)
    requires n < 64 && 0 < d
    requires mask[n] ==> n + d < 64 && !(n >= d && mask[n - d])
    ensures Exchange(x, d, mask)[n] ==
            if mask[n] then x[n + d] else if n >= d && mask[n - d] then x[n - d] else x[n]
  {
  }

  /** The place d below place (a, b), for the distance d = 8 e - f of an exchange. */
  lemma Below(a: nat, b: nat, e: nat, f: nat)
    requires a < 8 && b < 8 && 1 <= e && f < 8
    requires At8(a, b) + f >= 8 * e
    ensures var n := At8(a, b) + f - 8 * e;
            if b + f < 8 then a >= e && n == At8(a - e, b + f) else a + 1 >= e && n == At8(a + 1 - e, b + f - 8)
  {
  }

  /** Where exchange 1 takes bit b of byte a from. */
  function Move1(a: nat, b: nat): (p: (nat, nat))
    requires a < 8 && b < 8
    ensures p.0 < 8 && p.1 < 8
  {
    if Mask1(a, b) then (a + 1, b - 1)
    else if a >= 1 && b + 1 < 8 && Mask1(a - 1, b + 1) then (a - 1, b + 1)
    else (a, b)
  }

  lemma MaskBelow1(m: word, a: nat, b: nat)
    requires a < 8 && b < 8 && IsMask(m, Mask1)
    ensures var n := At8(a, b); n >= 7 && m[n - 7] <==> a >= 1 && b + 1 < 8 && Mask1(a - 1, b + 1)
    ensures m[At8(a, b)] <==> Mask1(a, b)
  {
    if At8(a, b) >= 7 {
      Below(a, b, 1, 1);
    }
  }

  lemma Exchange1At(x: word, m: word, a: nat, b: nat)
    requires a < 8 && b < 8 && IsMask(m, Mask1)
    ensures var p := Move1(a, b); Exchange(x, 7, m)[At8(a, b)] == x[At8(p.0, p.1)]
  {
    MaskBelow1(m, a, b);
    ExchangeAt(x, 7, m, At8(a, b));
  }

  /** Where exchange 2 takes bit b of byte a from. */
  function Move2(a: nat, b: nat): (p: (nat, nat))
    requires a < 8 && b < 8
    ensures p.0 < 8 && p.1 < 8
  {
    if Mask2(a, b) then (a + 2, b - 2)
    else if a >= 2 && b + 2 < 8 && Mask2(a - 2, b + 2) then (a - 2, b + 2)
    else (a, b)
  }

  lemma MaskBelow2(m: word, a: nat, b: nat)
    requires a < 8 && b < 8 && IsMask(m, Mask2)
    ensures var n := At8(a, b); n >= 14 && m[n - 14] <==> a >= 2 && b + 2 < 8 && Mask2(a - 2, b + 2)
    ensures m[At8(a, b)] <==> Mask2(a, b)
  {
    if At8(a, b) >= 14 {
      Below(a, b, 2, 2);
    }
  }

  lemma Exchange2At(x: word, m: word, a: nat, b: nat)
    requires a < 8 && b < 8 && IsMask(m, Mask2)
    ensures var p := Move2(a, b); Exchange(x, 14, m)[At8(a, b)] == x[At8(p.0, p.1)]
  {
    MaskBelow2(m, a, b);
    ExchangeAt(x, 14, m, At8(a, b));
  }

  /** Where exchange 3 takes bit b of byte a from. */
  function Move3(a: nat, b: nat): (p: (nat, nat))
    requires a < 8 && b < 8
    ensures p.0 < 8 && p.1 < 8
  {
    if Mask3(a, b) then (a + 4, b - 4)
    else if a >= 4 && b + 4 < 8 && Mask3(a - 4, b + 4) then (a - 4, b + 4)
    else (a, b)
  }

  lemma MaskBelow3(m: word, a: nat, b: nat)
    requires a < 8 && b < 8 && IsMask(m, Mask3)
    ensures var n := At8(a, b); n >= 28 && m[n - 28] <==> a >= 4 && b + 4 < 8 && Mask3(a - 4, b + 4)
    ensures m[At8(a, b)] <==> Mask3(a, b)
  {
    if At8(a, b) >= 28 {
      Below(a, b, 4, 4);
    }
  }

  lemma Exchange3At(x: word, m: word, a: nat, b: nat)
    requires a < 8 && b < 8 && IsMask(m, Mask3)
    ensures var p := Move3(a, b); Exchange(x, 28, m)[At8(a, b)] == x[At8(p.0, p.1)]
  {
    MaskBelow3(m, a, b);
    ExchangeAt(x, 28, m, At8(a, b));
  }

  ghost predicate MovesSwap(a: nat, b: nat)
    requires a < 8 && b < 8
  {
    var p := Move3(a, b);
    var q := Move2(p.0, p.1);
    Move1(q.0, q.1) == (b, a)
  }

  lemma MovesSwapUpper(a: nat, b: nat)
    requires a < 4 && b < 8
    ensures MovesSwap(a, b)
  {
  }

  lemma MovesSwapLower(a: nat, b: nat)
    requires 4 <= a < 8 && b < 8
    ensures MovesSwap(a, b)
  {
  }

  /** The three moves together change places between row and column. */
  lemma MovesTranspose(a: nat, b: nat)
    requires a < 8 && b < 8
    ensures MovesSwap(a, b)
  {
    if a < 4 {
      MovesSwapUpper(a, b);
    } else {
      MovesSwapLower(a, b);
    }
  }

  lemma ThreeExchanges(x: word, m1: word, m2: word, m3: word, a: nat, b: nat)
    requires IsMask(m1, Mask1) && IsMask(m2, Mask2) && IsMask(m3, Mask3) && a < 8 && b < 8
    ensures Exchange(Exchange(Exchange(x, 7, m1), 14, m2), 28, m3)[At8(a, b)] == x[At8(b, a)]
  {
    var p := Move3(a, b);
    var q := Move2(p.0, p.1);
    MovesTranspose(a, b);
    Exchange3At(Exchange(Exchange(x, 7, m1), 14, m2), m3, a, b);
    Exchange2At(Exchange(x, 7, m1), m2, p.0, p.1);
    Exchange1At(x, m1, q.0, q.1);
  }

  /** TRANS_BIT_8X8 is the transpose: bit i of byte k of the result is bit k of byte i. */
  lemma TransAt(x: word, k: nat, i: nat)
    requires k < 8 && i < 8
    ensures Trans8x8(x)[At8(k, i)] == x[At8(i, k)]
  {
    Mask1IsRight();
    Mask2IsRight();
    Mask3IsRight();
    ThreeExchanges(x, MASK_1, MASK_2, MASK_3, k, i);
  }

  /** The transpose of an 8 x 8 bit matrix given as eight bytes. */
  ghost function BitsTransposed(b: seq<byte>): (y: seq<byte>)
    requires |b| == 8
    ensures |y| == 8 && forall k, i :: 0 <= k < 8 && 0 <= i < 8 ==> y[k][i] == b[i][k]
  {
    seq(8, k requires 0 <= k < 8 => seq(8, i requires 0 <= i < 8 => b[i][k]))
  }

  lemma TransposedTwice(b: seq<byte>)
    requires |b| == 8
    ensures BitsTransposed(BitsTransposed(b)) == b
  {
    var z := BitsTransposed(BitsTransposed(b));
    forall k | 0 <= k < 8
      ensures z[k] == b[k]
    {
      assert forall i :: 0 <= i < 8 ==> z[k][i] == b[k][i];
    }
  }

  /** The byte at place k of a word. */
  function ByteAt(x: word, k: nat): byte
    requires k < 8
  {
    x[At8(k, 0)..At8(k, 8)]
  }

  lemma ByteShifted(x: word, k: nat)
    requires k < 7
    ensures ByteAt(ShiftRight(x, 8), k) == ByteAt(x, k + 1)
  {
  }

  lemma LoadAt(b: seq<byte>, i: nat, k: nat)
    requires |b| == 8 && i < 8 && k < 8
    ensures Load(b)[At8(i, k)] == b[i][k]
  {
    assert At8(i, k) / 8 == i && At8(i, k) % 8 == k;
  }

  lemma TransBytes(b: seq<byte>, k: nat)
    requires |b| == 8 && k < 8
    ensures ByteAt(Trans8x8(Load(b)), k) == BitsTransposed(b)[k]
  {
    forall i | 0 <= i < 8
      ensures ByteAt(Trans8x8(Load(b)), k)[i] == BitsTransposed(b)[k][i]
    {
      TransAt(Load(b), k, i);
      LoadAt(b, i, k);
      assert ByteAt(Trans8x8(Load(b)), k)[i] == Trans8x8(Load(b))[At8(k, i)];
    }
  }

  /** Eight bytes of the input as one word, transposed and taken apart byte by byte. */
  method TransposeEight(b: seq<byte>) returns (y: seq<byte>)
    requires |b| == 8
    ensures y == BitsTransposed(b)
  {
    var x := Trans8x8(Load(b));
    forall k | 0 <= k < 8
      ensures ByteAt(x, k) == BitsTransposed(b)[k]
    {
      TransBytes(b, k);
    }
    y := TakeApart(x, BitsTransposed(b));
  }

  /** The store loop: the low byte is taken and the word is shifted, eight times. */
  method TakeApart(w: word, ghost full: seq<byte>) returns (y: seq<byte>)
    requires |full| == 8 && forall k :: 0 <= k < 8 ==> ByteAt(w, k) == full[k]
    ensures y == full
  {
    var x := w;
    y := [];
    for kk := 0 to 8
      invariant y == full[..kk]
      invariant forall k :: 0 <= k < 8 - kk ==> ByteAt(x, k) == full[kk + k]
    {
      y := y + [ByteAt(x, 0)];
      forall k | 0 <= k < 8 - kk - 1
        ensures ByteAt(ShiftRight(x, 8), k) == full[kk + 1 + k]
      {
        ByteShifted(x, k);
      }
      x := ShiftRight(x, 8);
    }
  }
}
