/** The SSE2 instructions that move the sixteen places of a register, and rounds of them over
    a file of sixteen registers. Register and place numbers are given by their four binary
    digits, because every instruction is a rearrangement of digits. The instructions only
    move bytes, so a place may hold anything. */
module Sse {

  /** A number below sixteen. */
  datatype Quad = Quad(b3: bool, b2: bool, b1: bool, b0: bool)

  function Digit(b: bool): nat {
    if b then 1 else 0
  }

  function Num(q: Quad): (n: nat)
    ensures n < 16
  {
    8 * Digit(q.b3) + 4 * Digit(q.b2) + 2 * Digit(q.b1) + Digit(q.b0)
  }

  function Digits(n: nat): (q: Quad)
    requires n < 16
    ensures Num(q) == n
  {
    var n2 := if n < 8 then n else n - 8;
    var n1 := if n2 < 4 then n2 else n2 - 4;
    var n0 := if n1 < 2 then n1 else n1 - 2;
    Quad(n >= 8, n2 >= 4, n1 >= 2, n0 >= 1)
  }

  /** What a register holds at each place. */
  type Reg<T> = Quad -> T

  /** What a file of registers holds: register number, place number. */
  type File<T> = (Quad, Quad) -> T

  function Register<T>(f: File<T>, r: Quad): Reg<T> {
    (m: Quad) => f(r, m)
  }

  // ---------------------------------------------------------------------------
  // Instructions
  // ---------------------------------------------------------------------------

  datatype Lane = Bytes1 | Bytes2 | Bytes4 | Bytes8

  /** _mm_unpacklo_epi8, 16, 32 and 64, and _mm_unpackhi when high: the lanes of one half of x
      and of y in turn. One digit of the place number tells y from x; the others are the place
      in the half. */
  function Unpack<T>(w: Lane, high: bool, x: Reg<T>, y: Reg<T>): Reg<T> {
    match w
    case Bytes1 => (m: Quad) => if m.b0 then y(Quad(high, m.b3, m.b2, m.b1)) else x(Quad(high, m.b3, m.b2, m.b1))
    case Bytes2 => (m: Quad) => if m.b1 then y(Quad(high, m.b3, m.b2, m.b0)) else x(Quad(high, m.b3, m.b2, m.b0))
    case Bytes4 => (m: Quad) => if m.b2 then y(Quad(high, m.b3, m.b1, m.b0)) else x(Quad(high, m.b3, m.b1, m.b0))
    case Bytes8 => (m: Quad) => if m.b3 then y(Quad(high, m.b2, m.b1, m.b0)) else x(Quad(high, m.b2, m.b1, m.b0))
  }

  /** _mm_shuffle_epi32 with 0xd8: lanes 0, 2, 1, 3. */
  function Shuffle0213<T>(x: Reg<T>): Reg<T> {
    (m: Quad) => x(Quad(m.b2, m.b3, m.b1, m.b0))
  }

  /** _mm_shuffle_epi32 with 0x8d: lanes 1, 3, 0, 2. */
  function Shuffle1302<T>(x: Reg<T>): Reg<T> {
    (m: Quad) => x(Quad(m.b2, !m.b3, m.b1, m.b0))
  }

  /** _mm_shuffle_epi32 with 0x4e: lanes 2, 3, 0, 1. */
  function Shuffle2301<T>(x: Reg<T>): Reg<T> {
    (m: Quad) => x(Quad(!m.b3, m.b2, m.b1, m.b0))
  }

  /** _mm_shufflelo_epi16 and then _mm_shufflehi_epi16, both with 0xd8: in each half the words
      0, 2, 1, 3. */
  function ShuffleWords0213<T>(x: Reg<T>): Reg<T> {
    (m: Quad) => x(Quad(m.b3, m.b1, m.b2, m.b0))
  }

  // ---------------------------------------------------------------------------
  // Rounds
  // ---------------------------------------------------------------------------

  datatype Apart = By1 | By2 | By4 | By8

  /** Of pair number k of results the register with this digit, among those that differ only there. */
  function Partner(s: Apart, r: Quad, b: bool): Quad {
    match s
    case By1 => Quad(r.b3, r.b2, r.b1, b)
    case By2 => Quad(r.b3, r.b2, b, r.b1)
    case By4 => Quad(r.b3, b, r.b2, r.b1)
    case By8 => Quad(b, r.b3, r.b2, r.b1)
  }

  /** Results 2 k and 2 k + 1 are the low and the high form for two registers that are s apart:
      2 k and 2 k + 1; 4 (k / 2) + k % 2 and 2 more; 8 (k / 4) + k % 4 and 4 more; or k and 8 more. */
  function Round<T>(w: Lane, s: Apart, f: File<T>): File<T> {
    (r: Quad, m: Quad) =>
      Unpack(w, r.b0, Register(f, Partner(s, r, false)), Register(f, Partner(s, r, true)))(m)
  }

  /** Results k and n + k, of 2 n registers, are the low and the high form for registers 2 k and
      2 k + 1, for n == 1, 2, 4 and 8. */
  function Spread<T>(w: Lane, n: Apart, f: File<T>): File<T> {
    (r: Quad, m: Quad) =>
      Unpack(w, SpreadHigh(n, r), Register(f, SpreadFrom(n, r, false)), Register(f, SpreadFrom(n, r, true)))(m)
  }

  /** The digit of a place number that tells the two sources apart. */
  function Chosen(w: Lane, m: Quad): bool {
    match w case Bytes1 => m.b0 case Bytes2 => m.b1 case Bytes4 => m.b2 case Bytes8 => m.b3
  }

  /** The place in a source: which half, and the remaining digits. */
  function Within(w: Lane, high: bool, m: Quad): Quad {
    match w
    case Bytes1 => Quad(high, m.b3, m.b2, m.b1)
    case Bytes2 => Quad(high, m.b3, m.b2, m.b0)
    case Bytes4 => Quad(high, m.b3, m.b1, m.b0)
    case Bytes8 => Quad(high, m.b2, m.b1, m.b0)
  }

  lemma UnpackAt<T>(w: Lane, high: bool, x: Reg<T>, y: Reg<T>, m: Quad)
    ensures Unpack(w, high, x, y)(m) == if Chosen(w, m) then y(Within(w, high, m)) else x(Within(w, high, m))
  {
  }

  lemma RoundAt<T>(w: Lane, s: Apart, f: File<T>, r: Quad, m: Quad)
    ensures Round(w, s, f)(r, m) == f(Partner(s, r, Chosen(w, m)), Within(w, r.b0, m))
  {
    UnpackAt(w, r.b0, Register(f, Partner(s, r, false)), Register(f, Partner(s, r, true)), m);
  }

  /** The register that a result of a spreading round comes from, given the chosen digit. */
  function SpreadFrom(n: Apart, r: Quad, b: bool): Quad {
    match n
    case By1 => Quad(r.b3, r.b2, r.b1, b)
    case By2 => Quad(r.b3, r.b2, r.b0, b)
    case By4 => Quad(r.b3, r.b1, r.b0, b)
    case By8 => Quad(r.b2, r.b1, r.b0, b)
  }

  function SpreadHigh(n: Apart, r: Quad): bool {
    match n case By1 => r.b0 case By2 => r.b1 case By4 => r.b2 case By8 => r.b3
  }

  lemma SpreadAt<T>(w: Lane, n: Apart, f: File<T>, r: Quad, m: Quad)
    ensures Spread(w, n, f)(r, m) == f(SpreadFrom(n, r, Chosen(w, m)), Within(w, SpreadHigh(n, r), m))
  {
    UnpackAt(w, SpreadHigh(n, r), Register(f, SpreadFrom(n, r, false)), Register(f, SpreadFrom(n, r, true)), m);
  }

  // ---------------------------------------------------------------------------
  // Kernels. Sixteen elements of e bytes, loaded into e registers, come out with byte k of all
  // of them in register k.
  // ---------------------------------------------------------------------------

  /** The loop body of bshuf_trans_byte_elem_SSE_16. */
  function Trans16<T>(f: File<T>): File<T> {
    Round(Bytes1, By1, Round(Bytes1, By1, Round(Bytes1, By1, Round(Bytes1, By1, f))))
  }

  lemma Trans16At<T>(f: File<T>, r: Quad, m: Quad)
    ensures Trans16(f)(r, m) == f(Quad(r.b3, r.b2, r.b1, m.b3), Quad(m.b2, m.b1, m.b0, r.b0))
  {
    var f1 := Round(Bytes1, By1, f);
    var f2 := Round(Bytes1, By1, f1);
    var f3 := Round(Bytes1, By1, f2);
    RoundAt(Bytes1, By1, f3, r, m);
    RoundAt(Bytes1, By1, f2, Quad(r.b3, r.b2, r.b1, m.b0), Quad(r.b0, m.b3, m.b2, m.b1));
    RoundAt(Bytes1, By1, f1, Quad(r.b3, r.b2, r.b1, m.b1), Quad(m.b0, r.b0, m.b3, m.b2));
    RoundAt(Bytes1, By1, f, Quad(r.b3, r.b2, r.b1, m.b2), Quad(m.b1, m.b0, r.b0, m.b3));
  }

  /** The loop body of bshuf_trans_byte_elem_SSE_32. */
  function Trans32<T>(f: File<T>): File<T> {
    Round(Bytes8, By2, Round(Bytes1, By1, Round(Bytes1, By1, Round(Bytes1, By1, f))))
  }

  lemma Trans32At<T>(f: File<T>, r: Quad, m: Quad)
    ensures Trans32(f)(r, m) == f(Quad(r.b3, r.b2, m.b3, m.b2), Quad(m.b1, m.b0, r.b1, r.b0))
  {
    var f1 := Round(Bytes1, By1, f);
    var f2 := Round(Bytes1, By1, f1);
    var f3 := Round(Bytes1, By1, f2);
    RoundAt(Bytes8, By2, f3, r, m);
    RoundAt(Bytes1, By1, f2, Quad(r.b3, r.b2, m.b3, r.b1), Quad(r.b0, m.b2, m.b1, m.b0));
    RoundAt(Bytes1, By1, f1, Quad(r.b3, r.b2, m.b3, m.b0), Quad(r.b1, r.b0, m.b2, m.b1));
    RoundAt(Bytes1, By1, f, Quad(r.b3, r.b2, m.b3, m.b1), Quad(m.b0, r.b1, r.b0, m.b2));
  }

  /** The loop body of bshuf_trans_byte_elem_SSE_64. */
  function Trans64<T>(f: File<T>): File<T> {
    Round(Bytes8, By4, Round(Bytes4, By2, Round(Bytes1, By1, Round(Bytes1, By1, f))))
  }

  lemma Trans64At<T>(f: File<T>, r: Quad, m: Quad)
    ensures Trans64(f)(r, m) == f(Quad(r.b3, m.b3, m.b2, m.b1), Quad(m.b0, r.b2, r.b1, r.b0))
  {
    var f1 := Round(Bytes1, By1, f);
    var f2 := Round(Bytes1, By1, f1);
    var f3 := Round(Bytes4, By2, f2);
    RoundAt(Bytes8, By4, f3, r, m);
    RoundAt(Bytes4, By2, f2, Quad(r.b3, m.b3, r.b2, r.b1), Quad(r.b0, m.b2, m.b1, m.b0));
    RoundAt(Bytes1, By1, f1, Quad(r.b3, m.b3, m.b2, r.b2), Quad(r.b1, r.b0, m.b1, m.b0));
    RoundAt(Bytes1, By1, f, Quad(r.b3, m.b3, m.b2, m.b0), Quad(r.b2, r.b1, r.b0, m.b1));
  }

  /** The loop body of shuffle2_sse2, in each register. */
  function Within2<T>(x: Reg<T>): Reg<T> {
    var x1 := Shuffle0213(ShuffleWords0213(x));
    var x2 := Shuffle0213(Unpack(Bytes1, false, x1, Shuffle2301(x1)));
    Shuffle0213(Unpack(Bytes2, false, x2, Shuffle2301(x2)))
  }

  lemma Within2At<T>(x: Reg<T>, m: Quad)
    ensures Within2(x)(m) == x(Quad(m.b2, m.b1, m.b0, m.b3))
  {
    var x1 := Shuffle0213(ShuffleWords0213(x));
    var x2 := Shuffle0213(Unpack(Bytes1, false, x1, Shuffle2301(x1)));
    UnpackAt(Bytes2, false, x2, Shuffle2301(x2), Quad(m.b2, m.b3, m.b1, m.b0));
    UnpackAt(Bytes1, false, x1, Shuffle2301(x1), Quad(m.b2, m.b1, m.b3, m.b0));
  }

  function Each2<T>(f: File<T>): File<T> {
    (r: Quad, m: Quad) => Within2(Register(f, r))(m)
  }

  function Shuffle2<T>(f: File<T>): File<T> {
    Round(Bytes8, By1, Each2(f))
  }

  lemma Shuffle2At<T>(f: File<T>, r: Quad, m: Quad)
    ensures Shuffle2(f)(r, m) == f(Quad(r.b3, r.b2, r.b1, m.b3), Quad(m.b2, m.b1, m.b0, r.b0))
  {
    RoundAt(Bytes8, By1, Each2(f), r, m);
    Within2At(Register(f, Quad(r.b3, r.b2, r.b1, m.b3)), Quad(r.b0, m.b2, m.b1, m.b0));
  }

  /** The loop body of shuffle4_sse2, in each register. */
  function Within4<T>(x: Reg<T>): Reg<T> {
    var x1 := Unpack(Bytes1, false, Shuffle0213(x), Shuffle1302(x));
    Unpack(Bytes2, false, x1, Shuffle2301(x1))
  }

  lemma Within4At<T>(x: Reg<T>, m: Quad)
    ensures Within4(x)(m) == x(Quad(m.b1, m.b0, m.b3, m.b2))
  {
    var x1 := Unpack(Bytes1, false, Shuffle0213(x), Shuffle1302(x));
    UnpackAt(Bytes2, false, x1, Shuffle2301(x1), m);
    UnpackAt(Bytes1, false, Shuffle0213(x), Shuffle1302(x), Quad(m.b1, m.b3, m.b2, m.b0));
  }

  function Each4<T>(f: File<T>): File<T> {
    (r: Quad, m: Quad) => Within4(Register(f, r))(m)
  }

  function Shuffle4<T>(f: File<T>): File<T> {
    Round(Bytes8, By2, Round(Bytes4, By1, Each4(f)))
  }

  lemma Shuffle4At<T>(f: File<T>, r: Quad, m: Quad)
    ensures Shuffle4(f)(r, m) == f(Quad(r.b3, r.b2, m.b3, m.b2), Quad(m.b1, m.b0, r.b1, r.b0))
  {
    var f1 := Each4(f);
    var f2 := Round(Bytes4, By1, f1);
    RoundAt(Bytes8, By2, f2, r, m);
    RoundAt(Bytes4, By1, f1, Quad(r.b3, r.b2, m.b3, r.b1), Quad(r.b0, m.b2, m.b1, m.b0));
    Within4At(Register(f, Quad(r.b3, r.b2, m.b3, m.b2)), Quad(r.b1, r.b0, m.b1, m.b0));
  }

  /** The loop body of shuffle8_sse2, in each register. */
  function Each8<T>(f: File<T>): File<T> {
    (r: Quad, m: Quad) => Unpack(Bytes1, false, Register(f, r), Shuffle2301(Register(f, r)))(m)
  }

  function Shuffle8<T>(f: File<T>): File<T> {
    Round(Bytes8, By4, Round(Bytes4, By2, Round(Bytes2, By1, Each8(f))))
  }

  lemma Shuffle8At<T>(f: File<T>, r: Quad, m: Quad)
    ensures Shuffle8(f)(r, m) == f(Quad(r.b3, m.b3, m.b2, m.b1), Quad(m.b0, r.b2, r.b1, r.b0))
  {
    var f1 := Each8(f);
    var f2 := Round(Bytes2, By1, f1);
    var f3 := Round(Bytes4, By2, f2);
    RoundAt(Bytes8, By4, f3, r, m);
    RoundAt(Bytes4, By2, f2, Quad(r.b3, m.b3, r.b2, r.b1), Quad(r.b0, m.b2, m.b1, m.b0));
    RoundAt(Bytes2, By1, f1, Quad(r.b3, m.b3, m.b2, r.b2), Quad(r.b1, r.b0, m.b1, m.b0));
    UnpackAt(Bytes1, false, Register(f, Quad(r.b3, m.b3, m.b2, m.b1)),
        Shuffle2301(Register(f, Quad(r.b3, m.b3, m.b2, m.b1))), Quad(r.b2, r.b1, r.b0, m.b0));
  }

  /** The loop body of shuffle16_sse2 and shuffle16_tiled_sse2. */
  function Shuffle16<T>(f: File<T>): File<T> {
    Round(Bytes8, By8, Round(Bytes4, By4, Round(Bytes2, By2, Round(Bytes1, By1, f))))
  }

  lemma Shuffle16At<T>(f: File<T>, r: Quad, m: Quad)
    ensures Shuffle16(f)(r, m) == f(m, r)
  {
    var f1 := Round(Bytes1, By1, f);
    var f2 := Round(Bytes2, By2, f1);
    var f3 := Round(Bytes4, By4, f2);
    RoundAt(Bytes8, By8, f3, r, m);
    RoundAt(Bytes4, By4, f2, Quad(m.b3, r.b3, r.b2, r.b1), Quad(r.b0, m.b2, m.b1, m.b0));
    RoundAt(Bytes2, By2, f1, Quad(m.b3, m.b2, r.b3, r.b2), Quad(r.b1, r.b0, m.b1, m.b0));
    RoundAt(Bytes1, By1, f, Quad(m.b3, m.b2, m.b1, r.b3), Quad(r.b2, r.b1, r.b0, m.b0));
  }

  // The unshuffle kernels leave element number i in a register whose number is i with its
  // digits reversed, and the stores are in that order.

  function Unshuffle2<T>(f: File<T>): File<T> {
    Spread(Bytes1, By1, f)
  }

  lemma Unshuffle2At<T>(f: File<T>, r: Quad, m: Quad)
    ensures Unshuffle2(f)(r, m) == f(Quad(r.b3, r.b2, r.b1, m.b0), Quad(r.b0, m.b3, m.b2, m.b1))
  {
    SpreadAt(Bytes1, By1, f, r, m);
  }

  function Unshuffle4<T>(f: File<T>): File<T> {
    Spread(Bytes2, By2, Spread(Bytes1, By2, f))
  }

  lemma Unshuffle4At<T>(f: File<T>, r: Quad, m: Quad)
    ensures Unshuffle4(f)(r, m) == f(Quad(r.b3, r.b2, m.b1, m.b0), Quad(r.b0, r.b1, m.b3, m.b2))
  {
    var f1 := Spread(Bytes1, By2, f);
    SpreadAt(Bytes2, By2, f1, r, m);
    SpreadAt(Bytes1, By2, f, Quad(r.b3, r.b2, r.b0, m.b1), Quad(r.b1, m.b3, m.b2, m.b0));
  }

  function Unshuffle8<T>(f: File<T>): File<T> {
    Spread(Bytes4, By4, Spread(Bytes2, By4, Spread(Bytes1, By4, f)))
  }

  lemma Unshuffle8At<T>(f: File<T>, r: Quad, m: Quad)
    ensures Unshuffle8(f)(r, m) == f(Quad(r.b3, m.b2, m.b1, m.b0), Quad(r.b0, r.b1, r.b2, m.b3))
  {
    var f1 := Spread(Bytes1, By4, f);
    var f2 := Spread(Bytes2, By4, f1);
    SpreadAt(Bytes4, By4, f2, r, m);
    SpreadAt(Bytes2, By4, f1, Quad(r.b3, r.b1, r.b0, m.b2), Quad(r.b2, m.b3, m.b1, m.b0));
    SpreadAt(Bytes1, By4, f, Quad(r.b3, r.b0, m.b2, m.b1), Quad(r.b1, r.b2, m.b3, m.b0));
  }

  function Unshuffle16<T>(f: File<T>): File<T> {
    Spread(Bytes8, By8, Spread(Bytes4, By8, Spread(Bytes2, By8, Spread(Bytes1, By8, f))))
  }

  lemma Unshuffle16At<T>(f: File<T>, r: Quad, m: Quad)
    ensures Unshuffle16(f)(r, m) == f(m, Quad(r.b0, r.b1, r.b2, r.b3))
  {
    var f1 := Spread(Bytes1, By8, f);
    var f2 := Spread(Bytes2, By8, f1);
    var f3 := Spread(Bytes4, By8, f2);
    SpreadAt(Bytes8, By8, f3, r, m);
    SpreadAt(Bytes4, By8, f2, Quad(r.b2, r.b1, r.b0, m.b3), Quad(r.b3, m.b2, m.b1, m.b0));
    SpreadAt(Bytes2, By8, f1, Quad(r.b1, r.b0, m.b3, m.b2), Quad(r.b2, r.b3, m.b1, m.b0));
    SpreadAt(Bytes1, By8, f, Quad(r.b0, m.b3, m.b2, m.b1), Quad(r.b1, r.b2, r.b3, m.b0));
  }
}
