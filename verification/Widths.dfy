/** Integer types of a fixed width. A coordinate has such a type, and so has every variable into which
    the source stores a coordinate, a tile number or an offset. Signed overflow, which C++ leaves
    undefined, is taken to wrap like unsigned overflow. */
module Widths {
  import opened Transposition

  const UINT64_MAX: int := 0xFFFF_FFFF_FFFF_FFFF
  const INT32_MAX: int := 0x7FFF_FFFF
  const INT64_MAX: int := 0x7FFF_FFFF_FFFF_FFFF

  /** The least and the greatest value of a type. */
  datatype Bounds = Bounds(min: int, max: int)

  predicate IsIntType(ty: Bounds) {
    if ty.min == 0 then
      0 < ty.max <= 0xFFFF || 0xFFFF_FFFF <= ty.max <= UINT64_MAX
    else
      ty.min == -ty.max - 1 && (0 < ty.max <= 0x7FFF || INT32_MAX <= ty.max <= INT64_MAX)
  }

  /** Unsigned types, and signed ones in two's complement, of up to 16 bits or of 32 to 64. */
  type IntType = ty: Bounds | IsIntType(ty) witness Bounds(0, 0xFF)

  const INT8: IntType := Bounds(-0x80, 0x7F)
  const UINT8: IntType := Bounds(0, 0xFF)
  const INT16: IntType := Bounds(-0x8000, 0x7FFF)
  const UINT16: IntType := Bounds(0, 0xFFFF)
  const INT32: IntType := Bounds(-INT32_MAX - 1, INT32_MAX)
  const UINT32: IntType := Bounds(0, 0xFFFF_FFFF)
  const INT64: IntType := Bounds(-INT64_MAX - 1, INT64_MAX)
  const UINT64: IntType := Bounds(0, UINT64_MAX)

  predicate Holds(ty: IntType, x: int) {
    ty.min <= x <= ty.max
  }

  /** The number of values of a type. */
  function Size(ty: IntType): nat {
    ty.max - ty.min + 1
  }

  /** What a variable of the type holds once x has been stored in it. */
  function Store(ty: IntType, x: int): (r: int)
    ensures Holds(ty, r)
    ensures Holds(ty, x) ==> r == x
    decreases if x > ty.max then x - ty.max else if x < ty.min then ty.min - x else 0
  {
    if x > ty.max then Store(ty, x - Size(ty))
    else if x < ty.min then Store(ty, x + Size(ty))
    else x
  }

  /** It differs from x by a multiple of the number of values. */
  lemma {:induction false} StoreIsModulo(ty: IntType, x: int) returns (k: int)
    ensures x == Store(ty, x) + k * Size(ty)
    decreases if x > ty.max then x - ty.max else if x < ty.min then ty.min - x else 0
  {
    if x > ty.max {
      var j := StoreIsModulo(ty, x - Size(ty));
      k := j + 1;
      OneMore(j, Size(ty));
    } else if x < ty.min {
      k := StoreIsModulo(ty, x + Size(ty));
      k := k - 1;
      OneMore(k, Size(ty));
    } else {
      k := 0;
    }
  }

  lemma OneMore(k: int, m: nat)
    ensures (k + 1) * m == k * m + m
  {
  }

  /** Multiples of the number of values do not matter. */
  lemma {:induction false} StoreShift(ty: IntType, x: int, k: nat)
    ensures Store(ty, x + k * Size(ty)) == Store(ty, x)
  {
    if k > 0 {
      StoreShift(ty, x, k - 1);
      OneMore(k - 1, Size(ty));
      StoreAgain(ty, x + (k - 1) * Size(ty));
    }
  }

  lemma {:induction false} StoreAgain(ty: IntType, x: int)
    ensures Store(ty, x + Size(ty)) == Store(ty, x)
    decreases if x < ty.min then ty.min - x else 0
  {
    if x < ty.min {
      StoreAgain(ty, x + Size(ty));
    }
  }

  lemma StoreMultiple(ty: IntType, x: int, k: int)
    ensures Store(ty, x + k * Size(ty)) == Store(ty, x)
  {
    if k >= 0 {
      StoreShift(ty, x, k);
    } else {
      var y := x + k * Size(ty);
      assert y + (0 - k) * Size(ty) == x;
      StoreShift(ty, y, 0 - k);
    }
  }

  /** So sums and products may be stored at every step or once. */
  lemma StorePlus(ty: IntType, x: int, y: int)
    ensures Store(ty, Store(ty, x) + y) == Store(ty, x + y)
  {
    var k := StoreIsModulo(ty, x);
    StoreMultiple(ty, Store(ty, x) + y, k);
  }

  lemma StoreTimes(ty: IntType, x: int, y: int)
    ensures Store(ty, Store(ty, x) * y) == Store(ty, x * y)
  {
    var k := StoreIsModulo(ty, x);
    Multiplied(x, Store(ty, x), k, Size(ty), y);
    StoreMultiple(ty, Store(ty, x) * y, k * y);
  }

  lemma Multiplied(x: int, s: int, k: int, m: int, y: int)
    requires x == s + k * m
    ensures x * y == s * y + (k * y) * m
  {
    assert (s + k * m) * y == s * y + k * m * y;
    assert k * m * y == (k * y) * m;
  }

  /** The type in which operands of a type are added, subtracted and multiplied: int for the types whose
      values int holds. */
  function Promoted(ty: IntType): IntType {
    if INT32.min <= ty.min && ty.max <= INT32.max then INT32 else ty
  }

  /** The types of up to 16 bits and int32_t are added as int32_t, the others as they are. */
  lemma PromotedIs()
    ensures Promoted(INT8) == Promoted(UINT8) == Promoted(INT16) == Promoted(UINT16) == Promoted(INT32) == INT32
    ensures Promoted(UINT32) == UINT32 && Promoted(INT64) == INT64 && Promoted(UINT64) == UINT64
  {
  }

  /** A signed type in which arithmetic is done: its differences may overflow. */
  predicate MayOverflow(ty: IntType) {
    Promoted(ty) == ty && ty.min < 0
  }

  /** Conversion to the type of positions. */
  function AsPosition(x: int): nat {
    Store(UINT64, x)
  }

  /** A difference or a count that fits the arithmetic type, or wraps as a position does. */
  predicate Kept(ty: IntType, x: int) {
    x <= Promoted(ty).max || Size(ty) == Size(UINT64)
  }

  /** Exactly the kept ones are right when they are computed in the arithmetic type and then taken to 64 bits. */
  lemma KeptIff(ty: IntType, x: nat)
    requires x <= Size(ty) && x <= UINT64_MAX
    ensures AsPosition(Store(Promoted(ty), x)) == x <==> Kept(ty, x)
    ensures !Kept(ty, x) ==> AsPosition(Store(Promoted(ty), x)) == AsPosition(x - Size(ty)) && Promoted(ty) == ty
  {
    if x > Promoted(ty).max {
      var y := x - Size(ty);
      assert Promoted(ty) == ty && Store(ty, x) == y;
      assert AsPosition(y) == if y < 0 then y + Size(UINT64) else y;
    }
  }

  /** A value that exceeds a type of at most 64 bits is not what the type, read as a position, holds. */
  lemma Overflows(ty: IntType, x: int, y: int)
    requires ty.max < x < 0x8000_0000_0000_0000 && Holds(ty, y)
    ensures AsPosition(y) != x
  {
  }

  /** The division of the C languages, which rounds toward zero. */
  function Div(a: int, b: nat): int
    requires b > 0
  {
    if a >= 0 then RowOf(a, b) else 0 - RowOf(-a, b)
  }

  lemma DivIs(a: int, b: nat)
    requires b > 0
    ensures Div(a, b) == if a >= 0 then a / b else -(-a / b)
  {
    Quotient(if a >= 0 then a else -a, b);
  }
}
