/**
 * Small integer helpers shared by the display and matcher packages
 * (tools/tools.go), plus the two Go integer conventions the rest of the
 * model needs written out: truncating division and 32-bit wrap-around.
 */
module Tools {

  /** The larger of two integers; `b` when they are equal. */
  function Max(a: int, b: int): (r: int)
    ensures r >= a && r >= b
    ensures r == a || r == b
  {
    if a > b then a else b
  }

  /** The smaller of two integers; `b` when they are equal. */
  function Min(a: int, b: int): (r: int)
    ensures r <= a && r <= b
    ensures r == a || r == b
  {
    if a < b then a else b
  }

  /** Whole bytes per pixel; sub-byte depths count as one byte for row sizing. */
  function CalcBytesPerPixel(bitCount: int): (r: int)
    ensures bitCount >= 8 ==> r * 8 <= bitCount < r * 8 + 8
    ensures bitCount < 8 ==> r == 1
  {
    if bitCount >= 8 then bitCount / 8 else 1
  }

  /** The bit depths a BMP may declare. */
  predicate IsBmpBitCount(b: int) {
    b == 1 || b == 4 || b == 8 || b == 16 || b == 24 || b == 32
  }

  lemma BytesPerPixelOfBmpDepths(b: int)
    requires IsBmpBitCount(b)
    ensures CalcBytesPerPixel(b) >= 1
    ensures b >= 8 ==> CalcBytesPerPixel(b) * 8 == b
    ensures CalcBytesPerPixel(16) == 2 && CalcBytesPerPixel(24) == 3 && CalcBytesPerPixel(32) == 4
  {
  }

  /** Go's `/` on signed integers: the quotient truncated toward zero. */
  function GoQuot(a: int, b: int): (q: int)
    requires b > 0
    ensures a >= 0 ==> q == a / b
    ensures a <= 0 ==> q <= 0 && -q == (-a) / b
  {
    if a >= 0 then a / b else -((-a) / b)
  }

  /** Go's `/` on signed integers for a divisor of either sign. */
  function GoDiv(a: int, b: int): (q: int)
    requires b != 0
    ensures b > 0 ==> q == GoQuot(a, b)
    ensures b < 0 ==> q == -GoQuot(a, -b)
    ensures (a >= 0 && b > 0) || (a <= 0 && b < 0) ==> q >= 0
  {
    if b > 0 then GoQuot(a, b) else -GoQuot(a, -b)
  }

  /** Go's `x &^ 3` on a signed integer: x rounded down to a multiple of 4. */
  function ClearLow2(x: int): (r: int)
    ensures r % 4 == 0 && r <= x < r + 4
  {
    (x / 4) * 4
  }

  const TwoTo31: int := 0x8000_0000
  const TwoTo32: int := 0x1_0000_0000

  predicate IsInt32(x: int) {
    -TwoTo31 <= x < TwoTo31
  }

  /** Go's int32 arithmetic: the two's-complement wrap of an exact result. */
  function Wrap32(x: int): (r: int)
    ensures IsInt32(r)
    ensures (x - r) % TwoTo32 == 0
    ensures IsInt32(x) ==> r == x
  {
    var m := (x + TwoTo31) % TwoTo32;
    assert IsInt32(x) ==> m == x + TwoTo31;
    m - TwoTo31
  }

  /** Go's `int32(u)` for a uint32 bit pattern `u`. */
  function Int32OfUint32(u: int): (r: int)
    requires 0 <= u < TwoTo32
    ensures IsInt32(r)
    ensures r == Wrap32(u)
  {
    if u < TwoTo31 then u else u - TwoTo32
  }

  /** Multiplying both sides of `a <= b` by a non-negative `c`. */
  lemma MulLeftMono(a: int, b: int, c: int)
    requires a <= b && c >= 0
    ensures a * c <= b * c
  {
  }

  /** The quotient of `a` by `m` is the q of any a = m*q + r with 0 <= r < m. */
  lemma DivUnique(a: nat, m: nat, q: nat, r: nat)
    requires m > 0 && a == m * q + r && r < m
    ensures a / m == q
  {
    var q', r' := a / m, a % m;
    assert a == m * q' + r';
    if q < q' {
      MulLeftMono(q + 1, q', m);
    } else if q' < q {
      MulLeftMono(q' + 1, q, m);
    }
  }
}
