/** Fixed-width integer behaviour of the C++ firmware, written out over
    Dafny's unbounded integers: the widths the source declares, two's
    complement narrowing, C's truncating division and unsigned 32-bit
    wrap-around subtraction. */
module Ints {

  const Two16: int := 0x1_0000
  const Two32: int := 0x1_0000_0000

  type Uint32 = x: int | 0 <= x < Two32

  predicate IsInt16(x: int) {
    -0x8000 <= x < 0x8000
  }

  predicate IsInt32(x: int) {
    -0x8000_0000 <= x < 0x8000_0000
  }

  predicate AllInt16(s: seq<int>) {
    forall k :: 0 <= k < |s| ==> IsInt16(s[k])
  }

  predicate AllInt32(s: seq<int>) {
    forall k :: 0 <= k < |s| ==> IsInt32(s[k])
  }

  /** The implicit conversion of an `int32_t` to an `int16_t`: the low 16 bits
      of the word reinterpreted as a two's complement value. */
  function Narrow16(w: int): (r: int)
    ensures IsInt16(r)
    ensures (w - r) % Two16 == 0
  {
    var low := w % Two16;
    if low < 0x8000 then low else low - Two16
  }

  /** Narrowing is the identity on values that already fit in 16 bits. */
  lemma Narrow16Identity(w: int)
    requires IsInt16(w)
    ensures Narrow16(w) == w
  {
  }

  /** Narrowing depends only on the low 16 bits: adding any multiple of 2^16
      (the high half-word) does not change the result. */
  lemma Narrow16IgnoresHighHalf(lo: int, hi: int)
    ensures Narrow16(hi * Two16 + lo) == Narrow16(lo)
  {
    assert (hi * Two16 + lo) % Two16 == lo % Two16;
  }

  /** C's `/` on signed integers with a positive divisor: the quotient is
      truncated toward zero, so the remainder takes the sign of `a`. */
  function TruncDiv(a: int, b: int): (r: int)
    requires b > 0
    ensures a >= 0 ==> r >= 0 && b * r <= a < b * (r + 1)
    ensures a < 0 ==> r <= 0 && b * (r - 1) < a <= b * r
  {
    if a >= 0 then a / b else -((-a) / b)
  }

  /** Truncating division by a positive divisor is monotone. */
  lemma TruncDivMonotone(a1: int, a2: int, b: int)
    requires b > 0
    requires a1 <= a2
    ensures TruncDiv(a1, b) <= TruncDiv(a2, b)
  {
    var r1, r2 := TruncDiv(a1, b), TruncDiv(a2, b);
    if a1 >= 0 {
      MulCancel(b, r1, r2 + 1);
    } else if a2 < 0 {
      MulCancel(b, r1 - 1, r2);
    }
  }

  /** A strict inequality between multiples of a positive number carries over
      to the factors. */
  lemma MulCancel(b: int, x: int, y: int)
    requires b > 0
    requires b * x < b * y
    ensures x < y
  {
    assert b * y - b * x == b * (y - x);
  }

  /** `now - last` computed on `uint32_t` operands: the true difference
      reduced modulo 2^32. */
  function WrapSub32(now: Uint32, last: Uint32): (r: Uint32)
    ensures (r - (now - last)) % Two32 == 0
    ensures now >= last ==> r == now - last
    ensures now < last ==> r == Two32 - (last - now)
  {
    (now - last) % Two32
  }
}
