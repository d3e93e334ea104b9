/** Fixed-width C integer conversions, written over unbounded integers. */
module CArithmetic {

  const U16_MAX := 0xffff
  const U32 := 0x1_0000_0000
  const U64 := 0x1_0000_0000_0000_0000

  type Byte = b: int | 0 <= b < 256

  /** Conversion to `uint32_t`. */
  function Wrap32(x: int): (r: int)
    ensures 0 <= r < U32
    ensures 0 <= x < U32 ==> r == x
  {
    x % U32
  }

  /** Conversion to `uint64_t`. */
  function Wrap64(x: int): (r: int)
    ensures 0 <= r < U64
    ensures 0 <= x < U64 ==> r == x
  {
    x % U64
  }

  /** Conversion to `int16_t`. */
  function Signed16(x: int): (r: int)
    ensures -0x8000 <= r < 0x8000
    ensures -0x8000 <= x < 0x8000 ==> r == x
  {
    (x + 0x8000) % 0x1_0000 - 0x8000
  }

  /** Conversion to `int32_t`. */
  function Signed32(x: int): (r: int)
    ensures -0x8000_0000 <= r < 0x8000_0000
    ensures -0x8000_0000 <= x < 0x8000_0000 ==> r == x
  {
    (x + 0x8000_0000) % U32 - 0x8000_0000
  }

  /** Conversion to `int64_t`. */
  function Signed64(x: int): (r: int)
    ensures -0x8000_0000_0000_0000 <= r < 0x8000_0000_0000_0000
    ensures -0x8000_0000_0000_0000 <= x < 0x8000_0000_0000_0000 ==> r == x
  {
    (x + 0x8000_0000_0000_0000) % U64 - 0x8000_0000_0000_0000
  }

  /** C division by a positive number: the quotient is truncated toward zero. */
  function TruncDiv(a: int, b: int): (q: int)
    requires b > 0
  {
    if a >= 0 then a / b else -((-a) / b)
  }

  /** Quotient and remainder are determined by their defining equation. */
  lemma DivModUnique(a: int, b: int, q: int, r: int)
    requires b > 0 && 0 <= r < b && a == q * b + r
    ensures a / b == q && a % b == r
  {
    var d := a / b - q;
    assert d * b == r - a % b;
    MulApart(d, b);
  }

  /** A nonzero multiple of `b` is at least `b` away from zero. */
  lemma MulApart(d: int, b: int)
    requires b > 0
    ensures d >= 1 ==> d * b >= b
    ensures d <= -1 ==> d * b <= -b
  {
  }
}
