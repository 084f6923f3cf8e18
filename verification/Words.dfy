/** Fixed-width machine words, their wrap-around arithmetic, and rounding. */
module Words {

  const TWO_32 := 0x1_0000_0000

  type uint8 = x: int | 0 <= x < 0x100
  type uint16 = x: int | 0 <= x < 0x1_0000
  type uint32 = x: int | 0 <= x < 0x1_0000_0000
  type int16 = x: int | -0x8000 <= x < 0x8000
  type int32 = x: int | -0x8000_0000 <= x < 0x8000_0000

  /** Truncation of an integer to 32 unsigned bits. */
  function Wrap32(x: int): uint32 {
    x % TWO_32
  }

  /** The age `now - past`, computed on a 32-bit millisecond clock that wraps. */
  function Since(now: uint32, past: uint32): uint32 {
    Wrap32(now - past)
  }

  /** Unsigned division and remainder by a positive divisor, with the facts that pin them down. */
  function Div(x: nat, m: nat): (q: nat)
    requires m > 0
    ensures q <= x && q * m <= x < q * m + m
  {
    var q := x / m;
    assert q * m <= x < q * m + m;
    q
  }

  function Mod(x: nat, m: nat): (r: nat)
    requires m > 0
    ensures r < m && r <= x && x == Div(x, m) * m + r
  {
    x - Div(x, m) * m
  }

  lemma LessByFactor(a: int, b: int, m: int)
    requires m > 0 && a * m < b * m
    ensures a < b
  {
    assert (b - a) * m == b * m - a * m > 0;
  }

  /** Quotient and remainder are unique. */
  lemma DivUnique(x: nat, m: nat, q: nat, r: nat)
    requires m > 0 && r < m && x == q * m + r
    ensures Div(x, m) == q && Mod(x, m) == r
  {
    var d := Div(x, m);
    assert (q + 1) * m == q * m + m && (d + 1) * m == d * m + m;
    LessByFactor(d, q + 1, m);
    LessByFactor(q, d + 1, m);
  }

  /** Two's-complement reinterpretation of an unsigned word. */
  function AsInt32(x: uint32): int32 {
    if x < 0x8000_0000 then x else x - TWO_32
  }

  function AsInt16(x: uint16): int16 {
    if x < 0x8000 then x else x - 0x1_0000
  }

  /** Rounding to the nearest integer, halves away from zero. */
  function RoundHalfAway(x: real): int {
    if x >= 0.0 then (x + 0.5).Floor else -((0.5 - x).Floor)
  }

  function Abs(x: real): real {
    if x < 0.0 then -x else x
  }

  lemma ProductSign(a: real, d: real)
    requires d > 0.0
    ensures (a * d > 0.0 <==> a > 0.0) && (a * d == 0.0 <==> a == 0.0)
  {
  }

  /** Dividing by a positive number keeps the order. */
  lemma RatioOrder(x: real, y: real, d: real)
    requires d > 0.0
    ensures (x / d < y / d <==> x < y) && (x / d == y / d <==> x == y) && x / d * d == x
  {
    var p, q := x / d, y / d;
    assert p * d == x && q * d == y;
    ProductSign(q - p, d);
    assert (q - p) * d == y - x;
  }

  /** A part of a whole, as a share of it. */
  lemma RatioBounds(x: real, y: real)
    requires 0.0 <= x <= y && y > 0.0
    ensures 0.0 <= x / y <= 1.0 && x / y * y == x
    ensures (x / y == 1.0 <==> x == y) && (x / y == 0.0 <==> x == 0.0)
  {
    RatioOrder(0.0, x, y);
    RatioOrder(x, y, y);
    assert 0.0 / y == 0.0 && y / y == 1.0;
  }

  /** Wrapping part of a sum early makes no difference. */
  lemma WrapAbsorbs(x: int, y: int)
    ensures Wrap32(Wrap32(x) + y) == Wrap32(x + y)
    ensures Wrap32(y - Wrap32(x)) == Wrap32(y - x)
  {
    var k := x / TWO_32;
    assert Wrap32(x) == x - k * TWO_32;
    WrapShift(x + y, -k);
    WrapShift(y - x, k);
  }

  lemma WrapShift(x: int, k: int)
    ensures Wrap32(x + k * TWO_32) == Wrap32(x)
  {
    var q := x / TWO_32;
    assert x + k * TWO_32 == (q + k) * TWO_32 + Wrap32(x);
  }

  /** A difference survives a wrap of its first operand. */
  lemma WrappedDifference(x: int, y: int)
    requires 0 <= x - y < TWO_32
    ensures Wrap32(Wrap32(x) - y) == x - y
  {
  }

  /** On a clock that has not wrapped between `past` and `now`, the age is the true age. */
  lemma SinceUnwrapped(now: int, past: int)
    requires past <= now < past + TWO_32
    ensures Since(Wrap32(now), Wrap32(past)) == now - past
  {
  }
}
