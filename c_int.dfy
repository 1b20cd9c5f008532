/**
 * C integer semantics on the 32-bit Cortex-M target of the firmware:
 * `char` is 8 bits, `short` 16, `int` and `long` 32. Dafny's integers are
 * unbounded and its `/` is Euclidean, so every conversion, wrap-around and
 * truncating division the C code relies on is written out here.
 */
module CInt {

  type uint8 = x: int | 0 <= x < 0x100
  type uint16 = x: int | 0 <= x < 0x1_0000
  type uint32 = x: int | 0 <= x < 0x1_0000_0000
  type int8 = x: int | -0x80 <= x < 0x80
  type int16 = x: int | -0x8000 <= x < 0x8000
  type int32 = x: int | -0x8000_0000 <= x < 0x8000_0000

  /** 2^k */
  function Pow2(k: nat): (r: nat)
    ensures r >= 1
  {
    if k == 0 then 1 else 2 * Pow2(k - 1)
  }

  /** C's `a / b` on signed operands: the quotient truncated toward zero. */
  function CDiv(a: int, b: int): (q: int)
    requires b != 0
    ensures Abs(q) == Quotient(Abs(a), Abs(b))
    ensures q > 0 ==> (a > 0) == (b > 0)
    ensures q < 0 ==> (a > 0) != (b > 0)
  {
    var m: int := Quotient(Abs(a), Abs(b));
    if (a < 0) == (b < 0) then m else -m
  }

  /**
   * Truncation in terms of the remainder: `a == q * b + r` where the
   * remainder is smaller than the divisor and never has the opposite sign
   * of the dividend (unlike Euclidean or floor division).
   */
  lemma CDivRemainder(a: int, b: int)
    requires b != 0
    ensures var r := a - CDiv(a, b) * b;
      Abs(r) < Abs(b) && (r > 0 ==> a > 0) && (r < 0 ==> a < 0)
  {
    var m := Abs(a) / Abs(b);
    var s := Abs(a) % Abs(b);
    assert Abs(a) == m * Abs(b) + s;
    if (a < 0) == (b < 0) {
      assert CDiv(a, b) * b == (if a < 0 then -(m * Abs(b)) else m * Abs(b));
    } else {
      assert CDiv(a, b) * b == (if a < 0 then -(m * Abs(b)) else m * Abs(b));
    }
  }

  function Abs(x: int): nat { if x < 0 then -x else x }

  /** Division of magnitudes, the step both C and Euclidean division agree on. */
  function Quotient(x: nat, y: nat): (m: nat)
    requires y > 0
    ensures m * y <= x < m * y + y
  {
    x / y
  }

  /** `x >> k` on a signed operand: the compiler shifts arithmetically, which is floor(x / 2^k). */
  function Asr(x: int, k: nat): (r: int)
    ensures r * Pow2(k) <= x < r * Pow2(k) + Pow2(k)
  {
    x / Pow2(k)
  }

  /** Conversion of an integer result to `unsigned long`: reduction modulo 2^32. */
  function U32(x: int): (r: uint32)
    ensures (x - r) % 0x1_0000_0000 == 0
    ensures 0 <= x < 0x1_0000_0000 ==> r == x
  {
    x % 0x1_0000_0000
  }

  /** Conversion of an integer to `long`: two's-complement reinterpretation modulo 2^32. */
  function I32(x: int): (r: int32)
    ensures (x - r) % 0x1_0000_0000 == 0
    ensures -0x8000_0000 <= x < 0x8000_0000 ==> r == x
  {
    var u := x % 0x1_0000_0000;
    if u < 0x8000_0000 then u else u - 0x1_0000_0000
  }

  /** Conversion of an integer to `short`: two's-complement reinterpretation modulo 2^16. */
  function I16(x: int): (r: int16)
    ensures (x - r) % 0x1_0000 == 0
    ensures -0x8000 <= x < 0x8000 ==> r == x
  {
    var u := x % 0x1_0000;
    if u < 0x8000 then u else u - 0x1_0000
  }

  /** Conversion of an integer to `uint8_t`: reduction modulo 256. */
  function U8(x: int): (r: uint8)
    ensures (x - r) % 0x100 == 0
    ensures 0 <= x < 0x100 ==> r == x
  {
    x % 0x100
  }

  /** A 16-bit word stored into a `short` is negative exactly when its top bit is set. */
  lemma I16OfWord(w: uint16)
    ensures I16(w) < 0 <==> w >= 0x8000
    ensures I16(w) == if w < 0x8000 then w else w - 0x1_0000
  {
  }

  /** Storing a word into a `short` loses nothing: different words stay different. */
  lemma I16Injective(v: uint16, w: uint16)
    ensures I16(v) == I16(w) <==> v == w
  {
    I16OfWord(v);
    I16OfWord(w);
  }
}
