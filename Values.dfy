/**
 * The numbers the calculator computes with. Java hands them around as
 * `java.lang.Number`, whose run-time class decides how `doubleValue`,
 * `longValue` and `intValue` read them: a `Double` from the floating-point
 * operators, a `Long` from the factorial, an `Integer` from `~`, the shifts,
 * the bitwise operators and the initial `ans`.
 *
 * Floating-point arithmetic is not interpreted: a double is a term naming the
 * operations that produced it. Integer arithmetic is exact and the 32- and
 * 64-bit wrap-around of Java's `int` and `long` is written out.
 */
module Values {

  const Two32: int := 0x1_0000_0000
  const Two64: int := 0x1_0000_0000_0000_0000

  /** Java's `int`. */
  type Int32 = i: int | -0x8000_0000 <= i < 0x8000_0000

  /** Java's `long`. */
  type Int64 = i: int | -0x8000_0000_0000_0000 <= i < 0x8000_0000_0000_0000

  /** Two's-complement truncation to 32 bits: what `(int)` does to a `long` and what `int` arithmetic does on overflow. */
  function Wrap32(n: int): (r: Int32)
    ensures (r - n) % Two32 == 0
  {
    (n + 0x8000_0000) % Two32 - 0x8000_0000
  }

  /** Two's-complement truncation to 64 bits: what `long` arithmetic does on overflow. */
  function Wrap64(n: int): (r: Int64)
    ensures (r - n) % Two64 == 0
  {
    (n + 0x8000_0000_0000_0000) % Two64 - 0x8000_0000_0000_0000
  }

  /** A value already in range is left as it is. */
  lemma Wrap32InRange(n: int)
    requires -0x8000_0000 <= n < 0x8000_0000
    ensures Wrap32(n) == n
  {
  }

  lemma Wrap64InRange(n: int)
    requires -0x8000_0000_0000_0000 <= n < 0x8000_0000_0000_0000
    ensures Wrap64(n) == n
  {
  }

  /** Truncation only depends on the value modulo 2^32. */
  lemma Wrap32Congruent(a: int, b: int)
    requires (a - b) % Two32 == 0
    ensures Wrap32(a) == Wrap32(b)
  {
    var k := (a - b) / Two32;
    assert a + 0x8000_0000 == (b + 0x8000_0000) + k * Two32;
  }

  /** Truncation only depends on the value modulo 2^64. */
  lemma Wrap64Congruent(a: int, b: int)
    requires (a - b) % Two64 == 0
    ensures Wrap64(a) == Wrap64(b)
  {
    var k := (a - b) / Two64;
    assert a + 0x8000_0000_0000_0000 == (b + 0x8000_0000_0000_0000) + k * Two64;
  }

  /** `2^n`. */
  function Pow2(n: nat): (p: nat)
    ensures p >= 1
  {
    if n == 0 then 1 else 2 * Pow2(n - 1)
  }

  /** The 32 bits of an `int` read as an unsigned number, and back. */
  function Unsigned(i: Int32): (u: nat)
    ensures u < Two32
  {
    if i < 0 then i + Two32 else i
  }

  function Signed(u: nat): Int32
    requires u < Two32
  {
    if u < 0x8000_0000 then u else u - Two32
  }

  lemma UnsignedRoundTrip(i: Int32)
    ensures Signed(Unsigned(i)) == i
  {
  }

  /** The low `n` bits of `x` and `y`, combined bit by bit: both set, either set, or (with `y` unused) flipped. */
  function AndBits(x: nat, y: nat, n: nat): nat
  {
    if n == 0 then 0 else (x % 2) * (y % 2) + 2 * AndBits(x / 2, y / 2, n - 1)
  }

  function OrBits(x: nat, y: nat, n: nat): nat
  {
    if n == 0 then 0 else (if x % 2 == 1 || y % 2 == 1 then 1 else 0) + 2 * OrBits(x / 2, y / 2, n - 1)
  }

  function NotBits(x: nat, n: nat): nat
  {
    if n == 0 then 0 else (1 - x % 2) + 2 * NotBits(x / 2, n - 1)
  }

  lemma {:induction false} BitsBounded(x: nat, y: nat, n: nat)
    ensures AndBits(x, y, n) < Pow2(n) && OrBits(x, y, n) < Pow2(n) && NotBits(x, n) < Pow2(n)
  {
    if n > 0 {
      BitsBounded(x / 2, y / 2, n - 1);
    }
  }

  /** Flipping the low `n` bits of a number below `2^n` subtracts it from `2^n - 1`. */
  lemma {:induction false} NotBitsIsSubtraction(x: nat, n: nat)
    requires x < Pow2(n)
    ensures NotBits(x, n) == Pow2(n) - 1 - x
  {
    if n > 0 {
      NotBitsIsSubtraction(x / 2, n - 1);
    }
  }

  /** Combining with all ones or with zero. */
  lemma {:induction false} BitsWithOnes(x: nat, n: nat)
    requires x < Pow2(n)
    ensures AndBits(x, Pow2(n) - 1, n) == x && OrBits(x, 0, n) == x
    ensures AndBits(x, 0, n) == 0 && OrBits(x, Pow2(n) - 1, n) == Pow2(n) - 1
  {
    if n > 0 {
      BitsWithOnes(x / 2, n - 1);
      assert (Pow2(n) - 1) / 2 == Pow2(n - 1) - 1 && (Pow2(n) - 1) % 2 == 1;
    }
  }

  lemma {:induction false} BitsCommute(x: nat, y: nat, n: nat)
    ensures AndBits(x, y, n) == AndBits(y, x, n) && OrBits(x, y, n) == OrBits(y, x, n)
  {
    if n > 0 {
      BitsCommute(x / 2, y / 2, n - 1);
    }
  }

  lemma Pow2Of32()
    ensures Pow2(32) == Two32
  {
    assert Pow2(8) == 256;
    assert Pow2(16) == 65536 by {
      assert Pow2(16) == Pow2(8) * Pow2(8) by { Pow2Add(8, 8); }
    }
    Pow2Add(16, 16);
  }

  lemma {:induction false} Pow2Add(a: nat, b: nat)
    ensures Pow2(a + b) == Pow2(a) * Pow2(b)
  {
    if a > 0 {
      Pow2Add(a - 1, b);
    }
  }

  /** Java's `~` on an `int`: every one of its 32 bits flipped. */
  function Complement(i: Int32): Int32
  {
    BitsBounded(Unsigned(i), 0, 32);
    Pow2Of32();
    Signed(NotBits(Unsigned(i), 32))
  }

  /** Flipping every bit of a two's-complement number gives `-1 - i`. */
  lemma ComplementIsNegatedPredecessor(i: Int32)
    ensures Complement(i) == -1 - i
  {
    Pow2Of32();
    NotBitsIsSubtraction(Unsigned(i), 32);
  }

  lemma ComplementIsInvolution(i: Int32)
    ensures Complement(Complement(i)) == i
  {
    ComplementIsNegatedPredecessor(i);
    ComplementIsNegatedPredecessor(Complement(i));
  }

  /** Java's `&` and `|` on `int`s, bit by bit over the 32 bits. */
  function BitAnd(a: Int32, b: Int32): Int32
  {
    BitsBounded(Unsigned(a), Unsigned(b), 32);
    Pow2Of32();
    Signed(AndBits(Unsigned(a), Unsigned(b), 32))
  }

  function BitOr(a: Int32, b: Int32): Int32
  {
    BitsBounded(Unsigned(a), Unsigned(b), 32);
    Pow2Of32();
    Signed(OrBits(Unsigned(a), Unsigned(b), 32))
  }

  /** All ones (-1) is the unit of `&` and zero that of `|`; zero absorbs `&` and all ones absorbs `|`. */
  lemma BitwiseUnits(a: Int32)
    ensures BitAnd(a, -1) == a && BitAnd(a, 0) == 0
    ensures BitOr(a, 0) == a && BitOr(a, -1) == -1
  {
    Pow2Of32();
    assert Unsigned(-1) == Pow2(32) - 1 && Unsigned(0) == 0;
    BitsWithOnes(Unsigned(a), 32);
  }

  /** `&` and `|` do not depend on the order of their operands. */
  lemma BitwiseCommute(a: Int32, b: Int32)
    ensures BitAnd(a, b) == BitAnd(b, a) && BitOr(a, b) == BitOr(b, a)
  {
    BitsCommute(Unsigned(a), Unsigned(b), 32);
  }

  /** Java's `a << b` on `int`s: the distance is taken modulo 32, and the bits shifted out are lost. */
  function ShiftLeft(a: Int32, b: Int32): Int32
  {
    Wrap32(a * Pow2(b % 32))
  }

  /** Java's `a >> b` on `int`s: an arithmetic shift, rounding towards negative infinity, distance modulo 32. */
  function ShiftRight(a: Int32, b: Int32): Int32
  {
    FloorDivide(a, Pow2(b % 32))
  }

  /** Division rounding towards negative infinity by a positive divisor, which stays in range. */
  function FloorDivide(a: Int32, d: nat): (q: Int32)
    requires d >= 1
    ensures q * d <= a < q * d + d
  {
    a / d
  }

  /** Only the low five bits of the distance count: shifting by 32 is shifting by 0. */
  lemma ShiftDistanceIsMasked(a: Int32, b: Int32)
    requires b + 32 < 0x8000_0000
    ensures ShiftLeft(a, b + 32) == ShiftLeft(a, b) && ShiftRight(a, b + 32) == ShiftRight(a, b)
  {
    assert (b + 32) % 32 == b % 32;
  }

  /** An arithmetic right shift keeps the sign. */
  lemma ShiftRightKeepsSign(a: Int32, b: Int32)
    ensures (ShiftRight(a, b) < 0) <==> (a < 0)
  {
    var d := Pow2(b % 32);
    var q := FloorDivide(a, d);
    if a < 0 && q >= 0 {
      MultiplyNonNegative(q, d);
    } else if a >= 0 && q < 0 {
      MultiplyNegative(q, d);
    }
  }

  lemma MultiplyNonNegative(x: nat, y: nat)
    ensures x * y >= 0
  {
  }

  lemma MultiplyNegative(x: int, y: nat)
    requires x < 0
    ensures x * y + y <= 0
  {
    MultiplyNonNegative(-x - 1, y);
    assert x * y + y == -((-x - 1) * y);
  }

  /**
   * A double: the operations that produced it, from literals, the two
   * constants and integers converted to double.
   */
  datatype DoubleTerm =
    | ParseDouble(text: string)
    | MathE
    | MathPi
    | FromInteger(n: int)
    | Negate(x: DoubleTerm)
    | SquareRoot(x: DoubleTerm)
    | Sine(x: DoubleTerm)
    | Cosine(x: DoubleTerm)
    | Tangent(x: DoubleTerm)
    | Sum(x: DoubleTerm, y: DoubleTerm)
    | Difference(x: DoubleTerm, y: DoubleTerm)
    | Product(x: DoubleTerm, y: DoubleTerm)
    | Quotient(x: DoubleTerm, y: DoubleTerm)
    | Power(x: DoubleTerm, y: DoubleTerm)
    | Remainder(x: DoubleTerm, y: DoubleTerm)

  /** A `java.lang.Number` of one of the three classes the calculator produces. */
  datatype Value =
    | Double(d: DoubleTerm)
    | Long(l: Int64)
    | Integer(i: Int32)

  /**
   * How a double is narrowed to `long` and to `int` (Java's saturating casts),
   * left as a parameter because doubles are not interpreted. Every narrowing
   * goes through it, that of an integral double such as a literal `5` too, so
   * nothing fixes the `long` or `int` reading of a double.
   */
  datatype Narrowing = Narrowing(toLong: DoubleTerm -> Int64, toInt: DoubleTerm -> Int32)

  /** `Number.doubleValue()`: integers are converted. */
  function DoubleValue(v: Value): (d: DoubleTerm)
    ensures v.Double? ==> d == v.d
    ensures v.Long? ==> d == FromInteger(v.l)
    ensures v.Integer? ==> d == FromInteger(v.i)
  {
    match v
    case Double(d) => d
    case Long(l) => FromInteger(l)
    case Integer(i) => FromInteger(i)
  }

  /** `Number.longValue()`: an `Integer` widens, a `Double` is narrowed. */
  function LongValue(v: Value, nar: Narrowing): (l: Int64)
    ensures v.Long? ==> l == v.l
    ensures v.Integer? ==> l == v.i
  {
    match v
    case Double(d) => nar.toLong(d)
    case Long(l) => l
    case Integer(i) => i
  }

  /** `Number.intValue()`: a `Long` keeps its low 32 bits, a `Double` is narrowed. */
  function IntValue(v: Value, nar: Narrowing): (i: Int32)
    ensures v.Integer? ==> i == v.i
    ensures v.Long? ==> i == Wrap32(v.l)
  {
    match v
    case Double(d) => nar.toInt(d)
    case Long(l) => Wrap32(l)
    case Integer(i) => i
  }

  /** On integers in `int` range, the three readings agree. */
  lemma IntegerReadingsAgree(i: Int32, nar: Narrowing)
    ensures IntValue(Long(i), nar) == LongValue(Integer(i), nar) == i
    ensures DoubleValue(Long(i)) == DoubleValue(Integer(i))
  {
    Wrap32InRange(i);
  }
}
