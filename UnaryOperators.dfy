/**
 * The unary operators of `UnaryOperatorNode`: the tokens it accepts, what each
 * operator computes, and the factorial.
 */
module UnaryOperators {
  import opened Wrappers
  import opened Values
  import opened Session
  import opened Errors

  datatype UnaryOp = Negation | SquareRootOf | BitwiseNot | FactorialOf | SineOf | CosineOf | TangentOf

  /** The token that selects each operator. */
  function UnarySymbol(op: UnaryOp): string
  {
    match op
    case Negation => "-"
    case SquareRootOf => "sqrt"
    case BitwiseNot => "~"
    case FactorialOf => "!"
    case SineOf => "sin"
    case CosineOf => "cos"
    case TangentOf => "tan"
  }

  /** The constructor's `switch`: the operator a token selects, if any. */
  function UnaryOperatorOf(token: string): (r: Option<UnaryOp>)
    ensures r.Some? ==> UnarySymbol(r.value) == token
  {
    if token == "-" then Some(Negation)
    else if token == "sqrt" then Some(SquareRootOf)
    else if token == "~" then Some(BitwiseNot)
    else if token == "!" then Some(FactorialOf)
    else if token == "sin" then Some(SineOf)
    else if token == "cos" then Some(CosineOf)
    else if token == "tan" then Some(TangentOf)
    else None
  }

  /** The accepted tokens are exactly the seven operator symbols, each selecting its own operator. */
  lemma UnaryOperatorOfSymbol(op: UnaryOp)
    ensures UnaryOperatorOf(UnarySymbol(op)) == Some(op)
  {
  }

  lemma UnaryTokensAccepted(token: string)
    ensures UnaryOperatorOf(token).Some? <==> token in ["-", "sqrt", "~", "!", "sin", "cos", "tan"]
  {
  }

  // ---------------------------------------------------------------------
  // Factorial

  /** n! over the mathematical integers. */
  function Factorial(n: nat): (f: nat)
    ensures f >= 1
  {
    if n == 0 then 1 else n * Factorial(n - 1)
  }

  /**
   * `factorial(long n)` as written: negative input fails, 0 and 1 give 1, and
   * otherwise `n * factorial(n - 1)` in `long` arithmetic, which wraps around.
   */
  function LongFactorial(n: Int64): (r: Result<Int64, Error>)
    ensures r.Ok? <==> n >= 0
    ensures r.Err? ==> r.error == NegativeFactorial
    decreases if n < 0 then 0 else n
  {
    if n < 0 then Err(NegativeFactorial)
    else if n == 0 || n == 1 then Ok(1)
    else
      var f := LongFactorial(n - 1);
      Ok(Wrap64(n * f.value))
  }

  /** Truncating before a multiplication gives the same 64-bit result as truncating after it. */
  lemma WrapThenMultiply(n: int, a: int)
    ensures Wrap64(n * Wrap64(a)) == Wrap64(n * a)
  {
    var k := (Wrap64(a) - a) / Two64;
    assert Wrap64(a) == a + k * Two64;
    assert n * Wrap64(a) == n * a + (n * k) * Two64;
    Wrap64Congruent(n * Wrap64(a), n * a);
  }

  /** The `long` factorial is the exact factorial truncated to 64 bits. */
  lemma {:induction false} LongFactorialWraps(n: Int64)
    requires n >= 0
    ensures LongFactorial(n) == Ok(Wrap64(Factorial(n)))
    decreases n
  {
    if n <= 1 {
      Wrap64InRange(1);
    } else {
      LongFactorialWraps(n - 1);
      WrapThenMultiply(n, Factorial(n - 1));
    }
  }

  lemma {:induction false} FactorialIsMonotone(m: nat, n: nat)
    requires m <= n
    ensures Factorial(m) <= Factorial(n)
    decreases n
  {
    if m < n {
      FactorialIsMonotone(m, n - 1);
    }
  }

  /** 20! still fits in a `long`; 21! does not. */
  lemma FactorialsAround64Bits()
    ensures Factorial(20) == 2432902008176640000
    ensures Factorial(21) == 51090942171709440000
  {
    assert Factorial(5) == 120;
    assert Factorial(10) == 3628800;
    assert Factorial(15) == 1307674368000;
    assert Factorial(20) == 2432902008176640000;
  }

  /** Up to 20 the `long` factorial is exact; 21! is the first that does not fit and comes out negative. */
  lemma LongFactorialExactUpTo20(n: Int64)
    requires 0 <= n <= 20
    ensures LongFactorial(n) == Ok(Factorial(n))
  {
    FactorialsAround64Bits();
    FactorialIsMonotone(n, 20);
    LongFactorialWraps(n);
    Wrap64InRange(Factorial(n));
  }

  lemma LongFactorialOverflowsAt21()
    ensures LongFactorial(21) == Ok(-4249290049419214848)
  {
    FactorialsAround64Bits();
    LongFactorialWraps(21);
    assert Wrap64(51090942171709440000) == -4249290049419214848;
  }

  // ---------------------------------------------------------------------
  // What each operator computes

  /**
   * The operator applied to an evaluated operand: `-` and `sqrt` on the double
   * value, `~` on the `int` value, `!` on the `long` value, and the
   * trigonometric functions on the double value times the conversion factor of
   * the angle mode in force.
   */
  function ApplyUnary(op: UnaryOp, x: Value, mode: AngleMode, nar: Narrowing): (r: Result<Value, Error>)
    ensures r.Err? <==> op == FactorialOf && LongValue(x, nar) < 0
    ensures r.Err? ==> r.error == NegativeFactorial
    ensures r.Ok? && op == FactorialOf ==> r.value.Long? && LongFactorial(LongValue(x, nar)) == Ok(r.value.l)
    ensures r.Ok? && op == BitwiseNot ==> r.value == Integer(-1 - IntValue(x, nar))
    ensures r.Ok? && op != FactorialOf && op != BitwiseNot ==> r.value.Double?
  {
    match op
    case Negation => Ok(Double(Negate(DoubleValue(x))))
    case SquareRootOf => Ok(Double(SquareRoot(DoubleValue(x))))
    case BitwiseNot =>
      ComplementIsNegatedPredecessor(IntValue(x, nar));
      Ok(Integer(Complement(IntValue(x, nar))))
    case FactorialOf =>
      var f := LongFactorial(LongValue(x, nar));
      if f.Err? then Err(f.error) else Ok(Long(f.value))
    case SineOf => Ok(Double(Sine(Product(DoubleValue(x), Conversion(mode)))))
    case CosineOf => Ok(Double(Cosine(Product(DoubleValue(x), Conversion(mode)))))
    case TangentOf => Ok(Double(Tangent(Product(DoubleValue(x), Conversion(mode)))))
  }

  predicate IsTrigonometric(op: UnaryOp)
  {
    op == SineOf || op == CosineOf || op == TangentOf
  }

  /** Only the trigonometric operators read the angle mode; in radians the factor is 1. */
  lemma ApplyUnaryReadsModeOnlyForTrig(op: UnaryOp, x: Value, m1: AngleMode, m2: AngleMode, nar: Narrowing)
    requires !IsTrigonometric(op)
    ensures ApplyUnary(op, x, m1, nar) == ApplyUnary(op, x, m2, nar)
  {
  }

  lemma TrigInRadiansScalesByOne(x: Value, nar: Narrowing)
    ensures ApplyUnary(SineOf, x, Rad, nar) == Ok(Double(Sine(Product(DoubleValue(x), FromInteger(1)))))
  {
  }
}
