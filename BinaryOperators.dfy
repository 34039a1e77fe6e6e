/**
 * The binary operators of `BinaryOperatorNode`: the tokens it accepts and what
 * each operator computes from its two evaluated operands.
 */
module BinaryOperators {
  import opened Wrappers
  import opened Values

  datatype BinaryOp = Add | Subtract | Multiply | Divide | Raise | LeftShift | RightShift | And | Or | Modulo | Scientific

  /** The token that selects each operator. */
  function BinarySymbol(op: BinaryOp): string
  {
    match op
    case Add => "+"
    case Subtract => "-"
    case Multiply => "*"
    case Divide => "/"
    case Raise => "^"
    case LeftShift => "<<"
    case RightShift => ">>"
    case And => "&"
    case Or => "|"
    case Modulo => "%"
    case Scientific => "E"
  }

  /** The constructor's `switch`: the operator a token selects, if any. */
  function BinaryOperatorOf(token: string): (r: Option<BinaryOp>)
    ensures r.Some? ==> BinarySymbol(r.value) == token
  {
    if token == "+" then Some(Add)
    else if token == "-" then Some(Subtract)
    else if token == "*" then Some(Multiply)
    else if token == "/" then Some(Divide)
    else if token == "^" then Some(Raise)
    else if token == "<<" then Some(LeftShift)
    else if token == ">>" then Some(RightShift)
    else if token == "&" then Some(And)
    else if token == "|" then Some(Or)
    else if token == "%" then Some(Modulo)
    else if token == "E" then Some(Scientific)
    else None
  }

  lemma BinaryOperatorOfSymbol(op: BinaryOp)
    ensures BinaryOperatorOf(BinarySymbol(op)) == Some(op)
  {
  }

  /** The accepted tokens are exactly the eleven operator symbols. */
  lemma BinaryTokensAccepted(token: string)
    ensures BinaryOperatorOf(token).Some? <==> token in ["+", "-", "*", "/", "^", "<<", ">>", "&", "|", "%", "E"]
  {
  }

  predicate IsIntegerOperator(op: BinaryOp)
  {
    op == LeftShift || op == RightShift || op == And || op == Or
  }

  /**
   * The operator applied to the two evaluated operands: shifts and the bitwise
   * operators on the `int` values, giving an `Integer`; the rest on the double
   * values, giving a `Double`; `E` is x times 10 to the power y.
   */
  function ApplyBinary(op: BinaryOp, x: Value, y: Value, nar: Narrowing): (r: Value)
    ensures IsIntegerOperator(op) <==> r.Integer?
    ensures !IsIntegerOperator(op) ==> r.Double?
    ensures op == Scientific ==> r == Double(Product(DoubleValue(x), Power(FromInteger(10), DoubleValue(y))))
    ensures op == LeftShift ==> r == Integer(Wrap32(IntValue(x, nar) * Pow2(IntValue(y, nar) % 32)))
    ensures op == RightShift ==> r == Integer(FloorDivide(IntValue(x, nar), Pow2(IntValue(y, nar) % 32)))
    ensures op == RightShift ==> r.Integer? && (r.i < 0 <==> IntValue(x, nar) < 0)
    ensures op == And ==> r == Integer(BitAnd(IntValue(x, nar), IntValue(y, nar)))
    ensures op == Or ==> r == Integer(BitOr(IntValue(x, nar), IntValue(y, nar)))
  {
    var a, b := DoubleValue(x), DoubleValue(y);
    var i, j := IntValue(x, nar), IntValue(y, nar);
    match op
    case Add => Double(Sum(a, b))
    case Subtract => Double(Difference(a, b))
    case Multiply => Double(Product(a, b))
    case Divide => Double(Quotient(a, b))
    case Raise => Double(Power(a, b))
    case LeftShift => Integer(ShiftLeft(i, j))
    case RightShift => ShiftRightKeepsSign(i, j); Integer(ShiftRight(i, j))
    case And => Integer(BitAnd(i, j))
    case Or => Integer(BitOr(i, j))
    case Modulo => Double(Remainder(a, b))
    case Scientific => Double(Product(a, Power(FromInteger(10), b)))
  }

  /** `&` with all ones and `|` with zero leave the `int` value of the left operand. */
  lemma BitwiseIdentities(x: Value, nar: Narrowing)
    ensures ApplyBinary(And, x, Integer(-1), nar) == Integer(IntValue(x, nar))
    ensures ApplyBinary(Or, x, Integer(0), nar) == Integer(IntValue(x, nar))
    ensures ApplyBinary(And, x, Integer(0), nar) == Integer(0)
  {
    BitwiseUnits(IntValue(x, nar));
  }

  /** The bitwise operators are symmetric in their operands. */
  lemma BitwiseOperatorsCommute(op: BinaryOp, x: Value, y: Value, nar: Narrowing)
    requires op == And || op == Or
    ensures ApplyBinary(op, x, y, nar) == ApplyBinary(op, y, x, nar)
  {
    BitwiseCommute(IntValue(x, nar), IntValue(y, nar));
  }

  /** Java masks a shift distance to its low five bits: shifting by 32 more is the same shift. */
  lemma ShiftDistanceWraps(op: BinaryOp, x: Value, b: Int32, nar: Narrowing)
    requires op == LeftShift || op == RightShift
    requires b + 32 < 0x8000_0000
    ensures ApplyBinary(op, x, Integer(b + 32), nar) == ApplyBinary(op, x, Integer(b), nar)
  {
    ShiftDistanceIsMasked(IntValue(x, nar), b);
  }
}
