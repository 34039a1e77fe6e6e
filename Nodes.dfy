/**
 * The syntax-tree nodes. A node built by the parser already holds what its
 * constructor computed: a number node its value, a variable node the value the
 * variable had when the node was built. Evaluation reads only the angle mode,
 * at the moment it runs.
 */
module Nodes {
  import opened Wrappers
  import opened Values
  import opened Session
  import opened Errors
  import opened UnaryOperators
  import opened BinaryOperators

  datatype Node =
    | NumberNode(value: Value)
    | VariableNode(value: Value)
    | UnaryOperatorNode(uop: UnaryOp, operand: Node)
    | BinaryOperatorNode(bop: BinaryOp, left: Node, right: Node)
    | CommandNode

  /**
   * `NumberNode(String)`: `e` and `pi` are the two constants, `ans` is the value
   * `ans` holds now, and any other text is parsed as a decimal literal.
   */
  function NewNumberNode(text: string, e: Env): (r: Node)
    requires text == "ans" ==> "ans" in e.variables
    ensures r.NumberNode?
    ensures text == "e" ==> r.value == Double(MathE)
    ensures text == "pi" ==> r.value == Double(MathPi)
    ensures text == "ans" ==> r.value == e.variables["ans"]
    ensures text !in {"e", "pi", "ans"} ==> r.value == Double(ParseDouble(text))
  {
    match text
    case "e" => NumberNode(Double(MathE))
    case "pi" => NumberNode(Double(MathPi))
    case "ans" => NumberNode(e.variables["ans"])
    case _ => NumberNode(Double(ParseDouble(text)))
  }

  /**
   * `UnaryOperatorNode(String, ASTNode)`: a missing operand is refused first,
   * then a token that names no unary operator.
   */
  function NewUnaryOperatorNode(token: string, operand: Option<Node>): (r: Result<Node, Error>)
    ensures r.Ok? <==> operand.Some? && UnaryOperatorOf(token).Some?
    ensures operand.None? ==> r == Err(NullOperand)
    ensures operand.Some? && UnaryOperatorOf(token).None? ==> r == Err(UnsupportedUnaryOperator(token))
    ensures r.Ok? ==> r.value.UnaryOperatorNode? && UnarySymbol(r.value.uop) == token && r.value.operand == operand.value
  {
    if operand.None? then Err(NullOperand)
    else match UnaryOperatorOf(token)
      case None => Err(UnsupportedUnaryOperator(token))
      case Some(op) => Ok(UnaryOperatorNode(op, operand.value))
  }

  /**
   * `BinaryOperatorNode(String, ASTNode, ASTNode)`: a missing child is refused
   * first, then a token that names no binary operator.
   */
  function NewBinaryOperatorNode(token: string, left: Option<Node>, right: Option<Node>): (r: Result<Node, Error>)
    ensures r.Ok? <==> left.Some? && right.Some? && BinaryOperatorOf(token).Some?
    ensures left.None? || right.None? ==> r == Err(NullOperand)
    ensures left.Some? && right.Some? && BinaryOperatorOf(token).None? ==> r == Err(UnsupportedBinaryOperator(token))
    ensures r.Ok? ==>
      r.value.BinaryOperatorNode? && BinarySymbol(r.value.bop) == token && r.value.left == left.value && r.value.right == right.value
  {
    if left.None? || right.None? then Err(NullOperand)
    else match BinaryOperatorOf(token)
      case None => Err(UnsupportedBinaryOperator(token))
      case Some(op) => Ok(BinaryOperatorNode(op, left.value, right.value))
  }

  /** The node contains a factorial. */
  predicate HasFactorial(n: Node)
  {
    match n
    case UnaryOperatorNode(op, a) => op == FactorialOf || HasFactorial(a)
    case BinaryOperatorNode(_, l, r) => HasFactorial(l) || HasFactorial(r)
    case _ => false
  }

  /** The node contains a trigonometric function. */
  predicate HasTrigonometry(n: Node)
  {
    match n
    case UnaryOperatorNode(op, a) => IsTrigonometric(op) || HasTrigonometry(a)
    case BinaryOperatorNode(_, l, r) => HasTrigonometry(l) || HasTrigonometry(r)
    case _ => false
  }

  /**
   * `evaluate()`: a leaf gives the value it holds, a command node 0, an operator
   * node its operator applied to the values of its children, the left child
   * first. The only failure is a factorial of a negative number.
   */
  function Evaluate(n: Node, mode: AngleMode, nar: Narrowing): (r: Result<Value, Error>)
    ensures r.Err? ==> r.error == NegativeFactorial && HasFactorial(n)
    ensures (n.NumberNode? || n.VariableNode?) ==> r == Ok(n.value)
    ensures n.CommandNode? ==> r == Ok(Integer(0))
  {
    match n
    case NumberNode(v) => Ok(v)
    case VariableNode(v) => Ok(v)
    case CommandNode => Ok(Integer(0))
    case UnaryOperatorNode(op, a) =>
      var x := Evaluate(a, mode, nar);
      if x.Err? then x else ApplyUnary(op, x.value, mode, nar)
    case BinaryOperatorNode(op, l, r) =>
      var x := Evaluate(l, mode, nar);
      if x.Err? then x
      else
        var y := Evaluate(r, mode, nar);
        if y.Err? then y else Ok(ApplyBinary(op, x.value, y.value, nar))
  }

  /** Only a trigonometric function reads the angle mode. */
  lemma {:induction false} EvaluateIgnoresModeWithoutTrigonometry(n: Node, m1: AngleMode, m2: AngleMode, nar: Narrowing)
    requires !HasTrigonometry(n)
    ensures Evaluate(n, m1, nar) == Evaluate(n, m2, nar)
  {
    match n
    case UnaryOperatorNode(op, a) =>
      EvaluateIgnoresModeWithoutTrigonometry(a, m1, m2, nar);
      if Evaluate(a, m1, nar).Ok? {
        ApplyUnaryReadsModeOnlyForTrig(op, Evaluate(a, m1, nar).value, m1, m2, nar);
      }
    case BinaryOperatorNode(_, l, r) =>
      EvaluateIgnoresModeWithoutTrigonometry(l, m1, m2, nar);
      EvaluateIgnoresModeWithoutTrigonometry(r, m1, m2, nar);
    case _ =>
  }

  /** The value of a factorial node is the 64-bit factorial of the `long` value of its operand. */
  lemma FactorialNodeValue(a: Node, mode: AngleMode, nar: Narrowing)
    requires Evaluate(a, mode, nar).Ok? && LongValue(Evaluate(a, mode, nar).value, nar) >= 0
    ensures Evaluate(UnaryOperatorNode(FactorialOf, a), mode, nar)
      == Ok(Long(Wrap64(Factorial(LongValue(Evaluate(a, mode, nar).value, nar)))))
  {
    LongFactorialWraps(LongValue(Evaluate(a, mode, nar).value, nar));
  }

  /** A factorial of an operand whose `long` value is negative fails. */
  lemma NegativeFactorialFails(a: Node, mode: AngleMode, nar: Narrowing)
    requires Evaluate(a, mode, nar).Ok? && LongValue(Evaluate(a, mode, nar).value, nar) < 0
    ensures Evaluate(UnaryOperatorNode(FactorialOf, a), mode, nar) == Err(NegativeFactorial)
  {
  }
}
