/**
 * The state a calculator session keeps between lines: the variable table of
 * `VariableNode`, the angle mode of `UnaryOperatorNode` and the decimal mode of
 * `NumberNode`. In the program these are static fields; here they are one
 * record that is passed along and returned.
 */
module Session {
  import opened Values

  /** `ANGLE_MODE`: what the argument of a trigonometric function is measured in. */
  datatype AngleMode = Rad | Deg | Grad

  /** `DECIMAL_MODE`: how results are formatted for display. */
  datatype DecimalMode = Reg | Sci | Eng

  /** The factor an angle in this mode is multiplied by to get radians: 1, pi/180 and pi/200. */
  function Conversion(m: AngleMode): (c: DoubleTerm)
    ensures m == Rad <==> c == FromInteger(1)
  {
    match m
    case Rad => FromInteger(1)
    case Deg => Quotient(MathPi, FromInteger(180))
    case Grad => Quotient(MathPi, FromInteger(200))
  }

  datatype Env = Env(variables: map<string, Value>, angleMode: AngleMode, decimalMode: DecimalMode)

  /** The state at start-up: `ans` bound to the `Integer` 0, radians, regular notation. */
  function InitialEnv(): (e: Env)
    ensures e.variables.Keys == {"ans"} && e.variables["ans"] == Integer(0)
    ensures e.angleMode == Rad && e.decimalMode == Reg
  {
    Env(map["ans" := Integer(0)], Rad, Reg)
  }

  /** `ans` is always bound: it starts bound and no operation removes a key. */
  predicate Good(e: Env)
  {
    "ans" in e.variables
  }

  /** `e2` keeps every variable of `e1` and both modes. */
  predicate Grows(e1: Env, e2: Env)
  {
    e1.variables.Keys <= e2.variables.Keys && e2.angleMode == e1.angleMode && e2.decimalMode == e1.decimalMode
  }
}
