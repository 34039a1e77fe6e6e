/**
 * The static fields the calculator shares between its classes, gathered into one
 * object: `VariableNode.variables`, `UnaryOperatorNode.angleMode` and
 * `NumberNode.decimalMode`. Its methods are the constructors of `VariableNode`
 * and `CommandNode`, which are the only code that writes these fields.
 */
module Globals {
  import opened Wrappers
  import opened Values
  import opened Session
  import opened Errors
  import Variables
  import Commands

  class Statics {
    var variables: map<string, Value>
    var angleMode: AngleMode
    var decimalMode: DecimalMode

    /** The three fields as one value. */
    function Env(): Env
      reads this
    {
      Session.Env(variables, angleMode, decimalMode)
    }

    /** The static initialisers: `ans` holds 0, radians, regular notation. */
    constructor ()
      ensures Env() == InitialEnv()
    {
      variables := map["ans" := Integer(0)];
      angleMode := Rad;
      decimalMode := Reg;
    }

    /** The assigning `VariableNode` constructor. */
    method Assign(name: string, value: Value)
      modifies this
      ensures Env() == Variables.Bind(old(Env()), name, value)
    {
      variables := variables[name := value];
    }

    /** The looking-up `VariableNode` constructor; it changes nothing. */
    method Lookup(name: string) returns (r: Result<Value, Error>)
      ensures r == Variables.Lookup(Env(), name)
    {
      if name in variables {
        r := Ok(variables[name]);
      } else {
        r := Err(UndefinedVariable(name));
      }
    }

    /** The `CommandNode` constructor. */
    method Command(c: string)
      modifies this
      ensures Env() == Commands.RunCommand(old(Env()), c)
    {
      match c
      case "rad" => angleMode := Rad;
      case "deg" => angleMode := Deg;
      case "grad" => angleMode := Grad;
      case "reg" => decimalMode := Reg;
      case "sci" => decimalMode := Sci;
      case "eng" => decimalMode := Eng;
      case _ =>
    }
  }
}
