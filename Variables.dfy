/**
 * The variable table of `VariableNode`: the assigning constructor binds a name,
 * the looking-up constructor reads one and fails on an unbound name.
 */
module Variables {
  import opened Wrappers
  import opened Values
  import opened Session
  import opened Errors

  /** `variables.put(name, value)`: the name now holds `v`; every other binding and both modes are kept. */
  function Bind(e: Env, name: string, v: Value): (r: Env)
    ensures name in r.variables && r.variables[name] == v
    ensures r.variables.Keys == e.variables.Keys + {name}
    ensures forall n :: n in e.variables && n != name ==> r.variables[n] == e.variables[n]
    ensures r.angleMode == e.angleMode && r.decimalMode == e.decimalMode
  {
    e.(variables := e.variables[name := v])
  }

  /** The looking-up constructor: the bound value, or "The variable <name> is undefined." */
  function Lookup(e: Env, name: string): (r: Result<Value, Error>)
    ensures r.Ok? <==> name in e.variables
    ensures r.Ok? ==> r.value == e.variables[name]
    ensures r.Err? ==> r.error == UndefinedVariable(name)
  {
    if name in e.variables then Ok(e.variables[name]) else Err(UndefinedVariable(name))
  }

  /** A binding can be read back at once, and it hides nothing else. */
  lemma LookupAfterBind(e: Env, name: string, v: Value, other: string)
    ensures Lookup(Bind(e, name, v), name) == Ok(v)
    ensures other != name ==> Lookup(Bind(e, name, v), other) == Lookup(e, other)
  {
  }

  /** Assignment overwrites: of two assignments to one name the later wins. */
  lemma LaterBindWins(e: Env, name: string, v: Value, w: Value)
    ensures Bind(Bind(e, name, v), name, w) == Bind(e, name, w)
  {
    assert Bind(Bind(e, name, v), name, w).variables == Bind(e, name, w).variables;
  }

  /** Assignments to different names can be made in either order. */
  lemma BindsCommute(e: Env, a: string, v: Value, b: string, w: Value)
    requires a != b
    ensures Bind(Bind(e, a, v), b, w) == Bind(Bind(e, b, w), a, v)
  {
    assert Bind(Bind(e, a, v), b, w).variables == Bind(Bind(e, b, w), a, v).variables;
  }

  /** Rebinding a name to the value it already holds changes nothing. */
  lemma BindCurrentValue(e: Env, name: string)
    requires name in e.variables
    ensures Bind(e, name, e.variables[name]) == e
  {
    assert Bind(e, name, e.variables[name]).variables == e.variables;
  }

  /** No assignment unbinds `ans`, so it stays bound for the whole session. */
  lemma BindKeepsAns(e: Env, name: string, v: Value)
    requires Good(e)
    ensures Good(Bind(e, name, v)) && Grows(e, Bind(e, name, v))
  {
  }

  lemma InitialTable(name: string)
    ensures Good(InitialEnv())
    ensures Lookup(InitialEnv(), name) == if name == "ans" then Ok(Integer(0)) else Err(UndefinedVariable(name))
  {
  }
}
