/**
 * `CommandNode`: the command keywords and the mode each one sets. `cls`, `clear`
 * and `exit` change no mode.
 */
module Commands {
  import opened Wrappers
  import opened Session

  /** The angle mode a command selects, if it is one of `rad`, `deg`, `grad`. */
  function AngleCommand(c: string): (r: Option<AngleMode>)
    ensures r.Some? <==> c in {"rad", "deg", "grad"}
  {
    if c == "rad" then Some(Rad) else if c == "deg" then Some(Deg) else if c == "grad" then Some(Grad) else None
  }

  /** The decimal mode a command selects, if it is one of `reg`, `sci`, `eng`. */
  function DecimalCommand(c: string): (r: Option<DecimalMode>)
    ensures r.Some? <==> c in {"reg", "sci", "eng"}
  {
    if c == "reg" then Some(Reg) else if c == "sci" then Some(Sci) else if c == "eng" then Some(Eng) else None
  }

  /** The constructor's `switch`: a mode command sets its own mode; anything else leaves the state as it is. */
  function RunCommand(e: Env, c: string): (r: Env)
    ensures r.variables == e.variables
    ensures r.angleMode == if AngleCommand(c).Some? then AngleCommand(c).value else e.angleMode
    ensures r.decimalMode == if DecimalCommand(c).Some? then DecimalCommand(c).value else e.decimalMode
  {
    match AngleCommand(c)
    case Some(m) => e.(angleMode := m)
    case None =>
      match DecimalCommand(c)
      case Some(m) => e.(decimalMode := m)
      case None => e
  }

  /** Each keyword sets the mode of its own name. */
  lemma ModeCommands(e: Env)
    ensures RunCommand(e, "rad").angleMode == Rad && RunCommand(e, "deg").angleMode == Deg && RunCommand(e, "grad").angleMode == Grad
    ensures RunCommand(e, "reg").decimalMode == Reg && RunCommand(e, "sci").decimalMode == Sci && RunCommand(e, "eng").decimalMode == Eng
    ensures RunCommand(e, "cls") == e && RunCommand(e, "clear") == e && RunCommand(e, "exit") == e
  {
  }

  /** Issuing a command twice is the same as issuing it once. */
  lemma CommandIsIdempotent(e: Env, c: string)
    ensures RunCommand(RunCommand(e, c), c) == RunCommand(e, c)
  {
  }

  /** Of two commands for the same mode the later wins. */
  lemma LaterCommandWins(e: Env, c: string, d: string)
    requires (AngleCommand(c).Some? && AngleCommand(d).Some?) || (DecimalCommand(c).Some? && DecimalCommand(d).Some?)
    ensures RunCommand(RunCommand(e, c), d) == RunCommand(e, d)
  {
  }

  /** An angle command and a decimal command can be issued in either order. */
  lemma ModeCommandsCommute(e: Env, c: string, d: string)
    requires AngleCommand(c).Some? && DecimalCommand(d).Some?
    ensures RunCommand(RunCommand(e, c), d) == RunCommand(RunCommand(e, d), c)
  {
  }
}
