/** Truth-table semantics of propositional formulas. */
module Semantics {
  import opened Syntax

  /** A truth assignment: a value for each variable name it covers. */
  type Model = map<string, bool>

  /** The truth table of each binary operator. */
  function Apply(op: BinOp, a: bool, b: bool): bool {
    match op
    case And => a && b
    case Or => a || b
    case Implies => !a || b
    case Xor => a != b
    case Iff => a == b
    case Nand => !(a && b)
    case Nor => !(a || b)
  }

  /** The value of `f` in `m`; `m` must give a value to every variable of `f`. */
  function Eval(f: Formula, m: Model): bool
    requires Vars(f) <= m.Keys
  {
    match f
    case Var(x) => m[x]
    case Const(value) => value
    case Not(a) => !Eval(a, m)
    case Bin(op, a, b) => Apply(op, Eval(a, m), Eval(b, m))
  }
}
