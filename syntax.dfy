/** Propositional formulas as immutable trees.

    A node is a variable, one of the constants T and F, a negation `~`, or a
    binary application of one of the seven binary operators of the language:
    `&`, `|`, `->`, `+` (xor), `<->`, `-&` (nand) and `-|` (nor). The operator
    set is closed, so every case analysis over a formula is exhaustive. */
module Syntax {

  datatype BinOp = And | Or | Implies | Xor | Iff | Nand | Nor

  datatype Formula =
    | Var(name: string)
    | Const(value: bool)
    | Not(first: Formula)
    | Bin(op: BinOp, first: Formula, second: Formula)

  /** The tag of a non-variable node: a constant or an operator. */
  datatype Symbol = TrueSym | FalseSym | NotSym | BinSym(op: BinOp)

  /** The variable names occurring in `f`. */
  function Vars(f: Formula): set<string> {
    match f
    case Var(x) => {x}
    case Const(_) => {}
    case Not(a) => Vars(a)
    case Bin(_, a, b) => Vars(a) + Vars(b)
  }

  /** The constants and operators occurring anywhere in `f`. */
  function Symbols(f: Formula): set<Symbol> {
    match f
    case Var(_) => {}
    case Const(value) => if value then {TrueSym} else {FalseSym}
    case Not(a) => {NotSym} + Symbols(a)
    case Bin(op, a, b) => {BinSym(op)} + Symbols(a) + Symbols(b)
  }

  predicate HasConstant(f: Formula) {
    TrueSym in Symbols(f) || FalseSym in Symbols(f)
  }
}
