/** Syntactic conversion of propositional formulas to equivalent formulas that
    use only a restricted set of operators (a basis).

    Constants are encoded with the fixed helper variable `p`, which may also
    occur in the input: each encoding is a tautology or a contradiction, so
    the clash is harmless (see the constant lemmas below). */
module Operators {
  import opened Syntax
  import opened Semantics

  /** The helper variable that encodes the constants T and F. */
  const HelperVar: string := "p"

  const NotAndOrBasis: set<Symbol> := {NotSym, BinSym(And), BinSym(Or)}
  const NotAndBasis: set<Symbol> := {NotSym, BinSym(And)}
  const NandBasis: set<Symbol> := {BinSym(Nand)}
  const ImpliesNotBasis: set<Symbol> := {BinSym(Implies), NotSym}
  const ImpliesFalseBasis: set<Symbol> := {BinSym(Implies), FalseSym}

  /** The variables of a converted formula: those of the input, plus the
      helper variable when a constant had to be encoded. */
  function ConvertedVars(f: Formula): set<string> {
    if HasConstant(f) then Vars(f) + {HelperVar} else Vars(f)
  }

  // ---------------------------------------------------------------------
  // {~, &, |}
  // ---------------------------------------------------------------------

  /** An equivalent formula with no constants and no operator but `~`, `&`
      and `|`, introducing no variable but the helper. */
  function ToNotAndOr(f: Formula): (r: Formula)
    ensures Symbols(r) <= NotAndOrBasis
    ensures Vars(r) == ConvertedVars(f)
  {
    match f
    case Var(_) => f
    case Const(value) =>
      var p := Var(HelperVar);
      if value then Bin(Or, p, Not(p)) else Bin(And, p, Not(p))
    case Not(a) => Not(ToNotAndOr(a))
    case Bin(op, a, b) =>
      var first := ToNotAndOr(a);
      var second := ToNotAndOr(b);
      match op
      case And => Bin(And, first, second)
      case Or => Bin(Or, first, second)
      case Implies => Bin(Or, Not(first), second)
      case Xor =>
        var left := Bin(And, first, Not(second));
        var right := Bin(And, Not(first), second);
        assert Symbols(left) <= NotAndOrBasis && Vars(left) == Vars(first) + Vars(second);
        assert Symbols(right) <= NotAndOrBasis && Vars(right) == Vars(first) + Vars(second);
        Bin(Or, left, right)
      case Iff =>
        var right := Bin(And, Not(first), Not(second));
        assert Symbols(right) <= NotAndOrBasis && Vars(right) == Vars(first) + Vars(second);
        Bin(Or, Bin(And, first, second), right)
      case Nand => Not(Bin(And, first, second))
      case Nor => Not(Bin(Or, first, second))
  }

  /** The conversion preserves the truth table: `m` must cover the input's
      variables, and the helper variable when the input has a constant. */
  lemma {:induction false} ToNotAndOrEquivalent(f: Formula, m: Model)
    requires ConvertedVars(f) <= m.Keys
    ensures Eval(ToNotAndOr(f), m) == Eval(f, m)
  {
    match f
    case Var(_) =>
    case Const(_) =>
    case Not(a) =>
      ToNotAndOrEquivalent(a, m);
    case Bin(_, a, b) =>
      ToNotAndOrEquivalent(a, m);
      ToNotAndOrEquivalent(b, m);
      assert Eval(Not(ToNotAndOr(a)), m) == !Eval(a, m);
      assert Eval(Not(ToNotAndOr(b)), m) == !Eval(b, m);
  }

  /** A constant-free formula over {~, &, |} is returned as it is. */
  lemma {:induction false} ToNotAndOrIdentity(f: Formula)
    requires Symbols(f) <= NotAndOrBasis
    ensures ToNotAndOr(f) == f
  {
    match f
    case Var(_) =>
    case Const(_) =>
      assert false;
    case Not(a) =>
      ToNotAndOrIdentity(a);
    case Bin(_, a, b) =>
      ToNotAndOrIdentity(a);
      ToNotAndOrIdentity(b);
  }

  lemma ToNotAndOrIdempotent(f: Formula)
    ensures ToNotAndOr(ToNotAndOr(f)) == ToNotAndOr(f)
  {
    ToNotAndOrIdentity(ToNotAndOr(f));
  }

  // ---------------------------------------------------------------------
  // {~, &}
  // ---------------------------------------------------------------------

  /** A size measure in which `<->` outweighs `+`: the `<->` arm of ToNotAnd
      converts the xor of the same operands. */
  function Weight(f: Formula): nat {
    match f
    case Var(_) => 1
    case Const(_) => 1
    case Not(a) => 1 + Weight(a)
    case Bin(op, a, b) => (if op == Iff then 2 else 1) + Weight(a) + Weight(b)
  }

  /** An equivalent formula with no constants and no operator but `~` and
      `&`. `|` is removed by De Morgan's law and `<->` is the negated
      conversion of the xor of the same operands. */
  function ToNotAnd(f: Formula): (r: Formula)
    ensures Symbols(r) <= NotAndBasis
    ensures Vars(r) == ConvertedVars(f)
    decreases Weight(f)
  {
    match f
    case Var(_) => f
    case Const(value) =>
      var p := Var(HelperVar);
      var contradiction := Bin(And, p, Not(p));
      assert Symbols(contradiction) <= NotAndBasis && Vars(contradiction) == {HelperVar};
      if value then Not(contradiction) else contradiction
    case Not(a) => Not(ToNotAnd(a))
    case Bin(op, a, b) =>
      var first := ToNotAnd(a);
      var second := ToNotAnd(b);
      assert Symbols(Not(first)) <= NotAndBasis && Symbols(Not(second)) <= NotAndBasis;
      assert Vars(Not(first)) == Vars(first) && Vars(Not(second)) == Vars(second);
      match op
      case And => Bin(And, first, second)
      case Or => Not(Bin(And, Not(first), Not(second)))
      case Implies => Not(Bin(And, first, Not(second)))
      case Xor =>
        var left := Bin(And, first, Not(second));
        var right := Bin(And, Not(first), second);
        assert Symbols(Not(left)) <= NotAndBasis && Vars(Not(left)) == Vars(first) + Vars(second);
        assert Symbols(Not(right)) <= NotAndBasis && Vars(Not(right)) == Vars(first) + Vars(second);
        Not(Bin(And, Not(left), Not(right)))
      case Iff => Not(ToNotAnd(Bin(Xor, a, b)))
      case Nand => Not(Bin(And, first, second))
      case Nor => Bin(And, Not(first), Not(second))
  }

  lemma {:induction false} ToNotAndEquivalent(f: Formula, m: Model)
    requires ConvertedVars(f) <= m.Keys
    ensures Eval(ToNotAnd(f), m) == Eval(f, m)
    decreases Weight(f)
  {
    match f
    case Var(_) =>
    case Const(_) =>
      var p := Var(HelperVar);
      assert Eval(Bin(And, p, Not(p)), m) == false;
    case Not(a) =>
      ToNotAndEquivalent(a, m);
    case Bin(op, a, b) =>
      ToNotAndEquivalent(a, m);
      ToNotAndEquivalent(b, m);
      var first, second := ToNotAnd(a), ToNotAnd(b);
      assert Vars(first) + Vars(second) <= m.Keys;
      assert Eval(Not(first), m) == !Eval(a, m);
      assert Eval(Not(second), m) == !Eval(b, m);
      if op == Xor {
        var left := Bin(And, first, Not(second));
        var right := Bin(And, Not(first), second);
        assert Vars(left) == Vars(right) == Vars(first) + Vars(second);
        assert Eval(left, m) == (Eval(a, m) && !Eval(b, m));
        assert Eval(right, m) == (!Eval(a, m) && Eval(b, m));
        assert Eval(Not(left), m) == !Eval(left, m);
        assert Eval(Not(right), m) == !Eval(right, m);
      } else if op == Iff {
        ToNotAndEquivalent(Bin(Xor, a, b), m);
      }
  }

  /** A constant-free formula over {~, &} is returned as it is. */
  lemma {:induction false} ToNotAndIdentity(f: Formula)
    requires Symbols(f) <= NotAndBasis
    ensures ToNotAnd(f) == f
  {
    match f
    case Var(_) =>
    case Const(_) =>
      assert false;
    case Not(a) =>
      ToNotAndIdentity(a);
    case Bin(_, a, b) =>
      ToNotAndIdentity(a);
      ToNotAndIdentity(b);
  }

  lemma ToNotAndIdempotent(f: Formula)
    ensures ToNotAnd(ToNotAnd(f)) == ToNotAnd(f)
  {
    ToNotAndIdentity(ToNotAnd(f));
  }

  // ---------------------------------------------------------------------
  // {-&}
  // ---------------------------------------------------------------------

  /** The second pass of ToNand, on a formula already over {~, &}: every
      binary node is a conjunction. */
  function NandPass(f: Formula): (r: Formula)
    requires Symbols(f) <= NotAndBasis
    ensures Symbols(r) <= NandBasis
    ensures Vars(r) == Vars(f)
  {
    match f
    case Var(_) => f
    case Const(_) => assert false; f
    case Not(a) =>
      var inner := NandPass(a);
      Bin(Nand, inner, inner)
    case Bin(_, a, b) =>
      var nand := Bin(Nand, NandPass(a), NandPass(b));
      Bin(Nand, nand, nand)
  }

  lemma {:induction false} NandPassEquivalent(f: Formula, m: Model)
    requires Symbols(f) <= NotAndBasis
    requires Vars(f) <= m.Keys
    ensures Eval(NandPass(f), m) == Eval(f, m)
  {
    match f
    case Var(_) =>
    case Const(_) =>
      assert false;
    case Not(a) =>
      NandPassEquivalent(a, m);
    case Bin(_, a, b) =>
      NandPassEquivalent(a, m);
      NandPassEquivalent(b, m);
  }

  /** An equivalent formula whose only operator is `-&`: first ToNotAnd, then
      NandPass. */
  function ToNand(f: Formula): (r: Formula)
    ensures Symbols(r) <= NandBasis
    ensures Vars(r) == ConvertedVars(f)
  {
    NandPass(ToNotAnd(f))
  }

  /** Both passes preserve the truth table, so their composition does. */
  lemma ToNandEquivalent(f: Formula, m: Model)
    requires ConvertedVars(f) <= m.Keys
    ensures Eval(ToNand(f), m) == Eval(f, m)
  {
    ToNotAndEquivalent(f, m);
    NandPassEquivalent(ToNotAnd(f), m);
  }

  // ---------------------------------------------------------------------
  // {->, ~}
  // ---------------------------------------------------------------------

  /** The builders of the {->, ~} conversion. */
  function Imp(a: Formula, b: Formula): Formula {
    Bin(Implies, a, b)
  }

  function Neg(a: Formula): Formula {
    Not(a)
  }

  /** An equivalent formula with no constants and no operator but `->` and
      `~`. */
  function ToImpliesNot(f: Formula): (r: Formula)
    ensures Symbols(r) <= ImpliesNotBasis
    ensures Vars(r) == ConvertedVars(f)
  {
    match f
    case Var(_) => f
    case Const(value) =>
      var p := Var(HelperVar);
      var t := Imp(p, p);
      if value then t else Neg(t)
    case Not(a) => Neg(ToImpliesNot(a))
    case Bin(op, a, b) =>
      var first := ToImpliesNot(a);
      var second := ToImpliesNot(b);
      assert Symbols(Neg(first)) <= ImpliesNotBasis && Symbols(Neg(second)) <= ImpliesNotBasis;
      assert Vars(Neg(first)) == Vars(first) && Vars(Neg(second)) == Vars(second);
      match op
      case Implies => Imp(first, second)
      case Or => Imp(Neg(first), second)
      case And => Neg(Imp(first, Neg(second)))
      case Xor =>
        assert Symbols(Neg(Imp(second, first))) <= ImpliesNotBasis;
        assert Vars(Neg(Imp(second, first))) == Vars(first) + Vars(second);
        Imp(Imp(first, second), Neg(Imp(second, first)))
      case Iff =>
        var xor := Imp(Imp(first, second), Neg(Imp(second, first)));
        assert Symbols(Neg(Imp(second, first))) <= ImpliesNotBasis;
        assert Vars(Neg(Imp(second, first))) == Vars(first) + Vars(second);
        assert Symbols(xor) <= ImpliesNotBasis && Vars(xor) == Vars(first) + Vars(second);
        Neg(xor)
      case Nand => Imp(first, Neg(second))
      case Nor => Neg(Imp(Neg(first), second))
  }

  lemma {:induction false} ToImpliesNotEquivalent(f: Formula, m: Model)
    requires ConvertedVars(f) <= m.Keys
    ensures Eval(ToImpliesNot(f), m) == Eval(f, m)
  {
    match f
    case Var(_) =>
    case Const(_) =>
    case Not(a) =>
      ToImpliesNotEquivalent(a, m);
    case Bin(_, a, b) =>
      ToImpliesNotEquivalent(a, m);
      ToImpliesNotEquivalent(b, m);
      var first, second := ToImpliesNot(a), ToImpliesNot(b);
      assert Vars(first) + Vars(second) <= m.Keys;
      assert Eval(Neg(first), m) == !Eval(a, m);
      assert Eval(Neg(second), m) == !Eval(b, m);
      var backward := Imp(second, first);
      assert Vars(backward) == Vars(Neg(backward)) == Vars(first) + Vars(second);
      assert Eval(backward, m) == (!Eval(b, m) || Eval(a, m));
      assert Eval(Neg(backward), m) == !Eval(backward, m);
      var xor := Imp(Imp(first, second), Neg(backward));
      assert Vars(xor) == Vars(first) + Vars(second);
      assert Eval(xor, m) == (Eval(a, m) != Eval(b, m));
  }

  /** A constant-free formula over {->, ~} is returned as it is. */
  lemma {:induction false} ToImpliesNotIdentity(f: Formula)
    requires Symbols(f) <= ImpliesNotBasis
    ensures ToImpliesNot(f) == f
  {
    match f
    case Var(_) =>
    case Const(_) =>
      assert false;
    case Not(a) =>
      ToImpliesNotIdentity(a);
    case Bin(_, a, b) =>
      ToImpliesNotIdentity(a);
      ToImpliesNotIdentity(b);
  }

  lemma ToImpliesNotIdempotent(f: Formula)
    ensures ToImpliesNot(ToImpliesNot(f)) == ToImpliesNot(f)
  {
    ToImpliesNotIdentity(ToImpliesNot(f));
  }

  // ---------------------------------------------------------------------
  // {->, F}
  // ---------------------------------------------------------------------

  /** The second pass of ToImpliesFalse, on a formula already over {->, ~}:
      every binary node is an implication. */
  function EliminateNot(f: Formula): (r: Formula)
    requires Symbols(f) <= ImpliesNotBasis
    ensures Symbols(r) <= ImpliesFalseBasis
    ensures Vars(r) == Vars(f)
  {
    match f
    case Var(_) => f
    case Const(_) => assert false; f
    case Not(a) => Bin(Implies, EliminateNot(a), Const(false))
    case Bin(_, a, b) => Bin(Implies, EliminateNot(a), EliminateNot(b))
  }

  lemma {:induction false} EliminateNotEquivalent(f: Formula, m: Model)
    requires Symbols(f) <= ImpliesNotBasis
    requires Vars(f) <= m.Keys
    ensures Eval(EliminateNot(f), m) == Eval(f, m)
  {
    match f
    case Var(_) =>
    case Const(_) =>
      assert false;
    case Not(a) =>
      EliminateNotEquivalent(a, m);
    case Bin(_, a, b) =>
      EliminateNotEquivalent(a, m);
      EliminateNotEquivalent(b, m);
  }

  /** An equivalent formula whose only operator is `->` and whose only
      constant is F: first ToImpliesNot, then EliminateNot. */
  function ToImpliesFalse(f: Formula): (r: Formula)
    ensures Symbols(r) <= ImpliesFalseBasis
    ensures Vars(r) == ConvertedVars(f)
  {
    EliminateNot(ToImpliesNot(f))
  }

  /** Both passes preserve the truth table, so their composition does. */
  lemma ToImpliesFalseEquivalent(f: Formula, m: Model)
    requires ConvertedVars(f) <= m.Keys
    ensures Eval(ToImpliesFalse(f), m) == Eval(f, m)
  {
    ToImpliesNotEquivalent(f, m);
    EliminateNotEquivalent(ToImpliesNot(f), m);
  }

  // ---------------------------------------------------------------------
  // Properties shared by the converters
  // ---------------------------------------------------------------------

  /** Each encoding of a constant has the constant's value whatever value
      the helper variable takes, so reusing `p` when the input already
      contains a variable `p` is harmless. A corollary of the equivalence
      lemmas for an input that is a single constant, stated on its own. */
  lemma ConstantEncodings(value: bool, m: Model)
    requires HelperVar in m
    ensures Eval(ToNotAndOr(Const(value)), m) == value
    ensures Eval(ToNotAnd(Const(value)), m) == value
    ensures Eval(ToImpliesNot(Const(value)), m) == value
  {
    var p := Var(HelperVar);
    assert Eval(Bin(And, p, Not(p)), m) == false;
  }

  /** Every converter returns a variable unchanged. For ToNotAndOr, ToNotAnd
      and ToImpliesNot this is a corollary of the identity lemmas. */
  lemma VariablePassesThrough(x: string)
    ensures ToNotAndOr(Var(x)) == Var(x)
    ensures ToNotAnd(Var(x)) == Var(x)
    ensures ToNand(Var(x)) == Var(x)
    ensures ToImpliesNot(Var(x)) == Var(x)
    ensures ToImpliesFalse(Var(x)) == Var(x)
  {
  }
}
