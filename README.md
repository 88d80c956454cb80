# Propositional basis conversion, modelled in Dafny

This project models the operator-basis converter of a propositional-logic
library (`propositions/operators.py`). Each of the five converters takes a
formula tree and builds a new tree with the same truth table that uses only a
restricted set of operators:

| converter | source function | target basis |
|---|---|---|
| `ToNotAndOr` | `to_not_and_or` | `~`, `&` and disjunction |
| `ToNotAnd` | `to_not_and` | `~`, `&` |
| `ToNand` | `to_nand` (second pass `NandPass`, the inner `convert`) | `-&` |
| `ToImpliesNot` | `to_implies_not` (builders `Imp`, `Neg`) | `->`, `~` |
| `ToImpliesFalse` | `to_implies_false` (second pass `EliminateNot`, the inner `eliminate`) | `->`, `F` |

Files:

- `syntax.dfy` (module `Syntax`): `Formula` is a datatype with a variable, a
  constant (`T`/`F`), negation and a binary node over the closed operator
  type `BinOp` (`&`, `|`, `->`, `+`, `<->`, `-&`, `-|`). `Vars` collects the
  variable names. `Symbols` collects every constant and operator tag in a
  formula. "Only operators of basis B and no constants" is written
  `Symbols(f) <= B`.
- `semantics.dfy` (module `Semantics`): `Eval` evaluates a formula under a
  model, a `map<string, bool>` that must give a value to every variable of the
  formula. It uses the standard truth tables.
- `operators.dfy` (module `Operators`): the converters, the two second passes,
  and the lemmas about them.

The properties proved:

- Basis closure. Every converter's `ensures` states that its result lies in
  its target basis.
- Variables. Every converter's `ensures` states that its result has exactly
  the input's variables, plus the helper variable `p` when the input contains
  a constant (`ConvertedVars`).
- Semantic equivalence. For every formula and every model that covers these
  variables, the result evaluates to the same value as the input.
- The two second passes (`NandPass`, `EliminateNot`) require their input to
  be in the intermediate basis. The chained converters meet that requirement
  through the first pass's closure guarantee.
- `to_not_and_or`, `to_not_and` and `to_implies_not` return any constant-free
  formula already in their basis unchanged. Each of the three is therefore
  idempotent.

Constants are encoded with the fixed variable `p`, as in the source, even when
the input already uses `p`. `ConstantEncodings` and the equivalence lemmas
show that this reuse is harmless. The `ValueError('Unknown operator')` branches
have no counterpart. Every `match` over the closed `BinOp` type is exhaustive,
so that branch cannot be reached.

`to_not_and` handles `<->` by converting a new `+` node built from the
original operands. That node is not a subterm, so the recursion is ranked by
`Weight`, a size measure in which `<->` counts double.

`to_not_and` does not call `to_not_and_or`; it rewrites every operator
directly into `~` and `&` (propositions/operators.py:77-95), and so does
`ToNotAnd`.

`Imp` and `Neg` model the `imp` and `neg` builders of `to_implies_not`
(propositions/operators.py:133-136). They carry no contract of their own:
what they build is covered by the contracts of `ToImpliesNot` and
`ToImpliesNotEquivalent`.

## Model

| member | source | states |
|---|---|---|
| `Operators.ToNotAndOr` | propositions/operators.py:13-54 | result has no constants and no operator other than negation, conjunction and disjunction; its variables are the input's, plus `p` exactly when the input has a constant |
| `Operators.ToNotAndOrEquivalent` | propositions/operators.py:13-54 | `to_not_and_or(f)` has the same truth value as `f` in every model covering the variables of `f` (and `p` when `f` has a constant) |
| `Operators.ToNotAndOrIdentity` | propositions/operators.py:25-39 | a constant-free formula over negation, conjunction and disjunction is returned structurally unchanged |
| `Operators.ToNotAndOrIdempotent` | propositions/operators.py:25-39 | converting a second time changes nothing |
| `Operators.ToNotAnd` | propositions/operators.py:56-96 | result has no constants and only `~` and `&`, including the `<->` arm (negated conversion of the xor) and the nor arm; its variables are the input's, plus `p` exactly when the input has a constant |
| `Operators.ToNotAndEquivalent` | propositions/operators.py:56-96 | `to_not_and(f)` has the same truth value as `f` in every covering model |
| `Operators.ToNotAndIdentity` | propositions/operators.py:67-80 | a constant-free formula over {~, &} is returned structurally unchanged |
| `Operators.ToNotAndIdempotent` | propositions/operators.py:67-80 | converting a second time changes nothing |
| `Operators.NandPass` | propositions/operators.py:110-119 | on input over {~, &}, the result's only operator is `-&` and its variables are the input's |
| `Operators.NandPassEquivalent` | propositions/operators.py:110-119 | on input over {~, &}, `~a` as `a' -& a'` and `a & b` as `n -& n` with `n = a' -& b'` preserve the truth value |
| `Operators.ToNand` | propositions/operators.py:98-120 | the composition of `to_not_and` and the inner pass has only `-&` (no constants, no `~`, no `&`) and the input's variables plus `p` when a constant was encoded |
| `Operators.ToNandEquivalent` | propositions/operators.py:109-120 | `to_nand(f)` has the same truth value as `f` in every covering model |
| `Operators.ToImpliesNot` | propositions/operators.py:122-163 | result has no constants and only `->` and `~`; its variables are the input's, plus `p` exactly when the input has a constant |
| `Operators.ToImpliesNotEquivalent` | propositions/operators.py:122-163 | `to_implies_not(f)` has the same truth value as `f` in every covering model, including the encodings of disjunction, `&`, `+`, `<->`, `-&` and nor |
| `Operators.ToImpliesNotIdentity` | propositions/operators.py:137-150 | a constant-free formula over {->, ~} is returned structurally unchanged |
| `Operators.ToImpliesNotIdempotent` | propositions/operators.py:137-150 | converting a second time changes nothing |
| `Operators.EliminateNot` | propositions/operators.py:177-182 | on input over {->, ~}, the result has only `->` and the constant `F`, and the input's variables |
| `Operators.EliminateNotEquivalent` | propositions/operators.py:177-182 | on input over {->, ~}, rewriting `~a` as `a' -> F` and rebuilding `->` preserves the truth value |
| `Operators.ToImpliesFalse` | propositions/operators.py:165-183 | the composition of `to_implies_not` and the inner pass has only `->` and `F`, and the input's variables plus `p` when a constant was encoded |
| `Operators.ToImpliesFalseEquivalent` | propositions/operators.py:176-183 | `to_implies_false(f)` has the same truth value as `f` in every covering model |
| `Operators.ConstantEncodings` | propositions/operators.py:27-31 | `p` or `~p` (for T), `p&~p` (for F), `~(p&~p)` (lines 69-74) and `p->p`, `~(p->p)` (lines 139-144) evaluate to their constant whatever the value of `p` |
| `Operators.VariablePassesThrough` | propositions/operators.py:25-26 | every converter returns a variable unchanged (also lines 67-68, 111-112, 137-138, 178-179) |

## Left out

- Parsing, printing and construction of formulas, and the `is_variable`, `is_constant` and `is_unary` helpers. They live in `propositions/syntax.py`, which is not part of this model. The datatype `Formula` stands in for them. Variable names are any strings. The source's rules for well-formed names are not modelled.
- The truth-table evaluator `propositions/semantics.py` is not part of this model. `Semantics.Eval` is written from the standard truth tables of the nine operators and two constants.
- The `ValueError('Unknown operator')` branches. The operator type is closed and every `match` is exhaustive, so they are unreachable and have no counterpart.
- `NandPass` and `EliminateNot` would fail on a constant, because the source reads `f.first` of a leaf. The model requires their input to be in the intermediate basis. The chained converters always meet that requirement.
- Object sharing. `to_nand` reuses one Python object for both children of a node. Under value semantics that sharing has no meaning.
- Recursion depth. The source can exhaust Python's call stack on very deep formulas. Dafny integers and recursion are unbounded.
