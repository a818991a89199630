/** expr_eliminate_yn: drop the constants y and n below && and ||. */
module EliminateConstants {
  import opened Expressions

  /** The test each branch makes on an operand: the constant that absorbs (n under &&, y under
      ||) or the one that disappears. */
  function Combine(op: Op, l: Expr, r: Expr): Expr {
    if l == UnitExpr(Other(op)) then UnitExpr(Other(op))
    else if l == UnitExpr(op) then r
    else if r == UnitExpr(Other(op)) then UnitExpr(Other(op))
    else if r == UnitExpr(op) then l
    else Bin(op, l, r)
  }

  function EliminateYN(e: Expr): Expr {
    match e
    case Bin(op, l, r) => Combine(op, EliminateYN(l), EliminateYN(r))
    case _ => e
  }

  /** The value is kept whatever the symbols hold, as long as y and n hold y and n. */
  lemma {:induction false} EliminateYNKeepsValue(e: Expr, env: Env)
    requires env(SymYes).tri == YES && env(SymNo).tri == NO
    ensures Eval(EliminateYN(e), env) == Eval(e, env)
  {
    match e
    case Bin(op, l, r) =>
      EliminateYNKeepsValue(l, env);
      EliminateYNKeepsValue(r, env);
    case _ =>
  }

  predicate IsYN(e: Expr) {
    e.Symbol? && (e.sym.SymYes? || e.sym.SymNo?)
  }

  /** A constant y or n is an operand of some && or || reached through && and || alone. */
  predicate HasYN(e: Expr) {
    e.Bin? && (IsYN(e.lhs) || IsYN(e.rhs) || HasYN(e.lhs) || HasYN(e.rhs))
  }

  /** One pass removes every constant it can reach, and each removal drops a leaf: this is what
      makes a counted round of the simplification loop a step forward. */
  lemma {:induction false} EliminateYNShrinks(e: Expr)
    ensures Leaves(EliminateYN(e)) <= Leaves(e)
    ensures HasYN(e) ==> Leaves(EliminateYN(e)) < Leaves(e)
    ensures !HasYN(EliminateYN(e))
    ensures !HasYN(e) ==> EliminateYN(e) == e
  {
    match e
    case Bin(op, l, r) =>
      EliminateYNShrinks(l);
      EliminateYNShrinks(r);
    case _ =>
  }

}
