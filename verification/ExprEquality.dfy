/** expr_eq and the mutually recursive removal of common operands, expr_eliminate_eq. */
module ExprEquality {
  import opened Expressions
  import opened EliminateConstants

  datatype Pair = Pair(fst: Expr, snd: Expr)

  /** __expr_eliminate_eq: every operand of `a` against every operand of `b`; equal ones are
      replaced by the unit of `op` on both sides. Two equal constants y or n are left alone. */
  function EliminateOperands(op: Op, a: Expr, b: Expr): (r: Pair)
    ensures Size(r.fst) <= Size(a) && Size(r.snd) <= Size(b)
    ensures IsOp(op, a) ==> IsOp(op, r.fst)
    ensures IsOp(op, b) ==> IsOp(op, r.snd)
    decreases Size(a) + Size(b), if IsOp(op, a) || IsOp(op, b) then 0 else 4
  {
    if IsOp(op, a) then
      var x := EliminateOperands(op, a.lhs, b);
      var y := EliminateOperands(op, a.rhs, x.snd);
      Pair(Bin(op, x.fst, y.fst), y.snd)
    else if IsOp(op, b) then
      var x := EliminateOperands(op, a, b.lhs);
      var y := EliminateOperands(op, x.fst, b.rhs);
      Pair(y.fst, Bin(op, x.snd, y.snd))
    else if a.Symbol? && b.Symbol? && a.sym == b.sym && IsYN(a) then Pair(a, b)
    else if !ExprEq(a, b) then Pair(a, b)
    else Pair(UnitExpr(op), UnitExpr(op))
  }

  /** The two passes of expr_eliminate_eq before the constants are eliminated. */
  function EliminateCommon(a: Expr, b: Expr): (r: Pair)
    ensures Size(r.fst) <= Size(a) && Size(r.snd) <= Size(b)
    decreases Size(a) + Size(b), 1
  {
    var x := if a.Bin? then EliminateOperands(a.op, a, b) else Pair(a, b);
    var differ := if x.fst.Bin? && x.snd.Bin? then x.fst.op != x.snd.op else x.fst.Bin? || x.snd.Bin?;
    if differ && x.snd.Bin? then EliminateOperands(x.snd.op, x.fst, x.snd) else x
  }

  /** expr_eliminate_eq */
  function EliminateEq(a: Expr, b: Expr): Pair
    decreases Size(a) + Size(b), 2
  {
    var x := EliminateCommon(a, b);
    Pair(EliminateYN(x.fst), EliminateYN(x.snd))
  }

  function ExprEq(a: Expr, b: Expr): bool
    decreases Size(a) + Size(b), 3
  {
    match (a, b)
    case (Equal(l1, r1), Equal(l2, r2)) => l1 == l2 && r1 == r2
    case (Unequal(l1, r1), Unequal(l2, r2)) => l1 == l2 && r1 == r2
    case (Symbol(s1), Symbol(s2)) => s1 == s2
    case (Not(x), Not(y)) => ExprEq(x, y)
    case (Bin(op1, _, _), Bin(op2, _, _)) =>
      op1 == op2 &&
      var r := EliminateEq(a, b);
      r.fst.Symbol? && r.snd.Symbol? && r.fst.sym == r.snd.sym
    case _ => false
  }

  lemma LeftOperands(op: Op, x: Expr, y: Expr)
    requires IsOp(op, x)
    ensures var p := EliminateOperands(op, x.lhs, y); var q := EliminateOperands(op, x.rhs, p.snd);
      EliminateOperands(op, x, y) == Pair(Bin(op, p.fst, q.fst), q.snd)
    ensures Size(x.lhs) + Size(y) < Size(x) + Size(y)
    ensures Size(x.rhs) + Size(EliminateOperands(op, x.lhs, y).snd) < Size(x) + Size(y)
  {
  }

  lemma RightOperands(op: Op, x: Expr, y: Expr)
    requires !IsOp(op, x) && IsOp(op, y)
    ensures var p := EliminateOperands(op, x, y.lhs); var q := EliminateOperands(op, p.fst, y.rhs);
      EliminateOperands(op, x, y) == Pair(q.fst, Bin(op, p.snd, q.snd))
    ensures Size(x) + Size(y.lhs) < Size(x) + Size(y)
    ensures Size(EliminateOperands(op, x, y.lhs).fst) + Size(y.rhs) < Size(x) + Size(y)
  {
  }

  // ---------- soundness ----------

  predicate ConstantsFixed(env: Env) {
    env(SymYes).tri == YES && env(SymNo).tri == NO
  }

  /** In every environment both sides split into one common part and what is left of each. */
  ghost predicate Factors(op: Op, a: Expr, b: Expr, r: Pair, c: Expr) {
    forall env: Env | ConstantsFixed(env) ::
      && Eval(a, env) == Join(op, Eval(c, env), Eval(r.fst, env))
      && Eval(b, env) == Join(op, Eval(c, env), Eval(r.snd, env))
  }

  lemma FactorsSwap(op: Op, a: Expr, b: Expr, r: Pair, c: Expr)
    requires Factors(op, a, b, r, c)
    ensures Factors(op, b, a, Pair(r.snd, r.fst), c)
  {
  }

  lemma JoinExchange(op: Op, a: Tri, b: Tri, c: Tri, d: Tri)
    ensures Join(op, Join(op, a, b), Join(op, c, d)) == Join(op, Join(op, a, c), Join(op, b, d))
    ensures Join(op, a, Join(op, b, c)) == Join(op, Join(op, a, b), c)
  {
  }

  /** Removing operands from the two halves of one side, one after the other. */
  lemma FactorsCompose(op: Op, l: Expr, r: Expr, b: Expr, x: Pair, y: Pair, c1: Expr, c2: Expr)
    requires Factors(op, l, b, x, c1)
    requires Factors(op, r, x.snd, y, c2)
    ensures Factors(op, Bin(op, l, r), b, Pair(Bin(op, x.fst, y.fst), y.snd), Bin(op, c1, c2))
  {
    forall env: Env | ConstantsFixed(env)
      ensures Eval(Bin(op, l, r), env)
           == Join(op, Eval(Bin(op, c1, c2), env), Eval(Bin(op, x.fst, y.fst), env))
      ensures Eval(b, env) == Join(op, Eval(Bin(op, c1, c2), env), Eval(y.snd, env))
    {
      hide Join;
      assert Eval(l, env) == Join(op, Eval(c1, env), Eval(x.fst, env));
      assert Eval(r, env) == Join(op, Eval(c2, env), Eval(y.fst, env));
      JoinExchange(op, Eval(c1, env), Eval(x.fst, env), Eval(c2, env), Eval(y.fst, env));
      JoinExchange(op, Eval(c1, env), Eval(c2, env), Eval(y.snd, env), NO);
    }
  }

  /** Nothing removed: the common part is the unit. */
  lemma NothingFactors(op: Op, a: Expr, b: Expr)
    ensures Factors(op, a, b, Pair(a, b), UnitExpr(op))
  {
  }

  /** Everything removed: the common part is either side. */
  lemma EqualFactors(op: Op, a: Expr, b: Expr)
    requires forall env: Env | ConstantsFixed(env) :: Eval(a, env) == Eval(b, env)
    ensures Factors(op, a, b, Pair(UnitExpr(op), UnitExpr(op)), a)
  {
  }

  /** expr_eliminate_eq factors both sides: the removed operands, joined, are the common part. */
  lemma {:induction false} EliminateOperandsFactors(op: Op, a: Expr, b: Expr) returns (c: Expr)
    ensures Factors(op, a, b, EliminateOperands(op, a, b), c)
    decreases Size(a) + Size(b), if IsOp(op, a) || IsOp(op, b) then 0 else 4
  {
    hide Factors;
    if IsOp(op, a) {
      LeftOperands(op, a, b);
      hide EliminateOperands, Size;
      var x := EliminateOperands(op, a.lhs, b);
      var c1 := EliminateOperandsFactors(op, a.lhs, b);
      var c2 := EliminateOperandsFactors(op, a.rhs, x.snd);
      c := Bin(op, c1, c2);
      FactorsCompose(op, a.lhs, a.rhs, b, x, EliminateOperands(op, a.rhs, x.snd), c1, c2);
    } else if IsOp(op, b) {
      RightOperands(op, a, b);
      hide EliminateOperands, Size;
      var x := EliminateOperands(op, a, b.lhs);
      var c1 := EliminateOperandsFactors(op, a, b.lhs);
      var c2 := EliminateOperandsFactors(op, x.fst, b.rhs);
      c := Bin(op, c1, c2);
      var y := EliminateOperands(op, x.fst, b.rhs);
      FactorsSwap(op, a, b.lhs, x, c1);
      FactorsSwap(op, x.fst, b.rhs, y, c2);
      FactorsCompose(op, b.lhs, b.rhs, a, Pair(x.snd, x.fst), Pair(y.snd, y.fst), c1, c2);
      FactorsSwap(op, b, a, Pair(Bin(op, x.snd, y.snd), y.fst), c);
    } else if EliminateOperands(op, a, b) == Pair(a, b) {
      c := UnitExpr(op);
      NothingFactors(op, a, b);
    } else {
      ExprEqSound(a, b);
      EqualFactors(op, a, b);
      c := a;
    }
  }

  /** expr_eq answers "equal" only for expressions with the same value in every tristate
      environment, well typed or not. */
  lemma {:induction false} ExprEqSound(a: Expr, b: Expr)
    requires ExprEq(a, b)
    ensures forall env: Env | ConstantsFixed(env) :: Eval(a, env) == Eval(b, env)
    decreases Size(a) + Size(b), 3
  {
    match (a, b)
    case (Not(x), Not(y)) => ExprEqSound(x, y);
    case (Bin(op, _, _), Bin(_, _, _)) =>
      var c := EliminateOperandsFactors(op, a, b);
      var r := EliminateOperands(op, a, b);
      assert EliminateCommon(a, b) == r;
      forall env: Env | ConstantsFixed(env)
        ensures Eval(a, env) == Eval(b, env)
      {
        EliminateYNKeepsValue(r.fst, env);
        EliminateYNKeepsValue(r.snd, env);
      }
    case _ =>
  }

  /** When nothing but y is left of the second side, the first side implies the second one: the
      two passes may use different operators, and each keeps the order. */
  lemma EliminateEqToYesImplies(a: Expr, b: Expr, env: Env)
    requires ConstantsFixed(env)
    requires EliminateEq(a, b).snd == Symbol(SymYes)
    ensures Eval(a, env) <= Eval(b, env)
  {
    var x := if a.Bin? then EliminateOperands(a.op, a, b) else Pair(a, b);
    if a.Bin? {
      var c := EliminateOperandsFactors(a.op, a, b);
    }
    var y := EliminateCommon(a, b);
    if y != x {
      var c := EliminateOperandsFactors(x.snd.op, x.fst, x.snd);
    }
    EliminateYNKeepsValue(y.snd, env);
  }
}
