/** expr_join_or and expr_join_and: one expression for two operands of the same operator. */
module JoinOperands {
  import opened Expressions
  import opened ExprEquality
  import opened Transformation

  predicate IsComparisonOrSymbol(e: Expr) {
    e.Equal? || e.Unequal? || e.Symbol?
  }

  function FirstSym(e: Expr): Sym
    requires IsComparisonOrSymbol(e)
  {
    match e
    case Symbol(s) => s
    case Equal(l, _) => l
    case Unequal(l, _) => l
    case _ => SymNo
  }

  /** The symbol an operand is about. Only for the first operand may ! stand on a comparison. */
  function Subject(e: Expr, first: bool): Option<Sym> {
    if IsComparisonOrSymbol(e) then Some(FirstSym(e))
    else if e.Not? && (if first then IsComparisonOrSymbol(e.arg) else e.arg.Symbol?) then Some(FirstSym(e.arg))
    else None
  }

  /** The two operands compare with `s` and `t`, in either order. */
  predicate CompareWith(e1: Expr, e2: Expr, s: Sym, t: Sym)
    requires (e1.Equal? && e2.Equal?) || (e1.Unequal? && e2.Unequal?)
  {
    (e1.right == s && e2.right == t) || (e1.right == t && e2.right == s)
  }

  /** One operand is a symbol and the other a comparison of it with `s`. */
  predicate SymbolAndEqual(e1: Expr, e2: Expr, s: Sym) {
    (e1.Symbol? && e2.Equal? && e2.right == s) || (e2.Symbol? && e1.Equal? && e1.right == s)
  }

  predicate SymbolAndUnequal(e1: Expr, e2: Expr, s: Sym) {
    (e1.Symbol? && e2.Unequal? && e2.right == s) || (e2.Symbol? && e1.Unequal? && e1.right == s)
  }

  predicate SymbolAndNot(e1: Expr, e2: Expr) {
    (e1.Not? && e1.arg.Symbol? && e2.Symbol?) || (e2.Not? && e2.arg.Symbol? && e1.Symbol?)
  }

  /** The rules of expr_join_or for two operands about the same bool or tristate symbol. */
  function JoinOrRules(a: Sym, e1: Expr, e2: Expr): Option<Expr> {
    if a.Type().Tristate? && e1.Equal? && e2.Equal? && CompareWith(e1, e2, SymYes, SymMod) then
      Some(Unequal(a, SymNo))
    else if a.Type().Tristate? && e1.Equal? && e2.Equal? && CompareWith(e1, e2, SymYes, SymNo) then
      Some(Unequal(a, SymMod))
    else if a.Type().Tristate? && e1.Equal? && e2.Equal? && CompareWith(e1, e2, SymMod, SymNo) then
      Some(Unequal(a, SymYes))
    else if a.Type().Boolean? && SymbolAndNot(e1, e2) then
      Some(Symbol(SymYes))
    else None
  }

  /** The rules of expr_join_and. */
  function JoinAndRules(a: Sym, e1: Expr, e2: Expr): Option<Expr> {
    if SymbolAndEqual(e1, e2, SymYes) then Some(Equal(a, SymYes))
    else if SymbolAndUnequal(e1, e2, SymNo) then Some(Symbol(a))
    else if SymbolAndUnequal(e1, e2, SymMod) then Some(Equal(a, SymYes))
    else if !a.Type().Tristate? then None
    else if e1.Equal? && e2.Unequal? && e1.right.IsConst() && e2.right.IsConst() then
      Some(if e1.right != e2.right then Equal(a, e1.right) else Symbol(SymNo))
    else if e1.Unequal? && e2.Equal? && e1.right.IsConst() && e2.right.IsConst() then
      Some(if e2.right != e1.right then Equal(a, e2.right) else Symbol(SymNo))
    else if e1.Unequal? && e2.Unequal? && CompareWith(e1, e2, SymYes, SymNo) then
      Some(Equal(a, SymMod))
    else if e1.Unequal? && e2.Unequal? && CompareWith(e1, e2, SymYes, SymMod) then
      Some(Equal(a, SymNo))
    else if e1.Unequal? && e2.Unequal? && CompareWith(e1, e2, SymMod, SymNo) then
      Some(Equal(a, SymYes))
    else None
  }

  function JoinExprs(op: Op, e1: Expr, e2: Expr): Option<Expr> {
    if ExprEq(e1, e2) then Some(e1)
    else
      var a := Subject(e1, true);
      var b := Subject(e2, false);
      if a.None? || b.None? || a.value != b.value then None
      else if !a.value.IsBoolOrTristate() then None
      else if op.OrOp? then JoinOrRules(a.value, e1, e2)
      else JoinAndRules(a.value, e1, e2)
  }

  /** Every rule is exact in every well-typed environment, m included. */
  lemma JoinExact(op: Op, e1: Expr, e2: Expr, env: Env)
    requires WellTyped(env)
    requires JoinExprs(op, e1, e2).Some?
    ensures Eval(JoinExprs(op, e1, e2).value, env) == Join(op, Eval(e1, env), Eval(e2, env))
  {
    if ExprEq(e1, e2) {
      ExprEqSound(e1, e2);
    } else if op.OrOp? {
      JoinOrExact(Subject(e1, true).value, e1, e2, env);
    } else {
      JoinAndExact(Subject(e1, true).value, e1, e2, env);
    }
  }

  lemma JoinOrExact(a: Sym, e1: Expr, e2: Expr, env: Env)
    requires WellTyped(env) && a.IsBoolOrTristate()
    requires Subject(e1, true) == Some(a) && Subject(e2, false) == Some(a)
    requires JoinOrRules(a, e1, e2).Some?
    ensures Eval(JoinOrRules(a, e1, e2).value, env) == Join(OrOp, Eval(e1, env), Eval(e2, env))
  {
    assert env(a).str == Letter(env(a).tri);
  }

  lemma JoinAndExact(a: Sym, e1: Expr, e2: Expr, env: Env)
    requires WellTyped(env) && a.IsBoolOrTristate()
    requires Subject(e1, true) == Some(a) && Subject(e2, false) == Some(a)
    requires JoinAndRules(a, e1, e2).Some?
    ensures Eval(JoinAndRules(a, e1, e2).value, env) == Join(AndOp, Eval(e1, env), Eval(e2, env))
  {
    assert env(a).str == Letter(env(a).tri);
    if e1.Equal? && e2.Unequal? && e1.right != e2.right && e1.right.IsConst() && e2.right.IsConst() {
      assert env(e1.right).str != env(e2.right).str;
    }
    if e1.Unequal? && e2.Equal? && e1.right != e2.right && e1.right.IsConst() && e2.right.IsConst() {
      assert env(e1.right).str != env(e2.right).str;
    }
  }

  /** The joined expression is at most as large as the first operand, and never needs ! anywhere
      new. */
  lemma JoinShape(op: Op, e1: Expr, e2: Expr)
    requires JoinExprs(op, e1, e2).Some?
    ensures var t := JoinExprs(op, e1, e2).value;
      && Size(t) <= Size(e1) && Leaves(t) <= Leaves(e1)
      && (!IsOp(op, e1) ==> !IsOp(op, t))
      && (Normal(e1) && Normal(e2) ==> Normal(t))
  {
  }
}
