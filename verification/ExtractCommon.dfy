/** expr_extract_eq: move the operands that two expressions share into a third one. */
module ExtractCommon {
  import opened Expressions
  import opened EliminateConstants
  import opened ExprEquality

  datatype Extraction = Extraction(common: Option<Expr>, fst: Expr, snd: Expr)

  /** Unlike __expr_eliminate_eq, equal constants are extracted as well. */
  function ExtractOperands(op: Op, common: Option<Expr>, a: Expr, b: Expr): (x: Extraction)
    ensures Size(x.fst) <= Size(a) && Size(x.snd) <= Size(b)
    decreases Size(a) + Size(b)
  {
    if IsOp(op, a) then
      var x := ExtractOperands(op, common, a.lhs, b);
      var y := ExtractOperands(op, x.common, a.rhs, x.snd);
      Extraction(y.common, Bin(op, x.fst, y.fst), y.snd)
    else if IsOp(op, b) then
      var x := ExtractOperands(op, common, a, b.lhs);
      var y := ExtractOperands(op, x.common, x.fst, b.rhs);
      Extraction(y.common, y.fst, Bin(op, x.snd, y.snd))
    else if ExprEq(a, b) then
      Extraction(AllocBin(op, common, Some(a)), UnitExpr(op), UnitExpr(op))
    else
      Extraction(common, a, b)
  }

  /** expr_extract_eq_and and expr_extract_eq_or: constants are eliminated only when something
      was extracted. */
  function ExtractEq(op: Op, a: Expr, b: Expr): Extraction {
    var x := ExtractOperands(op, None, a, b);
    if x.common.None? then x
    else Extraction(x.common, EliminateYN(x.fst), EliminateYN(x.snd))
  }

  /** The extracted operands, joined; nothing extracted counts as the unit. */
  function Part(op: Op, common: Option<Expr>, env: Env): Tri {
    if common.None? then Unit(op) else Eval(common.value, env)
  }

  /** Two extractions in a row, `l` and then `r` against what is left of the other side. */
  lemma RebuildCompose(op: Op, p0: Tri, p1: Tri, p2: Tri, l: Tri, l': Tri, r: Tri, r': Tri, b: Tri, b': Tri, b'': Tri)
    requires Join(op, p0, l) == Join(op, p1, l') && Join(op, p1, r) == Join(op, p2, r')
    requires Join(op, p0, b) == Join(op, p1, b') && Join(op, p1, b') == Join(op, p2, b'')
    requires p1 == Join(op, p0, p1) && p2 == Join(op, p1, p2)
    ensures Join(op, p0, Join(op, l, r)) == Join(op, p2, Join(op, l', r'))
    ensures Join(op, p0, b) == Join(op, p2, b'') && p2 == Join(op, p0, p2)
  {
  }

  /** What was extracted and what remains rebuild both expressions, in every environment. */
  lemma {:induction false} ExtractOperandsRebuilds(op: Op, common: Option<Expr>, a: Expr, b: Expr, env: Env)
    requires ConstantsFixed(env)
    ensures var x := ExtractOperands(op, common, a, b);
      && Join(op, Part(op, common, env), Eval(a, env)) == Join(op, Part(op, x.common, env), Eval(x.fst, env))
      && Join(op, Part(op, common, env), Eval(b, env)) == Join(op, Part(op, x.common, env), Eval(x.snd, env))
      && Part(op, x.common, env) == Join(op, Part(op, common, env), Part(op, x.common, env))
    decreases Size(a) + Size(b)
  {
    if IsOp(op, a) {
      ExtractOperandsRebuilds(op, common, a.lhs, b, env);
      var x := ExtractOperands(op, common, a.lhs, b);
      ExtractOperandsRebuilds(op, x.common, a.rhs, x.snd, env);
      var y := ExtractOperands(op, x.common, a.rhs, x.snd);
      RebuildCompose(op, Part(op, common, env), Part(op, x.common, env), Part(op, y.common, env),
        Eval(a.lhs, env), Eval(x.fst, env), Eval(a.rhs, env), Eval(y.fst, env),
        Eval(b, env), Eval(x.snd, env), Eval(y.snd, env));
    } else if IsOp(op, b) {
      ExtractOperandsRebuilds(op, common, a, b.lhs, env);
      var x := ExtractOperands(op, common, a, b.lhs);
      ExtractOperandsRebuilds(op, x.common, x.fst, b.rhs, env);
      var y := ExtractOperands(op, x.common, x.fst, b.rhs);
      RebuildCompose(op, Part(op, common, env), Part(op, x.common, env), Part(op, y.common, env),
        Eval(b.lhs, env), Eval(x.snd, env), Eval(b.rhs, env), Eval(y.snd, env),
        Eval(a, env), Eval(x.fst, env), Eval(y.fst, env));
    } else if ExprEq(a, b) {
      ExprEqSound(a, b);
    }
  }

  lemma ExtractEqRebuilds(op: Op, a: Expr, b: Expr, env: Env)
    requires ConstantsFixed(env)
    ensures var x := ExtractEq(op, a, b);
      && Eval(a, env) == Join(op, Part(op, x.common, env), Eval(x.fst, env))
      && Eval(b, env) == Join(op, Part(op, x.common, env), Eval(x.snd, env))
  {
    ExtractOperandsRebuilds(op, None, a, b, env);
    var x := ExtractOperands(op, None, a, b);
    EliminateYNKeepsValue(x.fst, env);
    EliminateYNKeepsValue(x.snd, env);
  }
}
