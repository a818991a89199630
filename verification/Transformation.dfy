/** expr_transform: push ! inwards and rewrite comparisons of boolean symbols with constants. */
module Transformation {
  import opened Expressions

  /** Twice the weight below each !, so that a De Morgan step makes an expression lighter. */
  function Weight(e: Expr): nat
    ensures Weight(e) >= 1
  {
    match e
    case Symbol(_) => 1
    case Equal(_, _) => 2
    case Unequal(_, _) => 2
    case Not(a) => 2 * Weight(a)
    case Bin(_, l, r) => 1 + Weight(l) + Weight(r)
  }

  /** A boolean symbol compared with y, m or n. */
  predicate Decidable(l: Sym, r: Sym) {
    l.Type().Boolean? && r.IsFixed()
  }

  function TransformEqual(l: Sym, r: Sym): Expr {
    if !l.Type().Boolean? then Equal(l, r)
    else if r.SymNo? then Not(Symbol(l))
    else if r.SymMod? then Symbol(SymNo)
    else if r.SymYes? then Symbol(l)
    else Equal(l, r)
  }

  function TransformUnequal(l: Sym, r: Sym): Expr {
    if !l.Type().Boolean? then Unequal(l, r)
    else if r.SymNo? then Symbol(l)
    else if r.SymMod? then Symbol(SymYes)
    else if r.SymYes? then Not(Symbol(l))
    else Unequal(l, r)
  }

  /** Expressions are shared nowhere, so the in-place rewriting is a function of the tree. */
  function Transform(e: Expr): (r: Expr)
    ensures Weight(r) <= Weight(e)
    decreases Weight(e)
  {
    match e
    case Symbol(_) => e
    case Equal(l, r) => TransformEqual(l, r)
    case Unequal(l, r) => TransformUnequal(l, r)
    case Bin(op, l, r) => Bin(op, Transform(l), Transform(r))
    case Not(a) =>
      var t := Transform(a);
      match t
      case Not(b) => Transform(b)
      case Equal(l, r) => Unequal(l, r)
      case Unequal(l, r) => Equal(l, r)
      case Bin(op, l, r) =>
        assert Weight(Not(l)) == 2 * Weight(l) && Weight(Not(r)) == 2 * Weight(r);
        Transform(Bin(Other(op), Not(l), Not(r)))
      case Symbol(s) =>
        if s.SymYes? then Symbol(SymNo)
        else if s.SymMod? then Symbol(SymMod)
        else if s.SymNo? then Symbol(SymYes)
        else Not(t)
  }

  /** expr_transform keeps the tristate value in every well-typed environment. */
  lemma {:induction false} TransformKeepsValue(e: Expr, env: Env)
    requires WellTyped(env)
    ensures Eval(Transform(e), env) == Eval(e, env)
    decreases Weight(e)
  {
    match e
    case Symbol(_) =>
    case Equal(l, r) =>
    case Unequal(l, r) =>
    case Bin(op, l, r) =>
      TransformKeepsValue(l, env);
      TransformKeepsValue(r, env);
    case Not(a) =>
      TransformKeepsValue(a, env);
      match Transform(a) {
        case Not(b) => TransformKeepsValue(b, env);
        case Bin(op, l, r) =>
          assert Weight(Not(l)) == 2 * Weight(l) && Weight(Not(r)) == 2 * Weight(r);
          TransformKeepsValue(Bin(Other(op), Not(l), Not(r)), env);
        case _ =>
      }
  }

  /** ! only directly on a symbol other than y, m and n, and no boolean symbol compared with one
      of these. */
  predicate Normal(e: Expr) {
    match e
    case Symbol(_) => true
    case Equal(l, r) => !Decidable(l, r)
    case Unequal(l, r) => !Decidable(l, r)
    case Not(a) => a.Symbol? && !a.sym.IsFixed()
    case Bin(_, l, r) => Normal(l) && Normal(r)
  }

  /** expr_transform returns a normal form, and the fixed points are exactly the normal forms. */
  lemma {:induction false} TransformNormalizes(e: Expr)
    ensures Normal(Transform(e))
    ensures Normal(e) <==> Transform(e) == e
    decreases Weight(e)
  {
    match e
    case Symbol(_) =>
    case Equal(l, r) =>
    case Unequal(l, r) =>
    case Bin(op, l, r) =>
      TransformNormalizes(l);
      TransformNormalizes(r);
    case Not(a) =>
      TransformNormalizes(a);
      match Transform(a) {
        case Not(b) => TransformNormalizes(b);
        case Bin(op, l, r) =>
          assert Weight(Not(l)) == 2 * Weight(l) && Weight(Not(r)) == 2 * Weight(r);
          TransformNormalizes(Bin(Other(op), Not(l), Not(r)));
        case _ =>
      }
  }

  lemma TransformIdempotent(e: Expr)
    ensures Transform(Transform(e)) == Transform(e)
  {
    TransformNormalizes(e);
    TransformNormalizes(Transform(e));
  }
}
