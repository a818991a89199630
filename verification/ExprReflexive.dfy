/** expr_eq finds every expression equal to itself, whatever stands in it (expr.c). */
module ExprReflexive {
  import opened Expressions
  import opened EliminateConstants
  import opened ExprEquality
  import opened Positions

  /** Only constants are left along the operator. */
  predicate AllConstant(op: Op, e: Expr) {
    if IsOp(op, e) then AllConstant(op, e.lhs) && AllConstant(op, e.rhs) else IsYN(e)
  }

  /** The operands replaced by the unit. */
  function Cleared(op: Op, e: Expr): (r: Expr)
    ensures AllConstant(op, r)
  {
    if IsOp(op, e) then Bin(op, Cleared(op, e.lhs), Cleared(op, e.rhs))
    else if IsYN(e) then e
    else UnitExpr(op)
  }

  /** Only constants come before the position. */
  predicate ConstantBefore(op: Op, e: Expr, q: Pos)
    requires OnSpine(op, e, q)
  {
    q == [] || (ConstantBefore(op, Child(e, q[0]), q[1..]) && (q[0].Right? ==> AllConstant(op, e.lhs)))
  }

  lemma {:induction false} ConstantStays(op: Op, c: Expr, b: Expr)
    requires IsYN(c)
    ensures EliminateOperands(op, c, b) == Pair(c, b)
  {
    if IsOp(op, b) {
      ConstantStays(op, c, b.lhs);
      ConstantStays(op, c, b.rhs);
    }
  }

  lemma {:induction false} ConstantsStay(op: Op, a: Expr, b: Expr)
    requires !IsOp(op, a) && AllConstant(op, b)
    ensures EliminateOperands(op, a, b) == Pair(a, b)
  {
    if IsOp(op, b) {
      ConstantsStay(op, a, b.lhs);
      ConstantsStay(op, a, b.rhs);
    }
  }

  /** One operand meets itself. */
  lemma {:induction false} EndMeetsItself(op: Op, a: Expr, b: Expr, q: Pos)
    requires !IsOp(op, a) && ExprEq(a, a)
    requires OnSpine(op, b, q) && At(op, b, q) == a && ConstantBefore(op, b, q)
    ensures EliminateOperands(op, a, b) == Pair(Cleared(op, a), Put(op, b, q, Cleared(op, a)))
  {
    hide ExprEq;
    if q != [] {
      EndMeetsItself(op, a, Child(b, q[0]), q[1..]);
      if q[0].Left? {
        ConstantStays(op, Cleared(op, a), b.rhs);
      } else {
        ConstantsStay(op, a, b.lhs);
      }
    }
  }

  lemma {:induction false} PutChildren(op: Op, b: Expr, q: Pos, x: Expr, y: Expr)
    requires OnSpine(op, b, q) && IsOp(op, At(op, b, q)) && ConstantBefore(op, b, q) && AllConstant(op, x)
    ensures OnSpine(op, b, q + [Left]) && ConstantBefore(op, b, q + [Left])
    ensures At(op, b, q + [Left]) == At(op, b, q).lhs
    ensures var c := Put(op, b, q + [Left], x);
      && OnSpine(op, c, q + [Right]) && ConstantBefore(op, c, q + [Right])
      && At(op, c, q + [Right]) == At(op, b, q).rhs
      && Put(op, c, q + [Right], y) == Put(op, b, q, Bin(op, x, y))
  {
    if q == [] {
      assert [] + [Left] == [Left] && [] + [Right] == [Right] && [Left][1..] == [] && [Right][1..] == [];
    } else {
      PutChildren(op, Child(b, q[0]), q[1..], x, y);
      assert (q + [Left])[1..] == q[1..] + [Left] && (q + [Right])[1..] == q[1..] + [Right];
    }
  }

  lemma {:induction false} SpineMeetsItself(op: Op, a: Expr, b: Expr, q: Pos)
    requires OnSpine(op, b, q) && At(op, b, q) == a && ConstantBefore(op, b, q)
    ensures EliminateOperands(op, a, b) == Pair(Cleared(op, a), Put(op, b, q, Cleared(op, a)))
    decreases Size(a), if IsOp(op, a) then 0 else 2
  {
    hide EliminateOperands, OnSpine, At, ConstantBefore, AllConstant, ExprEq, Put;
    if IsOp(op, a) {
      LeftOperands(op, a, b);
      var x, y := Cleared(op, a.lhs), Cleared(op, a.rhs);
      PutChildren(op, b, q, x, y);
      SpineMeetsItself(op, a.lhs, b, q + [Left]);
      SpineMeetsItself(op, a.rhs, Put(op, b, q + [Left], x), q + [Right]);
    } else {
      ExprEqReflexive(a);
      EndMeetsItself(op, a, b, q);
    }
  }

  lemma {:induction false} ConstantsFold(op: Op, e: Expr)
    requires AllConstant(op, e)
    ensures IsYN(EliminateYN(e))
  {
    if IsOp(op, e) {
      ConstantsFold(op, e.lhs);
      ConstantsFold(op, e.rhs);
    }
  }

  lemma {:induction false} ExprEqReflexive(a: Expr)
    ensures ExprEq(a, a)
    decreases Size(a), 1
  {
    match a
    case Not(x) => ExprEqReflexive(x);
    case Bin(op, _, _) =>
      SpineMeetsItself(op, a, a, []);
      var c := Cleared(op, a);
      ConstantsFold(op, c);
      hide EliminateOperands, EliminateYN, Cleared;
      assert EliminateOperands(op, a, a) == Pair(c, c);
      assert EliminateCommon(a, a) == Pair(c, c) by {
        assert IsOp(op, EliminateOperands(op, a, a).fst);
      }
    case _ =>
  }
}
