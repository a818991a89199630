/** What the comparison and the removal of common operands do to the operands of a conjunction or
    disjunction (expr.c): exactly, where the operands are symbols, comparisons and negations of these. */
module Operands {
  import opened Expressions
  import opened EliminateConstants
  import opened ExprEquality
  import opened ExtractCommon

  predicate Literal(e: Expr) {
    match e
    case Bin(_, _, _) => false
    case Not(a) => Literal(a)
    case _ => true
  }

  predicate LiteralSpine(op: Op, e: Expr) {
    if IsOp(op, e) then LiteralSpine(op, e.lhs) && LiteralSpine(op, e.rhs) else Literal(e)
  }

  /** The operands, apart from the constants y and n. */
  function Ops(op: Op, e: Expr): multiset<Expr> {
    if IsOp(op, e) then Ops(op, e.lhs) + Ops(op, e.rhs)
    else if IsYN(e) then multiset{}
    else multiset{e}
  }

  /** No operand is the constant that decides the whole: n under &&, y under ||. */
  predicate Open(op: Op, e: Expr) {
    if IsOp(op, e) then Open(op, e.lhs) && Open(op, e.rhs) else e != UnitExpr(Other(op))
  }

  lemma {:induction false} LiteralEq(a: Expr, b: Expr)
    requires Literal(a) && Literal(b)
    ensures ExprEq(a, b) <==> a == b
  {
    if a.Not? && b.Not? {
      LiteralEq(a.arg, b.arg);
    }
  }

  // ---------- __expr_eliminate_eq ----------

  /** What is left of each side are the operands that the other one does not have. */
  ghost predicate Removes(op: Op, a: Expr, b: Expr, fst: Expr, snd: Expr) {
    && LiteralSpine(op, fst) && LiteralSpine(op, snd)
    && Ops(op, fst) == Ops(op, a) - Ops(op, b) && Ops(op, snd) == Ops(op, b) - Ops(op, a)
    && (Open(op, a) ==> Open(op, fst)) && (Open(op, b) ==> Open(op, snd))
  }

  lemma Differences(l: multiset<Expr>, r: multiset<Expr>, b: multiset<Expr>)
    ensures (l - b) + (r - (b - l)) == (l + r) - b
    ensures (b - l) - r == b - (l + r)
  {
  }

  lemma RemovesLeft(op: Op, a: Expr, b: Expr, x: Pair, y: Pair)
    requires IsOp(op, a) && Removes(op, a.lhs, b, x.fst, x.snd) && Removes(op, a.rhs, x.snd, y.fst, y.snd)
    ensures Removes(op, a, b, Bin(op, x.fst, y.fst), y.snd)
  {
    Differences(Ops(op, a.lhs), Ops(op, a.rhs), Ops(op, b));
  }

  lemma RemovesRight(op: Op, a: Expr, b: Expr, x: Pair, y: Pair)
    requires IsOp(op, b) && Removes(op, a, b.lhs, x.fst, x.snd) && Removes(op, x.fst, b.rhs, y.fst, y.snd)
    ensures Removes(op, a, b, y.fst, Bin(op, x.snd, y.snd))
  {
    Differences(Ops(op, b.lhs), Ops(op, b.rhs), Ops(op, a));
  }

  lemma {:induction false} EliminateOperandsRemoves(op: Op, a: Expr, b: Expr)
    requires LiteralSpine(op, a) && LiteralSpine(op, b)
    ensures var r := EliminateOperands(op, a, b); Removes(op, a, b, r.fst, r.snd)
    decreases Size(a) + Size(b)
  {
    hide Removes, EliminateOperands, Size, Ops, Open, ExprEq;
    SpineParts(op, a);
    SpineParts(op, b);
    hide LiteralSpine;
    if IsOp(op, a) {
      LeftOperands(op, a, b);
      var x := EliminateOperands(op, a.lhs, b);
      EliminateOperandsRemoves(op, a.lhs, b);
      RemovesLiteral(op, a.lhs, b, x);
      EliminateOperandsRemoves(op, a.rhs, x.snd);
      RemovesLeft(op, a, b, x, EliminateOperands(op, a.rhs, x.snd));
    } else if IsOp(op, b) {
      RightOperands(op, a, b);
      var x := EliminateOperands(op, a, b.lhs);
      EliminateOperandsRemoves(op, a, b.lhs);
      RemovesLiteral(op, a, b.lhs, x);
      EliminateOperandsRemoves(op, x.fst, b.rhs);
      RemovesRight(op, a, b, x, EliminateOperands(op, x.fst, b.rhs));
    } else {
      RemovesEnd(op, a, b);
    }
  }

  lemma SpineParts(op: Op, e: Expr)
    requires LiteralSpine(op, e)
    ensures if IsOp(op, e) then LiteralSpine(op, e.lhs) && LiteralSpine(op, e.rhs) else Literal(e)
  {
  }

  lemma EndPair(op: Op, a: Expr, b: Expr)
    requires !IsOp(op, a) && !IsOp(op, b) && Literal(a) && Literal(b)
    ensures EliminateOperands(op, a, b)
         == if a == b && !IsYN(a) then Pair(UnitExpr(op), UnitExpr(op)) else Pair(a, b)
  {
    LiteralEq(a, b);
    hide ExprEq, Size;
  }

  lemma RemovesEnd(op: Op, a: Expr, b: Expr)
    requires !IsOp(op, a) && !IsOp(op, b) && Literal(a) && Literal(b)
    ensures var r := EliminateOperands(op, a, b); Removes(op, a, b, r.fst, r.snd)
  {
    EndPair(op, a, b);
    hide EliminateOperands, Removes;
    if a == b && !IsYN(a) {
      SameEnds(op, a);
    } else {
      OtherEnds(op, a, b);
    }
  }

  lemma SameEnds(op: Op, a: Expr)
    requires !IsOp(op, a) && Literal(a)
    ensures Removes(op, a, a, UnitExpr(op), UnitExpr(op))
  {
  }

  lemma OtherEnds(op: Op, a: Expr, b: Expr)
    requires !IsOp(op, a) && !IsOp(op, b) && Literal(a) && Literal(b) && (a != b || IsYN(a))
    ensures Removes(op, a, b, a, b)
  {
    var A, B := Ops(op, a), Ops(op, b);
    assert A == (if IsYN(a) then multiset{} else multiset{a}) && B == (if IsYN(b) then multiset{} else multiset{b});
    hide Ops;
    NothingShared(A, B);
    NothingShared(B, A);
  }

  lemma NothingShared(a: multiset<Expr>, b: multiset<Expr>)
    requires forall e :: e in a ==> e !in b
    ensures a - b == a
  {
    forall e ensures (a - b)[e] == a[e] {
    }
  }

  lemma RemovesLiteral(op: Op, a: Expr, b: Expr, x: Pair)
    requires Removes(op, a, b, x.fst, x.snd)
    ensures LiteralSpine(op, x.fst) && LiteralSpine(op, x.snd)
  {
  }

  // ---------- expr_eliminate_yn ----------

  /** Constants that decide nothing are dropped; the operands stay. */
  lemma {:induction false} YNKeepsOperands(op: Op, e: Expr)
    requires LiteralSpine(op, e) && Open(op, e)
    ensures var t := EliminateYN(e);
      && LiteralSpine(op, t) && Open(op, t) && Ops(op, t) == Ops(op, e)
      && (t == UnitExpr(op) <==> Ops(op, e) == multiset{})
  {
    if IsOp(op, e) {
      YNKeepsOperands(op, e.lhs);
      YNKeepsOperands(op, e.rhs);
    }
  }

  // ---------- expr_eq ----------

  /** Two conjunctions, or two disjunctions, of literals are equal if and only if they have the same
      operands, each as often, in whatever order and nesting. */
  lemma ExprEqIff(a: Expr, b: Expr)
    requires a.Bin? && b.Bin? && a.op == b.op
    requires LiteralSpine(a.op, a) && LiteralSpine(a.op, b) && Open(a.op, a) && Open(a.op, b)
    ensures ExprEq(a, b) <==> Ops(a.op, a) == Ops(a.op, b)
  {
    var op := a.op;
    var r := EliminateOperands(op, a, b);
    EliminateOperandsRemoves(op, a, b);
    assert EliminateCommon(a, b) == r;
    YNKeepsOperands(op, r.fst);
    YNKeepsOperands(op, r.snd);
    var x, y := EliminateYN(r.fst), EliminateYN(r.snd);
    assert EliminateEq(a, b) == Pair(x, y);
    hide EliminateOperands, EliminateYN, LiteralSpine, Open;
    var A, B := Ops(op, a), Ops(op, b);
    if A == B {
      assert A - B == multiset{} && B - A == multiset{};
    }
    if x == y {
      NotLeftTwice(A, B, x);
      SameMembers(A, B);
    }
  }

  lemma NotLeftTwice(a: multiset<Expr>, b: multiset<Expr>, e: Expr)
    ensures e !in a - b || e !in b - a
  {
  }

  lemma SameMembers(a: multiset<Expr>, b: multiset<Expr>)
    ensures a - b == multiset{} && b - a == multiset{} ==> a == b
  {
    if a - b == multiset{} && b - a == multiset{} {
      forall e ensures a[e] == b[e] {
        assert (a - b)[e] == 0 && (b - a)[e] == 0;
      }
    }
  }

  // ---------- expr_extract_eq ----------

  /** What is left are the operands that the other side does not have, and if nothing was extracted the
      two sides have none in common. */
  ghost predicate Extracts(op: Op, common: Option<Expr>, a: Expr, b: Expr, x: Extraction) {
    && Removes(op, a, b, x.fst, x.snd)
    && (x.common.None? ==> common.None? && x.fst == a && x.snd == b)
  }

  lemma {:induction false} ExtractOperandsRemoves(op: Op, common: Option<Expr>, a: Expr, b: Expr)
    requires LiteralSpine(op, a) && LiteralSpine(op, b)
    ensures Extracts(op, common, a, b, ExtractOperands(op, common, a, b))
    decreases Size(a) + Size(b)
  {
    hide Removes, Ops, Open, ExprEq;
    SpineParts(op, a);
    SpineParts(op, b);
    hide LiteralSpine;
    if IsOp(op, a) {
      var x := ExtractOperands(op, common, a.lhs, b);
      ExtractOperandsRemoves(op, common, a.lhs, b);
      RemovesLiteral(op, a.lhs, b, Pair(x.fst, x.snd));
      var y := ExtractOperands(op, x.common, a.rhs, x.snd);
      ExtractOperandsRemoves(op, x.common, a.rhs, x.snd);
      RemovesLeft(op, a, b, Pair(x.fst, x.snd), Pair(y.fst, y.snd));
    } else if IsOp(op, b) {
      var x := ExtractOperands(op, common, a, b.lhs);
      ExtractOperandsRemoves(op, common, a, b.lhs);
      RemovesLiteral(op, a, b.lhs, Pair(x.fst, x.snd));
      var y := ExtractOperands(op, x.common, x.fst, b.rhs);
      ExtractOperandsRemoves(op, x.common, x.fst, b.rhs);
      RemovesRight(op, a, b, Pair(x.fst, x.snd), Pair(y.fst, y.snd));
    } else {
      ExtractEnd(op, common, a, b);
    }
  }

  lemma ExtractEnd(op: Op, common: Option<Expr>, a: Expr, b: Expr)
    requires !IsOp(op, a) && !IsOp(op, b) && Literal(a) && Literal(b)
    ensures Extracts(op, common, a, b, ExtractOperands(op, common, a, b))
  {
    LiteralEq(a, b);
    hide ExprEq, Removes;
    if a == b {
      SameEnds(op, a);
    } else {
      OtherEnds(op, a, b);
    }
  }

  /** The guard of the cancelling step: everything is extracted from one side if and only if all its
      operands are operands of the other. */
  lemma ExtractsAllIff(op: Op, a: Expr, b: Expr)
    requires LiteralSpine(op, a) && LiteralSpine(op, b) && Open(op, a) && Open(op, b)
    requires Ops(op, a) != multiset{}
    ensures ExtractEq(op, a, b).fst == UnitExpr(op) <==> Ops(op, a) <= Ops(op, b)
  {
    ExtractOperandsRemoves(op, None, a, b);
    var x := ExtractOperands(op, None, a, b);
    hide ExtractOperands;
    YNKeepsOperands(op, x.fst);
    hide EliminateYN, LiteralSpine, Open;
    AllRemoved(Ops(op, a), Ops(op, b));
  }

  lemma AllRemoved(a: multiset<Expr>, b: multiset<Expr>)
    ensures a - b == multiset{} <==> a <= b
  {
    if a - b == multiset{} {
      forall e ensures a[e] <= b[e] {
        assert (a - b)[e] == 0;
      }
    }
  }

  // ---------- the test of menu_finalize ----------

  /** Nothing is left of a conjunction, or of a single condition, if all its operands are operands of the
      conjunction that it is compared with. */
  lemma ConjunctsLeaveYes(a: Expr, b: Expr)
    requires IsOp(AndOp, a) && LiteralSpine(AndOp, a) && LiteralSpine(AndOp, b)
    requires Open(AndOp, a) && Open(AndOp, b) && Ops(AndOp, b) <= Ops(AndOp, a)
    ensures EliminateEq(a, b).snd == Symbol(SymYes)
  {
    var r := EliminateOperands(AndOp, a, b);
    EliminateOperandsRemoves(AndOp, a, b);
    AllRemoved(Ops(AndOp, b), Ops(AndOp, a));
    YNKeepsOperands(AndOp, r.snd);
    hide Ops, Open, EliminateOperands, EliminateYN;
    assert EliminateCommon(a, b) == r;
  }
}
