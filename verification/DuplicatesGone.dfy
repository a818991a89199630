/** What expr_eliminate_dups has removed when it ends (expr.c). */
module DuplicatesGone {
  import opened Expressions
  import opened EliminateConstants
  import opened ExprEquality
  import opened ExprReflexive
  import opened ExtractCommon
  import opened Transformation
  import opened JoinOperands
  import opened Operands
  import opened Positions
  import opened Duplicates

  // ---------- a first pass that changes nothing ----------

  /** Two different ends of the spine, one below each position, are not joined. */
  ghost predicate NoJoin(op: Op, e: Expr, p: Pos, q: Pos)
    requires OnSpine(op, e, p) && OnSpine(op, e, q)
  {
    forall x: Pos, y: Pos :: IsEnd(op, e, p + x) && IsEnd(op, e, q + y) && p + x != q + y ==> Apart(op, e, p + x, q + y)
  }

  predicate IsEnd(op: Op, e: Expr, p: Pos) {
    OnSpine(op, e, p) && !IsOp(op, At(op, e, p))
  }

  /** The two ends are not joined, and the first pass has nothing to do inside the first one. */
  predicate Apart(op: Op, e: Expr, p: Pos, q: Pos)
    requires IsEnd(op, e, p) && IsEnd(op, e, q)
  {
    var a := At(op, e, p);
    JoinExprs(op, a, At(op, e, q)) == None && (a.Bin? ==> Dups1(a.op, a, [], []).count == 0)
  }

  /** An end below an inner node of the spine is below one of its children. */
  lemma {:induction false} EndBelow(op: Op, e: Expr, p: Pos, x: Pos)
    requires OnSpine(op, e, p) && IsEnd(op, e, p + x)
    ensures if IsOp(op, At(op, e, p)) then x != [] && p + x == (p + [x[0]]) + x[1..] else x == []
  {
    if p == [] {
      assert p + x == x;
      if x != [] {
        assert (p + [x[0]]) + x[1..] == x;
      }
    } else {
      assert (p + x)[1..] == p[1..] + x;
      EndBelow(op, Child(e, p[0]), p[1..], x);
      if x != [] {
        assert (p + [x[0]]) + x[1..] == p + x;
      }
    }
  }

  lemma {:induction false} Dups1Idle(op: Op, e: Expr, p: Pos, q: Pos)
    requires OnSpine(op, e, p) && OnSpine(op, e, q)
    requires Dups1(op, e, p, q).count == 0
    ensures Dups1(op, e, p, q).expr == e
    ensures NoJoin(op, e, p, q)
    decreases Size(e), ShapeSize(ShapeOf(op, At(op, e, p))), ShapeSize(ShapeOf(op, At(op, e, q)))
  {
    hide NoJoin, Apart;
    if IsOp(op, At(op, e, p)) {
      Extend(op, e, p, Left);
      Extend(op, e, p, Right);
      Dups1Idle(op, e, p + [Left], q);
      SameShape(op, e, e, p + [Right]);
      Dups1Idle(op, e, p + [Right], q);
      NoJoinFirst(op, e, p, q);
    } else if IsOp(op, At(op, e, q)) {
      Extend(op, e, q, Left);
      Extend(op, e, q, Right);
      Dups1Idle(op, e, p, q + [Left]);
      SameShape(op, e, e, q + [Right]);
      Dups1Idle(op, e, p, q + [Right]);
      NoJoinSecond(op, e, p, q);
    } else {
      if p != q {
        var a := At(op, e, p);
        EndsApart(op, e, p, q);
        PutSizes(op, e, p, a);
        if a.Bin? && Dups1(a.op, a, [], []).count == 0 {
          Dups1Idle(a.op, a, [], []);
        }
        EndsIdle(op, e, p, q);
      }
      NoJoinEnds(op, e, p, q);
    }
  }

  lemma NoJoinFirst(op: Op, e: Expr, p: Pos, q: Pos)
    requires OnSpine(op, e, p) && OnSpine(op, e, q) && IsOp(op, At(op, e, p))
    requires OnSpine(op, e, p + [Left]) && OnSpine(op, e, p + [Right])
    requires NoJoin(op, e, p + [Left], q) && NoJoin(op, e, p + [Right], q)
    ensures NoJoin(op, e, p, q)
  {
    hide OnSpine, Apart, IsOp;
    forall x: Pos, y: Pos | IsEnd(op, e, p + x) && IsEnd(op, e, q + y) && p + x != q + y
      ensures Apart(op, e, p + x, q + y)
    {
      EndBelow(op, e, p, x);
      assert x[0] == Left || x[0] == Right;
    }
  }

  lemma NoJoinSecond(op: Op, e: Expr, p: Pos, q: Pos)
    requires OnSpine(op, e, p) && OnSpine(op, e, q) && IsOp(op, At(op, e, q))
    requires OnSpine(op, e, q + [Left]) && OnSpine(op, e, q + [Right])
    requires NoJoin(op, e, p, q + [Left]) && NoJoin(op, e, p, q + [Right])
    ensures NoJoin(op, e, p, q)
  {
    hide OnSpine, Apart, IsOp;
    forall x: Pos, y: Pos | IsEnd(op, e, p + x) && IsEnd(op, e, q + y) && p + x != q + y
      ensures Apart(op, e, p + x, q + y)
    {
      EndBelow(op, e, q, y);
      assert y[0] == Left || y[0] == Right;
    }
  }

  lemma NoJoinEnds(op: Op, e: Expr, p: Pos, q: Pos)
    requires IsEnd(op, e, p) && IsEnd(op, e, q) && (p != q ==> Apart(op, e, p, q))
    ensures NoJoin(op, e, p, q)
  {
    hide OnSpine, Apart, IsOp;
    assert p + [] == p && q + [] == q;
    forall x: Pos, y: Pos | IsEnd(op, e, p + x) && IsEnd(op, e, q + y) && p + x != q + y
      ensures Apart(op, e, p + x, q + y)
    {
      EndBelow(op, e, p, x);
      EndBelow(op, e, q, y);
    }
  }

  /** Two ends at which the pass counts nothing. */
  lemma EndsIdle(op: Op, e: Expr, p: Pos, q: Pos)
    requires IsEnd(op, e, p) && IsEnd(op, e, q) && p != q
    requires Dups1(op, e, p, q).count == 0
    requires var a := At(op, e, p);
      a.Bin? && Dups1(a.op, a, [], []).count == 0 ==> Dups1(a.op, a, [], []).expr == a
    ensures Dups1(op, e, p, q).expr == e && Apart(op, e, p, q)
  {
    var a := At(op, e, p);
    EndsApart(op, e, p, q);
    PutSame(op, e, p);
    var x := Within1(op, e, p);
    SameShape(op, e, x.expr, q);
    assert Dups1(op, e, p, q) == TryJoin(op, x.expr, x.count, p, q);
  }

  // ---------- what the loop ends with ----------

  /** No two different ends of the spine are joined, and the same holds inside each operand. */
  ghost predicate Done(e: Expr) {
    e.Bin? ==> NoJoin(e.op, e, [], []) && Inside(e.op, e.lhs) && Inside(e.op, e.rhs)
  }

  /** What a spine of `op` contains. */
  ghost predicate Inside(op: Op, e: Expr)
    decreases e
  {
    if IsOp(op, e) then Inside(op, e.lhs) && Inside(op, e.rhs)
    else e.Bin? ==> NoJoin(e.op, e, [], []) && Inside(e.op, e.lhs) && Inside(e.op, e.rhs)
  }

  /** The position of some end. */
  function SomeEnd(op: Op, e: Expr): (p: Pos)
    ensures IsEnd(op, e, p)
  {
    if IsOp(op, e) then [Left] + SomeEnd(op, e.lhs) else []
  }

  lemma {:induction false} IdleMeansDone(e: Expr)
    requires e.Bin? && Dups1(e.op, e, [], []).count == 0
    ensures Dups1(e.op, e, [], []).expr == e && Done(e)
    decreases Size(e), 1
  {
    Dups1Idle(e.op, e, [], []);
    assert At(e.op, e, [Left]) == e.lhs && At(e.op, e, [Right]) == e.rhs;
    hide At, NoJoin, Inside;
    IdleInside(e.op, e, [Left]);
    IdleInside(e.op, e, [Right]);
  }

  /** Every end of the spine below the position stands next to another end. */
  lemma {:induction false} IdleInside(op: Op, e: Expr, p: Pos)
    requires IsOp(op, e) && OnSpine(op, e, p) && p != [] && NoJoin(op, e, [], [])
    ensures Inside(op, At(op, e, p))
    decreases Size(At(op, e, p)), 2
  {
    var a := At(op, e, p);
    PutSizes(op, e, p, a);
    if IsOp(op, a) {
      Extend(op, e, p, Left);
      Extend(op, e, p, Right);
      hide NoJoin;
      IdleInside(op, e, p + [Left]);
      IdleInside(op, e, p + [Right]);
    } else if a.Bin? {
      var q := if p[0].Left? then [Right] + SomeEnd(op, e.rhs) else [Left] + SomeEnd(op, e.lhs);
      assert IsEnd(op, e, q) && q != p;
      assert [] + p == p && [] + q == q;
      assert Apart(op, e, p, q);
      IdleMeansDone(a);
    }
  }

  /** When expr_eliminate_dups ends, both passes leave its result alone. */
  lemma {:induction false} EliminateDupsDone(e: Expr)
    ensures var r := EliminateDups(e);
      Done(r) && (r.Bin? ==> Dups1(r.op, r, [], []).count == 0 && Dups2(r.op, r, [], []).count == 0)
    decreases Leaves(e)
  {
    if e.Bin? {
      var r := Round(e);
      RoundProgress(e);
      if r.count == 0 {
        IdleMeansDone(e);
        Dups2Idle(e.op, e, [], []);
      } else {
        EliminateDupsDone(EliminateYN(r.expr));
      }
    }
  }

  // ---------- in terms of the operands ----------

  /** Pairs of conditions on one bool or tristate symbol of which one condition says as much. */
  predicate MergesUnderOr(a: Sym, e1: Expr, e2: Expr) {
    || (a.Type().Tristate? && e1 == Equal(a, SymYes) && e2 == Equal(a, SymMod))
    || (a.Type().Tristate? && e1 == Equal(a, SymYes) && e2 == Equal(a, SymNo))
    || (a.Type().Tristate? && e1 == Equal(a, SymMod) && e2 == Equal(a, SymNo))
    || (a.Type().Boolean? && e1 == Symbol(a) && e2 == Not(Symbol(a)))
  }

  predicate MergesUnderAnd(a: Sym, e1: Expr, e2: Expr) {
    || (e1 == Symbol(a) && e2 == Equal(a, SymYes))
    || (e1 == Symbol(a) && e2 == Unequal(a, SymNo))
    || (e1 == Symbol(a) && e2 == Unequal(a, SymMod))
    || (a.Type().Tristate? && e1.Equal? && e2.Unequal? && e1.left == a && e2.left == a
        && e1.right.IsConst() && e2.right.IsConst())
    || (a.Type().Tristate? && e1 == Unequal(a, SymYes) && e2 == Unequal(a, SymNo))
    || (a.Type().Tristate? && e1 == Unequal(a, SymYes) && e2 == Unequal(a, SymMod))
    || (a.Type().Tristate? && e1 == Unequal(a, SymMod) && e2 == Unequal(a, SymNo))
  }

  predicate Merges(op: Op, a: Sym, e1: Expr, e2: Expr) {
    a.IsBoolOrTristate() && if op.OrOp? then MergesUnderOr(a, e1, e2) else MergesUnderAnd(a, e1, e2)
  }

  /** Equal operands and such pairs, in either order, are joined. */
  lemma JoinsAll(op: Op, a: Sym, e1: Expr, e2: Expr)
    ensures JoinExprs(op, e1, e1) == Some(e1)
    ensures Merges(op, a, e1, e2) ==> JoinExprs(op, e1, e2).Some? && JoinExprs(op, e2, e1).Some?
  {
    ExprEqReflexive(e1);
    hide ExprEq;
  }

  /** Two operands that are not the same and that do not merge. */
  ghost predicate Differ(op: Op, x: Expr, y: Expr) {
    x != y && forall a :: !Merges(op, a, x, y)
  }

  /** No operand of the spine occurs twice, and no two of them merge. */
  ghost predicate Irredundant(op: Op, e: Expr) {
    forall p: Pos, q: Pos :: IsEnd(op, e, p) && IsEnd(op, e, q) && p != q ==> Differ(op, At(op, e, p), At(op, e, q))
  }

  lemma ApartDiffer(op: Op, e: Expr, p: Pos, q: Pos)
    requires NoJoin(op, e, [], []) && IsEnd(op, e, p) && IsEnd(op, e, q) && p != q
    ensures Differ(op, At(op, e, p), At(op, e, q))
  {
    assert [] + p == p && [] + q == q;
    assert Apart(op, e, p, q);
    hide Merges, JoinExprs;
    forall a ensures !Merges(op, a, At(op, e, p), At(op, e, q)) {
      JoinsAll(op, a, At(op, e, p), At(op, e, q));
    }
    JoinsAll(op, SymNo, At(op, e, p), At(op, e, q));
  }

  lemma NoJoinIrredundant(op: Op, e: Expr)
    requires NoJoin(op, e, [], [])
    ensures Irredundant(op, e)
  {
    forall p: Pos, q: Pos | IsEnd(op, e, p) && IsEnd(op, e, q) && p != q
      ensures Differ(op, At(op, e, p), At(op, e, q))
    {
      hide Differ;
      ApartDiffer(op, e, p, q);
    }
  }

  /** That holds for every conjunction and disjunction in the expression. */
  ghost predicate AllIrredundant(e: Expr) {
    match e
    case Bin(op, l, r) => Irredundant(op, e) && AllIrredundant(l) && AllIrredundant(r)
    case _ => true
  }

  /** Part of a spine without duplicates has none. */
  lemma PartIrredundant(op: Op, e: Expr, d: Dir)
    requires IsOp(op, e) && Irredundant(op, e)
    ensures Irredundant(op, Child(e, d))
  {
    var c := Child(e, d);
    hide Differ;
    forall p: Pos, q: Pos | IsEnd(op, c, p) && IsEnd(op, c, q) && p != q
      ensures Differ(op, At(op, c, p), At(op, c, q))
    {
      assert ([d] + p)[1..] == p && ([d] + q)[1..] == q;
      assert [d] + p != [d] + q;
      assert IsEnd(op, e, [d] + p) && IsEnd(op, e, [d] + q);
    }
  }

  lemma {:induction false} InsideIrredundant(op: Op, e: Expr)
    requires Inside(op, e) && (IsOp(op, e) ==> Irredundant(op, e))
    ensures AllIrredundant(e)
    decreases e
  {
    hide NoJoin, Irredundant;
    if e.Bin? {
      if e.op != op {
        NoJoinIrredundant(e.op, e);
      }
      PartIrredundant(e.op, e, Left);
      PartIrredundant(e.op, e, Right);
      InsideIrredundant(e.op, e.lhs);
      InsideIrredundant(e.op, e.rhs);
    }
  }

  /** expr_eliminate_dups eliminates duplicates: wherever its result is a conjunction or a disjunction, at
      any depth, no operand occurs twice, and no two of them could be merged. */
  lemma NoDuplicatesLeft(e: Expr)
    ensures AllIrredundant(EliminateDups(e))
  {
    EliminateDupsDone(e);
    hide NoJoin, Irredundant, EliminateDups, Dups1, Dups2;
    var r := EliminateDups(e);
    if r.Bin? {
      NoJoinIrredundant(r.op, r);
      InsideIrredundant(r.op, r);
    }
  }

  // ---------- what cancels is gone as well ----------

  /** No end of the spine below the first position cancels with a node below the second one. */
  ghost predicate NoCancel(op: Op, e: Expr, p: Pos, q: Pos)
    requires OnSpine(op, e, p) && OnSpine(op, e, q)
  {
    forall x: Pos, y: Pos :: IsEnd(op, e, p + x) && OnSpine(op, e, q + y) && p + x != q + y ==>
      !Cancels(op, e, p + x, q + y)
  }

  /** A node below an inner node of the spine is that node or below one of its children. */
  lemma {:induction false} NodeBelow(op: Op, e: Expr, p: Pos, x: Pos)
    requires OnSpine(op, e, p) && OnSpine(op, e, p + x)
    ensures x == [] || (IsOp(op, At(op, e, p)) && p + x == (p + [x[0]]) + x[1..])
  {
    if p == [] {
      assert p + x == x;
      if x != [] {
        assert (p + [x[0]]) + x[1..] == x;
      }
    } else {
      assert (p + x)[1..] == p[1..] + x;
      NodeBelow(op, Child(e, p[0]), p[1..], x);
      if x != [] {
        assert (p + [x[0]]) + x[1..] == p + x;
      }
    }
  }

  lemma {:induction false} Dups2Silent(op: Op, e: Expr, p: Pos, q: Pos)
    requires OnSpine(op, e, p) && OnSpine(op, e, q)
    requires Dups2(op, e, p, q).count == 0
    ensures NoCancel(op, e, p, q)
    decreases ShapeSize(ShapeOf(op, At(op, e, p))), ShapeSize(ShapeOf(op, At(op, e, q)))
  {
    hide NoCancel, Cancels;
    if IsOp(op, At(op, e, p)) {
      Extend(op, e, p, Left);
      Extend(op, e, p, Right);
      Dups2Idle(op, e, p + [Left], q);
      SameShape(op, e, e, p + [Right]);
      Dups2Silent(op, e, p + [Left], q);
      Dups2Silent(op, e, p + [Right], q);
      NoCancelFirst(op, e, p, q);
    } else {
      Dups2End(op, e, p, q);
      if IsOp(op, At(op, e, q)) {
        Extend(op, e, q, Left);
        Extend(op, e, q, Right);
        Dups2Idle(op, e, p, q + [Left]);
        SameShape(op, e, e, q + [Right]);
        Dups2Silent(op, e, p, q + [Left]);
        Dups2Silent(op, e, p, q + [Right]);
      }
      NoCancelSecond(op, e, p, q);
    }
  }

  lemma NoCancelFirst(op: Op, e: Expr, p: Pos, q: Pos)
    requires OnSpine(op, e, p) && OnSpine(op, e, q) && IsOp(op, At(op, e, p))
    requires OnSpine(op, e, p + [Left]) && OnSpine(op, e, p + [Right])
    requires NoCancel(op, e, p + [Left], q) && NoCancel(op, e, p + [Right], q)
    ensures NoCancel(op, e, p, q)
  {
    hide OnSpine, Cancels, IsOp;
    forall x: Pos, y: Pos | IsEnd(op, e, p + x) && OnSpine(op, e, q + y) && p + x != q + y
      ensures !Cancels(op, e, p + x, q + y)
    {
      EndBelow(op, e, p, x);
      assert x[0] == Left || x[0] == Right;
    }
  }

  lemma NoCancelSecond(op: Op, e: Expr, p: Pos, q: Pos)
    requires IsEnd(op, e, p) && OnSpine(op, e, q) && (p != q ==> !Cancels(op, e, p, q))
    requires IsOp(op, At(op, e, q)) ==>
      && OnSpine(op, e, q + [Left]) && OnSpine(op, e, q + [Right])
      && NoCancel(op, e, p, q + [Left]) && NoCancel(op, e, p, q + [Right])
    ensures NoCancel(op, e, p, q)
  {
    hide OnSpine, Cancels, IsOp;
    assert p + [] == p && q + [] == q;
    forall x: Pos, y: Pos | IsEnd(op, e, p + x) && OnSpine(op, e, q + y) && p + x != q + y
      ensures !Cancels(op, e, p + x, q + y)
    {
      EndBelow(op, e, p, x);
      NodeBelow(op, e, q, y);
      if y != [] {
        assert y[0] == Left || y[0] == Right;
      }
    }
  }

  /** The second pass at an end of the spine, when it counts nothing. */
  lemma Dups2End(op: Op, e: Expr, p: Pos, q: Pos)
    requires IsEnd(op, e, p) && OnSpine(op, e, q)
    requires Dups2(op, e, p, q).count == 0
    ensures DescendSecond(op, e, p, q).count == 0
    ensures p != q ==> !Cancels(op, e, p, q)
  {
    DescendSecondIdle(op, e, p, q);
    if p != q {
      NotRoot(op, e, p, q);
      PutSame(op, e, p);
      var a := At(op, e, p);
      if a.Bin? && Dups2(a.op, a, [], []).count == 0 {
        Dups2Idle(a.op, a, [], []);
      }
    }
  }

  /** Of the result of expr_eliminate_dups no operand cancels with the rest: whenever an operand is, say, a
      disjunction whose negation is a conjunction of literals, no part of the conjunction that it stands
      in has them all as operands. */
  lemma NothingCancels(e: Expr, p: Pos, q: Pos)
    requires EliminateDups(e).Bin?
    requires IsEnd(EliminateDups(e).op, EliminateDups(e), p) && OnSpine(EliminateDups(e).op, EliminateDups(e), q)
    requires p != q && At(EliminateDups(e).op, EliminateDups(e), p).Bin?
    ensures var r := EliminateDups(e); var op := r.op;
      var n, b := Transform(Not(At(op, r, p))), At(op, r, q);
      LiteralSpine(op, n) && LiteralSpine(op, b) && Open(op, n) && Open(op, b) && Ops(op, n) != multiset{} ==>
        !(Ops(op, n) <= Ops(op, b))
  {
    EliminateDupsDone(e);
    hide EliminateDups, Dups1, Dups2, NoJoin, Done;
    var r := EliminateDups(e);
    var op := r.op;
    var n, b := Transform(Not(At(op, r, p))), At(op, r, q);
    Dups2Silent(op, r, [], []);
    assert [] + p == p && [] + q == q;
    assert !Cancels(op, r, p, q);
    hide Transform, Ops, ExtractEq;
    if LiteralSpine(op, n) && LiteralSpine(op, b) && Open(op, n) && Open(op, b) && Ops(op, n) != multiset{} {
      ExtractsAllIff(op, n, b);
    }
  }
}
