/** The duplicate passes are not exact at m: a whole run on one small expression. */
module DuplicatesWitness {
  import opened Expressions
  import opened EliminateConstants
  import opened ExprEquality
  import opened ExtractCommon
  import opened Transformation
  import opened JoinOperands
  import opened Positions
  import opened Duplicates

  /** The witness: (F || B) && (!F && !B) with F and B at m is m, and is rewritten to n. */
  lemma ModMayBeDecided(env: Env)
    requires WellTyped(env)
    requires env(Config("F", Tristate)).tri == MOD && env(Config("B", Tristate)).tri == MOD
    ensures var f, b := Symbol(Config("F", Tristate)), Symbol(Config("B", Tristate));
      var e := Bin(AndOp, Bin(OrOp, f, b), Bin(AndOp, Not(f), Not(b)));
      Eval(e, env) == MOD && Eval(EliminateDups(e), env) == NO
  {
    var f, b := Symbol(Config("F", Tristate)), Symbol(Config("B", Tristate));
    var e := Bin(AndOp, Bin(OrOp, f, b), Bin(AndOp, Not(f), Not(b)));
    WitnessFirstPass(f, b);
    WitnessSecondPass(f, b);
    var y := Dups2(AndOp, e, [], []);
    assert Round(e) == y;
    assert Eval(e, env) == MOD;
    hide Dups1, Dups2, Round;
    RoundProgress(e);
    EliminateYNKeepsValue(y.expr, env);
    assert Eval(y.expr, env) == NO;
    EliminateDupsDecides(EliminateYN(y.expr), env);
  }

  /** Two operands that are leaves and do not join. */
  lemma IdlePair(op: Op, e: Expr, p: Pos, q: Pos)
    requires OnSpine(op, e, p) && OnSpine(op, e, q) && p != q
    requires !At(op, e, p).Bin? && !IsOp(op, At(op, e, q))
    requires JoinExprs(op, At(op, e, p), At(op, e, q)) == None
    ensures Dups1(op, e, p, q) == Outcome(e, 0)
  {
  }

  predicate DistinctTristates(f: Expr, b: Expr) {
    && f.Symbol? && b.Symbol? && f.sym != b.sym
    && f.sym.Config? && b.sym.Config? && f.sym.ty.Tristate? && b.sym.ty.Tristate?
  }

  lemma WitnessPositions(e: Expr)
    requires IsOp(AndOp, e) && IsOp(AndOp, e.rhs)
    ensures OnSpine(AndOp, e, [Left]) && At(AndOp, e, [Left]) == e.lhs
    ensures OnSpine(AndOp, e, [Right]) && At(AndOp, e, [Right]) == e.rhs
    ensures OnSpine(AndOp, e, [Right, Left]) && At(AndOp, e, [Right, Left]) == e.rhs.lhs
    ensures OnSpine(AndOp, e, [Right, Right]) && At(AndOp, e, [Right, Right]) == e.rhs.rhs
    ensures [] + [Left] == [Left] && [] + [Right] == [Right]
    ensures [Right] + [Left] == [Right, Left] && [Right] + [Right] == [Right, Right]
  {
    assert [Right, Left][1..] == [Left] && [Right, Right][1..] == [Right];
    assert At(AndOp, e.rhs, [Left]) == e.rhs.lhs && At(AndOp, e.rhs, [Right]) == e.rhs.rhs;
  }

  lemma WitnessFirstPass(f: Expr, b: Expr)
    requires DistinctTristates(f, b)
    ensures var e := Bin(AndOp, Bin(OrOp, f, b), Bin(AndOp, Not(f), Not(b)));
      Dups1(AndOp, e, [], []) == Outcome(e, 0)
  {
    var o := Bin(OrOp, f, b);
    var e := Bin(AndOp, o, Bin(AndOp, Not(f), Not(b)));
    var l, r, rl, rr := [Left], [Right], [Right, Left], [Right, Right];
    WitnessPositions(e);
    assert Dups1(OrOp, o, [], []) == Outcome(o, 0) by {
      IdlePair(OrOp, o, l, r);
      IdlePair(OrOp, o, r, l);
      assert Dups1(OrOp, o, l, l) == Outcome(o, 0) == Dups1(OrOp, o, r, r);
      assert Dups1(OrOp, o, l, []) == Outcome(o, 0) == Dups1(OrOp, o, r, []);
    }
    PutSame(AndOp, e, l);
    assert Within1(AndOp, e, l) == Outcome(e, 0);
    assert Dups1(AndOp, e, l, l) == Outcome(e, 0);
    assert Dups1(AndOp, e, l, rl) == Outcome(e, 0) == Dups1(AndOp, e, l, rr);
    assert Dups1(AndOp, e, l, r) == Outcome(e, 0);
    assert Dups1(AndOp, e, l, []) == Outcome(e, 0);
    assert !ExprEq(f, b) && !ExprEq(b, f);
    IdlePair(AndOp, e, rl, l);
    IdlePair(AndOp, e, rl, rr);
    assert Dups1(AndOp, e, rl, r) == Outcome(e, 0);
    assert Dups1(AndOp, e, rl, []) == Outcome(e, 0);
    IdlePair(AndOp, e, rr, l);
    IdlePair(AndOp, e, rr, rl);
    assert Dups1(AndOp, e, rr, r) == Outcome(e, 0);
    assert Dups1(AndOp, e, rr, []) == Outcome(e, 0);
    assert Dups1(AndOp, e, r, []) == Outcome(e, 0);
  }

  lemma WitnessCancels(f: Expr, b: Expr)
    requires DistinctTristates(f, b)
    ensures var o, n := Bin(OrOp, f, b), Bin(AndOp, Not(f), Not(b));
      && Transform(Not(o)) == n
      && ExtractEq(AndOp, n, Not(f)).fst == Not(b)
      && ExtractEq(AndOp, n, Not(b)).fst == Not(f)
      && ExtractEq(AndOp, n, n).fst == Symbol(SymYes)
  {
    var o, n, y := Bin(OrOp, f, b), Bin(AndOp, Not(f), Not(b)), Symbol(SymYes);
    assert Transform(o) == o;
    assert Transform(Not(f)) == Not(f) && Transform(Not(b)) == Not(b);
    assert Transform(Not(o)) == Transform(n) == n;
    assert ExprEq(f, f) && ExprEq(b, b) && !ExprEq(f, b) && !ExprEq(b, f);
    var nf, nb := Not(f), Not(b);
    assert ExtractOperands(AndOp, None, nf, nf) == Extraction(Some(nf), y, y);
    assert ExtractOperands(AndOp, None, n, nf) == Extraction(Some(nf), Bin(AndOp, y, nb), y);
    assert ExtractOperands(AndOp, None, nf, nb) == Extraction(None, nf, nb);
    assert ExtractOperands(AndOp, None, nb, nb) == Extraction(Some(nb), y, y);
    assert ExtractOperands(AndOp, None, n, nb) == Extraction(Some(nb), Bin(AndOp, nf, y), y);
    assert ExtractOperands(AndOp, Some(nf), y, nb) == Extraction(Some(nf), y, nb);
    assert ExtractOperands(AndOp, None, nf, n) == Extraction(Some(nf), y, Bin(AndOp, y, nb));
    assert ExtractOperands(AndOp, Some(nf), nb, y) == Extraction(Some(nf), nb, y);
    assert ExtractOperands(AndOp, Some(nf), nb, nb) == Extraction(Some(Bin(AndOp, nf, nb)), y, y);
    assert ExtractOperands(AndOp, Some(nf), nb, Bin(AndOp, y, nb)).fst == y;
    assert ExtractOperands(AndOp, None, n, n).fst == Bin(AndOp, y, y);
    assert EliminateYN(Bin(AndOp, y, nb)) == nb && EliminateYN(Bin(AndOp, nf, y)) == nf;
  }

  /** The pair that cancels: the first operand against the inner node that holds the others. */
  lemma WitnessSecondPass(f: Expr, b: Expr)
    requires DistinctTristates(f, b)
    ensures var e := Bin(AndOp, Bin(OrOp, f, b), Bin(AndOp, Not(f), Not(b)));
      Dups2(AndOp, e, [], []) == Outcome(Bin(AndOp, Symbol(SymNo), e.rhs), 1)
  {
    var o, n := Bin(OrOp, f, b), Bin(AndOp, Not(f), Not(b));
    var e := Bin(AndOp, o, n);
    var e' := Bin(AndOp, Symbol(SymNo), n);
    var l, r, rl, rr := [Left], [Right], [Right, Left], [Right, Right];
    WitnessPositions(e);
    WitnessPositions(e');
    WitnessInner(f, b);
    WitnessCancels(f, b);
    PutSame(AndOp, e, l);
    hide Transform, ExtractEq, EliminateYN;
    assert Within2(AndOp, e, l) == Outcome(e, 0);
    assert Dups2(AndOp, e, l, l) == Outcome(e, 0);
    assert Dups2(AndOp, e, l, rl) == Outcome(e, 0) by {
      assert DescendSecond(AndOp, e, l, rl) == Outcome(e, 0);
      assert !Cancels(AndOp, e, l, rl);
    }
    assert Dups2(AndOp, e, l, rr) == Outcome(e, 0) by {
      assert DescendSecond(AndOp, e, l, rr) == Outcome(e, 0);
      assert !Cancels(AndOp, e, l, rr);
    }
    assert Dups2(AndOp, e, l, r) == Outcome(e', 1) by {
      assert DescendSecond(AndOp, e, l, r) == Outcome(e, 0);
      assert Cancels(AndOp, e, l, r);
      assert Put(AndOp, e, l, Symbol(SymNo)) == e';
    }
    assert DescendSecond(AndOp, e, l, []) == Outcome(e', 1);
    assert Dups2(AndOp, e, l, []) == Outcome(e', 1) by {
      assert !At(AndOp, e', l).Bin?;
    }
    assert Dups2(AndOp, e', r, []) == Outcome(e', 0) by {
      IdleLeaf(AndOp, e', rl, []);
      IdleLeaf(AndOp, e', rr, []);
    }
  }

  /** The second pass leaves a leaf alone. */
  lemma {:induction false} IdleLeaf(op: Op, e: Expr, p: Pos, q: Pos)
    requires OnSpine(op, e, p) && OnSpine(op, e, q)
    requires !At(op, e, p).Bin?
    ensures Dups2(op, e, p, q) == Outcome(e, 0)
    decreases ShapeSize(ShapeOf(op, At(op, e, q)))
  {
    if IsOp(op, At(op, e, q)) {
      Extend(op, e, q, Left);
      Extend(op, e, q, Right);
      IdleLeaf(op, e, p, q + [Left]);
      IdleLeaf(op, e, p, q + [Right]);
    }
  }

  lemma WitnessInner(f: Expr, b: Expr)
    requires f.Symbol? && b.Symbol?
    ensures Dups2(OrOp, Bin(OrOp, f, b), [], []) == Outcome(Bin(OrOp, f, b), 0)
  {
    var o := Bin(OrOp, f, b);
    assert [] + [Left] == [Left] && [] + [Right] == [Right];
    assert [Left][1..] == [] && [Right][1..] == [];
    IdleLeaf(OrOp, o, [Left], []);
    IdleLeaf(OrOp, o, [Right], []);
  }
}
