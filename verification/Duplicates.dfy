/** expr_eliminate_dups: the two duplicate passes and the loop around them. */
module Duplicates {
  import opened Expressions
  import opened EliminateConstants
  import opened ExprEquality
  import opened ExtractCommon
  import opened Transformation
  import opened JoinOperands
  import opened Positions

  /** A rewritten tree and how often trans_count was raised. */
  datatype Outcome = Outcome(expr: Expr, count: nat)

  /** expr_eliminate_dups1 on the addresses `p` and `q` inside `e`. */
  function Dups1(op: Op, e: Expr, p: Pos, q: Pos): (r: Outcome)
    requires OnSpine(op, e, p) && OnSpine(op, e, q)
    ensures ShapeOf(op, r.expr) == ShapeOf(op, e)
    ensures Size(r.expr) <= Size(e)
    decreases Size(e), ShapeSize(ShapeOf(op, At(op, e, p))), ShapeSize(ShapeOf(op, At(op, e, q)))
  {
    if IsOp(op, At(op, e, p)) then
      Extend(op, e, p, Left);
      Extend(op, e, p, Right);
      var x := Dups1(op, e, p + [Left], q);
      SameShape(op, e, x.expr, p + [Right]);
      SameShape(op, e, x.expr, q);
      var y := Dups1(op, x.expr, p + [Right], q);
      Outcome(y.expr, x.count + y.count)
    else if IsOp(op, At(op, e, q)) then
      Extend(op, e, q, Left);
      Extend(op, e, q, Right);
      var x := Dups1(op, e, p, q + [Left]);
      SameShape(op, e, x.expr, q + [Right]);
      SameShape(op, e, x.expr, p);
      var y := Dups1(op, x.expr, p, q + [Right]);
      Outcome(y.expr, x.count + y.count)
    else if p == q then Outcome(e, 0)
    else
      EndsApart(op, e, p, q);
      var x := Within1(op, e, p);
      SameShape(op, e, x.expr, q);
      TryJoin(op, x.expr, x.count, p, q)
  }

  /** An operand of the opposite operator is simplified on its own first. */
  function Within1(op: Op, e: Expr, p: Pos): (r: Outcome)
    requires OnSpine(op, e, p) && p != [] && !IsOp(op, At(op, e, p))
    ensures ShapeOf(op, r.expr) == ShapeOf(op, e) && Size(r.expr) <= Size(e)
    ensures OnSpine(op, r.expr, p) && !IsOp(op, At(op, r.expr, p))
    ensures r.expr == Put(op, e, p, At(op, r.expr, p))
    decreases Size(e), 0, 0, 0
  {
    var a := At(op, e, p);
    PutSizes(op, e, p, a);
    PutSame(op, e, p);
    if !a.Bin? then Outcome(e, 0)
    else
      var x := Dups1(a.op, a, [], []);
      PutShape(op, e, p, x.expr);
      PutSizes(op, e, p, x.expr);
      AtPut(op, e, p, x.expr);
      Outcome(Put(op, e, p, x.expr), x.count)
  }

  function TryJoin(op: Op, e: Expr, count: nat, p: Pos, q: Pos): (r: Outcome)
    requires OnSpine(op, e, p) && OnSpine(op, e, q) && p != q && p != [] && q != []
    requires !IsOp(op, At(op, e, p)) && !IsOp(op, At(op, e, q))
    ensures ShapeOf(op, r.expr) == ShapeOf(op, e) && Size(r.expr) <= Size(e)
  {
    var a, b := At(op, e, p), At(op, e, q);
    var t := JoinExprs(op, a, b);
    if t.None? then Outcome(e, count)
    else
      JoinShape(op, a, b);
      var s := Put(op, e, p, UnitExpr(op));
      PutShape(op, e, p, UnitExpr(op));
      PutSizes(op, e, p, UnitExpr(op));
      AtPutOther(op, e, p, q, UnitExpr(op));
      PutShape(op, s, q, t.value);
      PutSizes(op, s, q, t.value);
      Outcome(Put(op, s, q, t.value), count + 1)
  }

  lemma {:induction false} PutSame(op: Op, e: Expr, p: Pos)
    requires OnSpine(op, e, p)
    ensures Put(op, e, p, At(op, e, p)) == e
  {
    if p != [] {
      PutSame(op, Child(e, p[0]), p[1..]);
    }
  }

  /** Different ends of one spine are not its root. */
  lemma EndsApart(op: Op, e: Expr, p: Pos, q: Pos)
    requires OnSpine(op, e, p) && OnSpine(op, e, q) && p != q
    requires !IsOp(op, At(op, e, p)) && !IsOp(op, At(op, e, q))
    ensures p != [] && q != []
  {
  }

  /** expr_eliminate_dups2. After the descent into the second argument there is no return: the
      test below is also made with an inner node of the spine as second argument. */
  function Dups2(op: Op, e: Expr, p: Pos, q: Pos): (r: Outcome)
    requires OnSpine(op, e, p) && OnSpine(op, e, q)
    ensures ShapeOf(op, r.expr) == ShapeOf(op, e)
    ensures Size(r.expr) <= Size(e)
    decreases Size(e), ShapeSize(ShapeOf(op, At(op, e, p))), ShapeSize(ShapeOf(op, At(op, e, q)))
  {
    if IsOp(op, At(op, e, p)) then
      Extend(op, e, p, Left);
      Extend(op, e, p, Right);
      var x := Dups2(op, e, p + [Left], q);
      SameShape(op, e, x.expr, p + [Right]);
      SameShape(op, e, x.expr, q);
      var y := Dups2(op, x.expr, p + [Right], q);
      Outcome(y.expr, x.count + y.count)
    else
      var x := DescendSecond(op, e, p, q);
      SameShape(op, e, x.expr, p);
      SameShape(op, e, x.expr, q);
      if p == q then x
      else
        NotRoot(op, e, p, q);
        var y := Within2(op, x.expr, p);
        SameShape(op, x.expr, y.expr, q);
        var z := TryCancel(op, y.expr, p, q);
        Outcome(z.expr, x.count + y.count + z.count)
  }

  function DescendSecond(op: Op, e: Expr, p: Pos, q: Pos): (r: Outcome)
    requires OnSpine(op, e, p) && OnSpine(op, e, q) && !IsOp(op, At(op, e, p))
    ensures ShapeOf(op, r.expr) == ShapeOf(op, e) && Size(r.expr) <= Size(e)
    decreases Size(e), ShapeSize(ShapeOf(op, At(op, e, p))), ShapeSize(ShapeOf(op, At(op, e, q))), 0
  {
    if !IsOp(op, At(op, e, q)) then Outcome(e, 0)
    else
      Extend(op, e, q, Left);
      Extend(op, e, q, Right);
      var x := Dups2(op, e, p, q + [Left]);
      SameShape(op, e, x.expr, q + [Right]);
      SameShape(op, e, x.expr, p);
      var y := Dups2(op, x.expr, p, q + [Right]);
      Outcome(y.expr, x.count + y.count)
  }

  /** An end of the spine that differs from another position is not the root. */
  lemma NotRoot(op: Op, e: Expr, p: Pos, q: Pos)
    requires OnSpine(op, e, p) && OnSpine(op, e, q) && p != q && !IsOp(op, At(op, e, p))
    ensures p != []
  {
  }

  function Within2(op: Op, e: Expr, p: Pos): (r: Outcome)
    requires OnSpine(op, e, p) && p != [] && !IsOp(op, At(op, e, p))
    ensures ShapeOf(op, r.expr) == ShapeOf(op, e) && Size(r.expr) <= Size(e)
    ensures OnSpine(op, r.expr, p) && !IsOp(op, At(op, r.expr, p))
    ensures r.expr == Put(op, e, p, At(op, r.expr, p))
    decreases Size(e), 0, 0, 0
  {
    var a := At(op, e, p);
    PutSizes(op, e, p, a);
    PutSame(op, e, p);
    if !a.Bin? then Outcome(e, 0)
    else
      var x := Dups2(a.op, a, [], []);
      PutShape(op, e, p, x.expr);
      PutSizes(op, e, p, x.expr);
      AtPut(op, e, p, x.expr);
      Outcome(Put(op, e, p, x.expr), x.count)
  }

  /** The guard of expr.c:581 and 596: every operand of the negation of the node at `p` is also
      an operand of the node at `q`. */
  predicate Cancels(op: Op, e: Expr, p: Pos, q: Pos)
    requires OnSpine(op, e, p) && OnSpine(op, e, q)
  {
    At(op, e, p).Bin? && ExtractEq(op, Transform(Not(At(op, e, p))), At(op, e, q)).fst == UnitExpr(op)
  }

  /** (FOO || BAR) && (!FOO && !BAR) -> n, and its dual. */
  function TryCancel(op: Op, e: Expr, p: Pos, q: Pos): (r: Outcome)
    requires OnSpine(op, e, p) && OnSpine(op, e, q) && !IsOp(op, At(op, e, p))
    ensures ShapeOf(op, r.expr) == ShapeOf(op, e) && Size(r.expr) <= Size(e)
  {
    if !Cancels(op, e, p, q) then Outcome(e, 0)
    else
      PutShape(op, e, p, UnitExpr(Other(op)));
      PutSizes(op, e, p, UnitExpr(Other(op)));
      Outcome(Put(op, e, p, UnitExpr(Other(op))), 1)
  }

  // ---------- the first pass is exact ----------

  /** expr_eliminate_dups1 keeps the value in every well-typed environment. */
  lemma {:induction false} Dups1KeepsValue(op: Op, e: Expr, p: Pos, q: Pos, env: Env)
    requires WellTyped(env)
    requires OnSpine(op, e, p) && OnSpine(op, e, q)
    ensures Eval(Dups1(op, e, p, q).expr, env) == Eval(e, env)
    decreases Size(e), ShapeSize(ShapeOf(op, At(op, e, p))), ShapeSize(ShapeOf(op, At(op, e, q)))
  {
    if IsOp(op, At(op, e, p)) {
      Extend(op, e, p, Left);
      Extend(op, e, p, Right);
      Dups1KeepsValue(op, e, p + [Left], q, env);
      var x := Dups1(op, e, p + [Left], q);
      SameShape(op, e, x.expr, p + [Right]);
      SameShape(op, e, x.expr, q);
      Dups1KeepsValue(op, x.expr, p + [Right], q, env);
    } else if IsOp(op, At(op, e, q)) {
      Extend(op, e, q, Left);
      Extend(op, e, q, Right);
      Dups1KeepsValue(op, e, p, q + [Left], env);
      var x := Dups1(op, e, p, q + [Left]);
      SameShape(op, e, x.expr, q + [Right]);
      SameShape(op, e, x.expr, p);
      Dups1KeepsValue(op, x.expr, p, q + [Right], env);
    } else if p != q {
      var a := At(op, e, p);
      EndsApart(op, e, p, q);
      PutSizes(op, e, p, a);
      if a.Bin? {
        Dups1KeepsValue(a.op, a, [], [], env);
      }
      Within1KeepsValue(op, e, p, env);
      var x := Within1(op, e, p);
      SameShape(op, e, x.expr, q);
      TryJoinKeepsValue(op, x.expr, x.count, p, q, env);
    }
  }

  lemma Within1KeepsValue(op: Op, e: Expr, p: Pos, env: Env)
    requires OnSpine(op, e, p) && p != [] && !IsOp(op, At(op, e, p))
    requires At(op, e, p).Bin? ==>
      Eval(Dups1(At(op, e, p).op, At(op, e, p), [], []).expr, env) == Eval(At(op, e, p), env)
    ensures Eval(Within1(op, e, p).expr, env) == Eval(e, env)
  {
    var a := At(op, e, p);
    if a.Bin? {
      var x := Dups1(a.op, a, [], []).expr;
      AtPut(op, e, p, x);
      SpineValue(op, e, p, x, env);
    }
  }

  lemma TryJoinKeepsValue(op: Op, e: Expr, count: nat, p: Pos, q: Pos, env: Env)
    requires WellTyped(env)
    requires OnSpine(op, e, p) && OnSpine(op, e, q) && p != q && p != [] && q != []
    requires !IsOp(op, At(op, e, p)) && !IsOp(op, At(op, e, q))
    ensures Eval(TryJoin(op, e, count, p, q).expr, env) == Eval(e, env)
  {
    var t := JoinExprs(op, At(op, e, p), At(op, e, q));
    if t.Some? {
      JoinExact(op, At(op, e, p), At(op, e, q), env);
      PutTwoKeepsValue(op, e, p, q, UnitExpr(op), t.value, env);
    }
  }

  // ---------- the second pass decides m, and nothing else ----------

  /** Reading m as "undecided": the new value is the old one, unless the old one was m. */
  predicate Decides(old_: Tri, new_: Tri) {
    old_ != MOD ==> new_ == old_
  }

  /** The connectives are monotone in that order. */
  lemma {:induction false} PutDecides(op: Op, e: Expr, p: Pos, x: Expr, env: Env)
    requires OnSpine(op, e, p)
    requires Decides(Eval(At(op, e, p), env), Eval(x, env))
    ensures Decides(Eval(e, env), Eval(Put(op, e, p, x), env))
  {
    SpineValue(op, e, p, x, env);
  }

  /** A node of the spine bounds the whole from above under && and from below under ||. */
  lemma SpineBound(op: Op, e: Expr, p: Pos, env: Env)
    requires OnSpine(op, e, p)
    ensures Join(op, Eval(At(op, e, p), env), Eval(e, env)) == Eval(e, env)
  {
    SpineValue(op, e, p, At(op, e, p), env);
  }

  /** When the guard of the cancelling step holds, the step writes n (under &&; y under ||) for
      the whole spine. Its value was that constant or m, so the step is right exactly in the
      environments in which the spine is not m. */
  lemma CancelExactUnlessMod(op: Op, e: Expr, p: Pos, q: Pos, env: Env)
    requires WellTyped(env)
    requires OnSpine(op, e, p) && OnSpine(op, e, q) && !IsOp(op, At(op, e, p))
    requires Cancels(op, e, p, q)
    ensures Eval(TryCancel(op, e, p, q).expr, env) == Unit(Other(op))
    ensures Eval(TryCancel(op, e, p, q).expr, env) == Eval(e, env) <==> Eval(e, env) != MOD
  {
    var a := At(op, e, p);
    var n := Transform(Not(a));
    TransformKeepsValue(Not(a), env);
    ExtractEqRebuilds(op, n, At(op, e, q), env);
    SpineBound(op, e, p, env);
    SpineBound(op, e, q, env);
    SpineValue(op, e, p, UnitExpr(Other(op)), env);
  }

  /** expr_eliminate_dups2 in every well-typed environment: an expression at n or y keeps its
      value, and one at m may become decided. */
  lemma {:induction false} Dups2Decides(op: Op, e: Expr, p: Pos, q: Pos, env: Env)
    requires WellTyped(env)
    requires OnSpine(op, e, p) && OnSpine(op, e, q)
    ensures Decides(Eval(e, env), Eval(Dups2(op, e, p, q).expr, env))
    decreases Size(e), ShapeSize(ShapeOf(op, At(op, e, p))), ShapeSize(ShapeOf(op, At(op, e, q))), 1
  {
    if IsOp(op, At(op, e, p)) {
      Extend(op, e, p, Left);
      Extend(op, e, p, Right);
      Dups2Decides(op, e, p + [Left], q, env);
      var x := Dups2(op, e, p + [Left], q);
      SameShape(op, e, x.expr, p + [Right]);
      SameShape(op, e, x.expr, q);
      Dups2Decides(op, x.expr, p + [Right], q, env);
    } else {
      DescendSecondDecides(op, e, p, q, env);
      var x := DescendSecond(op, e, p, q);
      SameShape(op, e, x.expr, p);
      SameShape(op, e, x.expr, q);
      if p != q {
        NotRoot(op, e, p, q);
        var a := At(op, x.expr, p);
        PutSizes(op, x.expr, p, a);
        if a.Bin? {
          Dups2Decides(a.op, a, [], [], env);
        }
        Within2Decides(op, x.expr, p, env);
        var y := Within2(op, x.expr, p);
        SameShape(op, x.expr, y.expr, q);
        if Cancels(op, y.expr, p, q) {
          CancelExactUnlessMod(op, y.expr, p, q, env);
        }
      }
    }
  }

  lemma {:induction false} DescendSecondDecides(op: Op, e: Expr, p: Pos, q: Pos, env: Env)
    requires WellTyped(env)
    requires OnSpine(op, e, p) && OnSpine(op, e, q) && !IsOp(op, At(op, e, p))
    ensures Decides(Eval(e, env), Eval(DescendSecond(op, e, p, q).expr, env))
    decreases Size(e), ShapeSize(ShapeOf(op, At(op, e, p))), ShapeSize(ShapeOf(op, At(op, e, q))), 0
  {
    if IsOp(op, At(op, e, q)) {
      Extend(op, e, q, Left);
      Extend(op, e, q, Right);
      Dups2Decides(op, e, p, q + [Left], env);
      var x := Dups2(op, e, p, q + [Left]);
      SameShape(op, e, x.expr, q + [Right]);
      SameShape(op, e, x.expr, p);
      Dups2Decides(op, x.expr, p, q + [Right], env);
    }
  }

  lemma Within2Decides(op: Op, e: Expr, p: Pos, env: Env)
    requires OnSpine(op, e, p) && p != [] && !IsOp(op, At(op, e, p))
    requires At(op, e, p).Bin? ==>
      Decides(Eval(At(op, e, p), env), Eval(Dups2(At(op, e, p).op, At(op, e, p), [], []).expr, env))
    ensures Decides(Eval(e, env), Eval(Within2(op, e, p).expr, env))
  {
    var a := At(op, e, p);
    if a.Bin? {
      PutDecides(op, e, p, Dups2(a.op, a, [], []).expr, env);
    }
  }

  // ---------- every counted change is a step forward ----------

  /** What the two passes do to the leaves, the reachable constants and the normal form. */
  predicate Progress(e: Expr, r: Outcome) {
    && Leaves(r.expr) <= Leaves(e)
    && (r.count > 0 || HasYN(e) ==> HasYN(r.expr))
    && (Normal(e) ==> Normal(r.expr))
  }

  lemma {:induction false} PutKeepsNormal(op: Op, e: Expr, p: Pos, x: Expr)
    requires OnSpine(op, e, p) && Normal(e)
    ensures Normal(At(op, e, p))
    ensures Normal(x) ==> Normal(Put(op, e, p, x))
  {
    if p != [] {
      PutKeepsNormal(op, Child(e, p[0]), p[1..], x);
    }
  }

  lemma {:induction false} InnerYN(op: Op, e: Expr, p: Pos)
    requires OnSpine(op, e, p) && HasYN(At(op, e, p))
    ensures HasYN(e)
  {
    if p != [] {
      InnerYN(op, Child(e, p[0]), p[1..]);
    }
  }

  /** Simplifying an operand on its own. */
  lemma WithinProgress(op: Op, e: Expr, p: Pos, x: Outcome)
    requires OnSpine(op, e, p) && p != [] && At(op, e, p).Bin?
    requires Progress(At(op, e, p), x)
    ensures Progress(e, Outcome(Put(op, e, p, x.expr), x.count))
  {
    PutSizes(op, e, p, x.expr);
    if HasYN(x.expr) {
      AtPut(op, e, p, x.expr);
      InnerYN(op, Put(op, e, p, x.expr), p);
    } else if HasYN(e) {
      PutKeepsYN(op, e, p, x.expr);
    }
    if Normal(e) {
      PutKeepsNormal(op, e, p, x.expr);
    }
  }

  lemma {:induction false} Dups1Progress(op: Op, e: Expr, p: Pos, q: Pos)
    requires OnSpine(op, e, p) && OnSpine(op, e, q)
    ensures Progress(e, Dups1(op, e, p, q))
    decreases Size(e), ShapeSize(ShapeOf(op, At(op, e, p))), ShapeSize(ShapeOf(op, At(op, e, q)))
  {
    if IsOp(op, At(op, e, p)) {
      Extend(op, e, p, Left);
      Extend(op, e, p, Right);
      Dups1Progress(op, e, p + [Left], q);
      var x := Dups1(op, e, p + [Left], q);
      SameShape(op, e, x.expr, p + [Right]);
      SameShape(op, e, x.expr, q);
      Dups1Progress(op, x.expr, p + [Right], q);
    } else if IsOp(op, At(op, e, q)) {
      Extend(op, e, q, Left);
      Extend(op, e, q, Right);
      Dups1Progress(op, e, p, q + [Left]);
      var x := Dups1(op, e, p, q + [Left]);
      SameShape(op, e, x.expr, q + [Right]);
      SameShape(op, e, x.expr, p);
      Dups1Progress(op, x.expr, p, q + [Right]);
    } else if p != q {
      EndsApart(op, e, p, q);
      var a := At(op, e, p);
      PutSizes(op, e, p, a);
      if a.Bin? {
        Dups1Progress(a.op, a, [], []);
        WithinProgress(op, e, p, Dups1(a.op, a, [], []));
      }
      var x := Within1(op, e, p);
      SameShape(op, e, x.expr, q);
      TryJoinProgress(op, x.expr, x.count, p, q);
    }
  }

  lemma TryJoinProgress(op: Op, e: Expr, count: nat, p: Pos, q: Pos)
    requires OnSpine(op, e, p) && OnSpine(op, e, q) && p != q && p != [] && q != []
    requires !IsOp(op, At(op, e, p)) && !IsOp(op, At(op, e, q))
    requires count > 0 ==> HasYN(e)
    ensures Progress(e, TryJoin(op, e, count, p, q))
  {
    var a, b := At(op, e, p), At(op, e, q);
    var t := JoinExprs(op, a, b);
    if t.Some? {
      JoinShape(op, a, b);
      var u := UnitExpr(op);
      var s := Put(op, e, p, u);
      PutSizes(op, e, p, u);
      AtPut(op, e, p, u);
      AtPutOther(op, e, p, q, u);
      PutSizes(op, s, q, t.value);
      AtPutOther(op, s, q, p, t.value);
      AtYN(op, Put(op, s, q, t.value), p);
      if Normal(e) {
        PutKeepsNormal(op, e, p, u);
        PutKeepsNormal(op, e, q, u);
        PutKeepsNormal(op, s, q, t.value);
      }
    }
  }

  lemma {:induction false} AtYN(op: Op, e: Expr, p: Pos)
    requires OnSpine(op, e, p) && p != [] && IsYN(At(op, e, p))
    ensures HasYN(e)
  {
    if p[1..] == [] {
      assert At(op, e, p) == Child(e, p[0]);
    } else {
      AtYN(op, Child(e, p[0]), p[1..]);
    }
  }

  lemma {:induction false} Dups2Progress(op: Op, e: Expr, p: Pos, q: Pos)
    requires OnSpine(op, e, p) && OnSpine(op, e, q)
    ensures Progress(e, Dups2(op, e, p, q))
    decreases Size(e), ShapeSize(ShapeOf(op, At(op, e, p))), ShapeSize(ShapeOf(op, At(op, e, q))), 1
  {
    if IsOp(op, At(op, e, p)) {
      Extend(op, e, p, Left);
      Extend(op, e, p, Right);
      Dups2Progress(op, e, p + [Left], q);
      var x := Dups2(op, e, p + [Left], q);
      SameShape(op, e, x.expr, p + [Right]);
      SameShape(op, e, x.expr, q);
      Dups2Progress(op, x.expr, p + [Right], q);
    } else {
      DescendSecondProgress(op, e, p, q);
      var x := DescendSecond(op, e, p, q);
      SameShape(op, e, x.expr, p);
      SameShape(op, e, x.expr, q);
      if p != q {
        NotRoot(op, e, p, q);
        var a := At(op, x.expr, p);
        PutSizes(op, x.expr, p, a);
        if a.Bin? {
          Dups2Progress(a.op, a, [], []);
          WithinProgress(op, x.expr, p, Dups2(a.op, a, [], []));
        }
        var y := Within2(op, x.expr, p);
        SameShape(op, x.expr, y.expr, q);
        TryCancelProgress(op, y.expr, p, q);
      }
    }
  }

  lemma {:induction false} DescendSecondProgress(op: Op, e: Expr, p: Pos, q: Pos)
    requires OnSpine(op, e, p) && OnSpine(op, e, q) && !IsOp(op, At(op, e, p))
    ensures Progress(e, DescendSecond(op, e, p, q))
    decreases Size(e), ShapeSize(ShapeOf(op, At(op, e, p))), ShapeSize(ShapeOf(op, At(op, e, q))), 0
  {
    if IsOp(op, At(op, e, q)) {
      Extend(op, e, q, Left);
      Extend(op, e, q, Right);
      Dups2Progress(op, e, p, q + [Left]);
      var x := Dups2(op, e, p, q + [Left]);
      SameShape(op, e, x.expr, q + [Right]);
      SameShape(op, e, x.expr, p);
      Dups2Progress(op, x.expr, p, q + [Right]);
    }
  }

  lemma TryCancelProgress(op: Op, e: Expr, p: Pos, q: Pos)
    requires OnSpine(op, e, p) && OnSpine(op, e, q) && p != [] && !IsOp(op, At(op, e, p))
    ensures Progress(e, TryCancel(op, e, p, q))
  {
    if Cancels(op, e, p, q) {
      var u := UnitExpr(Other(op));
      PutSizes(op, e, p, u);
      PutKeepsYN(op, e, p, u);
      if Normal(e) {
        PutKeepsNormal(op, e, p, u);
      }
    }
  }

  // ---------- the loop ----------

  /** One round: both passes, each with the address of the whole tree as both arguments. */
  function Round(e: Expr): (r: Outcome)
    requires e.Bin?
  {
    var x := Dups1(e.op, e, [], []);
    var y := Dups2(e.op, x.expr, [], []);
    Outcome(y.expr, x.count + y.count)
  }

  /** expr_eliminate_dups. The rounds end because a counted round, followed by the elimination of
      constants, leaves fewer leaves. */
  function EliminateDups(e: Expr): Expr
    decreases Leaves(e)
  {
    if !e.Bin? then e
    else
      var r := Round(e);
      RoundProgress(e);
      EliminateYNShrinks(r.expr);
      if r.count == 0 then r.expr else EliminateDups(EliminateYN(r.expr))
  }

  /** No pass increases the number of leaves, and a round that counts a change has fewer after
      expr_eliminate_yn: the termination argument of the loop in expr_eliminate_dups. */
  lemma RoundProgress(e: Expr)
    requires e.Bin?
    ensures Progress(e, Round(e))
    ensures Round(e).count > 0 ==> Leaves(EliminateYN(Round(e).expr)) < Leaves(e)
  {
    Dups1Progress(e.op, e, [], []);
    Dups2Progress(e.op, Dups1(e.op, e, [], []).expr, [], []);
    EliminateYNShrinks(Round(e).expr);
  }

  /** The loop as written, with its change counter. */
  method EliminateDupsLoop(e: Expr) returns (r: Expr)
    ensures r == EliminateDups(e)
  {
    r := e;
    while true
      invariant EliminateDups(r) == EliminateDups(e)
      decreases Leaves(r)
    {
      var transCount := 0;
      ghost var r0 := r;
      if r.Bin? {
        RoundProgress(r);
        var op := r.op;
        var x := Dups1(op, r, [], []);
        var y := Dups2(op, x.expr, [], []);
        r, transCount := y.expr, x.count + y.count;
      }
      if transCount == 0 {
        assert EliminateDups(r0) == r;
        return;
      }
      r := EliminateYN(r);
    }
  }

  /** In every well-typed environment simplification keeps n and y; only an m may be decided. */
  lemma {:induction false} EliminateDupsDecides(e: Expr, env: Env)
    requires WellTyped(env)
    ensures Decides(Eval(e, env), Eval(EliminateDups(e), env))
    decreases Leaves(e)
  {
    if e.Bin? {
      var x := Dups1(e.op, e, [], []);
      Dups1KeepsValue(e.op, e, [], [], env);
      Dups2Decides(e.op, x.expr, [], [], env);
      var r := Round(e);
      RoundProgress(e);
      if r.count > 0 {
        EliminateYNKeepsValue(r.expr, env);
        EliminateDupsDecides(EliminateYN(r.expr), env);
      }
    }
  }

  /** With no symbol at m, expr_eliminate_dups keeps the value. */
  lemma EliminateDupsKeepsValue(e: Expr, env: Env)
    requires WellTyped(env) && NoMod(e, env)
    ensures Eval(EliminateDups(e), env) == Eval(e, env)
  {
    NoModIsTwoValued(e, env);
    EliminateDupsDecides(e, env);
  }

  lemma {:induction false} EliminateYNKeepsNormal(e: Expr)
    requires Normal(e)
    ensures Normal(EliminateYN(e))
  {
    match e
    case Bin(_, l, r) =>
      EliminateYNKeepsNormal(l);
      EliminateYNKeepsNormal(r);
    case _ =>
  }

  lemma {:induction false} EliminateDupsKeepsNormal(e: Expr)
    requires Normal(e)
    ensures Normal(EliminateDups(e))
    decreases Leaves(e)
  {
    if e.Bin? {
      var r := Round(e);
      RoundProgress(e);
      if r.count > 0 {
        EliminateYNKeepsNormal(r.expr);
        EliminateDupsKeepsNormal(EliminateYN(r.expr));
      }
    }
  }

  // ---------- runs in which nothing cancels ----------

  /** A second pass that counts no change makes none. */
  lemma {:induction false} Dups2Idle(op: Op, e: Expr, p: Pos, q: Pos)
    requires OnSpine(op, e, p) && OnSpine(op, e, q)
    requires Dups2(op, e, p, q).count == 0
    ensures Dups2(op, e, p, q).expr == e
    decreases Size(e), ShapeSize(ShapeOf(op, At(op, e, p))), ShapeSize(ShapeOf(op, At(op, e, q))), 1
  {
    if IsOp(op, At(op, e, p)) {
      Extend(op, e, p, Left);
      Extend(op, e, p, Right);
      Dups2Idle(op, e, p + [Left], q);
      SameShape(op, e, e, p + [Right]);
      Dups2Idle(op, e, p + [Right], q);
    } else {
      DescendSecondIdle(op, e, p, q);
      if p != q {
        NotRoot(op, e, p, q);
        var a := At(op, e, p);
        PutSizes(op, e, p, a);
        PutSame(op, e, p);
        if a.Bin? {
          Dups2Idle(a.op, a, [], []);
        }
      }
    }
  }

  lemma {:induction false} DescendSecondIdle(op: Op, e: Expr, p: Pos, q: Pos)
    requires OnSpine(op, e, p) && OnSpine(op, e, q) && !IsOp(op, At(op, e, p))
    requires DescendSecond(op, e, p, q).count == 0
    ensures DescendSecond(op, e, p, q).expr == e
    decreases Size(e), ShapeSize(ShapeOf(op, At(op, e, p))), ShapeSize(ShapeOf(op, At(op, e, q))), 0
  {
    if IsOp(op, At(op, e, q)) {
      Extend(op, e, q, Left);
      Extend(op, e, q, Right);
      Dups2Idle(op, e, p, q + [Left]);
      Dups2Idle(op, e, p, q + [Right]);
    }
  }

  /** The loop of expr_eliminate_dups without its second pass. */
  function FirstPassOnly(e: Expr): Expr
    decreases Leaves(e)
  {
    if !e.Bin? then e
    else
      var x := Dups1(e.op, e, [], []);
      Dups1Progress(e.op, e, [], []);
      EliminateYNShrinks(x.expr);
      if x.count == 0 then x.expr else FirstPassOnly(EliminateYN(x.expr))
  }

  /** It keeps the value in every well-typed tristate environment, whatever is at m. */
  lemma {:induction false} FirstPassOnlyKeepsValue(e: Expr, env: Env)
    requires WellTyped(env)
    ensures Eval(FirstPassOnly(e), env) == Eval(e, env)
    decreases Leaves(e)
  {
    if e.Bin? {
      var x := Dups1(e.op, e, [], []);
      Dups1KeepsValue(e.op, e, [], [], env);
      Dups1Progress(e.op, e, [], []);
      EliminateYNShrinks(x.expr);
      if x.count > 0 {
        EliminateYNKeepsValue(x.expr, env);
        FirstPassOnlyKeepsValue(EliminateYN(x.expr), env);
      }
    }
  }

  /** In no round of the loop does the guard of the cancelling step hold. */
  predicate NeverCancels(e: Expr)
    decreases Leaves(e)
  {
    e.Bin? ==>
      var x := Dups1(e.op, e, [], []);
      Dups1Progress(e.op, e, [], []);
      EliminateYNShrinks(x.expr);
      Dups2(e.op, x.expr, [], []).count == 0 && (x.count > 0 ==> NeverCancels(EliminateYN(x.expr)))
  }

  /** A run of the whole loop in which nothing cancels is the run without the second pass, and so keeps
      the value in every well-typed tristate environment. */
  lemma {:induction false} NeverCancelsKeepsValue(e: Expr, env: Env)
    requires WellTyped(env) && NeverCancels(e)
    ensures EliminateDups(e) == FirstPassOnly(e)
    ensures Eval(EliminateDups(e), env) == Eval(e, env)
    decreases Leaves(e)
  {
    FirstPassOnlyKeepsValue(e, env);
    if e.Bin? {
      var x := Dups1(e.op, e, [], []);
      Dups2Idle(e.op, x.expr, [], []);
      RoundProgress(e);
      if x.count > 0 {
        NeverCancelsKeepsValue(EliminateYN(x.expr), env);
      }
    }
  }
}
