/** Positions along the spine of one operator. The duplicate passes receive two addresses inside
    one tree; two addresses are the same node exactly when the positions are equal. */
module Positions {
  import opened Expressions
  import opened EliminateConstants

  datatype Dir = Left | Right
  type Pos = seq<Dir>

  function Child(e: Expr, d: Dir): Expr
    requires e.Bin?
  {
    if d.Left? then e.lhs else e.rhs
  }

  function WithChild(e: Expr, d: Dir, c: Expr): Expr
    requires e.Bin?
  {
    if d.Left? then e.(lhs := c) else e.(rhs := c)
  }

  /** The position is reached through nodes of `op` only. */
  predicate OnSpine(op: Op, e: Expr, p: Pos) {
    p == [] || (IsOp(op, e) && OnSpine(op, Child(e, p[0]), p[1..]))
  }

  function At(op: Op, e: Expr, p: Pos): Expr
    requires OnSpine(op, e, p)
  {
    if p == [] then e else At(op, Child(e, p[0]), p[1..])
  }

  function Put(op: Op, e: Expr, p: Pos, x: Expr): Expr
    requires OnSpine(op, e, p)
  {
    if p == [] then x else WithChild(e, p[0], Put(op, Child(e, p[0]), p[1..], x))
  }

  /** The part of a tree that consists of one operator. */
  datatype Shape = Tip | Fork(l: Shape, r: Shape)

  function ShapeOf(op: Op, e: Expr): Shape {
    if IsOp(op, e) then Fork(ShapeOf(op, e.lhs), ShapeOf(op, e.rhs)) else Tip
  }

  function ShapeSize(s: Shape): nat {
    match s
    case Tip => 0
    case Fork(l, r) => 1 + ShapeSize(l) + ShapeSize(r)
  }

  /** Where a position leads depends on the shape alone. */
  lemma {:induction false} SameShape(op: Op, e: Expr, e': Expr, p: Pos)
    requires ShapeOf(op, e) == ShapeOf(op, e')
    ensures OnSpine(op, e, p) <==> OnSpine(op, e', p)
    ensures OnSpine(op, e, p) ==> ShapeOf(op, At(op, e, p)) == ShapeOf(op, At(op, e', p))
  {
    if p != [] && IsOp(op, e) {
      SameShape(op, Child(e, p[0]), Child(e', p[0]), p[1..]);
    }
  }

  lemma {:induction false} Extend(op: Op, e: Expr, p: Pos, d: Dir)
    requires OnSpine(op, e, p) && IsOp(op, At(op, e, p))
    ensures OnSpine(op, e, p + [d])
    ensures At(op, e, p + [d]) == Child(At(op, e, p), d)
  {
    if p != [] {
      Extend(op, Child(e, p[0]), p[1..], d);
      assert (p + [d])[1..] == p[1..] + [d];
    }
  }

  /** Replacing a node by one with the same shape. */
  lemma {:induction false} PutShape(op: Op, e: Expr, p: Pos, x: Expr)
    requires OnSpine(op, e, p)
    requires ShapeOf(op, x) == ShapeOf(op, At(op, e, p))
    ensures ShapeOf(op, Put(op, e, p, x)) == ShapeOf(op, e)
  {
    if p != [] {
      PutShape(op, Child(e, p[0]), p[1..], x);
    }
  }

  lemma {:induction false} PutSizes(op: Op, e: Expr, p: Pos, x: Expr)
    requires OnSpine(op, e, p)
    ensures Size(Put(op, e, p, x)) == Size(e) - Size(At(op, e, p)) + Size(x)
    ensures Leaves(Put(op, e, p, x)) == Leaves(e) - Leaves(At(op, e, p)) + Leaves(x)
    ensures p != [] ==> Size(At(op, e, p)) < Size(e)
  {
    if p != [] {
      PutSizes(op, Child(e, p[0]), p[1..], x);
    }
  }

  lemma {:induction false} AtPut(op: Op, e: Expr, p: Pos, x: Expr)
    requires OnSpine(op, e, p)
    ensures OnSpine(op, Put(op, e, p, x), p)
    ensures At(op, Put(op, e, p, x), p) == x
  {
    if p != [] {
      AtPut(op, Child(e, p[0]), p[1..], x);
    }
  }

  /** Two different ends of the spine are disjoint: writing one leaves the other alone. */
  lemma {:induction false} AtPutOther(op: Op, e: Expr, p: Pos, q: Pos, x: Expr)
    requires OnSpine(op, e, p) && OnSpine(op, e, q) && p != q
    requires !IsOp(op, At(op, e, p)) && !IsOp(op, At(op, e, q))
    ensures OnSpine(op, Put(op, e, p, x), q)
    ensures At(op, Put(op, e, p, x), q) == At(op, e, q)
  {
    assert p != [] && q != [];
    if p[0] == q[0] {
      assert p[1..] != q[1..];
      AtPutOther(op, Child(e, p[0]), p[1..], q[1..], x);
    }
  }

  /** What the rest of the spine contributes to the value. */
  function Rest(op: Op, e: Expr, p: Pos, env: Env): Tri
    requires OnSpine(op, e, p)
  {
    if p == [] then Unit(op)
    else Join(op, Eval(Child(e, if p[0].Left? then Right else Left), env), Rest(op, Child(e, p[0]), p[1..], env))
  }

  lemma {:induction false} SpineValue(op: Op, e: Expr, p: Pos, x: Expr, env: Env)
    requires OnSpine(op, e, p)
    ensures Eval(e, env) == Join(op, Eval(At(op, e, p), env), Rest(op, e, p, env))
    ensures Eval(Put(op, e, p, x), env) == Join(op, Eval(x, env), Rest(op, e, p, env))
  {
    if p != [] {
      SpineValue(op, Child(e, p[0]), p[1..], x, env);
    }
  }

  lemma JoinRegroup(op: Op, a: Tri, b: Tri, x: Tri, y: Tri, r: Tri, s: Tri)
    requires Join(op, a, b) == Join(op, x, y)
    ensures Join(op, Join(op, a, r), Join(op, b, s)) == Join(op, Join(op, x, r), Join(op, y, s))
    ensures Join(op, Join(op, b, s), Join(op, a, r)) == Join(op, Join(op, y, s), Join(op, x, r))
  {
  }

  /** Rewriting two disjoint operands keeps the value when their join keeps its value. */
  lemma {:induction false} PutTwoKeepsValue(op: Op, e: Expr, p: Pos, q: Pos, x: Expr, y: Expr, env: Env)
    requires OnSpine(op, e, p) && OnSpine(op, e, q) && p != q
    requires !IsOp(op, At(op, e, p)) && !IsOp(op, At(op, e, q))
    requires Join(op, Eval(At(op, e, p), env), Eval(At(op, e, q), env)) == Join(op, Eval(x, env), Eval(y, env))
    ensures OnSpine(op, Put(op, e, p, x), q)
    ensures Eval(Put(op, Put(op, e, p, x), q, y), env) == Eval(e, env)
  {
    assert p != [] && q != [];
    if p[0] == q[0] {
      assert p[1..] != q[1..];
      var c := Child(e, p[0]);
      PutTwoKeepsValue(op, c, p[1..], q[1..], x, y, env);
      assert Put(op, Put(op, e, p, x), q, y) == WithChild(e, p[0], Put(op, Put(op, c, p[1..], x), q[1..], y));
    } else {
      var c, d := Child(e, p[0]), Child(e, q[0]);
      SpineValue(op, c, p[1..], x, env);
      SpineValue(op, d, q[1..], y, env);
      assert Put(op, Put(op, e, p, x), q, y)
          == WithChild(WithChild(e, p[0], Put(op, c, p[1..], x)), q[0], Put(op, d, q[1..], y));
      JoinRegroup(op, Eval(At(op, e, p), env), Eval(At(op, e, q), env), Eval(x, env), Eval(y, env),
        Rest(op, c, p[1..], env), Rest(op, d, q[1..], env));
    }
  }

  /** A constant below the root of the spine, or inside a node whose constants stay, is kept. */
  lemma {:induction false} PutKeepsYN(op: Op, e: Expr, p: Pos, x: Expr)
    requires OnSpine(op, e, p) && p != []
    requires IsYN(x) || (HasYN(e) && !IsYN(At(op, e, p)) && (HasYN(At(op, e, p)) ==> HasYN(x)))
    ensures HasYN(Put(op, e, p, x))
  {
    if p[1..] != [] && (IsYN(x) || HasYN(Child(e, p[0]))) {
      PutKeepsYN(op, Child(e, p[0]), p[1..], x);
    }
  }
}
