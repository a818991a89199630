/** Expressions as expr.c holds them: nodes that the passes rewrite in place. Each pass leaves the nodes
    of the function that specifies it. */
module ExprNodes {
  import opened Expressions
  import opened EliminateConstants
  import opened Transformation
  import opened ExprEquality
  import opened Comparisons

  datatype Kind = SymbolKind | EqualKind | UnequalKind | NotKind | AndKind | OrKind

  function KindOf(op: Op): Kind {
    if op.AndOp? then AndKind else OrKind
  }

  /** struct expr, with the two halves of each union side by side. */
  class Node {
    var kind: Kind
    var left: Node?
    var right: Node?
    var leftSym: Option<Sym>
    var rightSym: Option<Sym>
    /** The nodes of the tree below, this one included. */
    ghost var repr: set<Node>

    ghost predicate Child(c: Node?)
      reads this, repr
    {
      c != null && c in repr && c.repr <= repr && this !in c.repr
    }

    /** The tree below is the expression x, and no node occurs in it twice. */
    ghost predicate Holds(x: Expr)
      reads this, repr
      decreases x
    {
      this in repr
      && match x
         case Symbol(s) => kind == SymbolKind && leftSym == Some(s)
         case Equal(l, r) => kind == EqualKind && leftSym == Some(l) && rightSym == Some(r)
         case Unequal(l, r) => kind == UnequalKind && leftSym == Some(l) && rightSym == Some(r)
         case Not(a) => kind == NotKind && Child(left) && left.Holds(a)
         case Bin(op, l, r) =>
           kind == KindOf(op) && Child(left) && Child(right) && left.repr !! right.repr
           && left.Holds(l) && right.Holds(r)
    }

    /** What a node of && or || says of its operands. */
    lemma Operands(op: Op, l: Expr, r: Expr)
      requires Holds(Bin(op, l, r))
      ensures kind == KindOf(op) && left != null && right != null
      ensures left.Holds(l) && right.Holds(r) && left.repr !! right.repr
      ensures left.repr <= repr && right.repr <= repr
      ensures this in repr && this !in left.repr && this !in right.repr
    {
    }

    lemma KindIs(x: Expr)
      requires Holds(x)
      ensures this in repr
      ensures kind == AndKind <==> IsOp(AndOp, x)
      ensures kind == OrKind <==> IsOp(OrOp, x)
      ensures kind == NotKind <==> x.Not?
      ensures kind == EqualKind <==> x.Equal?
      ensures kind == UnequalKind <==> x.Unequal?
      ensures kind == SymbolKind <==> x.Symbol?
      ensures x.Symbol? ==> leftSym == Some(x.sym)
    {
    }

    /** expr_alloc_symbol */
    constructor FromSymbol(s: Sym)
      ensures Holds(Symbol(s)) && repr == {this}
    {
      kind := SymbolKind;
      left := null;
      right := null;
      leftSym := Some(s);
      rightSym := None;
      repr := {this};
    }

    /** expr_alloc_comp */
    constructor Comparison(kind: Kind, l: Sym, r: Sym)
      requires kind == EqualKind || kind == UnequalKind
      ensures Holds(if kind == EqualKind then Equal(l, r) else Unequal(l, r)) && repr == {this}
    {
      this.kind := kind;
      left := null;
      right := null;
      leftSym := Some(l);
      rightSym := Some(r);
      repr := {this};
    }

    /** expr_alloc_one with E_NOT */
    constructor Negation(arg: Node, ghost a: Expr)
      requires arg.Holds(a)
      ensures Holds(Not(a)) && repr == {this} + arg.repr && left == arg
    {
      kind := NotKind;
      left := arg;
      right := null;
      leftSym := None;
      rightSym := None;
      repr := {this} + arg.repr;
    }

    /** expr_alloc_two */
    constructor Binary(op: Op, lhs: Node, rhs: Node, ghost l: Expr, ghost r: Expr)
      requires lhs.Holds(l) && rhs.Holds(r) && lhs.repr !! rhs.repr
      ensures Holds(Bin(op, l, r)) && repr == {this} + lhs.repr + rhs.repr
    {
      kind := KindOf(op);
      left := lhs;
      right := rhs;
      leftSym := None;
      rightSym := None;
      repr := {this} + lhs.repr + rhs.repr;
    }

    /** e->type = E_SYMBOL, with no right operand */
    method BecomeSymbol(s: Sym)
      modifies this
      ensures Holds(Symbol(s)) && repr == {this}
    {
      kind := SymbolKind;
      left := null;
      right := null;
      leftSym := Some(s);
      rightSym := None;
      repr := {this};
    }

    /** *e = *other, after which `other` is freed. */
    method CopyFrom(other: Node, ghost y: Expr)
      requires other.Holds(y) && this !in other.repr
      modifies this
      ensures Holds(y) && repr == other.repr - {other} + {this}
    {
      kind := other.kind;
      left := other.left;
      right := other.right;
      leftSym := other.leftSym;
      rightSym := other.rightSym;
      repr := other.repr - {other} + {this};
    }

    predicate IsSymbol(s: Sym)
      reads this
    {
      kind == SymbolKind && leftSym == Some(s)
    }

    ghost method BecomesNegation(a: Expr)
      requires kind == NotKind && left != null && left.Holds(a) && this !in left.repr
      modifies this`repr
      ensures Holds(Not(a)) && repr == {this} + left.repr
    {
      repr := {this} + left.repr;
    }

    /** The rewritten operands take their places. */
    method SetOperands(ghost op: Op, lhs: Node, rhs: Node, ghost l: Expr, ghost r: Expr)
      requires kind == KindOf(op) && lhs.Holds(l) && rhs.Holds(r) && lhs.repr !! rhs.repr
      requires this !in lhs.repr && this !in rhs.repr
      modifies this
      ensures Holds(Bin(op, l, r)) && repr == {this} + lhs.repr + rhs.repr
    {
      left := lhs;
      right := rhs;
      repr := {this} + lhs.repr + rhs.repr;
    }

    /** After both operands were rewritten. */
    ghost method Adopt(op: Op, l: Expr, r: Expr)
      requires kind == KindOf(op) && left != null && right != null
      requires left.Holds(l) && right.Holds(r) && left.repr !! right.repr
      requires this !in left.repr && this !in right.repr
      modifies this`repr
      ensures Holds(Bin(op, l, r)) && repr == {this} + left.repr + right.repr
    {
      repr := {this} + left.repr + right.repr;
    }
  }

  // ---------- expr_copy ----------

  method Copy(org: Node, ghost x: Expr) returns (e: Node)
    requires org.Holds(x)
    ensures e.Holds(x) && fresh(e.repr)
    decreases x
  {
    if org.kind == SymbolKind {
      e := new Node.FromSymbol(org.leftSym.value);
    } else if org.kind == EqualKind || org.kind == UnequalKind {
      e := new Node.Comparison(org.kind, org.leftSym.value, org.rightSym.value);
    } else if org.kind == NotKind {
      var l := Copy(org.left, x.arg);
      e := new Node.Negation(l, x.arg);
    } else {
      var l := Copy(org.left, x.lhs);
      var r := Copy(org.right, x.rhs);
      e := new Node.Binary(if org.kind == AndKind then AndOp else OrOp, l, r, x.lhs, x.rhs);
    }
  }

  // ---------- expr_eliminate_yn ----------

  /** The operands of an && or || have been rewritten. `unit` disappears, `zero` absorbs. */
  method CombineOperands(e: Node, op: Op, ghost l: Expr, ghost r: Expr)
    requires e.Holds(Bin(op, l, r))
    modifies e
    ensures e.Holds(Combine(op, l, r)) && e.repr <= old(e.repr)
  {
    var unit, zero := UnitSym(op), UnitSym(Other(op));
    if e.left.IsSymbol(zero) {
      e.BecomeSymbol(zero);
    } else if e.left.IsSymbol(unit) {
      e.CopyFrom(e.right, r);
    } else if e.right.IsSymbol(zero) {
      e.BecomeSymbol(zero);
    } else if e.right.IsSymbol(unit) {
      e.CopyFrom(e.left, l);
    }
  }

  method EliminateYNInPlace(e: Node, ghost x: Expr)
    requires e.Holds(x)
    modifies e.repr
    ensures e.Holds(EliminateYN(x)) && e.repr <= old(e.repr)
    decreases x
  {
    if e.kind == AndKind || e.kind == OrKind {
      var op := if e.kind == AndKind then AndOp else OrOp;
      EliminateYNInPlace(e.left, x.lhs);
      EliminateYNInPlace(e.right, x.rhs);
      e.Adopt(op, EliminateYN(x.lhs), EliminateYN(x.rhs));
      CombineOperands(e, op, EliminateYN(x.lhs), EliminateYN(x.rhs));
    }
  }

  // ---------- expr_trans_bool ----------

  method TransBoolInPlace(e: Node, ghost x: Expr)
    requires e.Holds(x)
    modifies e.repr
    ensures e.Holds(TransBool(x)) && e.repr <= old(e.repr)
    decreases x
  {
    if e.kind == AndKind || e.kind == OrKind {
      TransBoolInPlace(e.left, x.lhs);
      TransBoolInPlace(e.right, x.rhs);
      e.Adopt(x.op, TransBool(x.lhs), TransBool(x.rhs));
    } else if e.kind == NotKind {
      TransBoolInPlace(e.left, x.arg);
      e.BecomesNegation(TransBool(x.arg));
    } else if e.kind == UnequalKind {
      if e.leftSym.value.Type().Tristate? && e.rightSym == Some(SymNo) {
        e.kind := SymbolKind;
        e.rightSym := None;
      }
    }
  }

  // ---------- expr_transform ----------

  /** The comparison of a boolean symbol with y, m or n. */
  method TransformComparison(e: Node, ghost x: Expr)
    requires e.Holds(x) && (x.Equal? || x.Unequal?)
    modifies e
    ensures e.Holds(if x.Equal? then TransformEqual(x.left, x.right) else TransformUnequal(x.left, x.right))
    ensures fresh(e.repr - old(e.repr))
  {
    if e.leftSym.value.Type() != Boolean {
      return;
    }
    var same := if e.kind == EqualKind then SymYes else SymNo;
    var opposite := if e.kind == EqualKind then SymNo else SymYes;
    if e.rightSym == Some(opposite) {
      var s := new Node.FromSymbol(e.leftSym.value);
      e.kind := NotKind;
      e.left := s;
      e.leftSym := None;
      e.rightSym := None;
      e.repr := {e, s};
    } else if e.rightSym == Some(SymMod) {
      e.BecomeSymbol(if e.kind == EqualKind then SymNo else SymYes);
    } else if e.rightSym == Some(same) {
      e.kind := SymbolKind;
      e.rightSym := None;
    }
  }

  /** The result may be another node than `e`: a negation that is not needed is freed. */
  method TransformInPlace(e: Node, ghost x: Expr) returns (r: Node)
    requires e.Holds(x)
    modifies e.repr
    ensures r.Holds(Transform(x)) && fresh(r.repr - old(e.repr))
    decreases Weight(x)
  {
    r := e;
    if e.kind == EqualKind || e.kind == UnequalKind {
      TransformComparison(e, x);
    } else if e.kind == AndKind || e.kind == OrKind {
      TransformOperands(e, x.op, x.lhs, x.rhs);
    } else if e.kind == NotKind {
      var l := TransformInPlace(e.left, x.arg);
      e.left := l;
      e.BecomesNegation(Transform(x.arg));
      r := TransformNegation(e, x.arg, Transform(x.arg));
    }
  }

  method TransformOperands(e: Node, ghost op: Op, ghost lhs: Expr, ghost rhs: Expr)
    requires e.Holds(Bin(op, lhs, rhs))
    modifies e.repr
    ensures e.Holds(Transform(Bin(op, lhs, rhs))) && fresh(e.repr - old(e.repr))
    decreases Weight(Bin(op, lhs, rhs)), 0
  {
    assert Weight(lhs) < Weight(Bin(op, lhs, rhs)) && Weight(rhs) < Weight(Bin(op, lhs, rhs));
    assert Transform(Bin(op, lhs, rhs)) == Bin(op, Transform(lhs), Transform(rhs));
    e.Operands(op, lhs, rhs);
    hide Node.Holds, Transform, Weight;
    var right := e.right;
    var l := TransformInPlace(e.left, lhs);
    assert right.Holds(rhs) && right.repr !! l.repr;
    var r := TransformInPlace(right, rhs);
    e.SetOperands(op, l, r, Transform(lhs), Transform(rhs));
  }

  /** The second half of expr_transform for !, when the operand is transformed already. */
  method TransformNegation(e: Node, ghost a: Expr, ghost t: Expr) returns (r: Node)
    requires t == Transform(a) && e.Holds(Not(t))
    modifies e.repr
    ensures r.Holds(Transform(Not(a))) && fresh(r.repr - old(e.repr))
    decreases Weight(Not(a)), 0
  {
    r := e;
    var tmp := e.left;
    if tmp.kind == NotKind {
      r := TransformInPlace(tmp.left, t.arg);
    } else if tmp.kind == EqualKind || tmp.kind == UnequalKind {
      r := tmp;
      r.kind := if r.kind == EqualKind then UnequalKind else EqualKind;
    } else if tmp.kind == OrKind || tmp.kind == AndKind {
      DeMorgan(e, t);
      assert Weight(Not(t.lhs)) == 2 * Weight(t.lhs) && Weight(Not(t.rhs)) == 2 * Weight(t.rhs);
      r := TransformInPlace(e, Bin(Other(t.op), Not(t.lhs), Not(t.rhs)));
    } else if tmp.IsSymbol(SymYes) || tmp.IsSymbol(SymMod) || tmp.IsSymbol(SymNo) {
      r := tmp;
      r.leftSym := Some(if r.IsSymbol(SymYes) then SymNo else if r.IsSymbol(SymMod) then SymMod else SymYes);
    }
  }

  /** The node of an operator turns into the negation of the first operand and lets the second go. */
  method NegateFirst(tmp: Node, ghost t: Expr) returns (second: Node)
    requires t.Bin? && tmp.Holds(t)
    modifies tmp
    ensures tmp.Holds(Not(t.lhs)) && second.Holds(t.rhs) && tmp.repr !! second.repr
    ensures tmp.repr <= old(tmp.repr) && second.repr <= old(tmp.repr)
  {
    tmp.Operands(t.op, t.lhs, t.rhs);
    hide Node.Holds;
    second := tmp.right;
    tmp.kind := NotKind;
    tmp.right := null;
    tmp.BecomesNegation(t.lhs);
  }

  /** !(a || b) becomes !a && !b with one new node, and likewise for &&. */
  method DeMorgan(e: Node, ghost t: Expr)
    requires t.Bin? && e.Holds(Not(t))
    modifies e.repr
    ensures e.Holds(Bin(Other(t.op), Not(t.lhs), Not(t.rhs)))
    ensures fresh(e.repr - old(e.repr))
  {
    var tmp := e.left;
    tmp.KindIs(t);
    assert e !in tmp.repr && tmp.repr <= e.repr;
    hide Node.Holds;
    e.kind := if tmp.kind == OrKind then AndKind else OrKind;
    var second := NegateFirst(tmp, t);
    var n := new Node.Negation(second, t.rhs);
    e.SetOperands(Other(t.op), tmp, n, Not(t.lhs), Not(t.rhs));
  }

  // ---------- expr_eliminate_eq and expr_eq ----------

  /** __expr_eliminate_eq. The two results are what `*ep1` and `*ep2` point to afterwards. */
  method EliminateOperandsInPlace(op: Op, e1: Node, e2: Node, ghost x: Expr, ghost y: Expr)
    returns (r1: Node, r2: Node)
    requires e1.Holds(x) && e2.Holds(y) && e1.repr !! e2.repr
    modifies e1.repr, e2.repr
    ensures r1.Holds(EliminateOperands(op, x, y).fst) && r2.Holds(EliminateOperands(op, x, y).snd)
    ensures r1.repr !! r2.repr
    ensures forall o <- r1.repr :: o in old(e1.repr) || fresh(o)
    ensures forall o <- r2.repr :: o in old(e2.repr) || fresh(o)
    decreases Size(x) + Size(y), if IsOp(op, x) || IsOp(op, y) then 2 else 6
  {
    hide Node.Holds, Size;
    e1.KindIs(x);
    e2.KindIs(y);
    if e1.kind == KindOf(op) {
      r1, r2 := EliminateFirst(op, e1, e2, x, y);
      return;
    }
    if e2.kind == KindOf(op) {
      r1, r2 := EliminateSecond(op, e1, e2, x, y);
      return;
    }
    r1, r2 := e1, e2;
    if e1.kind == SymbolKind && e2.kind == SymbolKind && e1.leftSym == e2.leftSym
       && (e1.leftSym == Some(SymYes) || e1.leftSym == Some(SymNo)) {
      return;
    }
    var equal := EqualNodes(e1, e2, x, y);
    if !equal {
      return;
    }
    r1 := new Node.FromSymbol(UnitSym(op));
    r2 := new Node.FromSymbol(UnitSym(op));
  }

  /** The recursive calls for the operands a and b of one side against the other side. */
  method EliminateBoth(op: Op, a: Node, b: Node, e: Node, ghost x: Expr, ghost l: Expr, ghost r: Expr, ghost y: Expr)
    returns (a': Node, b': Node, e': Node)
    requires x == Bin(op, l, r) && a.Holds(l) && b.Holds(r) && e.Holds(y)
    requires a.repr !! b.repr && a.repr !! e.repr && b.repr !! e.repr
    modifies a.repr, b.repr, e.repr
    ensures var p := EliminateOperands(op, l, y); var q := EliminateOperands(op, r, p.snd);
      a'.Holds(p.fst) && b'.Holds(q.fst) && e'.Holds(q.snd)
    ensures a'.repr !! b'.repr && a'.repr !! e'.repr && b'.repr !! e'.repr
    ensures forall o <- a'.repr :: o in old(a.repr) || fresh(o)
    ensures forall o <- b'.repr :: o in old(b.repr) || fresh(o)
    ensures forall o <- e'.repr :: o in old(e.repr) || fresh(o)
    decreases Size(x) + Size(y), 0
  {
    LeftOperands(op, x, y);
    hide EliminateOperands, Size, Node.Holds;
    a', e' := EliminateOperandsInPlace(op, a, e, l, y);
    assert b.Holds(r) && b.repr !! a'.repr && b.repr !! e'.repr;
    b', e' := EliminateOperandsInPlace(op, b, e', r, EliminateOperands(op, l, y).snd);
  }

  /** Each operand of the first side in turn. */
  method EliminateFirst(op: Op, e1: Node, e2: Node, ghost x: Expr, ghost y: Expr) returns (r1: Node, r2: Node)
    requires IsOp(op, x) && e1.Holds(x) && e2.Holds(y) && e1.repr !! e2.repr
    modifies e1.repr, e2.repr
    ensures r1.Holds(EliminateOperands(op, x, y).fst) && r2.Holds(EliminateOperands(op, x, y).snd)
    ensures r1.repr !! r2.repr
    ensures forall o <- r1.repr :: o in old(e1.repr) || fresh(o)
    ensures forall o <- r2.repr :: o in old(e2.repr) || fresh(o)
    decreases Size(x) + Size(y), 1
  {
    LeftOperands(op, x, y);
    e1.Operands(op, x.lhs, x.rhs);
    hide EliminateOperands, Size, Node.Holds;
    ghost var p := EliminateOperands(op, x.lhs, y);
    ghost var q := EliminateOperands(op, x.rhs, p.snd);
    var l, r, n := EliminateBoth(op, e1.left, e1.right, e2, x, x.lhs, x.rhs, y);
    e1.SetOperands(op, l, r, p.fst, q.fst);
    return e1, n;
  }

  /** The other way round: one operand of the first side against each operand of the second. */
  method EliminateAgainst(op: Op, e: Node, a: Node, b: Node, ghost x: Expr, ghost y: Expr, ghost l: Expr, ghost r: Expr)
    returns (e': Node, a': Node, b': Node)
    requires y == Bin(op, l, r) && !IsOp(op, x) && a.Holds(l) && b.Holds(r) && e.Holds(x)
    requires a.repr !! b.repr && a.repr !! e.repr && b.repr !! e.repr
    modifies a.repr, b.repr, e.repr
    ensures var p := EliminateOperands(op, x, l); var q := EliminateOperands(op, p.fst, r);
      a'.Holds(p.snd) && b'.Holds(q.snd) && e'.Holds(q.fst)
    ensures a'.repr !! b'.repr && a'.repr !! e'.repr && b'.repr !! e'.repr
    ensures forall o <- a'.repr :: o in old(a.repr) || fresh(o)
    ensures forall o <- b'.repr :: o in old(b.repr) || fresh(o)
    ensures forall o <- e'.repr :: o in old(e.repr) || fresh(o)
    decreases Size(x) + Size(y), 0
  {
    RightOperands(op, x, y);
    hide EliminateOperands, Size, Node.Holds;
    e', a' := EliminateOperandsInPlace(op, e, a, x, l);
    assert b.Holds(r) && b.repr !! a'.repr && b.repr !! e'.repr;
    e', b' := EliminateOperandsInPlace(op, e', b, EliminateOperands(op, x, l).fst, r);
  }

  method EliminateSecond(op: Op, e1: Node, e2: Node, ghost x: Expr, ghost y: Expr) returns (r1: Node, r2: Node)
    requires !IsOp(op, x) && IsOp(op, y) && e1.Holds(x) && e2.Holds(y) && e1.repr !! e2.repr
    modifies e1.repr, e2.repr
    ensures r1.Holds(EliminateOperands(op, x, y).fst) && r2.Holds(EliminateOperands(op, x, y).snd)
    ensures r1.repr !! r2.repr
    ensures forall o <- r1.repr :: o in old(e1.repr) || fresh(o)
    ensures forall o <- r2.repr :: o in old(e2.repr) || fresh(o)
    decreases Size(x) + Size(y), 1
  {
    RightOperands(op, x, y);
    e2.Operands(op, y.lhs, y.rhs);
    hide EliminateOperands, Size, Node.Holds;
    ghost var p := EliminateOperands(op, x, y.lhs);
    ghost var q := EliminateOperands(op, p.fst, y.rhs);
    var n, l, r := EliminateAgainst(op, e1, e2.left, e2.right, x, y, y.lhs, y.rhs);
    e2.SetOperands(op, l, r, p.snd, q.snd);
    return n, e2;
  }

  /** The result of the first pass of expr_eliminate_eq. */
  ghost function FirstPass(x: Expr, y: Expr): Pair {
    if x.Bin? then EliminateOperands(x.op, x, y) else Pair(x, y)
  }

  lemma EliminateEqPasses(x: Expr, y: Expr)
    ensures var p := FirstPass(x, y);
      var q := if p.snd.Bin? && !IsOp(p.snd.op, p.fst) then EliminateOperands(p.snd.op, p.fst, p.snd) else p;
      && Size(p.fst) + Size(p.snd) <= Size(x) + Size(y)
      && EliminateEq(x, y) == Pair(EliminateYN(q.fst), EliminateYN(q.snd))
  {
    hide EliminateOperands, EliminateYN;
  }

  /** One pass, if the node is an && or ||. */
  method OnePass(e: Node, e1: Node, e2: Node, ghost x: Expr, ghost y: Expr) returns (r1: Node, r2: Node)
    requires e1.Holds(x) && e2.Holds(y) && e1.repr !! e2.repr && (e == e1 || e == e2)
    modifies e1.repr, e2.repr
    ensures var z := if e == e1 then x else y; var p := if z.Bin? then EliminateOperands(z.op, x, y) else Pair(x, y);
      r1.Holds(p.fst) && r2.Holds(p.snd)
    ensures r1.repr !! r2.repr
    ensures forall o <- r1.repr :: o in old(e1.repr) || fresh(o)
    ensures forall o <- r2.repr :: o in old(e2.repr) || fresh(o)
    decreases Size(x) + Size(y), 3
  {
    e1.KindIs(x);
    e2.KindIs(y);
    hide EliminateOperands, Node.Holds, Size;
    r1, r2 := e1, e2;
    if e.kind == OrKind || e.kind == AndKind {
      var op := if e.kind == OrKind then OrOp else AndOp;
      r1, r2 := EliminateOperandsInPlace(op, e1, e2, x, y);
    }
  }

  /** expr_eliminate_eq */
  method EliminateEqInPlace(e1: Node, e2: Node, ghost x: Expr, ghost y: Expr) returns (r1: Node, r2: Node)
    requires e1.Holds(x) && e2.Holds(y) && e1.repr !! e2.repr
    modifies e1.repr, e2.repr
    ensures r1.Holds(EliminateEq(x, y).fst) && r2.Holds(EliminateEq(x, y).snd)
    ensures r1.repr !! r2.repr
    ensures forall o <- r1.repr :: o in old(e1.repr) || fresh(o)
    ensures forall o <- r2.repr :: o in old(e2.repr) || fresh(o)
    decreases Size(x) + Size(y), 4
  {
    e1.KindIs(x);
    EliminateEqPasses(x, y);
    assert FirstPass(x, y) == if x.Bin? then EliminateOperands(x.op, x, y) else Pair(x, y);
    hide EliminateOperands, Node.Holds, Size, EliminateYN, EliminateEq, FirstPass;
    ghost var p := FirstPass(x, y);
    r1, r2 := OnePass(e1, e1, e2, x, y);
    r1.KindIs(p.fst);
    r2.KindIs(p.snd);
    if r1.kind != r2.kind {
      r1, r2 := OnePass(r2, r1, r2, p.fst, p.snd);
      p := if p.snd.Bin? then EliminateOperands(p.snd.op, p.fst, p.snd) else p;
    }
    EliminateBothYN(r1, r2, p.fst, p.snd);
  }

  method EliminateBothYN(e1: Node, e2: Node, ghost x: Expr, ghost y: Expr)
    requires e1.Holds(x) && e2.Holds(y) && e1.repr !! e2.repr
    modifies e1.repr, e2.repr
    ensures e1.Holds(EliminateYN(x)) && e2.Holds(EliminateYN(y))
    ensures e1.repr <= old(e1.repr) && e2.repr <= old(e2.repr)
  {
    e1.KindIs(x);
    e2.KindIs(y);
    hide Node.Holds, EliminateYN;
    EliminateYNInPlace(e1, x);
    EliminateYNInPlace(e2, y);
  }

  /** expr_eq: the operands of && and || are compared on copies. */
  method EqualNodes(e1: Node, e2: Node, ghost x: Expr, ghost y: Expr) returns (res: bool)
    requires e1.Holds(x) && e2.Holds(y)
    ensures res == ExprEq(x, y)
    decreases Size(x) + Size(y), 5
  {
    if e1.kind != e2.kind {
      return false;
    }
    if e1.kind == EqualKind || e1.kind == UnequalKind {
      return e1.leftSym == e2.leftSym && e1.rightSym == e2.rightSym;
    }
    if e1.kind == SymbolKind {
      return e1.leftSym == e2.leftSym;
    }
    if e1.kind == NotKind {
      res := EqualNodes(e1.left, e2.left, x.arg, y.arg);
      return;
    }
    var c1 := Copy(e1, x);
    var c2 := Copy(e2, y);
    c1, c2 := EliminateEqInPlace(c1, c2, x, y);
    return c1.kind == SymbolKind && c2.kind == SymbolKind && c1.leftSym == c2.leftSym;
  }
}
