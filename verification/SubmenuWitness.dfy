/** Adoption without justification: conditions on a symbol that is not defined anywhere. */
module SubmenuWitness {
  import opened Expressions
  import opened EliminateConstants
  import opened ExprEquality
  import opened ExtractCommon
  import opened Transformation
  import opened JoinOperands
  import opened Positions
  import opened Duplicates
  import opened DuplicatesWitness
  import opened Comparisons

  /** `depends on U` for a symbol U without a definition, which is n and has the string "U". */
  const UNDEFINED: Sym := Config("U", Unknown)
  const PARENT: Sym := Config("P", Boolean)

  /** Every symbol is n. */
  function AllNo(): Env {
    (s: Sym) => match s
      case SymYes => Val(YES, "y")
      case SymMod => Val(MOD, "m")
      case SymNo => Val(NO, "n")
      case Const(text) => Val(NO, text)
      case Config(name, ty) => Val(NO, if ty.Boolean? || ty.Tristate? then "n" else name)
  }

  /** P has the prompt condition U, and the entry after it the condition U!=n && !P. The entry becomes a
      submenu of P, and is active while neither P nor its prompt is. */
  lemma AdoptedWithoutCause()
    ensures var prompt := Some(Symbol(UNDEFINED));
      var dep := Some(Bin(AndOp, Unequal(UNDEFINED, SymNo), Not(Symbol(PARENT))));
      && WellTyped(AllNo()) && SaysNo(PARENT, AllNo()) && !Says(UNDEFINED, SymNo, AllNo())
      && Adopts(prompt, dep, PARENT)
      && EvalOpt(dep, AllNo()) == YES && EvalOpt(prompt, AllNo()) == NO && AllNo()(PARENT).tri == NO
  {
    SimplifiedForms();
    RemainderIsYes();
    hide EliminateEq, Simplified;
    assert ContainsSymbol(Bin(AndOp, Unequal(UNDEFINED, SymNo), Not(Symbol(PARENT))), PARENT);
  }

  lemma RemainderIsYes()
    ensures var u, np := Unequal(UNDEFINED, SymNo), Not(Symbol(PARENT));
      EliminateEq(Bin(AndOp, u, np), u).snd == Symbol(SymYes)
  {
    var u, np, y := Unequal(UNDEFINED, SymNo), Not(Symbol(PARENT)), Symbol(SymYes);
    assert EliminateOperands(AndOp, u, u) == Pair(y, y);
    assert EliminateOperands(AndOp, np, y) == Pair(np, y);
  }

  lemma SimplifiedForms()
    ensures Simplified(Some(Symbol(UNDEFINED))) == Unequal(UNDEFINED, SymNo)
    ensures Simplified(Some(Bin(AndOp, Unequal(UNDEFINED, SymNo), Not(Symbol(PARENT)))))
         == Bin(AndOp, Unequal(UNDEFINED, SymNo), Not(Symbol(PARENT)))
  {
    var u, p := Unequal(UNDEFINED, SymNo), Symbol(PARENT);
    var e := Bin(AndOp, u, Not(p));
    var o := Bin(OrOp, Not(u), Unequal(PARENT, SymNo));
    assert TransCompare(e, true, SymNo) == Not(o);
    assert Transform(o) == Bin(OrOp, Equal(UNDEFINED, SymNo), p);
    assert Transform(Not(o)) == Transform(Bin(AndOp, Not(Equal(UNDEFINED, SymNo)), Not(p))) == e;
    NothingToDo(u, Not(p));
  }

  /** Two operands that neither join nor cancel. */
  lemma NothingToDo(a: Expr, b: Expr)
    requires !a.Bin? && !b.Bin?
    requires JoinExprs(AndOp, a, b) == None && JoinExprs(AndOp, b, a) == None
    ensures EliminateDups(Bin(AndOp, a, b)) == Bin(AndOp, a, b)
  {
    var e := Bin(AndOp, a, b);
    var l, r := [Left], [Right];
    assert [] + [Left] == l && [] + [Right] == r && l[1..] == [] && r[1..] == [];
    IdlePair(AndOp, e, l, r);
    IdlePair(AndOp, e, r, l);
    assert Dups1(AndOp, e, l, l) == Outcome(e, 0) == Dups1(AndOp, e, r, r);
    assert Dups1(AndOp, e, l, []) == Outcome(e, 0) == Dups1(AndOp, e, r, []);
    assert Dups1(AndOp, e, [], []) == Outcome(e, 0);
    IdleLeaf(AndOp, e, l, []);
    IdleLeaf(AndOp, e, r, []);
    assert Dups2(AndOp, e, [], []) == Outcome(e, 0);
  }
}
