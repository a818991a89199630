/** Rewriting of conditions for menus: expr_trans_bool, expr_trans_compare, the dependency tests,
    and the decision of menu_finalize to adopt a following entry as a submenu. */
module Comparisons {
  import opened Expressions
  import opened EliminateConstants
  import opened ExprEquality
  import opened Transformation
  import opened Duplicates

  // ---------- expr_trans_bool ----------

  /** FOO!=n becomes FOO for a tristate FOO. */
  function TransBool(e: Expr): Expr {
    match e
    case Bin(op, l, r) => Bin(op, TransBool(l), TransBool(r))
    case Not(a) => Not(TransBool(a))
    case Unequal(l, r) => if l.Type().Tristate? && r.SymNo? then Symbol(l) else e
    case _ => e
  }

  /** On a normal form expr_trans_bool may lower y to m but never changes whether the value is n,
      and it leaves a normal form. */
  lemma {:induction false} TransBoolKeepsNonNo(e: Expr, env: Env)
    requires WellTyped(env) && Normal(e)
    ensures Eval(TransBool(e), env) == NO <==> Eval(e, env) == NO
    ensures Eval(TransBool(e), env) <= Eval(e, env)
    ensures Normal(TransBool(e))
  {
    match e
    case Bin(op, l, r) =>
      TransBoolKeepsNonNo(l, env);
      TransBoolKeepsNonNo(r, env);
    case Unequal(l, r) =>
      assert l.IsBoolOrTristate() ==> env(l).str == Letter(env(l).tri);
    case _ =>
  }

  /** The prompt part of sym_calc_visibility: the best prompt, with m promoted to y unless the
      symbol is tristate and modules are on. */
  function Visibility(prompts: seq<Option<Expr>>, tristate: bool, modules: Tri, env: Env): Tri {
    var t := BestPrompt(prompts, env);
    if t == MOD && (!tristate || modules == NO) then YES else t
  }

  function BestPrompt(prompts: seq<Option<Expr>>, env: Env): Tri {
    if prompts == [] then NO
    else
      var n := |prompts| - 1;
      Join(OrOp, BestPrompt(prompts[..n], env), EvalOpt(prompts[n], env))
  }

  /** The best prompt is the value of one of them, and no other is better. */
  lemma {:induction false} BestIsOne(prompts: seq<Option<Expr>>, env: Env)
    ensures forall i :: 0 <= i < |prompts| ==> EvalOpt(prompts[i], env) <= BestPrompt(prompts, env)
    ensures BestPrompt(prompts, env) == NO
      || exists i :: 0 <= i < |prompts| && EvalOpt(prompts[i], env) == BestPrompt(prompts, env)
  {
    if prompts != [] {
      var n := |prompts| - 1;
      BestIsOne(prompts[..n], env);
      forall i | 0 <= i < |prompts| ensures EvalOpt(prompts[i], env) <= BestPrompt(prompts, env) {
        if i < n {
          assert prompts[..n][i] == prompts[i];
        }
      }
      if EvalOpt(prompts[n], env) < BestPrompt(prompts, env) {
        var i :| 0 <= i < n && EvalOpt(prompts[..n][i], env) == BestPrompt(prompts[..n], env);
        assert prompts[i] == prompts[..n][i];
      } else {
        assert EvalOpt(prompts[n], env) == BestPrompt(prompts, env);
      }
    }
  }

  function TransBoolOpt(e: Option<Expr>): Option<Expr> {
    if e.None? then None else Some(TransBool(e.value))
  }

  function MapTransBool(prompts: seq<Option<Expr>>): (r: seq<Option<Expr>>)
    ensures |r| == |prompts|
  {
    seq(|prompts|, i requires 0 <= i < |prompts| => TransBoolOpt(prompts[i]))
  }

  ghost predicate NormalOpt(e: Option<Expr>) {
    e.Some? ==> Normal(e.value)
  }

  /** menu_finalize applies expr_trans_bool to the prompt conditions of symbols that are not
      tristate; what the user sees stays the same. */
  lemma {:induction false} TransBoolKeepsVisibility(prompts: seq<Option<Expr>>, modules: Tri, env: Env)
    requires WellTyped(env)
    requires forall i :: 0 <= i < |prompts| ==> NormalOpt(prompts[i])
    ensures Visibility(MapTransBool(prompts), false, modules, env) == Visibility(prompts, false, modules, env)
  {
    BestPromptNonNo(prompts, env);
  }

  lemma {:induction false} BestPromptNonNo(prompts: seq<Option<Expr>>, env: Env)
    requires WellTyped(env)
    requires forall i :: 0 <= i < |prompts| ==> NormalOpt(prompts[i])
    ensures BestPrompt(MapTransBool(prompts), env) == NO <==> BestPrompt(prompts, env) == NO
  {
    if prompts != [] {
      var n := |prompts| - 1;
      assert NormalOpt(prompts[n]);
      if prompts[n].Some? {
        TransBoolKeepsNonNo(prompts[n].value, env);
      }
      assert MapTransBool(prompts)[..n] == MapTransBool(prompts[..n]);
      BestPromptNonNo(prompts[..n], env);
    }
  }

  /** No FOO!=n that the rewriting touches has FOO at m. */
  predicate NoModTested(e: Expr, env: Env) {
    match e
    case Bin(_, l, r) => NoModTested(l, env) && NoModTested(r, env)
    case Not(a) => NoModTested(a, env)
    case Unequal(l, r) => l.Type().Tristate? && r.SymNo? ==> env(l).tri != MOD
    case _ => true
  }

  /** Where the value itself counts, as in a select condition: it is kept as long as no symbol that is
      tested is at m, below ! as well. */
  lemma {:induction false} TransBoolKeepsValue(e: Expr, env: Env)
    requires WellTyped(env) && NoModTested(e, env)
    ensures Eval(TransBool(e), env) == Eval(e, env)
  {
    match e
    case Bin(op, l, r) =>
      TransBoolKeepsValue(l, env);
      TransBoolKeepsValue(r, env);
    case Not(a) => TransBoolKeepsValue(a, env);
    case Unequal(l, r) => assert l.IsBoolOrTristate() ==> env(l).str == Letter(env(l).tri);
    case _ =>
  }

  /** The condition is exact: the rewriting of one test keeps its value if and only if the symbol is
      not at m, and otherwise lowers it from y to m. */
  lemma TransBoolLeafIff(s: Sym, env: Env)
    requires WellTyped(env) && s.Type().Tristate?
    ensures Eval(TransBool(Unequal(s, SymNo)), env) == Eval(Unequal(s, SymNo), env) <==> env(s).tri != MOD
    ensures env(s).tri == MOD ==>
      Eval(Unequal(s, SymNo), env) == YES && Eval(TransBool(Unequal(s, SymNo)), env) == MOD
  {
    assert env(s).str == Letter(env(s).tri);
  }

  /** Below a ! the rewriting keeps "is not n" under the same condition only. */
  lemma TransBoolBelowNotIff(s: Sym, env: Env)
    requires WellTyped(env) && s.Type().Tristate?
    ensures var e := Not(Unequal(s, SymNo));
      (Eval(TransBool(e), env) == NO <==> Eval(e, env) == NO) <==> env(s).tri != MOD
  {
    assert env(s).str == Letter(env(s).tri);
  }

  // ---------- expr_trans_compare ----------

  function NotIf(ne: bool, e: Expr): Expr {
    if ne then Not(e) else e
  }

  /** expr_trans_compare with E_UNEQUAL (`ne`) or E_EQUAL against y, m or n. For m the two-operand
      cases return the expression itself. */
  function TransCompare(e: Expr, ne: bool, sym: Sym): Expr
    requires sym.IsFixed()
  {
    match e
    case Bin(op, l, r) =>
      var a := TransCompare(l, false, sym);
      var b := TransCompare(r, false, sym);
      NotIf(ne, if sym.SymYes? then Bin(op, a, b) else if sym.SymNo? then Bin(Other(op), a, b) else e)
    case Not(a) => TransCompare(a, !ne, sym)
    case Symbol(s) => if ne then Unequal(s, sym) else Equal(s, sym)
    case _ =>
      if sym.SymMod? then Symbol(if ne then SymYes else SymNo)
      else NotIf(ne == sym.SymYes?, e)
  }

  function TransCompareOpt(e: Option<Expr>, ne: bool, sym: Sym): Expr
    requires sym.IsFixed()
  {
    if e.None? then NotIf(ne, Symbol(sym)) else TransCompare(e.value, ne, sym)
  }

  function Truth(b: bool): Tri {
    if b then YES else NO
  }

  /** What expr_trans_compare takes for "e is y" or "e is n": symbols are looked at through their
      strings, and ! turns the answer round. */
  predicate Reads(e: Expr, sym: Sym, env: Env) {
    match e
    case Bin(op, l, r) =>
      if op.AndOp? == sym.SymYes? then Reads(l, sym, env) && Reads(r, sym, env)
      else Reads(l, sym, env) || Reads(r, sym, env)
    case Not(a) => !Reads(a, sym, env)
    case Symbol(s) => env(s).str == env(sym).str
    case _ => Eval(e, env) == env(sym).tri
  }

  /** What the rewritten comparison means, in every environment in which y and n have their values. */
  lemma {:induction false} TransCompareMeans(e: Expr, ne: bool, sym: Sym, env: Env)
    requires sym.SymYes? || sym.SymNo?
    requires ConstantsFixed(env)
    ensures Eval(TransCompare(e, ne, sym), env) == Truth(Reads(e, sym, env) != ne)
  {
    match e
    case Bin(op, l, r) =>
      TransCompareMeans(l, false, sym, env);
      TransCompareMeans(r, false, sym, env);
    case Not(a) => TransCompareMeans(a, !ne, sym, env);
    case _ =>
  }

  /** The comparison is right. */
  predicate Right(e: Expr, ne: bool, sym: Sym, env: Env)
    requires sym.IsFixed()
  {
    Eval(TransCompare(e, ne, sym), env) == Truth((Eval(e, env) == env(sym).tri) != ne)
  }

  /** A symbol says y (or n) in its string exactly when it is. All bool and tristate symbols and the
      fixed constants do. An undefined symbol is n and has its own name as string, so that FOO and
      FOO!=n disagree for it; the same goes for a string symbol used as a condition. */
  predicate Says(s: Sym, sym: Sym, env: Env) {
    env(s).str == env(sym).str <==> env(s).tri == env(sym).tri
  }

  predicate LeavesSay(e: Expr, sym: Sym, env: Env) {
    match e
    case Symbol(s) => Says(s, sym, env)
    case Not(a) => LeavesSay(a, sym, env)
    case Bin(_, l, r) => LeavesSay(l, sym, env) && LeavesSay(r, sym, env)
    case _ => true
  }

  /** Nothing below a ! is at m. */
  predicate DecidedBelowNot(e: Expr, env: Env) {
    match e
    case Not(a) => Eval(a, env) != MOD && DecidedBelowNot(a, env)
    case Bin(_, l, r) => DecidedBelowNot(l, env) && DecidedBelowNot(r, env)
    case _ => true
  }

  /** At a symbol the comparison is right if and only if the symbol says what it is. */
  lemma TransCompareLeafIff(s: Sym, ne: bool, sym: Sym, env: Env)
    requires sym.SymYes? || sym.SymNo?
    requires ConstantsFixed(env)
    ensures Right(Symbol(s), ne, sym, env) <==> Says(s, sym, env)
  {
    TransCompareMeans(Symbol(s), ne, sym, env);
  }

  /** At a !, whatever is below it: over an operand that is not m the comparison is right if and only
      if it is right for the operand, and over an operand at m if and only if it is wrong for it. */
  lemma TransCompareNotIff(a: Expr, ne: bool, sym: Sym, env: Env)
    requires sym.SymYes? || sym.SymNo?
    requires ConstantsFixed(env)
    ensures Right(Not(a), ne, sym, env) <==> (Right(a, !ne, sym, env) <==> Eval(a, env) != MOD)
  {
    TransCompareMeans(a, !ne, sym, env);
  }

  /** expr_trans_compare decides `e = sym` (or `e != sym`) for y and n, whatever symbols are at m, as
      long as the symbols say what they are and nothing below a ! is at m. */
  lemma {:induction false} TransCompareExact(e: Expr, ne: bool, sym: Sym, env: Env)
    requires sym.SymYes? || sym.SymNo?
    requires ConstantsFixed(env)
    requires LeavesSay(e, sym, env) && DecidedBelowNot(e, env)
    ensures Right(e, ne, sym, env)
    ensures Reads(e, sym, env) <==> Eval(e, env) == env(sym).tri
  {
    TransCompareMeans(e, ne, sym, env);
    match e
    case Bin(op, l, r) =>
      TransCompareExact(l, false, sym, env);
      TransCompareExact(r, false, sym, env);
    case Not(a) => TransCompareExact(a, !ne, sym, env);
    case _ =>
  }

  /** Bool and tristate symbols and the fixed constants say what they are. */
  lemma TypedSays(s: Sym, sym: Sym, env: Env)
    requires WellTyped(env) && (sym.SymYes? || sym.SymNo?)
    requires s.IsBoolOrTristate() || s.IsFixed()
    ensures Says(s, sym, env)
  {
    assert s.IsBoolOrTristate() ==> env(s).str == Letter(env(s).tri);
  }

  lemma {:induction false} NoModDecides(e: Expr, env: Env)
    requires NoMod(e, env)
    ensures DecidedBelowNot(e, env)
  {
    match e
    case Not(a) =>
      NoModIsTwoValued(a, env);
      NoModDecides(a, env);
    case Bin(_, l, r) =>
      NoModDecides(l, env);
      NoModDecides(r, env);
    case _ =>
  }

  // ---------- dependency on a symbol ----------

  /** expr_contains_symbol */
  predicate ContainsSymbol(e: Expr, s: Sym) {
    match e
    case Bin(_, l, r) => ContainsSymbol(l, s) || ContainsSymbol(r, s)
    case Not(a) => ContainsSymbol(a, s)
    case Symbol(t) => t == s
    case Equal(l, r) => l == s || r == s
    case Unequal(l, r) => l == s || r == s
  }

  /** expr_depends_symbol */
  predicate DependsSymbol(e: Expr, s: Sym) {
    match e
    case Bin(op, l, r) => op.AndOp? && (DependsSymbol(l, s) || DependsSymbol(r, s))
    case Symbol(t) => t == s
    case Equal(l, r) => l == s && (r.SymYes? || r.SymMod?)
    case Unequal(l, r) => l == s && r.SymNo?
    case Not(_) => false
  }

  /** A symbol at n says so. */
  predicate SaysNo(s: Sym, env: Env) {
    env(s).tri == NO ==> env(s).str == "n"
  }

  /** A condition that depends on a symbol is n whenever the symbol is, in every well-typed
      tristate environment in which a symbol at n says so. */
  lemma {:induction false} DependsMeansNeeds(e: Expr, s: Sym, env: Env)
    requires WellTyped(env) && SaysNo(s, env)
    requires DependsSymbol(e, s)
    ensures Eval(e, env) != NO ==> env(s).tri != NO
    ensures ContainsSymbol(e, s)
  {
    match e
    case Bin(op, l, r) =>
      if DependsSymbol(l, s) {
        DependsMeansNeeds(l, s, env);
      } else {
        DependsMeansNeeds(r, s, env);
      }
    case _ =>
  }

  /** For the test FOO!=n the condition is exact; it fails for a string symbol like FOO="abc". */
  lemma DependsLeafIff(s: Sym, env: Env)
    requires WellTyped(env)
    ensures DependsSymbol(Unequal(s, SymNo), s)
    ensures (Eval(Unequal(s, SymNo), env) != NO ==> env(s).tri != NO) <==> SaysNo(s, env)
  {
  }

  // ---------- automatic submenus ----------

  /** "is not n", simplified, as menu_finalize prepares both conditions (menu.c:375-377, 385-386). */
  function Simplified(e: Option<Expr>): Expr {
    EliminateDups(Transform(TransCompareOpt(e, true, SymNo)))
  }

  /** The test of menu.c:380-394: is the entry with condition `dep` a submenu entry of a symbol `s`
      whose own prompt has condition `prompt`? */
  predicate Adopts(prompt: Option<Expr>, dep: Option<Expr>, s: Sym) {
    && dep.Some?
    && ContainsSymbol(dep.value, s)
    && (DependsSymbol(dep.value, s)
        || EliminateEq(Simplified(dep), Simplified(prompt)).snd == Symbol(SymYes))
  }

  /** What menu_finalize takes for "the condition is not n". */
  predicate ReadsOn(e: Option<Expr>, env: Env) {
    e.Some? ==> !Reads(e.value, SymNo, env)
  }

  /** The prepared condition is y or n: its reading, in every well-typed tristate environment. */
  lemma SimplifiedMeans(e: Option<Expr>, env: Env)
    requires WellTyped(env)
    ensures Eval(Simplified(e), env) == Truth(ReadsOn(e, env))
  {
    var c := TransCompareOpt(e, true, SymNo);
    if e.Some? {
      TransCompareMeans(e.value, true, SymNo, env);
    }
    TransformKeepsValue(c, env);
    EliminateDupsDecides(Transform(c), env);
  }

  /** The reading of the condition is the condition. */
  ghost predicate Comparable(e: Option<Expr>, env: Env) {
    e.Some? ==> LeavesSay(e.value, SymNo, env) && DecidedBelowNot(e.value, env)
  }

  lemma SimplifiedExact(e: Option<Expr>, env: Env)
    requires WellTyped(env) && Comparable(e, env)
    ensures ReadsOn(e, env) <==> EvalOpt(e, env) != NO
    ensures Eval(Simplified(e), env) == Truth(EvalOpt(e, env) != NO)
  {
    SimplifiedMeans(e, env);
    if e.Some? {
      TransCompareExact(e.value, true, SymNo, env);
    }
  }

  /** What an adoption means in every well-typed tristate environment, whatever the conditions contain:
      the entry's condition depends on the symbol, or it cannot be read as on unless the prompt is. */
  lemma AdoptionMeans(prompt: Option<Expr>, dep: Option<Expr>, s: Sym, env: Env)
    requires WellTyped(env) && Adopts(prompt, dep, s)
    ensures DependsSymbol(dep.value, s) || (ReadsOn(dep, env) ==> ReadsOn(prompt, env))
  {
    if !DependsSymbol(dep.value, s) {
      SimplifiedMeans(prompt, env);
      SimplifiedMeans(dep, env);
      EliminateEqToYesImplies(Simplified(dep), Simplified(prompt), env);
    }
  }

  /** Automatic submenus are justified: an adopted entry can be active only if the symbol is, or the
      symbol's prompt is. Only two readings must not err, and each in one direction: that of the
      entry's condition when it is on, and that of the prompt when it is n. */
  lemma AdoptionJustified(prompt: Option<Expr>, dep: Option<Expr>, s: Sym, env: Env)
    requires WellTyped(env) && SaysNo(s, env)
    requires EvalOpt(dep, env) != NO ==> ReadsOn(dep, env)
    requires ReadsOn(prompt, env) ==> EvalOpt(prompt, env) != NO
    requires Adopts(prompt, dep, s)
    ensures EvalOpt(dep, env) != NO ==> env(s).tri != NO || EvalOpt(prompt, env) != NO
  {
    AdoptionMeans(prompt, dep, s, env);
    if DependsSymbol(dep.value, s) {
      DependsMeansNeeds(dep.value, s, env);
    }
  }

  /** In particular when all symbols say what they are and m does not occur below a !. */
  lemma AdoptionJustifiedWhenComparable(prompt: Option<Expr>, dep: Option<Expr>, s: Sym, env: Env)
    requires WellTyped(env) && SaysNo(s, env)
    requires Comparable(prompt, env) && Comparable(dep, env)
    requires Adopts(prompt, dep, s)
    ensures EvalOpt(dep, env) != NO ==> env(s).tri != NO || EvalOpt(prompt, env) != NO
  {
    SimplifiedExact(prompt, env);
    SimplifiedExact(dep, env);
    AdoptionJustified(prompt, dep, s, env);
  }
}
