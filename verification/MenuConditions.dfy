/** What the conditions of menu entries are after menu_finalize, and what they mean (menu.c). */
module MenuConditions {
  import opened Expressions
  import opened EliminateConstants
  import opened ExprEquality
  import opened Operands
  import opened Transformation
  import opened Duplicates
  import opened Comparisons
  import opened MenuTree

  // ---------- handing down conditions keeps them normal ----------

  ghost predicate EntryNormal(e: Entry) {
    NormalOpt(e.dep) && (e.prompt.Some? ==> NormalOpt(e.prompt.value.cond))
  }

  lemma {:induction false} TransBoolKeepsNormal(e: Expr)
    requires Normal(e)
    ensures Normal(TransBool(e))
  {
    match e
    case Bin(_, l, r) =>
      TransBoolKeepsNormal(l);
      TransBoolKeepsNormal(r);
    case _ =>
  }

  lemma ConjoinKeepsNormal(base: Option<Expr>, e: Option<Expr>)
    requires NormalOpt(base)
    ensures NormalOpt(Conjoin(base, e))
  {
    if e.Some? {
      TransformNormalizes(e.value);
    }
    var c := AllocBin(AndOp, base, if e.None? then None else Some(Transform(e.value)));
    if c.Some? {
      EliminateDupsKeepsNormal(c.value);
    }
  }

  /** The conditions that expr_trans_bool is applied to are normal, whatever the Kconfig file says. */
  lemma PropagatedIsNormal(parentDep: Option<Expr>, e: Entry)
    requires NormalOpt(parentDep)
    ensures EntryNormal(Propagated(parentDep, e))
  {
    var base := Conjoin(parentDep, e.dep);
    ConjoinKeepsNormal(parentDep, e.dep);
    if e.prompt.Some? {
      ConjoinKeepsNormal(base, e.prompt.value.cond);
      var c := Conjoin(base, e.prompt.value.cond);
      if c.Some? {
        TransBoolKeepsNormal(c.value);
      }
    }
  }

  // ---------- the whole tree ----------

  ghost predicate TopNormal<M>(f: Forest<M>) {
    forall i :: 0 <= i < |f| ==> EntryNormal(f[i].entry)
  }

  ghost predicate AllNormal<M>(f: Forest<M>) {
    f == [] || (EntryNormal(f[0].entry) && AllNormal(f[0].kids) && AllNormal(f[1..]))
  }

  lemma {:induction false} PropagateAllNormal<M>(parentDep: Option<Expr>, f: Forest<M>)
    requires NormalOpt(parentDep)
    ensures TopNormal(PropagateAll(parentDep, f))
  {
    if f != [] {
      PropagatedIsNormal(parentDep, f[0].entry);
      PropagateAllNormal(parentDep, f[1..]);
    }
  }

  lemma {:induction false} AllNormalConcat<M>(f: Forest<M>, g: Forest<M>)
    ensures AllNormal(f + g) <==> AllNormal(f) && AllNormal(g)
  {
    if f == [] {
      assert f + g == g;
    } else {
      AllNormalConcat(f[1..], g);
      assert (f + g)[1..] == f[1..] + g;
    }
  }

  lemma {:induction false} FlattenAllNormal<M>(f: Forest<M>)
    requires AllNormal(f)
    ensures AllNormal(Flatten(f))
    decreases Count(f)
  {
    if f != [] {
      if f[0].kids != [] && !HasText(f[0].entry) {
        CountConcat(f[0].kids, f[1..]);
        AllNormalConcat(f[0].kids, f[1..]);
        FlattenAllNormal(f[0].kids + f[1..]);
      } else {
        FlattenAllNormal(f[1..]);
      }
    }
  }

  /** menu_finalize leaves every condition of the tree in normal form, if those of the entry it starts
      from and of its siblings are. */
  lemma {:induction false} FinalizeNormal<M>(f: Forest<M>)
    requires f != [] && TopNormal(f)
    ensures AllNormal(Finalize(f).taken) && TopNormal(Finalize(f).rest)
    decreases Count(f), 1
  {
    var n := f[0];
    assert EntryNormal(n.entry);
    if n.kids != [] {
      var kids := PropagateAll(ParentDep(n.entry), n.kids);
      PropagateCount(ParentDep(n.entry), n.kids);
      PropagateAllNormal(ParentDep(n.entry), n.kids);
      FinalizeAllNormal(kids);
      FlattenAllNormal(FinalizeAll(kids));
    } else if n.entry.sym.Some? {
      AdoptAllNormal(n.entry, f[1..]);
      FlattenAllNormal(AdoptAll(n.entry, f[1..]).taken);
    }
  }

  lemma {:induction false} FinalizeAllNormal<M>(f: Forest<M>)
    requires TopNormal(f)
    ensures AllNormal(FinalizeAll(f))
    decreases Count(f), 2
  {
    if f != [] {
      FinalizeNormal(f);
      var s := Finalize(f);
      FinalizeAllNormal(s.rest);
      AllNormalConcat(s.taken, FinalizeAll(s.rest));
    }
  }

  lemma {:induction false} AdoptAllNormal<M>(parent: Entry, f: Forest<M>)
    requires parent.sym.Some? && TopNormal(f)
    ensures AllNormal(AdoptAll(parent, f).taken) && TopNormal(AdoptAll(parent, f).rest)
    decreases Count(f), 2
  {
    if f != [] && AdoptsEntry(parent, f[0].entry) {
      FinalizeNormal(f);
      var s := Finalize(f);
      AdoptAllNormal(parent, s.rest);
      AllNormalConcat(s.taken, AdoptAll(parent, s.rest).taken);
    }
  }

  /** The root menu has no dependency and its title no condition, so that after menu_finalize every
      condition of the tree is normal, and every condition that was handed down on the way. */
  lemma TreeNormal<M>(root: Tree<M>)
    requires root.entry.dep == None && (root.entry.prompt.Some? ==> root.entry.prompt.value.cond == None)
    ensures AllNormal(Finalize([root]).taken)
    ensures NormalOpt(ParentDep(root.entry))
  {
    FinalizeNormal([root]);
  }

  // ---------- what a condition handed down means ----------

  /** The condition of an entry and what it inherits, before any simplification. */
  function Both(base: Option<Expr>, e: Option<Expr>, env: Env): Tri {
    Join(AndOp, EvalOpt(base, env), EvalOpt(e, env))
  }

  /** The new condition is the conjunction, of which only an m may have been decided. */
  lemma ConjoinMeans(base: Option<Expr>, e: Option<Expr>, env: Env)
    requires WellTyped(env)
    ensures Decides(Both(base, e, env), EvalOpt(Conjoin(base, e), env))
  {
    if e.Some? {
      TransformKeepsValue(e.value, env);
    }
    var c := AllocBin(AndOp, base, if e.None? then None else Some(Transform(e.value)));
    if c.Some? {
      EliminateDupsDecides(c.value, env);
    }
  }

  /** An entry after its parent has handed down its condition: its dependency, and its prompt, whose
      condition for a symbol that is not tristate is only looked at for being n. */
  lemma PropagatedMeans(parentDep: Option<Expr>, e: Entry, env: Env)
    requires WellTyped(env) && NormalOpt(parentDep)
    ensures var r := Propagated(parentDep, e);
      && Decides(Both(parentDep, e.dep, env), EvalOpt(r.dep, env))
      && (e.prompt.Some? ==> r.prompt.Some? && r.prompt.value.text == e.prompt.value.text)
      && (e.prompt.Some? ==>
            var c := Both(r.dep, e.prompt.value.cond, env);
            var v := EvalOpt(r.prompt.value.cond, env);
            c != MOD ==> if e.sym.Some? && !e.sym.value.Type().Tristate? then v == NO <==> c == NO else v == c)
  {
    var base := Conjoin(parentDep, e.dep);
    ConjoinKeepsNormal(parentDep, e.dep);
    ConjoinMeans(parentDep, e.dep, env);
    if e.prompt.Some? {
      ConjoinMeans(base, e.prompt.value.cond, env);
      ConjoinKeepsNormal(base, e.prompt.value.cond);
      var c := Conjoin(base, e.prompt.value.cond);
      if c.Some? {
        TransBoolKeepsNonNo(c.value, env);
      }
    }
  }

  function ConjoinAll(bases: seq<Option<Expr>>, conds: seq<Option<Expr>>): (r: seq<Option<Expr>>)
    requires |bases| == |conds|
    ensures |r| == |conds|
  {
    seq(|conds|, i requires 0 <= i < |conds| => Conjoin(bases[i], conds[i]))
  }

  /** All prompts of a symbol that is not tristate: what menu_finalize makes of their conditions leaves
      the visibility as it would be without expr_trans_bool, and, unless one of the conjunctions is
      at m, as the conditions before any simplification have it. */
  lemma PropagatedVisibility(bases: seq<Option<Expr>>, conds: seq<Option<Expr>>, modules: Tri, env: Env)
    requires WellTyped(env) && |bases| == |conds|
    requires forall i :: 0 <= i < |bases| ==> NormalOpt(bases[i])
    ensures Visibility(MapTransBool(ConjoinAll(bases, conds)), false, modules, env)
         == Visibility(ConjoinAll(bases, conds), false, modules, env)
    ensures (forall i :: 0 <= i < |bases| ==> Both(bases[i], conds[i], env) != MOD) ==>
      Visibility(MapTransBool(ConjoinAll(bases, conds)), false, modules, env)
        == if exists i :: 0 <= i < |bases| && Both(bases[i], conds[i], env) == YES then YES else NO
  {
    var all := ConjoinAll(bases, conds);
    forall i | 0 <= i < |all| ensures NormalOpt(all[i]) {
      ConjoinKeepsNormal(bases[i], conds[i]);
    }
    TransBoolKeepsVisibility(all, modules, env);
    forall i | 0 <= i < |all| ensures Decides(Both(bases[i], conds[i], env), EvalOpt(all[i], env)) {
      ConjoinMeans(bases[i], conds[i], env);
    }
    BestIsOne(all, env);
  }

  // ---------- the entries that are adopted ----------

  /** Adoption takes exactly a run of entries that qualify: all that it takes do, and what is left is
      empty or starts with one that does not. */
  lemma {:induction false} AdoptedQualify<M>(parent: Entry, f: Forest<M>)
    requires parent.sym.Some?
    ensures var taken := AdoptAll(parent, f).taken;
      forall i :: 0 <= i < |taken| ==> AdoptsEntry(parent, taken[i].entry)
    ensures var rest := AdoptAll(parent, f).rest; rest != [] ==> !AdoptsEntry(parent, rest[0].entry)
    decreases Count(f)
  {
    if f != [] && AdoptsEntry(parent, f[0].entry) {
      var s := Finalize(f);
      AdoptedQualify(parent, s.rest);
      assert s.taken == [s.taken[0]];
    }
  }

  /** So every entry that became a submenu in the tree is justified. */
  lemma SubmenuJustified<M>(parent: Entry, f: Forest<M>, i: nat, env: Env)
    requires parent.sym.Some? && i < |AdoptAll(parent, f).taken|
    requires WellTyped(env) && SaysNo(parent.sym.value, env)
    requires var prompt := if parent.prompt.Some? then parent.prompt.value.cond else None;
      ReadsOn(prompt, env) ==> EvalOpt(prompt, env) != NO
    requires var dep := OwnCond(AdoptAll(parent, f).taken[i].entry);
      EvalOpt(dep, env) != NO ==> ReadsOn(dep, env)
    ensures var prompt := if parent.prompt.Some? then parent.prompt.value.cond else None;
      EvalOpt(OwnCond(AdoptAll(parent, f).taken[i].entry), env) != NO ==>
        env(parent.sym.value).tri != NO || EvalOpt(prompt, env) != NO
  {
    AdoptedQualify(parent, f);
    var e := AdoptAll(parent, f).taken[i];
    assert AdoptsEntry(parent, e.entry);
    var prompt := if parent.prompt.Some? then parent.prompt.value.cond else None;
    AdoptionJustified(prompt, OwnCond(e.entry), parent.sym.value, env);
  }

  // ---------- who hands down what ----------

  /** An entry whose dependency is not n has a parent that is on: the choice symbol, if the parent is a
      choice; else the condition of the parent's prompt, if it has a prompt; else its dependency. */
  lemma ChildNeedsParent(p: Entry, e: Entry, env: Env)
    requires WellTyped(env)
    ensures var r := Propagated(ParentDep(p), e);
      var above := if p.choice && p.sym.Some? then env(p.sym.value).tri
                   else if p.prompt.Some? then EvalOpt(p.prompt.value.cond, env)
                   else EvalOpt(p.dep, env);
      && (EvalOpt(r.dep, env) != NO ==> above != NO && EvalOpt(e.dep, env) != NO)
      && (above == YES && EvalOpt(e.dep, env) == YES ==> EvalOpt(r.dep, env) == YES)
  {
    ConjoinMeans(ParentDep(p), e.dep, env);
  }

  // ---------- the entries that must be adopted ----------

  /** The condition of an entry: that of its prompt, if it has one. */
  predicate HasCondition(e: Entry, c: Expr) {
    if e.prompt.Some? then e.prompt.value.cond == Some(c) else e.dep == Some(c)
  }

  /** The conditions that depend on a symbol: the symbol itself, its comparisons with y or m, the test that
      it is not n, and conjunctions with one of these. */
  lemma DependingConditions(s: Sym, c: Expr, x: Expr)
    ensures DependsSymbol(Symbol(s), s) && DependsSymbol(Unequal(s, SymNo), s)
    ensures DependsSymbol(Equal(s, SymYes), s) && DependsSymbol(Equal(s, SymMod), s)
    ensures DependsSymbol(c, s) ==> DependsSymbol(Bin(AndOp, c, x), s) && DependsSymbol(Bin(AndOp, x, c), s)
  {
  }

  lemma {:induction false} DependsContains(e: Expr, s: Sym)
    requires DependsSymbol(e, s)
    ensures ContainsSymbol(e, s)
  {
    match e
    case Bin(op, l, r) =>
      if DependsSymbol(l, s) {
        DependsContains(l, s);
      } else {
        DependsContains(r, s);
      }
    case _ =>
  }

  /** An entry whose condition depends on the symbol of the one before it becomes its submenu. */
  lemma DependingIsAdopted(parent: Entry, e: Entry, c: Expr)
    requires parent.sym.Some? && HasCondition(e, c) && DependsSymbol(c, parent.sym.value)
    ensures AdoptsEntry(parent, e)
  {
    DependsContains(c, parent.sym.value);
  }

  lemma {:induction false} YesStays(op: Op, a: Expr)
    ensures EliminateOperands(op, a, Symbol(SymYes)).snd == Symbol(SymYes)
  {
    if IsOp(op, a) {
      YesStays(op, a.lhs);
      YesStays(op, a.rhs);
    }
  }

  /** If the prompt of the symbol has no condition, every following entry whose condition mentions the
      symbol becomes a submenu entry. */
  lemma MentioningIsAdopted(parent: Entry, e: Entry, c: Expr)
    requires parent.sym.Some? && (parent.prompt.Some? ==> parent.prompt.value.cond == None)
    requires HasCondition(e, c) && ContainsSymbol(c, parent.sym.value)
    ensures AdoptsEntry(parent, e)
  {
    var a, y := Simplified(Some(c)), Symbol(SymYes);
    assert Simplified(None) == y by {
      assert TransCompareOpt(None, true, SymNo) == Not(Symbol(SymNo));
      assert Transform(Not(Symbol(SymNo))) == y;
    }
    hide Simplified, EliminateOperands;
    if a.Bin? {
      YesStays(a.op, a);
    }
    assert EliminateEq(a, y).snd == y;
  }

  /** And so it does if all conjuncts of the prompt's condition, prepared for the comparison, are among
      those of the entry's condition. */
  lemma ImplyingIsAdopted(parent: Entry, e: Entry, c: Expr)
    requires parent.sym.Some? && HasCondition(e, c) && ContainsSymbol(c, parent.sym.value)
    requires var a := Simplified(Some(c));
      var b := Simplified(if parent.prompt.Some? then parent.prompt.value.cond else None);
      && IsOp(AndOp, a) && LiteralSpine(AndOp, a) && LiteralSpine(AndOp, b)
      && Open(AndOp, a) && Open(AndOp, b) && Ops(AndOp, b) <= Ops(AndOp, a)
    ensures AdoptsEntry(parent, e)
  {
    hide Simplified, EliminateEq, Ops, Open, LiteralSpine;
    ConjunctsLeaveYes(Simplified(Some(c)), Simplified(if parent.prompt.Some? then parent.prompt.value.cond else None));
  }
}
