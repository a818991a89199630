/** The relation that the search for recursive dependencies follows is the one that evaluation follows,
    as far as the search looks (symbol.c). */
module EvaluationOrder {
  import opened Expressions
  import opened Comparisons
  import opened Symbols
  import opened Dependencies
  import opened ReportedWalks
  import opened DependencySearch
  import opened DependencyCheck

  // ---------- the symbols of a condition ----------

  /** They are the symbols that it contains. */
  lemma {:induction false} SymsIff(e: Expr, s: Sym)
    ensures s in Syms(e) <==> ContainsSymbol(e, s)
  {
    match e
    case Not(a) => SymsIff(a, s);
    case Bin(_, l, r) =>
      SymsIff(l, s);
      SymsIff(r, s);
    case _ =>
  }

  ghost predicate Agree(env: Env, env': Env, syms: set<Sym>) {
    forall s :: s in syms ==> env(s) == env'(s)
  }

  /** They determine its value. */
  lemma {:induction false} EvalOfSyms(e: Expr, env: Env, env': Env)
    requires Agree(env, env', Syms(e))
    ensures Eval(e, env) == Eval(e, env')
  {
    match e
    case Not(a) => EvalOfSyms(a, env, env');
    case Bin(_, l, r) =>
      EvalOfSyms(l, env, env');
      EvalOfSyms(r, env, env');
    case _ =>
  }

  lemma EvalOptOfSyms(e: Option<Expr>, env: Env, env': Env)
    requires Agree(env, env', SymsOpt(e))
    ensures EvalOpt(e, env) == EvalOpt(e, env')
  {
    if e.Some? {
      EvalOfSyms(e.value, env, env');
    }
  }

  // ---------- definitions as a graph ----------

  function PromptProps(prompts: seq<Option<Expr>>): seq<Prop> {
    seq(|prompts|, i requires 0 <= i < |prompts| => Prop(OtherProp, prompts[i], None))
  }

  function DefaultProps(defaults: seq<Default>): seq<Prop> {
    seq(|defaults|, i requires 0 <= i < |defaults| => Prop(DefaultProp, defaults[i].cond, Some(defaults[i].value)))
  }

  function GraphWith(db: Db, props: Sym -> seq<Prop>): Graph {
    Graph(s => db.defs(s).revDep, props, s => false, s => [], s => None)
  }

  /** What sym_check_sym_deps finds: the reverse dependency, prompts and defaults. The properties that
      select other symbols are skipped. */
  function Searched(db: Db): Graph {
    GraphWith(db, s => PromptProps(db.defs(s).prompts) + DefaultProps(db.defs(s).defaults))
  }

  predicate HasComparison(e: Expr) {
    match e
    case Symbol(_) => false
    case Equal(l, r) => l.Type().Tristate? || r.Type().Tristate?
    case Unequal(l, r) => l.Type().Tristate? || r.Type().Tristate?
    case Not(a) => HasComparison(a)
    case Bin(_, l, r) => HasComparison(l) || HasComparison(r)
  }

  predicate HasComparisonOpt(e: Option<Expr>) {
    e.Some? && HasComparison(e.value)
  }

  /** Some condition compares the string of a tristate symbol, which depends on modules. */
  ghost predicate ComparesTristate(d: Def) {
    || (exists i :: 0 <= i < |d.prompts| && HasComparisonOpt(d.prompts[i]))
    || HasComparisonOpt(d.dirDep) || HasComparisonOpt(d.revDep)
    || (exists i :: 0 <= i < |d.selects| && (HasComparison(d.selects[i].cond) || HasComparison(d.selects[i].value)))
    || (exists i :: 0 <= i < |d.defaults| && (HasComparison(d.defaults[i].value) || HasComparisonOpt(d.defaults[i].cond)))
  }

  lemma {:induction false} PropsSymsIff(ps: seq<Prop>, n: nat, choice: bool, t: Sym)
    requires n <= |ps|
    ensures t in PropsSyms(ps, n, choice) <==> exists i :: 0 <= i < n && t in PropSyms(ps[i], choice)
  {
    if n > 0 {
      PropsSymsIff(ps, n - 1, choice, t);
    }
  }

  /** What the search looks at, for any symbol: the reverse dependency; the condition of every property
      but choices and selects; and the value of a default, unless the symbol is a choice. */
  lemma DepsIff(g: Graph, s: Sym, t: Sym)
    ensures t in Deps(g, s) <==>
      || (g.revDep(s).Some? && ContainsSymbol(g.revDep(s).value, t))
      || exists i :: 0 <= i < |g.props(s)| && LooksAt(g.props(s)[i], g.isChoice(s), t)
  {
    var ps, choice := g.props(s), g.isChoice(s);
    PropsSymsIff(ps, |ps|, choice, t);
    forall e ensures t in Syms(e) <==> ContainsSymbol(e, t) {
      SymsIff(e, t);
    }
    forall i | 0 <= i < |ps| ensures t in PropSyms(ps[i], choice) <==> LooksAt(ps[i], choice, t) {
    }
  }

  predicate LooksAt(p: Prop, choice: bool, t: Sym) {
    match p.kind
    case ChoiceProp => false
    case SelectProp => false
    case DefaultProp =>
      || (p.cond.Some? && ContainsSymbol(p.cond.value, t))
      || (!choice && p.value.Some? && ContainsSymbol(p.value.value, t))
    case OtherProp => p.cond.Some? && ContainsSymbol(p.cond.value, t)
  }

  lemma PropsAt(db: Db, s: Sym)
    ensures var d := db.defs(s); var ps := Searched(db).props(s);
      && |ps| == |d.prompts| + |d.defaults|
      && (forall i :: 0 <= i < |d.prompts| ==> ps[i] == Prop(OtherProp, d.prompts[i], None))
      && (forall i :: 0 <= i < |d.defaults| ==>
            ps[|d.prompts| + i] == Prop(DefaultProp, d.defaults[i].cond, Some(d.defaults[i].value)))
  {
  }

  ghost predicate InPrompt(d: Def, t: Sym) {
    exists i :: 0 <= i < |d.prompts| && t in SymsOpt(d.prompts[i])
  }

  ghost predicate InDefault(d: Def, t: Sym) {
    exists i :: 0 <= i < |d.defaults| && (t in SymsOpt(d.defaults[i].cond) || t in Syms(d.defaults[i].value))
  }

  lemma PropAt(db: Db, s: Sym, t: Sym, i: nat)
    requires i < |Searched(db).props(s)|
    ensures var d := db.defs(s); var n := |d.prompts|;
      t in PropSyms(Searched(db).props(s)[i], false) <==>
        if i < n then t in SymsOpt(d.prompts[i])
        else t in SymsOpt(d.defaults[i - n].cond) || t in Syms(d.defaults[i - n].value)
  {
    PropsAt(db, s);
    var n := |db.defs(s).prompts|;
    assert i >= n ==> Searched(db).props(s)[n + (i - n)] == Searched(db).props(s)[i];
  }

  /** The searched relation, written out: the reverse dependency, the conditions of prompts and defaults,
      and the values of defaults. */
  lemma SearchedIff(db: Db, s: Sym, t: Sym)
    ensures t in Deps(Searched(db), s) <==>
      t in SymsOpt(db.defs(s).revDep) || InPrompt(db.defs(s), t) || InDefault(db.defs(s), t)
  {
    var d, ps := db.defs(s), Searched(db).props(s);
    PropsSymsIff(ps, |ps|, false, t);
    PropsAt(db, s);
    hide Syms, SymsOpt, PropSyms, PropsSyms, Searched;
    if i :| 0 <= i < |ps| && t in PropSyms(ps[i], false) {
      PropAt(db, s, t, i);
    }
    if i :| 0 <= i < |d.prompts| && t in SymsOpt(d.prompts[i]) {
      PropAt(db, s, t, i);
    }
    if i :| 0 <= i < |d.defaults| && (t in SymsOpt(d.defaults[i].cond) || t in Syms(d.defaults[i].value)) {
      PropAt(db, s, t, |d.prompts| + i);
    }
    SearchedParts(db, s);
  }

  lemma SearchedParts(db: Db, s: Sym)
    ensures var ps := Searched(db).props(s);
      Deps(Searched(db), s) == SymsOpt(db.defs(s).revDep) + PropsSyms(ps, |ps|, false)
  {
  }

  // ---------- the evaluator looks at nothing else ----------

  lemma {:induction false} BelowIff(e: Expr, db: Db, rank: Rank, k: nat)
    ensures Below(e, db, rank, k) <==>
      (forall t :: t in Syms(e) ==> rank(t) < k) && (HasComparison(e) ==> rank(db.modules) < k)
  {
    match e
    case Not(a) => BelowIff(a, db, rank, k);
    case Bin(_, l, r) =>
      BelowIff(l, db, rank, k);
      BelowIff(r, db, rank, k);
    case _ =>
  }

  /** Where the environments agree on the symbols of a part, they agree below rank 1. */
  function Differs(env: Env, env': Env): Rank {
    (t: Sym) => if env(t) == env'(t) then 0 else 1
  }

  lemma PartsAgreeBelow(db: Db, s: Sym, env: Env, env': Env)
    requires env(SymYes) == env'(SymYes)
    requires Agree(env, env', Deps(Searched(db), s))
    requires forall i :: 0 <= i < |db.defs(s).selects| ==>
      Agree(env, env', Syms(db.defs(s).selects[i].cond)) && Agree(env, env', Syms(db.defs(s).selects[i].value))
    ensures BelowDef(db.defs(s).(dirDep := None), Db(db.defs, SymYes), Differs(env, env'), 1)
  {
    var rank, db' := Differs(env, env'), Db(db.defs, SymYes);
    hide Syms, SymsOpt, Deps, Searched;
    forall e | Agree(env, env', Syms(e)) ensures Below(e, db', rank, 1) {
      BelowIff(e, db', rank, 1);
    }
    forall e | Agree(env, env', SymsOpt(e)) ensures BelowOpt(e, db', rank, 1) {
      SomeSyms(e);
    }
    hide Agree, Below, BelowOpt;
    AgreeWithin(db, s, env, env');
  }

  /** The value of a symbol is determined by what it depends on in the searched relation and by the
      conditions and values of its selects. */
  lemma StepOfSearched(db: Db, u: User, s: Sym, m: Tri, env: Env, env': Env)
    requires WellTyped(env) && WellTyped(env')
    requires Agree(env, env', Deps(Searched(db), s))
    requires forall i :: 0 <= i < |db.defs(s).selects| ==>
      Agree(env, env', Syms(db.defs(s).selects[i].cond)) && Agree(env, env', Syms(db.defs(s).selects[i].value))
    ensures Step(db.defs(s), u, s, m, env) == Step(db.defs(s), u, s, m, env')
  {
    PartsAgreeBelow(db, s, env, env');
    hide Syms, Agree, Deps, Searched, BelowDef, Step, WellTyped;
    StepAgrees(db.defs(s).(dirDep := None), u, s, m, env, env', Db(db.defs, SymYes), Differs(env, env'), 1);
    NoDirectDep(db.defs(s), u, s, m, env);
    NoDirectDep(db.defs(s), u, s, m, env');
  }

  lemma SomeSyms(e: Option<Expr>)
    ensures e.Some? ==> SymsOpt(e) == Syms(e.value)
  {
  }

  lemma NoDirectDep(d: Def, u: User, s: Sym, m: Tri, env: Env)
    ensures Step(d.(dirDep := None), u, s, m, env) == Step(d, u, s, m, env)
  {
    SameSelected(d, |d.selects|, s, m, env);
    SameSelectFrom(d, 0, s, m, env);
  }

  lemma {:induction false} SameSelected(d: Def, n: nat, s: Sym, m: Tri, env: Env)
    requires n <= |d.selects|
    ensures SelectedTri(d.(dirDep := None), n, s, m, env) == SelectedTri(d, n, s, m, env)
  {
    if n > 0 {
      SameSelected(d, n - 1, s, m, env);
    }
  }

  lemma {:induction false} SameSelectFrom(d: Def, i: nat, s: Sym, m: Tri, env: Env)
    requires i <= |d.selects|
    ensures SelectFrom(d.(dirDep := None), i, s, m, env) == SelectFrom(d, i, s, m, env)
    decreases |d.selects| - i
  {
    if i < |d.selects| {
      SameSelectFrom(d, i + 1, s, m, env);
    }
  }

  /** Every part of the definition lies within the searched relation. */
  lemma PartsWithin(db: Db, s: Sym)
    ensures var d := db.defs(s); var deps := Deps(Searched(db), s);
      && SymsOpt(d.revDep) <= deps
      && (forall i :: 0 <= i < |d.prompts| ==> SymsOpt(d.prompts[i]) <= deps)
      && (forall i :: 0 <= i < |d.defaults| ==> SymsOpt(d.defaults[i].cond) <= deps && Syms(d.defaults[i].value) <= deps)
  {
    hide Deps, Syms, SymsOpt;
    forall t ensures t in Deps(Searched(db), s) <==>
      t in SymsOpt(db.defs(s).revDep) || InPrompt(db.defs(s), t) || InDefault(db.defs(s), t)
    {
      SearchedIff(db, s, t);
    }
  }

  lemma AgreeWithin(db: Db, s: Sym, env: Env, env': Env)
    requires Agree(env, env', Deps(Searched(db), s))
    ensures var d := db.defs(s);
      && Agree(env, env', SymsOpt(d.revDep))
      && (forall i :: 0 <= i < |d.prompts| ==> Agree(env, env', SymsOpt(d.prompts[i])))
      && (forall i :: 0 <= i < |d.defaults| ==>
            Agree(env, env', SymsOpt(d.defaults[i].cond)) && Agree(env, env', Syms(d.defaults[i].value)))
  {
    PartsWithin(db, s);
  }

  // ---------- all that is looked at ----------

  function DefaultParts(ds: seq<Default>): seq<Option<Expr>> {
    seq(|ds|, i requires 0 <= i < |ds| => ds[i].cond) + seq(|ds|, i requires 0 <= i < |ds| => Some(ds[i].value))
  }

  function SelectParts(ss: seq<SelectValue>): seq<Option<Expr>> {
    seq(|ss|, i requires 0 <= i < |ss| => Some(ss[i].cond)) + seq(|ss|, i requires 0 <= i < |ss| => Some(ss[i].value))
  }

  /** The conditions and values of a definition: besides those that the search looks at, the direct
      dependency and the selects that carry a value. */
  function Parts(d: Def): seq<Option<Expr>> {
    [d.revDep, d.dirDep] + d.prompts + DefaultParts(d.defaults) + SelectParts(d.selects)
  }

  ghost predicate OfDefault(ds: seq<Default>, e: Option<Expr>) {
    exists i :: 0 <= i < |ds| && (e == ds[i].cond || e == Some(ds[i].value))
  }

  ghost predicate OfSelect(ss: seq<SelectValue>, e: Option<Expr>) {
    exists i :: 0 <= i < |ss| && (e == Some(ss[i].cond) || e == Some(ss[i].value))
  }

  lemma DefaultPartsIff(ds: seq<Default>, e: Option<Expr>)
    ensures e in DefaultParts(ds) <==> OfDefault(ds, e)
  {
    var ps, n := DefaultParts(ds), |ds|;
    assert forall i :: 0 <= i < n ==> ps[i] == ds[i].cond && ps[n + i] == Some(ds[i].value);
    if e in ps {
      var k :| 0 <= k < |ps| && ps[k] == e;
      assert k >= n ==> ps[n + (k - n)] == Some(ds[k - n].value);
    }
    if i :| 0 <= i < n && (e == ds[i].cond || e == Some(ds[i].value)) {
      assert ps[i] in ps && ps[n + i] in ps;
    }
  }

  lemma SelectPartsIff(ss: seq<SelectValue>, e: Option<Expr>)
    ensures e in SelectParts(ss) <==> OfSelect(ss, e)
  {
    var ps, n := SelectParts(ss), |ss|;
    assert forall i :: 0 <= i < n ==> ps[i] == Some(ss[i].cond) && ps[n + i] == Some(ss[i].value);
    if e in ps {
      var k :| 0 <= k < |ps| && ps[k] == e;
      assert k >= n ==> ps[n + (k - n)] == Some(ss[k - n].value);
    }
    if i :| 0 <= i < n && (e == Some(ss[i].cond) || e == Some(ss[i].value)) {
      assert ps[i] in ps && ps[n + i] in ps;
    }
  }

  lemma PartsIff(d: Def, e: Option<Expr>)
    ensures e in Parts(d) <==>
      e == d.revDep || e == d.dirDep || e in d.prompts || OfDefault(d.defaults, e) || OfSelect(d.selects, e)
  {
    hide DefaultParts, SelectParts;
    DefaultPartsIff(d.defaults, e);
    SelectPartsIff(d.selects, e);
  }

  /** Some part compares the string of a tristate symbol, which depends on modules. */
  ghost predicate Compares(d: Def) {
    exists e :: e in Parts(d) && HasComparisonOpt(e)
  }

  ghost function ModulesPart(db: Db, s: Sym): Option<Expr> {
    if Compares(db.defs(s)) then Some(Symbol(db.modules)) else None
  }

  /** The whole relation that sym_calc_value follows. */
  ghost function Needed(db: Db): Graph {
    Graph(
      s => ModulesPart(db, s),
      s => PromptProps(Parts(db.defs(s))),
      s => false, s => [], s => None)
  }

  lemma NeededIff(db: Db, s: Sym, t: Sym)
    ensures t in Deps(Needed(db), s) <==>
      (Compares(db.defs(s)) && t == db.modules) || exists e :: e in Parts(db.defs(s)) && t in SymsOpt(e)
  {
    var parts := Parts(db.defs(s));
    var ps := Needed(db).props(s);
    PropsSymsIff(ps, |ps|, false, t);
    assert ps == PromptProps(parts);
    hide Parts, Compares, Syms, PropsSyms;
    assert t in SymsOpt(ModulesPart(db, s)) <==> Compares(db.defs(s)) && t == db.modules by {
      assert Syms(Symbol(db.modules)) == {db.modules};
    }
    forall i | 0 <= i < |parts| ensures t in PropSyms(ps[i], false) <==> t in SymsOpt(parts[i]) {
    }
    NeededParts(db, s);
  }

  lemma NeededParts(db: Db, s: Sym)
    ensures var ps := Needed(db).props(s);
      Deps(Needed(db), s) == SymsOpt(ModulesPart(db, s)) + PropsSyms(ps, |ps|, false)
  {
  }

  lemma SearchedIsNeeded(db: Db, s: Sym)
    ensures Deps(Searched(db), s) <= Deps(Needed(db), s)
  {
    hide Deps, Parts, Syms, SymsOpt, Compares;
    var d := db.defs(s);
    forall t | t in Deps(Searched(db), s) ensures t in Deps(Needed(db), s) {
      SearchedIff(db, s, t);
      NeededIff(db, s, t);
      if t in SymsOpt(d.revDep) {
        PartsIff(d, d.revDep);
      } else if InPrompt(d, t) {
        var i :| 0 <= i < |d.prompts| && t in SymsOpt(d.prompts[i]);
        PartsIff(d, d.prompts[i]);
      } else {
        var i :| 0 <= i < |d.defaults| && (t in SymsOpt(d.defaults[i].cond) || t in Syms(d.defaults[i].value));
        PartsIff(d, d.defaults[i].cond);
        PartsIff(d, Some(d.defaults[i].value));
        SomeSyms(Some(d.defaults[i].value));
      }
    }
  }

  // ---------- ranks ----------

  lemma BelowOptIff(e: Option<Expr>, db: Db, rank: Rank, k: nat)
    ensures BelowOpt(e, db, rank, k) <==>
      (forall t :: t in SymsOpt(e) ==> rank(t) < k) && (HasComparisonOpt(e) ==> rank(db.modules) < k)
  {
    if e.Some? {
      BelowIff(e.value, db, rank, k);
    }
  }

  lemma BelowPartsIff(d: Def, db: Db, rank: Rank, k: nat)
    ensures BelowDef(d, db, rank, k) <==> forall e :: e in Parts(d) ==> BelowOpt(e, db, rank, k)
  {
    hide Below, Parts;
    forall e ensures e in Parts(d) <==>
      e == d.revDep || e == d.dirDep || e in d.prompts || OfDefault(d.defaults, e) || OfSelect(d.selects, e)
    {
      PartsIff(d, e);
    }
    if forall e :: e in Parts(d) ==> BelowOpt(e, db, rank, k) {
      forall i | 0 <= i < |d.selects|
        ensures Below(d.selects[i].cond, db, rank, k) && Below(d.selects[i].value, db, rank, k)
      {
        assert BelowOpt(Some(d.selects[i].cond), db, rank, k) && BelowOpt(Some(d.selects[i].value), db, rank, k);
      }
      forall i | 0 <= i < |d.defaults|
        ensures Below(d.defaults[i].value, db, rank, k) && BelowOpt(d.defaults[i].cond, db, rank, k)
      {
        assert BelowOpt(Some(d.defaults[i].value), db, rank, k);
      }
    }
  }

  /** A definition is below a rank exactly when everything it needs is. */
  lemma BelowNeededIff(db: Db, s: Sym, rank: Rank, k: nat)
    ensures BelowDef(db.defs(s), db, rank, k) <==> forall t :: t in Deps(Needed(db), s) ==> rank(t) < k
  {
    var d := db.defs(s);
    BelowPartsIff(d, db, rank, k);
    hide BelowDef, Parts, Deps, SymsOpt, Below, BelowOpt, HasComparisonOpt;
    forall e ensures BelowOpt(e, db, rank, k) <==>
      (forall t :: t in SymsOpt(e) ==> rank(t) < k) && (HasComparisonOpt(e) ==> rank(db.modules) < k)
    {
      BelowOptIff(e, db, rank, k);
    }
    forall t ensures t in Deps(Needed(db), s) <==>
      (Compares(d) && t == db.modules) || exists e :: e in Parts(d) && t in SymsOpt(e)
    {
      NeededIff(db, s, t);
    }
    hide Needed;
  }

  // ---------- an order of evaluation exists if and only if there is no cycle ----------

  const EMPTY: Def := Def([], None, None, [], [])

  /** The symbols that have a definition, with all that they need. */
  ghost predicate Known(db: Db, all: set<Sym>) {
    && (forall s: Sym :: s in all ==> Deps(Needed(db), s) <= all)
    && (forall s: Sym :: s !in all || !IsComputed(s) ==> db.defs(s) == EMPTY)
  }

  lemma EmptyNeedsNothing(db: Db, s: Sym)
    requires db.defs(s) == EMPTY
    ensures Deps(Needed(db), s) == {}
  {
    hide Deps;
    forall e | e in Parts(EMPTY) ensures e == None {
      PartsIff(EMPTY, e);
    }
    forall t ensures t !in Deps(Needed(db), s) {
      NeededIff(db, s, t);
    }
  }

  ghost predicate Falls(g: Graph, rank: Rank) {
    forall s, t :: t in Deps(g, s) ==> rank(t) < rank(s)
  }

  /** Evaluation ends exactly along ranks that fall with every need. */
  lemma AcyclicIff(db: Db, all: set<Sym>, rank: Rank)
    requires Known(db, all)
    ensures Acyclic(db, rank) <==> Falls(Needed(db), rank)
  {
    hide Deps, BelowDef;
    forall s ensures BelowDef(db.defs(s), db, rank, rank(s)) <==> forall t :: t in Deps(Needed(db), s) ==> rank(t) < rank(s) {
      BelowNeededIff(db, s, rank, rank(s));
    }
    forall s: Sym | !IsComputed(s) ensures Deps(Needed(db), s) == {} {
      EmptyNeedsNothing(db, s);
    }
    hide Needed;
  }

  ghost predicate Plain(g: Graph) {
    forall s: Sym :: !g.isChoice(s) && g.choiceOf(s) == None && g.members(s) == []
  }

  /** Along a path ranks fall. */
  lemma {:induction false} RanksFall(g: Graph, rank: Rank, p: seq<Node>, i: nat)
    requires Plain(g) && Falls(g, rank) && i < |p| && IsPath(g, p) && p[0].Single?
    ensures p[i].Single? && rank(p[i].sym) + i <= rank(p[0].sym)
  {
    if i > 0 {
      hide Deps;
      RanksFall(g, rank, p, i - 1);
      assert Succ(g, p[i - 1], p[i - 1 + 1]);
    }
  }

  function Position(fin: seq<Node>, n: Node): (i: nat)
    ensures i <= |fin| && (i < |fin| ==> fin[i] == n)
    ensures forall j :: 0 <= j < i ==> fin[j] != n
  {
    if fin == [] || fin[0] == n then 0 else 1 + Position(fin[1..], n)
  }

  function PositionRank(fin: seq<Node>): Rank {
    (s: Sym) => Position(fin, Single(s))
  }

  lemma OrderGivesRank(g: Graph, all: set<Sym>, fin: seq<Node>)
    requires Plain(g) && Ordered(g, fin)
    requires forall s :: s in all ==> Single(s) in fin
    requires forall s: Sym :: s !in all ==> Deps(g, s) == {}
    ensures Falls(g, PositionRank(fin))
  {
    hide Deps;
    var rank := PositionRank(fin);
    forall s, t | t in Deps(g, s) ensures rank(t) < rank(s) {
      var i := Position(fin, Single(s));
      assert Succ(g, fin[i], NodeOf(g, t));
      assert Single(t) in fin[..i];
      var k :| 0 <= k < i && fin[..i][k] == Single(t);
      assert fin[k] == Single(t);
    }
  }

  lemma FallsIff(g: Graph, all: set<Sym>)
    requires Plain(g)
    requires forall s: Sym :: if s in all then Deps(g, s) <= all else Deps(g, s) == {}
    ensures (exists rank: Rank :: Falls(g, rank)) <==> !HasCycle(g, all)
  {
    if rank: Rank :| Falls(g, rank) {
      if HasCycle(g, all) {
        var p: seq<Node> :| |p| >= 2 && IsPath(g, p) && p[0] == p[|p| - 1]
                            && exists s :: s in all && NodeOf(g, s) == p[0];
        RanksFall(g, rank, p, |p| - 1);
      }
    }
    if !HasCycle(g, all) {
      hide Deps;
      assert NodesClosed(g, Nodes(g, all));
      var fin := AcyclicMeansOrdered(g, all);
      OrderGivesRank(g, all, fin);
    }
  }

  /** Values can be computed one after the other if and only if the whole relation has no cycle. */
  lemma EvaluableIff(db: Db, all: set<Sym>)
    requires Known(db, all)
    ensures (exists rank: Rank :: Acyclic(db, rank)) <==> !HasCycle(Needed(db), all)
  {
    hide Deps, Acyclic, Falls;
    forall s: Sym | s !in all ensures Deps(Needed(db), s) == {} {
      EmptyNeedsNothing(db, s);
    }
    FallsIff(Needed(db), all);
    forall rank: Rank ensures Acyclic(db, rank) <==> Falls(Needed(db), rank) {
      AcyclicIff(db, all, rank);
    }
    hide Needed, HasCycle;
    if rank: Rank :| Falls(Needed(db), rank) {
      assert Acyclic(db, rank);
    }
  }

  // ---------- what a sweep says about evaluation ----------

  lemma SearchedFits(db: Db, all: set<Sym>)
    requires Known(db, all)
    ensures Closed(Searched(db), all) && Plain(Searched(db)) && !Tangled(Searched(db))
  {
    hide Deps;
    forall s | s in all ensures Deps(Searched(db), s) <= all {
      SearchedIsNeeded(db, s);
    }
  }

  /** A cycle that the search follows is a cycle of evaluation. */
  lemma SearchedCycle(db: Db, all: set<Sym>)
    requires Known(db, all) && HasCycle(Searched(db), all)
    ensures HasCycle(Needed(db), all)
  {
    hide Deps, Searched, Needed;
    PlainGraphs(db);
    var p: seq<Node> :| |p| >= 2 && IsPath(Searched(db), p) && p[0] == p[|p| - 1]
                        && exists s :: s in all && NodeOf(Searched(db), s) == p[0];
    forall i | 0 <= i < |p| - 1 ensures Succ(Needed(db), p[i], p[i + 1]) {
      assert Succ(Searched(db), p[i], p[i + 1]);
      if p[i].Single? {
        SearchedIsNeeded(db, p[i].sym);
      }
    }
    assert IsPath(Needed(db), p);
  }

  lemma PlainGraphs(db: Db)
    ensures Plain(Searched(db)) && Plain(Needed(db))
  {
  }

  /** Every need is one that the search follows. */
  ghost predicate NothingHidden(db: Db, all: set<Sym>) {
    forall s :: s in all ==> Deps(Needed(db), s) <= Deps(Searched(db), s)
  }

  /** Then the two relations have the same cycles. */
  lemma NeededCycle(db: Db, all: set<Sym>)
    requires Known(db, all) && NothingHidden(db, all) && HasCycle(Needed(db), all)
    ensures HasCycle(Searched(db), all)
  {
    hide Deps, Searched, Needed;
    PlainGraphs(db);
    var p: seq<Node> :| |p| >= 2 && IsPath(Needed(db), p) && p[0] == p[|p| - 1]
                        && exists s :: s in all && NodeOf(Needed(db), s) == p[0];
    forall i | 0 <= i < |p| - 1 ensures Succ(Searched(db), p[i], p[i + 1]) {
      assert Succ(Needed(db), p[i], p[i + 1]);
      if p[i].Single? && p[i].sym !in all {
        EmptyNeedsNothing(db, p[i].sym);
      }
    }
    assert IsPath(Searched(db), p);
  }

  /** The loop after parsing, on a table of definitions: a report means that evaluation would not end, and
      without one, if nothing is hidden from the search, every value can be computed. */
  method SweepDefinitions(db: Db, ghost all: set<Sym>, syms: seq<Sym>) returns (errors: int, ghost silent: bool)
    requires Known(db, all) && all == set s | s in syms
    ensures errors == 0
    ensures silent <==> !HasCycle(Searched(db), all)
    ensures !silent ==> !exists rank: Rank :: Acyclic(db, rank)
    ensures NothingHidden(db, all) ==> (silent <==> exists rank: Rank :: Acyclic(db, rank))
  {
    SearchedFits(db, all);
    hide Deps, Closed, HasCycle, Tangled, Known, NothingHidden, Acyclic;
    var checker := new Checker(Searched(db), all);
    errors := checker.Sweep(syms);
    silent := checker.cycles == [];
    EvaluableIff(db, all);
    if !silent {
      SearchedCycle(db, all);
    } else if NothingHidden(db, all) && HasCycle(Needed(db), all) {
      NeededCycle(db, all);
    }
  }

  // ---------- what is hidden ----------

  const LEFT: Sym := Config("L", Boolean)
  const RIGHT: Sym := Config("R", Boolean)

  /** Two symbols that set each other by `select` with a value. */
  function MutualDb(): Db {
    Db(
      (s: Sym) =>
        if s == LEFT then Def([], None, None, [SelectValue(Symbol(RIGHT), Symbol(SymYes))], [])
        else if s == RIGHT then Def([], None, None, [SelectValue(Symbol(LEFT), Symbol(SymYes))], [])
        else EMPTY,
      SymNo)
  }

  /** The search follows nothing there, although no order of evaluation exists. */
  lemma SelectsAreHidden(rank: Rank)
    ensures forall s :: Deps(Searched(MutualDb()), s) == {}
    ensures !Acyclic(MutualDb(), rank)
  {
    var db := MutualDb();
    forall s, t ensures t !in Deps(Searched(db), s) {
      SearchedIff(db, s, t);
    }
    assert db.defs(LEFT).selects[0].cond == Symbol(RIGHT) && db.defs(RIGHT).selects[0].cond == Symbol(LEFT);
  }
}
