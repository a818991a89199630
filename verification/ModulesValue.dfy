/** The value that switches modules on is itself computed under the value it had before: when does
    sym_clear_all_valid reach a state in which the two agree (symbol.c)? */
module ModulesValue {
  import opened Expressions
  import opened Comparisons
  import opened Symbols

  /** The modules symbol comes before all tristate symbols. */
  ghost predicate ModulesFirst(db: Db, rank: Rank) {
    forall s: Sym :: rank(s) <= rank(db.modules) ==> !s.Type().Tristate?
  }

  lemma {:induction false} SelectedTriSame(d: Def, n: nat, s: Sym, m: Tri, m': Tri, env: Env)
    requires n <= |d.selects| && !s.Type().Tristate?
    ensures SelectedTri(d, n, s, m, env) == SelectedTri(d, n, s, m', env)
  {
    if n > 0 {
      SelectedTriSame(d, n - 1, s, m, m', env);
    }
  }

  lemma {:induction false} SelectFromSame(d: Def, i: nat, s: Sym, m: Tri, m': Tri, env: Env)
    requires i <= |d.selects| && !s.Type().Tristate?
    ensures SelectFrom(d, i, s, m, env) == SelectFrom(d, i, s, m', env)
    decreases |d.selects| - i
  {
    if i < |d.selects| {
      SelectFromSame(d, i + 1, s, m, m', env);
    }
  }

  /** A symbol that is not tristate does not look at modules_val itself. */
  lemma StepSame(d: Def, u: User, s: Sym, m: Tri, m': Tri, env: Env)
    requires !s.Type().Tristate?
    ensures Step(d, u, s, m, env) == Step(d, u, s, m', env)
    ensures ToVal(s, Step(d, u, s, m, env), m) == ToVal(s, Step(d, u, s, m', env), m')
  {
    SelectedTriSame(d, |d.selects|, s, m, m', env);
    SelectFromSame(d, 0, s, m, m', env);
  }

  /** What comes before all tristate symbols has the same value whatever modules_val is. */
  lemma {:induction false} ValueSame(db: Db, u: User, m: Tri, m': Tri, rank: Rank, s: Sym)
    requires Acyclic(db, rank) && ModulesFirst(db, rank) && rank(s) <= rank(db.modules)
    ensures Value(db, u, m, rank, s) == Value(db, u, m', rank, s)
    ensures Values(db, u, m, rank)(s) == Values(db, u, m', rank)(s)
    decreases rank(s)
  {
    var env, env' := Values(db, u, m, rank), Values(db, u, m', rank);
    forall t: Sym | rank(t) < rank(s) ensures env(t) == env'(t) {
      ValueSame(db, u, m, m', rank, t);
    }
    ValuesSolve(db, u, m, rank, s);
    ValuesSolve(db, u, m', rank, s);
    StepAgrees(db.defs(s), u, s, m, env, env', db, rank, rank(s));
    StepSame(db.defs(s), u, s, m, m', env');
  }

  /** The recorded value after one sym_clear_all_valid that found `m` recorded. */
  function Recorded(db: Db, u: User, m: Tri, rank: Rank): Tri {
    Value(db, u, m, rank, db.modules).tri
  }

  /** If the modules symbol comes before all tristate symbols, one clearing reaches, from any recorded
      value, the one the definitions give; and what was calculated on the way under the old value is
      right under the new one. */
  lemma ModulesSettle(db: Db, u: User, m: Tri, rank: Rank)
    requires Acyclic(db, rank) && ModulesFirst(db, rank)
    ensures var m' := Recorded(db, u, m, rank);
      && Recorded(db, u, m', rank) == m'
      && forall s: Sym :: rank(s) <= rank(db.modules) ==> Value(db, u, m, rank, s) == Value(db, u, m', rank, s)
  {
    var m' := Recorded(db, u, m, rank);
    forall s: Sym | rank(s) <= rank(db.modules)
      ensures Value(db, u, m, rank, s) == Value(db, u, m', rank, s)
    {
      ValueSame(db, u, m, m', rank, s);
    }
  }

  // ---------- a modules symbol that depends on a tristate symbol ----------

  const T: Sym := Config("T", Tristate)
  const B: Sym := Config("B", Boolean)
  const M: Sym := Config("M", Boolean)

  function Defaulting(e: Expr): Def {
    Def([], None, None, [], [Default(e, None)])
  }

  /** T is m by default, B is !T and the modules symbol is !B. */
  function FlippingDb(): Db {
    Db(
      (s: Sym) =>
        if s == T then Defaulting(Symbol(SymMod))
        else if s == B then Defaulting(Not(Symbol(T)))
        else if s == M then Defaulting(Not(Symbol(B)))
        else Def([], None, None, [], []),
      M)
  }

  function InTurn(): Rank {
    (s: Sym) => if s == M then 3 else if s == B then 2 else if s.Config? then 1 else 0
  }

  lemma FlippingIsAcyclic()
    ensures Acyclic(FlippingDb(), InTurn())
  {
    var db, rank := FlippingDb(), InTurn();
    assert rank(T) == 1 && rank(B) == 2 && rank(M) == 3 && rank(SymMod) == 0;
    forall s: Sym | IsComputed(s) ensures BelowDef(db.defs(s), db, rank, rank(s)) {
      if s == B {
        assert Below(Not(Symbol(T)), db, rank, rank(s));
      } else if s == M {
        assert Below(Not(Symbol(B)), db, rank, rank(s));
      }
    }
  }

  lemma DefaultedValue(s: Sym, e: Expr, u: User, m: Tri, env: Env)
    requires s.IsBoolOrTristate()
    ensures Step(Defaulting(e), u, s, m, env).tri == Promote(s, m, Eval(e, env))
  {
    var d := Defaulting(e);
    assert Visible(d, s, m, env) == NO;
    assert SelectedTri(d, 0, s, m, env) == NO;
  }

  /** Without that condition there need not be any state in which the recorded value is right: here
      every clearing flips it, and B keeps the value calculated under the old one. */
  lemma ModulesMayFlip()
    ensures var u := User(map[], map[]);
      && Acyclic(FlippingDb(), InTurn())
      && Recorded(FlippingDb(), u, NO, InTurn()) == YES && Recorded(FlippingDb(), u, YES, InTurn()) == NO
      && Value(FlippingDb(), u, NO, InTurn(), B).tri == NO && Value(FlippingDb(), u, YES, InTurn(), B).tri == YES
  {
    FlippedUnder(NO);
    FlippedUnder(YES);
    FlippingIsAcyclic();
  }

  lemma FlippedUnder(m: Tri)
    requires m != MOD
    ensures var u := User(map[], map[]);
      && Value(FlippingDb(), u, m, InTurn(), B).tri == m
      && Recorded(FlippingDb(), u, m, InTurn()) == Neg(m)
  {
    var db, u, rank := FlippingDb(), User(map[], map[]), InTurn();
    var env := Values(db, u, m, rank);
    FlippingIsAcyclic();
    hide Acyclic;
    ValuesSolve(db, u, m, rank, SymMod);
    ValuesSolve(db, u, m, rank, T);
    ValuesSolve(db, u, m, rank, B);
    ValuesSolve(db, u, m, rank, M);
    DefaultedValue(T, Symbol(SymMod), u, m, env);
    DefaultedValue(B, Not(Symbol(T)), u, m, env);
    DefaultedValue(M, Not(Symbol(B)), u, m, env);
    assert env(SymMod).tri == MOD;
    hide Values, Value, Defaulting;
  }
}
