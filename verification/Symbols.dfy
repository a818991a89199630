/** What a configuration means: the plain recursive reading of sym_calc_value (symbol.c), one
    symbol at a time, over a dependency graph without cycles. Choices are treated elsewhere. */
module Symbols {
  import opened Expressions
  import opened Comparisons

  // ---------- the definition of a symbol ----------

  datatype Default = Default(value: Expr, cond: Option<Expr>)

  /** select X = value if cond, where cond already contains the selecting symbol. */
  datatype SelectValue = SelectValue(cond: Expr, value: Expr)

  datatype Def = Def(
    prompts: seq<Option<Expr>>,
    dirDep: Option<Expr>,
    revDep: Option<Expr>,
    selects: seq<SelectValue>,
    defaults: seq<Default>)

  /** The definitions of all symbols, and the one that switches modules on. */
  datatype Db = Db(defs: Sym -> Def, modules: Sym)

  /** The values the user has given (SYMBOL_DEF_USER). */
  datatype User = User(tri: map<Sym, Tri>, str: map<Sym, string>)

  predicate IsString(s: Sym) {
    s.Type() in {Int, Hex, String}
  }

  /** Symbols whose value is computed; the others have value n and their name as string. */
  predicate IsComputed(s: Sym) {
    s.IsBoolOrTristate() || IsString(s)
  }

  function NameOf(s: Sym): string {
    match s
    case SymYes => "y"
    case SymMod => "m"
    case SymNo => "n"
    case Const(t) => t
    case Config(n, _) => n
  }

  /** sym_get_type answers S_BOOLEAN. */
  predicate ActsBoolean(s: Sym, modules: Tri) {
    s.Type().Boolean? || (s.Type().Tristate? && modules == NO)
  }

  function Promote(s: Sym, modules: Tri, t: Tri): Tri {
    if t == MOD && ActsBoolean(s, modules) then YES else t
  }

  // ---------- one symbol, given the others ----------

  function Visible(d: Def, s: Sym, modules: Tri, env: Env): Tri {
    Visibility(d.prompts, s.Type().Tristate?, modules, env)
  }

  function DirectDep(d: Def, env: Env): Tri {
    var t := EvalOpt(d.dirDep, env);
    if t == MOD then YES else t
  }

  function ReverseDep(d: Def, s: Sym, modules: Tri, env: Env): Tri {
    if d.revDep.None? then NO else Promote(s, modules, Eval(d.revDep.value, env))
  }

  function SelectTri(d: Def, i: nat, s: Sym, modules: Tri, env: Env): Tri
    requires i < |d.selects|
  {
    Promote(s, modules, Eval(d.selects[i].cond, env))
  }

  /** sym_get_default_prop: the first default whose condition is not n, or the number of defaults. */
  function DefaultFrom(defaults: seq<Default>, i: nat, env: Env): (r: nat)
    requires i <= |defaults|
    ensures i <= r <= |defaults|
    decreases |defaults| - i
  {
    if i == |defaults| || EvalOpt(defaults[i].cond, env) != NO then i
    else DefaultFrom(defaults, i + 1, env)
  }

  function DefaultTri(d: Def, env: Env): Tri {
    var i := DefaultFrom(d.defaults, 0, env);
    if i == |d.defaults| then NO
    else Join(AndOp, Eval(d.defaults[i].value, env), EvalOpt(d.defaults[i].cond, env))
  }

  /** The values of the first `n` selects that are on. */
  function SelectedTri(d: Def, n: nat, s: Sym, modules: Tri, env: Env): Tri
    requires n <= |d.selects|
  {
    if n == 0 then NO
    else
      var t := SelectedTri(d, n - 1, s, modules, env);
      if SelectTri(d, n - 1, s, modules, env) == NO then t
      else Join(OrOp, t, Eval(d.selects[n - 1].value, env))
  }

  function BaseTri(d: Def, u: User, s: Sym, modules: Tri, env: Env): Tri {
    var visible := Visible(d, s, modules, env);
    if visible != NO && s in u.tri then Join(AndOp, u.tri[s], visible) else DefaultTri(d, env)
  }

  function TriValue(d: Def, u: User, s: Sym, modules: Tri, env: Env): Tri {
    var t := Join(OrOp, BaseTri(d, u, s, modules, env), ReverseDep(d, s, modules, env));
    Promote(s, modules, Join(OrOp, t, SelectedTri(d, |d.selects|, s, modules, env)))
  }

  /** symbol.curr.val: bool and tristate symbols always hold "n" there. */
  function RawString(s: Sym, env: Env): string {
    if s.IsBoolOrTristate() then "n" else env(s).str
  }

  /** The first select that is on, or the number of selects. */
  function SelectFrom(d: Def, i: nat, s: Sym, modules: Tri, env: Env): (r: nat)
    requires i <= |d.selects|
    ensures i <= r <= |d.selects|
    decreases |d.selects| - i
  {
    if i == |d.selects| || SelectTri(d, i, s, modules, env) != NO then i
    else SelectFrom(d, i + 1, s, modules, env)
  }

  function StrValue(d: Def, u: User, s: Sym, modules: Tri, env: Env): string {
    var i := SelectFrom(d, 0, s, modules, env);
    var j := DefaultFrom(d.defaults, 0, env);
    if Visible(d, s, modules, env) != NO && s in u.str then u.str[s]
    else if i < |d.selects| && d.selects[i].value.Symbol? then RawString(d.selects[i].value.sym, env)
    else if j < |d.defaults| && d.defaults[j].value.Symbol? then RawString(d.defaults[j].value.sym, env)
    else ""
  }

  /** symbol.curr */
  datatype Cur = Cur(tri: Tri, str: string)

  /** sym_calc_value, with the values of the other symbols as an environment. */
  function Step(d: Def, u: User, s: Sym, modules: Tri, env: Env): Cur {
    if s.IsBoolOrTristate() then Cur(TriValue(d, u, s, modules, env), "n")
    else if IsString(s) then Cur(NO, StrValue(d, u, s, modules, env))
    else if s.IsFixed() then Cur(if s.SymYes? then YES else if s.SymMod? then MOD else NO, NameOf(s))
    else Cur(NO, NameOf(s))
  }

  /** sym_get_string_value next to the tristate value. */
  function ToVal(s: Sym, c: Cur, modules: Tri): Val {
    Val(c.tri,
      if !s.IsBoolOrTristate() then c.str
      else if c.tri == MOD && modules == NO then "n"
      else Letter(c.tri))
  }

  // ---------- dependency order ----------

  type Rank = Sym -> nat

  /** Everything sym_calc_value looks at when it evaluates `e` has a rank below `k`. Reading the
      string of a tristate symbol may compute the modules symbol. */
  predicate Below(e: Expr, db: Db, rank: Rank, k: nat) {
    match e
    case Symbol(s) => rank(s) < k
    case Equal(l, r) => Compared(l, db, rank, k) && Compared(r, db, rank, k)
    case Unequal(l, r) => Compared(l, db, rank, k) && Compared(r, db, rank, k)
    case Not(a) => Below(a, db, rank, k)
    case Bin(_, l, r) => Below(l, db, rank, k) && Below(r, db, rank, k)
  }

  predicate Compared(s: Sym, db: Db, rank: Rank, k: nat) {
    rank(s) < k && (s.Type().Tristate? ==> rank(db.modules) < k)
  }

  predicate BelowOpt(e: Option<Expr>, db: Db, rank: Rank, k: nat) {
    e.None? || Below(e.value, db, rank, k)
  }

  predicate BelowDef(d: Def, db: Db, rank: Rank, k: nat) {
    && (forall i :: 0 <= i < |d.prompts| ==> BelowOpt(d.prompts[i], db, rank, k))
    && BelowOpt(d.dirDep, db, rank, k)
    && BelowOpt(d.revDep, db, rank, k)
    && (forall i :: 0 <= i < |d.selects| ==>
          Below(d.selects[i].cond, db, rank, k) && Below(d.selects[i].value, db, rank, k))
    && (forall i :: 0 <= i < |d.defaults| ==>
          Below(d.defaults[i].value, db, rank, k) && BelowOpt(d.defaults[i].cond, db, rank, k))
  }

  /** The dependency graph has no cycle: dependencies have smaller ranks. */
  ghost predicate Acyclic(db: Db, rank: Rank) {
    forall s: Sym :: IsComputed(s) ==> BelowDef(db.defs(s), db, rank, rank(s))
  }

  ghost predicate AgreeBelow(env: Env, env': Env, rank: Rank, k: nat) {
    forall s: Sym :: rank(s) < k ==> env(s) == env'(s)
  }

  lemma {:induction false} EvalAgrees(e: Expr, env: Env, env': Env, db: Db, rank: Rank, k: nat)
    requires AgreeBelow(env, env', rank, k) && Below(e, db, rank, k)
    ensures Eval(e, env) == Eval(e, env')
  {
    match e
    case Not(a) => EvalAgrees(a, env, env', db, rank, k);
    case Bin(_, l, r) =>
      EvalAgrees(l, env, env', db, rank, k);
      EvalAgrees(r, env, env', db, rank, k);
    case Symbol(s) =>
    case Equal(l, r) =>
    case Unequal(l, r) =>
  }

  lemma EvalOptAgrees(e: Option<Expr>, env: Env, env': Env, db: Db, rank: Rank, k: nat)
    requires AgreeBelow(env, env', rank, k) && BelowOpt(e, db, rank, k)
    ensures EvalOpt(e, env) == EvalOpt(e, env')
  {
    if e.Some? {
      EvalAgrees(e.value, env, env', db, rank, k);
    }
  }

  lemma {:induction false} BestPromptAgrees(prompts: seq<Option<Expr>>, env: Env, env': Env, db: Db, rank: Rank, k: nat)
    requires AgreeBelow(env, env', rank, k)
    requires forall i :: 0 <= i < |prompts| ==> BelowOpt(prompts[i], db, rank, k)
    ensures BestPrompt(prompts, env) == BestPrompt(prompts, env')
  {
    if prompts != [] {
      var n := |prompts| - 1;
      EvalOptAgrees(prompts[n], env, env', db, rank, k);
      BestPromptAgrees(prompts[..n], env, env', db, rank, k);
    }
  }

  lemma {:induction false} DefaultFromAgrees(ds: seq<Default>, i: nat, env: Env, env': Env, db: Db, rank: Rank, k: nat)
    requires AgreeBelow(env, env', rank, k) && i <= |ds|
    requires forall j :: 0 <= j < |ds| ==> BelowOpt(ds[j].cond, db, rank, k)
    ensures DefaultFrom(ds, i, env) == DefaultFrom(ds, i, env')
    decreases |ds| - i
  {
    if i < |ds| {
      EvalOptAgrees(ds[i].cond, env, env', db, rank, k);
      DefaultFromAgrees(ds, i + 1, env, env', db, rank, k);
    }
  }

  lemma {:induction false} SelectsAgree(d: Def, n: nat, s: Sym, m: Tri, env: Env, env': Env, db: Db, rank: Rank, k: nat)
    requires AgreeBelow(env, env', rank, k) && n <= |d.selects| && BelowDef(d, db, rank, k)
    ensures forall i: nat :: i < n ==> SelectTri(d, i, s, m, env) == SelectTri(d, i, s, m, env')
    ensures SelectedTri(d, n, s, m, env) == SelectedTri(d, n, s, m, env')
  {
    if n > 0 {
      EvalAgrees(d.selects[n - 1].cond, env, env', db, rank, k);
      EvalAgrees(d.selects[n - 1].value, env, env', db, rank, k);
      SelectsAgree(d, n - 1, s, m, env, env', db, rank, k);
    }
  }

  lemma {:induction false} SelectFromAgrees(d: Def, i: nat, s: Sym, m: Tri, env: Env, env': Env)
    requires i <= |d.selects|
    requires forall j: nat :: j < |d.selects| ==> SelectTri(d, j, s, m, env) == SelectTri(d, j, s, m, env')
    ensures SelectFrom(d, i, s, m, env) == SelectFrom(d, i, s, m, env')
    decreases |d.selects| - i
  {
    if i < |d.selects| {
      SelectFromAgrees(d, i + 1, s, m, env, env');
    }
  }

  /** All that a symbol's state consists of depends on lower symbols only. */
  lemma PartsAgree(d: Def, u: User, s: Sym, m: Tri, env: Env, env': Env, db: Db, rank: Rank, k: nat)
    requires AgreeBelow(env, env', rank, k) && BelowDef(d, db, rank, k)
    ensures Visible(d, s, m, env) == Visible(d, s, m, env')
    ensures DirectDep(d, env) == DirectDep(d, env')
    ensures ReverseDep(d, s, m, env) == ReverseDep(d, s, m, env')
    ensures DefaultFrom(d.defaults, 0, env) == DefaultFrom(d.defaults, 0, env')
    ensures DefaultTri(d, env) == DefaultTri(d, env')
    ensures SelectedTri(d, |d.selects|, s, m, env) == SelectedTri(d, |d.selects|, s, m, env')
    ensures SelectFrom(d, 0, s, m, env) == SelectFrom(d, 0, s, m, env')
    ensures forall i: nat :: i < |d.selects| ==> SelectTri(d, i, s, m, env) == SelectTri(d, i, s, m, env')
  {
    BestPromptAgrees(d.prompts, env, env', db, rank, k);
    EvalOptAgrees(d.dirDep, env, env', db, rank, k);
    EvalOptAgrees(d.revDep, env, env', db, rank, k);
    DefaultFromAgrees(d.defaults, 0, env, env', db, rank, k);
    var i := DefaultFrom(d.defaults, 0, env);
    if i < |d.defaults| {
      EvalAgrees(d.defaults[i].value, env, env', db, rank, k);
      EvalOptAgrees(d.defaults[i].cond, env, env', db, rank, k);
    }
    SelectsAgree(d, |d.selects|, s, m, env, env', db, rank, k);
    SelectFromAgrees(d, 0, s, m, env, env');
  }

  lemma StepAgrees(d: Def, u: User, s: Sym, m: Tri, env: Env, env': Env, db: Db, rank: Rank, k: nat)
    requires AgreeBelow(env, env', rank, k)
    requires IsComputed(s) ==> BelowDef(d, db, rank, k)
    ensures Step(d, u, s, m, env) == Step(d, u, s, m, env')
  {
    if IsComputed(s) {
      PartsAgree(d, u, s, m, env, env', db, rank, k);
      if IsString(s) {
        var i := SelectFrom(d, 0, s, m, env);
        if i < |d.selects| {
          assert Below(d.selects[i].value, db, rank, k);
        }
        var j := DefaultFrom(d.defaults, 0, env);
        if j < |d.defaults| {
          assert Below(d.defaults[j].value, db, rank, k);
        }
      }
    }
  }

  // ---------- the recursive evaluator ----------

  /** The value of a symbol, computed from scratch by recursion along the ranks. */
  function Value(db: Db, u: User, m: Tri, rank: Rank, s: Sym): Cur
    decreases rank(s)
  {
    Step(db.defs(s), u, s, m,
      (t: Sym) => if rank(t) < rank(s) then ToVal(t, Value(db, u, m, rank, t), m) else Val(NO, ""))
  }

  /** The environment all these values make up. */
  function Values(db: Db, u: User, m: Tri, rank: Rank): Env {
    (t: Sym) => ToVal(t, Value(db, u, m, rank, t), m)
  }

  /** The values solve the equations of sym_calc_value, all of them at once. */
  lemma ValuesSolve(db: Db, u: User, m: Tri, rank: Rank, s: Sym)
    requires Acyclic(db, rank)
    ensures Value(db, u, m, rank, s) == Step(db.defs(s), u, s, m, Values(db, u, m, rank))
  {
    var lower := (t: Sym) => if rank(t) < rank(s) then ToVal(t, Value(db, u, m, rank, t), m) else Val(NO, "");
    StepAgrees(db.defs(s), u, s, m, lower, Values(db, u, m, rank), db, rank, rank(s));
  }

  /** They are the only solution: any environment that satisfies the equations is this one. */
  lemma {:induction false} SolutionUnique(db: Db, u: User, m: Tri, rank: Rank, env: Env, s: Sym)
    requires Acyclic(db, rank)
    requires forall t: Sym :: env(t) == ToVal(t, Step(db.defs(t), u, t, m, env), m)
    ensures env(s) == Values(db, u, m, rank)(s)
    decreases rank(s)
  {
    var env' := Values(db, u, m, rank);
    forall t: Sym | rank(t) < rank(s)
      ensures env(t) == env'(t)
    {
      SolutionUnique(db, u, m, rank, env, t);
    }
    ValuesSolve(db, u, m, rank, s);
    StepAgrees(db.defs(s), u, s, m, env, env', db, rank, rank(s));
  }

  /** The environment is well typed in the sense the rewriting of expressions relies on, and with
      modules off no symbol but the constant m is at m. */
  lemma ValuesWellTyped(db: Db, u: User, m: Tri, rank: Rank)
    requires Acyclic(db, rank)
    ensures WellTyped(Values(db, u, m, rank))
    ensures m == NO ==> forall s: Sym :: !s.SymMod? ==> Values(db, u, m, rank)(s).tri != MOD
  {
    var env := Values(db, u, m, rank);
    forall s: Sym
      ensures s.Type() == Boolean ==> env(s).tri != MOD
      ensures s.IsBoolOrTristate() ==> env(s).str == Letter(env(s).tri)
      ensures s.IsConst() ==> env(s).str == NameOf(s)
      ensures m == NO && !s.SymMod? ==> env(s).tri != MOD
    {
      ValuesSolve(db, u, m, rank, s);
    }
    ValuesSolve(db, u, m, rank, SymYes);
    ValuesSolve(db, u, m, rank, SymMod);
    ValuesSolve(db, u, m, rank, SymNo);
  }

  /** SYMBOL_WRITE after a calculation: the symbol is visible, or something else than the user
      determines its value. */
  predicate Writes(db: Db, u: User, m: Tri, rank: Rank, s: Sym) {
    var d := db.defs(s);
    var env := Values(db, u, m, rank);
    var j := DefaultFrom(d.defaults, 0, env);
    || Visible(d, s, m, env) != NO
    || (s.IsBoolOrTristate() && ReverseDep(d, s, m, env) != NO)
    || SelectFrom(d, 0, s, m, env) < |d.selects|
    || (j < |d.defaults| && (IsString(s) ==> d.defaults[j].value.Symbol?))
  }
}
