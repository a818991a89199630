/** What conf_write_defconfig leaves out (confdata.c), and when nothing is lost by it. */
module MinimalConfig {
  import opened Expressions
  import opened Comparisons
  import opened Symbols

  // ---------- the tests of conf_write_defconfig ----------

  /** The strongest reverse dependency of any kind (sym_is_changable). */
  function Forced(d: Def, n: nat, s: Sym, m: Tri, env: Env): Tri
    requires n <= |d.selects|
  {
    if n == 0 then ReverseDep(d, s, m, env)
    else Join(OrOp, Forced(d, n - 1, s, m, env), SelectTri(d, n - 1, s, m, env))
  }

  predicate Changeable(d: Def, s: Sym, m: Tri, env: Env) {
    Visible(d, s, m, env) > Forced(d, |d.selects|, s, m, env)
  }

  /** sym_get_string_default: it looks neither at the user value nor at selects with a value. */
  function StringDefault(d: Def, s: Sym, m: Tri, env: Env): string {
    if s.IsBoolOrTristate() then
      Letter(Promote(s, m, Join(OrOp, DefaultTri(d, env), ReverseDep(d, s, m, env))))
    else
      var j := DefaultFrom(d.defaults, 0, env);
      if j < |d.defaults| && d.defaults[j].value.Symbol? then RawString(d.defaults[j].value.sym, env) else ""
  }

  /** The symbol gets a line in the minimal file. */
  predicate Emitted(d: Def, u: User, s: Sym, m: Tri, env: Env) {
    && IsComputed(s)
    && Changeable(d, s, m, env)
    && ToVal(s, Step(d, u, s, m, env), m).str != StringDefault(d, s, m, env)
  }

  /** The user values a reader of the minimal file starts from; `menus` are the symbols of the menu
      entries that conf_write_defconfig walks over. */
  function MinimalUser(db: Db, u: User, m: Tri, env: Env, menus: seq<Sym>): User {
    User(
      map s: Sym | s in menus && s.IsBoolOrTristate() && Emitted(db.defs(s), u, s, m, env)
        :: Step(db.defs(s), u, s, m, env).tri,
      map s: Sym | s in menus && IsString(s) && Emitted(db.defs(s), u, s, m, env)
        :: Step(db.defs(s), u, s, m, env).str)
  }

  /** A line of the file: the symbol and its value as text. */
  type Line = (Sym, string)

  /** The lines for the first `n` entries; a symbol with several entries is written once. */
  function Lines(db: Db, u: User, m: Tri, env: Env, menus: seq<Sym>, n: nat): seq<Line>
    requires n <= |menus|
  {
    if n == 0 then []
    else
      var s := menus[n - 1];
      var lines := Lines(db, u, m, env, menus, n - 1);
      if s !in menus[..n - 1] && Emitted(db.defs(s), u, s, m, env)
      then lines + [(s, ToVal(s, Step(db.defs(s), u, s, m, env), m).str)]
      else lines
  }

  lemma EmittedIsComputed(d: Def, u: User, s: Sym, m: Tri, env: Env)
    requires Emitted(d, u, s, m, env)
    ensures IsComputed(s)
  {
  }

  /** The lines carry exactly the values of MinimalUser, one line for each of them. */
  lemma {:induction false} LinesCarryMinimalUser(db: Db, u: User, m: Tri, env: Env, menus: seq<Sym>, n: nat)
    requires n <= |menus|
    ensures var v := MinimalUser(db, u, m, env, menus[..n]);
      var lines := Lines(db, u, m, env, menus, n);
      && (forall s: Sym, str: string :: (s, str) in lines <==>
            || (s in v.tri && str == ToVal(s, Cur(v.tri[s], "n"), m).str)
            || (s in v.str && str == v.str[s]))
      && (forall i, j :: 0 <= i < j < |lines| ==> lines[i].0 != lines[j].0)
  {
    if n > 0 {
      hide Emitted, TriValue, StrValue;
      LinesCarryMinimalUser(db, u, m, env, menus, n - 1);
      assert menus[..n] == menus[..n - 1] + [menus[n - 1]];
      var v := MinimalUser(db, u, m, env, menus[..n - 1]);
      var lines := Lines(db, u, m, env, menus, n - 1);
      var s := menus[n - 1];
      if Emitted(db.defs(s), u, s, m, env) {
        EmittedIsComputed(db.defs(s), u, s, m, env);
      }
      if s !in menus[..n - 1] {
        forall i | 0 <= i < |lines|
          ensures lines[i].0 != s
        {
          assert (lines[i].0, lines[i].1) in lines;
        }
      }
    }
  }

  // ---------- when nothing is lost ----------

  predicate HasUser(u: User, s: Sym) {
    if s.IsBoolOrTristate() then s in u.tri else s in u.str
  }

  /** The user value, limited by the prompt, gives the symbol another value than its default does,
      on top of what selects it. */
  predicate Overrides(d: Def, u: User, s: Sym, m: Tri, env: Env)
    requires HasUser(u, s)
  {
    if s.IsBoolOrTristate() then
      var selected := Join(OrOp, ReverseDep(d, s, m, env), SelectedTri(d, |d.selects|, s, m, env));
      Promote(s, m, Join(OrOp, Join(AndOp, u.tri[s], Visible(d, s, m, env)), selected))
        != Promote(s, m, Join(OrOp, DefaultTri(d, env), selected))
    else u.str[s] != StringDefault(d, s, m, env)
  }

  /** The entry is skipped because it cannot be changed, before its value is compared with the
      default, although it is visible and shows a user value that differs. */
  predicate Trapped(d: Def, u: User, s: Sym, m: Tri, env: Env) {
    && IsComputed(s)
    && Visible(d, s, m, env) != NO && HasUser(u, s)
    && !Changeable(d, s, m, env)
    && Overrides(d, u, s, m, env)
  }

  /** Prompts belong to menu entries, and selects with a value go to bool and tristate symbols. */
  ghost predicate Walked(db: Db, menus: seq<Sym>) {
    && (forall s: Sym :: IsComputed(s) && db.defs(s).prompts != [] ==> s in menus)
    && (forall s: Sym :: IsString(s) ==> db.defs(s).selects == [])
  }

  lemma {:induction false} SelectedWhenOn(d: Def, n: nat, s: Sym, m: Tri, env: Env)
    requires n <= |d.selects|
    ensures Forced(d, n, s, m, env) == NO ==> SelectedTri(d, n, s, m, env) == NO
    ensures Forced(d, n, s, m, env) >= ReverseDep(d, s, m, env)
  {
    if n > 0 {
      SelectedWhenOn(d, n - 1, s, m, env);
    }
  }

  /** One symbol, with the same values below it: reading back the minimal file gives it the value
      it had, unless it is trapped. */
  lemma LocallyLossless(db: Db, u: User, m: Tri, env: Env, menus: seq<Sym>, s: Sym)
    requires WellTyped(env) && Walked(db, menus)
    ensures Trapped(db.defs(s), u, s, m, env)
        <==> Step(db.defs(s), MinimalUser(db, u, m, env, menus), s, m, env) != Step(db.defs(s), u, s, m, env)
  {
    var d := db.defs(s);
    var v := MinimalUser(db, u, m, env, menus);
    if IsComputed(s) {
      if Visible(d, s, m, env) == NO {
      } else {
        assert s in menus;
        SelectedWhenOn(d, |d.selects|, s, m, env);
        if s.IsBoolOrTristate() {
          LocallyLosslessTri(d, u, v, s, m, env);
        } else {
          LocallyLosslessStr(d, u, v, s, m, env);
        }
      }
    }
  }

  lemma LocallyLosslessTri(d: Def, u: User, v: User, s: Sym, m: Tri, env: Env)
    requires s.IsBoolOrTristate() && Visible(d, s, m, env) != NO
    requires s in v.tri <==> Emitted(d, u, s, m, env)
    requires s in v.tri ==> v.tri[s] == TriValue(d, u, s, m, env)
    ensures Trapped(d, u, s, m, env) <==> Step(d, v, s, m, env) != Step(d, u, s, m, env)
  {
    if s !in v.tri {
      assert BaseTri(d, v, s, m, env) == DefaultTri(d, env);
      if Changeable(d, s, m, env) {
        assert TriValue(d, u, s, m, env)
            == Promote(s, m, Join(OrOp, DefaultTri(d, env), ReverseDep(d, s, m, env)));
      }
    }
  }

  lemma LocallyLosslessStr(d: Def, u: User, v: User, s: Sym, m: Tri, env: Env)
    requires IsString(s) && Visible(d, s, m, env) != NO && d.selects == []
    requires s in v.str <==> Emitted(d, u, s, m, env)
    requires s in v.str ==> v.str[s] == StrValue(d, u, s, m, env)
    ensures Trapped(d, u, s, m, env) <==> Step(d, v, s, m, env) != Step(d, u, s, m, env)
  {
  }

  /** Values below `k` are the same for both assignments. */
  lemma {:induction false} MinimalKeepsBelow(db: Db, u: User, m: Tri, rank: Rank, menus: seq<Sym>, s: Sym)
    requires Acyclic(db, rank) && Walked(db, menus)
    requires forall t: Sym :: rank(t) <= rank(s) ==> !Trapped(db.defs(t), u, t, m, Values(db, u, m, rank))
    ensures var v := MinimalUser(db, u, m, Values(db, u, m, rank), menus);
      Value(db, v, m, rank, s) == Value(db, u, m, rank, s)
    decreases rank(s)
  {
    var env := Values(db, u, m, rank);
    var v := MinimalUser(db, u, m, env, menus);
    forall t: Sym | rank(t) < rank(s)
      ensures Values(db, v, m, rank)(t) == env(t)
    {
      MinimalKeepsBelow(db, u, m, rank, menus, t);
    }
    StepFromAgreement(db, u, v, m, rank, s);
    ValuesWellTyped(db, u, m, rank);
    LocallyLossless(db, u, m, env, menus, s);
  }

  lemma StepFromAgreement(db: Db, u: User, v: User, m: Tri, rank: Rank, s: Sym)
    requires Acyclic(db, rank)
    requires AgreeBelow(Values(db, v, m, rank), Values(db, u, m, rank), rank, rank(s))
    ensures Value(db, v, m, rank, s) == Step(db.defs(s), v, s, m, Values(db, u, m, rank))
    ensures Value(db, u, m, rank, s) == Step(db.defs(s), u, s, m, Values(db, u, m, rank))
  {
    ValuesSolve(db, v, m, rank, s);
    ValuesSolve(db, u, m, rank, s);
    StepAgrees(db.defs(s), v, s, m, Values(db, v, m, rank), Values(db, u, m, rank), db, rank, rank(s));
  }

  ghost predicate Lossless(db: Db, u: User, m: Tri, rank: Rank, menus: seq<Sym>) {
    var v := MinimalUser(db, u, m, Values(db, u, m, rank), menus);
    forall s: Sym :: Value(db, v, m, rank, s) == Value(db, u, m, rank, s)
  }

  /** The minimal configuration is lossless exactly when no entry is trapped. */
  lemma MinimalLosslessIff(db: Db, u: User, m: Tri, rank: Rank, menus: seq<Sym>)
    requires Acyclic(db, rank) && Walked(db, menus)
    ensures Lossless(db, u, m, rank, menus)
        <==> forall s: Sym :: !Trapped(db.defs(s), u, s, m, Values(db, u, m, rank))
  {
    var env := Values(db, u, m, rank);
    var v := MinimalUser(db, u, m, env, menus);
    if forall s: Sym :: !Trapped(db.defs(s), u, s, m, env) {
      forall s: Sym
        ensures Value(db, v, m, rank, s) == Value(db, u, m, rank, s)
      {
        MinimalKeepsBelow(db, u, m, rank, menus, s);
      }
    }
    if Lossless(db, u, m, rank, menus) {
      forall s: Sym
        ensures !Trapped(db.defs(s), u, s, m, env)
      {
        assert AgreeBelow(Values(db, v, m, rank), env, rank, rank(s));
        StepFromAgreement(db, u, v, m, rank, s);
        ValuesWellTyped(db, u, m, rank);
        LocallyLossless(db, u, m, env, menus, s);
      }
    }
  }

  /** What a trap takes when no select carries a value: a tristate symbol limited to m by its prompt,
      selected at m, with a default of y, while modules are on. */
  lemma TrapMeansM(d: Def, u: User, s: Sym, m: Tri, env: Env)
    requires d.selects == [] && s.IsBoolOrTristate()
    ensures Trapped(d, u, s, m, env) <==>
      && s.Type().Tristate? && m != NO && s in u.tri
      && Visible(d, s, m, env) == MOD && ReverseDep(d, s, m, env) == MOD && DefaultTri(d, env) == YES
  {
  }

  /** What a trap takes in general, for a bool or tristate symbol. Something must force the symbol up to
      its visibility. Where m is promoted to y, the values selected and the reverse dependency must
      all be n, and user value and default must disagree about n; so the force comes from a select
      that is on but carries n. Otherwise the user value, limited by the prompt, and the default
      must differ above what selects the symbol. */
  lemma TrapUnpacked(d: Def, u: User, s: Sym, m: Tri, env: Env)
    requires s.IsBoolOrTristate()
    ensures var selected := Join(OrOp, ReverseDep(d, s, m, env), SelectedTri(d, |d.selects|, s, m, env));
      Trapped(d, u, s, m, env) <==>
        && s in u.tri && NO < Visible(d, s, m, env) <= Forced(d, |d.selects|, s, m, env)
        && if ActsBoolean(s, m) then
             selected == NO && (u.tri[s] == NO) != (DefaultTri(d, env) == NO)
           else
             var t := Join(AndOp, u.tri[s], Visible(d, s, m, env));
             t != DefaultTri(d, env) && (t > selected || DefaultTri(d, env) > selected)
  {
    hide SelectedTri, Forced, Visible, DefaultTri, ReverseDep;
  }

  /** With modules off, no select with a value and no reverse dependency on a string, nothing is
      ever lost: the promise of "make savedefconfig". */
  lemma MinimalLosslessModulesOff(db: Db, u: User, rank: Rank, menus: seq<Sym>)
    requires Acyclic(db, rank) && Walked(db, menus)
    requires forall s: Sym :: IsComputed(s) ==> db.defs(s).selects == []
    requires forall s: Sym :: IsString(s) ==> db.defs(s).revDep == None
    ensures Lossless(db, u, NO, rank, menus)
  {
    var env := Values(db, u, NO, rank);
    forall s: Sym
      ensures !Trapped(db.defs(s), u, s, NO, env)
    {
      if s.IsBoolOrTristate() {
        TrapMeansM(db.defs(s), u, s, NO, env);
      }
    }
    MinimalLosslessIff(db, u, NO, rank, menus);
  }
}
