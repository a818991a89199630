/** What the value of a symbol is, in terms of its prompts, its defaults and what selects it, and
    without the loops that look for these (symbol.c). */
module ValueRules {
  import opened Expressions
  import opened Comparisons
  import opened Symbols

  // ---------- what counts ----------

  /** Some prompt is visible. */
  ghost predicate Prompted(d: Def, env: Env) {
    exists i :: 0 <= i < |d.prompts| && EvalOpt(d.prompts[i], env) != NO
  }

  /** The k-th default is on, and none before it is. */
  ghost predicate FirstDefault(d: Def, k: nat, env: Env) {
    && k < |d.defaults| && EvalOpt(d.defaults[k].cond, env) != NO
    && forall j :: 0 <= j < k ==> EvalOpt(d.defaults[j].cond, env) == NO
  }

  ghost predicate SelectOn(d: Def, i: nat, env: Env) {
    i < |d.selects| && Eval(d.selects[i].cond, env) != NO
  }

  ghost predicate FirstSelect(d: Def, i: nat, env: Env) {
    SelectOn(d, i, env) && forall j: nat :: j < i ==> !SelectOn(d, j, env)
  }

  /** The string that a symbol holds: bool and tristate symbols always hold "n" there. */
  ghost predicate Holds(t: Sym, str: string, env: Env) {
    str == if t.Type().Boolean? || t.Type().Tristate? then "n" else env(t).str
  }

  // ---------- the loops find it ----------

  lemma {:induction false} DefaultFromIs(ds: seq<Default>, i: nat, env: Env)
    requires i <= |ds|
    ensures var k := DefaultFrom(ds, i, env);
      && (forall j :: i <= j < k ==> EvalOpt(ds[j].cond, env) == NO)
      && (k < |ds| ==> EvalOpt(ds[k].cond, env) != NO)
    decreases |ds| - i
  {
    if i < |ds| && EvalOpt(ds[i].cond, env) == NO {
      DefaultFromIs(ds, i + 1, env);
    }
  }

  /** sym_get_default_prop answers the first default that is on, and none if none is. */
  lemma DefaultIsFirst(d: Def, env: Env)
    ensures forall k: nat :: FirstDefault(d, k, env) <==> k < |d.defaults| && DefaultFrom(d.defaults, 0, env) == k
  {
    DefaultFromIs(d.defaults, 0, env);
  }

  lemma {:induction false} SelectFromIs(d: Def, i: nat, s: Sym, m: Tri, env: Env)
    requires i <= |d.selects|
    ensures var k := SelectFrom(d, i, s, m, env);
      && (forall j: nat :: i <= j < k ==> !SelectOn(d, j, env))
      && (k < |d.selects| ==> SelectOn(d, k, env))
    decreases |d.selects| - i
  {
    if i < |d.selects| && SelectTri(d, i, s, m, env) == NO {
      SelectFromIs(d, i + 1, s, m, env);
    }
  }

  /** Of the selects that are on the greatest value counts. */
  lemma {:induction false} SelectedIsGreatest(d: Def, n: nat, s: Sym, m: Tri, env: Env)
    requires n <= |d.selects|
    ensures forall i: nat :: i < n && SelectOn(d, i, env) ==>
      Eval(d.selects[i].value, env) <= SelectedTri(d, n, s, m, env)
    ensures SelectedTri(d, n, s, m, env) == NO
      || exists i: nat :: i < n && SelectOn(d, i, env) && Eval(d.selects[i].value, env) == SelectedTri(d, n, s, m, env)
  {
    if n > 0 {
      SelectedIsGreatest(d, n - 1, s, m, env);
      var t := SelectedTri(d, n, s, m, env);
      if t != NO && t != SelectedTri(d, n - 1, s, m, env) {
        assert SelectOn(d, n - 1, env) && Eval(d.selects[n - 1].value, env) == t;
      }
    }
  }

  /** What the user can see: the best prompt, where m counts as y unless the symbol is tristate and
      modules are on. */
  lemma VisibleRule(d: Def, s: Sym, m: Tri, env: Env)
    ensures Visible(d, s, m, env) == NO <==> !Prompted(d, env)
    ensures Visible(d, s, m, env) == YES <==>
      || (exists i :: 0 <= i < |d.prompts| && EvalOpt(d.prompts[i], env) == YES)
      || (Prompted(d, env) && (!s.Type().Tristate? || m == NO))
  {
    BestIsOne(d.prompts, env);
    var best := BestPrompt(d.prompts, env);
    if best != NO {
      var i :| 0 <= i < |d.prompts| && EvalOpt(d.prompts[i], env) == best;
    }
  }

  lemma DirectDepRule(d: Def, env: Env)
    ensures DirectDep(d, env) == if d.dirDep.Some? && Eval(d.dirDep.value, env) == NO then NO else YES
  {
  }

  // ---------- bool symbols, and tristate symbols without modules ----------

  /** The user's value counts if there is a visible prompt, otherwise the default; on top of that come
      the reverse dependency and the selects that carry a value. */
  ghost predicate IsOn(d: Def, u: User, s: Sym, env: Env) {
    || (Prompted(d, env) && s in u.tri && u.tri[s] != NO)
    || (!(Prompted(d, env) && s in u.tri)
        && exists k: nat :: FirstDefault(d, k, env) && Eval(d.defaults[k].value, env) != NO)
    || (d.revDep.Some? && Eval(d.revDep.value, env) != NO)
    || exists i: nat :: SelectOn(d, i, env) && Eval(d.selects[i].value, env) != NO
  }

  lemma BoolRule(d: Def, u: User, s: Sym, m: Tri, env: Env)
    requires s.Type().Boolean? || (s.Type().Tristate? && m == NO)
    ensures Step(d, u, s, m, env).tri == if IsOn(d, u, s, env) then YES else NO
  {
    VisibleRule(d, s, m, env);
    DefaultIsFirst(d, env);
    SelectedIsGreatest(d, |d.selects|, s, m, env);
    hide DefaultFrom, SelectedTri, BestPrompt, Prompted, FirstDefault, SelectOn;
    var k := DefaultFrom(d.defaults, 0, env);
    assert k < |d.defaults| ==> FirstDefault(d, k, env);
    if DefaultTri(d, env) != NO {
      DefaultCondOn(d, k, env);
    }
  }

  lemma DefaultCondOn(d: Def, k: nat, env: Env)
    requires FirstDefault(d, k, env)
    ensures EvalOpt(d.defaults[k].cond, env) != NO
  {
  }

  // ---------- tristate symbols with modules ----------

  /** What the symbol is raised to by one of the things that count. */
  ghost predicate Contributes(d: Def, u: User, s: Sym, env: Env, t: Tri) {
    || (Prompted(d, env) && s in u.tri
        && exists i :: 0 <= i < |d.prompts| && t == Join(AndOp, u.tri[s], EvalOpt(d.prompts[i], env)))
    || (!(Prompted(d, env) && s in u.tri)
        && exists k: nat :: FirstDefault(d, k, env)
             && t == Join(AndOp, Eval(d.defaults[k].value, env), EvalOpt(d.defaults[k].cond, env)))
    || (d.revDep.Some? && t == Eval(d.revDep.value, env))
    || exists i: nat :: SelectOn(d, i, env) && t == Eval(d.selects[i].value, env)
  }

  /** The value is the greatest contribution, and n if there is none. */
  lemma TristateRule(d: Def, u: User, s: Sym, m: Tri, env: Env)
    requires s.Type().Tristate? && m != NO
    ensures var v := Step(d, u, s, m, env).tri;
      && (forall t: Tri :: Contributes(d, u, s, env, t) ==> t <= v)
      && (v == NO || Contributes(d, u, s, env, v))
  {
    VisibleRule(d, s, m, env);
    DefaultIsFirst(d, env);
    SelectedIsGreatest(d, |d.selects|, s, m, env);
    BestIsOne(d.prompts, env);
    hide DefaultFrom, SelectedTri, BestPrompt, Prompted, FirstDefault, SelectOn;
    var k := DefaultFrom(d.defaults, 0, env);
    assert k < |d.defaults| ==> FirstDefault(d, k, env);
  }

  // ---------- strings and numbers ----------

  /** The user's string, if a prompt is visible; else that of the symbol which the first select that is
      on carries; else that of the symbol which the first default that is on names; else none. */
  lemma StringRule(d: Def, u: User, s: Sym, m: Tri, env: Env)
    requires IsString(s)
    ensures var str := Step(d, u, s, m, env).str;
      && (Prompted(d, env) && s in u.str ==> str == u.str[s])
      && (!(Prompted(d, env) && s in u.str) ==>
           && (forall i: nat :: FirstSelect(d, i, env) && d.selects[i].value.Symbol? ==>
                 Holds(d.selects[i].value.sym, str, env))
           && ((forall i: nat :: FirstSelect(d, i, env) ==> !d.selects[i].value.Symbol?) ==>
                && (forall k: nat :: FirstDefault(d, k, env) && d.defaults[k].value.Symbol? ==>
                      Holds(d.defaults[k].value.sym, str, env))
                && ((forall k: nat :: FirstDefault(d, k, env) ==> !d.defaults[k].value.Symbol?) ==> str == "")))
  {
    VisibleRule(d, s, m, env);
    DefaultIsFirst(d, env);
    SelectFromIs(d, 0, s, m, env);
    hide DefaultFrom, SelectFrom, BestPrompt, Prompted, FirstDefault, SelectOn;
    var i := SelectFrom(d, 0, s, m, env);
    assert i < |d.selects| ==> FirstSelect(d, i, env);
  }

  // ---------- SYMBOL_WRITE and sym_is_changable ----------

  lemma WritesRule(db: Db, u: User, m: Tri, rank: Rank, s: Sym)
    ensures var d := db.defs(s); var env := Values(db, u, m, rank);
      Writes(db, u, m, rank, s) <==>
        || Prompted(d, env)
        || (s.IsBoolOrTristate() && d.revDep.Some? && Eval(d.revDep.value, env) != NO)
        || (exists i: nat :: SelectOn(d, i, env))
        || (exists k: nat :: FirstDefault(d, k, env) && (IsString(s) ==> d.defaults[k].value.Symbol?))
  {
    var d, env := db.defs(s), Values(db, u, m, rank);
    VisibleRule(d, s, m, env);
    DefaultIsFirst(d, env);
    SelectFromIs(d, 0, s, m, env);
    hide DefaultFrom, SelectFrom, BestPrompt, Prompted, FirstDefault, Values, Visible, Eval;
    var i := SelectFrom(d, 0, s, m, env);
    assert i < |d.selects| ==> SelectOn(d, i, env);
    assert (exists i: nat :: SelectOn(d, i, env)) <==> i < |d.selects|;
    var k := DefaultFrom(d.defaults, 0, env);
    assert k < |d.defaults| ==> FirstDefault(d, k, env);
  }
}
