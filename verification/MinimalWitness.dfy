/** Configurations that lose a value when they are minimised. */
module MinimalWitness {
  import opened Expressions
  import opened Comparisons
  import opened Symbols
  import opened MinimalConfig

  const TRAPPED: Sym := Config("T", Tristate)
  const SWITCHED: Sym := Config("S", Boolean)
  const MODULES: Sym := Config("MODULES", Boolean)

  const NOTHING: Def := Def([], None, None, [], [])

  /** The constants come first. */
  function TwoLevels(): Rank {
    (s: Sym) => if s.Config? then 1 else 0
  }

  // ---------- with modules on ----------

  /** Modules are on; T is visible at m, selected at m and y by default. */
  function LimitedDb(): Db {
    Db(
      (s: Sym) =>
        if s == TRAPPED then
          Def([Some(Symbol(SymMod))], None, Some(Symbol(SymMod)), [], [Default(Symbol(SymYes), None)])
        else if s == MODULES then Def([], None, None, [], [Default(Symbol(SymYes), None)])
        else NOTHING,
      MODULES)
  }

  lemma LimitedDbFits()
    ensures Acyclic(LimitedDb(), TwoLevels()) && Walked(LimitedDb(), [TRAPPED])
  {
  }

  lemma LimitedIsTrapped(env: Env)
    requires WellTyped(env)
    ensures Trapped(LimitedDb().defs(TRAPPED), User(map[TRAPPED := MOD], map[]), TRAPPED, YES, env)
  {
    var d := LimitedDb().defs(TRAPPED);
    assert BestPrompt(d.prompts[..0], env) == NO;
    TrapMeansM(d, User(map[TRAPPED := MOD], map[]), TRAPPED, YES, env);
  }

  /** The user has set T to m. It is skipped as unchangeable, and read back as y. */
  lemma LostWithModules()
    ensures var u := User(map[TRAPPED := MOD], map[]);
      && Acyclic(LimitedDb(), TwoLevels()) && Walked(LimitedDb(), [TRAPPED])
      && Value(LimitedDb(), u, YES, TwoLevels(), MODULES).tri == YES
      && !Lossless(LimitedDb(), u, YES, TwoLevels(), [TRAPPED])
  {
    var db, u, rank := LimitedDb(), User(map[TRAPPED := MOD], map[]), TwoLevels();
    var env := Values(db, u, YES, rank);
    LimitedDbFits();
    ValuesSolve(db, u, YES, rank, MODULES);
    ValuesWellTyped(db, u, YES, rank);
    hide Acyclic, Lossless, Walked, Values, Trapped;
    LimitedIsTrapped(env);
    MinimalLosslessIff(db, u, YES, rank, [TRAPPED]);
  }

  // ---------- with modules off ----------

  /** S has a prompt and is selected with the value n. */
  function SelectedDb(): Db {
    Db(
      (s: Sym) =>
        if s == SWITCHED then Def([None], None, None, [SelectValue(Symbol(SymYes), Symbol(SymNo))], [])
        else NOTHING,
      MODULES)
  }

  lemma SelectedDbFits()
    ensures Acyclic(SelectedDb(), TwoLevels()) && Walked(SelectedDb(), [SWITCHED])
  {
  }

  lemma SelectedIsTrapped(env: Env)
    requires WellTyped(env)
    ensures Trapped(SelectedDb().defs(SWITCHED), User(map[SWITCHED := YES], map[]), SWITCHED, NO, env)
  {
    var d := SelectedDb().defs(SWITCHED);
    assert BestPrompt(d.prompts[..0], env) == NO;
    assert Forced(d, 0, SWITCHED, NO, env) == NO && SelectTri(d, 0, SWITCHED, NO, env) == YES;
    assert SelectedTri(d, 0, SWITCHED, NO, env) == NO == SelectedTri(d, 1, SWITCHED, NO, env);
    TrapUnpacked(d, User(map[SWITCHED := YES], map[]), SWITCHED, NO, env);
  }

  /** The user has set S to y, which a select with value n does not prevent. It is skipped as
      unchangeable, and read back as n. */
  lemma LostWithoutModules()
    ensures var u := User(map[SWITCHED := YES], map[]);
      && Acyclic(SelectedDb(), TwoLevels()) && Walked(SelectedDb(), [SWITCHED])
      && Value(SelectedDb(), u, NO, TwoLevels(), MODULES).tri == NO
      && !Lossless(SelectedDb(), u, NO, TwoLevels(), [SWITCHED])
  {
    var db, u, rank := SelectedDb(), User(map[SWITCHED := YES], map[]), TwoLevels();
    var env := Values(db, u, NO, rank);
    SelectedDbFits();
    ValuesSolve(db, u, NO, rank, MODULES);
    ValuesWellTyped(db, u, NO, rank);
    hide Acyclic, Lossless, Walked, Values, Trapped;
    SelectedIsTrapped(env);
    MinimalLosslessIff(db, u, NO, rank, [SWITCHED]);
  }
}
