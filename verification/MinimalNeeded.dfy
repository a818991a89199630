/** Which lines of the minimal configuration are needed (confdata.c): without them a reader would get
    another value. */
module MinimalNeeded {
  import opened Expressions
  import opened Comparisons
  import opened Symbols
  import opened MinimalConfig

  function Without(u: User, s: Sym): User {
    User(u.tri - {s}, u.str - {s})
  }

  /** The value of the user makes a difference for the symbol, the others being as they are. */
  predicate Needed(d: Def, u: User, s: Sym, m: Tri, env: Env) {
    Step(d, Without(u, s), s, m, env) != Step(d, u, s, m, env)
  }

  /** sym_is_changable: the symbol is visible above everything that selects it. */
  lemma {:induction false} ForcedBelow(d: Def, n: nat, s: Sym, m: Tri, env: Env, v: Tri)
    requires n <= |d.selects|
    ensures Forced(d, n, s, m, env) < v <==>
      ReverseDep(d, s, m, env) < v && forall i: nat :: i < n ==> SelectTri(d, i, s, m, env) < v
  {
    if n > 0 {
      ForcedBelow(d, n - 1, s, m, env, v);
    }
  }

  lemma ChangeableIff(d: Def, s: Sym, m: Tri, env: Env)
    ensures Changeable(d, s, m, env) <==>
      && ReverseDep(d, s, m, env) < Visible(d, s, m, env)
      && forall i: nat :: i < |d.selects| ==> SelectTri(d, i, s, m, env) < Visible(d, s, m, env)
  {
    ForcedBelow(d, |d.selects|, s, m, env, Visible(d, s, m, env));
  }

  // ---------- one symbol ----------

  /** Without selects that carry a value a symbol gets a line only if the user has set it, and only if
      it would have another value otherwise. */
  lemma LineIsNeeded(d: Def, u: User, s: Sym, m: Tri, env: Env)
    requires d.selects == [] && Emitted(d, u, s, m, env)
    ensures HasUser(u, s) && Needed(d, u, s, m, env)
  {
    hide Visible, DefaultTri;
  }

  /** With them that still holds where m is promoted. Elsewhere it holds if and only if the user value,
      limited by the prompt, and the default differ above what selects the symbol. */
  lemma TriLineNeededIff(d: Def, u: User, s: Sym, m: Tri, env: Env)
    requires s.IsBoolOrTristate() && Emitted(d, u, s, m, env)
    ensures ActsBoolean(s, m) ==> s in u.tri && Needed(d, u, s, m, env)
    ensures !ActsBoolean(s, m) ==>
      (Needed(d, u, s, m, env) <==>
        && s in u.tri
        && var t := Join(AndOp, u.tri[s], Visible(d, s, m, env));
           var selected := Join(OrOp, ReverseDep(d, s, m, env), SelectedTri(d, |d.selects|, s, m, env));
           t != DefaultTri(d, env) && (t > selected || DefaultTri(d, env) > selected))
  {
    SelectedWhenOn(d, |d.selects|, s, m, env);
    if ActsBoolean(s, m) {
      ForcedIsDecided(d, |d.selects|, s, m, env);
    }
    hide Visible, DefaultTri, Forced, SelectedTri, ReverseDep;
  }

  lemma {:induction false} ForcedIsDecided(d: Def, n: nat, s: Sym, m: Tri, env: Env)
    requires n <= |d.selects| && ActsBoolean(s, m)
    ensures Forced(d, n, s, m, env) != MOD && Visible(d, s, m, env) != MOD
  {
    if n > 0 {
      ForcedIsDecided(d, n - 1, s, m, env);
    }
  }

  /** For a string, or a number: the line is needed unless a select that is on carries a symbol. Then it
      is needed if and only if the user has set another string than that symbol holds. */
  lemma StrLineNeededIff(d: Def, u: User, s: Sym, m: Tri, env: Env)
    requires IsString(s) && Emitted(d, u, s, m, env)
    ensures var i := SelectFrom(d, 0, s, m, env);
      Needed(d, u, s, m, env) <==>
        (i < |d.selects| && d.selects[i].value.Symbol? ==>
          s in u.str && u.str[s] != RawString(d.selects[i].value.sym, env))
  {
    hide Visible, SelectFrom, DefaultFrom, Forced;
  }

  // ---------- the whole configuration ----------

  lemma StepOfUser(d: Def, u: User, v: User, s: Sym, m: Tri, env: Env)
    requires s in u.tri <==> s in v.tri
    requires s in u.str <==> s in v.str
    requires s in u.tri ==> u.tri[s] == v.tri[s]
    requires s in u.str ==> u.str[s] == v.str[s]
    ensures Step(d, u, s, m, env) == Step(d, v, s, m, env)
  {
  }

  /** Taking away a value does not change any symbol of lower rank. */
  lemma {:induction false} LowerUnchanged(db: Db, v: User, m: Tri, rank: Rank, s: Sym, t: Sym)
    requires Acyclic(db, rank) && rank(t) < rank(s)
    ensures Value(db, Without(v, s), m, rank, t) == Value(db, v, m, rank, t)
    decreases rank(t)
  {
    var w := Without(v, s);
    forall x: Sym | rank(x) < rank(t)
      ensures Values(db, w, m, rank)(x) == Values(db, v, m, rank)(x)
    {
      LowerUnchanged(db, v, m, rank, s, x);
    }
    ValuesSolve(db, v, m, rank, t);
    ValuesSolve(db, w, m, rank, t);
    StepAgrees(db.defs(t), w, t, m, Values(db, w, m, rank), Values(db, v, m, rank), db, rank, rank(t));
    StepOfUser(db.defs(t), w, v, t, m, Values(db, v, m, rank));
  }

  /** The minimal configuration is irredundant: as long as nothing below is trapped, the symbol of a line
      gets another value without its line if and only if the user's value makes a difference for it. */
  lemma LineNeededIff(db: Db, u: User, m: Tri, rank: Rank, menus: seq<Sym>, s: Sym)
    requires Acyclic(db, rank) && Walked(db, menus)
    requires s in menus && Emitted(db.defs(s), u, s, m, Values(db, u, m, rank))
    requires forall t: Sym :: rank(t) < rank(s) ==> !Trapped(db.defs(t), u, t, m, Values(db, u, m, rank))
    ensures var v := MinimalUser(db, u, m, Values(db, u, m, rank), menus);
      (Value(db, Without(v, s), m, rank, s) != Value(db, u, m, rank, s))
        <==> Needed(db.defs(s), u, s, m, Values(db, u, m, rank))
  {
    var env := Values(db, u, m, rank);
    var v := MinimalUser(db, u, m, env, menus);
    var w := Without(v, s);
    forall t: Sym | rank(t) < rank(s)
      ensures Values(db, w, m, rank)(t) == env(t)
    {
      MinimalKeepsBelow(db, u, m, rank, menus, t);
      LowerUnchanged(db, v, m, rank, s, t);
    }
    StepFromAgreement(db, u, w, m, rank, s);
    StepOfUser(db.defs(s), w, Without(u, s), s, m, env);
  }

  /** Without selects that carry a value, no line can be left out. */
  lemma EveryLineIsNeeded(db: Db, u: User, m: Tri, rank: Rank, menus: seq<Sym>, s: Sym)
    requires Acyclic(db, rank) && Walked(db, menus) && db.defs(s).selects == []
    requires s in menus && Emitted(db.defs(s), u, s, m, Values(db, u, m, rank))
    requires forall t: Sym :: rank(t) < rank(s) ==> !Trapped(db.defs(t), u, t, m, Values(db, u, m, rank))
    ensures var v := MinimalUser(db, u, m, Values(db, u, m, rank), menus);
      Value(db, Without(v, s), m, rank, s) != Value(db, u, m, rank, s)
  {
    LineIsNeeded(db.defs(s), u, s, m, Values(db, u, m, rank));
    LineNeededIff(db, u, m, rank, menus, s);
  }

  /** The condition is not idle: a tristate symbol that a select at m raises to y gets a line although
      the user never touched it. */
  lemma NeedlessLine(env: Env)
    requires WellTyped(env)
    ensures var s := Config("T", Tristate);
      var d := Def([None], None, None, [SelectValue(Symbol(SymMod), Symbol(SymYes))], []);
      Emitted(d, User(map[], map[]), s, YES, env) && !Needed(d, User(map[], map[]), s, YES, env)
  {
    var s, u := Config("T", Tristate), User(map[], map[]);
    var d := Def([None], None, None, [SelectValue(Symbol(SymMod), Symbol(SymYes))], []);
    assert BestPrompt(d.prompts[..0], env) == NO;
    assert Forced(d, 0, s, YES, env) == NO && SelectTri(d, 0, s, YES, env) == MOD;
    assert SelectedTri(d, 0, s, YES, env) == NO && SelectedTri(d, 1, s, YES, env) == YES;
    StepOfUser(d, u, Without(u, s), s, YES, env);
  }

  // ---------- the order of the lines ----------

  /** The first entry of a symbol, or the number of entries. */
  function First(menus: seq<Sym>, s: Sym): (k: nat)
    ensures k <= |menus| && (k < |menus| ==> menus[k] == s)
    ensures forall i :: 0 <= i < k ==> menus[i] != s
  {
    if menus == [] || menus[0] == s then 0 else 1 + First(menus[1..], s)
  }

  /** The lines come in the order of the first menu entries of their symbols, all among the first n. */
  predicate InMenuOrder(lines: seq<Line>, menus: seq<Sym>, n: nat) {
    && (forall i :: 0 <= i < |lines| ==> First(menus, lines[i].0) < n)
    && (forall i, j :: 0 <= i < j < |lines| ==> First(menus, lines[i].0) < First(menus, lines[j].0))
  }

  lemma OneMoreLine(lines: seq<Line>, menus: seq<Sym>, n: nat, line: Line)
    requires n < |menus| && InMenuOrder(lines, menus, n)
    ensures InMenuOrder(lines, menus, n + 1)
    ensures line.0 == menus[n] && line.0 !in menus[..n] ==> InMenuOrder(lines + [line], menus, n + 1)
  {
    assert line.0 == menus[n] && line.0 !in menus[..n] ==> First(menus, line.0) == n;
  }

  lemma {:induction false} LinesInMenuOrder(db: Db, u: User, m: Tri, env: Env, menus: seq<Sym>, n: nat)
    requires n <= |menus|
    ensures InMenuOrder(Lines(db, u, m, env, menus, n), menus, n)
  {
    if n > 0 {
      hide Emitted, First, InMenuOrder;
      LinesInMenuOrder(db, u, m, env, menus, n - 1);
      var s := menus[n - 1];
      OneMoreLine(Lines(db, u, m, env, menus, n - 1), menus, n - 1,
        (s, ToVal(s, Step(db.defs(s), u, s, m, env), m).str));
    }
  }
}
