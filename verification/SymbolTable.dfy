/** The symbol table as the program keeps it: flags and computed values per symbol, filled on
    demand by sym_calc_value and guarded by SYMBOL_VALID (symbol.c). */
module SymbolTable {
  import opened Expressions
  import opened Comparisons
  import opened Symbols
  import opened MinimalConfig

  /** The mutable part of a struct symbol. */
  datatype Info = Info(valid: bool, write: bool, cur: Cur, visible: Tri, dirDep: Tri, revDep: Tri, selects: seq<Tri>)

  const BLANK := Info(false, false, Cur(NO, ""), NO, NO, NO, [])

  class Table {
    const db: Db
    ghost const rank: Rank
    var user: User
    var info: map<Sym, Info>
    var modulesVal: Tri

    constructor (db: Db, ghost rank: Rank)
      ensures this.db == db && this.rank == rank
      ensures user == User(map[], map[]) && info == map[] && modulesVal == NO
    {
      this.db, this.rank := db, rank;
      user, info, modulesVal := User(map[], map[]), map[], NO;
    }

    /** y, m and n are valid from the start and are not in the symbol hash. */
    function Get(s: Sym): Info
      reads `info
    {
      if s.SymYes? then BLANK.(valid := true, cur := Cur(YES, "y"))
      else if s.SymMod? then BLANK.(valid := true, cur := Cur(MOD, "m"))
      else if s.SymNo? then BLANK.(valid := true, cur := Cur(NO, "n"))
      else if s in info then info[s] else BLANK
    }

    /** What the plain evaluator says. */
    ghost function Env(): Env
      reads `user, `modulesVal
    {
      Values(db, user, modulesVal, rank)
    }

    ghost function Spec(s: Sym): Cur
      reads `user, `modulesVal
    {
      Value(db, user, modulesVal, rank, s)
    }

    /** Acyclic definitions, and modules_val is the value of the modules symbol. */
    ghost predicate Stable()
      reads `user, `modulesVal
    {
      Acyclic(db, rank) && Spec(db.modules).tri == modulesVal
    }

    /** SYMBOL_WRITE after a calculation. */
    ghost predicate Written(s: Sym)
      reads `user, `modulesVal
    {
      Writes(db, user, modulesVal, rank, s)
    }

    /** The visibility, the dependencies and the select conditions are calculated. */
    ghost predicate PartsDone(s: Sym)
      reads this
    {
      var d := db.defs(s);
      && Get(s).visible == Visible(d, s, modulesVal, Env())
      && Get(s).dirDep == DirectDep(d, Env())
      && Get(s).revDep == ReverseDep(d, s, modulesVal, Env())
      && |Get(s).selects| == |d.selects|
      && (forall i: nat :: i < |d.selects| ==> Get(s).selects[i] == SelectTri(d, i, s, modulesVal, Env()))
    }

    /** A valid symbol holds what the plain evaluator computes. */
    ghost predicate Correct(s: Sym)
      reads this
    {
      Get(s).cur == Spec(s) && (IsComputed(s) ==> PartsDone(s))
    }

    /** The valid symbols of rank below `k` are correct; those above may be under calculation. */
    ghost predicate CorrectBelow(k: nat)
      reads this
    {
      forall s: Sym :: Get(s).valid && rank(s) < k ==> Correct(s)
    }

    /** A write to the fields of one symbol, while its own rank is still above the correct ones. */
    method Update(s: Sym, i: Info, ghost k: nat)
      requires !s.IsFixed() && CorrectBelow(k) && rank(s) >= k
      modifies `info
      ensures Get(s) == i && forall t: Sym :: t != s ==> Get(t) == old(Get(t))
      ensures CorrectBelow(k)
    {
      info := info[s := i];
      forall t: Sym | Get(t).valid && rank(t) < k
        ensures Correct(t)
      {
        assert old(Correct(t));
      }
    }

    /** A calculation for rank `k` leaves the symbols from that rank on alone, and every symbol that
        was valid; SYMBOL_WRITE is set as specified on the symbols that become valid. */
    twostate predicate Kept(k: nat)
      reads this
    {
      && modulesVal == old(modulesVal) && user == old(user)
      && (forall t: Sym :: rank(t) >= k ==> Get(t) == old(Get(t)))
      && (forall t: Sym :: old(Get(t)).valid ==> Get(t) == old(Get(t)))
      && (forall t: Sym :: Get(t).valid && !old(Get(t)).valid && IsComputed(t) ==>
            Get(t).write == Writes(db, user, modulesVal, rank, t))
    }

    /** The calculation of `s` itself: other symbols of its rank or above, and valid ones, stay. */
    twostate predicate KeptBut(s: Sym)
      reads this
    {
      && modulesVal == old(modulesVal) && user == old(user)
      && (forall t: Sym :: rank(t) >= rank(s) && t != s ==> Get(t) == old(Get(t)))
      && (forall t: Sym :: t != s && old(Get(t)).valid ==> Get(t) == old(Get(t)))
      && (forall t: Sym :: t != s && Get(t).valid && !old(Get(t)).valid && IsComputed(t) ==>
            Get(t).write == Writes(db, user, modulesVal, rank, t))
    }

    /** sym_clear_all_valid, before it recomputes the modules symbol. */
    method ClearValid()
      modifies `info
      ensures forall s: Sym :: Get(s).valid <==> s.IsFixed()
      ensures forall s: Sym :: Get(s) == old(Get(s)).(valid := s.IsFixed())
    {
      info := map s | s in info :: info[s].(valid := false);
    }

    // ---------- expr_calc_value ----------

    /** sym_calc_value for a symbol below `k`. */
    method CalcBelow(s: Sym, ghost k: nat)
      requires Stable() && CorrectBelow(k) && rank(s) < k
      modifies `info, `modulesVal
      ensures Stable() && CorrectBelow(k) && Kept(k)
      ensures Get(s).valid && Get(s).cur == Spec(s) && Env()(s) == ToVal(s, Get(s).cur, modulesVal)
      decreases k, 0, 0
    {
      hide Value, Step, ToVal;
      CalcValue(s);
      assert CorrectBelow(k) by {
        forall t: Sym | Get(t).valid && rank(t) < k
          ensures Correct(t)
        {
          if rank(t) > rank(s) {
            assert old(Correct(t));
          }
        }
      }
    }

    method CalcExpr(e: Expr, ghost k: nat) returns (t: Tri)
      requires Stable() && CorrectBelow(k) && Below(e, db, rank, k)
      modifies `info, `modulesVal
      ensures t == Eval(e, Env())
      ensures Stable() && CorrectBelow(k) && Kept(k)
      decreases k, 1, e
    {
      hide Get, Stable, CorrectBelow, Env, Spec, Writes;
      match e
      case Symbol(s) =>
        CalcBelow(s, k);
        t := Get(s).cur.tri;
      case Equal(l, r) =>
        CalcBelow(l, k);
        CalcBelow(r, k);
        var x := StringValue(l, k);
        var y := StringValue(r, k);
        t := if x == y then YES else NO;
      case Unequal(l, r) =>
        CalcBelow(l, k);
        CalcBelow(r, k);
        var x := StringValue(l, k);
        var y := StringValue(r, k);
        t := if x == y then NO else YES;
      case Not(a) =>
        t := CalcExpr(a, k);
        t := Neg(t);
      case Bin(op, l, r) =>
        var x := CalcExpr(l, k);
        var y := CalcExpr(r, k);
        t := Join(op, x, y);
    }

    /** A null condition is y. */
    method CalcOpt(e: Option<Expr>, ghost k: nat) returns (t: Tri)
      requires Stable() && CorrectBelow(k) && BelowOpt(e, db, rank, k)
      modifies `info, `modulesVal
      ensures t == EvalOpt(e, Env())
      ensures Stable() && CorrectBelow(k) && Kept(k)
      decreases k, 2
    {
      t := YES;
      if e.Some? {
        t := CalcExpr(e.value, k);
      }
    }

    /** sym_get_string_value: an m is shown as "n" while modules are off. */
    method StringValue(s: Sym, ghost k: nat) returns (str: string)
      requires Stable() && CorrectBelow(k) && Compared(s, db, rank, k)
      requires Get(s).valid
      modifies `info, `modulesVal
      ensures str == Env()(s).str
      ensures Stable() && CorrectBelow(k) && Kept(k)
      decreases k, 0, 1
    {
      assert Correct(s);
      var c := Get(s).cur;
      str := c.str;
      if s.IsBoolOrTristate() {
        ValuesWellTyped(db, user, modulesVal, rank);
        str := Letter(c.tri);
        if c.tri == MOD {
          CalcBelow(db.modules, k);
          str := if Get(db.modules).cur.tri == NO then "n" else "m";
        }
      }
    }

    lemma Dependencies(s: Sym)
      requires Stable() && IsComputed(s)
      ensures BelowDef(db.defs(s), db, rank, rank(s)) && !s.IsFixed()
    {
    }

    // ---------- sym_calc_visibility ----------

    method CalcVisibility(s: Sym)
      requires Stable() && CorrectBelow(rank(s)) && IsComputed(s)
      modifies `info, `modulesVal
      ensures Stable() && CorrectBelow(rank(s)) && KeptBut(s) && PartsDone(s)
      ensures Get(s) == old(Get(s)).(
        visible := Get(s).visible, dirDep := Get(s).dirDep, revDep := Get(s).revDep, selects := Get(s).selects)
      decreases rank(s), 5, 1
    {
      hide Get, Stable, CorrectBelow, Env, Spec, PartsDone, BestPrompt, Writes;
      Dependencies(s);
      var d := db.defs(s);
      var tri := BestPromptOf(d.prompts, rank(s));
      if tri == MOD && (!s.Type().Tristate? || modulesVal == NO) {
        tri := YES;
      }
      Update(s, Get(s).(visible := tri), rank(s));
      CalcDependencies(s);
    }

    /** The direct dependency, and the rest of sym_calc_visibility. */
    method CalcDependencies(s: Sym)
      requires Stable() && CorrectBelow(rank(s)) && IsComputed(s)
      requires Get(s).visible == Visible(db.defs(s), s, modulesVal, Env())
      modifies `info, `modulesVal
      ensures Stable() && CorrectBelow(rank(s)) && KeptBut(s) && PartsDone(s)
      ensures Get(s) == old(Get(s)).(dirDep := Get(s).dirDep, revDep := Get(s).revDep, selects := Get(s).selects)
      decreases rank(s), 5, 0
    {
      hide Get, Stable, CorrectBelow, Env, Spec, PartsDone, Visible, Writes;
      Dependencies(s);
      var tri := CalcOpt(db.defs(s).dirDep, rank(s));
      if tri == MOD {
        tri := YES;
      }
      Update(s, Get(s).(dirDep := tri), rank(s));
      CalcReverse(s);
    }

    method CalcReverse(s: Sym)
      requires Stable() && CorrectBelow(rank(s)) && IsComputed(s)
      requires Get(s).visible == Visible(db.defs(s), s, modulesVal, Env())
      requires Get(s).dirDep == DirectDep(db.defs(s), Env())
      modifies `info, `modulesVal
      ensures Stable() && CorrectBelow(rank(s)) && KeptBut(s) && PartsDone(s)
      ensures Get(s) == old(Get(s)).(revDep := Get(s).revDep, selects := Get(s).selects)
      decreases rank(s), 4
    {
      hide Get, Stable, CorrectBelow, Env, Spec, Visible, DirectDep, Writes;
      Dependencies(s);
      var d := db.defs(s);
      var tri := NO;
      if d.revDep.Some? {
        tri := CalcExpr(d.revDep.value, rank(s));
        tri := Promote(s, modulesVal, tri);
      }
      Update(s, Get(s).(revDep := tri), rank(s));
      var sels := SelectTris(s, rank(s));
      Update(s, Get(s).(selects := sels), rank(s));
    }

    /** The loop over the prompts. */
    method BestPromptOf(prompts: seq<Option<Expr>>, ghost k: nat) returns (tri: Tri)
      requires Stable() && CorrectBelow(k)
      requires forall i :: 0 <= i < |prompts| ==> BelowOpt(prompts[i], db, rank, k)
      modifies `info, `modulesVal
      ensures tri == BestPrompt(prompts, Env())
      ensures Stable() && CorrectBelow(k) && Kept(k)
      decreases k, 3
    {
      tri := NO;
      for i := 0 to |prompts|
        invariant tri == BestPrompt(prompts[..i], Env())
        invariant Stable() && CorrectBelow(k) && Kept(k)
      {
        var t := CalcOpt(prompts[i], k);
        tri := Join(OrOp, tri, t);
        assert prompts[..i + 1][..i] == prompts[..i];
      }
      assert prompts[..|prompts|] == prompts;
    }

    /** The loop over the select-with-value conditions. */
    method SelectTris(s: Sym, ghost k: nat) returns (sels: seq<Tri>)
      requires Stable() && CorrectBelow(k) && BelowDef(db.defs(s), db, rank, k)
      modifies `info, `modulesVal
      ensures |sels| == |db.defs(s).selects|
      ensures forall i: nat :: i < |sels| ==> sels[i] == SelectTri(db.defs(s), i, s, modulesVal, Env())
      ensures Stable() && CorrectBelow(k) && Kept(k)
      decreases k, 3
    {
      hide Get, Stable, CorrectBelow, Env, Spec, SelectTri, Writes;
      var d := db.defs(s);
      sels := [];
      for n := 0 to |d.selects|
        invariant |sels| == n
        invariant forall i: nat :: i < n ==> sels[i] == SelectTri(d, i, s, modulesVal, Env())
        invariant Stable() && CorrectBelow(k) && Kept(k)
      {
        var t := CalcExpr(d.selects[n].cond, k);
        SelectTriMeans(d, n, s);
        sels := sels + [Promote(s, modulesVal, t)];
      }
    }

    lemma SelectTriMeans(d: Def, n: nat, s: Sym)
      requires n < |d.selects|
      ensures SelectTri(d, n, s, modulesVal, Env()) == Promote(s, modulesVal, Eval(d.selects[n].cond, Env()))
    {
    }

    // ---------- sym_calc_value ----------

    /** sym_get_default_prop */
    method FirstDefault(ds: seq<Default>, ghost k: nat) returns (r: nat)
      requires Stable() && CorrectBelow(k)
      requires forall i :: 0 <= i < |ds| ==> BelowOpt(ds[i].cond, db, rank, k)
      modifies `info, `modulesVal
      ensures r == DefaultFrom(ds, 0, Env())
      ensures Stable() && CorrectBelow(k) && Kept(k)
      decreases k, 3
    {
      r := 0;
      while r < |ds|
        invariant r <= |ds| && DefaultFrom(ds, r, Env()) == DefaultFrom(ds, 0, Env())
        invariant Stable() && CorrectBelow(k) && Kept(k)
      {
        var t := CalcOpt(ds[r].cond, k);
        if t != NO {
          return;
        }
        r := r + 1;
      }
    }

    /** sym_calc_value: whatever has been calculated before, and in whatever order, the symbol is
        valid afterwards and holds the value of the plain evaluator. */
    method CalcValue(s: Sym)
      requires Stable() && CorrectBelow(rank(s) + 1)
      modifies `info, `modulesVal
      ensures Stable() && CorrectBelow(rank(s) + 1) && KeptBut(s) && Get(s).valid
      ensures old(Get(s)).valid ==> Get(s) == old(Get(s))
      ensures !old(Get(s)).valid && IsComputed(s) ==> Get(s).write == Written(s)
      decreases rank(s), 7
    {
      hide Get, Stable, Env, Spec, Visible, DirectDep, ReverseDep, DefaultFrom, SelectFrom;
      if Get(s).valid {
        return;
      }
      FixedAreValid(s);
      assert CorrectBelow(rank(s));
      if IsComputed(s) {
        Compute(s);
      } else {
        Update(s, Get(s).(valid := true), rank(s));
        Update(s, Get(s).(cur := Cur(NO, NameOf(s))), rank(s));
        NamesAreValues(s);
      }
      forall t: Sym | Get(t).valid && rank(t) < rank(s) + 1
        ensures Correct(t)
      {
        if t != s && rank(t) == rank(s) {
          assert old(Correct(t));
        }
      }
    }

    lemma FixedAreValid(s: Sym)
      ensures s.IsFixed() ==> Get(s).valid
    {
    }

    lemma NamesAreValues(s: Sym)
      requires Stable() && !IsComputed(s) && !s.IsFixed()
      ensures Spec(s) == Cur(NO, NameOf(s))
    {
      ValuesSolve(db, user, modulesVal, rank, s);
    }

    lemma StepIsSpec(s: Sym)
      requires Stable()
      ensures Spec(s) == Step(db.defs(s), user, s, modulesVal, Env())
      ensures s == db.modules ==> Spec(s).tri == modulesVal
    {
      ValuesSolve(db, user, modulesVal, rank, s);
    }

    /** sym_calc_value for a symbol that is not valid yet. */
    method Compute(s: Sym)
      requires Stable() && CorrectBelow(rank(s)) && IsComputed(s)
      modifies `info, `modulesVal
      ensures Stable() && CorrectBelow(rank(s)) && KeptBut(s)
      ensures Get(s).valid && Correct(s) && Get(s).write == Written(s)
      decreases rank(s), 6
    {
      hide Get, Stable, CorrectBelow, Env, Spec, PartsDone, Written, Writes, Step;
      var oldval := Get(s).cur;
      Begin(s);
      var newval;
      if s.IsBoolOrTristate() {
        newval := CalcTri(s);
      } else {
        newval := CalcStr(s);
      }
      SetCur(s, newval);
      StepIsSpec(s);
      PartsAreCorrect(s);
      if oldval != newval && s == db.modules {
        modulesVal := newval.tri;
      }
    }

    /** The flags, the visibility, and a value to be found by a recursive call. */
    method Begin(s: Sym)
      requires Stable() && CorrectBelow(rank(s)) && IsComputed(s)
      modifies `info, `modulesVal
      ensures Stable() && CorrectBelow(rank(s)) && KeptBut(s) && PartsDone(s)
      ensures Get(s).valid && !Get(s).write
      decreases rank(s), 5, 2
    {
      hide Get, Stable, CorrectBelow, Env, Spec, PartsDone, Written, Writes, Step;
      Update(s, Get(s).(valid := true), rank(s));
      Update(s, Get(s).(write := false), rank(s));
      CalcVisibility(s);
      SetCur(s, Cur(NO, if s.IsBoolOrTristate() then "n" else ""));
    }

    method SetCur(s: Sym, c: Cur)
      requires CorrectBelow(rank(s)) && IsComputed(s) && PartsDone(s)
      modifies `info
      ensures CorrectBelow(rank(s)) && PartsDone(s)
      ensures Get(s) == old(Get(s)).(cur := c) && forall t: Sym :: t != s ==> Get(t) == old(Get(t))
    {
      Update(s, Get(s).(cur := c), rank(s));
    }

    lemma PartsAreCorrect(s: Sym)
      requires PartsDone(s) && Get(s).cur == Spec(s)
      ensures Correct(s)
    {
    }

    /** Written, in the terms the methods compute. */
    lemma WrittenMeans(s: Sym)
      ensures var d := db.defs(s);
        var j := DefaultFrom(d.defaults, 0, Env());
        Written(s) <==>
          || Visible(d, s, modulesVal, Env()) != NO
          || (s.IsBoolOrTristate() && ReverseDep(d, s, modulesVal, Env()) != NO)
          || SelectFrom(d, 0, s, modulesVal, Env()) < |d.selects|
          || (j < |d.defaults| && (IsString(s) ==> d.defaults[j].value.Symbol?))
    {
    }

    /** The bool and tristate case. */
    method CalcTri(s: Sym) returns (c: Cur)
      requires Stable() && CorrectBelow(rank(s)) && s.IsBoolOrTristate() && PartsDone(s) && !Get(s).write
      modifies `info, `modulesVal
      ensures Stable() && CorrectBelow(rank(s)) && KeptBut(s) && PartsDone(s)
      ensures c == Step(db.defs(s), user, s, modulesVal, Env())
      ensures Get(s) == old(Get(s)).(write := Written(s))
      decreases rank(s), 5
    {
      hide Get, Stable, CorrectBelow, Env, Spec, Written, Writes;
      hide DefaultFrom, SelectFrom, SelectedTri, Visible, ReverseDep;
      WrittenMeans(s);
      var tri := NO;
      var visible := Get(s).visible;
      if visible != NO && s in user.tri {
        Update(s, Get(s).(write := true), rank(s));
        tri := Join(AndOp, user.tri[s], visible);
      } else {
        tri := CalcDefault(s);
      }
      tri := Join(OrOp, tri, Get(s).revDep);
      tri := AddSelected(s, tri);
      c := Cur(Promote(s, modulesVal, tri), "n");
    }

    /** No user value in force: the default, limited by its condition. */
    method CalcDefault(s: Sym) returns (tri: Tri)
      requires Stable() && CorrectBelow(rank(s)) && s.IsBoolOrTristate() && PartsDone(s) && !Get(s).write
      modifies `info, `modulesVal
      ensures Stable() && CorrectBelow(rank(s)) && KeptBut(s) && PartsDone(s)
      ensures tri == DefaultTri(db.defs(s), Env())
      ensures Get(s) == old(Get(s)).(write := Written(s))
      decreases rank(s), 4
    {
      hide Get, Stable, CorrectBelow, Env, Spec, Written, Writes, DefaultFrom, SelectFrom, FirstOn, Visible, ReverseDep;
      Dependencies(s);
      WrittenMeans(s);
      var d := db.defs(s);
      tri := NO;
      MarkForced(s);
      var i := FirstDefault(d.defaults, rank(s));
      if i < |d.defaults| {
        tri := LimitedDefault(d.defaults[i], rank(s));
        Update(s, Get(s).(write := true), rank(s));
      }
    }

    method LimitedDefault(d: Default, ghost k: nat) returns (tri: Tri)
      requires Stable() && CorrectBelow(k) && Below(d.value, db, rank, k) && BelowOpt(d.cond, db, rank, k)
      modifies `info, `modulesVal
      ensures Stable() && CorrectBelow(k) && Kept(k)
      ensures tri == Join(AndOp, Eval(d.value, Env()), EvalOpt(d.cond, Env()))
      decreases k, 3
    {
      tri := CalcExpr(d.value, k);
      var cond := CalcOpt(d.cond, k);
      tri := Join(AndOp, tri, cond);
    }

    /** SYMBOL_WRITE for a symbol that is visible, or that some other symbol selects. */
    method MarkForced(s: Sym)
      requires Stable() && CorrectBelow(rank(s)) && PartsDone(s) && !Get(s).write && !s.IsFixed()
      modifies `info
      ensures CorrectBelow(rank(s)) && PartsDone(s)
      ensures forall t: Sym :: t != s ==> Get(t) == old(Get(t))
      ensures var d := db.defs(s);
        Get(s) == old(Get(s)).(write :=
          || Visible(d, s, modulesVal, Env()) != NO
          || (s.IsBoolOrTristate() && ReverseDep(d, s, modulesVal, Env()) != NO)
          || SelectFrom(d, 0, s, modulesVal, Env()) < |d.selects|)
    {
      hide Get, Stable, CorrectBelow, Env, Spec, DefaultFrom, SelectFrom, FirstOn, Visible, ReverseDep;
      if Get(s).visible != NO || (s.IsBoolOrTristate() && Get(s).revDep != NO) {
        Update(s, Get(s).(write := true), rank(s));
      }
      FirstOnIsSelectFrom(s, 0);
      MarkSelected(s);
    }

    /** The first select that is on. */
    static function FirstOn(ts: seq<Tri>, i: nat): (r: nat)
      requires i <= |ts|
      ensures i <= r <= |ts|
      decreases |ts| - i
    {
      if i == |ts| || ts[i] != NO then i else FirstOn(ts, i + 1)
    }

    lemma {:induction false} FirstOnIsSelectFrom(s: Sym, i: nat)
      requires PartsDone(s) && i <= |db.defs(s).selects|
      ensures FirstOn(Get(s).selects, i) == SelectFrom(db.defs(s), i, s, modulesVal, Env())
      decreases |db.defs(s).selects| - i
    {
      if i < |db.defs(s).selects| {
        FirstOnIsSelectFrom(s, i + 1);
      }
    }

    /** The loop that sets SYMBOL_WRITE when some select is on. */
    method MarkSelected(s: Sym)
      requires !s.IsFixed() && CorrectBelow(rank(s))
      modifies `info
      ensures CorrectBelow(rank(s))
      ensures forall t: Sym :: t != s ==> Get(t) == old(Get(t))
      ensures Get(s) == old(Get(s)).(
        write := old(Get(s)).write || FirstOn(old(Get(s)).selects, 0) < |old(Get(s)).selects|)
    {
      var sels := Get(s).selects;
      var n := 0;
      while n < |sels|
        invariant n <= |sels| && CorrectBelow(rank(s))
        invariant forall t: Sym :: t != s ==> Get(t) == old(Get(t))
        invariant Get(s) == old(Get(s)).(write := Get(s).write)
        invariant Get(s).write <==> old(Get(s)).write || FirstOn(sels, 0) < n
        invariant FirstOn(sels, 0) < n || FirstOn(sels, 0) == FirstOn(sels, n)
      {
        if sels[n] != NO {
          Update(s, Get(s).(write := true), rank(s));
        }
        n := n + 1;
      }
    }

    /** The loop that raises the value to those of the selects that are on. */
    method AddSelected(s: Sym, base: Tri) returns (tri: Tri)
      requires Stable() && CorrectBelow(rank(s)) && IsComputed(s) && PartsDone(s)
      modifies `info, `modulesVal
      ensures Stable() && CorrectBelow(rank(s)) && Kept(rank(s))
      ensures tri == Join(OrOp, base, SelectedTri(db.defs(s), |db.defs(s).selects|, s, modulesVal, Env()))
      decreases rank(s), 3
    {
      hide Get, Stable, CorrectBelow, Env, Spec, Visible, DirectDep, ReverseDep;
      Dependencies(s);
      var d := db.defs(s);
      var sels := Get(s).selects;
      tri := base;
      for n := 0 to |d.selects|
        invariant Stable() && CorrectBelow(rank(s)) && Kept(rank(s))
        invariant tri == Join(OrOp, base, SelectedTri(d, n, s, modulesVal, Env()))
      {
        if sels[n] != NO {
          var t := CalcExpr(d.selects[n].value, rank(s));
          tri := Join(OrOp, tri, t);
        }
      }
    }

    /** The string, hex and int case. */
    method CalcStr(s: Sym) returns (c: Cur)
      requires Stable() && CorrectBelow(rank(s)) && IsString(s) && PartsDone(s) && !Get(s).write
      modifies `info, `modulesVal
      ensures Stable() && CorrectBelow(rank(s)) && KeptBut(s) && PartsDone(s)
      ensures c == Step(db.defs(s), user, s, modulesVal, Env())
      ensures Get(s) == old(Get(s)).(write := Written(s))
      decreases rank(s), 5
    {
      hide Get, Stable, CorrectBelow, Env, Spec, Written, Writes;
      hide Visible, DirectDep, ReverseDep, DefaultFrom, SelectFrom, FirstOn;
      WrittenMeans(s);
      Dependencies(s);
      c := Cur(NO, "");
      MarkForced(s);
      if Get(s).visible != NO && s in user.str {
        c := Cur(NO, user.str[s]);
        return;
      }
      FirstOnIsSelectFrom(s, 0);
      var d := db.defs(s);
      var i := FirstOn(Get(s).selects, 0);
      if i < |d.selects| && d.selects[i].value.Symbol? {
        var str := RawOf(d.selects[i].value.sym, rank(s));
        c := Cur(NO, str);
      } else {
        var found, str := StrDefault(s);
        if found {
          Update(s, Get(s).(write := true), rank(s));
        }
        c := Cur(NO, str);
      }
    }

    /** The default of a string symbol, if there is one that names a symbol. */
    method StrDefault(s: Sym) returns (found: bool, str: string)
      requires Stable() && CorrectBelow(rank(s)) && IsString(s)
      modifies `info, `modulesVal
      ensures Stable() && CorrectBelow(rank(s)) && Kept(rank(s))
      ensures var ds := db.defs(s).defaults;
        var j := DefaultFrom(ds, 0, Env());
        && found == (j < |ds| && ds[j].value.Symbol?)
        && str == if found then RawString(ds[j].value.sym, Env()) else ""
      decreases rank(s), 4
    {
      hide Get, Stable, CorrectBelow, Env, Spec, DefaultFrom, SelectFrom, Visible, ReverseDep;
      Dependencies(s);
      found, str := false, "";
      var ds := db.defs(s).defaults;
      var j := FirstDefault(ds, rank(s));
      if j < |ds| && ds[j].value.Symbol? {
        assert Below(ds[j].value, db, rank, rank(s));
        found := true;
        str := RawOf(ds[j].value.sym, rank(s));
      }
    }

    /** symbol.curr.val of another symbol. */
    method RawOf(s: Sym, ghost k: nat) returns (str: string)
      requires Stable() && CorrectBelow(k) && rank(s) < k
      modifies `info, `modulesVal
      ensures Stable() && CorrectBelow(k) && Kept(k)
      ensures str == RawString(s, Env())
      decreases k, 3
    {
      CalcBelow(s, k);
      RawStrings(s);
      str := Get(s).cur.str;
    }

    lemma RawStrings(s: Sym)
      requires Stable()
      ensures Spec(s).str == RawString(s, Env())
    {
      ValuesSolve(db, user, modulesVal, rank, s);
    }

    // ---------- any number of calls, in any order ----------

    /** Every valid symbol holds the value of the plain evaluator. */
    ghost predicate AllCorrect()
      reads this
    {
      forall s: Sym :: Get(s).valid ==> Correct(s)
    }

    /** sym_clear_all_valid: every flag is cleared, and the modules symbol is computed first. */
    method ClearAllValid()
      requires Stable()
      modifies `info, `modulesVal
      ensures Stable() && AllCorrect() && modulesVal == old(modulesVal) && user == old(user)
      ensures WriteState([])
    {
      ClearValid();
      forall s: Sym | Get(s).valid
        ensures Correct(s)
      {
        ValuesSolve(db, user, modulesVal, rank, s);
      }
      Calc(db.modules);
    }

    /** sym_calc_value as its callers see it. */
    method Calc(s: Sym)
      requires Stable() && AllCorrect()
      modifies `info, `modulesVal
      ensures Stable() && AllCorrect() && Get(s).valid && KeptBut(s)
      ensures old(Get(s)).valid ==> Get(s) == old(Get(s))
      ensures !old(Get(s)).valid && IsComputed(s) ==> Get(s).write == Written(s)
    {
      hide Get, Stable, Env, Spec;
      CalcValue(s);
      forall t: Sym | Get(t).valid
        ensures Correct(t)
      {
        if t != s && rank(t) >= rank(s) {
          assert old(Correct(t));
        }
      }
    }

    /** The lazy evaluator agrees with the plain one: after any sequence of calls, repetitions
        included, every valid symbol is correct, and the symbols asked for are valid. */
    method CalcInOrder(order: seq<Sym>)
      requires Stable()
      modifies `info, `modulesVal
      ensures Stable() && AllCorrect() && modulesVal == old(modulesVal) && user == old(user)
      ensures forall s :: s in order ==> Get(s).valid && Get(s).cur == Spec(s)
    {
      hide Get, Stable, Env, Spec;
      ClearAllValid();
      for n := 0 to |order|
        invariant Stable() && AllCorrect() && modulesVal == old(modulesVal) && user == old(user)
        invariant forall i :: 0 <= i < n ==> Get(order[i]).valid
      {
        Calc(order[n]);
      }
      assert forall s :: s in order ==> Correct(s);
    }

    // ---------- conf_write_defconfig ----------

    /** SYMBOL_WRITE is as calculated, except that the entries in `done` have had it cleared. */
    ghost predicate WriteState(done: seq<Sym>)
      reads this
    {
      && (forall t: Sym :: t in done ==> Get(t).valid)
      && (forall t: Sym :: Get(t).valid && IsComputed(t) ==>
            Get(t).write == (Writes(db, user, modulesVal, rank, t) && t !in done))
    }

    /** sym_is_changable */
    method IsChangeable(s: Sym) returns (b: bool)
      requires PartsDone(s)
      ensures b == Changeable(db.defs(s), s, modulesVal, Env())
    {
      hide Get, Env, Visible, ReverseDep, SelectTri;
      var tri := Get(s).revDep;
      var sels := Get(s).selects;
      for n := 0 to |sels|
        invariant tri == Forced(db.defs(s), n, s, modulesVal, Env())
      {
        tri := Join(OrOp, tri, sels[n]);
      }
      b := Get(s).visible > tri;
    }

    /** sym_get_string_default, which calculates the visibility once more. */
    method StringDefaultOf(s: Sym) returns (str: string)
      requires Stable() && AllCorrect() && IsComputed(s) && Get(s).valid
      modifies `info, `modulesVal
      ensures Stable() && AllCorrect() && KeptBut(s) && Get(s) == old(Get(s))
      ensures str == StringDefault(db.defs(s), s, modulesVal, Env())
    {
      hide Get, Env, Spec, Stable, Visible, DirectDep, ReverseDep, SelectTri, DefaultFrom, Writes;
      Dependencies(s);
      assert Correct(s);
      CalcVisibility(s);
      assert Get(s).selects == old(Get(s)).selects;
      if s.IsBoolOrTristate() {
        var d := db.defs(s).defaults;
        var tri := NO;
        var j := FirstDefault(d, rank(s));
        if j < |d| {
          tri := LimitedDefault(d[j], rank(s));
        }
        tri := Join(OrOp, tri, Get(s).revDep);
        str := Letter(Promote(s, modulesVal, tri));
      } else {
        var found;
        found, str := StrDefault(s);
      }
    }

    /** conf_write_defconfig over the entries in the order of the menu walk: the file consists of
        exactly the lines the specification gives. */
    method WriteDefconfig(menus: seq<Sym>) returns (lines: seq<Line>)
      requires Stable()
      requires forall s :: s in menus ==> IsComputed(s)
      modifies `info, `modulesVal
      ensures Stable() && AllCorrect() && modulesVal == old(modulesVal) && user == old(user)
      ensures lines == Lines(db, user, modulesVal, Env(), menus, |menus|)
    {
      hide Get, Stable, Env, Spec, Emitted, Writes, Lines;
      ClearAllValid();
      lines := [];
      NoLines(menus);
      for n := 0 to |menus|
        invariant Stable() && AllCorrect() && modulesVal == old(modulesVal) && user == old(user)
        invariant WriteState(menus[..n])
        invariant lines == Lines(db, user, modulesVal, Env(), menus, n)
      {
        var s := menus[n];
        assert menus[..n + 1] == menus[..n] + [s];
        Calc(s);
        assert WriteState(menus[..n]);
        var line := WriteEntry(s, menus[..n]);
        NextLine(menus, n);
        lines := lines + line;
      }
    }

    lemma NoLines(menus: seq<Sym>)
      ensures Lines(db, user, modulesVal, Env(), menus, 0) == []
    {
    }

    lemma NextLine(menus: seq<Sym>, n: nat)
      requires n < |menus|
      ensures Lines(db, user, modulesVal, Env(), menus, n + 1)
           == Lines(db, user, modulesVal, Env(), menus, n) + EntryLine(menus[n], menus[..n])
    {
      hide Emitted;
    }

    ghost function EntryLine(s: Sym, done: seq<Sym>): seq<Line>
      reads `user, `modulesVal
    {
      var c := Step(db.defs(s), user, s, modulesVal, Env());
      if s !in done && Emitted(db.defs(s), user, s, modulesVal, Env())
      then [(s, ToVal(s, c, modulesVal).str)] else []
    }

    /** One round of the loop: nothing, or one line. */
    method WriteEntry(s: Sym, ghost done: seq<Sym>) returns (line: seq<Line>)
      requires Stable() && AllCorrect() && IsComputed(s) && Get(s).valid && WriteState(done)
      modifies `info, `modulesVal
      ensures Stable() && AllCorrect() && modulesVal == old(modulesVal) && user == old(user)
      ensures WriteState(done + [s])
      ensures line == EntryLine(s, done)
    {
      hide Get, Stable, Env, Spec, Emitted, Writes, EntryLine, Changeable, StringDefault;
      line := [];
      EntryLineMeans(s, done);
      ChangeableIsWritten(s);
      if !Get(s).write {
        return;
      }
      ClearWrite(s, done);
      var b := IsChangeable(s);
      if !b {
        return;
      }
      var str := StringValue(s, rank(s) + 1 + rank(db.modules));
      var def := StringDefaultOf(s);
      if str != def {
        line := [(s, str)];
      }
    }

    lemma EntryLineMeans(s: Sym, done: seq<Sym>)
      requires Stable() && IsComputed(s)
      ensures EntryLine(s, done) ==
        if s !in done && Changeable(db.defs(s), s, modulesVal, Env())
           && Env()(s).str != StringDefault(db.defs(s), s, modulesVal, Env())
        then [(s, Env()(s).str)] else []
    {
      ValuesSolve(db, user, modulesVal, rank, s);
      hide Step, Changeable, StringDefault;
    }

    /** Only what is visible can be changed, and that has SYMBOL_WRITE. */
    lemma ChangeableIsWritten(s: Sym)
      requires Stable()
      ensures Changeable(db.defs(s), s, modulesVal, Env()) ==> Writes(db, user, modulesVal, rank, s)
    {
    }

    method ClearWrite(s: Sym, ghost done: seq<Sym>)
      requires AllCorrect() && IsComputed(s) && Get(s).valid && WriteState(done)
      modifies `info
      ensures AllCorrect() && WriteState(done + [s]) && Get(s) == old(Get(s)).(write := false)
    {
      hide Env, Spec, Writes, Visible, DirectDep, ReverseDep, SelectTri;
      Update(s, Get(s).(write := false), 0);
      forall t: Sym | Get(t).valid
        ensures Correct(t)
      {
        assert old(Correct(t));
      }
    }
  }
}
