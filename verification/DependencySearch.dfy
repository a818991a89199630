/** The search for recursive dependencies as a function: what each call does to the flags, what it
    returns, and whether anything has been reported (symbol.c). */
module DependencySearch {
  import opened Expressions
  import opened Dependencies
  import opened ReportedWalks

  /** The symbols with the flag CHECK, those with CHECKED, and whether there was a report. */
  datatype State = State(check: set<Sym>, checked: set<Sym>, found: bool)

  datatype Result = Result(st: State, sym: Option<Sym>)

  const CLEAN: State := State({}, {}, false)

  /** All symbols are known, and depend on known symbols. */
  ghost predicate Closed(g: Graph, all: set<Sym>) {
    && Consistent(g)
    && (forall s: Sym :: s in all ==> Deps(g, s) <= all)
    && (forall a: Sym, c: Sym :: g.choiceOf(a) == Some(c) ==> (a in all <==> c in all))
  }

  lemma DepsParts(g: Graph, s: Sym)
    ensures Deps(g, s) == SymsOpt(g.revDep(s)) + PropsSyms(g.props(s), |g.props(s)|, g.isChoice(s))
  {
  }

  lemma DepsKnown(g: Graph, all: set<Sym>, s: Sym)
    requires Closed(g, all) && s in all
    ensures Deps(g, s) <= all
  {
    hide Deps, Consistent;
  }

  function MemberSet(g: Graph, choice: Sym): set<Sym> {
    set a | a in g.members(choice)
  }

  lemma {:induction false} SubsetSize(a: set<Sym>, b: set<Sym>)
    requires a <= b
    ensures |a| <= |b|
    ensures a != b ==> |a| < |b|
  {
    assert b == a + (b - a);
    assert |b| == |a| + |b - a|;
  }

  /** A call keeps the flag CHECK as it was, never takes CHECKED away, and never forgets a report. */
  predicate Kept(st: State, r: Result) {
    && r.st.check == st.check && st.checked <= r.st.checked
    && (st.found ==> r.st.found) && (r.sym.Some? ==> r.st.found)
  }

  lemma LessLeft(all: set<Sym>, st: State, st': State)
    requires st.checked <= st'.checked
    ensures |all - st'.checked| <= |all - st.checked|
    ensures forall s :: s in all && s !in st.checked && s in st'.checked ==> |all - st'.checked| < |all - st.checked|
  {
    SubsetSize(all - st'.checked, all - st.checked);
  }

  /** A choice and its members are entered together, and what is flagged has been entered. */
  ghost predicate Sound(g: Graph, st: State) {
    && st.check <= st.checked
    && forall a: Sym, c: Sym :: g.choiceOf(a) == Some(c) ==> (a in st.checked <==> c in st.checked)
  }

  function Entered(st: State, s: set<Sym>): State {
    st.(check := st.check + s, checked := st.checked + s)
  }

  function Left(st: State, s: set<Sym>): State {
    st.(check := st.check - s)
  }

  /** A symbol on its own, or a choice with all its members. */
  ghost predicate WholeGroups(g: Graph, s: set<Sym>) {
    forall a: Sym, c: Sym :: g.choiceOf(a) == Some(c) ==> (a in s <==> c in s)
  }

  lemma EnterSound(g: Graph, all: set<Sym>, st: State, s: set<Sym>)
    requires Sound(g, st) && WholeGroups(g, s) && s <= all && s != {} && s !! st.checked
    ensures Sound(g, Entered(st, s)) && |all - Entered(st, s).checked| < |all - st.checked|
  {
    var x :| x in s;
    LessLeft(all, st, Entered(st, s));
  }

  lemma PlainUnit(g: Graph, s: Sym)
    requires Consistent(g) && g.choiceOf(s) == None && !g.isChoice(s)
    ensures WholeGroups(g, {s})
  {
  }

  lemma ChoiceUnit(g: Graph, all: set<Sym>, st: State, c: Sym)
    requires Closed(g, all) && Sound(g, st) && g.isChoice(c) && c in all && c !in st.checked
    ensures var s := MemberSet(g, c) + {c};
      WholeGroups(g, s) && s <= all && s !! st.checked && c !in MemberSet(g, c)
  {
    hide Deps;
    forall a | a in MemberSet(g, c) ensures g.choiceOf(a) == Some(c) && a in all {
      assert a in g.members(c);
    }
  }

  /** sym_check_deps. Only symbols that are known occur; the others count as done. */
  ghost function Search(g: Graph, all: set<Sym>, st: State, s: Sym): (r: Result)
    requires Closed(g, all) && Sound(g, st)
    ensures Kept(st, r) && Sound(g, r.st)
    decreases |all - st.checked|, 0, if g.choiceOf(s).Some? then 2 else 1
  {
    if s in st.check then Result(st.(found := true), Some(s))
    else if s in st.checked || s !in all then Result(st, None)
    else if g.choiceOf(s).Some? then
      ChoicesAreFree(g, s);
      Settled(Search(g, all, st, g.choiceOf(s).value), s)
    else if g.isChoice(s) then Settled(SearchChoice(g, all, st, s), s)
    else Settled(SearchPlain(g, all, st, s), s)
  }

  /** A call does not return the symbol it was made for. */
  function Settled(r: Result, s: Sym): Result {
    Result(r.st, if r.sym == Some(s) then None else r.sym)
  }

  lemma ChoicesAreFree(g: Graph, s: Sym)
    requires Consistent(g) && g.choiceOf(s).Some?
    ensures g.isChoice(g.choiceOf(s).value) && g.choiceOf(g.choiceOf(s).value) == None
  {
    assert g.choiceOf(s) == Some(g.choiceOf(s).value);
  }

  ghost function SearchPlain(g: Graph, all: set<Sym>, st: State, s: Sym): (r: Result)
    requires Closed(g, all) && Sound(g, st) && g.choiceOf(s) == None && !g.isChoice(s) && s in all && s !in st.checked && s !in st.check
    ensures Kept(st, r) && Sound(g, r.st) && s in r.st.checked
    decreases |all - st.checked|, 0, 0
  {
    PlainUnit(g, s);
    EnterSound(g, all, st, {s});
    var x := SearchSym(g, all, Entered(st, {s}), s);
    Result(Left(x.st, {s}), x.sym)
  }

  /** sym_check_choice_deps */
  ghost function SearchChoice(g: Graph, all: set<Sym>, st: State, c: Sym): (r: Result)
    requires Closed(g, all) && Sound(g, st) && g.isChoice(c) && c in all && c !in st.checked && c !in st.check
    ensures Kept(st, r) && Sound(g, r.st) && c in r.st.checked
    decreases |all - st.checked|, 0, 0
  {
    ChoiceUnit(g, all, st, c);
    var ms := MemberSet(g, c);
    EnterSound(g, all, st, ms + {c});
    LeaveGroup(st, ms, c);
    var y := SearchGroup(g, all, Entered(st, ms + {c}), c);
    Result(
      Left(y.st, ms),
      if y.sym.Some? && g.choiceOf(y.sym.value) == Some(c) then Some(c) else y.sym)
  }

  lemma LeaveGroup(st: State, ms: set<Sym>, c: Sym)
    requires st.check !! ms && c !in st.check
    ensures Entered(st, ms + {c}).check - {c} - ms == st.check
  {
  }

  /** First the choice, then, no longer flagged itself, its members. */
  ghost function SearchGroup(g: Graph, all: set<Sym>, st: State, c: Sym): (r: Result)
    requires Closed(g, all) && Sound(g, st)
    ensures r.st.check == st.check - {c} && st.checked <= r.st.checked && Sound(g, r.st)
    ensures (st.found ==> r.st.found) && (r.sym.Some? ==> r.st.found)
    decreases |all - st.checked|, 8
  {
    var x := SearchSym(g, all, st, c);
    LessLeft(all, st, x.st);
    if x.sym.Some? then Result(Left(x.st, {c}), x.sym) else SearchMembers(g, all, Left(x.st, {c}), c, 0)
  }

  ghost function SearchMembers(g: Graph, all: set<Sym>, st: State, c: Sym, n: nat): (r: Result)
    requires Closed(g, all) && Sound(g, st) && n <= |g.members(c)|
    ensures Kept(st, r) && Sound(g, r.st)
    decreases |all - st.checked|, 7, |g.members(c)| - n
  {
    if n == |g.members(c)| then Result(st, None)
    else
      var x := SearchSym(g, all, st, g.members(c)[n]);
      LessLeft(all, st, x.st);
      if x.sym.Some? then x else SearchMembers(g, all, x.st, c, n + 1)
  }

  lemma PlainResult(g: Graph, all: set<Sym>, st: State, sym: Sym)
    requires Closed(g, all) && Sound(g, st) && g.choiceOf(sym) == None && !g.isChoice(sym)
    requires sym in all && sym !in st.checked && sym !in st.check
    ensures Sound(g, Entered(st, {sym}))
    ensures var x := SearchSym(g, all, Entered(st, {sym}), sym);
      SearchPlain(g, all, st, sym) == Result(Left(x.st, {sym}), x.sym)
  {
    PlainUnit(g, sym);
    EnterSound(g, all, st, {sym});
    hide Closed, Sound, WholeGroups, SearchSym, Deps;
  }

  lemma ChoiceResult(g: Graph, all: set<Sym>, st: State, choice: Sym)
    requires Closed(g, all) && Sound(g, st) && g.isChoice(choice)
    requires choice in all && choice !in st.checked && choice !in st.check
    ensures Sound(g, Entered(st, MemberSet(g, choice) + {choice}))
    ensures var ms := MemberSet(g, choice);
      var y := SearchGroup(g, all, Entered(st, ms + {choice}), choice);
      SearchChoice(g, all, st, choice) == Result(
        Left(y.st, ms),
        if y.sym.Some? && g.choiceOf(y.sym.value) == Some(choice) then Some(choice) else y.sym)
  {
    ChoiceUnit(g, all, st, choice);
    EnterSound(g, all, st, MemberSet(g, choice) + {choice});
    hide Closed, Sound, WholeGroups, SearchGroup, Deps;
  }

  /** sym_check_sym_deps */
  ghost function SearchSym(g: Graph, all: set<Sym>, st: State, s: Sym): (r: Result)
    requires Closed(g, all) && Sound(g, st)
    ensures Kept(st, r) && Sound(g, r.st)
    decreases |all - st.checked|, 5
  {
    var x := SearchOpt(g, all, st, g.revDep(s));
    LessLeft(all, st, x.st);
    if x.sym.Some? then x else SearchProps(g, all, x.st, s, 0)
  }

  ghost function SearchProps(g: Graph, all: set<Sym>, st: State, s: Sym, n: nat): (r: Result)
    requires Closed(g, all) && Sound(g, st) && n <= |g.props(s)|
    ensures Kept(st, r) && Sound(g, r.st)
    decreases |all - st.checked|, 4, |g.props(s)| - n
  {
    if n == |g.props(s)| then Result(st, None)
    else
      var x := SearchProp(g, all, st, g.props(s)[n], g.isChoice(s));
      LessLeft(all, st, x.st);
      if x.sym.Some? then x else SearchProps(g, all, x.st, s, n + 1)
  }

  ghost function SearchProp(g: Graph, all: set<Sym>, st: State, p: Prop, choice: bool): (r: Result)
    requires Closed(g, all) && Sound(g, st)
    ensures Kept(st, r) && Sound(g, r.st)
    decreases |all - st.checked|, 3
  {
    if p.kind.ChoiceProp? || p.kind.SelectProp? then Result(st, None)
    else
      var x := SearchOpt(g, all, st, p.cond);
      LessLeft(all, st, x.st);
      if x.sym.Some? || !p.kind.DefaultProp? || choice then x else SearchOpt(g, all, x.st, p.value)
  }

  ghost function SearchOpt(g: Graph, all: set<Sym>, st: State, e: Option<Expr>): (r: Result)
    requires Closed(g, all) && Sound(g, st)
    ensures Kept(st, r) && Sound(g, r.st)
    decreases |all - st.checked|, 2
  {
    if e.None? then Result(st, None) else SearchExpr(g, all, st, e.value)
  }

  /** sym_check_expr_deps */
  ghost function SearchExpr(g: Graph, all: set<Sym>, st: State, e: Expr): (r: Result)
    requires Closed(g, all) && Sound(g, st)
    ensures Kept(st, r) && Sound(g, r.st)
    decreases |all - st.checked|, 1, e
  {
    match e
    case Symbol(s) => Search(g, all, st, s)
    case Equal(left, right) => SearchBoth(g, all, st, left, right)
    case Unequal(left, right) => SearchBoth(g, all, st, left, right)
    case Not(a) => SearchExpr(g, all, st, a)
    case Bin(_, lhs, rhs) =>
      var x := SearchExpr(g, all, st, lhs);
      LessLeft(all, st, x.st);
      if x.sym.Some? then x else SearchExpr(g, all, x.st, rhs)
  }

  ghost function SearchBoth(g: Graph, all: set<Sym>, st: State, left: Sym, right: Sym): (r: Result)
    requires Closed(g, all) && Sound(g, st)
    ensures Kept(st, r) && Sound(g, r.st)
    decreases |all - st.checked|, 0, 3
  {
    var x := Search(g, all, st, left);
    LessLeft(all, st, x.st);
    if x.sym.Some? then x else Search(g, all, x.st, right)
  }

  /** The loop over all symbols (zconf.y:516-519). */
  ghost function SearchAll(g: Graph, all: set<Sym>, st: State, syms: seq<Sym>): (st': State)
    requires Closed(g, all) && Sound(g, st)
    ensures Sound(g, st') && st'.check == st.check && st.checked <= st'.checked && (st.found ==> st'.found)
  {
    if syms == [] then st else Search(g, all, SearchAll(g, all, st, syms[..|syms| - 1]), syms[|syms| - 1]).st
  }
}
