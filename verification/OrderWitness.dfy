/** A graph without a cycle that is reported in one order of the sweep and not in another. */
module OrderWitness {
  import opened Expressions
  import opened Dependencies
  import opened ReportedWalks
  import opened DependencySearch
  import opened SearchComplete

  const CHOICE: Sym := Config("C", Boolean)
  const MEMBER: Sym := Config("A", Boolean)
  const OUTSIDE: Sym := Config("X", Boolean)

  const ALL: set<Sym> := {CHOICE, MEMBER, OUTSIDE}

  /** A condition of a prompt. */
  function Prompt(e: Expr): seq<Prop> {
    [Prop(OtherProp, Some(e), None)]
  }

  /** A choice C with the member A. The symbol X outside depends on C, and A on X and on its choice. */
  function Shared(): Graph {
    Graph(
      s => None,
      s => if s == MEMBER then Prompt(Bin(AndOp, Symbol(CHOICE), Symbol(OUTSIDE)))
           else if s == OUTSIDE then Prompt(Symbol(CHOICE))
           else [],
      s => s == CHOICE,
      s => if s == CHOICE then [MEMBER] else [],
      s => if s == MEMBER then Some(CHOICE) else None)
  }

  lemma SharedDeps(s: Sym)
    ensures Deps(Shared(), s)
         == if s == MEMBER then {CHOICE, OUTSIDE} else if s == OUTSIDE then {CHOICE} else {}
  {
    var ps := Shared().props(s);
    if ps != [] {
      assert PropsSyms(ps, 0, Shared().isChoice(s)) == {};
    }
  }

  lemma SharedIsClosed()
    ensures Closed(Shared(), ALL) && Sound(Shared(), CLEAN)
  {
    forall s: Sym | s in ALL ensures Deps(Shared(), s) <= ALL {
      SharedDeps(s);
    }
    hide Deps;
  }

  lemma SharedHasNoCycle()
    ensures !HasCycle(Shared(), ALL)
  {
    var fin := [Single(CHOICE), Single(OUTSIDE), Members(CHOICE)];
    SharedDeps(CHOICE);
    SharedDeps(OUTSIDE);
    SharedDeps(MEMBER);
    hide Deps;
    forall i, m | 0 <= i < |fin| && Succ(Shared(), fin[i], m) ensures m in fin[..i] {
      assert fin[..1] == [Single(CHOICE)] && fin[..2] == [Single(CHOICE), Single(OUTSIDE)];
    }
    OrderedMeansAcyclic(Shared(), fin, ALL);
  }

  lemma OutsideFirstIsReported()
    ensures Closed(Shared(), ALL) && Sound(Shared(), CLEAN)
    ensures SearchAll(Shared(), ALL, CLEAN, [OUTSIDE, CHOICE, MEMBER]).found
  {
    SharedIsClosed();
    SharedDeps(OUTSIDE);
    SharedDeps(MEMBER);
    hide Deps, SearchAll;
    assert TangledAt(Shared(), OUTSIDE, MEMBER, [OUTSIDE, CHOICE]);
    TangledIsReported(Shared(), ALL, [OUTSIDE, CHOICE, MEMBER], OUTSIDE, MEMBER, [OUTSIDE, CHOICE]);
  }

  // ---------- the other order ----------

  lemma NothingToSearch(g: Graph, all: set<Sym>, st: State, s: Sym)
    requires Closed(g, all) && Sound(g, st) && g.revDep(s) == None && g.props(s) == []
    ensures SearchSym(g, all, st, s) == Result(st, None)
  {
    hide Closed, Sound;
  }

  lemma OnlyPrompt(g: Graph, all: set<Sym>, st: State, s: Sym, e: Expr)
    requires Closed(g, all) && Sound(g, st) && g.revDep(s) == None && g.props(s) == Prompt(e)
    ensures SearchSym(g, all, st, s) == SearchExpr(g, all, st, e)
  {
    hide Closed, Sound, SearchExpr;
    var x := SearchExpr(g, all, st, e);
    assert SearchOpt(g, all, st, Some(e)) == x;
    assert SearchProp(g, all, st, g.props(s)[0], g.isChoice(s)) == x;
    assert x.sym.None? ==> SearchProps(g, all, x.st, s, 1) == Result(x.st, None);
  }

  lemma AlreadyChecked(g: Graph, all: set<Sym>, st: State, s: Sym)
    requires Closed(g, all) && Sound(g, st) && s in st.checked && s !in st.check
    ensures Search(g, all, st, s) == Result(st, None)
    ensures SearchExpr(g, all, st, Symbol(s)) == Result(st, None)
  {
    hide Closed, Sound;
  }

  /** X is searched while the member A is flagged and the choice no longer is. */
  lemma OutsideUnderMember()
    ensures Closed(Shared(), ALL) && Sound(Shared(), State({MEMBER}, {CHOICE, MEMBER}, false))
    ensures Search(Shared(), ALL, State({MEMBER}, {CHOICE, MEMBER}, false), OUTSIDE) == Result(State({MEMBER}, ALL, false), None)
  {
    SharedIsClosed();
    var g, st := Shared(), State({MEMBER}, {CHOICE, MEMBER}, false);
    assert Sound(g, st) by {
      hide Deps;
    }
    hide Closed, Sound, SearchSym, SearchExpr, SearchPlain, Deps;
    PlainResult(g, ALL, st, OUTSIDE);
    var st' := Entered(st, {OUTSIDE});
    OnlyPrompt(g, ALL, st', OUTSIDE, Symbol(CHOICE));
    AlreadyChecked(g, ALL, st', CHOICE);
    assert Left(st', {OUTSIDE}) == State({MEMBER}, ALL, false);
  }

  /** The members of the choice, after the choice itself. */
  lemma MemberSearched()
    ensures Closed(Shared(), ALL) && Sound(Shared(), State({MEMBER}, {CHOICE, MEMBER}, false))
    ensures SearchMembers(Shared(), ALL, State({MEMBER}, {CHOICE, MEMBER}, false), CHOICE, 0)
         == Result(State({MEMBER}, ALL, false), None)
  {
    OutsideUnderMember();
    var g, st := Shared(), State({MEMBER}, {CHOICE, MEMBER}, false);
    AlreadyChecked(g, ALL, st, CHOICE);
    OnlyPrompt(g, ALL, st, MEMBER, Bin(AndOp, Symbol(CHOICE), Symbol(OUTSIDE)));
    hide Closed, Sound, SearchSym, Search;
    var r := Result(State({MEMBER}, ALL, false), None);
    assert SearchExpr(g, ALL, st, Symbol(OUTSIDE)) == r;
    assert SearchSym(g, ALL, st, MEMBER) == r;
    assert SearchMembers(g, ALL, r.st, CHOICE, 1) == r;
  }

  lemma ChoiceGroup(st: State)
    requires st == State({CHOICE, MEMBER}, {CHOICE, MEMBER}, false)
    ensures Closed(Shared(), ALL) && Sound(Shared(), st)
    ensures SearchGroup(Shared(), ALL, st, CHOICE) == Result(State({MEMBER}, ALL, false), None)
  {
    SharedIsClosed();
    MemberSearched();
    assert Left(st, {CHOICE}) == State({MEMBER}, {CHOICE, MEMBER}, false);
    assert Sound(Shared(), st) by {
      hide Deps;
    }
    hide Closed, Sound, SearchSym, SearchMembers, Deps;
    NothingToSearch(Shared(), ALL, st, CHOICE);
  }

  lemma ChoiceSearched()
    ensures Closed(Shared(), ALL) && Sound(Shared(), CLEAN)
    ensures Search(Shared(), ALL, CLEAN, CHOICE).st == State({}, ALL, false)
  {
    SharedIsClosed();
    var g, ms := Shared(), MemberSet(Shared(), CHOICE);
    assert ms == {MEMBER};
    hide Closed, Sound, SearchSym, SearchMembers, SearchChoice, SearchGroup, MemberSet, Deps;
    ChoiceResult(g, ALL, CLEAN, CHOICE);
    var st := Entered(CLEAN, ms + {CHOICE});
    ChoiceGroup(st);
    assert Left(State({MEMBER}, ALL, false), ms) == State({}, ALL, false);
  }

  lemma ChoiceFirstIsSilent()
    ensures Closed(Shared(), ALL) && Sound(Shared(), CLEAN)
    ensures !SearchAll(Shared(), ALL, CLEAN, [CHOICE, OUTSIDE, MEMBER]).found
  {
    ChoiceSearched();
    var g, st := Shared(), State({}, ALL, false);
    AlreadyChecked(g, ALL, st, OUTSIDE);
    AlreadyChecked(g, ALL, st, MEMBER);
    hide Closed, Sound, Search;
    var syms := [CHOICE, OUTSIDE, MEMBER];
    assert syms[..2] == [CHOICE, OUTSIDE] && syms[..2][..1] == [CHOICE] && [CHOICE][..0] == [];
    assert SearchAll(g, ALL, CLEAN, [CHOICE]) == st;
    assert SearchAll(g, ALL, CLEAN, syms[..2]) == st;
  }

  /** The graph has no cycle; the sweep that starts with X makes a report, and the one that starts with
      the choice makes none. */
  lemma OrderMatters()
    ensures Closed(Shared(), ALL) && Sound(Shared(), CLEAN) && !HasCycle(Shared(), ALL)
    ensures SearchAll(Shared(), ALL, CLEAN, [OUTSIDE, CHOICE, MEMBER]).found
    ensures !SearchAll(Shared(), ALL, CLEAN, [CHOICE, OUTSIDE, MEMBER]).found
  {
    hide *;
    SharedHasNoCycle();
    OutsideFirstIsReported();
    ChoiceFirstIsSilent();
  }

  /** What is printed in the first order: from X up to the choice and down to its member. */
  lemma ReportDescends()
    ensures ReportedWalk(Shared(), [OUTSIDE, CHOICE, MEMBER]) && Descending(Shared(), [OUTSIDE, CHOICE, MEMBER])
  {
    SharedDeps(OUTSIDE);
    SharedDeps(CHOICE);
    SharedDeps(MEMBER);
    hide Deps;
    var c := [OUTSIDE, CHOICE, MEMBER];
    assert Next(c, 0) == CHOICE && Next(c, 1) == MEMBER && Next(c, 2) == OUTSIDE;
    assert LeadsOn(Shared(), c[0], Next(c, 0));
    assert Descends(Shared(), c[1], Next(c, 1));
  }

  /** A choice whose members depend on nothing else is no reported walk. */
  lemma ChoiceAloneIsNoReport(g: Graph, c: seq<Sym>)
    requires forall s, t :: s in c && t in Deps(g, s) ==> g.choiceOf(s) == Some(t)
    ensures !ReportedWalk(g, c)
  {
    hide Deps;
  }
}
