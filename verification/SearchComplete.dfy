/** What a search without a report has established, and what a sweep therefore cannot miss. */
module SearchComplete {
  import opened Expressions
  import opened Dependencies
  import opened ReportedWalks
  import opened DependencySearch

  /** Without a report, every symbol entered on the way has had all its dependencies entered, and depends
      on none that was under search already. */
  ghost predicate Complete(g: Graph, st: State, st': State) {
    !st'.found ==> forall s :: s in st'.checked && s !in st.checked ==> Looked(g, st, st', s)
  }

  ghost predicate Looked(g: Graph, st: State, st': State, s: Sym) {
    Deps(g, s) <= st'.checked && Deps(g, s) !! st.check
  }

  lemma Then(g: Graph, st: State, st1: State, st2: State)
    requires Complete(g, st, st1) && Complete(g, st1, st2)
    requires st1.check == st.check && st.checked <= st1.checked <= st2.checked && (st1.found ==> st2.found)
    ensures Complete(g, st, st2)
    ensures forall s :: Looked(g, st, st1, s) ==> Looked(g, st, st2, s)
    ensures forall s :: Looked(g, st1, st2, s) ==> Looked(g, st, st2, s)
  {
    hide Deps;
    if !st2.found {
      forall s | s in st2.checked && s !in st.checked ensures Looked(g, st, st2, s) {
        assert s in st1.checked ==> Looked(g, st, st1, s);
        assert s !in st1.checked ==> Looked(g, st1, st2, s);
      }
    }
  }

  /** The symbols of an expression have been looked at. */
  predicate Seen(st: State, st': State, syms: set<Sym>) {
    !st'.found ==> syms <= st'.checked && syms !! st.check
  }

  lemma SeenThen(st: State, st1: State, st2: State, a: set<Sym>, b: set<Sym>)
    requires Seen(st, st1, a) && Seen(st1, st2, b)
    requires st1.check == st.check && st1.checked <= st2.checked && (st1.found ==> st2.found)
    ensures Seen(st, st2, a + b)
  {
  }

  lemma SameCheck(st: State, st1: State, st2: State, syms: set<Sym>)
    requires st1.check == st.check
    ensures Seen(st, st2, syms) <==> Seen(st1, st2, syms)
    ensures st2.found ==> Seen(st, st2, syms)
  {
  }

  lemma {:induction false} SearchComplete(g: Graph, all: set<Sym>, st: State, s: Sym)
    requires Closed(g, all) && Sound(g, st) && s in all
    ensures var r := Search(g, all, st, s); Complete(g, st, r.st) && Seen(st, r.st, {s})
    decreases |all - st.checked|, 0, if g.choiceOf(s).Some? then 2 else 1
  {
    hide Deps, Looked;
    if s !in st.check && s !in st.checked {
      if g.choiceOf(s).Some? {
        ChoicesAreFree(g, s);
        var c := g.choiceOf(s).value;
        assert g.choiceOf(s) == Some(c);
        SearchComplete(g, all, st, c);
      } else if g.isChoice(s) {
        SearchChoiceComplete(g, all, st, s);
      } else {
        SearchPlainComplete(g, all, st, s);
      }
    }
  }

  lemma {:induction false} SearchPlainComplete(g: Graph, all: set<Sym>, st: State, s: Sym)
    requires Closed(g, all) && Sound(g, st) && g.choiceOf(s) == None && !g.isChoice(s)
    requires s in all && s !in st.checked && s !in st.check
    ensures Complete(g, st, SearchPlain(g, all, st, s).st)
    decreases |all - st.checked|, 0, 0
  {
    PlainUnit(g, s);
    EnterSound(g, all, st, {s});
    hide Deps, Looked, SearchSym, Complete, Closed, Sound, WholeGroups;
    var st' := Entered(st, {s});
    SearchSymComplete(g, all, st', s);
    PlainSeen(g, st, SearchSym(g, all, st', s).st, s);
  }

  lemma PlainSeen(g: Graph, st: State, st': State, s: Sym)
    requires Complete(g, Entered(st, {s}), st') && (!st'.found ==> Looked(g, Entered(st, {s}), st', s))
    ensures Complete(g, st, Left(st', {s}))
  {
    hide Deps;
    if !st'.found {
      forall x | x in st'.checked && x !in st.checked ensures Looked(g, st, Left(st', {s}), x) {
        assert Looked(g, Entered(st, {s}), st', x);
      }
    }
  }

  lemma {:induction false} SearchChoiceComplete(g: Graph, all: set<Sym>, st: State, c: Sym)
    requires Closed(g, all) && Sound(g, st) && g.isChoice(c) && c in all && c !in st.checked && c !in st.check
    ensures Complete(g, st, SearchChoice(g, all, st, c).st)
    decreases |all - st.checked|, 0, 0
  {
    ChoiceUnit(g, all, st, c);
    var ms := MemberSet(g, c);
    EnterSound(g, all, st, ms + {c});
    LeaveGroup(st, ms, c);
    var st' := Entered(st, ms + {c});
    SearchGroupComplete(g, all, st', st, c);
    hide Deps, Search, SearchSym, SearchGroup, SearchMembers;
    var y := SearchGroup(g, all, st', c);
    if !y.st.found {
      forall s | s in y.st.checked && s !in st.checked ensures Looked(g, st, y.st, s) {
      }
    }
  }

  lemma {:induction false} SearchGroupComplete(g: Graph, all: set<Sym>, st: State, before: State, c: Sym)
    requires Closed(g, all) && Sound(g, st) && c in all && g.isChoice(c)
    requires before.check <= st.check - {c}
    ensures GroupLooked(g, before, st, SearchGroup(g, all, st, c).st, c)
    decreases |all - st.checked|, 8
  {
    hide Deps, Looked, SearchSym, SearchMembers, Complete, GroupLooked, AllLooked, Closed;
    var x := SearchSym(g, all, st, c);
    LessLeft(all, st, x.st);
    SearchSymComplete(g, all, st, c);
    if x.sym.None? {
      var x' := Left(x.st, {c});
      SearchMembersComplete(g, all, x', c, 0);
      GroupSeen(g, before, st, x.st, SearchMembers(g, all, x', c, 0).st, c);
    } else {
      GroupReported(g, before, st, Left(x.st, {c}), c);
    }
  }

  ghost predicate GroupLooked(g: Graph, before: State, st: State, st': State, c: Sym) {
    !st'.found ==>
      && (forall s :: s in st'.checked && s !in st.checked ==> Looked(g, before, st', s))
      && Looked(g, before, st', c) && forall a :: a in MemberSet(g, c) ==> Looked(g, before, st', a)
  }

  lemma GroupReported(g: Graph, before: State, st: State, st': State, c: Sym)
    requires st'.found
    ensures GroupLooked(g, before, st, st', c)
  {
  }

  lemma GroupSeen(g: Graph, before: State, st: State, st1: State, st2: State, c: Sym)
    requires Complete(g, st, st1) && (!st1.found ==> Looked(g, st, st1, c))
    requires Complete(g, Left(st1, {c}), st2) && AllLooked(g, Left(st1, {c}), st2, c, 0)
    requires before.check <= st.check - {c} && st1.check == st.check
    requires st.checked <= st1.checked <= st2.checked && (st1.found ==> st2.found)
    ensures GroupLooked(g, before, st, st2, c)
  {
    hide Deps;
  }

  lemma {:induction false} SearchMembersComplete(g: Graph, all: set<Sym>, st: State, c: Sym, n: nat)
    requires Closed(g, all) && Sound(g, st) && c in all && g.isChoice(c) && n <= |g.members(c)|
    ensures var r := SearchMembers(g, all, st, c, n).st; Complete(g, st, r) && AllLooked(g, st, r, c, n)
    decreases |all - st.checked|, 7, |g.members(c)| - n
  {
    hide Deps, Looked, SearchSym, Complete, AllLooked;
    if n < |g.members(c)| {
      var a := g.members(c)[n];
      MemberKnown(g, all, c, a);
      hide Closed;
      var x := SearchSym(g, all, st, a);
      LessLeft(all, st, x.st);
      SearchSymComplete(g, all, st, a);
      if x.sym.None? {
        var y := SearchMembers(g, all, x.st, c, n + 1);
        SearchMembersComplete(g, all, x.st, c, n + 1);
        OneMoreLooked(g, st, x.st, y.st, c, n);
      } else {
        NoneLooked(g, st, x.st, c, n);
      }
    } else {
      SameState(g, st);
      NoneLooked(g, st, st, c, n);
    }
  }

  lemma MemberKnown(g: Graph, all: set<Sym>, c: Sym, a: Sym)
    requires Closed(g, all) && c in all && g.isChoice(c) && a in g.members(c)
    ensures a in all
  {
    hide Deps;
    assert g.choiceOf(a) == Some(c);
  }

  /** The members from the n-th on have been searched. */
  ghost predicate AllLooked(g: Graph, st: State, st': State, c: Sym, n: nat) {
    !st'.found ==> forall i :: n <= i < |g.members(c)| ==> Looked(g, st, st', g.members(c)[i])
  }

  lemma NoneLooked(g: Graph, st: State, st': State, c: Sym, n: nat)
    requires st'.found || n == |g.members(c)|
    ensures AllLooked(g, st, st', c, n)
  {
  }

  lemma OneMoreLooked(g: Graph, st: State, st1: State, st2: State, c: Sym, n: nat)
    requires n < |g.members(c)| && Complete(g, st, st1) && Complete(g, st1, st2)
    requires !st1.found ==> Looked(g, st, st1, g.members(c)[n])
    requires AllLooked(g, st1, st2, c, n + 1)
    requires st1.check == st.check && st.checked <= st1.checked <= st2.checked && (st1.found ==> st2.found)
    ensures Complete(g, st, st2) && AllLooked(g, st, st2, c, n)
  {
    hide Deps, Looked, Complete;
    Then(g, st, st1, st2);
  }

  lemma {:induction false} SearchSymComplete(g: Graph, all: set<Sym>, st: State, s: Sym)
    requires Closed(g, all) && Sound(g, st) && s in all
    ensures var r := SearchSym(g, all, st, s).st; Complete(g, st, r) && (!r.found ==> Looked(g, st, r, s))
    decreases |all - st.checked|, 5
  {
    hide SearchOpt, SearchProps, PropsSyms, SymsOpt, Complete, Looked, Seen, Deps, Closed, Sound;
    var reverse, own := SymsOpt(g.revDep(s)), PropsSyms(g.props(s), |g.props(s)|, g.isChoice(s));
    DepsParts(g, s);
    DepsKnown(g, all, s);
    var x := SearchOpt(g, all, st, g.revDep(s));
    LessLeft(all, st, x.st);
    SearchOptComplete(g, all, st, g.revDep(s));
    if x.sym.None? {
      NothingSeen(g, x.st, s);
      var y := SearchProps(g, all, x.st, s, 0);
      SearchPropsComplete(g, all, x.st, s, 0);
      Then(g, st, x.st, y.st);
      LookedAt(g, st, x.st, y.st, s, reverse, own);
    }
  }

  lemma NothingSeen(g: Graph, st: State, s: Sym)
    ensures Seen(st, st, PropsSyms(g.props(s), 0, g.isChoice(s)))
  {
  }

  lemma LookedAt(g: Graph, st: State, st1: State, st2: State, s: Sym, a: set<Sym>, b: set<Sym>)
    requires Seen(st, st1, a) && Seen(st1, st2, b) && Deps(g, s) == a + b
    requires st1.check == st.check && st1.checked <= st2.checked && (st1.found ==> st2.found)
    ensures !st2.found ==> Looked(g, st, st2, s)
  {
    hide Deps;
  }

  /** The symbols of the properties from the n-th on. */
  lemma {:induction false} SearchPropsComplete(g: Graph, all: set<Sym>, st: State, s: Sym, n: nat)
    requires Closed(g, all) && Sound(g, st) && s in all && n <= |g.props(s)|
    requires Seen(st, st, PropsSyms(g.props(s), n, g.isChoice(s)))
    ensures var r := SearchProps(g, all, st, s, n).st;
      Complete(g, st, r) && Seen(st, r, PropsSyms(g.props(s), |g.props(s)|, g.isChoice(s)))
    decreases |all - st.checked|, 4, |g.props(s)| - n
  {
    hide SearchProp, PropSyms, PropsSyms, Complete, Closed, Deps, Seen, Sound;
    if n < |g.props(s)| {
      PropKnown(g, all, s, n);
      var p := g.props(s)[n];
      var x := SearchProp(g, all, st, p, g.isChoice(s));
      LessLeft(all, st, x.st);
      SearchPropComplete(g, all, st, p, g.isChoice(s));
      SeenThen(st, st, x.st, PropsSyms(g.props(s), n, g.isChoice(s)), PropSyms(p, g.isChoice(s)));
      if x.sym.None? {
        SameCheck(st, x.st, x.st, PropsSyms(g.props(s), n + 1, g.isChoice(s)));
        var y := SearchProps(g, all, x.st, s, n + 1);
        SearchPropsComplete(g, all, x.st, s, n + 1);
        Then(g, st, x.st, y.st);
        SameCheck(st, x.st, y.st, PropsSyms(g.props(s), |g.props(s)|, g.isChoice(s)));
      } else {
        SameCheck(st, x.st, x.st, PropsSyms(g.props(s), |g.props(s)|, g.isChoice(s)));
      }
    } else {
      SameState(g, st);
    }
  }

  lemma PropKnown(g: Graph, all: set<Sym>, s: Sym, n: nat)
    requires Closed(g, all) && s in all && n < |g.props(s)|
    ensures PropSyms(g.props(s)[n], g.isChoice(s)) <= all
    ensures PropsSyms(g.props(s), n + 1, g.isChoice(s))
         == PropsSyms(g.props(s), n, g.isChoice(s)) + PropSyms(g.props(s)[n], g.isChoice(s))
  {
    DepsKnown(g, all, s);
    hide Closed, PropSyms, SymsOpt;
    PropsMonotone(g.props(s), n + 1, |g.props(s)|, g.isChoice(s));
  }

  lemma SameState(g: Graph, st: State)
    ensures Complete(g, st, st)
  {
  }

  lemma {:induction false} SearchPropComplete(g: Graph, all: set<Sym>, st: State, p: Prop, choice: bool)
    requires Closed(g, all) && Sound(g, st) && PropSyms(p, choice) <= all
    ensures var r := SearchProp(g, all, st, p, choice).st; Complete(g, st, r) && Seen(st, r, PropSyms(p, choice))
    decreases |all - st.checked|, 3
  {
    hide SearchOpt, SymsOpt, Complete, Closed, Sound, Seen, PropSyms;
    SameState(g, st);
    PropParts(st, p, choice);
    if !p.kind.ChoiceProp? && !p.kind.SelectProp? {
      var x := SearchOpt(g, all, st, p.cond);
      LessLeft(all, st, x.st);
      SearchOptComplete(g, all, st, p.cond);
      if x.sym.Some? {
        SameCheck(st, x.st, x.st, PropSyms(p, choice));
      } else if p.kind.DefaultProp? && !choice {
        SearchOptComplete(g, all, x.st, p.value);
        var y := SearchOpt(g, all, x.st, p.value);
        Then(g, st, x.st, y.st);
        SeenThen(st, x.st, y.st, SymsOpt(p.cond), SymsOpt(p.value));
      }
    }
  }

  lemma PropParts(st: State, p: Prop, choice: bool)
    ensures p.kind.ChoiceProp? || p.kind.SelectProp? ==> Seen(st, st, PropSyms(p, choice))
    ensures p.kind.DefaultProp? && !choice ==> PropSyms(p, choice) == SymsOpt(p.cond) + SymsOpt(p.value)
    ensures p.kind.OtherProp? || (p.kind.DefaultProp? && choice) ==> PropSyms(p, choice) == SymsOpt(p.cond)
  {
  }

  lemma {:induction false} SearchOptComplete(g: Graph, all: set<Sym>, st: State, e: Option<Expr>)
    requires Closed(g, all) && Sound(g, st) && SymsOpt(e) <= all
    ensures var r := SearchOpt(g, all, st, e).st; Complete(g, st, r) && Seen(st, r, SymsOpt(e))
    decreases |all - st.checked|, 2
  {
    hide SearchExpr, Complete;
    SameState(g, st);
    if e.Some? {
      SearchExprComplete(g, all, st, e.value);
    }
  }

  lemma {:induction false} SearchExprComplete(g: Graph, all: set<Sym>, st: State, e: Expr)
    requires Closed(g, all) && Sound(g, st) && Syms(e) <= all
    ensures var r := SearchExpr(g, all, st, e).st; Complete(g, st, r) && Seen(st, r, Syms(e))
    decreases |all - st.checked|, 1, e
  {
    hide Search, Complete;
    match e
    case Symbol(s) => SearchComplete(g, all, st, s);
    case Equal(left, right) => SearchBothComplete(g, all, st, left, right);
    case Unequal(left, right) => SearchBothComplete(g, all, st, left, right);
    case Not(a) => SearchExprComplete(g, all, st, a);
    case Bin(_, lhs, rhs) =>
      var x := SearchExpr(g, all, st, lhs);
      LessLeft(all, st, x.st);
      SearchExprComplete(g, all, st, lhs);
      if x.sym.None? {
        SearchExprComplete(g, all, x.st, rhs);
        Then(g, st, x.st, SearchExpr(g, all, x.st, rhs).st);
      }
  }

  lemma {:induction false} SearchBothComplete(g: Graph, all: set<Sym>, st: State, left: Sym, right: Sym)
    requires Closed(g, all) && Sound(g, st) && left in all && right in all
    ensures var r := SearchBoth(g, all, st, left, right).st; Complete(g, st, r) && Seen(st, r, {left, right})
    decreases |all - st.checked|, 0, 3
  {
    hide Search, Complete;
    var x := Search(g, all, st, left);
    LessLeft(all, st, x.st);
    SearchComplete(g, all, st, left);
    if x.sym.None? {
      SearchComplete(g, all, x.st, right);
      Then(g, st, x.st, Search(g, all, x.st, right).st);
    }
  }

  // ---------- what cannot be missed ----------

  /** Links lead only to symbols that have been entered, once nothing is under search any more. */
  lemma {:induction false} ReachedIsChecked(g: Graph, st: State, w: seq<Sym>)
    requires Consistent(g) && Sound(g, st) && |w| > 0 && Chain(g, w) && w[0] in st.checked
    requires forall s :: s in st.checked ==> Deps(g, s) <= st.checked
    ensures w[|w| - 1] in st.checked
  {
    if |w| > 1 {
      var v := w[..|w| - 1];
      forall i | 0 <= i < |v| - 1 ensures Link(g, v[i], v[i + 1]) {
        assert Link(g, w[i], w[i + 1]);
      }
      ReachedIsChecked(g, st, v);
      assert Link(g, w[|w| - 2], w[|w| - 2 + 1]);
      hide Deps;
      var x, y := w[|w| - 2], w[|w| - 1];
      assert g.choiceOf(x) == Some(y) || g.choiceOf(y) == Some(x) || y in Deps(g, x) || x == y;
    }
  }

  /** A sweep that starts with an ordinary symbol at which the graph is tangled makes a report, although
      there need not be a cycle of the dependency relation. */
  lemma {:induction false} TangledIsReported(g: Graph, all: set<Sym>, syms: seq<Sym>, t: Sym, a: Sym, w: seq<Sym>)
    requires Closed(g, all) && t in all && TangledAt(g, t, a, w)
    requires g.choiceOf(t) == None && !g.isChoice(t)
    requires syms != [] && syms[0] == t
    ensures SearchAll(g, all, CLEAN, syms).found
    decreases |syms|
  {
    hide Deps, Search, TangledAt, Closed;
    if |syms| > 1 {
      TangledIsReported(g, all, syms[..|syms| - 1], t, a, w);
    } else {
      assert syms[..0] == [] && SearchAll(g, all, CLEAN, []) == CLEAN;
      FirstSearch(g, all, t, a, w);
    }
  }

  lemma FirstSearch(g: Graph, all: set<Sym>, t: Sym, a: Sym, w: seq<Sym>)
    requires Closed(g, all) && t in all && TangledAt(g, t, a, w)
    requires g.choiceOf(t) == None && !g.isChoice(t)
    ensures Search(g, all, CLEAN, t).st.found
  {
    PlainUnit(g, t);
    EnterSound(g, all, CLEAN, {t});
    hide Deps, SearchSym, TangledAt, Complete, Looked, Sound, WholeGroups, Closed, Chain;
    FromTangle(g, all, t, a, w);
  }

  lemma FromTangle(g: Graph, all: set<Sym>, t: Sym, a: Sym, w: seq<Sym>)
    requires Closed(g, all) && t in all && TangledAt(g, t, a, w) && g.choiceOf(t) == None
    requires Sound(g, Entered(CLEAN, {t}))
    ensures SearchSym(g, all, Entered(CLEAN, {t}), t).st.found
  {
    hide Deps, SearchSym, TangledAt, Complete, Looked, Sound;
    var st := Entered(CLEAN, {t});
    SearchSymComplete(g, all, st, t);
    TangledStart(g, st, SearchSym(g, all, st, t).st, t, a, w);
  }

  /** A search from `t` that has looked at everything has come back to `t`. */
  lemma TangledStart(g: Graph, st: State, st': State, t: Sym, a: Sym, w: seq<Sym>)
    requires Consistent(g) && Sound(g, st') && TangledAt(g, t, a, w) && g.choiceOf(t) == None
    requires st.check == {t} && st.checked == {t} && {t} <= st'.checked
    requires Complete(g, st, st') && (!st'.found ==> Looked(g, st, st', t))
    ensures st'.found
  {
    hide Deps, Chain, Link;
    if !st'.found {
      forall s | s in st'.checked ensures Deps(g, s) <= st'.checked {
        assert s != t ==> Looked(g, st, st', s);
      }
      ReachedIsChecked(g, st', w);
    }
  }
}
