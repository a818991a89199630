/** sym_check_deps: the depth-first search with the flags CHECK and CHECKED and the stack that the
    error message is printed from (symbol.c). */
module DependencyCheck {
  import opened Expressions
  import opened Dependencies
  import opened ReportedWalks
  import opened DependencySearch

  /** From a symbol on the stack to its top: a closed walk, if the top depends on that symbol, or is
      a member of that choice and was itself depended on. */
  lemma ClosesOnStack(g: Graph, st: seq<Sym>, i: nat)
    requires Consistent(g) && Chain(g, st) && i < |st|
    requires LeadsOn(g, st[|st| - 1], st[i])
          || (i < |st| - 1 && g.choiceOf(st[|st| - 1]) == Some(st[i]) && st[|st| - 1] in Deps(g, st[|st| - 2]))
    ensures ReportedWalk(g, st[i..])
  {
    hide Deps;
    var c := st[i..];
    forall k: nat | k < |c|
      ensures Link(g, c[k], Next(c, k))
    {
      assert k < |c| - 1 ==> Link(g, st[i + k], st[i + k + 1]);
    }
    var k := if LeadsOn(g, st[|st| - 1], st[i]) then |c| - 1 else |c| - 2;
    assert LeadsOn(g, c[k], Next(c, k));
  }

  lemma ChainPush(g: Graph, st: seq<Sym>, s: Sym)
    requires Chain(g, st) && (st != [] ==> Link(g, st[|st| - 1], s))
    ensures Chain(g, st + [s])
  {
    hide Link;
    var st' := st + [s];
    forall i | 0 <= i < |st'| - 1
      ensures Link(g, st'[i], st'[i + 1])
    {
      if i < |st| - 1 {
        assert Link(g, st[i], st[i + 1]);
      }
    }
  }

  lemma ChainPop(g: Graph, st: seq<Sym>, s: Sym)
    requires Chain(g, st + [s])
    ensures Chain(g, st)
  {
    hide Link;
    var st' := st + [s];
    forall i | 0 <= i < |st| - 1
      ensures Link(g, st[i], st[i + 1])
    {
      assert Link(g, st'[i], st'[i + 1]);
    }
  }

  lemma LinkStaysIn(g: Graph, all: set<Sym>, x: Sym, y: Sym)
    requires Closed(g, all) && Link(g, x, y) && x in all
    ensures y in all
  {
    hide Deps, Consistent;
  }

  /** A walk that starts with a known symbol stays among the known symbols. */
  lemma {:induction false} WalkStaysIn(g: Graph, all: set<Sym>, c: seq<Sym>, n: nat)
    requires Closed(g, all) && ReportedWalk(g, c) && c[0] in all && n < |c|
    ensures c[n] in all
  {
    hide Link, Closed, Deps, LeadsOn;
    if n > 0 {
      WalkStaysIn(g, all, c, n - 1);
      assert Link(g, c[n - 1], Next(c, n - 1));
      LinkStaysIn(g, all, c[n - 1], Next(c, n - 1));
    }
  }

  /** What a report says about the graph. */
  lemma ReportMeans(g: Graph, all: set<Sym>, c: seq<Sym>)
    requires Closed(g, all) && ReportedWalk(g, c) && c[0] in all
    ensures !Descending(g, c) ==> HasCycle(g, all)
    ensures HasCycle(g, all) || Tangled(g)
  {
    hide Descending, HasCycle, Tangled, Deps, ReportedWalk;
    forall s | s in c ensures s in all {
      var n: nat :| n < |c| && c[n] == s;
      WalkStaysIn(g, all, c, n);
    }
    if !Descending(g, c) {
      WalkIsCycle(g, c, all);
    }
    CycleOrTangled(g, c, all);
  }

  class Checker {
    const g: Graph
    ghost const all: set<Sym>
    var check: set<Sym>
    var checked: set<Sym>
    var stack: seq<Sym>
    ghost var cycles: seq<seq<Sym>>
    ghost var fin: seq<Node>

    constructor (g: Graph, ghost all: set<Sym>)
      ensures this.g == g && this.all == all
      ensures check == {} && checked == {} && stack == [] && cycles == [] && fin == []
    {
      this.g, this.all := g, all;
      check, checked, stack, cycles, fin := {}, {}, [], [], [];
    }

    ghost function Now(): State
      reads `check, `checked, `cycles
    {
      State(check, checked, cycles != [])
    }

    /** The state during a search whose stack is `st`. */
    ghost predicate Inv(st: seq<Sym>)
      reads `check, `checked, `cycles, `fin
    {
      && Closed(g, all) && Sound(g, Now())
      && checked <= all
      && Chain(g, st)
      // a flagged symbol is on the stack, or its choice is
      && (forall s :: s in check ==> Anchor(s) in st)
      && (forall c :: c in cycles ==> ReportedWalk(g, c) && c[0] in all)
      && (cycles == [] ==> Ordered(g, fin) && Finished())
    }

    /** What is checked and not under search is done, with everything it depends on. */
    ghost predicate Finished()
      reads `check, `checked, `fin
    {
      forall s :: s in checked && s !in check ==> NodeOf(g, s) in fin
    }

    /** Where sym_check_print_recursive looks for a symbol on the stack. */
    function Anchor(s: Sym): Sym {
      if g.choiceOf(s).Some? then g.choiceOf(s).value else s
    }

    /** The choice of `s`, if it has one, is not under search itself. */
    ghost predicate Free(s: Sym)
      reads `check
    {
      g.choiceOf(s).Some? ==> g.choiceOf(s).value !in check
    }

    /** Flags of the search in progress and the stack are restored; everything else only grows. */
    twostate predicate Restored()
      reads this
    {
      && check == old(check) && stack == old(stack)
      && Grown()
    }

    twostate predicate Grown()
      reads this
    {
      && old(checked) <= checked
      && old(cycles) <= cycles
      && (forall n :: n in old(fin) ==> n in fin)
    }

    // ---------- moving between stacks ----------

    lemma Push(st: seq<Sym>, s: Sym)
      requires Inv(st) && (st != [] ==> Link(g, st[|st| - 1], s))
      ensures Inv(st + [s])
    {
      hide Chain, Link, ReportedWalk, Ordered, Deps, Closed;
      ChainPush(g, st, s);
    }

    lemma Pop(st: seq<Sym>, s: Sym)
      requires Inv(st + [s]) && forall t :: t in check ==> Anchor(t) in st
      ensures Inv(st)
    {
      hide Chain, Link, ReportedWalk, Ordered, Deps, Closed;
      ChainPop(g, st, s);
    }

    lemma Known(st: seq<Sym>)
      requires Inv(st)
      ensures check <= checked <= all && Closed(g, all) && Sound(g, Now()) && Chain(g, st)
      ensures forall t :: t in check ==> Anchor(t) in st
    {
    }

    lemma KnownSymbol(st: seq<Sym>, s: Sym)
      requires Inv(st) && s in all
      ensures Deps(g, s) <= all
      ensures g.choiceOf(s).Some? ==>
        var c := g.choiceOf(s).value;
        && c in all && (s in checked <==> c in checked)
        && g.isChoice(c) && g.choiceOf(c) == None && s in g.members(c)
      ensures cycles == [] && s in checked && s !in check ==> NodeOf(g, s) in fin
    {
      hide Chain, ReportedWalk, Ordered, Deps, Closed;
      KnownGraph(s);
      if g.choiceOf(s).Some? {
        var c := g.choiceOf(s).value;
        assert g.choiceOf(s) == Some(c);
      }
    }

    lemma KnownGraph(s: Sym)
      requires Closed(g, all) && s in all
      ensures Deps(g, s) <= all
      ensures g.choiceOf(s).Some? ==>
        var c := g.choiceOf(s).value;
        c in all && g.isChoice(c) && g.choiceOf(c) == None && s in g.members(c)
    {
      hide Deps;
      if g.choiceOf(s).Some? {
        assert g.choiceOf(s) == Some(g.choiceOf(s).value);
      }
    }

    method AddCycle(ghost c: seq<Sym>, ghost st: seq<Sym>)
      requires Inv(st) && ReportedWalk(g, c) && c[0] in all
      modifies `cycles
      ensures Inv(st) && cycles == old(cycles) + [c]
    {
      cycles := cycles + [c];
    }

    /** sym_check_print_recursive: the symbol, or its choice, is found on the stack, so that
        "unexpected recursive dependency error" is never printed. What is printed is the stack from
        the last occurrence of that symbol on, followed by `sym` if it is a choice value. */
    method ReportCycle(sym: Sym) returns (ghost i: nat)
      requires Inv(stack) && sym in check
      requires stack != [] && sym in Deps(g, stack[|stack| - 1]) && Free(stack[|stack| - 1])
      modifies `stack, `cycles
      ensures Inv(stack) && Restored() && fin == old(fin) && checked == old(checked)
      ensures i < |stack| && stack[i] == Anchor(sym) && Anchor(sym) !in stack[i + 1..]
      ensures cycles == old(cycles) + [stack[i..] + if g.choiceOf(sym).Some? then [sym] else []]
    {
      hide Inv, Deps, ReportedWalk, Chain, LeadsOn, Link;
      Known(stack);
      TopLeadsOn(sym);
      if g.choiceOf(sym).Some? {
        Push(stack, sym);
        stack := stack + [sym];
        Known(stack);
        i := Record(g.choiceOf(sym).value, old(stack));
        stack := stack[..|stack| - 1];
        PushedSuffix(old(stack), i, sym);
      } else {
        i := Record(sym, stack);
        assert stack[i..] + [] == stack[i..];
      }
    }

    /** The stack is printed from the last occurrence of `s` on. */
    method Record(s: Sym, ghost st: seq<Sym>) returns (ghost i: nat)
      requires Inv(st) && Chain(g, stack) && s in stack && s in all
      requires LeadsOn(g, stack[|stack| - 1], s)
            || (g.choiceOf(stack[|stack| - 1]) == Some(s) && |stack| > 1 && stack[|stack| - 1] != s
                && stack[|stack| - 1] in Deps(g, stack[|stack| - 2]))
      modifies `cycles
      ensures Inv(st) && i < |stack| && stack[i] == s && s !in stack[i + 1..]
      ensures cycles == old(cycles) + [stack[i..]]
    {
      hide Inv, Deps, ReportedWalk, Chain, LeadsOn, Link;
      Known(st);
      var k := FindOnStack(s);
      ClosesOnStack(g, stack, k);
      AddCycle(stack[k..], st);
      i := k;
    }

    static lemma PushedSuffix(st: seq<Sym>, k: nat, s: Sym)
      requires k < |st| + 1 && (st + [s])[k] != s
      ensures k < |st| && (st + [s])[..|st|] == st && (st + [s])[k..] == st[k..] + [s]
    {
    }

    /** The step to a flagged symbol that is no choice value does not lead from a choice value to its
        choice. */
    lemma TopLeadsOn(sym: Sym)
      requires Closed(g, all) && sym in check && stack != []
      requires sym in Deps(g, stack[|stack| - 1]) && Free(stack[|stack| - 1])
      ensures LeadsOn(g, stack[|stack| - 1], sym) && Link(g, stack[|stack| - 1], sym)
      ensures g.choiceOf(sym).Some? ==> g.choiceOf(sym).value != sym
    {
      hide Deps;
    }

    /** The walk along the prev pointers, from the top. */
    method FindOnStack(s: Sym) returns (i: nat)
      requires s in stack
      ensures i < |stack| && stack[i] == s && s !in stack[i + 1..]
    {
      i := |stack| - 1;
      while stack[i] != s
        invariant i < |stack| && s in stack[..i + 1] && s !in stack[i + 1..]
        decreases i
      {
        assert stack[..i + 1] == stack[..i] + [stack[i]];
        assert stack[i..] == [stack[i]] + stack[i + 1..];
        i := i - 1;
      }
    }

    // ---------- the search ----------

    /** sym_check_expr_deps */
    method CheckExprDeps(e: Expr) returns (r: Option<Sym>)
      requires stack != [] && Inv(stack) && Free(stack[|stack| - 1])
      requires Syms(e) <= Deps(g, stack[|stack| - 1]) && Syms(e) <= all
      modifies this
      ensures Inv(stack) && Restored()
      ensures Result(Now(), r) == SearchExpr(g, all, old(Now()), e)
      ensures r.Some? ==> cycles != [] && r.value in check
      ensures cycles == [] ==> forall t :: t in Syms(e) ==> NodeOf(g, t) in fin
      decreases |all - checked|, 1, e
    {
      hide Inv, Deps, Search, SearchBoth, Closed, Sound, Free, NodeOf, MayEnter;
      Known(stack);
      match e
      case Symbol(s) =>
        MayFollow(s);
        r := CheckDeps(s);
      case Equal(left, right) =>
        r := CheckBothDeps(left, right);
      case Unequal(left, right) =>
        r := CheckBothDeps(left, right);
      case Not(a) =>
        r := CheckExprDeps(a);
      case Bin(_, lhs, rhs) =>
        r := CheckExprDeps(lhs);
        if r.None? {
          LessToDo();
          Known(stack);
          r := CheckExprDeps(rhs);
        }
    }

    /** The symbols on both sides of a comparison. */
    method CheckBothDeps(left: Sym, right: Sym) returns (r: Option<Sym>)
      requires stack != [] && Inv(stack) && Free(stack[|stack| - 1])
      requires {left, right} <= Deps(g, stack[|stack| - 1]) && {left, right} <= all
      modifies this
      ensures Inv(stack) && Restored()
      ensures Result(Now(), r) == SearchBoth(g, all, old(Now()), left, right)
      ensures r.Some? ==> cycles != [] && r.value in check
      ensures cycles == [] ==> NodeOf(g, left) in fin && NodeOf(g, right) in fin
      decreases |all - checked|, 0, 3
    {
      hide Inv, Deps, Search, Closed, Sound, Free, NodeOf, MayEnter;
      Known(stack);
      MayFollow(left);
      r := CheckDeps(left);
      if r.None? {
        LessToDo();
        Known(stack);
        MayFollow(right);
        r := CheckDeps(right);
      }
    }

    /** Nothing loses its CHECKED flag, so there is never more left to do. */
    twostate lemma LessToDo()
      requires old(checked) <= checked
      ensures |all - checked| <= |all - old(checked)|
    {
      SubsetSize(all - checked, all - old(checked));
    }

    method CheckOptDeps(e: Option<Expr>) returns (r: Option<Sym>)
      requires stack != [] && Inv(stack) && Free(stack[|stack| - 1])
      requires SymsOpt(e) <= Deps(g, stack[|stack| - 1]) && SymsOpt(e) <= all
      modifies this
      ensures Inv(stack) && Restored()
      ensures Result(Now(), r) == SearchOpt(g, all, old(Now()), e)
      ensures r.Some? ==> cycles != [] && r.value in check
      ensures cycles == [] ==> forall t :: t in SymsOpt(e) ==> NodeOf(g, t) in fin
      decreases |all - checked|, 2
    {
      hide Inv, Deps, SearchExpr, Closed, Sound, Free, NodeOf;
      Known(stack);
      r := None;
      if e.Some? {
        r := CheckExprDeps(e.value);
      }
    }

    /** sym_check_sym_deps: the reverse dependency, then the properties one by one. */
    method CheckSymDeps(sym: Sym) returns (r: Option<Sym>)
      requires sym in all && Inv(stack + [sym]) && Free(sym)
      modifies this
      ensures Inv(stack + [sym]) && Restored()
      ensures Result(Now(), r) == SearchSym(g, all, old(Now()), sym)
      ensures r.Some? ==> cycles != [] && r.value in check
      ensures cycles == [] ==> forall t :: t in Deps(g, sym) ==> NodeOf(g, t) in fin
      decreases |all - checked|, 5
    {
      hide Inv, Deps, NodeOf, Chain, SearchSym, Closed, Sound, Free;
      stack := stack + [sym];
      r := CheckPushed(sym);
      stack := stack[..|stack| - 1];
      assert stack == old(stack);
    }

    /** The symbol is on the stack. */
    method CheckPushed(sym: Sym) returns (r: Option<Sym>)
      requires sym in all && stack != [] && stack[|stack| - 1] == sym && Inv(stack) && Free(sym)
      modifies this
      ensures Inv(stack) && check == old(check) && stack == old(stack) && Grown()
      ensures Result(Now(), r) == SearchSym(g, all, old(Now()), sym)
      ensures r.Some? ==> cycles != [] && r.value in check
      ensures cycles == [] ==> forall t :: t in Deps(g, sym) ==> NodeOf(g, t) in fin
      decreases |all - checked|, 4, 1
    {
      hide Inv, Deps, PropsSyms, SymsOpt, NodeOf, Chain, SearchOpt, SearchProps, Closed, Sound, Free;
      Known(stack);
      DepsParts(g, sym);
      DepsKnown(g, all, sym);
      r := CheckOptDeps(g.revDep(sym));
      if r.None? {
        LessToDo();
        r := CheckProps(sym);
      }
    }

    method CheckProps(sym: Sym) returns (r: Option<Sym>)
      requires stack != [] && stack[|stack| - 1] == sym && sym in all && Inv(stack) && Free(sym)
      modifies this
      ensures Inv(stack) && Restored()
      ensures Result(Now(), r) == SearchProps(g, all, old(Now()), sym, 0)
      ensures r.Some? ==> cycles != [] && r.value in check
      ensures cycles == [] ==>
        forall t :: t in PropsSyms(g.props(sym), |g.props(sym)|, g.isChoice(sym)) ==> NodeOf(g, t) in fin
      decreases |all - checked|, 4, 0
    {
      hide Inv, Deps, PropSyms, NodeOf, SearchProp, Closed, Sound, Free;
      Known(stack);
      r := None;
      var ps := g.props(sym);
      var n := 0;
      while n < |ps| && r.None?
        invariant n <= |ps| && Inv(stack) && Restored() && Closed(g, all) && Sound(g, Now())
        invariant SearchProps(g, all, old(Now()), sym, 0)
               == if r.None? then SearchProps(g, all, Now(), sym, n) else Result(Now(), r)
        invariant r.Some? ==> cycles != [] && r.value in check
        invariant cycles == [] ==> forall t :: t in PropsSyms(ps, n, g.isChoice(sym)) ==> NodeOf(g, t) in fin
        decreases |ps| - n
      {
        PropsWithin(sym, n);
        LessToDo();
        r := CheckProp(ps[n], sym);
        Known(stack);
        n := n + 1;
      }
    }

    lemma PropsWithin(sym: Sym, n: nat)
      requires n < |g.props(sym)|
      ensures PropSyms(g.props(sym)[n], g.isChoice(sym)) <= Deps(g, sym)
    {
      PropsMonotone(g.props(sym), n + 1, |g.props(sym)|, g.isChoice(sym));
    }

    /** One property. */
    method CheckProp(p: Prop, sym: Sym) returns (r: Option<Sym>)
      requires stack != [] && stack[|stack| - 1] == sym && sym in all && Inv(stack) && Free(sym)
      requires PropSyms(p, g.isChoice(sym)) <= Deps(g, sym)
      modifies this
      ensures Inv(stack) && Restored()
      ensures Result(Now(), r) == SearchProp(g, all, old(Now()), p, g.isChoice(sym))
      ensures r.Some? ==> cycles != [] && r.value in check
      ensures cycles == [] ==> forall t :: t in PropSyms(p, g.isChoice(sym)) ==> NodeOf(g, t) in fin
      decreases |all - checked|, 3
    {
      hide Inv, Deps, NodeOf, SymsOpt, SearchOpt, Closed, Sound, Free;
      Known(stack);
      KnownSymbol(stack, sym);
      r := None;
      if p.kind.ChoiceProp? || p.kind.SelectProp? {
        return;
      }
      r := CheckOptDeps(p.cond);
      if r.Some? || !p.kind.DefaultProp? || g.isChoice(sym) {
        return;
      }
      LessToDo();
      r := CheckOptDeps(p.value);
    }

    /** The caller may look at `sym`: the top of the stack depends on it, or is one of its members
        and it has not been entered yet. */
    ghost predicate MayEnter(sym: Sym)
      reads this
    {
      && sym in all
      && (stack != [] ==>
            || (sym in Deps(g, stack[|stack| - 1]) && Free(stack[|stack| - 1]))
            || (g.choiceOf(stack[|stack| - 1]) == Some(sym) && sym !in checked))
    }

    lemma MayFollow(sym: Sym)
      requires stack != [] && sym in all && sym in Deps(g, stack[|stack| - 1]) && Free(stack[|stack| - 1])
      ensures MayEnter(sym)
    {
    }

    /** sym_check_deps */
    method CheckDeps(sym: Sym) returns (r: Option<Sym>)
      requires Inv(stack) && MayEnter(sym)
      modifies this
      ensures Inv(stack) && Restored() && sym in checked
      ensures Result(Now(), r) == Search(g, all, old(Now()), sym)
      ensures r.Some? ==> cycles != [] && r.value in check
      ensures cycles == [] ==> NodeOf(g, sym) in fin
      decreases |all - checked|, 0, if g.choiceOf(sym).Some? then 2 else 1
    {
      hide Inv, Deps, Closed, Sound, NodeOf, SearchPlain, SearchChoice, Anchor, Chain;
      Known(stack);
      KnownSymbol(stack, sym);
      InAll(sym);
      if sym in check {
        Flagged(sym);
        hide MayEnter;
        ghost var i := ReportCycle(sym);
        Known(stack);
        KnownSymbol(stack, sym);
        return Some(sym);
      }
      hide MayEnter;
      if sym in checked {
        return None;
      }
      if g.choiceOf(sym).Some? {
        r := CheckMemberDeps(sym);
      } else if g.isChoice(sym) {
        r := CheckChoiceDeps(sym);
      } else {
        r := CheckPlainDeps(sym);
      }
      if r == Some(sym) {
        r := None;
      }
    }

    /** A symbol under search is met again only as a dependency of the top of the stack. */
    lemma Flagged(sym: Sym)
      requires Inv(stack) && MayEnter(sym) && sym in check
      ensures stack != [] && sym in Deps(g, stack[|stack| - 1]) && Free(stack[|stack| - 1])
    {
      hide Deps, Chain, ReportedWalk, Ordered, Closed;
    }

    /** The search for a symbol that is neither a choice nor a choice value. */
    method CheckPlainDeps(sym: Sym) returns (r: Option<Sym>)
      requires Inv(stack) && MayEnter(sym) && sym !in checked && sym !in check
      requires g.choiceOf(sym) == None && !g.isChoice(sym)
      modifies this
      ensures Inv(stack) && Restored() && sym in checked
      ensures sym in all && Result(Now(), r) == SearchPlain(g, all, old(Now()), sym)
      ensures r.Some? ==> cycles != [] && (r.value in check || r.value == sym)
      ensures cycles == [] ==> NodeOf(g, sym) in fin
      decreases |all - checked|, 0, 0
    {
      hide Inv, Deps, MayEnter, Closed, Sound, Chain, NodeOf;
      hide SearchSym, SearchPlain, Left, Entered, Anchor;
      Known(stack);
      PlainNode(sym);
      InAll(sym);
      PlainResult(g, all, Now(), sym);
      Enter(sym);
      assert old(checked) <= checked && sym in checked;
      SubsetSize(all - checked, all - old(checked));
      r := SearchEntered(sym, old(check));
    }

    /** The search once the flags of `sym` are set. */
    method SearchEntered(sym: Sym, ghost before: set<Sym>) returns (r: Option<Sym>)
      requires sym in all && Inv(stack + [sym]) && check == before + {sym} && sym !in before && sym in checked
      requires g.choiceOf(sym) == None && forall t :: t in before ==> Anchor(t) in stack
      modifies this
      ensures Inv(stack) && check == before && stack == old(stack) && Grown()
      ensures var x := SearchSym(g, all, old(Now()), sym); Now() == Left(x.st, {sym}) && r == x.sym
      ensures r.Some? ==> cycles != [] && (r.value in before || r.value == sym)
      ensures cycles == [] ==> Single(sym) in fin
      decreases |all - checked|, 6
    {
      hide Inv, Deps, MayEnter, Closed, Sound, Chain, NodeOf, Anchor, SearchSym;
      Known(stack + [sym]);
      r := CheckSymDeps(sym);
      Leave(sym, before);
    }

    lemma PlainNode(sym: Sym)
      requires g.choiceOf(sym) == None
      ensures NodeOf(g, sym) == Single(sym)
    {
    }

    lemma InAll(sym: Sym)
      requires MayEnter(sym)
      ensures sym in all
    {
    }

    /** For a choice value the search starts with its choice. */
    method CheckMemberDeps(sym: Sym) returns (r: Option<Sym>)
      requires Inv(stack) && MayEnter(sym) && g.choiceOf(sym).Some? && sym !in checked
      modifies this
      ensures Inv(stack) && Restored() && sym in checked
      ensures Result(Now(), r) == Search(g, all, old(Now()), g.choiceOf(sym).value)
      ensures r.Some? ==> cycles != [] && r.value in check
      ensures cycles == [] ==> NodeOf(g, sym) in fin
      decreases |all - checked|, 0, 2, 0
    {
      hide Inv, Deps, Chain, ReportedWalk, Closed, Sound, MayEnter, NodeOf, Search;
      InAll(sym);
      KnownSymbol(stack, sym);
      Known(stack);
      PushEntered(sym);
      stack := stack + [sym];
      MayEnterChoice(sym);
      r := CheckDeps(g.choiceOf(sym).value);
      KnownSymbol(stack, sym);
      Known(stack);
      Pop(old(stack), sym);
      stack := stack[..|stack| - 1];
      assert stack == old(stack);
    }

    lemma MayEnterChoice(sym: Sym)
      requires stack != [] && stack[|stack| - 1] == sym && g.choiceOf(sym).Some?
      requires g.choiceOf(sym).value in all && g.choiceOf(sym).value !in checked
      ensures MayEnter(g.choiceOf(sym).value)
    {
    }

    method Enter(sym: Sym)
      requires Inv(stack) && MayEnter(sym) && sym !in checked && g.choiceOf(sym) == None && !g.isChoice(sym)
      modifies `check, `checked
      ensures check == old(check) + {sym} && checked == old(checked) + {sym}
      ensures Now() == Entered(old(Now()), {sym})
      ensures Inv(stack + [sym])
    {
      hide Deps, ReportedWalk, Ordered, Chain;
      Push(stack, sym);
      assert Anchor(sym) == sym;
      assert forall t :: t in check ==> Anchor(t) in stack;
      check, checked := check + {sym}, checked + {sym};
    }

    method Leave(sym: Sym, ghost before: set<Sym>)
      requires Inv(stack + [sym]) && check == before + {sym} && sym !in before && sym in checked
      requires g.choiceOf(sym) == None && forall t :: t in before ==> Anchor(t) in stack
      requires cycles == [] ==> forall t :: t in Deps(g, sym) ==> NodeOf(g, t) in fin
      modifies `check, `fin
      ensures Inv(stack) && check == before && Single(sym) in fin && (forall n :: n in old(fin) ==> n in fin)
      ensures Now() == Left(old(Now()), {sym})
    {
      hide Deps, ReportedWalk, Chain, Ordered;
      check := check - {sym};
      Finish(Single(sym), stack + [sym]);
      Pop(stack, sym);
    }

    /** A node goes to the end of the order. */
    ghost method Finish(n: Node, st: seq<Sym>)
      requires Closed(g, all) && Sound(g, Now()) && checked <= all && Chain(g, st)
      requires forall t :: t in check ==> Anchor(t) in st
      requires forall c :: c in cycles ==> ReportedWalk(g, c) && c[0] in all
      requires cycles == [] ==> Ordered(g, fin) && forall m :: Succ(g, n, m) ==> m in fin
      requires cycles == [] ==> forall s :: s in checked && s !in check ==> NodeOf(g, s) in fin + [n]
      modifies `fin
      ensures fin == old(fin) + [n] && Inv(st)
    {
      hide Deps, ReportedWalk, Chain, Closed, Sound;
      fin := fin + [n];
      if cycles == [] {
        forall i, m | 0 <= i < |fin| && Succ(g, fin[i], m)
          ensures m in fin[..i]
        {
          if i < |old(fin)| {
            assert m in old(fin)[..i];
            assert fin[..i] == old(fin)[..i];
          } else {
            assert fin[..i] == old(fin);
          }
        }
      }
    }

    // ---------- choices ----------

    lemma MembersKnown(choice: Sym)
      requires Closed(g, all) && g.isChoice(choice)
      ensures forall a :: a in MemberSet(g, choice) <==> g.choiceOf(a) == Some(choice)
      ensures g.choiceOf(choice) == None && choice !in MemberSet(g, choice)
      ensures choice in all ==> MemberSet(g, choice) <= all
    {
      hide Deps;
    }

    /** sym_check_choice_deps: first the choice with its members flagged, then its members. */
    method CheckChoiceDeps(choice: Sym) returns (r: Option<Sym>)
      requires Inv(stack) && MayEnter(choice) && g.isChoice(choice) && choice !in checked && choice !in check
      modifies this
      ensures Inv(stack) && Restored() && choice in checked
      ensures choice in all && Result(Now(), r) == SearchChoice(g, all, old(Now()), choice)
      ensures r.Some? ==> cycles != [] && (r.value in check || r.value == choice)
      ensures cycles == [] ==> NodeOf(g, choice) in fin
      decreases |all - checked|, 0, 0
    {
      hide Inv, Deps, Chain, Link, MayEnter, ReportedWalk, Closed, Sound, NodeOf, SearchChoice;
      Known(stack);
      InAll(choice);
      PushEntered(choice);
      stack := stack + [choice];
      r := CheckEntered(choice);
      Known(stack);
      Pop(old(stack), choice);
      stack := stack[..|stack| - 1];
      assert stack == old(stack);
    }

    /** The choice is on the stack. */
    method CheckEntered(choice: Sym) returns (r: Option<Sym>)
      requires Inv(stack) && stack != [] && stack[|stack| - 1] == choice && choice in all && g.isChoice(choice)
      requires choice !in checked && choice !in check
      modifies this
      ensures Inv(stack) && Restored() && choice in checked
      ensures Result(Now(), r) == SearchChoice(g, all, old(Now()), choice)
      ensures r.Some? ==> cycles != [] && (r.value in check || r.value == choice)
      ensures cycles == [] ==> NodeOf(g, choice) in fin
      decreases |all - checked|, 0, 0, 0
    {
      hide Inv, Deps, Chain, Link, MayEnter, ReportedWalk, Closed, Sound, NodeOf, MemberSet, SearchGroup;
      hide SearchChoice, Left, Entered, Anchor;
      Known(stack);
      ChoiceResult(g, all, Now(), choice);
      ChoiceNode(choice);
      Unentered(choice);
      MarkChoice(choice);
      assert old(checked) <= checked && choice in checked;
      SubsetSize(all - checked, all - old(checked));
      r := CheckMarked(choice, old(check));
      if r.Some? && g.choiceOf(r.value) == Some(choice) {
        r := Some(choice);
      }
    }

    lemma Unentered(choice: Sym)
      requires Inv(stack) && g.isChoice(choice) && choice !in checked && choice in all
      ensures choice !in check && check !! MemberSet(g, choice)
    {
      hide Chain, ReportedWalk, Ordered, Deps;
      MembersKnown(choice);
    }

    /** The search once all flags are set. */
    method CheckMarked(choice: Sym, ghost before: set<Sym>) returns (r: Option<Sym>)
      requires Inv(stack) && stack != [] && stack[|stack| - 1] == choice && choice in all && g.isChoice(choice)
      requires check == before + (MemberSet(g, choice) + {choice}) && choice in checked
      requires choice !in before && before !! MemberSet(g, choice)
      modifies this
      ensures Inv(stack) && check == before && stack == old(stack) && Grown()
      ensures var y := SearchGroup(g, all, old(Now()), choice);
        Now() == Left(y.st, MemberSet(g, choice)) && r == y.sym
      ensures r.Some? ==> cycles != [] && (r.value in before || r.value == choice || g.choiceOf(r.value) == Some(choice))
      ensures cycles == [] ==> Single(choice) in fin
      decreases |all - checked|, 8
    {
      hide Inv, Deps, Chain, Link, DepsDone, ReportedWalk, Closed, Sound, MemberSet, NodeOf, SearchSym, SearchMembers;
      Known(stack);
      MembersKnown(choice);
      r := CheckSelf(choice);
      if r.None? {
        LessToDo();
        Known(stack);
        r := CheckMembers(choice);
      }
      ClearMembers(choice, before);
    }

    lemma ChoiceNode(choice: Sym)
      requires Closed(g, all) && g.isChoice(choice)
      ensures NodeOf(g, choice) == Single(choice)
    {
      hide Deps;
    }

    lemma PushEntered(s: Sym)
      requires Inv(stack) && MayEnter(s)
      ensures Inv(stack + [s])
    {
      Push(stack, s);
    }

    /** The flags of a choice and its members, set together. */
    method MarkChoice(choice: Sym)
      requires Inv(stack) && g.isChoice(choice) && choice in all && choice !in checked && choice in stack
      modifies `check, `checked
      ensures Inv(stack)
      ensures check == old(check) + (MemberSet(g, choice) + {choice})
      ensures checked == old(checked) + (MemberSet(g, choice) + {choice})
      ensures Now() == Entered(old(Now()), MemberSet(g, choice) + {choice})
    {
      hide Deps, ReportedWalk, Ordered, Chain;
      MembersKnown(choice);
      MarkMembers(choice);
      check, checked := check + {choice}, checked + {choice};
    }

    method MarkMembers(choice: Sym)
      modifies `check, `checked
      ensures check == old(check) + MemberSet(g, choice)
      ensures checked == old(checked) + MemberSet(g, choice)
    {
      var ms := g.members(choice);
      for n := 0 to |ms|
        invariant check == old(check) + set a | a in ms[..n]
        invariant checked == old(checked) + set a | a in ms[..n]
      {
        assert ms[..n + 1] == ms[..n] + [ms[n]];
        check, checked := check + {ms[n]}, checked + {ms[n]};
      }
      assert ms[..|ms|] == ms;
    }

    /** The dependencies of the choice itself; then its own flag is cleared. */
    method CheckSelf(choice: Sym) returns (r: Option<Sym>)
      requires Inv(stack) && stack != [] && stack[|stack| - 1] == choice && choice in all && g.isChoice(choice)
      requires choice in check && choice in checked
      modifies this
      ensures Inv(stack) && check == old(check) - {choice} && stack == old(stack)
      ensures Grown()
      ensures var x := SearchSym(g, all, old(Now()), choice); Now() == Left(x.st, {choice}) && r == x.sym
      ensures r.Some? ==> cycles != [] && r.value in old(check)
      ensures cycles == [] ==> Single(choice) in fin
      decreases |all - checked|, 6
    {
      hide Inv, Deps, Chain, ReportedWalk, Ordered, Sound, SearchSym;
      Known(stack);
      Push(stack, choice);
      MembersKnown(choice);
      r := CheckSymDeps(choice);
      Known(stack + [choice]);
      Pop(stack, choice);
      FinishNode(Single(choice), {choice});
    }

    /** Some symbols are no longer under search, and their node is done. */
    method FinishNode(ghost n: Node, done: set<Sym>)
      requires Inv(stack)
      requires cycles == [] ==> forall m :: Succ(g, n, m) ==> m in fin
      requires forall s :: s in done ==> NodeOf(g, s) == n
      modifies `check, `fin
      ensures Inv(stack) && check == old(check) - done && fin == old(fin) + [n]
    {
      hide ReportedWalk, Chain, Succ, Deps;
      check := check - done;
      Finish(n, stack);
    }

    /** The dependencies of the members, one member after the other. */
    method CheckMembers(choice: Sym) returns (r: Option<Sym>)
      requires Inv(stack) && stack != [] && stack[|stack| - 1] == choice && choice in all && g.isChoice(choice)
      requires choice !in check
      modifies this
      ensures Inv(stack) && Restored()
      ensures Result(Now(), r) == SearchMembers(g, all, old(Now()), choice, 0)
      ensures r.Some? ==> cycles != [] && r.value in check
      ensures cycles == [] ==> forall a :: a in g.members(choice) ==> DepsDone(a)
      decreases |all - checked|, 7
    {
      hide Inv, Deps, Chain, ReportedWalk, NodeOf, Link, SearchSym, Closed, Sound, DepsDone, Left;
      Known(stack);
      r := None;
      var ms := g.members(choice);
      MembersBelong(choice);
      var n := 0;
      while n < |ms| && r.None?
        invariant n <= |ms| && Inv(stack) && Restored() && Closed(g, all) && Sound(g, Now())
        invariant SearchMembers(g, all, old(Now()), choice, 0)
               == if r.None? then SearchMembers(g, all, Now(), choice, n) else Result(Now(), r)
        invariant r.Some? ==> cycles != [] && r.value in check
        invariant cycles == [] ==> forall i :: 0 <= i < n ==> DepsDone(ms[i])
        decreases |ms| - n
      {
        LessToDo();
        label Before:
        r := CheckMember(choice, ms[n]);
        Known(stack);
        if cycles == [] {
          forall i | 0 <= i < n ensures DepsDone(ms[i]) {
            StillDone@Before(ms[i]);
          }
        }
        n := n + 1;
      }
    }

    /** Everything a symbol depends on is in the order. */
    ghost predicate DepsDone(s: Sym)
      reads `fin
    {
      forall t :: t in Deps(g, s) ==> NodeOf(g, t) in fin
    }

    twostate lemma StillDone(s: Sym)
      requires old(DepsDone(s)) && Grown()
      ensures DepsDone(s)
    {
      hide Deps, NodeOf;
    }

    lemma MembersBelong(choice: Sym)
      requires Inv(stack) && g.isChoice(choice) && choice in all
      ensures forall a :: a in g.members(choice) ==> g.choiceOf(a) == Some(choice) && a in all
    {
      hide Deps, Chain, ReportedWalk, Ordered;
    }

    method CheckMember(choice: Sym, a: Sym) returns (r: Option<Sym>)
      requires Inv(stack) && stack != [] && stack[|stack| - 1] == choice && choice !in check
      requires g.choiceOf(a) == Some(choice) && a in all
      modifies this
      ensures Inv(stack) && Restored()
      ensures Result(Now(), r) == SearchSym(g, all, old(Now()), a)
      ensures r.Some? ==> cycles != [] && r.value in check
      ensures cycles == [] ==> DepsDone(a)
      decreases |all - checked|, 6
    {
      hide Inv, Chain, ReportedWalk, Link, Deps, SearchSym, Closed, Sound, NodeOf;
      Known(stack);
      LinkMember(choice, a);
      Push(stack, a);
      r := CheckSymDeps(a);
      AnchorsBelow(choice, a);
      Pop(stack, a);
    }

    lemma LinkMember(choice: Sym, a: Sym)
      requires g.choiceOf(a) == Some(choice)
      ensures Link(g, choice, a)
    {
    }

    /** No anchor is a choice value. */
    lemma AnchorsBelow(choice: Sym, a: Sym)
      requires Inv(stack + [a]) && g.choiceOf(a) == Some(choice)
      ensures forall t :: t in check ==> Anchor(t) in stack
    {
      hide Deps, Chain, ReportedWalk, Ordered, Finished;
      assert g.isChoice(choice) && !g.isChoice(a);
      forall t | t in check
        ensures Anchor(t) in stack
      {
        assert Anchor(t) in stack + [a];
        assert Anchor(t) != a;
      }
    }

    /** The members are no longer under search. */
    method ClearMembers(choice: Sym, ghost before: set<Sym>)
      requires Inv(stack) && g.isChoice(choice) && choice in checked && choice in all
      requires check == before + MemberSet(g, choice) && before !! MemberSet(g, choice)
      requires cycles == [] ==> Single(choice) in fin
      requires cycles == [] ==> forall a :: a in g.members(choice) ==> DepsDone(a)
      modifies `check, `fin
      ensures Inv(stack) && check == before && fin == old(fin) + [Members(choice)]
      ensures Now() == Left(old(Now()), MemberSet(g, choice))
    {
      hide Inv, Deps;
      Known(stack);
      MembersKnown(choice);
      var ms := g.members(choice);
      var done := {};
      for n := 0 to |ms|
        invariant done == set a | a in ms[..n]
      {
        assert ms[..n + 1] == ms[..n] + [ms[n]];
        done := done + {ms[n]};
      }
      assert ms[..|ms|] == ms;
      FinishNode(Members(choice), done);
    }

    // ---------- the sweep ----------

    lemma StartsValid()
      requires Closed(g, all) && check == {} && checked == {} && cycles == [] && fin == []
      ensures Inv([]) && Now() == CLEAN
    {
    }

    /** The loop over all symbols after parsing (zconf.y:516-519). The search of a symbol that is not
        nested in another one never returns a symbol, so the error count stays zero whatever is
        found; what is found is reported by printing. No report means that the graph has no cycle.
        A report that does not descend into a choice shows a cycle; every report shows a cycle or that
        the graph is tangled. */
    method Sweep(syms: seq<Sym>) returns (errors: int)
      requires Closed(g, all) && check == {} && checked == {} && stack == [] && cycles == [] && fin == []
      requires all == set s | s in syms
      modifies this
      ensures errors == 0
      ensures check == {} && stack == [] && checked == all
      ensures cycles != [] <==> SearchAll(g, all, CLEAN, syms).found
      ensures cycles == [] ==> !HasCycle(g, all)
      ensures forall c :: c in cycles ==> ReportedWalk(g, c) && (!Descending(g, c) ==> HasCycle(g, all))
      ensures cycles != [] ==> HasCycle(g, all) || Tangled(g)
      ensures !Tangled(g) ==> (cycles == [] <==> !HasCycle(g, all))
    {
      hide Deps, Chain, ReportedWalk, Ordered, HasCycle, Tangled, Descending, Search, Closed, Sound;
      StartsValid();
      errors := 0;
      for n := 0 to |syms|
        invariant errors == 0 && Inv(stack) && check == {} && stack == []
        invariant Now() == SearchAll(g, all, CLEAN, syms[..n])
        invariant forall i :: 0 <= i < n ==> syms[i] in checked
      {
        assert syms[..n + 1][..n] == syms[..n];
        var r := CheckDeps(syms[n]);
        if r.Some? {
          errors := errors + 1;
        }
      }
      assert syms[..|syms|] == syms;
      assert all <= checked;
      ReportsMean();
      if cycles == [] {
        OrderedMeansAcyclic(g, fin, all);
      }
    }

    lemma ReportsMean()
      requires Inv(stack)
      ensures forall c :: c in cycles ==> ReportedWalk(g, c) && (!Descending(g, c) ==> HasCycle(g, all))
      ensures cycles != [] ==> HasCycle(g, all) || Tangled(g)
    {
      hide Deps, Chain, ReportedWalk, Ordered, HasCycle, Tangled, Descending, Closed, Sound;
      forall c | c in cycles ensures ReportedWalk(g, c) && (!Descending(g, c) ==> HasCycle(g, all)) {
        ReportMeans(g, all, c);
      }
      if cycles != [] {
        ReportMeans(g, all, cycles[0]);
      }
    }
  }
}
