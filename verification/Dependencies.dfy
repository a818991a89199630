/** The relation that the search for recursive dependencies follows (symbol.c), and what it means
    for it to have no cycle. */
module Dependencies {
  import opened Expressions

  datatype PropKind = ChoiceProp | SelectProp | DefaultProp | OtherProp

  datatype Prop = Prop(kind: PropKind, cond: Option<Expr>, value: Option<Expr>)

  /** What sym_check_deps reads of the symbols. */
  datatype Graph = Graph(
    revDep: Sym -> Option<Expr>,
    props: Sym -> seq<Prop>,
    isChoice: Sym -> bool,
    members: Sym -> seq<Sym>,
    choiceOf: Sym -> Option<Sym>)

  /** The choice values of a choice are the symbols that name it as their choice. */
  ghost predicate Consistent(g: Graph) {
    && (forall a: Sym, c: Sym :: g.choiceOf(a) == Some(c) <==> g.isChoice(c) && a in g.members(c))
    && (forall c: Sym :: g.isChoice(c) ==> g.choiceOf(c) == None)
  }

  function Syms(e: Expr): set<Sym> {
    match e
    case Symbol(s) => {s}
    case Equal(l, r) => {l, r}
    case Unequal(l, r) => {l, r}
    case Not(a) => Syms(a)
    case Bin(_, l, r) => Syms(l) + Syms(r)
  }

  function SymsOpt(e: Option<Expr>): set<Sym> {
    if e.None? then {} else Syms(e.value)
  }

  /** The conditions of all properties but choices and selects, and the value of a default unless
      the symbol is a choice. */
  function PropSyms(p: Prop, choice: bool): set<Sym> {
    if p.kind.ChoiceProp? || p.kind.SelectProp? then {}
    else SymsOpt(p.cond) + (if p.kind.DefaultProp? && !choice then SymsOpt(p.value) else {})
  }

  function PropsSyms(ps: seq<Prop>, n: nat, choice: bool): set<Sym>
    requires n <= |ps|
  {
    if n == 0 then {} else PropsSyms(ps, n - 1, choice) + PropSyms(ps[n - 1], choice)
  }

  /** The symbols that `s` depends on directly. */
  function Deps(g: Graph, s: Sym): set<Sym> {
    SymsOpt(g.revDep(s)) + PropsSyms(g.props(s), |g.props(s)|, g.isChoice(s))
  }

  lemma {:induction false} PropsMonotone(ps: seq<Prop>, n: nat, m: nat, choice: bool)
    requires n <= m <= |ps|
    ensures PropsSyms(ps, n, choice) <= PropsSyms(ps, m, choice)
    decreases m - n
  {
    if n < m {
      PropsMonotone(ps, n, m - 1, choice);
    }
  }

  // ---------- nodes: the members of a choice count as one ----------

  datatype Node = Single(sym: Sym) | Members(choice: Sym)

  function NodeOf(g: Graph, s: Sym): Node {
    if g.choiceOf(s).Some? then Members(g.choiceOf(s).value) else Single(s)
  }

  /** What a node depends on. Members depend on their choice. */
  ghost predicate Succ(g: Graph, n: Node, m: Node) {
    match n
    case Single(s) => exists t :: t in Deps(g, s) && m == NodeOf(g, t)
    case Members(c) => m == Single(c) || exists a, t :: a in g.members(c) && t in Deps(g, a) && m == NodeOf(g, t)
  }

  /** Every node comes after all it depends on. */
  ghost predicate Ordered(g: Graph, fin: seq<Node>) {
    forall i, m :: 0 <= i < |fin| && Succ(g, fin[i], m) ==> m in fin[..i]
  }

  ghost predicate IsPath(g: Graph, p: seq<Node>) {
    forall i :: 0 <= i < |p| - 1 ==> Succ(g, p[i], p[i + 1])
  }

  ghost predicate HasCycle(g: Graph, all: set<Sym>) {
    exists p: seq<Node> :: |p| >= 2 && IsPath(g, p) && p[0] == p[|p| - 1] && exists s :: s in all && NodeOf(g, s) == p[0]
  }

  /** Along a path the position in the order falls. */
  lemma {:induction false} PathFalls(g: Graph, fin: seq<Node>, p: seq<Node>, i: nat) returns (j: nat)
    requires Ordered(g, fin) && |p| >= 1 && IsPath(g, p) && i < |fin| && fin[i] == p[0]
    ensures j < |fin| && fin[j] == p[|p| - 1] && j <= i - (|p| - 1)
  {
    if |p| == 1 {
      j := i;
    } else {
      assert Succ(g, p[0], p[1]);
      var k :| 0 <= k < i && fin[k] == p[1];
      forall n | 0 <= n < |p[1..]| - 1
        ensures Succ(g, p[1..][n], p[1..][n + 1])
      {
        assert p[1..][n] == p[n + 1] && p[1..][n + 1] == p[n + 2];
        assert Succ(g, p[n + 1], p[n + 1 + 1]);
      }
      j := PathFalls(g, fin, p[1..], k);
    }
  }

  /** The first position of a node in the order. */
  lemma {:induction false} FirstIndex(fin: seq<Node>, n: Node) returns (i: nat)
    requires n in fin
    ensures i < |fin| && fin[i] == n && n !in fin[..i]
  {
    i := 0;
    while fin[i] != n
      invariant i < |fin| && n !in fin[..i] && n in fin[i..]
      decreases |fin| - i
    {
      assert fin[..i + 1] == fin[..i] + [fin[i]];
      assert fin[i..] == [fin[i]] + fin[i + 1..];
      i := i + 1;
    }
  }

  /** An order in which every node of the graph occurs excludes cycles. */
  lemma OrderedMeansAcyclic(g: Graph, fin: seq<Node>, all: set<Sym>)
    requires Ordered(g, fin)
    requires forall s :: s in all ==> NodeOf(g, s) in fin
    ensures !HasCycle(g, all)
  {
    if HasCycle(g, all) {
      var p: seq<Node> :| |p| >= 2 && IsPath(g, p) && p[0] == p[|p| - 1]
                          && exists s :: s in all && NodeOf(g, s) == p[0];
      var i := FirstIndex(fin, p[0]);
      var j := PathFalls(g, fin, p, i);
      assert false;
    }
  }

  // ---------- without a cycle there is an order ----------

  function Nodes(g: Graph, all: set<Sym>): set<Node> {
    set s | s in all :: NodeOf(g, s)
  }

  /** What a node depends on is a node again. */
  ghost predicate NodesClosed(g: Graph, nodes: set<Node>) {
    forall n, m :: n in nodes && Succ(g, n, m) ==> m in nodes
  }

  ghost predicate NoPathBack(g: Graph, nodes: set<Node>) {
    forall p: seq<Node> :: |p| >= 2 && IsPath(g, p) && p[0] == p[|p| - 1] ==> p[0] !in nodes
  }

  ghost predicate Distinct(p: seq<Node>) {
    forall i, j :: 0 <= i < j < |p| ==> p[i] != p[j]
  }

  lemma {:induction false} DistinctFits(p: seq<Node>, nodes: set<Node>)
    requires Distinct(p) && forall n :: n in p ==> n in nodes
    ensures |p| <= |nodes|
  {
    if p != [] {
      var n := p[|p| - 1];
      var q := p[..|p| - 1];
      forall x | x in q ensures x in nodes - {n} {
        var i :| 0 <= i < |q| && q[i] == x;
        assert p[i] != p[|p| - 1];
      }
      DistinctFits(q, nodes - {n});
    }
  }

  /** A path among the nodes does not come back to where it has been. */
  lemma PathBack(g: Graph, nodes: set<Node>, q: seq<Node>)
    requires NoPathBack(g, nodes) && |q| > 0 && IsPath(g, q) && forall n :: n in q ==> n in nodes
    ensures q[|q| - 1] !in q[..|q| - 1]
  {
    hide Succ;
    forall i | 0 <= i < |q| - 1 ensures q[i] != q[|q| - 1] {
      var r := q[i..];
      forall k | 0 <= k < |r| - 1 ensures Succ(g, r[k], r[k + 1]) {
        assert Succ(g, q[i + k], q[i + k + 1]);
      }
      assert r[0] in q;
    }
  }

  /** Following dependencies among the nodes that are left ends at one that has none of them. */
  lemma {:induction false} NextInOrder(g: Graph, nodes: set<Node>, fin: seq<Node>, p: seq<Node>) returns (n: Node)
    requires NodesClosed(g, nodes) && NoPathBack(g, nodes)
    requires |p| > 0 && IsPath(g, p) && Distinct(p) && forall x :: x in p ==> x in nodes && x !in fin
    ensures n in nodes && n !in fin && forall m :: Succ(g, n, m) ==> m in fin
    decreases |nodes| - |p|
  {
    n := p[|p| - 1];
    DistinctFits(p, nodes);
    if m :| Succ(g, n, m) && m !in fin {
      var q := p + [m];
      PathGrows(g, p, m);
      if m in p {
        PathBack(g, nodes, q);
      } else {
        DistinctFits(q, nodes);
        n := NextInOrder(g, nodes, fin, q);
      }
    }
  }

  lemma SinglePath(g: Graph, n: Node)
    ensures IsPath(g, [n]) && Distinct([n])
  {
  }

  lemma PathGrows(g: Graph, p: seq<Node>, m: Node)
    requires |p| > 0 && IsPath(g, p) && Succ(g, p[|p| - 1], m)
    ensures IsPath(g, p + [m])
  {
    hide Succ;
    var q := p + [m];
    forall i | 0 <= i < |q| - 1 ensures Succ(g, q[i], q[i + 1]) {
      assert i < |p| - 1 ==> Succ(g, p[i], p[i + 1]);
    }
  }

  lemma OrderGrows(g: Graph, fin: seq<Node>, n: Node)
    requires Ordered(g, fin) && forall m :: Succ(g, n, m) ==> m in fin
    ensures Ordered(g, fin + [n])
  {
    hide Succ;
    var f := fin + [n];
    forall i, m | 0 <= i < |f| && Succ(g, f[i], m) ensures m in f[..i] {
      assert i < |fin| ==> f[..i] == fin[..i];
      assert i == |fin| ==> f[..i] == fin;
      assert i < |fin| ==> Succ(g, fin[i], m);
    }
  }

  lemma {:induction false} OrderOf(g: Graph, nodes: set<Node>, fin: seq<Node>, left: set<Node>) returns (r: seq<Node>)
    requires NodesClosed(g, nodes) && NoPathBack(g, nodes)
    requires Ordered(g, fin) && forall n :: n in left <==> n in nodes && n !in fin
    ensures Ordered(g, r) && forall n :: n in nodes ==> n in r
    decreases |left|
  {
    hide Succ, IsPath;
    r := fin;
    if x :| x in left {
      SinglePath(g, x);
      var n := NextInOrder(g, nodes, fin, [x]);
      OrderGrows(g, fin, n);
      r := OrderOf(g, nodes, fin + [n], left - {n});
    }
  }

  /** The converse of OrderedMeansAcyclic: without a cycle the nodes can be put in order. */
  lemma AcyclicMeansOrdered(g: Graph, all: set<Sym>) returns (fin: seq<Node>)
    requires NodesClosed(g, Nodes(g, all)) && !HasCycle(g, all)
    ensures Ordered(g, fin) && forall s :: s in all ==> NodeOf(g, s) in fin
  {
    fin := OrderOf(g, Nodes(g, all), [], Nodes(g, all));
  }
}
