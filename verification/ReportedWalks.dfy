/** The walks that are reported as recursive dependencies (symbol.c), and which of them are cycles. The
    stack also holds steps from a choice down to one of its members, which are no dependencies. */
module ReportedWalks {
  import opened Expressions
  import opened Dependencies

  /** Neighbours on the stack: a dependency, or a choice and one of its members. */
  predicate Link(g: Graph, x: Sym, y: Sym) {
    || y in Deps(g, x)
    || g.choiceOf(x) == Some(y)
    || g.choiceOf(y) == Some(x)
    || (x == y && g.isChoice(x))
  }

  ghost predicate Chain(g: Graph, st: seq<Sym>) {
    forall i :: 0 <= i < |st| - 1 ==> Link(g, st[i], st[i + 1])
  }

  /** A dependency other than that of a choice value on its own choice. */
  predicate LeadsOn(g: Graph, x: Sym, y: Sym) {
    y in Deps(g, x) && g.choiceOf(x) != Some(y)
  }

  /** From a choice to a member that it does not depend on. */
  predicate Descends(g: Graph, x: Sym, y: Sym) {
    g.choiceOf(y) == Some(x) && y !in Deps(g, x)
  }

  /** The element after c[i] on a closed walk. */
  function Next(c: seq<Sym>, i: nat): Sym
    requires i < |c|
  {
    if i + 1 < |c| then c[i + 1] else c[0]
  }

  ghost predicate ClosedWalk(g: Graph, c: seq<Sym>) {
    |c| > 0 && forall i: nat :: i < |c| ==> Link(g, c[i], Next(c, i))
  }

  /** A closed walk along links, with a dependency that is not that of a choice value on its choice. */
  ghost predicate ReportedWalk(g: Graph, c: seq<Sym>) {
    ClosedWalk(g, c) && exists i: nat :: i < |c| && LeadsOn(g, c[i], Next(c, i))
  }

  ghost predicate Descending(g: Graph, c: seq<Sym>) {
    exists i: nat :: i < |c| && Descends(g, c[i], Next(c, i))
  }

  // ---------- walks that do not descend ----------

  /** A link that does not descend stays in its node or follows the relation. */
  lemma LinkIsStep(g: Graph, x: Sym, y: Sym)
    requires Consistent(g) && Link(g, x, y) && !Descends(g, x, y)
    ensures NodeOf(g, x) == NodeOf(g, y) || Succ(g, NodeOf(g, x), NodeOf(g, y))
    ensures y in Deps(g, x) ==> Succ(g, NodeOf(g, x), NodeOf(g, y))
  {
    hide Deps;
    if g.choiceOf(x).Some? {
      assert g.choiceOf(x) == Some(g.choiceOf(x).value);
      assert x in g.members(g.choiceOf(x).value);
    }
  }

  /** Along a chain that does not descend there is a path of nodes; it has a step if the chain has a
      dependency. */
  lemma {:induction false} PathAlong(g: Graph, w: seq<Sym>) returns (p: seq<Node>)
    requires Consistent(g) && |w| > 0 && Chain(g, w)
    requires forall i :: 0 <= i < |w| - 1 ==> !Descends(g, w[i], w[i + 1])
    ensures |p| > 0 && IsPath(g, p) && p[0] == NodeOf(g, w[0]) && p[|p| - 1] == NodeOf(g, w[|w| - 1])
    ensures (exists i :: 0 <= i < |w| - 1 && w[i + 1] in Deps(g, w[i])) ==> |p| >= 2
  {
    hide Link, Descends, Deps, NodeOf, Succ;
    if |w| == 1 {
      p := [NodeOf(g, w[0])];
    } else {
      var v := w[..|w| - 1];
      var x, y := w[|w| - 2], w[|w| - 1];
      forall i | 0 <= i < |v| - 1 ensures Link(g, v[i], v[i + 1]) && !Descends(g, v[i], v[i + 1]) {
        assert Link(g, w[i], w[i + 1]) && !Descends(g, w[i], w[i + 1]);
      }
      var q := PathAlong(g, v);
      assert Link(g, w[|w| - 2], w[|w| - 2 + 1]) && !Descends(g, w[|w| - 2], w[|w| - 2 + 1]);
      LinkIsStep(g, x, y);
      if Succ(g, NodeOf(g, x), NodeOf(g, y)) {
        p := q + [NodeOf(g, y)];
      } else {
        p := q;
        if i :| 0 <= i < |w| - 1 && w[i + 1] in Deps(g, w[i]) {
          assert i < |v| - 1 && v[i + 1] in Deps(g, v[i]);
        }
      }
    }
  }

  /** A reported walk that does not descend into a choice is a cycle of the dependency relation. */
  lemma WalkIsCycle(g: Graph, c: seq<Sym>, all: set<Sym>)
    requires Consistent(g) && ReportedWalk(g, c) && !Descending(g, c) && c[0] in all
    ensures HasCycle(g, all)
  {
    hide Link, Descends, Deps, NodeOf, Succ;
    var w := c + [c[0]];
    forall i: nat | i < |w| - 1 ensures w[i] == c[i] && w[i + 1] == Next(c, i) {
    }
    forall i | 0 <= i < |w| - 1 ensures Link(g, w[i], w[i + 1]) && !Descends(g, w[i], w[i + 1]) {
      assert Link(g, c[i], Next(c, i));
    }
    var k: nat :| k < |c| && LeadsOn(g, c[k], Next(c, k));
    assert w[k + 1] in Deps(g, w[k]);
    var p := PathAlong(g, w);
  }

  // ---------- walks that do ----------

  /** From a symbol that a member of a choice depends on, and that is outside the choice, links lead
      back to the choice. */
  ghost predicate TangledAt(g: Graph, t: Sym, a: Sym, w: seq<Sym>) {
    && g.choiceOf(a).Some? && t in Deps(g, a)
    && g.choiceOf(a) != Some(t) && g.choiceOf(t) != g.choiceOf(a)
    && |w| > 0 && Chain(g, w) && w[0] == t && Some(w[|w| - 1]) == g.choiceOf(a)
  }

  ghost predicate Tangled(g: Graph) {
    exists t: Sym, a: Sym, w: seq<Sym> :: TangledAt(g, t, a, w)
  }

  function Rotate(c: seq<Sym>, k: nat): seq<Sym>
    requires k < |c|
  {
    c[k..] + c[..k]
  }

  lemma RotateNext(c: seq<Sym>, k: nat, i: nat)
    requires k < |c| && i < |c|
    ensures var j := if k + i < |c| then k + i else k + i - |c|;
      j < |c| && Rotate(c, k)[i] == c[j] && Next(Rotate(c, k), i) == Next(c, j)
  {
  }

  lemma RotateKeeps(g: Graph, c: seq<Sym>, k: nat)
    requires k < |c| && ReportedWalk(g, c)
    ensures ReportedWalk(g, Rotate(c, k))
    ensures forall s :: s in Rotate(c, k) <==> s in c
  {
    hide Link, LeadsOn;
    var d := Rotate(c, k);
    forall i: nat | i < |d| ensures Link(g, d[i], Next(d, i)) {
      RotateNext(c, k, i);
    }
    var m: nat :| m < |c| && LeadsOn(g, c[m], Next(c, m));
    var i := if m >= k then m - k else m + |c| - k;
    RotateNext(c, k, i);
    assert LeadsOn(g, d[i], Next(d, i));
    RotateMembers(c, k);
  }

  lemma RotateMembers(c: seq<Sym>, k: nat)
    requires k < |c|
    ensures forall s :: s in Rotate(c, k) <==> s in c
  {
    assert c == c[..k] + c[k..];
  }

  /** Two steps that lead from a choice down to a member and straight up again can be left out. */
  lemma ShortcutKeeps(g: Graph, c: seq<Sym>)
    requires Consistent(g) && ReportedWalk(g, c) && |c| >= 2
    requires Descends(g, c[0], c[1]) && Next(c, 1) == c[0]
    ensures |c| > 2 && ReportedWalk(g, c[2..])
  {
    hide Link, Deps;
    var m: nat :| m < |c| && LeadsOn(g, c[m], Next(c, m));
    assert Next(c, 0) == c[1];
    assert m != 0 && m != 1;
    var d := c[2..];
    forall i: nat | i < |d| ensures d[i] == c[i + 2] && Next(d, i) == Next(c, i + 2) {
      assert c[2] == c[0];
    }
    forall i: nat | i < |d| ensures Link(g, d[i], Next(d, i)) {
      assert Link(g, c[i + 2], Next(c, i + 2));
    }
    assert LeadsOn(g, d[m - 2], Next(d, m - 2));
  }

  /** A walk that starts by going down to a member and on from there: it goes straight up again, or
      the members of the choice depend on each other, or the graph is tangled. */
  lemma AfterDescent(g: Graph, c: seq<Sym>)
    requires Consistent(g) && ClosedWalk(g, c) && |c| >= 2 && Descends(g, c[0], c[1])
    ensures Next(c, 1) == c[0] || Succ(g, Members(c[0]), Members(c[0])) || Tangled(g)
  {
    hide Deps;
    var choice, a, t := c[0], c[1], Next(c, 1);
    assert Link(g, c[1], Next(c, 1));
    assert g.isChoice(choice) && a in g.members(choice);
    if t in Deps(g, a) && t != choice {
      if g.choiceOf(t) == Some(choice) {
        assert Succ(g, Members(choice), NodeOf(g, t));
      } else {
        var w := c[2..] + [c[0]];
        forall i | 0 <= i < |w| - 1 ensures Link(g, w[i], w[i + 1]) {
          assert Link(g, c[i + 2], Next(c, i + 2));
        }
        assert TangledAt(g, t, a, w);
      }
    }
  }

  /** Every reported walk shows a cycle of the dependency relation, or that the graph is tangled. */
  lemma {:induction false} CycleOrTangled(g: Graph, c: seq<Sym>, all: set<Sym>)
    requires Consistent(g) && ReportedWalk(g, c) && forall s :: s in c ==> s in all
    ensures HasCycle(g, all) || Tangled(g)
    decreases |c|
  {
    if !Descending(g, c) {
      WalkIsCycle(g, c, all);
    } else {
      var k: nat :| k < |c| && Descends(g, c[k], Next(c, k));
      RotateKeeps(g, c, k);
      RotateNext(c, k, 0);
      var d := Rotate(c, k);
      hide Deps, ReportedWalk, HasCycle, Tangled, Link;
      assert |c| != 1 by {
        assert g.choiceOf(c[k]) != Some(c[k]) by { ChoiceIsNoMember(g, c[k]); }
      }
      DescentAtStart(g, d, all);
      if Next(d, 1) == d[0] {
        ShortcutKeeps(g, d);
        if !(HasCycle(g, all) || Tangled(g)) {
          CycleOrTangled(g, d[2..], all);
        }
      }
    }
  }

  lemma ChoiceIsNoMember(g: Graph, c: Sym)
    requires Consistent(g)
    ensures g.choiceOf(c) != Some(c)
  {
  }

  lemma DescentAtStart(g: Graph, d: seq<Sym>, all: set<Sym>)
    requires Consistent(g) && ReportedWalk(g, d) && |d| >= 2 && Descends(g, d[0], d[1]) && d[1] in all
    ensures Next(d, 1) == d[0] || HasCycle(g, all) || Tangled(g)
  {
    hide Deps, Link;
    AfterDescent(g, d);
    if Succ(g, Members(d[0]), Members(d[0])) {
      var p := [Members(d[0]), Members(d[0])];
      assert IsPath(g, p) && NodeOf(g, d[1]) == p[0];
    }
  }
}
