/** What menu_finalize does to the tree of menu entries, on values (menu.c). */
module MenuTree {
  import opened Expressions
  import opened Transformation
  import opened Duplicates
  import opened Comparisons

  /** A prompt property: does it carry text, and under which condition is it visible? */
  datatype Prompt = Prompt(text: bool, cond: Option<Expr>)

  /** The fields of an entry that menu_finalize reads or overwrites. */
  datatype Entry = Entry(sym: Option<Sym>, choice: bool, dep: Option<Expr>, prompt: Option<Prompt>)

  /** An entry, who it is, and the entries below it. */
  datatype Tree<M> = Node(id: M, entry: Entry, kids: seq<Tree<M>>)

  type Forest<M> = seq<Tree<M>>

  /** The entries in the order in which (node, list, next) reaches them. */
  function Preorder<M>(f: Forest<M>): seq<M> {
    if f == [] then [] else [f[0].id] + Preorder(f[0].kids) + Preorder(f[1..])
  }

  function Count<M>(f: Forest<M>): nat {
    if f == [] then 0 else 1 + Count(f[0].kids) + Count(f[1..])
  }

  // ---------- dependency propagation ----------

  function Conjoin(base: Option<Expr>, e: Option<Expr>): Option<Expr> {
    var c := AllocBin(AndOp, base, if e.None? then None else Some(Transform(e.value)));
    if c.None? then None else Some(EliminateDups(c.value))
  }

  /** The condition an entry hands down to the entries below it. */
  function ParentDep(e: Entry): Option<Expr> {
    if e.sym.Some? && e.choice then Some(Symbol(e.sym.value))
    else if e.prompt.Some? then e.prompt.value.cond
    else e.dep
  }

  function PropagatedPrompt(base: Option<Expr>, e: Entry): Option<Prompt> {
    if e.prompt.None? then None
    else
      var c := Conjoin(base, e.prompt.value.cond);
      var plain := e.sym.Some? && !e.sym.value.Type().Tristate?;
      Some(e.prompt.value.(cond := if plain then TransBoolOpt(c) else c))
  }

  function Propagated(parentDep: Option<Expr>, e: Entry): (r: Entry)
    ensures r.sym == e.sym && r.choice == e.choice
  {
    var base := Conjoin(parentDep, e.dep);
    e.(dep := base, prompt := PropagatedPrompt(base, e))
  }

  function PropagateAll<M>(parentDep: Option<Expr>, f: Forest<M>): (r: Forest<M>)
    ensures |r| == |f|
  {
    if f == [] then []
    else [f[0].(entry := Propagated(parentDep, f[0].entry))] + PropagateAll(parentDep, f[1..])
  }

  // ---------- flattening ----------

  predicate HasText(e: Entry) {
    e.prompt.Some? && e.prompt.value.text
  }

  /** Entries without a prompt text give their children to their own level. */
  function Flatten<M>(f: Forest<M>): Forest<M>
    decreases Count(f)
  {
    if f == [] then []
    else if f[0].kids != [] && !HasText(f[0].entry) then
      CountConcat(f[0].kids, f[1..]);
      [f[0].(kids := [])] + Flatten(f[0].kids + f[1..])
    else [f[0]] + Flatten(f[1..])
  }

  // ---------- adoption ----------

  /** The condition menu_finalize looks at: that of the prompt, if there is one. */
  function OwnCond(e: Entry): Option<Expr> {
    if e.prompt.Some? then e.prompt.value.cond else e.dep
  }

  predicate AdoptsEntry(parent: Entry, e: Entry)
    requires parent.sym.Some?
  {
    Adopts(if parent.prompt.Some? then parent.prompt.value.cond else None, OwnCond(e), parent.sym.value)
  }

  datatype Split<M> = Split(taken: Forest<M>, rest: Forest<M>)

  /** menu_finalize on the first entry of a list of siblings: the finished entry, alone in
      `taken`, and the siblings that are left. */
  function Finalize<M>(f: Forest<M>): (r: Split<M>)
    requires f != []
    ensures |r.taken| == 1 && r.taken[0].id == f[0].id && r.taken[0].entry == f[0].entry
    ensures Count(r.rest) < Count(f)
    decreases Count(f), 1
  {
    var n := f[0];
    if n.kids != [] then
      var kids := PropagateAll(ParentDep(n.entry), n.kids);
      PropagateCount(ParentDep(n.entry), n.kids);
      Split([n.(kids := Flatten(FinalizeAll(kids)))], f[1..])
    else if n.entry.sym.Some? then
      var s := AdoptAll(n.entry, f[1..]);
      Split([n.(kids := Flatten(s.taken))], s.rest)
    else
      Split([n], f[1..])
  }

  function FinalizeAll<M>(f: Forest<M>): Forest<M>
    decreases Count(f), 2
  {
    if f == [] then []
    else var s := Finalize(f); s.taken + FinalizeAll(s.rest)
  }

  /** The loop over the following siblings: each adopted entry is finished before the next one is
      looked at, and may itself have taken some of them. */
  function AdoptAll<M>(parent: Entry, f: Forest<M>): (r: Split<M>)
    requires parent.sym.Some?
    ensures Count(r.rest) <= Count(f)
    decreases Count(f), 2
  {
    if f == [] || !AdoptsEntry(parent, f[0].entry) then Split([], f)
    else
      var s := Finalize(f);
      var t := AdoptAll(parent, s.rest);
      Split(s.taken + t.taken, t.rest)
  }

  lemma {:induction false} CountConcat<M>(f: Forest<M>, g: Forest<M>)
    ensures Count(f + g) == Count(f) + Count(g)
  {
    if f == [] {
      assert f + g == g;
    } else {
      assert (f + g)[1..] == f[1..] + g;
      CountConcat(f[1..], g);
    }
  }

  lemma {:induction false} PropagateCount<M>(parentDep: Option<Expr>, f: Forest<M>)
    ensures Count(PropagateAll(parentDep, f)) == Count(f)
    ensures Preorder(PropagateAll(parentDep, f)) == Preorder(f)
  {
    if f != [] {
      PropagateCount(parentDep, f[1..]);
      assert PropagateAll(parentDep, f)[1..] == PropagateAll(parentDep, f[1..]);
    }
  }

  // ---------- conservation ----------

  lemma {:induction false} PreorderConcat<M>(f: Forest<M>, g: Forest<M>)
    ensures Preorder(f + g) == Preorder(f) + Preorder(g)
  {
    if f == [] {
      assert f + g == g;
    } else {
      assert (f + g)[1..] == f[1..] + g;
      PreorderConcat(f[1..], g);
    }
  }

  lemma {:induction false} FlattenKeepsPreorder<M>(f: Forest<M>)
    ensures Preorder(Flatten(f)) == Preorder(f)
    decreases Count(f)
  {
    if f != [] {
      if f[0].kids != [] && !HasText(f[0].entry) {
        CountConcat(f[0].kids, f[1..]);
        FlattenKeepsPreorder(f[0].kids + f[1..]);
        PreorderConcat(f[0].kids, f[1..]);
        PreorderConcat([f[0].(kids := [])], Flatten(f[0].kids + f[1..]));
      } else {
        FlattenKeepsPreorder(f[1..]);
        PreorderConcat([f[0]], Flatten(f[1..]));
      }
    }
  }

  /** Reshaping conserves the tree: adoption and flattening leave the order in which the entries
      are visited unchanged. */
  lemma {:induction false} FinalizeKeepsPreorder<M>(f: Forest<M>)
    requires f != []
    ensures Preorder(Finalize(f).taken + Finalize(f).rest) == Preorder(f)
    decreases Count(f), 1
  {
    var n := f[0];
    if n.kids != [] {
      var kids := PropagateAll(ParentDep(n.entry), n.kids);
      PropagateCount(ParentDep(n.entry), n.kids);
      FinalizeAllKeepsPreorder(kids);
      FlattenKeepsPreorder(FinalizeAll(kids));
      HeadPreorder(n, Flatten(FinalizeAll(kids)), f[1..]);
    } else if n.entry.sym.Some? {
      var a := AdoptAll(n.entry, f[1..]);
      AdoptAllKeepsPreorder(n.entry, f[1..]);
      PreorderConcat(a.taken, a.rest);
      FlattenKeepsPreorder(a.taken);
      HeadPreorder(n, Flatten(a.taken), a.rest);
    } else {
      HeadPreorder(n, [], f[1..]);
      assert n.(kids := []) == n;
    }
  }

  lemma HeadPreorder<M>(n: Tree<M>, kids: Forest<M>, rest: Forest<M>)
    ensures Preorder([n.(kids := kids)] + rest) == [n.id] + (Preorder(kids) + Preorder(rest))
  {
    assert ([n.(kids := kids)] + rest)[1..] == rest;
  }

  lemma {:induction false} FinalizeAllKeepsPreorder<M>(f: Forest<M>)
    ensures Preorder(FinalizeAll(f)) == Preorder(f)
    decreases Count(f), 2
  {
    if f != [] {
      var s := Finalize(f);
      FinalizeKeepsPreorder(f);
      FinalizeAllKeepsPreorder(s.rest);
      PreorderConcat(s.taken, s.rest);
      PreorderConcat(s.taken, FinalizeAll(s.rest));
    }
  }

  lemma PreorderRegroup<M>(a: Forest<M>, b: Forest<M>, c: Forest<M>)
    ensures Preorder((a + b) + c) == Preorder(a) + Preorder(b + c)
  {
    hide Preorder;
    PreorderConcat(a, b + c);
    assert a + (b + c) == (a + b) + c;
  }

  lemma AdoptAllStep<M>(parent: Entry, f: Forest<M>)
    requires parent.sym.Some? && f != [] && AdoptsEntry(parent, f[0].entry)
    ensures var s := Finalize(f); var t := AdoptAll(parent, s.rest);
      AdoptAll(parent, f) == Split(s.taken + t.taken, t.rest)
  {
    hide AdoptsEntry, Finalize;
  }

  lemma {:induction false} AdoptAllKeepsPreorder<M>(parent: Entry, f: Forest<M>)
    requires parent.sym.Some?
    ensures Preorder(AdoptAll(parent, f).taken + AdoptAll(parent, f).rest) == Preorder(f)
    decreases Count(f), 2
  {
    if f != [] && AdoptsEntry(parent, f[0].entry) {
      AdoptAllStep(parent, f);
      hide Finalize, AdoptAll, Preorder, AdoptsEntry;
      var s := Finalize(f);
      FinalizeKeepsPreorder(f);
      AdoptAllKeepsPreorder(parent, s.rest);
      var t := AdoptAll(parent, s.rest);
      PreorderConcat(s.taken, s.rest);
      PreorderRegroup(s.taken, t.taken, t.rest);
    } else {
      assert [] + f == f;
    }
  }
}
