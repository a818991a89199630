/** The menu entries themselves: nodes linked by next, parent and list, reshaped in place by
    menu_finalize (menu.c) and visited by the loop of conf_write (confdata.c). */
module Menus {
  import opened Expressions
  import opened Comparisons
  import opened MenuTree

  class Menu {
    var next: Menu?
    var parent: Menu?
    var list: Menu?
    const sym: Option<Sym>
    const choice: bool
    var dep: Option<Expr>
    var prompt: Option<Prompt>

    constructor (sym: Option<Sym>, choice: bool, dep: Option<Expr>, prompt: Option<Prompt>)
      ensures this.sym == sym && this.choice == choice && this.dep == dep && this.prompt == prompt
      ensures next == null && parent == null && list == null
    {
      this.sym, this.choice, this.dep, this.prompt := sym, choice, dep, prompt;
      next, parent, list := null, null, null;
    }

    function Fields(): Entry
      reads this
    {
      Entry(sym, choice, dep, prompt)
    }
  }

  function Nodes(f: Forest<Menu>): set<Menu> {
    if f == [] then {} else {f[0].id} + Nodes(f[0].kids) + Nodes(f[1..])
  }

  /** No entry occurs twice. */
  ghost predicate Distinct(f: Forest<Menu>) {
    f == [] ||
    (&& f[0].id !in Nodes(f[0].kids) + Nodes(f[1..])
     && Nodes(f[0].kids) !! Nodes(f[1..])
     && Distinct(f[0].kids) && Distinct(f[1..]))
  }

  /** From `first`, the next pointers run through the roots of `f` up to `end`; all of them have
      the parent `up`, hold the fields recorded in `f`, and have their kids on their list. */
  ghost predicate Linked(up: Menu?, first: Menu?, f: Forest<Menu>, end: Menu?)
    reads Nodes(f)
    decreases Count(f)
  {
    if f == [] then first == end
    else
      && first == f[0].id
      && f[0].id.parent == up
      && f[0].id.Fields() == f[0].entry
      && Linked(f[0].id, f[0].id.list, f[0].kids, null)
      && Linked(up, f[0].id.next, f[1..], end)
  }

  lemma {:induction false} NodesConcat(f: Forest<Menu>, g: Forest<Menu>)
    ensures Nodes(f + g) == Nodes(f) + Nodes(g)
  {
    if f == [] {
      assert f + g == g;
    } else {
      assert (f + g)[1..] == f[1..] + g;
      NodesConcat(f[1..], g);
    }
  }

  lemma {:induction false} DistinctConcat(f: Forest<Menu>, g: Forest<Menu>)
    ensures Distinct(f + g) <==> Distinct(f) && Distinct(g) && Nodes(f) !! Nodes(g)
  {
    if f == [] {
      assert f + g == g;
    } else {
      assert (f + g)[1..] == f[1..] + g;
      NodesConcat(f[1..], g);
      DistinctConcat(f[1..], g);
    }
  }

  lemma {:induction false} LinkedConcat(up: Menu?, first: Menu?, f: Forest<Menu>, mid: Menu?, g: Forest<Menu>, end: Menu?)
    requires Linked(up, first, f, mid) && Linked(up, mid, g, end)
    ensures Linked(up, first, f + g, end)
  {
    if f == [] {
      assert f + g == g;
    } else {
      assert (f + g)[1..] == f[1..] + g;
      LinkedConcat(up, f[0].id.next, f[1..], mid, g, end);
    }
  }

  /** The entry at which the second part starts. */
  lemma {:induction false} LinkedSplit(up: Menu?, first: Menu?, f: Forest<Menu>, g: Forest<Menu>, end: Menu?)
    returns (mid: Menu?)
    requires Linked(up, first, f + g, end)
    ensures Linked(up, first, f, mid) && Linked(up, mid, g, end)
    ensures g != [] ==> mid == g[0].id
    ensures g == [] ==> mid == end
  {
    if f == [] {
      assert f + g == g;
      mid := first;
    } else {
      assert (f + g)[1..] == f[1..] + g;
      mid := LinkedSplit(up, f[0].id.next, f[1..], g, end);
    }
  }

  function Elements(s: seq<Menu>): set<Menu> {
    set x | x in s
  }

  ghost predicate NoDuplicates(s: seq<Menu>) {
    s == [] || (s[0] !in s[1..] && NoDuplicates(s[1..]))
  }

  lemma {:induction false} NoDuplicatesConcat(s: seq<Menu>, t: seq<Menu>)
    ensures NoDuplicates(s + t) <==> NoDuplicates(s) && NoDuplicates(t) && Elements(s) !! Elements(t)
    ensures Elements(s + t) == Elements(s) + Elements(t)
  {
    if s == [] {
      assert s + t == t;
    } else {
      NoDuplicatesConcat(s[1..], t);
      assert (s + t)[1..] == s[1..] + t;
      assert Elements(s) == {s[0]} + Elements(s[1..]);
      assert s[0] in (s + t)[1..] <==> s[0] in Elements(s[1..]) + Elements(t);
    }
  }

  /** Distinctness is a property of the preorder sequence, so whatever keeps the sequence keeps it. */
  lemma {:induction false} NodesArePreorder(f: Forest<Menu>)
    ensures Nodes(f) == Elements(Preorder(f))
    ensures Distinct(f) <==> NoDuplicates(Preorder(f))
  {
    if f != [] {
      var h, k, r := [f[0].id], Preorder(f[0].kids), Preorder(f[1..]);
      NodesArePreorder(f[0].kids);
      NodesArePreorder(f[1..]);
      NoDuplicatesConcat(h + k, r);
      NoDuplicatesConcat(h, k);
      assert Elements(h) == {f[0].id};
      assert NoDuplicates(h);
    }
  }

  lemma SamePreorder(f: Forest<Menu>, g: Forest<Menu>)
    requires Preorder(f) == Preorder(g)
    ensures Nodes(f) == Nodes(g)
    ensures Distinct(f) <==> Distinct(g)
  {
    NodesArePreorder(f);
    NodesArePreorder(g);
  }

  /** Recorded entries exist: whatever a call does not modify, it leaves as it was. */
  lemma {:induction false} AllocatedNodes(f: Forest<Menu>)
    ensures forall x :: x in Nodes(f) ==> allocated(x)
  {
    if f != [] {
      AllocatedNodes(f[0].kids);
      AllocatedNodes(f[1..]);
    }
  }

  // ---------- a cursor moving along a list ----------

  /** The cursor `c` of a loop over the list that starts at `first`: the entries before it are
      linked under `m`, those from it on under `up`, and together they are the set `all`. */
  ghost predicate Cursor(m: Menu, up: Menu?, first: Menu?, c: Menu?, done: Forest<Menu>, todo: Forest<Menu>,
                         all: set<Menu>)
    reads Nodes(done), Nodes(todo)
  {
    && Linked(m, first, done, c) && Linked(up, c, todo, null)
    && Nodes(done) + Nodes(todo) == all && Nodes(done) !! Nodes(todo)
    && Distinct(done) && Distinct(todo) && m !in all
  }

  lemma StartCursor(m: Menu, up: Menu?, first: Menu?, f: Forest<Menu>)
    requires Linked(up, first, f, null) && Distinct(f) && m !in Nodes(f)
    ensures Cursor(m, up, first, first, [], f, Nodes(f))
  {
  }

  lemma EndCursor(m: Menu, up: Menu?, first: Menu?, done: Forest<Menu>, todo: Forest<Menu>, all: set<Menu>)
    requires Cursor(m, up, first, null, done, todo, all)
    ensures todo == [] && Linked(m, first, done, null)
  {
  }

  /** The entry at the cursor is apart from everything else. */
  lemma AtCursor(m: Menu, up: Menu?, first: Menu?, c: Menu, done: Forest<Menu>, todo: Forest<Menu>, all: set<Menu>)
    requires Cursor(m, up, first, c, done, todo, all)
    ensures todo != [] && todo[0].id == c && c in all && c != m
    ensures c !in Nodes(done) && c !in Nodes(todo[0].kids) && c !in Nodes(todo[1..])
    ensures Linked(m, first, done, c) && Linked(up, c, todo, null)
    ensures Linked(c, c.list, todo[0].kids, null) && Linked(up, c.next, todo[1..], null)
    ensures c.parent == up && c.Fields() == todo[0].entry && (c.list == null <==> todo[0].kids == [])
    ensures todo == [todo[0]] + todo[1..] && Nodes(done) !! Nodes(todo) && Nodes(done) + Nodes(todo) == all
    ensures Distinct(done) && Distinct(todo) && m !in all
    ensures forall x :: x in all ==> allocated(x)
    ensures Nodes(todo) == {c} + Nodes(todo[0].kids) + Nodes(todo[1..])
  {
    AllocatedNodes(done);
    AllocatedNodes(todo);
  }

  /** The cursor moves past `n`. */
  lemma Advance(m: Menu, up: Menu?, first: Menu?, done: Forest<Menu>, n: Tree<Menu>, rest: Forest<Menu>,
                all: set<Menu>)
    requires Linked(m, first, done, n.id)
    requires n.id.parent == m && n.id.Fields() == n.entry && Linked(n.id, n.id.list, n.kids, null)
    requires Linked(up, n.id.next, rest, null)
    requires Nodes(done) + Nodes([n] + rest) == all && Nodes(done) !! Nodes([n] + rest)
    requires Distinct(done) && Distinct([n] + rest) && m !in all
    ensures Cursor(m, up, first, n.id.next, done + [n], rest, all)
  {
    assert Linked(m, n.id, [n], n.id.next);
    LinkedConcat(m, first, done, n.id, [n], n.id.next);
    NodesConcat(done, [n]);
    NodesConcat([n], rest);
    DistinctConcat([n], rest);
    DistinctConcat(done, [n]);
  }

  // ---------- menu_finalize ----------

  /** The first loop over the children: conditions are handed down (menu.c:350-371). */
  method PropagateDeps(m: Menu, parentDep: Option<Expr>, ghost kids: Forest<Menu>)
    requires Linked(m, m.list, kids, null) && Distinct(kids) && m !in Nodes(kids)
    modifies Nodes(kids)
    ensures Linked(m, m.list, PropagateAll(parentDep, kids), null)
  {
    hide Propagated, PropagateAll, Linked, Distinct, Nodes, Cursor;
    var c := m.list;
    ghost var done, todo: Forest<Menu> := [], kids;
    ghost var all := Nodes(kids);
    StartCursor(m, m, c, kids);
    while c != null
      invariant Cursor(m, m, m.list, c, done, todo, all)
      invariant done + PropagateAll(parentDep, todo) == PropagateAll(parentDep, kids)
      decreases |todo|
    {
      AtCursor(m, m, m.list, c, done, todo, all);
      ghost var n, rest := todo[0], todo[1..];
      var e := Propagated(parentDep, c.Fields());
      c.dep := e.dep;
      c.prompt := e.prompt;
      ghost var n' := n.(entry := e);
      assert todo == [n] + rest;
      SameIds(n, n', rest);
      Advance(m, m, m.list, done, n', rest, all);
      PropagateStep(parentDep, done, todo);
      done, todo := done + [n'], rest;
      c := c.next;
    }
    EndCursor(m, m, m.list, done, todo, all);
    NothingLeft(parentDep, done);
  }

  lemma NothingLeft(parentDep: Option<Expr>, done: Forest<Menu>)
    ensures done + PropagateAll(parentDep, []) == done
    ensures done + FinalizeAll([]) == done
    ensures done + Flatten([]) == done
  {
  }

  lemma SameIds(n: Tree<Menu>, n': Tree<Menu>, rest: Forest<Menu>)
    requires n.id == n'.id && n.kids == n'.kids
    ensures Nodes([n] + rest) == Nodes([n'] + rest)
    ensures Distinct([n] + rest) <==> Distinct([n'] + rest)
  {
    assert ([n] + rest)[1..] == rest == ([n'] + rest)[1..];
  }

  lemma PropagateStep(parentDep: Option<Expr>, done: Forest<Menu>, todo: Forest<Menu>)
    requires todo != []
    ensures done + PropagateAll(parentDep, todo)
         == done + [todo[0].(entry := Propagated(parentDep, todo[0].entry))] + PropagateAll(parentDep, todo[1..])
  {
    hide Propagated;
  }

  /** The second loop over the children (menu.c:372-373): each is finished in turn, and may take
      over some of the entries that follow it. */
  method FinalizeChildren(m: Menu, ghost kids: Forest<Menu>)
    requires Linked(m, m.list, kids, null) && Distinct(kids) && m !in Nodes(kids)
    modifies Nodes(kids)
    ensures Linked(m, m.list, FinalizeAll(kids), null)
    decreases Count(kids), 2
  {
    hide MenuTree.Finalize, FinalizeAll, Linked, Distinct, Nodes, Cursor;
    var c := m.list;
    ghost var done, todo: Forest<Menu> := [], kids;
    ghost var all := Nodes(kids);
    StartCursor(m, m, c, kids);
    while c != null
      invariant Cursor(m, m, m.list, c, done, todo, all)
      invariant done + FinalizeAll(todo) == FinalizeAll(kids)
      invariant Count(todo) <= Count(kids)
      decreases Count(todo)
    {
      AtCursor(m, m, m.list, c, done, todo, all);
      ghost var s := MenuTree.Finalize(todo);
      FinalizeKeepsNodes(todo);
      FinalizeStep(done, todo);
      Finalize(c, m, todo);
      ghost var n := s.taken[0];
      AfterHead(m, c, n, s.rest);
      Advance(m, m, m.list, done, n, s.rest, all);
      done, todo := done + [n], s.rest;
      c := c.next;
    }
    EndCursor(m, m, m.list, done, todo, all);
    NothingLeft(None, done);
  }

  lemma FinalizeStep(done: Forest<Menu>, todo: Forest<Menu>)
    requires todo != []
    ensures var s := MenuTree.Finalize(todo);
      done + FinalizeAll(todo) == done + [s.taken[0]] + FinalizeAll(s.rest)
  {
    hide MenuTree.Finalize;
  }

  lemma AfterHead(up: Menu?, c: Menu, n: Tree<Menu>, rest: Forest<Menu>)
    requires Linked(up, c, [n] + rest, null)
    ensures n.id == c && c.parent == up && c.Fields() == n.entry
    ensures Linked(c, c.list, n.kids, null) && Linked(up, c.next, rest, null)
  {
    assert ([n] + rest)[1..] == rest;
  }

  lemma FinalizeKeepsNodes(f: Forest<Menu>)
    requires f != [] && Distinct(f)
    ensures var s := MenuTree.Finalize(f);
      && s.taken == [s.taken[0]]
      && Nodes([s.taken[0]] + s.rest) == Nodes(f) && Distinct([s.taken[0]] + s.rest)
  {
    FinalizeKeepsPreorder(f);
    SamePreorder(MenuTree.Finalize(f).taken + MenuTree.Finalize(f).rest, f);
  }

  /** menu_finalize: the subtree of `m` and the entries after it end up linked exactly as the
      function on forests says. */
  method Finalize(m: Menu, ghost up: Menu?, ghost f: Forest<Menu>)
    requires f != [] && Linked(up, m, f, null) && Distinct(f)
    modifies Nodes(f)
    ensures Linked(up, m, [MenuTree.Finalize(f).taken[0]] + MenuTree.Finalize(f).rest, null)
    ensures Preorder([MenuTree.Finalize(f).taken[0]] + MenuTree.Finalize(f).rest) == Preorder(f)
    decreases Count(f), 1
  {
    hide Preorder, AdoptsEntry, PropagateAll, FinalizeAll, AdoptAll, Flatten, Linked, Distinct, Nodes;
    ghost var n := f[0];
    ghost var kids := n.kids;
    ghost var rest := f[1..];
    HeadParts(m, up, f);
    if m.list != null {
      var parentDep := ParentDep(m.Fields());
      PropagateDeps(m, parentDep, kids);
      kids := PropagateAll(parentDep, kids);
      PropagateCount(parentDep, n.kids);
      SamePreorder(kids, n.kids);
      FinalizeChildren(m, kids);
      FinalizeAllKeepsPreorder(kids);
      kids := FinalizeAll(kids);
      SamePreorder(kids, n.kids);
    } else if m.sym.Some? {
      AdoptSiblings(m, up, f);
      ghost var a := AdoptAll(n.entry, rest);
      AdoptKeepsNodes(n.entry, rest);
      kids, rest := a.taken, a.rest;
    }
    FlattenGroups(m, kids);
    LinkHead(up, n.(kids := Flatten(kids)), rest);
    NothingLeft(None, []);
    assert n.kids == [] && n.entry.sym.None? ==> n.(kids := Flatten(kids)) == n;
    FinalizeKeepsPreorder(f);
    FinalizeKeepsNodes(f);
  }

  lemma HeadParts(m: Menu, up: Menu?, f: Forest<Menu>)
    requires f != [] && Linked(up, m, f, null) && Distinct(f)
    ensures f == [f[0]] + f[1..] && f[0].id == m && m.parent == up && m.Fields() == f[0].entry
    ensures Linked(m, m.list, f[0].kids, null) && Linked(up, m.next, f[1..], null)
    ensures Nodes(f) == {m} + Nodes(f[0].kids) + Nodes(f[1..])
    ensures m !in Nodes(f[0].kids) && m !in Nodes(f[1..]) && Nodes(f[0].kids) !! Nodes(f[1..])
    ensures Distinct(f[0].kids) && Distinct(f[1..])
    ensures m.list == null <==> f[0].kids == []
    ensures forall x :: x in Nodes(f) ==> allocated(x)
  {
    AllocatedNodes(f);
  }

  lemma LinkHead(up: Menu?, n: Tree<Menu>, rest: Forest<Menu>)
    requires n.id.parent == up && n.id.Fields() == n.entry
    requires Linked(n.id, n.id.list, n.kids, null) && Linked(up, n.id.next, rest, null)
    ensures Linked(up, n.id, [n] + rest, null)
  {
    assert ([n] + rest)[1..] == rest;
  }

  lemma AdoptKeepsNodes(e: Entry, f: Forest<Menu>)
    requires e.sym.Some? && Distinct(f)
    ensures var s := AdoptAll(e, f);
      && Nodes(s.taken) + Nodes(s.rest) == Nodes(f) && Nodes(s.taken) !! Nodes(s.rest)
      && Distinct(s.taken) && Distinct(s.rest)
  {
    var s := AdoptAll(e, f);
    AdoptAllKeepsPreorder(e, f);
    SamePreorder(s.taken + s.rest, f);
    NodesConcat(s.taken, s.rest);
    DistinctConcat(s.taken, s.rest);
  }

  lemma CountTail(f: Forest<Menu>)
    requires f != []
    ensures Count(f[1..]) < Count(f)
  {
  }

  /** The loop over the following entries (menu.c:378-399): those that belong below `m` get it as
      their parent, and it stops at the first that does not. */
  method ScanSiblings(m: Menu, ghost up: Menu?, ghost e: Entry, ghost f: Forest<Menu>)
    returns (last: Menu?, c: Menu?, ghost taken: Forest<Menu>, ghost todo: Forest<Menu>)
    requires Linked(up, m.next, f, null) && Distinct(f) && m !in Nodes(f)
    requires m.Fields() == e && e.sym.Some?
    modifies Nodes(f)
    ensures Cursor(m, up, m.next, c, taken, todo, Nodes(f))
    ensures c == null || !AdoptsEntry(e, c.Fields())
    ensures taken + AdoptAll(e, todo).taken == AdoptAll(e, f).taken
    ensures AdoptAll(e, todo).rest == AdoptAll(e, f).rest
    ensures last == if taken == [] then null else taken[|taken| - 1].id
    decreases Count(f), 2
  {
    hide AdoptsEntry, MenuTree.Finalize, AdoptAll, Linked, Distinct, Nodes, Cursor;
    c := m.next;
    last := null;
    taken, todo := [], f;
    ghost var all := Nodes(f);
    StartCursor(m, up, c, f);
    while c != null
      invariant m.next == old(m.next) && m.Fields() == e
      invariant Cursor(m, up, m.next, c, taken, todo, all)
      invariant Count(todo) <= Count(f)
      invariant taken + AdoptAll(e, todo).taken == AdoptAll(e, f).taken
      invariant AdoptAll(e, todo).rest == AdoptAll(e, f).rest
      invariant last == if taken == [] then null else taken[|taken| - 1].id
      decreases Count(todo)
    {
      AtCursor(m, up, m.next, c, taken, todo, all);
      if !AdoptsEntry(m.Fields(), c.Fields()) {
        break;
      }
      ghost var s := MenuTree.Finalize(todo);
      FinalizeKeepsNodes(todo);
      AdoptStep(e, taken, todo);
      Finalize(c, up, todo);
      ghost var n := s.taken[0];
      AfterHead(up, c, n, s.rest);
      HeadApart(n, s.rest);
      c.parent := m;
      Advance(m, up, m.next, taken, n, s.rest, all);
      taken, todo := taken + [n], s.rest;
      last := c;
      c := c.next;
    }
  }

  /** The entries that belong below `m` become its children (menu.c:374-404). */
  method AdoptSiblings(m: Menu, ghost up: Menu?, ghost f: Forest<Menu>)
    requires f != [] && Linked(up, m, f, null) && Distinct(f)
    requires f[0].kids == [] && m.sym.Some?
    modifies Nodes(f)
    ensures m.parent == up && m.Fields() == f[0].entry
    ensures Linked(m, m.list, AdoptAll(f[0].entry, f[1..]).taken, null)
    ensures Linked(up, m.next, AdoptAll(f[0].entry, f[1..]).rest, null)
    decreases Count(f), 0
  {
    CountTail(f);
    hide AdoptsEntry, MenuTree.Finalize, AdoptAll, Linked, Distinct, Nodes, Cursor, Count;
    HeadParts(m, up, f);
    ghost var e, all := f[0].entry, Nodes(f[1..]);
    var last, c;
    ghost var taken, todo;
    last, c, taken, todo := ScanSiblings(m, up, e, f[1..]);
    AdoptEnd(e, m, up, m.next, c, taken, todo, all);
    if last != null {
      TakeOver(m, up, last, c, taken, todo);
    }
  }

  /** menu.c:400-404: the adopted entries leave the list of `m` for the list below it. */
  method TakeOver(m: Menu, ghost up: Menu?, last: Menu, ghost c: Menu?, ghost taken: Forest<Menu>,
                  ghost todo: Forest<Menu>)
    requires Linked(m, m.next, taken, c) && Linked(up, c, todo, null) && Distinct(taken)
    requires taken != [] && last == taken[|taken| - 1].id && last in Nodes(taken) && last.next == c
    requires Nodes(taken) !! Nodes(todo) && m !in Nodes(taken) + Nodes(todo)
    modifies m`list, m`next, last`next
    ensures Linked(m, m.list, taken, null) && Linked(up, m.next, todo, null)
  {
    hide Linked, Distinct, Nodes;
    AllocatedNodes(todo);
    m.list := m.next;
    m.next := last.next;
    CutAfter(m, m.list, taken, last, c);
  }

  /** The loop ends at the end of the list or at the first entry that is not adopted. */
  lemma AdoptEnd(e: Entry, m: Menu, up: Menu?, first: Menu?, c: Menu?, taken: Forest<Menu>, todo: Forest<Menu>,
                 all: set<Menu>)
    requires e.sym.Some? && Cursor(m, up, first, c, taken, todo, all)
    requires c == null || !AdoptsEntry(e, c.Fields())
    ensures taken + AdoptAll(e, todo).taken == taken && AdoptAll(e, todo).rest == todo
    ensures Linked(m, first, taken, c) && Linked(up, c, todo, null) && Distinct(taken)
    ensures Nodes(taken) <= all && Nodes(todo) <= all && Nodes(taken) !! Nodes(todo) && m !in all
    ensures forall x :: x in Nodes(todo) ==> allocated(x)
    ensures taken == [] ==> first == c && Linked(m, null, [], null)
    ensures taken != [] ==> taken[|taken| - 1].id in Nodes(taken) && taken[|taken| - 1].id.next == c
  {
    hide AdoptsEntry;
    AllocatedNodes(todo);
    if taken != [] {
      LastNext(m, first, taken, c);
    }
  }

  lemma {:induction false} LastNext(m: Menu, first: Menu?, f: Forest<Menu>, end: Menu?)
    requires f != [] && Linked(m, first, f, end)
    ensures f[|f| - 1].id in Nodes(f) && f[|f| - 1].id.next == end
  {
    if |f| > 1 {
      LastNext(m, f[0].id.next, f[1..], end);
    }
  }

  lemma HeadApart(n: Tree<Menu>, rest: Forest<Menu>)
    requires Distinct([n] + rest)
    ensures n.id !in Nodes(n.kids) && n.id !in Nodes(rest) && n.id in Nodes([n] + rest)
  {
    assert ([n] + rest)[1..] == rest;
  }

  lemma AdoptStep(e: Entry, taken: Forest<Menu>, todo: Forest<Menu>)
    requires e.sym.Some? && todo != [] && AdoptsEntry(e, todo[0].entry)
    ensures var s := MenuTree.Finalize(todo);
      && taken + AdoptAll(e, todo).taken == taken + [s.taken[0]] + AdoptAll(e, s.rest).taken
      && AdoptAll(e, todo).rest == AdoptAll(e, s.rest).rest
  {
    hide AdoptsEntry, MenuTree.Finalize;
  }

  /** last->next = NULL: ends a list after its last entry. */
  method CutAfter(m: Menu, first: Menu?, ghost f: Forest<Menu>, last: Menu, ghost end: Menu?)
    requires Linked(m, first, f, end) && Distinct(f) && f != [] && last == f[|f| - 1].id
    modifies last`next
    ensures Linked(m, first, f, null)
  {
    ghost var init, l := f[..|f| - 1], f[|f| - 1..];
    assert f == init + l;
    DistinctConcat(init, l);
    ghost var mid := LinkedSplit(m, first, init, l, end);
    last.next := null;
    assert Linked(m, last, l, null);
    LinkedConcat(m, first, init, mid, l, null);
  }

  /** The last loop (menu.c:408-458): an entry without a prompt text hands its children to its own
      level, right after itself. */
  method FlattenGroups(m: Menu, ghost kids: Forest<Menu>)
    requires Linked(m, m.list, kids, null) && Distinct(kids) && m !in Nodes(kids)
    modifies Nodes(kids)
    ensures Linked(m, m.list, Flatten(kids), null)
  {
    hide Flatten, Linked, Distinct, Nodes, Cursor;
    var c := m.list;
    ghost var done, todo: Forest<Menu> := [], kids;
    ghost var all := Nodes(kids);
    StartCursor(m, m, c, kids);
    while c != null
      invariant Cursor(m, m, m.list, c, done, todo, all)
      invariant done + Flatten(todo) == Flatten(kids)
      decreases Count(todo)
    {
      AtCursor(m, m, m.list, c, done, todo, all);
      ghost var n, rest := todo[0], todo[1..];
      assert todo == [n] + rest;
      FlattenStep(done, n, rest);
      if c.list != null && !HasText(c.Fields()) {
        UngroupedNodes(n, rest);
        Splice(m, c, n.kids, rest);
        n, rest := n.(kids := []), n.kids + rest;
      }
      Advance(m, m, m.list, done, n, rest, all);
      done, todo := done + [n], rest;
      c := c.next;
    }
    EndCursor(m, m, m.list, done, todo, all);
    NothingLeft(None, done);
  }

  lemma UngroupedNodes(n: Tree<Menu>, rest: Forest<Menu>)
    requires Distinct([n] + rest)
    ensures Nodes([n.(kids := [])] + (n.kids + rest)) == Nodes([n] + rest)
    ensures Distinct([n.(kids := [])] + (n.kids + rest))
    ensures Distinct(n.kids) && Nodes(n.kids) !! Nodes(rest)
  {
    assert ([n] + rest)[1..] == rest;
    assert ([n.(kids := [])] + (n.kids + rest))[1..] == n.kids + rest;
    NodesConcat(n.kids, rest);
    DistinctConcat(n.kids, rest);
  }

  lemma FlattenStep(done: Forest<Menu>, n: Tree<Menu>, rest: Forest<Menu>)
    ensures var todo := [n] + rest;
      if n.kids != [] && !HasText(n.entry)
      then done + Flatten(todo) == done + [n.(kids := [])] + Flatten(n.kids + rest) && Count(n.kids + rest) < Count(todo)
      else done + Flatten(todo) == done + [n] + Flatten(rest) && Count(rest) < Count(todo)
  {
    assert ([n] + rest)[1..] == rest;
    CountConcat(n.kids, rest);
    CountConcat([n], rest);
  }

  lemma FirstOf(up: Menu, first: Menu?, f: Forest<Menu>)
    requires f != [] && Linked(up, first, f, null)
    ensures first == f[0].id && first in Nodes(f)
  {
  }

  /** menu.c:449-454: `m` becomes the parent of the children of `c`. */
  method Reparent(m: Menu, c: Menu, ghost kids: Forest<Menu>) returns (last: Menu)
    requires kids != [] && Linked(c, c.list, kids, null) && Distinct(kids)
    requires c !in Nodes(kids) && m !in Nodes(kids) && m != c
    modifies Nodes(kids)
    ensures Linked(m, c.list, kids, null) && last == kids[|kids| - 1].id && last in Nodes(kids)
  {
    hide Linked, Distinct, Nodes, Cursor;
    FirstOf(c, c.list, kids);
    last := c.list;
    ghost var done, todo: Forest<Menu> := [], kids;
    ghost var all := Nodes(kids);
    StartCursor(m, c, last, kids);
    while true
      invariant c.list == old(c.list)
      invariant Cursor(m, c, c.list, last, done, todo, all)
      invariant done + todo == kids
      decreases |todo|
    {
      AtCursor(m, c, c.list, last, done, todo, all);
      ghost var n, rest := todo[0], todo[1..];
      assert todo == [n] + rest;
      last.parent := m;
      Advance(m, c, c.list, done, n, rest, all);
      done, todo := done + [n], rest;
      if last.next == null {
        EndCursor(m, c, c.list, done, todo, all);
        break;
      }
      last := last.next;
    }
    assert done == kids;
  }

  /** menu.c:449-456: the children of `c` are linked between `c` and its old successor. */
  method Splice(m: Menu, c: Menu, ghost kids: Forest<Menu>, ghost rest: Forest<Menu>)
    requires kids != [] && Linked(c, c.list, kids, null) && Linked(m, c.next, rest, null)
    requires Distinct(kids) && Nodes(kids) !! Nodes(rest) && c !in Nodes(kids) + Nodes(rest)
    requires m !in Nodes(kids) && m != c
    modifies Nodes(kids), c`next, c`list
    ensures c.list == null
    ensures Linked(m, c.next, kids + rest, null)
  {
    hide Linked, Distinct, Nodes, Cursor;
    AllocatedNodes(rest);
    var last := Reparent(m, c, kids);
    LinkAfter(m, c.list, kids, last, c.next);
    LinkedConcat(m, c.list, kids, c.next, rest, null);
    NodesConcat(kids, rest);
    c.next := c.list;
    c.list := null;
  }

  /** last->next = next: lets a list continue with another one. */
  method LinkAfter(m: Menu, first: Menu?, ghost f: Forest<Menu>, last: Menu, next: Menu?)
    requires Linked(m, first, f, null) && Distinct(f) && f != [] && last == f[|f| - 1].id
    modifies last`next
    ensures Linked(m, first, f, next) && last.next == next
  {
    ghost var init, l := f[..|f| - 1], f[|f| - 1..];
    assert f == init + l;
    DistinctConcat(init, l);
    ghost var mid := LinkedSplit(m, first, init, l, null);
    last.next := next;
    assert Linked(m, last, l, next);
    LinkedConcat(m, first, init, mid, l, next);
  }

  // ---------- the walk of conf_write ----------

  /** An entry whose children are being visited, and the siblings that follow it. */
  datatype Frame = Frame(id: Menu, rest: Forest<Menu>)

  function FrameNodes(fs: seq<Frame>): set<Menu> {
    if fs == [] then {} else {fs[0].id} + Nodes(fs[0].rest) + FrameNodes(fs[1..])
  }

  /** The chain of parents, innermost first; the outermost one, the root, has no siblings. */
  ghost predicate Stacked(fs: seq<Frame>)
    reads FrameNodes(fs)
    decreases |fs|
  {
    fs != [] ==>
      && fs[0].id.parent == Top(fs[1..])
      && Linked(Top(fs[1..]), fs[0].id.next, fs[0].rest, null)
      && (fs[1..] == [] ==> fs[0].rest == [])
      && Stacked(fs[1..])
  }

  function Top(fs: seq<Frame>): Menu? {
    if fs == [] then null else fs[0].id
  }

  /** What is left to visit after the current list. */
  function Pending(fs: seq<Frame>): seq<Menu> {
    if fs == [] then [] else Preorder(fs[0].rest) + Pending(fs[1..])
  }

  /** The state of the walk: the cursor stands on the first of the siblings `todo`. */
  ghost predicate Visiting(menu: Menu?, fs: seq<Frame>, todo: Forest<Menu>)
    reads FrameNodes(fs), Nodes(todo)
  {
    if menu == null then todo == [] && Pending(fs) == []
    else fs != [] && Stacked(fs) && todo != [] && Linked(Top(fs), menu, todo, null)
  }

  /** To the first child. */
  lemma StepDown(menu: Menu, fs: seq<Frame>, todo: Forest<Menu>)
    requires Visiting(menu, fs, todo) && menu.list != null
    ensures Visiting(menu.list, [Frame(menu, todo[1..])] + fs, todo[0].kids)
    ensures Preorder(todo) + Pending(fs)
         == [menu] + (Preorder(todo[0].kids) + Pending([Frame(menu, todo[1..])] + fs))
  {
    var fs' := [Frame(menu, todo[1..])] + fs;
    assert fs'[1..] == fs;
    Children(Top(fs), menu, todo);
  }

  lemma Children(up: Menu?, c: Menu, f: Forest<Menu>)
    requires f != [] && Linked(up, c, f, null)
    ensures f[0].id == c && Linked(c, c.list, f[0].kids, null) && Linked(up, c.next, f[1..], null)
    ensures c.list == null <==> f[0].kids == []
    ensures c.next == null <==> f[1..] == []
    ensures Preorder(f) == [c] + (Preorder(f[0].kids) + Preorder(f[1..]))
    ensures f[0].kids == [] ==> Preorder(f[0].kids) == []
    ensures f[1..] == [] ==> Preorder(f[1..]) == []
  {
  }

  /** To the next sibling. */
  lemma StepNext(menu: Menu, fs: seq<Frame>, todo: Forest<Menu>)
    requires Visiting(menu, fs, todo) && menu.list == null && menu.next != null
    ensures Visiting(menu.next, fs, todo[1..])
    ensures Preorder(todo) + Pending(fs) == [menu] + (Preorder(todo[1..]) + Pending(fs))
  {
    hide Preorder, Pending, Linked, Stacked;
    Children(Top(fs), menu, todo);
    Regroup(menu, Preorder(todo[1..]), Pending(fs));
  }

  lemma Regroup(menu: Menu, s: seq<Menu>, t: seq<Menu>)
    ensures [menu] + ([] + s) + t == [menu] + (s + t)
  {
  }

  /** The last of its siblings: the walk climbs. */
  lemma StepUp(menu: Menu, fs: seq<Frame>, todo: Forest<Menu>)
    requires Visiting(menu, fs, todo) && menu.list == null && menu.next == null
    ensures menu.parent == Top(fs) && Stacked(fs)
    ensures Preorder(todo) + Pending(fs) == [menu] + Pending(fs)
  {
    Children(Top(fs), menu, todo);
  }

  /** The loop of conf_write (confdata.c:784-817) from the root's first child: it ends, and visits
      every entry below the root exactly once, in preorder. */
  method Walk(root: Menu, ghost t: Tree<Menu>) returns (visited: seq<Menu>)
    requires Linked(null, root, [t], null)
    ensures visited == Preorder(t.kids)
  {
    hide Preorder, Linked;
    visited := [];
    var menu := root.list;
    ghost var fs, todo := [Frame(root, [])], t.kids;
    StartWalk(root, t);
    while menu != null
      invariant Visiting(menu, fs, todo)
      invariant visited + (Preorder(todo) + Pending(fs)) == Preorder(t.kids)
      decreases |Preorder(todo) + Pending(fs)|
    {
      ghost var before := Preorder(todo) + Pending(fs);
      ghost var visited0 := visited;
      visited := visited + [menu];
      if menu.list != null {
        StepDown(menu, fs, todo);
        fs, todo := [Frame(menu, todo[1..])] + fs, todo[0].kids;
        menu := menu.list;
      } else if menu.next != null {
        StepNext(menu, fs, todo);
        todo := todo[1..];
        menu := menu.next;
      } else {
        StepUp(menu, fs, todo);
        menu := menu.parent;
        menu, fs, todo := Climb(menu, fs);
      }
      assert before == [visited[|visited0|]] + (Preorder(todo) + Pending(fs));
      assert visited0 + before == visited + (Preorder(todo) + Pending(fs));
    }
    assert Preorder<Menu>([]) == [] by { NoEntries(); }
  }

  /** The root has no siblings, and nothing is adopted out of an empty list. */
  lemma RootStaysAlone(t: Tree<Menu>)
    ensures MenuTree.Finalize([t]).rest == []
    ensures MenuTree.Finalize([t]).taken[0].id == t.id
  {
    hide PropagateAll, FinalizeAll, Flatten;
    assert [t][1..] == [];
  }

  lemma SameRoot(s: Tree<Menu>, t: Tree<Menu>)
    requires Preorder([s]) == Preorder([t])
    ensures Preorder(s.kids) == Preorder(t.kids)
  {
    assert Preorder([s]) == [s.id] + Preorder(s.kids) && Preorder([t]) == [t.id] + Preorder(t.kids) by {
      assert [s][1..] == [] && [t][1..] == [];
    }
    assert Preorder(s.kids) == Preorder([s])[1..] && Preorder(t.kids) == Preorder([t])[1..];
  }

  /** menu_finalize on the root and then the loop of conf_write: the entries are visited in the order
      in which they were before, each exactly once. */
  method FinalizeAndWalk(root: Menu, ghost t: Tree<Menu>) returns (visited: seq<Menu>)
    requires Linked(null, root, [t], null) && Distinct([t])
    modifies Nodes([t])
    ensures visited == Preorder(t.kids)
  {
    hide Preorder, Linked, Distinct, Nodes, MenuTree.Finalize;
    RootStaysAlone(t);
    Finalize(root, null, [t]);
    ghost var s := MenuTree.Finalize([t]).taken[0];
    assert [s] + MenuTree.Finalize([t]).rest == [s];
    SameRoot(s, t);
    visited := Walk(root, s);
  }

  lemma NoEntries()
    ensures Preorder<Menu>([]) == []
  {
  }

  lemma StartWalk(root: Menu, t: Tree<Menu>)
    requires Linked(null, root, [t], null)
    ensures Visiting(root.list, [Frame(root, [])], t.kids)
    ensures Pending([Frame(root, [])]) == []
  {
  }

  /** The inner loop: up to the first ancestor, or entry itself, that has a next sibling. */
  method Climb(from: Menu?, ghost stack: seq<Frame>) returns (menu: Menu?, ghost fs: seq<Frame>, ghost todo: Forest<Menu>)
    requires Stacked(stack) && from == Top(stack)
    ensures Visiting(menu, fs, todo)
    ensures Preorder(todo) + Pending(fs) == Pending(stack)
    ensures menu == if Pending(stack) == [] then null else Pending(stack)[0]
  {
    menu, fs, todo := from, stack, [];
    while menu != null
      invariant Stacked(fs) && menu == Top(fs)
      invariant Pending(fs) == Pending(stack)
      decreases |fs|
    {
      if menu.next != null {
        todo, fs := fs[0].rest, fs[1..];
        menu := menu.next;
        return;
      }
      fs := fs[1..];
      menu := menu.parent;
    }
  }
}
