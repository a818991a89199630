/** Which entries have others below them once menu_finalize is done (menu.c). */
module MenuShape {
  import opened Expressions
  import opened MenuTree

  // ---------- what flattening gives ----------

  /** The entries on the level of `f` after flattening: its own, and those of each entry without a text,
      as they were before. */
  predicate Lifted<M(==)>(f: Forest<M>, n: Tree<M>)
    decreases Count(f)
  {
    f != []
    && (n == f[0]
        || ((f[0].entry.prompt.None? || !f[0].entry.prompt.value.text) && Lifted(f[0].kids, n))
        || Lifted(f[1..], n))
  }

  lemma {:induction false} LiftedConcat<M>(f: Forest<M>, g: Forest<M>, n: Tree<M>)
    ensures Lifted(f + g, n) <==> Lifted(f, n) || Lifted(g, n)
  {
    if f == [] {
      assert f + g == g;
    } else {
      LiftedConcat(f[1..], g, n);
      assert (f + g)[1..] == f[1..] + g;
    }
  }

  /** An entry that has a text stays as it is, with the children it had; any other loses its children. */
  function Kept<M>(n: Tree<M>): Tree<M> {
    if n.entry.prompt.Some? && n.entry.prompt.value.text then n else n.(kids := [])
  }

  lemma {:induction false} FlattenIff<M>(f: Forest<M>, x: Tree<M>)
    ensures x in Flatten(f) <==> exists n :: Lifted(f, n) && x == Kept(n)
    decreases Count(f)
  {
    if f != [] {
      var n := f[0];
      if n.kids != [] && !HasText(n.entry) {
        CountConcat(n.kids, f[1..]);
        FlattenIff(n.kids + f[1..], x);
        forall y ensures Lifted(n.kids + f[1..], y) <==> Lifted(n.kids, y) || Lifted(f[1..], y) {
          LiftedConcat(n.kids, f[1..], y);
        }
        assert Flatten(f) == [Kept(n)] + Flatten(n.kids + f[1..]);
      } else {
        FlattenIff(f[1..], x);
        assert n.kids == [] ==> n.(kids := []) == n;
        assert Flatten(f) == [Kept(n)] + Flatten(f[1..]);
      }
      assert Lifted(f, n);
    }
  }

  // ---------- the finished tree ----------

  /** Every entry that has children has a prompt with a text. */
  predicate OnlyTitledNest<M>(f: Forest<M>) {
    f == []
    || ((f[0].kids != [] ==> f[0].entry.prompt.Some? && f[0].entry.prompt.value.text)
        && OnlyTitledNest(f[0].kids) && OnlyTitledNest(f[1..]))
  }

  /** That holds below the entries of this level. */
  predicate BelowNests<M>(f: Forest<M>) {
    f == [] || (OnlyTitledNest(f[0].kids) && BelowNests(f[1..]))
  }

  lemma {:induction false} NestsMeansBelow<M>(f: Forest<M>)
    requires OnlyTitledNest(f)
    ensures BelowNests(f)
  {
    if f != [] {
      NestsMeansBelow(f[1..]);
    }
  }

  lemma {:induction false} BelowConcat<M>(f: Forest<M>, g: Forest<M>)
    requires BelowNests(f) && BelowNests(g)
    ensures BelowNests(f + g)
  {
    if f == [] {
      assert f + g == g;
    } else {
      BelowConcat(f[1..], g);
      assert (f + g)[1..] == f[1..] + g;
    }
  }

  lemma {:induction false} FlattenNests<M>(f: Forest<M>)
    requires BelowNests(f)
    ensures OnlyTitledNest(Flatten(f))
    decreases Count(f)
  {
    if f != [] {
      if f[0].kids != [] && !HasText(f[0].entry) {
        CountConcat(f[0].kids, f[1..]);
        NestsMeansBelow(f[0].kids);
        BelowConcat(f[0].kids, f[1..]);
        FlattenNests(f[0].kids + f[1..]);
        assert Flatten(f)[1..] == Flatten(f[0].kids + f[1..]);
      } else {
        FlattenNests(f[1..]);
        assert Flatten(f)[1..] == Flatten(f[1..]);
      }
    }
  }

  /** menu_finalize leaves no entry without a text with children, anywhere below the one it is called
      for. */
  lemma {:induction false} FinalizeNests<M>(f: Forest<M>)
    requires f != []
    ensures OnlyTitledNest(Finalize(f).taken[0].kids)
    decreases Count(f), 1
  {
    var n := f[0];
    if n.kids != [] {
      var kids := PropagateAll(ParentDep(n.entry), n.kids);
      PropagateCount(ParentDep(n.entry), n.kids);
      FinalizeAllNests(kids);
      FlattenNests(FinalizeAll(kids));
    } else if n.entry.sym.Some? {
      AdoptAllNests(n.entry, f[1..]);
      FlattenNests(AdoptAll(n.entry, f[1..]).taken);
    }
  }

  lemma {:induction false} FinalizeAllNests<M>(f: Forest<M>)
    ensures BelowNests(FinalizeAll(f))
    decreases Count(f), 2
  {
    if f != [] {
      var s := Finalize(f);
      FinalizeNests(f);
      FinalizeAllNests(s.rest);
      BelowConcat(s.taken, FinalizeAll(s.rest));
    }
  }

  lemma {:induction false} AdoptAllNests<M>(parent: Entry, f: Forest<M>)
    requires parent.sym.Some?
    ensures BelowNests(AdoptAll(parent, f).taken)
    decreases Count(f), 2
  {
    if f != [] && AdoptsEntry(parent, f[0].entry) {
      var s := Finalize(f);
      FinalizeNests(f);
      AdoptAllNests(parent, s.rest);
      BelowConcat(s.taken, AdoptAll(parent, s.rest).taken);
    }
  }

  // ---------- which conditions the entries end up with ----------

  /** Every entry with its fields, in order. */
  function Listing<M>(f: Forest<M>): seq<(M, Entry)> {
    if f == [] then [] else [(f[0].id, f[0].entry)] + Listing(f[0].kids) + Listing(f[1..])
  }

  /** The entries after each has handed down its condition to the entries that the Kconfig file puts below
      it, and these to theirs. */
  function Downward<M>(f: Forest<M>): seq<(M, Entry)>
    decreases Count(f)
  {
    if f == [] then []
    else
      PropagateCount(ParentDep(f[0].entry), f[0].kids);
      [(f[0].id, f[0].entry)] + Downward(PropagateAll(ParentDep(f[0].entry), f[0].kids)) + Downward(f[1..])
  }

  lemma {:induction false} ListingConcat<M>(f: Forest<M>, g: Forest<M>)
    ensures Listing(f + g) == Listing(f) + Listing(g)
  {
    if f == [] {
      assert f + g == g;
    } else {
      assert (f + g)[1..] == f[1..] + g;
      ListingConcat(f[1..], g);
    }
  }

  lemma ListingOne<M>(n: Tree<M>)
    ensures Listing([n]) == [(n.id, n.entry)] + Listing(n.kids)
  {
    assert [n][1..] == [];
  }

  lemma {:induction false} FlattenKeepsListing<M>(f: Forest<M>)
    ensures Listing(Flatten(f)) == Listing(f)
    decreases Count(f)
  {
    if f != [] {
      if f[0].kids != [] && !HasText(f[0].entry) {
        CountConcat(f[0].kids, f[1..]);
        FlattenKeepsListing(f[0].kids + f[1..]);
        ListingConcat(f[0].kids, f[1..]);
        ListingConcat([f[0].(kids := [])], Flatten(f[0].kids + f[1..]));
      } else {
        FlattenKeepsListing(f[1..]);
        ListingConcat([f[0]], Flatten(f[1..]));
      }
    }
  }

  /** Conditions are handed down along the tree as it was written; adoption and flattening change no
      field of any entry. */
  lemma {:induction false} FinalizeListing<M>(f: Forest<M>)
    requires f != []
    ensures Listing(Finalize(f).taken) + Downward(Finalize(f).rest) == Downward(f)
    decreases Count(f), 1
  {
    hide Downward, Listing, Flatten, FinalizeAll, AdoptAll, PropagateAll, Count;
    var n := f[0];
    var s := Finalize(f);
    ListingOne(s.taken[0]);
    assert s.taken == [s.taken[0]];
    if n.kids != [] {
      var kids := PropagateAll(ParentDep(n.entry), n.kids);
      PropagateCount(ParentDep(n.entry), n.kids);
      KidsCount(f);
      FinalizeAllListing(kids);
      FlattenKeepsListing(FinalizeAll(kids));
      KidsDownward(f);
    } else {
      KidsCount(f);
      LeafDownward(f);
      NoListing<M>();
      if n.entry.sym.Some? {
        AdoptAllListing(n.entry, f[1..]);
        FlattenKeepsListing(AdoptAll(n.entry, f[1..]).taken);
      }
    }
  }

  lemma KidsCount<M>(f: Forest<M>)
    requires f != []
    ensures Count(f[0].kids) < Count(f) && Count(f[1..]) < Count(f)
  {
  }

  lemma KidsDownward<M>(f: Forest<M>)
    requires f != []
    ensures Downward(f)
      == [(f[0].id, f[0].entry)] + Downward(PropagateAll(ParentDep(f[0].entry), f[0].kids)) + Downward(f[1..])
  {
  }

  lemma LeafDownward<M>(f: Forest<M>)
    requires f != [] && f[0].kids == []
    ensures Downward(f) == [(f[0].id, f[0].entry)] + Downward(f[1..])
  {
    KidsDownward(f);
    NoListing<M>();
    assert PropagateAll(ParentDep(f[0].entry), f[0].kids) == [];
    hide Downward, Listing, PropagateAll;
  }

  lemma {:induction false} FinalizeAllListing<M>(f: Forest<M>)
    ensures Listing(FinalizeAll(f)) == Downward(f)
    decreases Count(f), 2
  {
    if f != [] {
      hide Downward, Listing, Finalize;
      var s := Finalize(f);
      FinalizeListing(f);
      FinalizeAllListing(s.rest);
      ListingConcat(s.taken, FinalizeAll(s.rest));
    } else {
      NoListing<M>();
    }
  }

  lemma NoListing<M>()
    ensures Listing<M>([]) == [] == Downward<M>([])
  {
  }

  lemma {:induction false} AdoptAllListing<M>(parent: Entry, f: Forest<M>)
    requires parent.sym.Some?
    ensures Listing(AdoptAll(parent, f).taken) + Downward(AdoptAll(parent, f).rest) == Downward(f)
    decreases Count(f), 2
  {
    if f != [] && AdoptsEntry(parent, f[0].entry) {
      AdoptAllStep(parent, f);
      hide Finalize, AdoptAll, Downward, Listing, AdoptsEntry;
      var s := Finalize(f);
      FinalizeListing(f);
      AdoptAllListing(parent, s.rest);
      var t := AdoptAll(parent, s.rest);
      ListingConcat(s.taken, t.taken);
      Regroup(Listing(s.taken), Listing(t.taken), Downward(t.rest));
    } else {
      NoListing<M>();
      assert [] + Downward(f) == Downward(f);
    }
  }

  lemma Regroup<T>(a: seq<T>, b: seq<T>, c: seq<T>)
    ensures (a + b) + c == a + (b + c)
  {
  }
}
