/** Go ranges over a map in an order it does not promise. Two walks of one schema may therefore see
    the children kept in maps in different orders. */
module Orders {
  import opened Wrappers
  import opened Schemas
  import opened Trees

  /** Children that are not kept in maps stay where they are. */
  ghost predicate SamePlaces(s: Tree, t: Tree) {
    && |s.kids| == |t.kids|
    && (forall i :: 0 <= i < |s.kids| && !s.kids[i].link.FromMap() ==> s.kids[i].link == t.kids[i].link)
    && (forall i :: 0 <= i < |s.kids| && s.kids[i].link.FromMap() ==> t.kids[i].link.FromMap())
  }

  /** t is s with the entries of its maps in another order, at every level. */
  ghost predicate Reordered(s: Tree, t: Tree) {
    && s.facts == t.facts
    && SamePlaces(s, t)
    && forall l :: (Follow(s, l).Some? <==> Follow(t, l).Some?)
               && (Follow(s, l).Some? ==> Reordered(Follow(s, l).value, Follow(t, l).value))
  }

  lemma {:induction false} FollowKid(t: Tree, k: Kid)
    requires WellFormed(t) && k in t.kids
    ensures Follow(t, k.link) == Some(k.tree)
  {
    var i :| 0 <= i < |t.kids| && t.kids[i] == k;
    FindAt(t.kids, i);
  }

  lemma {:induction false} FollowWellFormed(t: Tree, l: Link)
    requires WellFormed(t) && Follow(t, l).Some?
    ensures WellFormed(Follow(t, l).value)
  {
  }

  /** Both orders show the same nodes with the same chains. */
  lemma {:induction false} ReorderedNodes(s: Tree, t: Tree, a: Address)
    requires Reordered(s, t) && WellFormed(s) && WellFormed(t)
    ensures Has(s, a) <==> Has(t, a)
    ensures Has(s, a) ==> VisitOf(s, a) == VisitOf(t, a) && FactsAt(s, a) == FactsAt(t, a)
    decreases |a|
  {
    if a != [] {
      if Follow(s, a[0]).Some? {
        FollowWellFormed(s, a[0]);
        FollowWellFormed(t, a[0]);
        ReorderedNodes(Follow(s, a[0]).value, Follow(t, a[0]).value, a[1..]);
      }
    }
  }

  lemma {:induction false} ReorderedWalk(s: Tree, t: Tree, v: Visit)
    requires Reordered(s, t) && WellFormed(s) && WellFormed(t)
    ensures v in Walk(s) <==> v in Walk(t)
  {
    WalkShowsNodes(s, v);
    WalkShowsNodes(t, v);
    ReorderedNodes(s, t, v.addr);
  }

  lemma {:induction false} ReorderedReflexive(t: Tree)
    ensures Reordered(t, t)
  {
    forall l | Follow(t, l).Some? ensures Reordered(Follow(t, l).value, Follow(t, l).value) {
      ReorderedReflexive(Follow(t, l).value);
    }
  }

  /** One range over every map of a schema. The language leaves the order open: callers know only what
      is ensured. */
  method RangeOrder(s: Schema) returns (t: Schema)
    requires WellFormed(TreeOf(s))
    ensures WellFormed(TreeOf(t)) && Reordered(TreeOf(s), TreeOf(t))
  {
    t := s;
    ReorderedReflexive(TreeOf(s));
  }
}
