/** What the verdict of NoNewRequiredFields means for stored objects. */
module RequiredMeaning {
  import opened Wrappers
  import opened Schemas
  import opened Trees
  import opened Addresses
  import opened Callbacks
  import opened Walker
  import opened NewlyRequired
  import opened Instances

  /** No name is reported; arrays with a minimum length are reported apart from names. */
  ghost predicate NoNames(o: Tree, n: Tree) {
    forall a :: Has(n, a) ==> NamesAt(Some(o), n, a) == {}
  }

  ghost predicate SameTypes(o: Tree, n: Tree) {
    forall a :: Has(o, a) && Has(n, a) ==> FactsAt(o, a).typ == FactsAt(n, a).typ
  }

  /** Every old node is still there. */
  ghost predicate Keeps(o: Tree, n: Tree) {
    forall a :: Has(o, a) ==> Has(n, a)
  }

  lemma {:induction false} NamesShow(o: Tree, n: Tree, a: Address)
    requires WellFormed(n) && Has(n, a)
    ensures NamesAt(Some(o), n, a) != {} ==> Findings(Some(o), Some(n)) != {}
  {
    if r :| r in NamesAt(Some(o), n, a) {
      var v := VisitOf(n, a);
      WalkShowsNodes(n, v);
      assert v in Nodes(Some(n));
      var f := LocationText(a) + "." + r;
      assert f in FindingsAt(Some(o), n, v.addr);
      assert f in Findings(Some(o), Some(n));
    }
  }

  lemma {:induction false} NothingFoundNoNames(o: Tree, n: Tree)
    requires WellFormed(n) && Findings(Some(o), Some(n)) == {}
    ensures NoNames(o, n)
  {
    forall a | Has(n, a) ensures NamesAt(Some(o), n, a) == {} {
      NamesShow(o, n, a);
    }
  }

  // ---------------------------------------------------------------- soundness

  lemma {:induction false} NextNode(t: Tree, a: Address, l: Link)
    requires Has(t, a)
    ensures At(t, a + [l]) == Follow(At(t, a).value, l)
  {
    AtAppend(t, a, [l]);
    var c := Follow(At(t, a).value, l);
    assert [l][1..] == [];
    assert At(At(t, a).value, [l]) == if c.None? then None else At(c.value, [l][1..]);
  }

  /** At a node both schemas declare, only names the old one required are required; arrays impose none. */
  ghost predicate KeepsLists(o: Tree, n: Tree) {
    forall a :: Has(o, a) && Has(n, a) ==> KeepsList(FactsAt(o, a), FactsAt(n, a))
  }

  predicate KeepsList(f: Facts, g: Facts) {
    g.typ != "array" ==> forall r :: r in g.required ==> r in f.required
  }

  /** The report excuses a new node that requires something: on the way to it, or at it, the pattern reads a key that
      the parent does not require. */
  ghost predicate Excused(o: Tree, n: Tree, a: Address)
    requires Has(n, a)
  {
    FactsAt(n, a).typ == "array" || FactsAt(n, a).required == [] || Opens(Some(o), n, a) || Gated(Some(o), n, a)
  }

  ghost predicate NewExcused(o: Tree, n: Tree) {
    forall a :: Has(n, a) && !Has(o, a) ==> Excused(o, n, a)
  }

  /** Every ancestor of a shared node is shared, so nothing excuses what it newly requires. */
  lemma SharedNames(o: Tree, n: Tree, a: Address)
    requires Has(o, a) && Has(n, a)
    ensures NamesAt(Some(o), n, a) == {} <==> KeepsList(FactsAt(o, a), FactsAt(n, a))
  {
    hide Unforced;
    forall i: nat ensures !OpensAbove(Some(o), n, a, i) {
      if i < |a| {
        HasPrefix(o, a, i);
      }
    }
    assert !Gated(Some(o), n, a);
    assert RequiredAt(Some(n), a) == SetOf(FactsAt(n, a).required);
    assert RequiredAt(Some(o), a) == SetOf(FactsAt(o, a).required);
    if FactsAt(n, a).typ != "array" && NamesAt(Some(o), n, a) == {} {
      forall r | r in FactsAt(n, a).required ensures r in FactsAt(o, a).required {
        assert r in RequiredAt(Some(n), a);
        assert r !in RequiredAt(Some(n), a) - RequiredAt(Some(o), a);
      }
    }
  }

  lemma NewNames(o: Tree, n: Tree, a: Address)
    requires !Has(o, a) && Has(n, a)
    ensures NamesAt(Some(o), n, a) == {} <==> Excused(o, n, a)
  {
    hide Unforced, Gated;
    var required := FactsAt(n, a).required;
    assert RequiredAt(Some(o), a) == {} && RequiredAt(Some(n), a) == SetOf(required);
    var names := RequiredAt(Some(n), a) - RequiredAt(Some(o), a);
    if required != [] {
      assert required[0] in names;
    } else {
      assert names == {};
    }
  }

  /** No name is reported exactly when shared nodes keep their lists and every new node that requires something is
      excused. */
  lemma NoNamesExactly(o: Tree, n: Tree)
    ensures NoNames(o, n) <==> KeepsLists(o, n) && NewExcused(o, n)
  {
    hide NamesAt, Excused, KeepsList;
    forall a | Has(n, a)
      ensures NamesAt(Some(o), n, a) == {} <==>
        if Has(o, a) then KeepsList(FactsAt(o, a), FactsAt(n, a)) else Excused(o, n, a)
    {
      if Has(o, a) {
        SharedNames(o, n, a);
      } else {
        NewNames(o, n, a);
      }
    }
  }

  /** Every old object made of declared fields meets every required list it reaches in the new schema. */
  lemma {:induction false} SoundAt(o: Tree, n: Tree, a: Address, x: Json)
    requires KeepsLists(o, n) && Has(o, a) && Has(n, a)
    requires Valid(At(o, a).value, x) && Closed(At(o, a).value, x)
    ensures RequiredMet(At(n, a).value, x)
    decreases x
  {
    var p, q := At(o, a).value, At(n, a).value;
    match x
    case Scalar(_) =>
    case Arr(es) =>
      NextNode(o, a, Items);
      NextNode(n, a, Items);
      if Follow(q, Items).Some? {
        forall e | e in es ensures RequiredMet(Follow(q, Items).value, e) {
          SoundAt(o, n, a + [Items], e);
        }
      }
    case Obj(fs) =>
      assert FactsAt(o, a) == p.facts && FactsAt(n, a) == q.facts;
      forall f | f in fs && Follow(q, Property(f)).Some?
        ensures RequiredMet(Follow(q, Property(f)).value, fs[f])
      {
        NextNode(o, a, Property(f));
        NextNode(n, a, Property(f));
        SoundAt(o, n, a + [Property(f)], fs[f]);
      }
  }

  /** One step is sound: an update without newly required names breaks no stored object. */
  lemma {:induction false} Sound(o: Tree, n: Tree, x: Json)
    requires KeepsLists(o, n) && Valid(o, x) && Closed(o, x)
    ensures RequiredMet(n, x)
  {
    SoundAt(o, n, [], x);
  }

  /** Of the walks themselves, in whatever orders, and whatever the names: where no two nodes share a path and nothing
      is reported, every object that was valid and made of declared fields meets every required list it reaches. */
  lemma {:induction false} SilentIsSound(os: seq<Visit>, ns: seq<Visit>, cs: seq<Visit>, o: Tree, n: Tree, x: Json)
    requires WalkOf(os, Some(o)) && WalkOf(ns, Some(n)) && WalkOf(cs, Some(n)) && DistinctPaths(Some(o), Some(n))
    requires PassesReport(os, ns, cs) == {} && Valid(o, x) && Closed(o, x)
    ensures RequiredMet(n, x)
  {
    hide PassesReport, DistinctPaths, Findings, KeepsLists, NewExcused, NoNames, Valid, Closed, RequiredMet;
    PassesFind(os, ns, cs, Some(o), Some(n));
    NothingFoundNoNames(o, n);
    NoNamesExactly(o, n);
    Sound(o, n, x);
  }

  /** If types agree as well, the object stays valid, type and all. */
  lemma {:induction false} StaysValid(o: Tree, n: Tree, a: Address, x: Json)
    requires SameTypes(o, n) && Has(o, a) && Has(n, a)
    requires Valid(At(o, a).value, x) && Closed(At(o, a).value, x) && RequiredMet(At(n, a).value, x)
    ensures Valid(At(n, a).value, x)
    decreases x
  {
    var p, q := At(o, a).value, At(n, a).value;
    assert p.facts.typ == q.facts.typ;
    match x
    case Scalar(_) =>
    case Arr(es) =>
      NextNode(o, a, Items);
      NextNode(n, a, Items);
      if Follow(q, Items).Some? {
        forall e | e in es ensures Valid(Follow(q, Items).value, e) {
          StaysValid(o, n, a + [Items], e);
        }
      }
    case Obj(fs) =>
      forall f | f in fs && Follow(q, Property(f)).Some?
        ensures Valid(Follow(q, Property(f)).value, fs[f])
      {
        NextNode(o, a, Property(f));
        NextNode(n, a, Property(f));
        StaysValid(o, n, a + [Property(f)], fs[f]);
      }
  }

  lemma {:induction false} StaysClosed(o: Tree, n: Tree, a: Address, x: Json)
    requires Keeps(o, n) && Has(o, a) && Closed(At(o, a).value, x)
    ensures Has(n, a) && Closed(At(n, a).value, x)
    decreases x
  {
    match x
    case Scalar(_) =>
    case Arr(es) =>
      NextNode(o, a, Items);
      NextNode(n, a, Items);
      forall e | e in es ensures Follow(At(n, a).value, Items).Some? && Closed(Follow(At(n, a).value, Items).value, e) {
        StaysClosed(o, n, a + [Items], e);
      }
    case Obj(fs) =>
      forall f | f in fs
        ensures Follow(At(n, a).value, Property(f)).Some?
        ensures Closed(Follow(At(n, a).value, Property(f)).value, fs[f])
      {
        NextNode(o, a, Property(f));
        NextNode(n, a, Property(f));
        StaysClosed(o, n, a + [Property(f)], fs[f]);
      }
  }
}
