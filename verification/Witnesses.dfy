/** Every reported name is justified: there is a stored object the update breaks. With soundness, the verdict
    of NoNewRequiredFields on names is exactly compatibility. */
module Witnesses {
  import opened Wrappers
  import opened Paths
  import opened Schemas
  import opened Trees
  import opened Addresses
  import opened Walker
  import opened NewlyRequired
  import opened Instances
  import opened RequiredMeaning

  /** The types that may have properties. */
  predicate ObjectLike(typ: string) {
    typ == "object" || typ == ""
  }

  /** A structural schema: items on arrays and nowhere else, properties on objects and on nodes without a type, and
      every required name is a declared property. */
  ghost predicate Typed(t: Tree) {
    && (forall k :: k in t.kids ==>
          if k.link == Items then t.facts.typ == "array" else k.link.Property? && ObjectLike(t.facts.typ))
    && (t.facts.typ == "array" ==> Follow(t, Items).Some?)
    && (forall r :: r in t.facts.required ==> Follow(t, Property(r)).Some?)
    && (forall k :: k in t.kids ==> Typed(k.tree))
  }

  lemma {:induction false} TypedFollow(t: Tree, l: Link)
    requires Typed(t) && Follow(t, l).Some?
    ensures Typed(Follow(t, l).value)
    ensures if l == Items then t.facts.typ == "array" else l.Property? && ObjectLike(t.facts.typ)
  {
    assert Kid(l, Follow(t, l).value) in t.kids;
  }

  lemma {:induction false} TypedAt(t: Tree, a: Address)
    requires Typed(t) && Has(t, a)
    ensures Typed(At(t, a).value)
    decreases |a|
  {
    if a != [] {
      TypedFollow(t, a[0]);
      TypedAt(Follow(t, a[0]).value, a[1..]);
    }
  }

  lemma {:induction false} OnlyObjectsRequire(t: Tree)
    requires Typed(t)
    ensures t.facts.required != [] ==> ObjectLike(t.facts.typ)
  {
    if t.facts.required != [] {
      assert t.facts.required[0] in t.facts.required;
      TypedFollow(t, Property(t.facts.required[0]));
    }
  }

  // ---------------------------------------------------------------- the smallest instance

  /** An object with exactly the required fields, an empty array, or a scalar of the type. */
  ghost function Smallest(t: Tree): (x: Json)
    requires Typed(t)
    ensures x.Obj? <==> ObjectLike(t.facts.typ)
    ensures x.Obj? ==> x.fields.Keys == (set r | r in t.facts.required)
  {
    if ObjectLike(t.facts.typ) then
      Obj(map r | r in t.facts.required :: TypedFollow(t, Property(r)); Smallest(Follow(t, Property(r)).value))
    else if t.facts.typ == "array" then Arr([])
    else Scalar(t.facts.typ)
  }

  lemma {:induction false} SmallestValid(t: Tree)
    requires Typed(t)
    ensures Valid(t, Smallest(t)) && Closed(t, Smallest(t))
  {
    if ObjectLike(t.facts.typ) {
      var fs := Smallest(t).fields;
      forall r | r in fs ensures Fits(t, r, fs[r]) {
        TypedFollow(t, Property(r));
        SmallestValid(Follow(t, Property(r)).value);
      }
    } else {
      OnlyObjectsRequire(t);
    }
  }

  /** A field that fits its declaration. */
  ghost predicate Fits(t: Tree, name: string, x: Json) {
    var c := Follow(t, Property(name));
    c.Some? && Valid(c.value, x) && Closed(c.value, x)
  }

  // ---------------------------------------------------------------- an object the update breaks

  /** x is a stored object under o that fails a required list of n. */
  ghost predicate Breaks(o: Tree, n: Tree, x: Json) {
    Valid(o, x) && Closed(o, x) && !RequiredMet(n, x)
  }

  /** A name newly required at a node of both schemas is missing from the old node's smallest instance. */
  lemma {:induction false} BreaksHere(o: Tree, n: Tree, r: string)
    requires Typed(o) && o.facts.typ == n.facts.typ && ObjectLike(o.facts.typ)
    requires r in n.facts.required && r !in o.facts.required
    ensures Breaks(o, n, Smallest(o))
  {
    SmallestValid(o);
    assert r !in Smallest(o).fields;
  }

  /** An object broken below a node sits in an object broken at the node. */
  lemma BreaksAbove(o: Tree, n: Tree, l: Link, x: Json) returns (y: Json)
    requires Typed(o) && Follow(o, l).Some? && Follow(n, l).Some?
    requires Breaks(Follow(o, l).value, Follow(n, l).value, x)
    ensures Breaks(o, n, y)
  {
    TypedFollow(o, l);
    if l == Items {
      y := Arr([x]);
      assert x in [x];
    } else {
      SmallestValid(o);
      y := Obj(Smallest(o).fields[l.name := x]);
      assert l.name in y.fields;
    }
  }

  lemma {:induction false} BreaksAtRoot(o: Tree, n: Tree, a: Address, x: Json) returns (y: Json)
    requires Typed(o) && Has(o, a) && Has(n, a)
    requires Breaks(At(o, a).value, At(n, a).value, x)
    ensures Breaks(o, n, y)
    decreases |a|
  {
    if a == [] {
      y := x;
    } else {
      TypedFollow(o, a[0]);
      var z := BreaksAtRoot(Follow(o, a[0]).value, Follow(n, a[0]).value, a[1..], x);
      y := BreaksAbove(o, n, a[0], z);
    }
  }

  // ---------------------------------------------------------------- every reported name breaks an object

  /** The part of an address, from the root on, that the old schema declares. */
  lemma {:induction false} LastDeclared(o: Tree, b: Address) returns (i: nat)
    ensures i <= |b| && Has(o, b[..i]) && (i < |b| ==> !Has(o, b[..i + 1]))
  {
    if b == [] || Has(o, b) {
      i := |b|;
      assert b[..|b|] == b;
    } else {
      i := LastDeclared(o, b[..|b| - 1]);
      assert b[..|b| - 1][..i] == b[..i];
      if i < |b| - 1 {
        assert b[..|b| - 1][..i + 1] == b[..i + 1];
      } else {
        assert b[..i + 1] == b;
      }
    }
  }

  lemma ReportedName(o: Tree, n: Tree, b: Address, r: string)
    requires Has(n, b) && r in NamesAt(Some(o), n, b)
    ensures r in FactsAt(n, b).required && (Has(o, b) ==> r !in FactsAt(o, b).required)
  {
  }

  /** The pattern reads the keys of all links on the way. */
  predicate AllRead(a: Address) {
    forall l :: l in a ==> KeyReads(l)
  }

  /** Where a name is reported, the topmost new node on the way, or the name itself, is newly required by a
      node of both schemas. */
  lemma SharedCulprit(o: Tree, n: Tree, b: Address, r: string) returns (p: Address, q: string)
    requires Typed(o) && Typed(n) && SameTypes(o, n) && AllRead(b)
    requires Has(n, b) && r in NamesAt(Some(o), n, b)
    ensures Has(o, p) && Has(n, p)
    ensures q in FactsAt(n, p).required && q !in FactsAt(o, p).required
  {
    hide NamesAt, KeyReads, Unforced, Typed;
    var i := LastDeclared(o, b);
    p := b[..i];
    HasPrefix(n, b, i);
    if i == |b| {
      assert p == b;
      ReportedName(o, n, b, r);
      q := r;
    } else {
      var l := b[i];
      var c := b[..i + 1];
      assert c == p + [l] && c[..|c| - 1] == p && l in b;
      HasPrefix(n, b, i + 1);
      NotOpen(o, n, b, r, i + 1);
      q := CulpritEdge(o, n, p, l);
    }
  }

  /** Where the pattern reads the key, a child that may not be left out has none, or its parent requires it. */
  lemma ForcedKey(n: Tree, p: Address, l: Link)
    requires Has(n, p) && KeyReads(l) && !Unforced(n, p + [l])
    ensures KeyOf(l).Some? ==> KeyOf(l).value in FactsAt(n, p).required
  {
    hide FindLastKey, PathText, KeyReads, KeyOf;
    assert (p + [l])[..|p + [l]| - 1] == p;
    LastKeyOfPath(p + [l]);
  }

  /** A new child that its parent requires: the parent newly requires it, since old required names are declared. */
  lemma CulpritEdge(o: Tree, n: Tree, p: Address, l: Link) returns (q: string)
    requires Typed(o) && Typed(n) && SameTypes(o, n) && Has(o, p) && Has(n, p) && KeyReads(l)
    requires !Has(o, p + [l]) && Has(n, p + [l]) && !Unforced(n, p + [l])
    ensures q in FactsAt(n, p).required && q !in FactsAt(o, p).required
  {
    hide Unforced, KeyReads;
    ForcedKey(n, p, l);
    NextNode(o, p, l);
    NextNode(n, p, l);
    TypedAt(o, p);
    TypedAt(n, p);
    TypedFollow(At(n, p).value, l);
    assert FactsAt(o, p).typ == FactsAt(n, p).typ;
    q := l.name;
  }

  /** No node on the way to a reported name may be left out. */
  lemma NotOpen(o: Tree, n: Tree, b: Address, r: string, i: nat)
    requires Has(n, b) && r in NamesAt(Some(o), n, b)
    requires 0 < i <= |b| && Has(n, b[..i]) && !Has(o, b[..i])
    ensures !Unforced(n, b[..i])
  {
    if i < |b| {
      assert !OpensAbove(Some(o), n, b, i);
    } else {
      assert b[..i] == b;
    }
  }

  /** One step is complete: every reported name has a stored object that the update makes invalid, if the pattern reads
      the keys on the way to it. */
  lemma ReportBreaks(o: Tree, n: Tree, b: Address, r: string) returns (x: Json)
    requires Typed(o) && Typed(n) && SameTypes(o, n) && AllRead(b)
    requires Has(n, b) && r in NamesAt(Some(o), n, b)
    ensures Breaks(o, n, x)
  {
    hide NamesAt, AllRead, Typed, SameTypes, Breaks;
    var p, q := SharedCulprit(o, n, b, r);
    x := ListBreaks(o, n, p, q);
  }

  /** A name newly required at a shared node breaks a stored object. */
  lemma ListBreaks(o: Tree, n: Tree, p: Address, q: string) returns (x: Json)
    requires Typed(o) && Typed(n) && SameTypes(o, n) && Has(o, p) && Has(n, p)
    requires q in FactsAt(n, p).required && q !in FactsAt(o, p).required
    ensures Breaks(o, n, x)
  {
    TypedAt(o, p);
    TypedAt(n, p);
    OnlyObjectsRequire(At(n, p).value);
    assert FactsAt(o, p).typ == FactsAt(n, p).typ;
    BreaksHere(At(o, p).value, At(n, p).value, q);
    x := BreaksAtRoot(o, n, p, Smallest(At(o, p).value));
  }

  // ---------------------------------------------------------------- the verdict is compatibility

  /** Every stored object of the old schema is valid under the new one. */
  ghost predicate Compatible(o: Tree, n: Tree) {
    forall x :: Valid(o, x) && Closed(o, x) ==> Valid(n, x)
  }

  /** Between structural schemas whose shared nodes keep their types, every stored object stays valid exactly when
      shared nodes keep their required lists. */
  lemma {:induction false} ListsExactlyCompatible(o: Tree, n: Tree)
    requires Typed(o) && Typed(n) && SameTypes(o, n)
    ensures KeepsLists(o, n) <==> Compatible(o, n)
  {
    hide Typed;
    if KeepsLists(o, n) {
      forall x | Valid(o, x) && Closed(o, x) ensures Valid(n, x) {
        Sound(o, n, x);
        StaysValid(o, n, [], x);
      }
    }
    if a, r :| Has(o, a) && Has(n, a) && FactsAt(n, a).typ != "array" &&
               r in FactsAt(n, a).required && r !in FactsAt(o, a).required {
      var x := ListBreaks(o, n, a, r);
      if Valid(n, x) {
        ValidMeetsRequired(n, x);
      }
    }
  }

  /** No name is reported exactly when every stored object stays valid and every new node that requires something is
      excused. */
  lemma {:induction false} NamesExactlyIncompatible(o: Tree, n: Tree)
    requires Typed(o) && Typed(n) && SameTypes(o, n)
    ensures NoNames(o, n) <==> Compatible(o, n) && NewExcused(o, n)
  {
    hide Typed, SameTypes, Compatible, KeepsLists, NewExcused, NoNames;
    ListsExactlyCompatible(o, n);
    NoNamesExactly(o, n);
  }

  /** The pattern reads every key of the schema: no name is empty or contains ']', and a '[' stands before the last
      character of a name only after a line break. */
  ghost predicate KeysRead(n: Tree) {
    forall a :: Has(n, a) ==> AllRead(a)
  }

  /** If it does, compatibility alone excuses every new node: nothing can be required of objects that have no such
      node. */
  lemma {:induction false} CompatibleExcuses(o: Tree, n: Tree)
    requires Typed(o) && Typed(n) && SameTypes(o, n) && KeepsLists(o, n) && KeysRead(n)
    ensures NewExcused(o, n)
  {
    hide Typed, SameTypes, NamesAt, Excused, AllRead;
    forall b | Has(n, b) && !Has(o, b) ensures Excused(o, n, b) {
      NewNames(o, n, b);
      if r :| r in NamesAt(Some(o), n, b) {
        var p, q := SharedCulprit(o, n, b, r);
        OnlyOtherNodesRequire(n, p);
      }
    }
  }

  lemma {:induction false} OnlyOtherNodesRequire(n: Tree, p: Address)
    requires Typed(n) && Has(n, p) && FactsAt(n, p).required != []
    ensures FactsAt(n, p).typ != "array"
  {
    TypedAt(n, p);
    OnlyObjectsRequire(At(n, p).value);
  }

  ghost predicate NoArrayMinimum(n: Tree) {
    forall a :: Has(n, a) ==> !SetsMinimum(FactsAt(n, a))
  }

  /** No array is reported for its minimum length. */
  ghost predicate NoArrays(o: Tree, n: Tree) {
    forall a :: Has(n, a) ==> !ArrayAt(Some(o), n, a)
  }

  lemma {:induction false} ArraysShow(o: Tree, n: Tree, a: Address)
    requires WellFormed(n) && Has(n, a)
    ensures ArrayAt(Some(o), n, a) ==> Findings(Some(o), Some(n)) != {}
  {
    if ArrayAt(Some(o), n, a) {
      var v := VisitOf(n, a);
      WalkShowsNodes(n, v);
      assert v in Nodes(Some(n));
      assert LocationText(a) in FindingsAt(Some(o), n, v.addr);
      assert LocationText(a) in Findings(Some(o), Some(n));
    }
  }

  lemma {:induction false} FoundNamesAndArrays(o: Tree, n: Tree)
    requires WellFormed(n)
    ensures Findings(Some(o), Some(n)) == {} <==> NoNames(o, n) && NoArrays(o, n)
  {
    if Findings(Some(o), Some(n)) == {} {
      NothingFoundNoNames(o, n);
      forall a | Has(n, a) ensures !ArrayAt(Some(o), n, a) {
        ArraysShow(o, n, a);
      }
    }
    if NoNames(o, n) && NoArrays(o, n) {
      forall v | v in Nodes(Some(n)) ensures FindingsAt(Some(o), n, v.addr) == {} {
      }
    }
  }

  /** The comparator's verdict, in whatever orders its three walks see two trees without shared paths, and whatever the
      names: nothing is reported exactly when every stored object stays valid, no array is held against its minLength,
      a keyword that constrains no array, and every new node that requires something is excused by a key the pattern
      reads. */
  lemma {:induction false} VerdictExactly(os: seq<Visit>, ns: seq<Visit>, cs: seq<Visit>, o: Tree, n: Tree)
    requires WalkOf(os, Some(o)) && WalkOf(ns, Some(n)) && WalkOf(cs, Some(n)) && DistinctPaths(Some(o), Some(n))
    requires Typed(o) && Typed(n) && SameTypes(o, n)
    ensures PassesReport(os, ns, cs) == {} <==> Compatible(o, n) && NoArrays(o, n) && NewExcused(o, n)
  {
    hide PassesReport, Findings, Compatible, Typed, DistinctPaths, NewExcused, NoNames, NoArrays;
    PassesFind(os, ns, cs, Some(o), Some(n));
    FoundNamesAndArrays(o, n);
    NamesExactlyIncompatible(o, n);
  }

  /** Without array minimums, and where the pattern reads the keys, the verdict is compatibility. */
  lemma {:induction false} VerdictIsCompatibility(os: seq<Visit>, ns: seq<Visit>, cs: seq<Visit>, o: Tree, n: Tree)
    requires WalkOf(os, Some(o)) && WalkOf(ns, Some(n)) && WalkOf(cs, Some(n)) && DistinctPaths(Some(o), Some(n))
    requires Typed(o) && Typed(n) && SameTypes(o, n) && NoArrayMinimum(n) && KeysRead(n)
    ensures PassesReport(os, ns, cs) == {} <==> Compatible(o, n)
  {
    hide PassesReport, Compatible, Typed, DistinctPaths, NewExcused, KeysRead, KeepsLists;
    VerdictExactly(os, ns, cs, o, n);
    ListsExactlyCompatible(o, n);
    if KeepsLists(o, n) {
      CompatibleExcuses(o, n);
    }
  }
}
