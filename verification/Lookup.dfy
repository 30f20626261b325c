/** Which nodes a walk visits and in which order, read off the fields of the schema alone. */
module Lookup {
  import opened Wrappers
  import opened Schemas
  import opened Trees

  // ---------------------------------------------------------------- the children of one schema

  /** Which of the twelve blocks of SchemaHas descends over a link; the two parts of items share the first. */
  function KindOf(l: Link): nat {
    match l
    case Items => 0
    case ItemsAt(_) => 0
    case AllOf(_) => 1
    case AnyOf(_) => 2
    case OneOf(_) => 3
    case Not => 4
    case Property(_) => 5
    case AdditionalProperties => 6
    case Pattern(_) => 7
    case AdditionalItems => 8
    case Definition(_) => 9
    case Dependency(_) => 10
  }

  /** By the fields of s: the link leads to c, which stands at place p of its field. */
  predicate ChildAt(s: Schema, l: Link, c: Schema, p: nat) {
    match l
    case Items => p == 0 && s.items.Some? && s.items.value.schema == Some(c)
    case ItemsAt(i) =>
      p == i + 1 && s.items.Some? && i < |s.items.value.jsonSchemas| && s.items.value.jsonSchemas[i] == c
    case AllOf(i) => p == i < |s.allOf| && s.allOf[i] == c
    case AnyOf(i) => p == i < |s.anyOf| && s.anyOf[i] == c
    case OneOf(i) => p == i < |s.oneOf| && s.oneOf[i] == c
    case Not => p == 0 && s.not == Some(c)
    case Property(n) => p < |s.properties| && s.properties[p] == Entry(n, c)
    case AdditionalProperties =>
      p == 0 && s.additionalProperties.Some? && s.additionalProperties.value.schema == Some(c)
    case Pattern(n) => p < |s.patternProperties| && s.patternProperties[p] == Entry(n, c)
    case AdditionalItems => p == 0 && s.additionalItems.Some? && s.additionalItems.value.schema == Some(c)
    case Definition(n) => p < |s.definitions| && s.definitions[p] == Entry(n, c)
    case Dependency(n) => p < |s.dependencies| && s.dependencies[p] == OptionalEntry(n, Some(c))
  }

  ghost predicate IsChild(s: Schema, l: Link, c: Schema) {
    exists p: nat :: ChildAt(s, l, c, p)
  }

  /** The first edge comes before the second: its block does, or it stands before it in the same field. */
  ghost predicate Before(s: Schema, e: Edge, f: Edge) {
    exists p: nat, q: nat :: ChildAt(s, e.link, e.child, p) && ChildAt(s, f.link, f.child, q) &&
      (KindOf(e.link) < KindOf(f.link) || (KindOf(e.link) == KindOf(f.link) && p < q))
  }

  /** The edges es are those of one block, in the order of their field. */
  ghost predicate BlockListed(s: Schema, k: nat, es: seq<Edge>) {
    && (forall e: Edge :: e in es <==> KindOf(e.link) == k && IsChild(s, e.link, e.child))
    && (forall i, j :: 0 <= i < j < |es| ==> Before(s, es[i], es[j]))
  }

  lemma ItemsListed(s: Schema)
    ensures BlockListed(s, 0, Block(s, 0))
  {
    var es := Block(s, 0);
    if s.items.Some? {
      var first := if s.items.value.schema.Some? then 1 else 0;
      forall i | 0 <= i < |es|
        ensures ChildAt(s, es[i].link, es[i].child, i + 1 - first) && KindOf(es[i].link) == 0
      {
      }
      forall e: Edge | KindOf(e.link) == 0 && IsChild(s, e.link, e.child) ensures e in es {
        var p: nat :| ChildAt(s, e.link, e.child, p);
        assert if e.link.Items? then es[0] == e else es[p - 1 + first] == e;
      }
      forall i, j | 0 <= i < j < |es| ensures Before(s, es[i], es[j]) {
        assert ChildAt(s, es[i].link, es[i].child, i + 1 - first) && ChildAt(s, es[j].link, es[j].child, j + 1 - first);
      }
    }
  }

  lemma IndexedListed(s: Schema, k: nat)
    requires 1 <= k <= 3
    ensures BlockListed(s, k, Block(s, k))
  {
    var es := Block(s, k);
    forall i | 0 <= i < |es| ensures ChildAt(s, es[i].link, es[i].child, i) && KindOf(es[i].link) == k {
    }
    forall e: Edge | KindOf(e.link) == k && IsChild(s, e.link, e.child) ensures e in es {
      var p: nat :| ChildAt(s, e.link, e.child, p);
      assert es[p] == e;
    }
    forall i, j | 0 <= i < j < |es| ensures Before(s, es[i], es[j]) {
      assert ChildAt(s, es[i].link, es[i].child, i) && ChildAt(s, es[j].link, es[j].child, j);
    }
  }

  lemma NamedListed(s: Schema, k: nat)
    requires k == 5 || k == 7 || k == 9
    ensures BlockListed(s, k, Block(s, k))
  {
    var es := Block(s, k);
    forall i | 0 <= i < |es| ensures ChildAt(s, es[i].link, es[i].child, i) && KindOf(es[i].link) == k {
    }
    forall e: Edge | KindOf(e.link) == k && IsChild(s, e.link, e.child) ensures e in es {
      var p: nat :| ChildAt(s, e.link, e.child, p);
      assert es[p] == e;
    }
    forall i, j | 0 <= i < j < |es| ensures Before(s, es[i], es[j]) {
      assert ChildAt(s, es[i].link, es[i].child, i) && ChildAt(s, es[j].link, es[j].child, j);
    }
  }

  lemma SingleListed(s: Schema, k: nat)
    requires k == 4 || k == 6 || k == 8
    ensures BlockListed(s, k, Block(s, k))
  {
    var es := Block(s, k);
    assert |es| <= 1;
    if |es| == 1 {
      assert ChildAt(s, es[0].link, es[0].child, 0) && KindOf(es[0].link) == k;
    }
    forall e: Edge | KindOf(e.link) == k && IsChild(s, e.link, e.child) ensures e in es {
      assert ChildAt(s, e.link, e.child, 0);
      assert es == [e];
    }
  }

  /** Where the dependency of edge i stands; those without a schema have no edge. */
  lemma {:induction false} DependencyPlace(entries: seq<OptionalEntry>, i: nat) returns (p: nat)
    requires i < |DependencyEdges(entries)|
    ensures p < |entries| && entries[p].schema.Some?
    ensures DependencyEdges(entries)[i] == Edge(Dependency(entries[p].name), entries[p].schema.value)
    decreases |entries|
  {
    var first := if entries[0].schema.Some? then 1 else 0;
    if i < first {
      p := 0;
    } else {
      p := DependencyPlace(entries[1..], i - first);
      p := p + 1;
    }
  }

  lemma {:induction false} DependencyPlaces(entries: seq<OptionalEntry>, i: nat, j: nat) returns (p: nat, q: nat)
    requires i < j < |DependencyEdges(entries)|
    ensures p < q < |entries| && entries[p].schema.Some? && entries[q].schema.Some?
    ensures DependencyEdges(entries)[i] == Edge(Dependency(entries[p].name), entries[p].schema.value)
    ensures DependencyEdges(entries)[j] == Edge(Dependency(entries[q].name), entries[q].schema.value)
    decreases |entries|
  {
    var first := if entries[0].schema.Some? then 1 else 0;
    if i < first {
      p := 0;
      q := DependencyPlace(entries[1..], j - first);
      q := q + 1;
    } else {
      p, q := DependencyPlaces(entries[1..], i - first, j - first);
      p, q := p + 1, q + 1;
    }
  }

  lemma {:induction false} DependencyListed(entries: seq<OptionalEntry>, p: nat)
    requires p < |entries| && entries[p].schema.Some?
    ensures Edge(Dependency(entries[p].name), entries[p].schema.value) in DependencyEdges(entries)
    decreases |entries|
  {
    if p > 0 {
      DependencyListed(entries[1..], p - 1);
    }
  }

  lemma {:induction false} DependenciesListed(s: Schema)
    ensures BlockListed(s, 10, Block(s, 10))
  {
    hide DependencyEdges;
    var es := Block(s, 10);
    assert es == DependencyEdges(s.dependencies);
    forall e | e in es ensures KindOf(e.link) == 10 && IsChild(s, e.link, e.child) {
      var i :| 0 <= i < |es| && es[i] == e;
      var p := DependencyPlace(s.dependencies, i);
      assert ChildAt(s, e.link, e.child, p);
    }
    forall e: Edge | KindOf(e.link) == 10 && IsChild(s, e.link, e.child) ensures e in es {
      var p: nat :| ChildAt(s, e.link, e.child, p);
      DependencyListed(s.dependencies, p);
    }
    forall i, j | 0 <= i < j < |es| ensures Before(s, es[i], es[j]) {
      var p, q := DependencyPlaces(s.dependencies, i, j);
      assert ChildAt(s, es[i].link, es[i].child, p) && ChildAt(s, es[j].link, es[j].child, q);
    }
  }

  lemma EveryBlockListed(s: Schema, k: nat)
    requires k < KINDS
    ensures BlockListed(s, k, Block(s, k))
  {
    hide Block, BlockListed;
    if k == 0 {
      ItemsListed(s);
    } else if k <= 3 {
      IndexedListed(s, k);
    } else if k == 4 || k == 6 || k == 8 {
      SingleListed(s, k);
    } else if k < 10 {
      NamedListed(s, k);
    } else {
      DependenciesListed(s);
    }
  }

  lemma {:induction false} EdgesFromListed(s: Schema, k: nat)
    requires k <= KINDS
    ensures forall e: Edge :: e in EdgesFrom(s, k) <==> k <= KindOf(e.link) && IsChild(s, e.link, e.child)
    ensures forall i, j :: 0 <= i < j < |EdgesFrom(s, k)| ==> Before(s, EdgesFrom(s, k)[i], EdgesFrom(s, k)[j])
    decreases KINDS - k
  {
    hide Block, IsChild, Before;
    if k < KINDS {
      EveryBlockListed(s, k);
      EdgesFromListed(s, k + 1);
      var es, rest := Block(s, k), EdgesFrom(s, k + 1);
      forall i, j | 0 <= i < |es| && 0 <= j < |rest| ensures Before(s, es[i], rest[j]) {
        assert es[i] in es && rest[j] in rest;
        BlocksInOrder(s, es[i], rest[j]);
      }
    }
  }

  lemma BlocksInOrder(s: Schema, e: Edge, f: Edge)
    requires IsChild(s, e.link, e.child) && IsChild(s, f.link, f.child) && KindOf(e.link) < KindOf(f.link)
    ensures Before(s, e, f)
  {
    hide ChildAt;
  }

  /** The children a walk descends into are exactly those of the twelve fields, block after block, each block in the
      order of its field. */
  lemma {:induction false} EdgesExactly(s: Schema)
    ensures forall l, c :: Edge(l, c) in Edges(s) <==> IsChild(s, l, c)
    ensures forall i, j :: 0 <= i < j < |Edges(s)| ==> Before(s, Edges(s)[i], Edges(s)[j])
  {
    hide IsChild, Before;
    EdgesFromListed(s, 0);
  }

  // ---------------------------------------------------------------- the nodes of a schema

  /** From s the links of the address lead to c. */
  ghost predicate Leads(s: Schema, a: Address, c: Schema)
    decreases |a|
  {
    if a == [] then c == s else exists d :: IsChild(s, a[0], d) && Leads(d, a[1..], c)
  }

  /** The facts are what the schema says, keyword by keyword. */
  predicate Says(f: Facts, c: Schema) {
    && f.typ == c.typ && f.required == c.required && f.enums == c.enums
    && f.minLength == c.minLength && f.maxLength == c.maxLength
    && f.maxItems == c.maxItems && f.maxProperties == c.maxProperties
    && f.rules == c.rules && f.rest == c.rest
    && (f.hasAdditionalProperties <==> c.additionalProperties.Some?)
  }

  lemma {:induction false} FollowExactly(s: Schema, l: Link, c: Schema)
    requires WellFormed(TreeOf(s)) && IsChild(s, l, c)
    ensures Follow(TreeOf(s), l) == Some(TreeOf(c)) && WellFormed(TreeOf(c))
  {
    hide IsChild;
    EdgesExactly(s);
    var i :| 0 <= i < |Edges(s)| && Edges(s)[i] == Edge(l, c);
    var t := TreeOf(s);
    assert t.kids[i] == Kid(l, TreeOf(c));
    FindAt(t.kids, i);
  }

  lemma {:induction false} FollowedIsChild(s: Schema, l: Link) returns (c: Schema)
    requires Follow(TreeOf(s), l).Some?
    ensures IsChild(s, l, c) && Follow(TreeOf(s), l) == Some(TreeOf(c))
  {
    hide IsChild;
    EdgesExactly(s);
    var t := TreeOf(s);
    var i :| 0 <= i < |t.kids| && t.kids[i] == Kid(l, Follow(t, l).value);
    c := Edges(s)[i].child;
    assert Edges(s)[i] == Edge(l, c);
  }

  lemma {:induction false} LeadsToNode(s: Schema, a: Address, c: Schema)
    requires WellFormed(TreeOf(s)) && Leads(s, a, c)
    ensures At(TreeOf(s), a) == Some(TreeOf(c))
    decreases |a|
  {
    hide IsChild, TreeOf;
    if a != [] {
      var d :| IsChild(s, a[0], d) && Leads(d, a[1..], c);
      FollowExactly(s, a[0], d);
      LeadsToNode(d, a[1..], c);
    }
  }

  lemma {:induction false} NodeIsLedTo(s: Schema, a: Address) returns (c: Schema)
    requires WellFormed(TreeOf(s)) && Has(TreeOf(s), a)
    ensures Leads(s, a, c)
    decreases |a|
  {
    hide IsChild, TreeOf;
    if a == [] {
      c := s;
    } else {
      var d := FollowedIsChild(s, a[0]);
      FollowExactly(s, a[0], d);
      c := NodeIsLedTo(d, a[1..]);
    }
  }

  /** The nodes a walk visits are those that links lead to, and every one shows what its schema says. */
  lemma {:induction false} NodesExactly(s: Schema, a: Address)
    requires WellFormed(TreeOf(s))
    ensures Has(TreeOf(s), a) <==> exists c :: Leads(s, a, c)
    ensures forall c :: Leads(s, a, c) ==> Has(TreeOf(s), a) && Says(FactsAt(TreeOf(s), a), c)
  {
    hide Leads;
    if Has(TreeOf(s), a) {
      var c := NodeIsLedTo(s, a);
    }
    forall c | Leads(s, a, c) ensures Has(TreeOf(s), a) && Says(FactsAt(TreeOf(s), a), c) {
      LeadsToNode(s, a, c);
    }
  }

  /** A visit of the walk shows, at every depth, the schema there. */
  lemma {:induction false} VisitShows(s: Schema, v: Visit, i: nat)
    requires WellFormed(TreeOf(s)) && v in Walk(TreeOf(s)) && i <= |v.addr|
    ensures v.Valid() && exists c :: Leads(s, v.addr[..i], c) && Says(v.chain[i], c)
  {
    hide Leads, Says, TreeOf, WellFormed, Has, At;
    var t := TreeOf(s);
    WalkShowsNodes(t, v);
    ChainToAt(t, v.addr, i);
    NodesExactly(s, v.addr[..i]);
  }

  /** Every schema that links lead to is visited. */
  lemma {:induction false} LedToVisited(s: Schema, a: Address, c: Schema)
    requires WellFormed(TreeOf(s)) && Leads(s, a, c)
    ensures exists v :: v in Walk(TreeOf(s)) && v.addr == a
  {
    hide Leads, Says, TreeOf, WellFormed;
    NodesExactly(s, a);
    WalkShowsNodes(TreeOf(s), VisitOf(TreeOf(s), a));
  }

  // ---------------------------------------------------------------- the order of visits

  /** Depth first, parents before their children, siblings in the order of the edges. */
  ghost predicate Precedes(t: Tree, a: Address, b: Address)
    decreases |a|
  {
    if a == [] then b != []
    else if b == [] then false
    else if a[0] == b[0] then Follow(t, a[0]).Some? && Precedes(Follow(t, a[0]).value, a[1..], b[1..])
    else exists i, j :: 0 <= i < j < |t.kids| && t.kids[i].link == a[0] && t.kids[j].link == b[0]
  }

  lemma {:induction false} VisitsInOrder(t: Tree, addr: Address, chain: seq<Facts>, i: nat, j: nat)
    returns (a: Address, b: Address)
    requires WellFormed(t) && i < j < |Visits(t, addr, chain)|
    ensures Visits(t, addr, chain)[i].addr == addr + a && Visits(t, addr, chain)[j].addr == addr + b
    ensures Precedes(t, a, b)
    decreases t, |t.kids| + 1
  {
    var kids := KidVisits(t, 0, addr, chain + [t.facts]);
    if i == 0 {
      a := [];
      assert addr + a == addr;
      assert kids[j - 1] in kids;
      b := KidVisitsSound(t, 0, addr, chain + [t.facts], kids[j - 1]);
    } else {
      a, b := KidVisitsInOrder(t, 0, addr, chain + [t.facts], i - 1, j - 1);
    }
  }

  lemma {:induction false} KidVisitsInOrder(t: Tree, k: nat, addr: Address, chain: seq<Facts>, i: nat, j: nat)
    returns (a: Address, b: Address)
    requires WellFormed(t) && k <= |t.kids| && i < j < |KidVisits(t, k, addr, chain)|
    ensures KidVisits(t, k, addr, chain)[i].addr == addr + a && KidVisits(t, k, addr, chain)[j].addr == addr + b
    ensures Precedes(t, a, b)
    decreases t, |t.kids| - k
  {
    hide Precedes, Visits;
    var kid := t.kids[k];
    assert kid in t.kids;
    var here, rest := Visits(kid.tree, addr + [kid.link], chain), KidVisits(t, k + 1, addr, chain);
    if j < |here| {
      var c, d := VisitsInOrder(kid.tree, addr + [kid.link], chain, i, j);
      a, b := [kid.link] + c, [kid.link] + d;
      FindAt(t.kids, k);
      UnderOneKid(t, k, c, d);
      assert addr + [kid.link] + c == addr + a && addr + [kid.link] + d == addr + b;
    } else if i >= |here| {
      a, b := KidVisitsInOrder(t, k + 1, addr, chain, i - |here|, j - |here|);
    } else {
      assert here[i] in here && rest[j - |here|] in rest;
      var c := VisitsSound(kid.tree, addr + [kid.link], chain, here[i]);
      a := [kid.link] + c;
      assert addr + [kid.link] + c == addr + a;
      b := KidVisitsSound(t, k + 1, addr, chain, rest[j - |here|]);
      UnderTwoKids(t, k, a, b);
    }
  }

  lemma {:induction false} UnderOneKid(t: Tree, k: nat, c: Address, d: Address)
    requires WellFormed(t) && k < |t.kids| && Precedes(t.kids[k].tree, c, d)
    ensures Precedes(t, [t.kids[k].link] + c, [t.kids[k].link] + d)
  {
    FindAt(t.kids, k);
    assert ([t.kids[k].link] + c)[1..] == c && ([t.kids[k].link] + d)[1..] == d;
  }

  lemma {:induction false} UnderTwoKids(t: Tree, k: nat, a: Address, b: Address)
    requires WellFormed(t) && k < |t.kids| && a != [] && b != [] && a[0] == t.kids[k].link
    requires exists j :: k + 1 <= j < |t.kids| && t.kids[j].link == b[0]
    ensures Precedes(t, a, b)
  {
  }

  /** Of any two visits the earlier one is the one that comes first in this order. */
  lemma {:induction false} WalkInOrder(t: Tree, i: nat, j: nat)
    requires WellFormed(t) && i < j < |Walk(t)|
    ensures Precedes(t, Walk(t)[i].addr, Walk(t)[j].addr)
  {
    var a, b := VisitsInOrder(t, [], [], i, j);
    assert [] + a == a && [] + b == b;
  }
}
