/** The table from location to type is written last-wins, and a combinator branch writes its parent's
    location again. When it is nevertheless the same for every order of the maps. */
module TypeOrder {
  import opened Paths
  import opened Schemas
  import opened Trees
  import opened Addresses
  import opened Orders
  import opened Collected
  import opened Layers
  import opened LastWriters

  /** Every node writes its type under its location. */
  const TYPES: Column<string> := Column((a: Address) => LocationText(a), (f: Facts) => f.typ)

  lemma {:induction false} TypesFilled(t: Tree)
    ensures TypesWritten(Walk(t)) == Table(t, [], TYPES)
  {
    WrittenVisits(t, [], [], TYPES, LocationKey, TypeValue);
  }

  /** Links whose location is their own word, or their parent's for a combinator. */
  predicate Located(l: Link) {
    !l.Pattern? && !l.Definition? && !l.Dependency? && (l.Property? ==> Word(l.name))
  }

  predicate LocatedTree(t: Tree) {
    forall k :: k in t.kids ==> Located(k.link) && LocatedTree(k.tree)
  }

  predicate AllLocated(a: Address) {
    forall l :: l in a ==> Located(l)
  }

  // ---------------------------------------------------------------- locations in the table

  lemma {:induction false} LocationPrefix(a: Address, b: Address)
    ensures LocationOf(a) <= LocationOf(a + b)
  {
    hide LocationSteps;
    if b == [] {
      assert a + b == a;
    } else {
      LocationPrefix(a, b[..|b| - 1]);
      assert (a + b)[..|a + b| - 1] == a + b[..|b| - 1];
    }
  }

  /** Whatever a table mentions is the location of a node below its address. */
  lemma {:induction false} TableLocations(t: Tree, addr: Address, x: string) returns (b: Address)
    requires x in Table(t, addr, TYPES) && LocatedTree(t)
    ensures x == LocationText(addr + b) && AllLocated(b)
    decreases t, |t.kids| + 1
  {
    if x in KidTables(t, 0, addr, TYPES) {
      b := KidTableLocations(t, 0, addr, x);
    } else {
      b := [];
      assert addr + b == addr;
    }
  }

  lemma {:induction false} KidTableLocations(t: Tree, k: nat, addr: Address, x: string) returns (b: Address)
    requires k <= |t.kids| && x in KidTables(t, k, addr, TYPES) && LocatedTree(t)
    ensures x == LocationText(addr + b) && AllLocated(b)
    decreases t, |t.kids| - k
  {
    hide LocationText, Located;
    var kid := t.kids[k];
    assert kid in t.kids;
    if x in KidTables(t, k + 1, addr, TYPES) {
      b := KidTableLocations(t, k + 1, addr, x);
    } else {
      var c := TableLocations(kid.tree, addr + [kid.link], x);
      b := [kid.link] + c;
      assert addr + [kid.link] + c == addr + b;
    }
  }

  /** Properties of different names write different locations. */
  lemma {:induction false} PropertiesApart(s: Tree, t: Tree, addr: Address, m: string, n: string, x: string)
    requires LocatedTree(s) && LocatedTree(t) && AllLocated(addr) && Word(m) && Word(n)
    requires x in Table(s, addr + [Property(m)], TYPES) && x in Table(t, addr + [Property(n)], TYPES)
    ensures m == n
  {
    var b := TableLocations(s, addr + [Property(m)], x);
    var c := TableLocations(t, addr + [Property(n)], x);
    SameLocation(addr, m, b, n, c);
  }

  lemma SameLocation(addr: Address, m: string, b: Address, n: string, c: Address)
    requires AllLocated(addr) && AllLocated(b) && AllLocated(c) && Word(m) && Word(n)
    requires LocationText(addr + [Property(m)] + b) == LocationText(addr + [Property(n)] + c)
    ensures m == n
  {
    var p, q := addr + [Property(m)] + b, addr + [Property(n)] + c;
    LocationReadable(p);
    LocationReadable(q);
    StringInjective(LocationOf(p), LocationOf(q));
    LocationPrefix(addr + [Property(m)], b);
    LocationPrefix(addr + [Property(n)], c);
    Extend(addr, Property(m));
    Extend(addr, Property(n));
    var i := |LocationOf(addr)|;
    assert LocationOf(p)[i] == Child(m) && LocationOf(q)[i] == Child(n);
  }

  // ---------------------------------------------------------------- order does not matter

  /** Of two kids that may both be last, each may be followed by the other: they share a map, and in a located
      tree that map is the properties, whose locations lie apart. */
  lemma {:induction false} OneLast(t: Tree, addr: Address, x: string, i: nat, j: nat)
    requires WellFormed(t) && LocatedTree(t) && AllLocated(addr)
    requires MayBeLast(t, addr, TYPES, x, i) && MayBeLast(t, addr, TYPES, x, j)
    ensures i == j
  {
    hide Table;
    var k, m := if i < j then i else j, if i < j then j else i;
    if k < m {
      assert Swappable(t, k, m);
      assert t.kids[k] in t.kids && t.kids[m] in t.kids;
      assert t.kids[k].link.Property? && t.kids[m].link.Property?;
      PropertiesApart(t.kids[k].tree, t.kids[m].tree, addr, t.kids[k].link.name, t.kids[m].link.name, x);
      assert false;
    }
  }

  lemma {:induction false} LocatedLeavesOne(t: Tree, addr: Address, x: string, w: string, w': string)
    requires WellFormed(t) && LocatedTree(t) && AllLocated(addr)
    requires MayLeave(t, addr, TYPES, x, w) && MayLeave(t, addr, TYPES, x, w')
    ensures w == w'
    decreases t
  {
    hide MayLeave, MayBeLast, AnyWrites, Located;
    if AnyWrites(t, addr, TYPES, x) {
      var i := LeftBelow(t, addr, TYPES, x, w);
      var j := LeftBelow(t, addr, TYPES, x, w');
      OneLast(t, addr, x, i, j);
      LocatedLeavesOne(t.kids[i].tree, addr + [t.kids[i].link], x, w, w');
    } else {
      LeftHere(t, addr, TYPES, x, w);
      LeftHere(t, addr, TYPES, x, w');
    }
  }

  /** Any order a walk may see of a schema without patterns, definitions and dependencies fills the same table,
      although combinator branches share their parent's location. */
  lemma {:induction false} TypesOrderFree(s: Schema, t: Schema)
    requires Reordered(TreeOf(s), TreeOf(t)) && WellFormed(TreeOf(s)) && WellFormed(TreeOf(t))
    requires LocatedTree(TreeOf(s))
    ensures TypesWritten(Walk(TreeOf(s))) == TypesWritten(Walk(TreeOf(t)))
  {
    hide MayLeave, LocatedTree, Reordered, TreeOf;
    TypesFilled(TreeOf(s));
    TypesFilled(TreeOf(t));
    LocatedSettled(TreeOf(s));
    ReorderedReflexive(TreeOf(s));
    SettledOrders(s, s, t, TYPES);
  }

  lemma {:induction false} LocatedSettled(t: Tree)
    requires WellFormed(t) && LocatedTree(t)
    ensures forall x :: Settled(t, TYPES, x)
  {
    forall x, w, w' | MayLeave(t, [], TYPES, x, w) && MayLeave(t, [], TYPES, x, w') ensures w == w' {
      LocatedLeavesOne(t, [], x, w, w');
    }
  }

  // ---------------------------------------------------------------- where order does matter

  function TwoPatterns(a: Entry, b: Entry): Schema {
    PLAIN.(patternProperties := [a, b])
  }

  lemma TwoPatternsTree(a: Entry, b: Entry)
    ensures TreeOf(TwoPatterns(a, b))
      == Node(FactsOf(PLAIN), [Kid(Pattern(a.name), TreeOf(a.schema)), Kid(Pattern(b.name), TreeOf(b.schema))])
  {
    hide Edges;
    TwoPatternsEdges(a, b);
    var t := TreeOf(TwoPatterns(a, b));
    assert t.kids == [t.kids[0], t.kids[1]];
  }

  lemma OnlyPatterns(a: Entry, b: Entry, k: nat)
    requires k < KINDS && k != 7
    ensures Block(TwoPatterns(a, b), k) == []
  {
  }

  lemma PatternBlock(a: Entry, b: Entry)
    ensures Block(TwoPatterns(a, b), 7) == [Edge(Pattern(a.name), a.schema), Edge(Pattern(b.name), b.schema)]
  {
  }

  lemma TwoPatternsEdges(a: Entry, b: Entry)
    ensures Edges(TwoPatterns(a, b)) == [Edge(Pattern(a.name), a.schema), Edge(Pattern(b.name), b.schema)]
  {
    hide Block, EdgesFrom;
    var s := TwoPatterns(a, b);
    forall k: nat | k < KINDS && k != 7 ensures Block(s, k) == [] {
      OnlyPatterns(a, b, k);
    }
    OneBlock(s, 7, 0);
    PatternBlock(a, b);
  }

  /** A schema whose children are all of one kind. */
  lemma {:induction false} OneBlock(s: Schema, b: nat, k: nat)
    requires b < KINDS && k <= KINDS
    requires forall j: nat :: j < KINDS && j != b ==> Block(s, j) == []
    ensures EdgesFrom(s, k) == if k <= b then Block(s, b) else []
    decreases KINDS - k
  {
    hide Block;
    if k < KINDS {
      OneBlock(s, b, k + 1);
    }
  }

  /** A schema with keywords but no children. */
  predicate Childless(s: Schema) {
    s == PLAIN.(typ := s.typ, required := s.required, enums := s.enums, minLength := s.minLength)
  }

  lemma {:induction false} LeafTree(s: Schema)
    requires Childless(s)
    ensures TreeOf(s) == Node(FactsOf(s), [])
  {
    forall k: nat | k < KINDS ensures Block(s, k) == [] {
    }
    OneBlock(s, 0, 0);
  }

  lemma {:induction false} LeafTable(t: Tree, addr: Address)
    requires t.kids == []
    ensures Table(t, addr, TYPES) == map[LocationText(addr) := t.facts.typ]
  {
    assert KidTables(t, 0, addr, TYPES) == map[];
  }

  /** Two pattern children write their parent's location, the second one last. */
  lemma {:induction false} PatternTable(t: Tree, x: string, y: string, p: Tree, q: Tree)
    requires t.kids == [Kid(Pattern(x), p), Kid(Pattern(y), q)] && p.kids == [] && q.kids == []
    ensures Table(t, [], TYPES) == map["^" := q.facts.typ]
  {
    hide LocationText;
    PatternLocation(x);
    PatternLocation(y);
    LeafTable(p, [Pattern(x)]);
    LeafTable(q, [Pattern(y)]);
    assert [] + [Pattern(x)] == [Pattern(x)] && [] + [Pattern(y)] == [Pattern(y)];
    assert KidTables(t, 2, [], TYPES) == map[];
    assert KidTables(t, 1, [], TYPES) == map["^" := q.facts.typ] + map[];
    assert KidTables(t, 0, [], TYPES) == map["^" := p.facts.typ] + KidTables(t, 1, [], TYPES);
  }

  lemma PatternLocation(x: string)
    ensures LocationText([Pattern(x)]) == "^" && LocationText([]) == "^"
  {
    Extend([], Pattern(x));
    assert [] + [Pattern(x)] == [Pattern(x)];
  }

  lemma TwoPatternsTable(x: string, p: string, y: string, q: string)
    ensures var s := TwoPatterns(Entry(x, PLAIN.(typ := p)), Entry(y, PLAIN.(typ := q)));
      TypesWritten(Walk(TreeOf(s))) == map["^" := q]
  {
    var a, b := Entry(x, PLAIN.(typ := p)), Entry(y, PLAIN.(typ := q));
    TwoPatternsTree(a, b);
    LeafTree(a.schema);
    LeafTree(b.schema);
    var t := TreeOf(TwoPatterns(a, b));
    TypesFilled(t);
    PatternTable(t, x, y, TreeOf(a.schema), TreeOf(b.schema));
  }

  /** With pattern properties the order shows: two patterns share their parent's location, and the one walked
      last decides the type recorded there. */
  lemma PatternOrderShows(x: string, p: string, y: string, q: string)
    requires x != y && p != q
    ensures var a, b := Entry(x, PLAIN.(typ := p)), Entry(y, PLAIN.(typ := q));
      var s, t := TreeOf(TwoPatterns(a, b)), TreeOf(TwoPatterns(b, a));
      && WellFormed(s) && WellFormed(t) && Reordered(s, t)
      && TypesWritten(Walk(s)) != TypesWritten(Walk(t))
  {
    hide TypesWritten, TreeOf, Reordered, WellFormed;
    var a, b := Entry(x, PLAIN.(typ := p)), Entry(y, PLAIN.(typ := q));
    TwoPatternsTable(x, p, y, q);
    TwoPatternsTable(y, q, x, p);
    assert map["^" := q]["^"] != map["^" := p]["^"];
    TwoPatternsTree(a, b);
    TwoPatternsTree(b, a);
    LeafTree(a.schema);
    LeafTree(b.schema);
    SwappedKids(Kid(Pattern(x), TreeOf(a.schema)), Kid(Pattern(y), TreeOf(b.schema)));
  }

  lemma SwappedKids(k: Kid, m: Kid)
    requires k.link != m.link && k.link.FromMap() && m.link.FromMap()
    requires k.tree.kids == [] && m.tree.kids == []
    ensures var s, t := Node(FactsOf(PLAIN), [k, m]), Node(FactsOf(PLAIN), [m, k]);
      WellFormed(s) && WellFormed(t) && Reordered(s, t)
  {
    var s, t := Node(FactsOf(PLAIN), [k, m]), Node(FactsOf(PLAIN), [m, k]);
    forall l ensures Follow(s, l) == Follow(t, l)
             ensures Follow(s, l).Some? ==> Reordered(Follow(s, l).value, Follow(t, l).value)
    {
      assert [k, m][1..] == [m] && [m, k][1..] == [k];
      ReorderedReflexive(k.tree);
      ReorderedReflexive(m.tree);
    }
  }
}
