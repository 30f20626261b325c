/** A closure that writes one entry per node, last wins: which values the orders of the maps can leave behind. */
module LastWriters {
  import opened Schemas
  import opened Trees
  import opened Orders
  import opened Collected
  import opened Layers

  /** What is written for a node: under a key made of its address, a value made of its facts. */
  datatype Column<!V> = Column(key: Address -> string, value: Facts -> V)

  // ---------------------------------------------------------------- the table, kid by kid

  function Table<V>(t: Tree, addr: Address, c: Column<V>): map<string, V>
    decreases t, |t.kids| + 1
  {
    map[c.key(addr) := c.value(t.facts)] + KidTables(t, 0, addr, c)
  }

  function KidTables<V>(t: Tree, k: nat, addr: Address, c: Column<V>): map<string, V>
    requires k <= |t.kids|
    decreases t, |t.kids| - k
  {
    if k == |t.kids| then map[]
    else Table(t.kids[k].tree, addr + [t.kids[k].link], c) + KidTables(t, k + 1, addr, c)
  }

  lemma {:induction false} WrittenAppend<V>(init: map<string, V>, a: seq<Visit>, b: seq<Visit>, key: Visit -> string,
                                            value: Visit -> V)
    ensures Written(init, a + b, key, value) == Written(init, a, key, value) + Written(map[], b, key, value)
  {
    if b == [] {
      assert a + b == a;
    } else {
      var front, v := b[..|b| - 1], b[|b| - 1];
      assert (a + b)[..|a + b| - 1] == a + front && (a + b)[|a + b| - 1] == v;
      WrittenAppend(init, a, front, key, value);
      MergeThenWrite(Written(init, a, key, value), Written(map[], front, key, value), key(v), value(v));
    }
  }

  lemma MergeThenWrite<V>(m: map<string, V>, n: map<string, V>, k: string, v: V)
    ensures (m + n)[k := v] == m + n[k := v]
  {
  }

  /** The visitor's key and value are those of the column. */
  ghost predicate FilledBy<V>(c: Column<V>, key: Visit -> string, value: Visit -> V) {
    forall v: Visit :: v.Valid() ==> key(v) == c.key(v.addr) && value(v) == c.value(v.Here())
  }

  /** Writing a whole walk fills the table. */
  lemma {:induction false} WrittenVisits<V>(t: Tree, addr: Address, chain: seq<Facts>, c: Column<V>,
                                            key: Visit -> string, value: Visit -> V)
    requires |chain| == |addr| && FilledBy(c, key, value)
    ensures Written(map[], Visits(t, addr, chain), key, value) == Table(t, addr, c)
    decreases t, |t.kids| + 1
  {
    var here := chain + [t.facts];
    var v := Visit(addr, here);
    WrittenKids(t, 0, addr, here, c, key, value);
    WrittenAppend(map[], [v], KidVisits(t, 0, addr, here), key, value);
    WrittenOne(v, key, value);
    assert v.Valid() && v.Here() == t.facts;
  }

  lemma WrittenOne<V>(v: Visit, key: Visit -> string, value: Visit -> V)
    ensures Written(map[], [v], key, value) == map[key(v) := value(v)]
  {
    assert [v][..0] == [];
    assert Written(map[], [v], key, value) == Written(map[], [v][..0], key, value)[key(v) := value(v)];
  }

  lemma {:induction false} WrittenKids<V>(t: Tree, k: nat, addr: Address, chain: seq<Facts>, c: Column<V>,
                                          key: Visit -> string, value: Visit -> V)
    requires |chain| == |addr| + 1 && k <= |t.kids| && FilledBy(c, key, value)
    ensures Written(map[], KidVisits(t, k, addr, chain), key, value) == KidTables(t, k, addr, c)
    decreases t, |t.kids| - k
  {
    if k < |t.kids| {
      var kid := t.kids[k];
      WrittenVisits(kid.tree, addr + [kid.link], chain, c, key, value);
      WrittenKids(t, k + 1, addr, chain, c, key, value);
      WrittenAppend(map[], Visits(kid.tree, addr + [kid.link], chain), KidVisits(t, k + 1, addr, chain), key, value);
    }
  }

  // ---------------------------------------------------------------- who wrote an entry

  function KidTable<V>(t: Tree, i: nat, addr: Address, c: Column<V>): map<string, V>
    requires i < |t.kids|
  {
    Table(t.kids[i].tree, addr + [t.kids[i].link], c)
  }

  predicate Writes<V>(t: Tree, addr: Address, c: Column<V>, x: string, i: nat) {
    i < |t.kids| && x in KidTable(t, i, addr, c)
  }

  /** Kid i is the last one that writes x. */
  ghost predicate LastWriter<V>(t: Tree, addr: Address, c: Column<V>, x: string, i: nat) {
    Writes(t, addr, c, x, i) && forall j :: i < j ==> !Writes(t, addr, c, x, j)
  }

  lemma {:induction false} KidTablesKeys<V>(t: Tree, k: nat, addr: Address, c: Column<V>, x: string)
    requires k <= |t.kids|
    ensures x in KidTables(t, k, addr, c) <==> exists j :: k <= j && Writes(t, addr, c, x, j)
    decreases |t.kids| - k
  {
    hide Table;
    if k < |t.kids| {
      KidTablesKeys(t, k + 1, addr, c, x);
      assert KidTables(t, k, addr, c) == KidTable(t, k, addr, c) + KidTables(t, k + 1, addr, c);
      assert Writes(t, addr, c, x, k) <==> x in KidTable(t, k, addr, c);
    }
  }

  lemma {:induction false} WriterWins<V>(t: Tree, k: nat, addr: Address, c: Column<V>, x: string, i: nat)
    requires k <= i && LastWriter(t, addr, c, x, i)
    ensures x in KidTables(t, k, addr, c) && KidTables(t, k, addr, c)[x] == KidTable(t, i, addr, c)[x]
    decreases i - k
  {
    hide Table;
    assert KidTables(t, k, addr, c) == KidTable(t, k, addr, c) + KidTables(t, k + 1, addr, c);
    if k < i {
      WriterWins(t, k + 1, addr, c, x, i);
    } else {
      KidTablesKeys(t, k + 1, addr, c, x);
    }
  }

  lemma {:induction false} FindWriter<V>(t: Tree, n: nat, addr: Address, c: Column<V>, x: string) returns (i: nat)
    requires n <= |t.kids| && (forall j :: n <= j ==> !Writes(t, addr, c, x, j))
    requires exists j :: Writes(t, addr, c, x, j)
    ensures LastWriter(t, addr, c, x, i)
  {
    hide Writes;
    if n > 0 && Writes(t, addr, c, x, n - 1) {
      i := n - 1;
    } else {
      i := FindWriter(t, n - 1, addr, c, x);
    }
  }

  /** A table's entry is its last writer's, or the node's own where no kid writes. */
  lemma {:induction false} EntryFrom<V>(t: Tree, addr: Address, c: Column<V>, x: string)
    ensures (exists i :: Writes(t, addr, c, x, i)) ==> x in Table(t, addr, c)
    ensures (!exists i :: Writes(t, addr, c, x, i)) ==>
      (x in Table(t, addr, c) <==> x == c.key(addr)) &&
      (x in Table(t, addr, c) ==> Table(t, addr, c)[x] == c.value(t.facts))
    ensures forall i :: LastWriter(t, addr, c, x, i) ==>
      x in Table(t, addr, c) && Table(t, addr, c)[x] == KidTable(t, i, addr, c)[x]
  {
    KidTablesKeys(t, 0, addr, c, x);
    forall i | LastWriter(t, addr, c, x, i)
      ensures x in KidTables(t, 0, addr, c) && KidTables(t, 0, addr, c)[x] == KidTable(t, i, addr, c)[x]
    {
      WriterWins(t, 0, addr, c, x, i);
    }
  }

  // ---------------------------------------------------------------- the values orders can leave

  /** No later kid writes x, unless a range over their common map may also yield it earlier. */
  ghost predicate MayBeLast<V>(t: Tree, addr: Address, c: Column<V>, x: string, i: nat) {
    && Writes(t, addr, c, x, i)
    && forall j :: i < j && Writes(t, addr, c, x, j) ==> Swappable(t, i, j)
  }

  ghost predicate AnyWrites<V>(t: Tree, addr: Address, c: Column<V>, x: string) {
    exists i :: Writes(t, addr, c, x, i)
  }

  /** Some order of the maps leaves w under x. */
  ghost predicate MayLeave<V>(t: Tree, addr: Address, c: Column<V>, x: string, w: V)
    decreases t
  {
    if AnyWrites(t, addr, c, x) then
      exists i: nat :: MayBeLast(t, addr, c, x, i) && MayLeave(t.kids[i].tree, addr + [t.kids[i].link], c, x, w)
    else
      x == c.key(addr) && w == c.value(t.facts)
  }

  /** Every order writes the same keys. */
  lemma {:induction false} SameKeys<V>(s: Tree, t: Tree, addr: Address, c: Column<V>, x: string)
    requires Reordered(s, t) && WellFormed(s) && WellFormed(t) && x in Table(s, addr, c)
    ensures x in Table(t, addr, c)
    decreases s
  {
    EntryFrom(s, addr, c, x);
    EntryFrom(t, addr, c, x);
    if i :| Writes(s, addr, c, x, i) {
      var j := WriterPartner(s, t, addr, c, x, i);
    }
  }

  /** The partner of a writer writes too. */
  lemma {:induction false} WriterPartner<V>(s: Tree, t: Tree, addr: Address, c: Column<V>, x: string, i: nat)
    returns (j: nat)
    requires Reordered(s, t) && WellFormed(s) && WellFormed(t) && Writes(s, addr, c, x, i)
    ensures Writes(t, addr, c, x, j) && t.kids[j].link == s.kids[i].link
    ensures Reordered(s.kids[i].tree, t.kids[j].tree)
    ensures !s.kids[i].link.FromMap() ==> j == i
    decreases s, 0
  {
    j := Partner(s, t, i);
    assert s.kids[i] in s.kids && t.kids[j] in t.kids;
    SameKeys(s.kids[i].tree, t.kids[j].tree, addr + [s.kids[i].link], c, x);
  }

  lemma {:induction false} WriterMayBeLast<V>(s: Tree, t: Tree, addr: Address, c: Column<V>, x: string, i: nat, j: nat)
    requires Reordered(s, t) && WellFormed(s) && WellFormed(t) && InLayers(s.kids) && InLayers(t.kids)
    requires LastWriter(t, addr, c, x, j) && Writes(s, addr, c, x, i)
    requires s.kids[i].link == t.kids[j].link && (!t.kids[j].link.FromMap() ==> i == j)
    ensures MayBeLast(s, addr, c, x, i)
  {
    hide Writes, Reordered;
    forall m | i < m && Writes(s, addr, c, x, m) ensures Swappable(s, i, m) {
      var n := WriterPartner(s, t, addr, c, x, m);
      assert n <= j;
      SamePlacesOf(s, t);
      DistinctPlaces(s, t, i, m, j, n, addr, c, x);
      CrossedSwappable(s, t, i, m, j, n);
    }
  }

  lemma {:induction false} SamePlacesOf(s: Tree, t: Tree)
    requires Reordered(s, t)
    ensures SamePlaces(s, t)
  {
  }

  lemma {:induction false} DistinctPlaces<V>(s: Tree, t: Tree, i: nat, m: nat, j: nat, n: nat, addr: Address,
                                             c: Column<V>, x: string)
    requires WellFormed(s) && i < m && Writes(s, addr, c, x, i) && Writes(s, addr, c, x, m)
    requires Writes(t, addr, c, x, j) && Writes(t, addr, c, x, n)
    requires s.kids[i].link == t.kids[j].link && s.kids[m].link == t.kids[n].link
    ensures m < |s.kids| && j < |t.kids| && n < |t.kids| && n != j
  {
  }

  /** What an order leaves is one of the values orders may leave. */
  lemma {:induction false} LeftIsPossible<V>(s: Tree, t: Tree, addr: Address, c: Column<V>, x: string)
    requires Reordered(s, t) && WellFormed(s) && WellFormed(t) && Layered(s) && Layered(t)
    requires x in Table(t, addr, c)
    ensures MayLeave(s, addr, c, x, Table(t, addr, c)[x])
    decreases t
  {
    EntryFrom(t, addr, c, x);
    ReorderedSymmetric(s, t);
    if m :| Writes(t, addr, c, x, m) {
      var j := FindWriter(t, |t.kids|, addr, c, x);
      var i := WriterPartner(t, s, addr, c, x, j);
      assert t.kids[j] in t.kids && s.kids[i] in s.kids;
      ReorderedSymmetric(t.kids[j].tree, s.kids[i].tree);
      WriterMayBeLast(s, t, addr, c, x, i, j);
      LeftIsPossible(s.kids[i].tree, t.kids[j].tree, addr + [t.kids[j].link], c, x);
    } else if m :| Writes(s, addr, c, x, m) {
      var j := WriterPartner(s, t, addr, c, x, m);
      assert false;
    }
  }

  /** The last kid in the layer of kid i. */
  lemma {:induction false} LayerEnd(kids: seq<Kid>, i: nat, n: nat) returns (e: nat)
    requires i < n <= |kids| && InLayers(kids)
    requires forall j :: n <= j < |kids| ==> Layer(kids[j].link) > Layer(kids[i].link)
    ensures i <= e < |kids| && Layer(kids[e].link) == Layer(kids[i].link)
    ensures forall j :: e < j < |kids| ==> Layer(kids[j].link) > Layer(kids[i].link)
    decreases n
  {
    if Layer(kids[n - 1].link) == Layer(kids[i].link) {
      e := n - 1;
    } else {
      e := LayerEnd(kids, i, n - 1);
    }
  }

  lemma MapLayer(l: Link, m: Link)
    requires Layer(l) == Layer(m)
    ensures l.FromMap() <==> m.FromMap()
  {
  }

  /** Where kid i can be moved so that no later kid writes x. */
  lemma LastPlace<V>(t: Tree, addr: Address, c: Column<V>, x: string, i: nat) returns (e: nat)
    requires InLayers(t.kids) && MayBeLast(t, addr, c, x, i)
    ensures i <= e < |t.kids| && Layer(t.kids[e].link) == Layer(t.kids[i].link)
    ensures i == e || (t.kids[i].link.FromMap() && t.kids[e].link.FromMap())
    ensures forall j :: e < j ==> !Writes(t, addr, c, x, j)
  {
    hide KidTable, Layer;
    if t.kids[i].link.FromMap() {
      e := LayerEnd(t.kids, i, |t.kids|);
      MapLayer(t.kids[i].link, t.kids[e].link);
    } else {
      e := i;
    }
    forall j | e < j ensures !Writes(t, addr, c, x, j) {
      assert Writes(t, addr, c, x, j) ==> Swappable(t, i, j);
    }
  }

  /** The value comes from below a kid that can be last. */
  lemma LeftBelow<V>(t: Tree, addr: Address, c: Column<V>, x: string, w: V) returns (i: nat)
    requires MayLeave(t, addr, c, x, w) && AnyWrites(t, addr, c, x)
    ensures MayBeLast(t, addr, c, x, i) && i < |t.kids| && t.kids[i] in t.kids
    ensures MayLeave(t.kids[i].tree, addr + [t.kids[i].link], c, x, w)
  {
    i :| MayBeLast(t, addr, c, x, i) && MayLeave(t.kids[i].tree, addr + [t.kids[i].link], c, x, w);
  }

  lemma {:induction false} LeftHere<V>(t: Tree, addr: Address, c: Column<V>, x: string, w: V)
    requires MayLeave(t, addr, c, x, w) && !AnyWrites(t, addr, c, x)
    ensures x == c.key(addr) && w == c.value(t.facts)
    ensures x in Table(t, addr, c) && Table(t, addr, c)[x] == w
  {
    EntryFrom(t, addr, c, x);
  }

  /** Every value MayLeave admits is left by some order a walk may see. */
  lemma {:induction false} PossibleIsLeft<V>(s: Schema, addr: Address, c: Column<V>, x: string, w: V)
    returns (r: Schema)
    requires WellFormed(TreeOf(s)) && MayLeave(TreeOf(s), addr, c, x, w)
    ensures WellFormed(TreeOf(r)) && Reordered(TreeOf(s), TreeOf(r))
    ensures x in Table(TreeOf(r), addr, c) && Table(TreeOf(r), addr, c)[x] == w
    decreases s
  {
    hide MayLeave, MayBeLast, AnyWrites, Table, Reordered, Edges, TreeOf, Layered, Layer;
    var t := TreeOf(s);
    if AnyWrites(t, addr, c, x) {
      var i := LeftBelow(t, addr, c, x, w);
      var e := LastPlaceOf(s, addr, c, x, i);
      KidsAre(s, i);
      KidsAre(s, e);
      var child := PossibleIsLeft(Edges(s)[i].child, addr + [t.kids[i].link], c, x, w);
      r := Rearranged(s, i, e, child);
      RearrangedTree(s, r, i, e, child);
      MovedReordered(t, TreeOf(r), i, e);
      MovedWins(t, TreeOf(r), addr, c, x, e);
    } else {
      LeftHere(t, addr, c, x, w);
      r := s;
      ReorderedReflexive(t);
    }
  }

  lemma LastPlaceOf<V>(s: Schema, addr: Address, c: Column<V>, x: string, i: nat) returns (e: nat)
    requires MayBeLast(TreeOf(s), addr, c, x, i)
    ensures var kids := TreeOf(s).kids;
      && i <= e < |kids| && Layer(kids[e].link) == Layer(kids[i].link)
      && (i == e || (kids[i].link.FromMap() && kids[e].link.FromMap()))
    ensures forall j :: e < j ==> !Writes(TreeOf(s), addr, c, x, j)
  {
    hide MayBeLast, Writes;
    SchemaLayered(s);
    e := LastPlace(TreeOf(s), addr, c, x, i);
  }

  lemma {:induction false} KidsAre(s: Schema, i: nat)
    requires i < |TreeOf(s).kids|
    ensures |Edges(s)| == |TreeOf(s).kids| && Edges(s)[i].child < s
    ensures TreeOf(s).kids[i] == Kid(Edges(s)[i].link, TreeOf(Edges(s)[i].child))
    ensures WellFormed(TreeOf(s)) ==> WellFormed(TreeOf(Edges(s)[i].child))
  {
    hide Edges;
    assert Edges(s)[i] in Edges(s) && TreeOf(s).kids[i] in TreeOf(s).kids;
  }

  lemma {:induction false} AllKidsAre(s: Schema)
    ensures TreeOf(s).facts == FactsOf(s) && |Edges(s)| == |TreeOf(s).kids|
    ensures forall i :: 0 <= i < |Edges(s)| ==>
      TreeOf(s).kids[i] == Kid(Edges(s)[i].link, TreeOf(Edges(s)[i].child))
  {
    hide Edges;
  }

  lemma {:induction false} RearrangedTree(s: Schema, r: Schema, i: nat, e: nat, child: Schema)
    requires i < |Edges(s)| && e < |Edges(s)|
    requires FactsOf(r) == FactsOf(s) && Edges(r) == Moved(Edges(s), i, e, child)
    ensures var t, u := TreeOf(s), TreeOf(r);
      && u.facts == t.facts && |u.kids| == |t.kids| == |Edges(s)|
      && u.kids[e] == Kid(Edges(s)[i].link, TreeOf(child))
      && (i != e ==> u.kids[i] == t.kids[e])
      && forall j :: 0 <= j < |t.kids| && j != i && j != e ==> u.kids[j] == t.kids[j]
  {
    hide Edges, TreeOf, FactsOf;
    AllKidsAre(s);
    AllKidsAre(r);
  }

  lemma {:induction false} MovedWins<V>(t: Tree, u: Tree, addr: Address, c: Column<V>, x: string, e: nat)
    requires |u.kids| == |t.kids| && e < |t.kids| && Writes(u, addr, c, x, e)
    requires forall j :: e < j < |t.kids| ==> u.kids[j] == t.kids[j]
    requires forall j :: e < j ==> !Writes(t, addr, c, x, j)
    ensures x in Table(u, addr, c) && Table(u, addr, c)[x] == KidTable(u, e, addr, c)[x]
  {
    hide Table;
    forall j | e < j ensures !Writes(u, addr, c, x, j) {
      assert !Writes(t, addr, c, x, j);
    }
    assert LastWriter(u, addr, c, x, e);
    EntryFrom(u, addr, c, x);
  }

  // ---------------------------------------------------------------- one value only

  /** Only one value can be left under x. */
  ghost predicate Settled<V(!new)>(t: Tree, c: Column<V>, x: string) {
    forall w, w' :: MayLeave(t, [], c, x, w) && MayLeave(t, [], c, x, w') ==> w == w'
  }

  /** r is s with its maps in an order a range may yield. */
  ghost predicate OrderOf(s: Schema, r: Schema) {
    WellFormed(TreeOf(r)) && Reordered(TreeOf(s), TreeOf(r))
  }

  /** The table a walk of r fills. */
  ghost function Filled<V>(r: Schema, c: Column<V>): map<string, V> {
    Table(TreeOf(r), [], c)
  }

  /** What an order of s leaves under x, exactly. */
  lemma {:induction false} LeftExactly<V>(s: Schema, c: Column<V>, x: string, w: V)
    requires WellFormed(TreeOf(s))
    ensures MayLeave(TreeOf(s), [], c, x, w) <==>
      exists r :: OrderOf(s, r) && x in Filled(r, c) && Filled(r, c)[x] == w
  {
    hide MayLeave, Table;
    if MayLeave(TreeOf(s), [], c, x, w) {
      var r := PossibleIsLeft(s, [], c, x, w);
      assert OrderOf(s, r);
    }
    if r :| OrderOf(s, r) && x in Filled(r, c) && Filled(r, c)[x] == w {
      SchemaLayered(s);
      SchemaLayered(r);
      LeftIsPossible(TreeOf(s), TreeOf(r), [], c, x);
    }
  }

  /** Two orders write the same keys. */
  lemma {:induction false} FilledKeys<V>(s: Schema, r: Schema, q: Schema, c: Column<V>)
    requires WellFormed(TreeOf(s)) && OrderOf(s, r) && OrderOf(s, q)
    ensures Filled(r, c).Keys == Filled(q, c).Keys
  {
    ReorderedSymmetric(TreeOf(s), TreeOf(r));
    ReorderedSymmetric(TreeOf(s), TreeOf(q));
    forall x ensures x in Filled(r, c) <==> x in Filled(q, c) {
      if x in Filled(r, c) {
        SameKeys(TreeOf(r), TreeOf(s), [], c, x);
        SameKeys(TreeOf(s), TreeOf(q), [], c, x);
      }
      if x in Filled(q, c) {
        SameKeys(TreeOf(q), TreeOf(s), [], c, x);
        SameKeys(TreeOf(s), TreeOf(r), [], c, x);
      }
    }
  }

  /** Two walks of one schema, in any orders, fill the same table exactly when every key is settled. */
  lemma {:induction false} OrdersAgreeExactly<V(!new)>(s: Schema, c: Column<V>)
    requires WellFormed(TreeOf(s))
    ensures (forall r, q :: OrderOf(s, r) && OrderOf(s, q) ==> Filled(r, c) == Filled(q, c))
      <==> forall x :: Settled(TreeOf(s), c, x)
  {
    hide MayLeave, Filled, OrderOf;
    if forall x :: Settled(TreeOf(s), c, x) {
      forall r, q | OrderOf(s, r) && OrderOf(s, q) ensures Filled(r, c) == Filled(q, c) {
        SettledOrders(s, r, q, c);
      }
    } else {
      var x, w, w' :| MayLeave(TreeOf(s), [], c, x, w) && MayLeave(TreeOf(s), [], c, x, w') && w != w';
      LeftExactly(s, c, x, w);
      LeftExactly(s, c, x, w');
    }
  }

  lemma {:induction false} SettledOrders<V(!new)>(s: Schema, r: Schema, q: Schema, c: Column<V>)
    requires WellFormed(TreeOf(s)) && OrderOf(s, r) && OrderOf(s, q)
    requires forall x :: Settled(TreeOf(s), c, x)
    ensures Filled(r, c) == Filled(q, c)
  {
    hide MayLeave, Filled, OrderOf;
    FilledKeys(s, r, q, c);
    forall x | x in Filled(r, c) ensures Filled(r, c)[x] == Filled(q, c)[x] {
      LeftExactly(s, c, x, Filled(r, c)[x]);
      LeftExactly(s, c, x, Filled(q, c)[x]);
      assert Settled(TreeOf(s), c, x);
    }
  }

  /** A value a table can hold is the value of a node with that key. */
  lemma {:induction false} LeftByNode<V>(t: Tree, addr: Address, c: Column<V>, x: string, w: V) returns (a: Address)
    requires WellFormed(t) && MayLeave(t, addr, c, x, w)
    ensures Has(t, a) && c.key(addr + a) == x && c.value(FactsAt(t, a)) == w
    decreases t
  {
    hide MayLeave, MayBeLast, AnyWrites, Writes, Table, KidTable;
    if AnyWrites(t, addr, c, x) {
      var i := LeftBelow(t, addr, c, x, w);
      var b := LeftByNode(t.kids[i].tree, addr + [t.kids[i].link], c, x, w);
      a := [t.kids[i].link] + b;
      FollowKid(t, t.kids[i]);
      assert a[1..] == b && addr + [t.kids[i].link] + b == addr + a;
    } else {
      LeftHere(t, addr, c, x, w);
      a := [];
      assert addr + a == addr;
    }
  }
}
