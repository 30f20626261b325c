/** The children of a schema in their walking order: eleven kinds one after the other, and within a kind that Go
    keeps in a map any order at all. */
module Layers {
  import opened Wrappers
  import opened Schemas
  import opened Trees
  import opened Orders

  /** The kinds of child in walking order. */
  function Layer(l: Link): nat {
    match l
    case Items => 0
    case ItemsAt(_) => 0
    case AllOf(_) => 1
    case AnyOf(_) => 2
    case OneOf(_) => 3
    case Not => 4
    case Property(_) => 5
    case AdditionalProperties => 6
    case Pattern(_) => 7
    case AdditionalItems => 8
    case Definition(_) => 9
    case Dependency(_) => 10
  }

  predicate InLayers(kids: seq<Kid>) {
    forall i, j :: 0 <= i < j < |kids| ==> Layer(kids[i].link) <= Layer(kids[j].link)
  }

  predicate Layered(t: Tree) {
    InLayers(t.kids) && forall k :: k in t.kids ==> Layered(k.tree)
  }

  lemma {:induction false} BlockLayer(s: Schema, k: nat, e: Edge)
    requires k < KINDS && e in Block(s, k)
    ensures Layer(e.link) == k
  {
    if k == KINDS - 1 {
      DependencyLayer(s.dependencies, e);
    }
  }

  lemma {:induction false} DependencyLayer(entries: seq<OptionalEntry>, e: Edge)
    requires e in DependencyEdges(entries)
    ensures e.link.Dependency?
    decreases |entries|
  {
    if e !in OptionalEdge(Dependency(entries[0].name), entries[0].schema) {
      DependencyLayer(entries[1..], e);
    }
  }

  predicate EdgesInLayers(es: seq<Edge>, k: nat) {
    && (forall e :: e in es ==> k <= Layer(e.link))
    && (forall i, j :: 0 <= i < j < |es| ==> Layer(es[i].link) <= Layer(es[j].link))
  }

  lemma {:induction false} EdgesFromInLayers(s: Schema, k: nat)
    requires k <= KINDS
    ensures EdgesInLayers(EdgesFrom(s, k), k)
    decreases KINDS - k
  {
    hide Block, Layer;
    if k < KINDS {
      EdgesFromInLayers(s, k + 1);
      forall e | e in Block(s, k) ensures Layer(e.link) == k {
        BlockLayer(s, k, e);
      }
      LayersConcat(Block(s, k), EdgesFrom(s, k + 1), k);
    }
  }

  lemma LayersConcat(a: seq<Edge>, b: seq<Edge>, k: nat)
    requires (forall e :: e in a ==> Layer(e.link) == k) && EdgesInLayers(b, k + 1)
    ensures EdgesInLayers(a + b, k)
  {
    var es := a + b;
    forall i, j | 0 <= i < j < |es| ensures Layer(es[i].link) <= Layer(es[j].link) {
      assert es[i] in a || (es[i] == b[i - |a|] && es[j] == b[j - |a|]);
      assert es[j] in a || es[j] in b;
    }
  }

  /** Every schema's tree has its children in layers. */
  lemma {:induction false} SchemaLayered(s: Schema)
    ensures Layered(TreeOf(s))
  {
    EdgesFromInLayers(s, 0);
    var kids := TreeOf(s).kids;
    forall k | k in kids ensures Layered(k.tree) {
      var i :| 0 <= i < |kids| && kids[i] == k;
      assert Edges(s)[i] in Edges(s);
      SchemaLayered(Edges(s)[i].child);
    }
  }

  // ---------------------------------------------------------------- partners in another order

  /** The partner of a kid in the other order. */
  lemma Partner(s: Tree, t: Tree, i: nat) returns (j: nat)
    requires Reordered(s, t) && WellFormed(s) && WellFormed(t) && i < |s.kids|
    ensures j < |t.kids| && t.kids[j].link == s.kids[i].link
    ensures Reordered(s.kids[i].tree, t.kids[j].tree)
    ensures !s.kids[i].link.FromMap() ==> j == i
  {
    var l := s.kids[i].link;
    FindAt(s.kids, i);
    j :| 0 <= j < |t.kids| && t.kids[j] == Kid(l, Follow(t, l).value);
  }

  lemma {:induction false} ReorderedSymmetric(s: Tree, t: Tree)
    requires Reordered(s, t)
    ensures Reordered(t, s)
    decreases s
  {
    forall l | Follow(s, l).Some? ensures Reordered(Follow(t, l).value, Follow(s, l).value) {
      ReorderedSymmetric(Follow(s, l).value, Follow(t, l).value);
    }
    forall i | 0 <= i < |t.kids| && !t.kids[i].link.FromMap() ensures s.kids[i].link == t.kids[i].link {
    }
  }

  /** A later sibling that a range over their common map may also yield earlier. */
  predicate Swappable(t: Tree, i: nat, j: nat) {
    && i < |t.kids| && j < |t.kids|
    && t.kids[i].link.FromMap() && Layer(t.kids[i].link) == Layer(t.kids[j].link)
  }

  /** Siblings that stand in one order here and in the other order there share a map. */
  lemma CrossedSwappable(s: Tree, t: Tree, i: nat, m: nat, j: nat, n: nat)
    requires InLayers(s.kids) && InLayers(t.kids) && SamePlaces(s, t)
    requires i < m < |s.kids| && n < j < |t.kids|
    requires s.kids[i].link == t.kids[j].link && s.kids[m].link == t.kids[n].link
    requires !s.kids[i].link.FromMap() ==> i == j
    requires !s.kids[m].link.FromMap() ==> m == n
    ensures Swappable(s, i, m)
  {
    assert Layer(s.kids[i].link) <= Layer(s.kids[m].link);
    assert Layer(t.kids[n].link) <= Layer(t.kids[j].link);
  }

  // ---------------------------------------------------------------- every order of a map can be had

  function Children(es: seq<Edge>): (cs: seq<Schema>)
    ensures |cs| == |es| && forall i :: 0 <= i < |es| ==> cs[i] == es[i].child
  {
    seq(|es|, i requires 0 <= i < |es| => es[i].child)
  }

  function NameOf(l: Link): string {
    if l.FromMap() then l.name else ""
  }

  function Entries(es: seq<Edge>): (ds: seq<Entry>)
    ensures |ds| == |es| && forall i :: 0 <= i < |es| ==> ds[i] == Entry(NameOf(es[i].link), es[i].child)
  {
    seq(|es|, i requires 0 <= i < |es| => Entry(NameOf(es[i].link), es[i].child))
  }

  function OptionalEntries(es: seq<Edge>): (ds: seq<OptionalEntry>)
    ensures |ds| == |es|
    ensures forall i :: 0 <= i < |es| ==> ds[i] == OptionalEntry(NameOf(es[i].link), Some(es[i].child))
  {
    seq(|es|, i requires 0 <= i < |es| => OptionalEntry(NameOf(es[i].link), Some(es[i].child)))
  }

  function First(es: seq<Edge>): Option<Schema> {
    if es == [] then None else Some(es[0].child)
  }

  /** The same places: a map may list its entries in another order, and every child may be another schema. */
  predicate Fits(s: Schema, k: nat, b: seq<Edge>)
    requires k < KINDS
  {
    && |b| == |Block(s, k)|
    && forall i :: 0 <= i < |b| ==>
      && Layer(b[i].link) == k
      && (!b[i].link.FromMap() ==> b[i].link == Block(s, k)[i].link)
  }

  /** The schema with other children of kind k. */
  function SetBlock(s: Schema, k: nat, b: seq<Edge>): Schema
    requires k < KINDS && Fits(s, k, b)
  {
    match k
    case 0 =>
      if s.items.None? then s
      else if s.items.value.schema.None? then s.(items := Some(ItemsProps(None, Children(b))))
      else s.(items := Some(ItemsProps(First(b), Children(b[1..]))))
    case 1 => s.(allOf := Children(b))
    case 2 => s.(anyOf := Children(b))
    case 3 => s.(oneOf := Children(b))
    case 4 => s.(not := First(b))
    case 5 => s.(properties := Entries(b))
    case 6 =>
      if s.additionalProperties.None? then s
      else s.(additionalProperties := Some(s.additionalProperties.value.(schema := First(b))))
    case 7 => s.(patternProperties := Entries(b))
    case 8 =>
      if s.additionalItems.None? then s
      else s.(additionalItems := Some(s.additionalItems.value.(schema := First(b))))
    case 9 => s.(definitions := Entries(b))
    case _ => s.(dependencies := OptionalEntries(b))
  }

  lemma {:induction false} DependencyEdgesOf(b: seq<Edge>)
    requires forall e :: e in b ==> e.link.Dependency?
    ensures DependencyEdges(OptionalEntries(b)) == b
    decreases |b|
  {
    if b != [] {
      assert OptionalEntries(b)[1..] == OptionalEntries(b[1..]);
      DependencyEdgesOf(b[1..]);
    }
  }

  lemma ItemsBlock(s: Schema)
    ensures Block(s, 0) == ItemsEdges(s.items)
  {
  }

  lemma ListedItems(es: seq<Edge>)
    requires forall i :: 0 <= i < |es| ==> es[i].link == ItemsAt(i)
    ensures IndexedEdges((i: nat) => ItemsAt(i), Children(es)) == es
  {
  }

  lemma SetItems(s: Schema, b: seq<Edge>)
    requires Fits(s, 0, b)
    ensures Block(SetBlock(s, 0, b), 0) == b
  {
    hide Block, IndexedEdges, Children;
    ItemsBlock(s);
    ItemsBlock(SetBlock(s, 0, b));
    if s.items.Some? {
      var n := |OptionalEdge(Items, s.items.value.schema)|;
      ItemsPlaces(s.items.value, b);
      ListedItems(b[n..]);
      assert b == b[..n] + b[n..];
    }
  }

  lemma ItemsPlaces(items: ItemsProps, b: seq<Edge>)
    requires |b| == |ItemsEdges(Some(items))|
    requires forall i :: 0 <= i < |b| && !b[i].link.FromMap() ==> b[i].link == ItemsEdges(Some(items))[i].link
    requires forall i :: 0 <= i < |b| ==> Layer(b[i].link) == 0
    ensures var n := |OptionalEdge(Items, items.schema)|;
      && n <= |b| && (n == 1 ==> b[0].link == Items) && (n == 0 || n == 1)
      && forall i :: 0 <= i < |b| - n ==> b[n..][i].link == ItemsAt(i)
  {
  }

  lemma SetAllOf(s: Schema, b: seq<Edge>)
    requires Fits(s, 1, b)
    ensures Block(SetBlock(s, 1, b), 1) == b
  {
  }

  lemma SetAnyOf(s: Schema, b: seq<Edge>)
    requires Fits(s, 2, b)
    ensures Block(SetBlock(s, 2, b), 2) == b
  {
  }

  lemma SetOneOf(s: Schema, b: seq<Edge>)
    requires Fits(s, 3, b)
    ensures Block(SetBlock(s, 3, b), 3) == b
  {
  }

  lemma SetNamed(s: Schema, k: nat, b: seq<Edge>)
    requires k == 5 || k == 7 || k == 9
    requires Fits(s, k, b)
    ensures Block(SetBlock(s, k, b), k) == b
  {
  }

  lemma SetSingle(s: Schema, k: nat, b: seq<Edge>)
    requires k == 4 || k == 6 || k == 8
    requires Fits(s, k, b)
    ensures Block(SetBlock(s, k, b), k) == b
  {
  }

  lemma SetBlockThere(s: Schema, k: nat, b: seq<Edge>)
    requires k < KINDS && Fits(s, k, b)
    ensures Block(SetBlock(s, k, b), k) == b
  {
    hide Block, SetBlock;
    if k == 0 {
      SetItems(s, b);
    } else if k == 1 {
      SetAllOf(s, b);
    } else if k == 2 {
      SetAnyOf(s, b);
    } else if k == 3 {
      SetOneOf(s, b);
    } else if k == 5 || k == 7 || k == 9 {
      SetNamed(s, k, b);
    } else if k < 10 {
      SetSingle(s, k, b);
    } else {
      SetDependencies(s, b);
    }
  }

  lemma SetDependencies(s: Schema, b: seq<Edge>)
    requires Fits(s, 10, b)
    ensures Block(SetBlock(s, 10, b), 10) == b
  {
    DependencyEdgesOf(b);
  }

  lemma SetBlockElsewhere(s: Schema, k: nat, b: seq<Edge>, j: nat)
    requires k < KINDS && Fits(s, k, b) && j < KINDS && j != k
    ensures Block(SetBlock(s, k, b), j) == Block(s, j)
    ensures FactsOf(SetBlock(s, k, b)) == FactsOf(s)
  {
  }

  /** The children of the kinds before k. */
  function EdgesBefore(s: Schema, k: nat): seq<Edge>
    requires k <= KINDS
  {
    if k == 0 then [] else EdgesBefore(s, k - 1) + Block(s, k - 1)
  }

  lemma {:induction false} EdgesAround(s: Schema, k: nat)
    requires k <= KINDS
    ensures Edges(s) == EdgesBefore(s, k) + EdgesFrom(s, k)
  {
    hide Block, EdgesFrom;
    if k == 0 {
      assert [] + EdgesFrom(s, 0) == EdgesFrom(s, 0);
    } else {
      EdgesAround(s, k - 1);
      EdgesFromStep(s, k - 1);
      Regroup(EdgesBefore(s, k - 1), Block(s, k - 1), EdgesFrom(s, k));
    }
  }

  lemma EdgesFromStep(s: Schema, k: nat)
    requires k < KINDS
    ensures EdgesFrom(s, k) == Block(s, k) + EdgesFrom(s, k + 1)
  {
    hide Block;
  }

  lemma Regroup(a: seq<Edge>, b: seq<Edge>, c: seq<Edge>)
    ensures a + (b + c) == a + b + c
  {
  }

  lemma {:induction false} EdgesBeforeLayers(s: Schema, k: nat)
    requires k <= KINDS
    ensures forall e :: e in EdgesBefore(s, k) ==> Layer(e.link) < k
  {
    hide Block, Layer;
    if k > 0 {
      EdgesBeforeLayers(s, k - 1);
      forall e | e in Block(s, k - 1) ensures Layer(e.link) == k - 1 {
        BlockLayer(s, k - 1, e);
      }
    }
  }

  lemma {:induction false} SameBefore(s: Schema, r: Schema, k: nat)
    requires k <= KINDS && forall j: nat :: j < k ==> Block(r, j) == Block(s, j)
    ensures EdgesBefore(r, k) == EdgesBefore(s, k)
  {
    hide Block;
    if k > 0 {
      SameBefore(s, r, k - 1);
    }
  }

  lemma {:induction false} SameFrom(s: Schema, r: Schema, k: nat)
    requires k <= KINDS && forall j: nat :: k <= j < KINDS ==> Block(r, j) == Block(s, j)
    ensures EdgesFrom(r, k) == EdgesFrom(s, k)
    decreases KINDS - k
  {
    hide Block;
    if k < KINDS {
      SameFrom(s, r, k + 1);
    }
  }

  lemma {:induction false} EdgesSplit(s: Schema, k: nat)
    requires k < KINDS
    ensures Edges(s) == EdgesBefore(s, k) + Block(s, k) + EdgesFrom(s, k + 1)
  {
    hide Block, EdgesBefore, Edges, EdgesFrom;
    EdgesAround(s, k);
    EdgesFromStep(s, k);
    Regroup(EdgesBefore(s, k), Block(s, k), EdgesFrom(s, k + 1));
  }

  lemma InTheMiddle(a: seq<Edge>, b: seq<Edge>, c: seq<Edge>, k: nat, i: nat)
    requires forall e :: e in a ==> Layer(e.link) < k
    requires forall e :: e in c ==> k < Layer(e.link)
    requires i < |a + b + c| && Layer((a + b + c)[i].link) == k
    ensures |a| <= i < |a| + |b| && (a + b + c)[i] == b[i - |a|]
  {
    hide Layer;
    assert forall j :: 0 <= j < |a| ==> Layer((a + b + c)[j].link) < k;
    assert forall j :: 0 <= j < |c| ==> (a + b + c)[|a| + |b| + j] == c[j];
  }

  /** Where the children of kind k stand among all of them. */
  lemma {:induction false} BlockPlace(s: Schema, k: nat, i: nat)
    requires k < KINDS && i < |Edges(s)| && Layer(Edges(s)[i].link) == k
    ensures var n := |EdgesBefore(s, k)|;
      n <= i < n + |Block(s, k)| && Edges(s)[i] == Block(s, k)[i - n]
  {
    hide Block, Layer, Edges, EdgesFrom, EdgesBefore;
    EdgesSplit(s, k);
    EdgesBeforeLayers(s, k);
    EdgesFromInLayers(s, k + 1);
    InTheMiddle(EdgesBefore(s, k), Block(s, k), EdgesFrom(s, k + 1), k, i);
  }

  lemma {:induction false} SetBlockEdges(s: Schema, k: nat, b: seq<Edge>)
    requires k < KINDS && Fits(s, k, b)
    ensures FactsOf(SetBlock(s, k, b)) == FactsOf(s)
    ensures Edges(SetBlock(s, k, b)) == EdgesBefore(s, k) + b + EdgesFrom(s, k + 1)
  {
    hide Block, SetBlock, Fits, EdgesBefore, EdgesFrom, Edges, FactsOf;
    var r := SetBlock(s, k, b);
    SetBlockThere(s, k, b);
    forall j: nat | j < KINDS && j != k ensures Block(r, j) == Block(s, j) {
      SetBlockElsewhere(s, k, b, j);
    }
    SetBlockElsewhere(s, k, b, if k == 0 then 1 else 0);
    EdgesSplit(r, k);
    SameBefore(s, r, k);
    SameFrom(s, r, k + 1);
  }

  /** Edge i moves to place e, which the same map fills, and gets another child; what was at e moves to i. */
  function Moved(es: seq<Edge>, i: nat, e: nat, c: Schema): (r: seq<Edge>)
    requires i < |es| && e < |es|
    ensures |r| == |es| && r[e] == Edge(es[i].link, c) && (i != e ==> r[i] == es[e])
    ensures forall j :: 0 <= j < |es| && j != i && j != e ==> r[j] == es[j]
  {
    es[i := es[e]][e := Edge(es[i].link, c)]
  }

  lemma MovedFits(s: Schema, k: nat, i: nat, e: nat, c: Schema)
    requires k < KINDS && i < |Block(s, k)| && e < |Block(s, k)|
    requires i == e || Block(s, k)[i].link.FromMap()
    ensures Fits(s, k, Moved(Block(s, k), i, e, c))
  {
    hide Block;
    forall j | 0 <= j < |Block(s, k)| ensures Layer(Block(s, k)[j].link) == k {
      BlockLayer(s, k, Block(s, k)[j]);
    }
  }

  lemma MovedMiddle(a: seq<Edge>, b: seq<Edge>, c: seq<Edge>, i: nat, e: nat, child: Schema)
    requires i < |b| && e < |b|
    ensures Moved(a + b + c, |a| + i, |a| + e, child) == a + Moved(b, i, e, child) + c
  {
  }

  /** A map may yield any of its entries in any of its places. */
  lemma Rearranged(s: Schema, i: nat, e: nat, c: Schema) returns (r: Schema)
    requires i < |Edges(s)| && e < |Edges(s)| && Layer(Edges(s)[i].link) == Layer(Edges(s)[e].link)
    requires i == e || Edges(s)[i].link.FromMap()
    ensures FactsOf(r) == FactsOf(s) && Edges(r) == Moved(Edges(s), i, e, c)
  {
    hide Block, SetBlock, Layer, Fits, Edges, EdgesFrom, EdgesBefore, FactsOf, Moved;
    var k := Layer(Edges(s)[i].link);
    LayerKind(Edges(s)[i].link);
    var a, b, d := EdgesBefore(s, k), Block(s, k), EdgesFrom(s, k + 1);
    BlockPlace(s, k, i);
    BlockPlace(s, k, e);
    MovedFits(s, k, i - |a|, e - |a|, c);
    r := SetBlock(s, k, Moved(b, i - |a|, e - |a|, c));
    SetBlockEdges(s, k, Moved(b, i - |a|, e - |a|, c));
    EdgesSplit(s, k);
    MovedMiddle(a, b, d, i - |a|, e - |a|, c);
  }

  lemma LayerKind(l: Link)
    ensures Layer(l) < KINDS
  {
  }

  /** Moving one entry of a map, and reordering what is below it, is a reordering. */
  lemma {:induction false} MovedReordered(s: Tree, t: Tree, i: nat, e: nat)
    requires WellFormed(s) && s.facts == t.facts && |s.kids| == |t.kids| && i < |s.kids| && e < |s.kids|
    requires i == e || (s.kids[i].link.FromMap() && s.kids[e].link.FromMap())
    requires t.kids[e].link == s.kids[i].link
    requires WellFormed(t.kids[e].tree) && Reordered(s.kids[i].tree, t.kids[e].tree)
    requires i != e ==> t.kids[i] == s.kids[e]
    requires forall j :: 0 <= j < |s.kids| && j != i && j != e ==> t.kids[j] == s.kids[j]
    ensures Reordered(s, t) && WellFormed(t)
  {
    assert DistinctLinks(t.kids);
    forall l ensures (Follow(s, l).Some? <==> Follow(t, l).Some?)
             ensures Follow(s, l).Some? ==> Reordered(Follow(s, l).value, Follow(t, l).value)
    {
      if j :| 0 <= j < |s.kids| && s.kids[j].link == l {
        var j' := if j == i then e else if j == e then i else j;
        FindAt(s.kids, j);
        FindAt(t.kids, j');
        ReorderedReflexive(s.kids[j].tree);
      } else {
        assert forall j :: 0 <= j < |t.kids| ==> t.kids[j].link != l;
      }
    }
    forall k | k in t.kids ensures WellFormed(k.tree) {
      var j :| 0 <= j < |t.kids| && t.kids[j] == k;
      assert j != e && j != i ==> s.kids[j] in s.kids;
      assert j == i && i != e ==> s.kids[e] in s.kids;
    }
  }
}
