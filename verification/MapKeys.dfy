/** The one thing the model asks of a schema because Go gives it for free: the keys of a map are distinct. */
module MapKeys {
  import opened Wrappers
  import opened Schemas
  import opened Trees
  import opened Layers

  predicate DistinctEntries(entries: seq<Entry>) {
    forall i, j :: 0 <= i < j < |entries| ==> entries[i].name != entries[j].name
  }

  predicate DistinctOptionalEntries(entries: seq<OptionalEntry>) {
    forall i, j :: 0 <= i < j < |entries| ==> entries[i].name != entries[j].name
  }

  /** The four maps of every schema in the tree have distinct keys. */
  predicate GoMaps(s: Schema) {
    DistinctKeys(s) && forall e :: e in Edges(s) ==> GoMaps(e.child)
  }

  predicate DistinctKeys(s: Schema) {
    && DistinctEntries(s.properties)
    && DistinctEntries(s.patternProperties)
    && DistinctEntries(s.definitions)
    && DistinctOptionalEntries(s.dependencies)
  }

  predicate DistinctEdges(es: seq<Edge>) {
    forall i, j :: 0 <= i < j < |es| ==> es[i].link != es[j].link
  }

  lemma {:induction false} DependencyNames(entries: seq<OptionalEntry>, e: Edge)
    requires e in DependencyEdges(entries)
    ensures exists d :: d in entries && e.link == Dependency(d.name)
    decreases |entries|
  {
    if e !in OptionalEdge(Dependency(entries[0].name), entries[0].schema) {
      DependencyNames(entries[1..], e);
    } else {
      assert entries[0] in entries;
    }
  }

  lemma {:induction false} DependenciesDistinct(entries: seq<OptionalEntry>)
    requires DistinctOptionalEntries(entries)
    ensures DistinctEdges(DependencyEdges(entries))
    decreases |entries|
  {
    if entries != [] {
      var rest := entries[1..];
      DependenciesDistinct(rest);
      forall e | e in DependencyEdges(rest) ensures e.link != Dependency(entries[0].name) {
        DependencyNames(rest, e);
        var d :| d in rest && e.link == Dependency(d.name);
        var i :| 0 <= i < |rest| && rest[i] == d;
        assert entries[i + 1] == d;
      }
    }
  }

  lemma IndexedDistinct(link: nat -> Link, children: seq<Schema>)
    requires forall i: nat, j: nat :: i != j ==> link(i) != link(j)
    ensures DistinctEdges(IndexedEdges(link, children))
  {
  }

  lemma NamedDistinct(link: string -> Link, entries: seq<Entry>)
    requires DistinctEntries(entries) && forall m, n :: m != n ==> link(m) != link(n)
    ensures DistinctEdges(NamedEdges(link, entries))
  {
  }

  lemma ItemsDistinct(items: Option<ItemsProps>)
    ensures DistinctEdges(ItemsEdges(items))
  {
  }

  lemma BlockDistinct(s: Schema, k: nat)
    requires DistinctKeys(s) && k < KINDS
    ensures DistinctEdges(Block(s, k))
  {
    match k
    case 0 => ItemsDistinct(s.items);
    case 1 => IndexedDistinct((i: nat) => AllOf(i), s.allOf);
    case 2 => IndexedDistinct((i: nat) => AnyOf(i), s.anyOf);
    case 3 => IndexedDistinct((i: nat) => OneOf(i), s.oneOf);
    case 5 => NamedDistinct(n => Property(n), s.properties);
    case 7 => NamedDistinct(n => Pattern(n), s.patternProperties);
    case 9 => NamedDistinct(n => Definition(n), s.definitions);
    case 10 => DependenciesDistinct(s.dependencies);
    case _ =>
  }

  lemma {:induction false} EdgesFromDistinct(s: Schema, k: nat)
    requires DistinctKeys(s) && k <= KINDS
    ensures DistinctEdges(EdgesFrom(s, k))
    decreases KINDS - k
  {
    hide Block;
    if k < KINDS {
      EdgesFromDistinct(s, k + 1);
      BlockDistinct(s, k);
      EdgesFromInLayers(s, k + 1);
      forall e | e in Block(s, k) ensures Layer(e.link) == k {
        BlockLayer(s, k, e);
      }
      LayersApart(Block(s, k), EdgesFrom(s, k + 1), k);
    }
  }

  lemma LayersApart(a: seq<Edge>, b: seq<Edge>, k: nat)
    requires DistinctEdges(a) && DistinctEdges(b)
    requires (forall e :: e in a ==> Layer(e.link) == k) && (forall e :: e in b ==> k + 1 <= Layer(e.link))
    ensures DistinctEdges(a + b)
  {
    var es := a + b;
    forall i, j | 0 <= i < j < |es| ensures es[i].link != es[j].link {
      if i < |a| <= j {
        assert es[i] in a && es[j] in b;
      }
    }
  }

  /** A schema built from Go maps is well formed. */
  lemma {:induction false} GoMapsWellFormed(s: Schema)
    requires GoMaps(s)
    ensures WellFormed(TreeOf(s))
  {
    EdgesFromDistinct(s, 0);
    var kids := TreeOf(s).kids;
    forall k | k in kids ensures WellFormed(k.tree) {
      var i :| 0 <= i < |kids| && kids[i] == k;
      assert Edges(s)[i] in Edges(s);
      GoMapsWellFormed(Edges(s)[i].child);
    }
  }
}
