/** JSONSchemaProps as a tree: its twelve kinds of child, addresses, and the preorder of nodes. */
module Schemas {
  import opened Wrappers

  /** One JSONSchemaProps. The rules are its x-kubernetes-validations, as text: none where Go has a nil slice, which an
      empty list is not. rest is everything else the object says, its other keywords and what it says through its
      children, as a text in which the order of maps does not show. A Go map is a sequence of entries, and the order of
      the entries is the order a range yields them in. */
  datatype Schema = Schema(
    typ: string,
    required: seq<string>,
    enums: seq<string>,
    minLength: Option<int>,
    maxLength: Option<int>,
    maxItems: Option<int>,
    maxProperties: Option<int>,
    rules: Option<seq<string>>,
    rest: string,
    items: Option<ItemsProps>,
    allOf: seq<Schema>,
    anyOf: seq<Schema>,
    oneOf: seq<Schema>,
    not: Option<Schema>,
    properties: seq<Entry>,
    additionalProperties: Option<SchemaOrBool>,
    patternProperties: seq<Entry>,
    additionalItems: Option<SchemaOrBool>,
    definitions: seq<Entry>,
    dependencies: seq<OptionalEntry>)

  datatype ItemsProps = ItemsProps(schema: Option<Schema>, jsonSchemas: seq<Schema>)

  datatype SchemaOrBool = SchemaOrBool(allows: bool, schema: Option<Schema>)

  datatype Entry = Entry(name: string, schema: Schema)

  datatype OptionalEntry = OptionalEntry(name: string, schema: Option<Schema>)

  /** A schema with no keyword at all. */
  const PLAIN :=
    Schema("", [], [], None, None, None, None, None, "", None, [], [], [], None, [], None, [], None, [], [])

  /** Which child of its parent a node is. */
  datatype Link =
    | Items
    | ItemsAt(i: nat)
    | AllOf(i: nat)
    | AnyOf(i: nat)
    | OneOf(i: nat)
    | Not
    | Property(name: string)
    | AdditionalProperties
    | Pattern(name: string)
    | AdditionalItems
    | Definition(name: string)
    | Dependency(name: string)
  {
    /** Children that Go keeps in a map and ranges over in an order it does not promise. */
    predicate FromMap() {
      Property? || Pattern? || Definition? || Dependency?
    }
  }

  datatype Edge = Edge(link: Link, child: Schema)

  function OptionalEdge(link: Link, child: Option<Schema>): seq<Edge> {
    if child.Some? then [Edge(link, child.value)] else []
  }

  function IndexedEdges(link: nat -> Link, children: seq<Schema>): (es: seq<Edge>)
    ensures forall e :: e in es ==> e.child in children && exists i: nat :: e.link == link(i)
  {
    seq(|children|, i requires 0 <= i < |children| => Edge(link(i), children[i]))
  }

  function NamedEdges(link: string -> Link, entries: seq<Entry>): (es: seq<Edge>)
    ensures forall e :: e in es ==> exists d :: d in entries && e.child == d.schema && e.link == link(d.name)
  {
    seq(|entries|, i requires 0 <= i < |entries| => Edge(link(entries[i].name), entries[i].schema))
  }

  function DependencyEdges(entries: seq<OptionalEntry>): (es: seq<Edge>)
    decreases |entries|
  {
    if entries == [] then []
    else OptionalEdge(Dependency(entries[0].name), entries[0].schema) + DependencyEdges(entries[1..])
  }

  function ItemsEdges(items: Option<ItemsProps>): seq<Edge> {
    if items.None? then []
    else OptionalEdge(Items, items.value.schema) + IndexedEdges((i: nat) => ItemsAt(i), items.value.jsonSchemas)
  }

  function SchemaOrBoolEdge(link: Link, s: Option<SchemaOrBool>): seq<Edge> {
    if s.None? then [] else OptionalEdge(link, s.value.schema)
  }

  const KINDS := 11

  /** The children of one kind; the two parts of items count as one. */
  function Block(s: Schema, k: nat): (es: seq<Edge>)
    requires k < KINDS
    ensures forall e :: e in es ==> e.child < s
  {
    NamedSmaller(s);
    DependenciesSmaller(s, s.dependencies);
    assert s.items.Some? ==> forall c :: c in s.items.value.jsonSchemas ==> c < s.items.value < s;
    assert s.items.Some? && s.items.value.schema.Some? ==> s.items.value.schema.value < s.items.value < s;
    assert forall c :: c in s.allOf || c in s.anyOf || c in s.oneOf ==> c < s;
    match k
    case 0 => ItemsEdges(s.items)
    case 1 => IndexedEdges((i: nat) => AllOf(i), s.allOf)
    case 2 => IndexedEdges((i: nat) => AnyOf(i), s.anyOf)
    case 3 => IndexedEdges((i: nat) => OneOf(i), s.oneOf)
    case 4 => OptionalEdge(Not, s.not)
    case 5 => NamedEdges(n => Property(n), s.properties)
    case 6 => SchemaOrBoolEdge(AdditionalProperties, s.additionalProperties)
    case 7 => NamedEdges(n => Pattern(n), s.patternProperties)
    case 8 => SchemaOrBoolEdge(AdditionalItems, s.additionalItems)
    case 9 => NamedEdges(n => Definition(n), s.definitions)
    case _ => DependencyEdges(s.dependencies)
  }

  function EdgesFrom(s: Schema, k: nat): (es: seq<Edge>)
    requires k <= KINDS
    ensures forall e :: e in es ==> e.child < s
    decreases KINDS - k
  {
    if k == KINDS then [] else Block(s, k) + EdgesFrom(s, k + 1)
  }

  /** The children in the order SchemaHas descends into them. */
  function Edges(s: Schema): (es: seq<Edge>)
    ensures forall e :: e in es ==> e.child < s
  {
    EdgesFrom(s, 0)
  }

  lemma NamedSmaller(s: Schema)
    ensures forall d :: d in s.properties || d in s.patternProperties || d in s.definitions ==> d.schema < s
    ensures s.additionalProperties.Some? && s.additionalProperties.value.schema.Some?
      ==> s.additionalProperties.value.schema.value < s
    ensures s.additionalItems.Some? && s.additionalItems.value.schema.Some?
      ==> s.additionalItems.value.schema.value < s
  {
    forall d | d in s.properties || d in s.patternProperties || d in s.definitions ensures d.schema < s {
      assert d < s;
    }
    assert s.additionalProperties.Some? ==> s.additionalProperties.value < s;
    assert s.additionalItems.Some? ==> s.additionalItems.value < s;
  }

  lemma {:induction false} DependenciesSmaller(s: Schema, entries: seq<OptionalEntry>)
    requires forall d :: d in entries ==> d in s.dependencies
    ensures forall e :: e in DependencyEdges(entries) ==> e.child < s
    decreases |entries|
  {
    if entries != [] {
      assert entries[0] in entries && entries[0] < s;
      DependenciesSmaller(s, entries[1..]);
    }
  }
}
