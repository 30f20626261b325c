/** Nodes of a schema tree: addresses, what a visit shows of a node, and the preorder of visits. */
module Trees {
  import opened Wrappers
  import opened Schemas

  type Address = seq<Link>

  /** What a closure may read of one node. The children are not among the facts, but rest may tell of them. */
  datatype Facts = Facts(
    typ: string,
    required: seq<string>,
    enums: seq<string>,
    minLength: Option<int>,
    maxLength: Option<int>,
    maxItems: Option<int>,
    maxProperties: Option<int>,
    rules: Option<seq<string>>,
    rest: string,
    hasAdditionalProperties: bool)

  function FactsOf(s: Schema): Facts {
    Facts(s.typ, s.required, s.enums, s.minLength, s.maxLength, s.maxItems, s.maxProperties, s.rules,
          s.rest, s.additionalProperties.Some?)
  }

  /** What the walker sees of a schema: every node with its facts and its children in walking order. */
  datatype Tree = Node(facts: Facts, kids: seq<Kid>)

  datatype Kid = Kid(link: Link, tree: Tree)

  function TreeOf(s: Schema): Tree {
    Node(FactsOf(s), KidsOf(s, Edges(s)))
  }

  function KidsOf(s: Schema, es: seq<Edge>): (kids: seq<Kid>)
    requires forall e :: e in es ==> e.child < s
    ensures |kids| == |es|
    ensures forall i :: 0 <= i < |es| ==> kids[i] == Kid(es[i].link, TreeOf(es[i].child))
    decreases s, |es|
  {
    if es == [] then [] else [Kid(es[0].link, TreeOf(es[0].child))] + KidsOf(s, es[1..])
  }

  /** Go map keys are distinct, so the children of a node have distinct links. */
  predicate DistinctLinks(kids: seq<Kid>) {
    forall i, j :: 0 <= i < j < |kids| ==> kids[i].link != kids[j].link
  }

  predicate WellFormed(t: Tree) {
    && DistinctLinks(t.kids)
    && forall k :: k in t.kids ==> WellFormed(k.tree)
  }

  // ---------------------------------------------------------------- addresses

  ghost function Find(kids: seq<Kid>, l: Link): Option<Tree> {
    if kids == [] then None
    else if kids[0].link == l then Some(kids[0].tree)
    else Find(kids[1..], l)
  }

  lemma {:induction false} FindIn(kids: seq<Kid>, l: Link)
    ensures Find(kids, l).Some? ==> Kid(l, Find(kids, l).value) in kids
    ensures Find(kids, l).None? ==> forall k :: k in kids ==> k.link != l
  {
    if kids != [] {
      FindIn(kids[1..], l);
    }
  }

  lemma {:induction false} FindAt(kids: seq<Kid>, i: nat)
    requires DistinctLinks(kids) && i < |kids|
    ensures Find(kids, kids[i].link) == Some(kids[i].tree)
  {
    if i != 0 {
      FindAt(kids[1..], i - 1);
    }
  }

  /** The child reached over a link. */
  ghost function Follow(t: Tree, l: Link): (c: Option<Tree>)
    ensures c.Some? ==> c.value < t && Kid(l, c.value) in t.kids
    ensures c.None? ==> forall k :: k in t.kids ==> k.link != l
  {
    FindIn(t.kids, l);
    Find(t.kids, l)
  }

  ghost function At(t: Tree, a: Address): Option<Tree>
    decreases |a|
  {
    if a == [] then Some(t)
    else if Follow(t, a[0]).None? then None
    else At(Follow(t, a[0]).value, a[1..])
  }

  ghost predicate Has(t: Tree, a: Address) {
    At(t, a).Some?
  }

  ghost function FactsAt(t: Tree, a: Address): Facts
    requires Has(t, a)
  {
    At(t, a).value.facts
  }

  lemma {:induction false} AtAppend(t: Tree, a: Address, b: Address)
    ensures At(t, a + b) == if Has(t, a) then At(At(t, a).value, b) else None
    decreases |a|
  {
    if a == [] {
      assert a + b == b;
    } else if Follow(t, a[0]).Some? {
      AtAppend(Follow(t, a[0]).value, a[1..], b);
      assert (a + b)[0] == a[0] && (a + b)[1..] == a[1..] + b;
    } else {
      assert (a + b)[0] == a[0];
    }
  }

  lemma HasPrefix(t: Tree, a: Address, i: nat)
    requires i <= |a| && Has(t, a)
    ensures Has(t, a[..i])
  {
    AtAppend(t, a[..i], a[i..]);
    assert a == a[..i] + a[i..];
  }

  // ---------------------------------------------------------------- visits

  /** One call of the walker's callback: where it is, and the facts of every node from the root down to it. */
  datatype Visit = Visit(addr: Address, chain: seq<Facts>) {
    predicate Valid() {
      |chain| == |addr| + 1
    }

    function Here(): Facts
      requires Valid()
    {
      chain[|addr|]
    }

    /** The visit of the ancestor at depth i. */
    function Ancestor(i: nat): (v: Visit)
      requires Valid() && i <= |addr|
      ensures v.Valid()
    {
      Visit(addr[..i], chain[..i + 1])
    }
  }

  /** The calls SchemaHas makes below a node when the callback never answers true. */
  function Visits(t: Tree, addr: Address, chain: seq<Facts>): seq<Visit>
    decreases t, |t.kids| + 1
  {
    [Visit(addr, chain + [t.facts])] + KidVisits(t, 0, addr, chain + [t.facts])
  }

  function KidVisits(t: Tree, k: nat, addr: Address, chain: seq<Facts>): seq<Visit>
    requires k <= |t.kids|
    decreases t, |t.kids| - k
  {
    if k == |t.kids| then []
    else
      var kid := t.kids[k];
      Visits(kid.tree, addr + [kid.link], chain) + KidVisits(t, k + 1, addr, chain)
  }

  function Walk(t: Tree): seq<Visit> {
    Visits(t, [], [])
  }

  /** The facts from a node down to one of its descendants. */
  ghost function ChainTo(t: Tree, a: Address): (c: seq<Facts>)
    requires Has(t, a)
    ensures |c| == |a| + 1
    decreases |a|
  {
    [t.facts] + if a == [] then [] else ChainTo(Follow(t, a[0]).value, a[1..])
  }

  ghost function VisitOf(t: Tree, a: Address): (v: Visit)
    requires Has(t, a)
    ensures v.Valid() && v.addr == a
  {
    Visit(a, ChainTo(t, a))
  }

  lemma {:induction false} ChainToAt(t: Tree, a: Address, i: nat)
    requires Has(t, a) && i <= |a|
    ensures Has(t, a[..i])
    ensures ChainTo(t, a)[i] == FactsAt(t, a[..i])
    ensures ChainTo(t, a)[..i + 1] == ChainTo(t, a[..i])
    decreases |a|
  {
    HasPrefix(t, a, i);
    if i != 0 {
      ChainToAt(Follow(t, a[0]).value, a[1..], i - 1);
      assert a[..i][0] == a[0] && a[..i][1..] == a[1..][..i - 1];
    }
  }

  lemma AncestorVisit(t: Tree, a: Address, i: nat)
    requires Has(t, a) && i <= |a|
    ensures Has(t, a[..i])
    ensures VisitOf(t, a).Ancestor(i) == VisitOf(t, a[..i])
    ensures VisitOf(t, a).Here() == FactsAt(t, a)
  {
    ChainToAt(t, a, i);
    ChainToAt(t, a, |a|);
    assert a[..|a|] == a;
  }

  // ---------------------------------------------------------------- every node once

  /** A visit below (t, addr, chain) shows a node that is there. */
  lemma {:induction false} VisitsSound(t: Tree, addr: Address, chain: seq<Facts>, v: Visit) returns (a: Address)
    requires v in Visits(t, addr, chain) && WellFormed(t)
    ensures Has(t, a) && v == Visit(addr + a, chain + ChainTo(t, a))
    decreases t, |t.kids| + 1
  {
    if v == Visit(addr, chain + [t.facts]) {
      a := [];
      assert addr + a == addr;
    } else {
      var c := chain + [t.facts];
      a := KidVisitsSound(t, 0, addr, c, v);
      assert chain + ChainTo(t, a) == c + ChainTo(t, a)[1..];
    }
  }

  /** A node below a kid, as a node of the tree. */
  lemma {:induction false} BelowKid(t: Tree, k: nat, b: Address)
    requires WellFormed(t) && k < |t.kids| && Has(t.kids[k].tree, b)
    ensures var a := [t.kids[k].link] + b;
      Has(t, a) && ChainTo(t, a)[1..] == ChainTo(t.kids[k].tree, b)
  {
    FindAt(t.kids, k);
    assert ([t.kids[k].link] + b)[1..] == b;
  }

  lemma {:induction false} KidVisitsSound(t: Tree, k: nat, addr: Address, chain: seq<Facts>, v: Visit)
    returns (a: Address)
    requires k <= |t.kids| && v in KidVisits(t, k, addr, chain) && WellFormed(t)
    ensures a != [] && Has(t, a) && v == Visit(addr + a, chain + ChainTo(t, a)[1..])
    ensures exists j :: k <= j < |t.kids| && t.kids[j].link == a[0]
    decreases t, |t.kids| - k
  {
    hide ChainTo, At, Follow;
    var kid := t.kids[k];
    assert kid in t.kids;
    if v in Visits(kid.tree, addr + [kid.link], chain) {
      var b := VisitsSound(kid.tree, addr + [kid.link], chain, v);
      a := [kid.link] + b;
      BelowKid(t, k, b);
      assert addr + [kid.link] + b == addr + a;
    } else {
      a := KidVisitsSound(t, k + 1, addr, chain, v);
    }
  }

  /** Every node below (t, addr, chain) is shown by a visit. */
  lemma {:induction false} VisitsComplete(t: Tree, addr: Address, chain: seq<Facts>, a: Address)
    requires Has(t, a)
    ensures Visit(addr + a, chain + ChainTo(t, a)) in Visits(t, addr, chain)
    decreases |a|
  {
    var c := chain + [t.facts];
    if a == [] {
      assert addr + a == addr && ChainTo(t, a) == [t.facts];
      assert Visits(t, addr, chain)[0] == Visit(addr + a, chain + ChainTo(t, a));
    } else {
      var child := Follow(t, a[0]).value;
      var k :| 0 <= k < |t.kids| && t.kids[k] == Kid(a[0], child);
      VisitsComplete(child, addr + [a[0]], c, a[1..]);
      assert addr + [a[0]] + a[1..] == addr + a;
      assert chain + ChainTo(t, a) == c + ChainTo(child, a[1..]);
      KidVisitsInclude(t, 0, k, addr, c, Visit(addr + a, chain + ChainTo(t, a)));
    }
  }

  lemma {:induction false} KidVisitsInclude(t: Tree, k: nat, j: nat, addr: Address, chain: seq<Facts>, v: Visit)
    requires k <= j < |t.kids|
    requires v in Visits(t.kids[j].tree, addr + [t.kids[j].link], chain)
    ensures v in KidVisits(t, k, addr, chain)
    decreases j - k
  {
    if k < j {
      KidVisitsInclude(t, k + 1, j, addr, chain, v);
    }
  }

  /** The walk shows exactly the nodes of the tree, each with its own chain of ancestors. */
  lemma {:induction false} WalkShowsNodes(t: Tree, v: Visit)
    requires WellFormed(t)
    ensures v in Walk(t) <==> Has(t, v.addr) && v == VisitOf(t, v.addr)
  {
    if v in Walk(t) {
      var a := VisitsSound(t, [], [], v);
      assert [] + a == a && [] + ChainTo(t, a) == ChainTo(t, a);
    }
    if Has(t, v.addr) && v == VisitOf(t, v.addr) {
      VisitsComplete(t, [], [], v.addr);
      assert [] + v.addr == v.addr && [] + v.chain == v.chain;
    }
  }

  ghost predicate NoRepeats(vs: seq<Visit>) {
    forall i, j :: 0 <= i < j < |vs| ==> vs[i].addr != vs[j].addr
  }

  /** No node is shown twice. */
  lemma {:induction false} WalkShowsOnce(t: Tree)
    requires WellFormed(t)
    ensures NoRepeats(Walk(t))
  {
    VisitsNoRepeats(t, [], []);
  }

  lemma {:induction false} VisitsNoRepeats(t: Tree, addr: Address, chain: seq<Facts>)
    requires WellFormed(t)
    ensures NoRepeats(Visits(t, addr, chain))
    decreases t, |t.kids| + 1
  {
    var c := chain + [t.facts];
    KidVisitsNoRepeats(t, 0, addr, c);
    forall v | v in KidVisits(t, 0, addr, c) ensures v.addr != addr {
      var a := KidVisitsSound(t, 0, addr, c, v);
    }
  }

  lemma {:induction false} KidVisitsNoRepeats(t: Tree, k: nat, addr: Address, chain: seq<Facts>)
    requires WellFormed(t) && k <= |t.kids|
    ensures NoRepeats(KidVisits(t, k, addr, chain))
    decreases t, |t.kids| - k
  {
    if k < |t.kids| {
      var kid := t.kids[k];
      assert kid in t.kids;
      VisitsNoRepeats(kid.tree, addr + [kid.link], chain);
      KidVisitsNoRepeats(t, k + 1, addr, chain);
      forall v, w | v in Visits(kid.tree, addr + [kid.link], chain) && w in KidVisits(t, k + 1, addr, chain)
        ensures v.addr != w.addr
      {
        var a := VisitsSound(kid.tree, addr + [kid.link], chain, v);
        var b := KidVisitsSound(t, k + 1, addr, chain, w);
        assert v.addr[|addr|] == kid.link && w.addr[|addr|] == b[0];
      }
    }
  }
}
