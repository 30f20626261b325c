/** NoNewRequiredFields keys its tables by path text. What it reports when nodes share a path: definitions all have the
    path of their parent's keyword, and a bracket in a name can defeat the pattern that reads the last key. */
module SharedPaths {
  import opened Wrappers
  import opened Paths
  import opened Schemas
  import opened Trees
  import opened Addresses
  import opened Orders
  import opened Callbacks
  import opened Walker
  import opened Collected
  import opened Crds
  import opened LastWriters
  import opened TypeOrder
  import opened NewlyRequired
  import opened Instances
  import opened RequiredMeaning
  import opened Witnesses
  import opened NoNewRequiredFields

  // ---------------------------------------------------------------- one schema with itself, in any orders

  /** Every node writes its required names under its path. */
  const REQUIRED: Column<set<string>> := Column((a: Address) => PathText(a), (f: Facts) => SetOf(f.required))

  /** Three walks of one tree, however its nodes are named. */
  ghost predicate Shown(vs: seq<Visit>, t: Tree) {
    AllValid(vs) && WellFormed(t) && SameVisits(vs, Nodes(Some(t)))
  }

  lemma ShownNode(vs: seq<Visit>, t: Tree, v: Visit)
    requires Shown(vs, t)
    ensures v in vs <==> Has(t, v.addr) && v == VisitOf(t, v.addr)
  {
    WalkShowsNodes(t, v);
  }

  /** Compared with itself, a schema has no new node, so no ancestor excuses anything. */
  lemma {:induction false} NoAncestorIsNew(os: seq<Visit>, t: Tree, a: Address, k: nat, vars: Vars)
    requires Shown(os, t) && Has(t, a) && k <= |a| && vars.existingPaths == PathTexts(os)
    ensures !AnyAncestorAllows(VisitOf(t, a), k, vars)
  {
    if k > 0 {
      NoAncestorIsNew(os, t, a, k - 1, vars);
      AncestorVisit(t, a, k - 1);
      ShownNode(os, t, VisitOf(t, a[..k - 1]));
      assert PathText(a[..k - 1]) in PathTexts(os);
    }
  }

  /** The first walk's table contains what this node requires. */
  ghost predicate HidesNothing(f: Facts, path: string, table: map<string, set<string>>) {
    f.typ != "array" ==> SetOf(f.required) <= SetAt(table, path)
  }

  lemma SelfCheck(os: seq<Visit>, t: Tree, a: Address, vars: Vars)
    requires Shown(os, t) && Has(t, a) && vars.existingPaths == PathTexts(os)
    ensures CheckFindings(VisitOf(t, a), vars) == {} <==>
      !SetsMinimum(FactsAt(t, a)) &&
      HidesNothing(FactsAt(t, a), PathText(a), vars.existingRequired)
  {
    hide AnyAncestorAllows, PathText, IsFieldOptional;
    AncestorVisit(t, a, |a|);
    NoAncestorIsNew(os, t, a, |a|, vars);
    ShownNode(os, t, VisitOf(t, a));
    assert PathText(a) in vars.existingPaths;
    var f, path := FactsAt(t, a), PathText(a);
    assert VisitOf(t, a).Here() == f;
    if f.typ == "array" {
      assert SetsMinimum(f) ==> TextAt(vars.locations, path) in CheckFindings(VisitOf(t, a), vars);
    } else {
      MissingShow(f, vars, path);
    }
  }

  lemma MissingShow(f: Facts, vars: Vars, path: string)
    ensures var missing := SetOf(f.required) - SetAt(vars.existingRequired, path);
      var shown := set r | r in missing :: TextAt(vars.locations, path) + "." + r;
      (shown == {} <==> SetOf(f.required) <= SetAt(vars.existingRequired, path))
  {
    var missing := SetOf(f.required) - SetAt(vars.existingRequired, path);
    var shown := set r | r in missing :: TextAt(vars.locations, path) + "." + r;
    if !(SetOf(f.required) <= SetAt(vars.existingRequired, path)) {
      var r :| r in SetOf(f.required) && r !in SetAt(vars.existingRequired, path);
      assert r in missing && TextAt(vars.locations, path) + "." + r in shown;
    } else {
      assert missing == {};
    }
  }

  ghost predicate AllShow(t: Tree, table: map<string, set<string>>) {
    forall a :: Has(t, a) ==> HidesNothing(FactsAt(t, a), PathText(a), table)
  }

  /** Three walks of one schema report nothing exactly when no array has a minimum length and the first walk's table
      hides no name: where nodes share a path, the one it saw last must require what each of them requires. */
  lemma {:induction false} SelfReports(os: seq<Visit>, ns: seq<Visit>, cs: seq<Visit>, t: Tree)
    requires Shown(os, t) && Shown(ns, t) && Shown(cs, t)
    ensures PassesReport(os, ns, cs) == {} <==>
      NoArrayMinimum(t) && AllShow(t, Written(map[], os, PathKey, RequiredValue))
  {
    hide Shown, CheckFindings, HidesNothing, PathText, SetsMinimum, Has, FactsAt, VisitOf;
    var vars := TwoPasses(os, ns, t);
    ChecksEmpty(os, cs, t, vars);
  }

  lemma TwoPasses(os: seq<Visit>, ns: seq<Visit>, t: Tree) returns (vars: Vars)
    requires Shown(os, t) && Shown(ns, t)
    ensures vars == Run(NewPass, Run(ExistingPass, NO_VARS, os), ns)
    ensures vars.findings == {} && vars.existingPaths == PathTexts(os)
    ensures vars.existingRequired == Written(map[], os, PathKey, RequiredValue)
  {
    RunExisting(NO_VARS, os);
    RunNew(Run(ExistingPass, NO_VARS, os), ns);
    vars := Run(NewPass, Run(ExistingPass, NO_VARS, os), ns);
  }

  lemma {:induction false} ChecksEmpty(os: seq<Visit>, cs: seq<Visit>, t: Tree, vars: Vars)
    requires Shown(os, t) && Shown(cs, t) && vars.existingPaths == PathTexts(os) && vars.findings == {}
    ensures Run(CheckPass, vars, cs).findings == {} <==> NoArrayMinimum(t) && AllShow(t, vars.existingRequired)
  {
    hide CheckFindings, HidesNothing, PathText, SetsMinimum, Has, FactsAt, VisitOf;
    RunCheck(vars, cs);
    NoneFound(cs, vars);
    forall a | Has(t, a)
      ensures VisitOf(t, a) in cs
      ensures CheckFindings(VisitOf(t, a), vars) == {} <==>
        !SetsMinimum(FactsAt(t, a)) &&
        HidesNothing(FactsAt(t, a), PathText(a), vars.existingRequired)
    {
      ShownNode(cs, t, VisitOf(t, a));
      SelfCheck(os, t, a, vars);
    }
    forall v | v in cs ensures Has(t, v.addr) && v == VisitOf(t, v.addr) {
      ShownNode(cs, t, v);
    }
  }

  lemma NoneFound(cs: seq<Visit>, vars: Vars)
    requires AllValid(cs)
    ensures AllFindings(cs, vars) == {} <==> forall v :: v in cs ==> CheckFindings(v, vars) == {}
  {
    hide CheckFindings;
    forall v, f | v in cs && f in CheckFindings(v, vars) ensures f in AllFindings(cs, vars) {
    }
  }

  // ---------------------------------------------------------------- whatever the orders

  /** Whichever node of a path is seen last, it requires what each node of that path requires. */
  ghost predicate SharedPathsAgree(t: Tree) {
    forall a, w :: Has(t, a) && FactsAt(t, a).typ != "array" && MayLeave(t, [], REQUIRED, PathText(a), w) ==>
      SetOf(FactsAt(t, a).required) <= w
  }

  /** A walk of a schema compared with itself. */
  lemma {:induction false} SeenSelf(s: Schema, seen: Option<Schema>)
    requires WellFormed(TreeOf(s)) && SeenAs(Some(s), seen)
    ensures seen.Some? && OrderOf(s, seen.value) && Shown(Nodes(RootOf(seen)), TreeOf(s))
    ensures Written(map[], Nodes(RootOf(seen)), PathKey, RequiredValue) == Filled(seen.value, REQUIRED)
  {
    SeenVisits(Some(s), seen);
    WrittenVisits(TreeOf(seen.value), [], [], REQUIRED, PathKey, RequiredValue);
  }

  lemma {:induction false} PathInTable(s: Schema, r: Schema, a: Address)
    requires WellFormed(TreeOf(s)) && OrderOf(s, r) && Has(TreeOf(s), a)
    ensures PathText(a) in Filled(r, REQUIRED)
  {
    var v := VisitOf(TreeOf(s), a);
    WalkShowsNodes(TreeOf(s), v);
    ReorderedWalk(TreeOf(s), TreeOf(r), v);
    WrittenVisits(TreeOf(r), [], [], REQUIRED, PathKey, RequiredValue);
    WrittenKeys(map[], Walk(TreeOf(r)), PathKey, RequiredValue);
    assert PathKey(v) == PathText(a);
  }

  lemma {:induction false} AllShowInAnyOrder(s: Schema)
    requires WellFormed(TreeOf(s))
    ensures (forall r :: OrderOf(s, r) ==> AllShow(TreeOf(s), Filled(r, REQUIRED))) <==> SharedPathsAgree(TreeOf(s))
  {
    hide MayLeave, Filled, OrderOf, PathText, Has;
    var t := TreeOf(s);
    if SharedPathsAgree(t) {
      forall r, a | OrderOf(s, r) && Has(t, a)
        ensures HidesNothing(FactsAt(t, a), PathText(a), Filled(r, REQUIRED))
      {
        PathInTable(s, r, a);
        LeftExactly(s, REQUIRED, PathText(a), Filled(r, REQUIRED)[PathText(a)]);
      }
    }
    if forall r :: OrderOf(s, r) ==> AllShow(t, Filled(r, REQUIRED)) {
      forall a, w | Has(t, a) && FactsAt(t, a).typ != "array" && MayLeave(t, [], REQUIRED, PathText(a), w)
        ensures SetOf(FactsAt(t, a).required) <= w
      {
        LeftExactly(s, REQUIRED, PathText(a), w);
        var r :| OrderOf(s, r) && PathText(a) in Filled(r, REQUIRED) && Filled(r, REQUIRED)[PathText(a)] == w;
        assert HidesNothing(FactsAt(t, a), PathText(a), Filled(r, REQUIRED));
      }
    }
  }

  lemma SelfReportSeen(v: Version, w: Walks)
    requires v.schema.Some? && WellFormedVersion(v) && Saw()(v, v, w)
    ensures w.existing.Some? && OrderOf(v.schema.value, w.existing.value)
    ensures ReportSeen(w) == {} <==>
      NoArrayMinimum(TreeOf(v.schema.value)) && AllShow(TreeOf(v.schema.value), Filled(w.existing.value, REQUIRED))
  {
    hide AllShow, NoArrayMinimum, Filled, OrderOf, PassesReport, Nodes, RootOf, Written, SeenAs;
    var s := v.schema.value;
    SeenSelf(s, w.existing);
    SeenSelf(s, w.updated);
    SeenSelf(s, w.checked);
    SelfReports(Nodes(RootOf(w.existing)), Nodes(RootOf(w.updated)), Nodes(RootOf(w.checked)), TreeOf(s));
  }

  /** A version compared with itself reports nothing, whatever its walks see, exactly when no array has a minimum length
      and the nodes of every shared path agree. */
  lemma SelfVersionExactly(v: Version)
    requires v.schema.Some? && WellFormedVersion(v)
    ensures (forall w :: Saw()(v, v, w) ==> ReportSeen(w) == {}) <==>
      NoArrayMinimum(TreeOf(v.schema.value)) && SharedPathsAgree(TreeOf(v.schema.value))
  {
    hide AllShow, NoArrayMinimum, SharedPathsAgree, Filled, ReportSeen;
    var s := v.schema.value;
    AllShowInAnyOrder(s);
    SeenAsWritten(v.schema);
    forall w | Saw()(v, v, w)
      ensures w.existing.Some? && OrderOf(s, w.existing.value)
      ensures ReportSeen(w) == {} <==>
        NoArrayMinimum(TreeOf(s)) && AllShow(TreeOf(s), Filled(w.existing.value, REQUIRED))
    {
      SelfReportSeen(v, w);
    }
    forall r | OrderOf(s, r) ensures Saw()(v, v, Walks(Some(r), v.schema, v.schema)) {
    }
    ReorderedReflexive(TreeOf(s));
    assert OrderOf(s, s);
  }

  /** Where no path is shared, every table agrees. */
  lemma {:induction false} DistinctAgrees(t: Tree)
    requires WellFormed(t) && DistinctPaths(Some(t), Some(t))
    ensures SharedPathsAgree(t)
  {
    hide MayLeave, PathText;
    forall a, w | Has(t, a) && MayLeave(t, [], REQUIRED, PathText(a), w) ensures w == SetOf(FactsAt(t, a).required) {
      var b := LeftByNode(t, [], REQUIRED, PathText(a), w);
      assert [] + b == b;
      assert Known(Some(t), Some(t), a) && Known(Some(t), Some(t), b);
    }
  }

  // ---------------------------------------------------------------- two definitions hide each other

  function TwoDefinitions(x: string, a: string, y: string, b: string): Schema {
    PLAIN.(typ := "object",
           definitions := [Entry(x, PLAIN.(required := [a])), Entry(y, PLAIN.(required := [b]))])
  }

  lemma OnlyDefinitions(x: string, a: string, y: string, b: string, k: nat)
    requires k < KINDS && k != 9
    ensures Block(TwoDefinitions(x, a, y, b), k) == []
  {
  }

  lemma DefinitionBlock(x: string, a: string, y: string, b: string)
    ensures Block(TwoDefinitions(x, a, y, b), 9)
      == [Edge(Definition(x), PLAIN.(required := [a])), Edge(Definition(y), PLAIN.(required := [b]))]
  {
  }

  lemma TwoDefinitionsTree(x: string, a: string, y: string, b: string)
    ensures TreeOf(TwoDefinitions(x, a, y, b)) == Node(FactsOf(PLAIN.(typ := "object")), [
      Kid(Definition(x), Node(FactsOf(PLAIN.(required := [a])), [])),
      Kid(Definition(y), Node(FactsOf(PLAIN.(required := [b])), []))])
  {
    hide Block, EdgesFrom;
    var s := TwoDefinitions(x, a, y, b);
    forall k: nat | k < KINDS && k != 9 ensures Block(s, k) == [] {
      OnlyDefinitions(x, a, y, b, k);
    }
    OneBlock(s, 9, 0);
    DefinitionBlock(x, a, y, b);
    LeafTree(PLAIN.(required := [a]));
    LeafTree(PLAIN.(required := [b]));
    assert TreeOf(s).kids == [TreeOf(s).kids[0], TreeOf(s).kids[1]];
  }

  lemma DefinitionPath(x: string)
    ensures PathText([Definition(x)]) == "^.definitions"
  {
    Extend([], Definition(x));
    assert [] + [Definition(x)] == [Definition(x)];
    assert ROOT + [Child("definitions")] == [Child("^"), Child("definitions")];
    assert StepsText([Child("definitions")]) == StepText(Child("definitions")) + StepsText([]);
    assert [Child("^"), Child("definitions")][1..] == [Child("definitions")];
  }

  lemma {:induction false} LeafHas(t: Tree, n: Address)
    requires t.kids == []
    ensures Has(t, n) <==> n == []
  {
  }

  /** The nodes of a tree with two leaves below its root. */
  lemma {:induction false} TwoLeaves(t: Tree, k: Kid, m: Kid, n: Address)
    requires t.kids == [k, m] && k.link != m.link && k.tree.kids == [] && m.tree.kids == []
    ensures WellFormed(t)
    ensures Has(t, n) <==> n == [] || n == [k.link] || n == [m.link]
    ensures Has(t, n) ==>
      FactsAt(t, n) == if n == [] then t.facts else if n == [k.link] then k.tree.facts else m.tree.facts
  {
    assert t.kids[1..] == [m];
    assert [m][1..] == [];
    if n != [] {
      assert Follow(t, n[0])
        == if n[0] == k.link then Some(k.tree) else if n[0] == m.link then Some(m.tree) else None;
      if n[0] == k.link || n[0] == m.link {
        LeafHas(Follow(t, n[0]).value, n[1..]);
        assert n == [n[0]] + n[1..];
      }
    }
  }

  /** The nodes of the schema, and what they require. */
  lemma TwoDefinitionsNodes(x: string, a: string, y: string, b: string, n: Address)
    requires x != y
    ensures var t := TreeOf(TwoDefinitions(x, a, y, b));
      && WellFormed(t)
      && (Has(t, n) <==> n == [] || n == [Definition(x)] || n == [Definition(y)])
      && (Has(t, n) && n != [] ==> FactsAt(t, n).required == if n == [Definition(x)] then [a] else [b])
      && (Has(t, n) ==> FactsAt(t, n).typ != "array")
  {
    hide TreeOf, Has, FactsAt, WellFormed;
    TwoDefinitionsTree(x, a, y, b);
    var t := TreeOf(TwoDefinitions(x, a, y, b));
    TwoLeaves(t, Kid(Definition(x), Node(FactsOf(PLAIN.(required := [a])), [])),
              Kid(Definition(y), Node(FactsOf(PLAIN.(required := [b])), [])), n);
  }

  lemma TwoDefinitionsSound(x: string, a: string, y: string, b: string)
    requires x != y
    ensures WellFormed(TreeOf(TwoDefinitions(x, a, y, b))) && NoArrayMinimum(TreeOf(TwoDefinitions(x, a, y, b)))
  {
    hide TreeOf, Has, FactsAt, WellFormed;
    var t := TreeOf(TwoDefinitions(x, a, y, b));
    TwoDefinitionsNodes(x, a, y, b, []);
    forall n | Has(t, n) ensures FactsAt(t, n).typ != "array" {
      TwoDefinitionsNodes(x, a, y, b, n);
    }
  }

  /** Whichever definition was seen last, the other's name is missing from the table. */
  lemma OneDefinitionHidden(x: string, a: string, y: string, b: string, r: Schema)
    requires x != y && a != b && OrderOf(TwoDefinitions(x, a, y, b), r)
    ensures !AllShow(TreeOf(TwoDefinitions(x, a, y, b)), Filled(r, REQUIRED))
  {
    hide MayLeave, Filled, PathText, OrderOf, Has, FactsAt, TreeOf, WellFormed, TwoDefinitions;
    var s := TwoDefinitions(x, a, y, b);
    var t, p, q := TreeOf(s), [Definition(x)], [Definition(y)];
    TwoDefinitionsNodes(x, a, y, b, p);
    TwoDefinitionsNodes(x, a, y, b, q);
    DefinitionPath(x);
    DefinitionPath(y);
    PathInTable(s, r, p);
    var left := Filled(r, REQUIRED)["^.definitions"];
    LeftExactly(s, REQUIRED, "^.definitions", left);
    var n := LeftByNode(t, [], REQUIRED, "^.definitions", left);
    assert [] + n == n;
    TwoDefinitionsNodes(x, a, y, b, n);
    RootPath();
    assert n == p || n == q;
    if n == p {
      assert b in SetOf(FactsAt(t, q).required) && b !in left;
      assert !HidesNothing(FactsAt(t, q), PathText(q), Filled(r, REQUIRED));
    } else {
      assert a in SetOf(FactsAt(t, p).required) && a !in left;
      assert !HidesNothing(FactsAt(t, p), PathText(p), Filled(r, REQUIRED));
    }
  }

  /** A schema without any array that no order lets pass as its own update: of two definitions the walk remembers the
      required names of one, and reports those of the other. */
  lemma DefinitionsRejectThemselves(x: string, a: string, y: string, b: string, w: Walks)
    requires x != y && a != b
    requires var v := Version("v1", Some(TwoDefinitions(x, a, y, b))); Saw()(v, v, w)
    ensures NoArrayMinimum(TreeOf(TwoDefinitions(x, a, y, b))) && ReportSeen(w) != {}
  {
    hide Filled, ReportSeen, SeenAs, TreeOf, NoArrayMinimum, AllShow, TwoDefinitions;
    TwoDefinitionsSound(x, a, y, b);
    SelfReportSeen(Version("v1", Some(TwoDefinitions(x, a, y, b))), w);
    OneDefinitionHidden(x, a, y, b, w.existing.value);
  }

  lemma RootPath()
    ensures PathText([]) == "^"
  {
  }

  // ---------------------------------------------------------------- a bracket in a name

  const BARE := PLAIN.(typ := "object")

  const INNER := PLAIN.(typ := "object", required := ["r"], properties := [Entry("r", PLAIN.(typ := "string"))])

  /** An optional object named "]" that requires a string of its own. */
  const BRACKET := PLAIN.(typ := "object", properties := [Entry("]", INNER)])

  lemma {:induction false} OnePropertyTree(s: Schema, d: Entry)
    requires s == PLAIN.(typ := s.typ, required := s.required, properties := [d])
    ensures TreeOf(s) == Node(FactsOf(s), [Kid(Property(d.name), TreeOf(d.schema))])
  {
    hide EdgesFrom;
    forall k: nat | k < KINDS && k != 5 ensures Block(s, k) == [] {
      OtherBlocks(s, k);
    }
    PropertyBlock(s, d);
    hide Block;
    OneBlock(s, 5, 0);
    assert TreeOf(s).kids == [TreeOf(s).kids[0]];
  }

  lemma OtherBlocks(s: Schema, k: nat)
    requires s == PLAIN.(typ := s.typ, required := s.required, properties := s.properties) && k < KINDS && k != 5
    ensures Block(s, k) == []
  {
  }

  lemma PropertyBlock(s: Schema, d: Entry)
    requires s.properties == [d]
    ensures Block(s, 5) == [Edge(Property(d.name), d.schema)]
  {
  }

  lemma BracketTrees()
    ensures TreeOf(BARE) == Node(FactsOf(BARE), [])
    ensures TreeOf(INNER) == Node(FactsOf(INNER), [Kid(Property("r"), Node(FactsOf(PLAIN.(typ := "string")), []))])
    ensures TreeOf(BRACKET) == Node(FactsOf(BRACKET), [Kid(Property("]"), TreeOf(INNER))])
  {
    LeafTree(BARE);
    LeafTree(PLAIN.(typ := "string"));
    OnePropertyTree(INNER, Entry("r", PLAIN.(typ := "string")));
    OnePropertyTree(BRACKET, Entry("]", INNER));
  }

  /** The nodes of a tree with one child below its root. */
  lemma {:induction false} OneKid(t: Tree, k: Kid, n: Address)
    requires t.kids == [k]
    ensures WellFormed(k.tree) ==> WellFormed(t)
    ensures Has(t, n) <==> n == [] || (n[0] == k.link && Has(k.tree, n[1..]))
    ensures Has(t, n) ==> FactsAt(t, n) == if n == [] then t.facts else FactsAt(k.tree, n[1..])
  {
    assert [k][1..] == [];
    assert n != [] ==> Follow(t, n[0]) == if n[0] == k.link then Some(k.tree) else None;
  }

  lemma BracketNodes(n: Address)
    ensures var t := TreeOf(BRACKET);
      && WellFormed(t)
      && (Has(t, n) ==> FactsAt(t, n).typ != "array" && (n != [Property("]")] ==> FactsAt(t, n).required == []))
      && Has(t, [Property("]")]) && FactsAt(t, [Property("]")]) == FactsOf(INNER)
      && FactsAt(t, []) == FactsOf(BRACKET)
  {
    hide TreeOf, Has, FactsAt, WellFormed;
    BracketTrees();
    var inner := Kid(Property("]"), TreeOf(INNER));
    var leaf := Kid(Property("r"), Node(FactsOf(PLAIN.(typ := "string")), []));
    LeafWellFormed(leaf.tree);
    forall m ensures Has(TreeOf(BRACKET), m) ==>
      FactsAt(TreeOf(BRACKET), m).typ != "array" &&
      (m != [Property("]")] ==> FactsAt(TreeOf(BRACKET), m).required == [])
    {
      OneKid(TreeOf(BRACKET), inner, m);
      if m != [] && m[0] == Property("]") {
        assert m[1..] == [] ==> m == [Property("]")];
        OneKid(TreeOf(INNER), leaf, m[1..]);
        if m[1..] != [] {
          LeafHas(leaf.tree, m[1..][1..]);
          LeafFacts(leaf.tree);
        }
      }
    }
    OneKid(TreeOf(INNER), leaf, []);
    OneKid(TreeOf(BRACKET), inner, []);
    OneKid(TreeOf(BRACKET), inner, [Property("]")]);
    assert [Property("]")][1..] == [];
  }

  lemma LeafFacts(t: Tree)
    ensures Has(t, []) && FactsAt(t, []) == t.facts
  {
  }

  lemma {:induction false} LeafWellFormed(t: Tree)
    requires t.kids == []
    ensures WellFormed(t)
  {
  }

  /** A text that ends in two closing brackets has no last key. */
  lemma NoKeyBeforeBracket(t: string)
    requires |t| >= 2 && t[|t| - 2] == ']'
    ensures FindLastKey(t) == None
  {
    forall i: nat | i + 2 < |t| ensures !OpensLastKey(t, i) {
      assert t[i + 1..|t| - 1][|t| - 3 - i] == t[|t| - 2];
    }
  }

  lemma BracketSteps()
    ensures StepsText(PathSteps(Property("]"))) == ".properties[]]"
  {
    hide StepsText;
    OneStepText(Child("properties"));
    OneStepText(Key("]"));
    StepsTextAppend([Child("properties")], [Key("]")]);
    assert [Child("properties")] + [Key("]")] == PathSteps(Property("]"));
    assert StepText(Child("properties")) == ".properties" && StepText(Key("]")) == "[" + "]" + "]";
  }

  lemma RootText()
    ensures PathOf([]) == ROOT && String(ROOT) == "^"
  {
    assert ROOT[1..] == [];
    assert StepsText([]) == "";
  }

  lemma BracketPath()
    ensures PathText([Property("]")]) == "^.properties[]]" && FindLastKey("^.properties[]]") == None
  {
    hide StepsText, FindLastKey, String, PathOf, PathSteps;
    var a := [Property("]")];
    Extend([], Property("]"));
    assert [] + a == a;
    RootText();
    BracketSteps();
    StringAppend(ROOT, PathSteps(Property("]")));
    NoKeyBeforeBracket("^.properties[]]");
  }

  /** The tables of the first two walks. */
  ghost function TablesSeen(w: Walks): Vars {
    Run(NewPass, Run(ExistingPass, NO_VARS, Nodes(RootOf(w.existing))), Nodes(RootOf(w.updated)))
  }

  lemma TablesOfExisting(w: Walks)
    ensures TablesSeen(w).existingPaths == PathTexts(Nodes(RootOf(w.existing)))
    ensures TablesSeen(w).existingRequired.Keys == PathTexts(Nodes(RootOf(w.existing)))
  {
    hide PathText, RootOf, Nodes;
    var vs := Nodes(RootOf(w.existing));
    RunExisting(NO_VARS, vs);
    RunNew(Run(ExistingPass, NO_VARS, vs), Nodes(RootOf(w.updated)));
    WrittenKeys(map[], vs, PathKey, RequiredValue);
    assert (set v | v in vs :: PathKey(v)) == PathTexts(vs);
  }

  /** Whatever the third walk finds at a node is reported. */
  lemma FoundIsReported(e: Version, v: Version, w: Walks, a: Address, f: string)
    requires v.schema.Some? && WellFormedVersion(v) && Saw()(e, v, w) && Has(TreeOf(v.schema.value), a)
    requires f in CheckFindings(VisitOf(TreeOf(v.schema.value), a), TablesSeen(w))
    ensures f in ReportSeen(w)
  {
    hide CheckFindings, Has, VisitOf, WellFormed, SeenAs;
    var n := VisitOf(TreeOf(v.schema.value), a);
    RunCheck(TablesSeen(w), Nodes(RootOf(w.checked)));
    SeenVisits(v.schema, w.checked);
    WalkShowsNodes(TreeOf(v.schema.value), n);
    assert n in Nodes(RootOf(w.checked));
  }

  lemma BareWalked(seen: Option<Schema>)
    requires SeenAs(Some(BARE), seen)
    ensures WellFormed(TreeOf(BARE)) && PathTexts(Nodes(RootOf(seen))) == {"^"}
  {
    hide SeenAs, PathText, Nodes, RootOf, TreeOf, Has, VisitOf;
    BracketTrees();
    LeafWellFormed(TreeOf(BARE));
    SeenVisits(Some(BARE), seen);
    var vs := Nodes(RootOf(seen));
    BareNodes();
    forall v ensures v in vs <==> v.addr == [] && Has(TreeOf(BARE), []) && v == VisitOf(TreeOf(BARE), []) {
      BareNode(v);
    }
    RootPath();
    assert VisitOf(TreeOf(BARE), []) in vs;
  }

  lemma BareNodes()
    ensures Has(TreeOf(BARE), [])
  {
    hide TreeOf;
    LeafFacts(TreeOf(BARE));
  }

  lemma BareNode(v: Visit)
    ensures v in Nodes(RootOf(Some(BARE))) <==>
      v.addr == [] && Has(TreeOf(BARE), []) && v == VisitOf(TreeOf(BARE), [])
  {
    hide TreeOf;
    BracketTrees();
    LeafWellFormed(TreeOf(BARE));
    WalkShowsNodes(TreeOf(BARE), v);
    LeafHas(TreeOf(BARE), v.addr);
  }

  /** At the node named "]" the pattern reads no key, so the code takes it for required. */
  lemma BracketFound(vars: Vars)
    requires vars.existingPaths == {"^"} && "^.properties[]]" !in vars.existingRequired
    ensures Has(TreeOf(BRACKET), [Property("]")])
    ensures TextAt(vars.locations, "^.properties[]]") + ".r"
      in CheckFindings(VisitOf(TreeOf(BRACKET), [Property("]")]), vars)
  {
    hide TreeOf, Has, FactsAt, WellFormed, FindLastKey, PathText;
    BracketNodes([]);
    BracketPath();
    var t, a := TreeOf(BRACKET), [Property("]")];
    AncestorVisit(t, a, 0);
    AncestorVisit(t, a, 1);
    AncestorVisit(t, [], 0);
    assert a[..0] == [] && a[..1] == a;
    var v := VisitOf(t, a);
    assert v.Here() == FactsOf(INNER) && v.Ancestor(0).Here() == FactsOf(BRACKET);
    assert !AncestorAllows(v, 0, vars);
    assert !AnyAncestorAllows(v, 1, vars) by {
      assert !AnyAncestorAllows(v, 0, vars);
    }
    assert |v.addr| == 1 && PathText(v.addr) == "^.properties[]]";
    assert !IsFieldOptional(v, vars.newRequired);
    var missing := SetOf(v.Here().required) - SetAt(vars.existingRequired, "^.properties[]]");
    assert v.Here().required == ["r"] && "r" in missing;
    assert CheckFindings(v, vars) == set r | r in missing :: TextAt(vars.locations, "^.properties[]]") + "." + r;
    assert TextAt(vars.locations, "^.properties[]]") + "." + "r" in CheckFindings(v, vars);
    DotName(TextAt(vars.locations, "^.properties[]]"));
  }

  lemma DotName(t: string)
    ensures t + "." + "r" == t + ".r"
  {
  }

  lemma BracketKeepsLists()
    ensures WellFormed(TreeOf(BARE)) && WellFormed(TreeOf(BRACKET))
    ensures KeepsLists(TreeOf(BARE), TreeOf(BRACKET)) && SameTypes(TreeOf(BARE), TreeOf(BRACKET))
    ensures NoArrayMinimum(TreeOf(BRACKET))
  {
    hide TreeOf, Has, FactsAt, WellFormed;
    BracketTrees();
    LeafWellFormed(TreeOf(BARE));
    var o, n := TreeOf(BARE), TreeOf(BRACKET);
    LeafFacts(o);
    BracketNodes([]);
    forall a | Has(n, a) ensures FactsAt(n, a).typ != "array" {
      BracketNodes(a);
    }
    forall a | Has(o, a) && Has(n, a)
      ensures FactsAt(o, a).typ == FactsAt(n, a).typ && FactsAt(n, a).required == []
    {
      LeafHas(o, a);
    }
  }

  /** The update adds an optional object and breaks no stored object, and yet no order lets it pass: a key the pattern
      does not read excuses nothing. */
  lemma BracketRejectsCompatible(w: Walks)
    requires Saw()(Version("v1", Some(BARE)), Version("v1", Some(BRACKET)), w)
    ensures Compatible(TreeOf(BARE), TreeOf(BRACKET)) && NoArrayMinimum(TreeOf(BRACKET))
    ensures ReportSeen(w) != {}
  {
    hide TreeOf, Has, FactsAt, WellFormed, CheckFindings, ReportSeen, SeenAs, PathTexts, VisitOf, TablesSeen,
         KeepsLists, SameTypes, Valid, Closed, NoArrayMinimum, FindLastKey;
    BracketKeepsLists();
    var o, n := TreeOf(BARE), TreeOf(BRACKET);
    LeafFacts(o);
    LeafFacts(n);
    forall x | Valid(o, x) && Closed(o, x) ensures Valid(n, x) {
      RootNode(o);
      RootNode(n);
      Sound(o, n, x);
      StaysValid(o, n, [], x);
    }
    TablesOfExisting(w);
    BareWalked(w.existing);
    BracketFound(TablesSeen(w));
    FoundIsReported(Version("v1", Some(BARE)), Version("v1", Some(BRACKET)), w, [Property("]")],
                    TextAt(TablesSeen(w).locations, "^.properties[]]") + ".r");
  }

  lemma {:induction false} RootNode(t: Tree)
    ensures At(t, []) == Some(t)
  {
  }
}
