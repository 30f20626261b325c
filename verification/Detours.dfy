/** Runs of accepted updates that end where no single update could. */
module Detours {
  import opened Wrappers
  import opened Schemas
  import opened Trees
  import opened Addresses
  import opened Callbacks
  import opened Walker
  import opened Collected
  import opened Crds
  import opened LastWriters
  import opened TypeOrder
  import opened NewlyRequired
  import opened Instances
  import opened RequiredMeaning
  import opened Runs
  import NoDataTypeChange
  import NoFieldRemoval
  import NoEnumRemoval
  import NoNewRequiredFields

  // ---------------------------------------------------------------- a detour through array

  function OneVersion(s: Schema): Crd {
    Crd("c", [Version("v1", Some(s))])
  }

  lemma OneVersionUpdates(s: Schema, t: Schema, e: Version, v: Version)
    ensures Updates(Some(OneVersion(s)), OneVersion(t).versions, e, v) <==>
      e == Version("v1", Some(s)) && v == Version("v1", Some(t))
  {
    assert FindVersion(Some(OneVersion(s)), "v1") == Some(Version("v1", Some(s)));
  }

  lemma LeafNodes(f: Facts, a: Address)
    ensures Has(Node(f, []), a) <==> a == []
  {
  }

  lemma LeafFindings(f: Facts, g: Facts)
    requires if g.typ == "array" then !SetsMinimum(g) else SetOf(g.required) <= SetOf(f.required)
    ensures Findings(Some(Node(f, [])), Some(Node(g, []))) == {}
  {
    var o, n := Node(f, []), Node(g, []);
    forall v | v in Nodes(Some(n)) ensures FindingsAt(Some(o), n, v.addr) == {} {
      LeafNodes(g, v.addr);
      LeafNodes(f, v.addr);
    }
  }

  lemma LeafWalk(f: Facts)
    ensures Walk(Node(f, [])) == [Visit([], [f])]
  {
    var t := Node(f, []);
    assert KidVisits(t, 0, [], [] + [f]) == [];
    assert Walk(t) == [Visit([], [] + [f])] + KidVisits(t, 0, [], [] + [f]);
    assert [] + [f] == [f];
  }

  lemma LeafFields(f: Facts)
    ensures NoFieldRemoval.Fields(Some(Node(f, []))) == {"^"}
  {
    LeafWalk(f);
    assert LocationText([]) == "^";
  }

  lemma LeafCrd(s: Schema, t: Schema)
    requires Childless(s) && Childless(t)
    ensures WellFormedCrd(OneVersion(s)) && WellFormedCrd(OneVersion(t))
    ensures NoNewRequiredFields.DistinctUpdate(Some(OneVersion(s)), OneVersion(t))
  {
    LeafTree(s);
    LeafTree(t);
    forall e, v | Updates(Some(OneVersion(s)), OneVersion(t).versions, e, v) ensures DistinctPaths(Root(e), Root(v)) {
      OneVersionUpdates(s, t, e, v);
      LeafPaths(FactsOf(s), FactsOf(t));
    }
  }

  lemma LeafPaths(f: Facts, g: Facts)
    ensures DistinctPaths(Some(Node(f, [])), Some(Node(g, [])))
  {
    PlainDistinct(Some(Node(f, [])), Some(Node(g, [])));
  }

  lemma {:induction false} LeafStepPasses(s: Schema, t: Schema)
    requires Childless(s) && Childless(t)
    requires Findings(Some(TreeOf(s)), Some(TreeOf(t))) == {}
    ensures PassesTwo(OneVersion(s), OneVersion(t))
  {
    var c, d := OneVersion(s), OneVersion(t);
    LeafTree(s);
    LeafTree(t);
    LeafFields(FactsOf(s));
    LeafFields(FactsOf(t));
    LeafCrd(s, t);
    NoNewRequiredFields.AcceptedExactly(Some(c), d);
    NoFieldRemoval.AcceptedExactly(Some(c), d);
    forall e, v | Updates(Some(c), d.versions, e, v) ensures Root(e) == Some(TreeOf(s)) && Root(v) == Some(TreeOf(t)) {
      OneVersionUpdates(s, t, e, v);
    }
  }

  lemma LeafServes(s: Schema)
    requires Childless(s)
    ensures Serves(OneVersion(s), "v1") && SchemaOf(OneVersion(s), "v1") == Some(Node(FactsOf(s), []))
  {
    LeafTree(s);
  }

  lemma {:induction false} EmptyObject(f: Facts, g: Facts, r: string)
    requires f.typ == "object" && f.required == [] && g.typ == "object" && g.required == [r]
    ensures Valid(Node(f, []), Obj(map[])) && Closed(Node(f, []), Obj(map[])) && !RequiredMet(Node(g, []), Obj(map[]))
  {
    assert r in g.required;
  }

  /** Without NoDataTypeChange two accepted steps can require anything: the required list of an array is never
      checked, and what was required before is not new. */
  lemma DetourThroughArray(r: string)
    ensures var c0 := OneVersion(PLAIN.(typ := "object"));
      var c1 := OneVersion(PLAIN.(typ := "array", required := [r]));
      var c2 := OneVersion(PLAIN.(typ := "object", required := [r]));
      && Serves(c0, "v1") && Serves(c1, "v1") && Serves(c2, "v1")
      && TwoRuleRun([c0, c1, c2], "v1") && PassesTwo(c0, c1) && PassesTwo(c1, c2)
      && Storable(c0, "v1", Obj(map[])) && !MeetsRequired(c2, "v1", Obj(map[]))
      && !PassesTwo(c0, c2)
  {
    hide PassesTwo, TwoRuleRun;
    var s0 := PLAIN.(typ := "object");
    var s1 := PLAIN.(typ := "array", required := [r]);
    var s2 := PLAIN.(typ := "object", required := [r]);
    LeafServes(s0);
    LeafServes(s1);
    LeafServes(s2);
    LeafFindings(FactsOf(s0), FactsOf(s1));
    LeafFindings(FactsOf(s1), FactsOf(s2));
    LeafStepPasses(s0, s1);
    LeafStepPasses(s1, s2);
    DirectStepFails(s0, s2, r);
    EmptyObject(FactsOf(s0), FactsOf(s2), r);
    RunOfThree(OneVersion(s0), OneVersion(s1), OneVersion(s2));
  }

  lemma RunOfThree(c0: Crd, c1: Crd, c2: Crd)
    requires Serves(c0, "v1") && Serves(c1, "v1") && Serves(c2, "v1")
    requires PassesTwo(c0, c1) && PassesTwo(c1, c2)
    ensures TwoRuleRun([c0, c1, c2], "v1")
  {
    hide Serves, PassesTwo;
    var run := [c0, c1, c2];
    forall i: nat ensures TwoRuleStep(run, i) {
      assert i == 1 ==> run[i - 1] == c0 && run[i] == c1;
      assert i == 2 ==> run[i - 1] == c1 && run[i] == c2;
    }
  }

  lemma DirectStepFails(s: Schema, t: Schema, r: string)
    requires Childless(s) && Childless(t) && t.typ != "array" && r in t.required && r !in s.required
    ensures !PassesTwo(OneVersion(s), OneVersion(t))
  {
    var c, d := OneVersion(s), OneVersion(t);
    LeafTree(s);
    LeafTree(t);
    var o, n := TreeOf(s), TreeOf(t);
    assert !Gated(Some(o), n, []);
    assert r in NamesAt(Some(o), n, []);
    NamesShow(o, n, []);
    OneVersionUpdates(s, t, Version("v1", Some(s)), Version("v1", Some(t)));
    LeafCrd(s, t);
    NoNewRequiredFields.AcceptedExactly(Some(c), d);
  }

  // ---------------------------------------------------------------- a detour through no enum

  lemma LeafEnums(f: Facts)
    ensures NoEnumRemoval.Enums(Some(Node(f, [])))
      == if f.enums == [] then map[] else map["^" := SetOf(f.enums)]
  {
    var t := Node(f, []);
    LeafWalk(f);
    assert LocationText([]) == "^";
    assert Locations(Nodes(Some(t))) == {"^"};
    var v := Visit([], [f]);
    assert EnumsAt(Nodes(Some(t)), "^") == SetOf(f.enums) by {
      assert forall e :: e in EnumsAt(Nodes(Some(t)), "^") <==> v in Nodes(Some(t)) && e in v.Here().enums;
    }
    assert f.enums != [] ==> f.enums[0] in SetOf(f.enums);
  }

  lemma LeafEnumsPass(s: Schema, t: Schema)
    requires Childless(s) && Childless(t)
    requires s.enums == [] || t.enums == [] || SetOf(s.enums) <= SetOf(t.enums)
    ensures PassesEnums(OneVersion(s), OneVersion(t))
  {
    LeafTree(s);
    LeafTree(t);
    LeafEnums(FactsOf(s));
    LeafEnums(FactsOf(t));
    var c, d := OneVersion(s), OneVersion(t);
    NoEnumRemoval.AcceptedExactly(Some(c), d);
    forall e, v | Updates(Some(c), d.versions, e, v) ensures Root(e) == Some(TreeOf(s)) && Root(v) == Some(TreeOf(t)) {
      OneVersionUpdates(s, t, e, v);
    }
  }

  lemma LeafEnumerates(s: Schema, value: string)
    requires Childless(s)
    ensures Enumerates(OneVersion(s), "v1", "^", value) <==> value in s.enums
  {
    LeafServes(s);
    LeafEnums(FactsOf(s));
    assert value in SetOf(FactsOf(s).enums) <==> value in s.enums;
  }

  /** A value can be dropped in two accepted steps: first the whole enum goes, then it returns without the value. */
  lemma DetourThroughNoEnum(a: string, b: string)
    requires a != b
    ensures var c0 := OneVersion(PLAIN.(enums := [a, b]));
      var c1 := OneVersion(PLAIN);
      var c2 := OneVersion(PLAIN.(enums := [a]));
      && PassesEnums(c0, c1) && PassesEnums(c1, c2)
      && Enumerates(c0, "v1", "^", b) && Enumerates(c2, "v1", "^", a) && !Enumerates(c2, "v1", "^", b)
  {
    var s0, s1, s2 := PLAIN.(enums := [a, b]), PLAIN, PLAIN.(enums := [a]);
    LeafEnumsPass(s0, s1);
    LeafEnumsPass(s1, s2);
    LeafEnumerates(s0, b);
    LeafEnumerates(s2, a);
    LeafEnumerates(s2, b);
  }

  // ---------------------------------------------------------------- a detour through two patterns

  lemma {:induction false} LeafTypes(s: Schema)
    requires Childless(s)
    ensures WellFormed(TreeOf(s)) && LocatedTree(TreeOf(s)) && TypesWritten(Walk(TreeOf(s))) == map["^" := s.typ]
  {
    LeafTree(s);
    TypesFilled(TreeOf(s));
    LeafTable(TreeOf(s), []);
    PatternLocation("");
  }

  /** An update between whose walks no change shows. */
  lemma {:induction false} SeenAlike(s: Schema, t: Schema, r: Schema, u: Schema, typ: string)
    requires WellFormed(TreeOf(s)) && SeenAs(Some(s), Some(r)) && TypesWritten(Walk(TreeOf(r))) == map["^" := typ]
    requires WellFormed(TreeOf(t)) && SeenAs(Some(t), Some(u)) && TypesWritten(Walk(TreeOf(u))) == map["^" := typ]
    ensures PassesTypeRules(OneVersion(s), OneVersion(t))
  {
    hide SeenAs, TypesWritten, NoFieldRemoval.Fields, NoFieldRemoval.Errors, TreeOf, WellFormed;
    var c, d := OneVersion(s), OneVersion(t);
    var e, v := Version("v1", Some(s)), Version("v1", Some(t));
    var w := NoDataTypeChange.Walks(Some(r), Some(u), []);
    assert NoDataTypeChange.ChangesSeen(w) == map[];
    assert NoDataTypeChange.Saw()(e, v, w) && NoDataTypeChange.Check("c")(e, v, w) == [];
    assert PassesIn(NoDataTypeChange.Saw(), NoDataTypeChange.Check("c"), e, v);
    SameLocations(e, Some(r), Some(r));
    SameLocations(v, Some(u), Some(u));
    forall e', v' ensures Updates(Some(c), d.versions, e', v') <==> e' == e && v' == v {
      OneVersionUpdates(s, t, e', v');
    }
    NoFieldRemoval.AcceptedExactly(Some(c), d);
  }

  lemma LeafRecords(s: Schema)
    requires Childless(s)
    ensures HasVersion(OneVersion(s), "v1")
    ensures Agrees(OneVersion(s), "v1", "^") && Records(OneVersion(s), "v1", "^", s.typ)
  {
    hide TypesWritten, SeenAs, Settled, LocatedTree;
    LeafTypes(s);
    LeafTree(s);
    LocatedAgrees(OneVersion(s), "v1", "^");
    SeenAsWritten(Some(s));
    OneRecordsAllRecord(OneVersion(s), "v1", Some(s), "^", s.typ);
  }

  /** A type can be changed in two accepted updates: patterns of both types share the location for a while, and each
      walk happened to record the type that shows no change. */
  lemma DetourThroughPatterns(x: string, p: string, y: string, q: string)
    requires x != y && p != q
    ensures var c0 := OneVersion(PLAIN.(typ := p));
      var c1 := OneVersion(TwoPatterns(Entry(x, PLAIN.(typ := p)), Entry(y, PLAIN.(typ := q))));
      var c2 := OneVersion(PLAIN.(typ := q));
      && PassesTypeRules(c0, c1) && PassesTypeRules(c1, c2) && TypeRun([c0, c1, c2], "v1")
      && Records(c0, "v1", "^", p) && Records(c2, "v1", "^", q)
      && !Agrees(c1, "v1", "^") && !PassesTypeRules(c0, c2)
  {
    hide PassesTypeRules, Records, Agrees, TypesWritten, SeenAs;
    var s0, s2 := PLAIN.(typ := p), PLAIN.(typ := q);
    var a, b := Entry(x, s0), Entry(y, s2);
    var s1, r := TwoPatterns(a, b), TwoPatterns(b, a);
    LeafTypes(s0);
    LeafTypes(s2);
    LeafRecords(s0);
    LeafRecords(s2);
    SeenAsWritten(Some(s0));
    SeenAsWritten(Some(s2));
    TwoPatternsSeen(x, p, y, q);
    SeenAlike(s0, s1, s0, r, p);
    SeenAlike(s1, s2, s1, s2, q);
    WalksDisagree(s1, r, p, q);
    if PassesTypeRules(OneVersion(s0), OneVersion(s2)) {
      StepKeepsTypes(OneVersion(s0), OneVersion(s2), "v1", "^", p);
      RecordsOneType(OneVersion(s2), p, q);
    }
    TypeRunOfThree(OneVersion(s0), OneVersion(s1), OneVersion(s2));
  }

  lemma RecordsOneType(crd: Crd, p: string, q: string)
    requires HasVersion(crd, "v1") && Records(crd, "v1", "^", p) && Records(crd, "v1", "^", q)
    ensures p == q
  {
    hide SeenAs, NoDataTypeChange.Types;
    SeenAsWritten(FindVersion(Some(crd), "v1").value.schema);
  }

  lemma {:induction false} WalksDisagree(s: Schema, r: Schema, p: string, q: string)
    requires WellFormed(TreeOf(s)) && SeenAs(Some(s), Some(s)) && SeenAs(Some(s), Some(r)) && p != q
    requires TypesWritten(Walk(TreeOf(s))) == map["^" := q] && TypesWritten(Walk(TreeOf(r))) == map["^" := p]
    ensures HasVersion(OneVersion(s), "v1") && !Agrees(OneVersion(s), "v1", "^")
  {
    hide SeenAs, TypesWritten, Settled, WellFormed, TreeOf;
    var crd := OneVersion(s);
    assert FindVersion(Some(crd), "v1") == Some(Version("v1", Some(s)));
    if Agrees(crd, "v1", "^") {
      OneRecordsAllRecord(crd, "v1", Some(s), "^", q);
      OneRecordsAllRecord(crd, "v1", Some(r), "^", p);
      RecordsOneType(crd, p, q);
    }
  }

  lemma TypeRunOfThree(c0: Crd, c1: Crd, c2: Crd)
    requires HasVersion(c0, "v1") && HasVersion(c1, "v1") && HasVersion(c2, "v1")
    requires PassesTypeRules(c0, c1) && PassesTypeRules(c1, c2)
    ensures TypeRun([c0, c1, c2], "v1")
  {
    hide HasVersion, PassesTypeRules;
    var run := [c0, c1, c2];
    forall i: nat ensures TypeStep(run, i) {
      assert i == 1 ==> run[i - 1] == c0 && run[i] == c1;
      assert i == 2 ==> run[i - 1] == c1 && run[i] == c2;
    }
  }

  /** Both orders of two patterns, and the type each leaves. */
  lemma TwoPatternsSeen(x: string, p: string, y: string, q: string)
    requires x != y
    ensures var a, b := Entry(x, PLAIN.(typ := p)), Entry(y, PLAIN.(typ := q));
      var s, t := TwoPatterns(a, b), TwoPatterns(b, a);
      && WellFormed(TreeOf(s)) && SeenAs(Some(s), Some(s)) && SeenAs(Some(s), Some(t))
      && TypesWritten(Walk(TreeOf(s))) == map["^" := q] && TypesWritten(Walk(TreeOf(t))) == map["^" := p]
  {
    hide TypesWritten;
    var a, b := Entry(x, PLAIN.(typ := p)), Entry(y, PLAIN.(typ := q));
    TwoPatternsTable(x, p, y, q);
    TwoPatternsTable(y, q, x, p);
    TwoPatternsTree(a, b);
    TwoPatternsTree(b, a);
    LeafTree(a.schema);
    LeafTree(b.schema);
    SwappedKids(Kid(Pattern(x), TreeOf(a.schema)), Kid(Pattern(y), TreeOf(b.schema)));
    SeenAsWritten(Some(TwoPatterns(a, b)));
  }
}
